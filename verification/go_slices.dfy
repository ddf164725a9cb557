/** The parts of Go's `slices` and `sort` packages that the catalog aggregation relies on:
    compaction of adjacent duplicates and sorting, both as values and as the in-place
    updates the Go functions make to a slice's backing array. */
module GoSlices {
  import opened GoStrings

  /** Every element of `s` is the same value. */
  predicate AllEqual<T(==,!new)>(s: seq<T>) {
    forall i, j :: 0 <= i < |s| && 0 <= j < |s| ==> s[i] == s[j]
  }

  lemma SliceOfAppend<T>(a: seq<T>, b: seq<T>, i: nat)
    requires i <= |a|
    ensures (a + b)[i..] == a[i..] + b
  {
  }

  /** `slices.Compact`: `s` with every run of equal adjacent elements replaced by one. */
  function Compact<T(==)>(s: seq<T>): (r: seq<T>)
    ensures |r| <= |s|
    ensures |s| > 0 ==> |r| > 0 && r[|r| - 1] == s[|s| - 1]
    decreases |s|
  {
    if |s| <= 1 then s
    else
      var c := Compact(s[..|s| - 1]);
      if s[|s| - 1] == s[|s| - 2] then c else c + [s[|s| - 1]]
  }

  /** Compaction keeps every value and only those, and leaves no two equal elements next to
      each other. */
  lemma {:induction false} CompactSpec<T(!new)>(s: seq<T>)
    ensures forall x :: x in Compact(s) <==> x in s
    ensures forall i :: 0 <= i < |Compact(s)| - 1 ==> Compact(s)[i] != Compact(s)[i + 1]
    decreases |s|
  {
    if |s| > 1 {
      var init := s[..|s| - 1];
      CompactSpec(init);
      assert s == init + [s[|s| - 1]];
      assert s[|s| - 2] in init;
    }
  }

  /** Compaction leaves at most one element exactly when all elements are equal. */
  lemma CompactAllEqual<T(!new)>(s: seq<T>)
    ensures |Compact(s)| <= 1 <==> AllEqual(s)
  {
    var c := Compact(s);
    CompactSpec(s);
    if |c| <= 1 {
      forall i, j | 0 <= i < |s| && 0 <= j < |s| ensures s[i] == s[j] {
        assert s[i] in c && s[j] in c;
      }
    }
    if |c| > 1 {
      assert c[0] in s && c[1] in s && c[0] != c[1];
    }
  }

  /** A length of a run: at least one element. */
  type RunLength = k: nat | k >= 1 witness 1

  /** The lengths of the runs of equal adjacent elements of `s`, in order. */
  function RunLengths<T(==)>(s: seq<T>): (n: seq<RunLength>)
    ensures |n| > 0 <==> |s| > 0
    decreases |s|
  {
    if |s| <= 1 then (if s == [] then [] else [1])
    else
      var r := RunLengths(s[..|s| - 1]);
      if s[|s| - 1] == s[|s| - 2] then r[..|r| - 1] + [r[|r| - 1] + 1] else r + [1]
  }

  /** `k` copies of `x`. */
  function Repeat<T>(x: T, k: nat): seq<T>
    decreases k
  {
    if k == 0 then [] else Repeat(x, k - 1) + [x]
  }

  /** Each element of `c` repeated as often as `n` says, in order. */
  function Expand<T>(c: seq<T>, n: seq<RunLength>): seq<T>
    requires |c| == |n|
    decreases |c|
  {
    if c == [] then [] else Expand(c[..|c| - 1], n[..|n| - 1]) + Repeat(c[|c| - 1], n[|n| - 1])
  }

  /** Compaction keeps the order of `s` and only merges runs: `s` is its compaction with each
      element repeated as often as the length of its run, which is at least once. */
  lemma {:induction false} CompactRuns<T>(s: seq<T>)
    ensures |RunLengths(s)| == |Compact(s)|
    ensures Expand(Compact(s), RunLengths(s)) == s
    decreases |s|
  {
    if |s| == 1 {
      assert Expand(s, [1]) == Expand([], []) + Repeat(s[0], 1);
      assert Repeat(s[0], 1) == [] + [s[0]];
    } else if |s| > 1 {
      CompactRuns(s[..|s| - 1]);
      if s[|s| - 1] == s[|s| - 2] {
        CompactRunsExtend(s);
      } else {
        CompactRunsNew(s);
      }
    }
  }

  /** The case of `CompactRuns` where the last element extends the last run. */
  lemma CompactRunsExtend<T>(s: seq<T>)
    requires |s| > 1 && s[|s| - 1] == s[|s| - 2]
    requires |RunLengths(s[..|s| - 1])| == |Compact(s[..|s| - 1])|
    requires Expand(Compact(s[..|s| - 1]), RunLengths(s[..|s| - 1])) == s[..|s| - 1]
    ensures |RunLengths(s)| == |Compact(s)|
    ensures Expand(Compact(s), RunLengths(s)) == s
  {
    var x := s[|s| - 1];
    var c, r := Compact(s[..|s| - 1]), RunLengths(s[..|s| - 1]);
    assert Compact(s) == c;
    var r' := RunLengths(s);
    assert r' == r[..|r| - 1] + [r[|r| - 1] + 1];
    assert r'[..|r| - 1] == r[..|r| - 1];
    assert c[|c| - 1] == x;
    ExpandGrowLast(c, r, r', x);
    DropLast(s);
  }

  /** The case of `CompactRuns` where the last element starts a new run. */
  lemma CompactRunsNew<T>(s: seq<T>)
    requires |s| > 1 && s[|s| - 1] != s[|s| - 2]
    requires |RunLengths(s[..|s| - 1])| == |Compact(s[..|s| - 1])|
    requires Expand(Compact(s[..|s| - 1]), RunLengths(s[..|s| - 1])) == s[..|s| - 1]
    ensures |RunLengths(s)| == |Compact(s)|
    ensures Expand(Compact(s), RunLengths(s)) == s
  {
    var x := s[|s| - 1];
    var c, r := Compact(s[..|s| - 1]), RunLengths(s[..|s| - 1]);
    assert Compact(s) == c + [x] && RunLengths(s) == r + [1];
    ExpandAppend(c, r, x);
    DropLast(s);
  }

  /** One more copy of the last element lengthens the last run. */
  lemma ExpandGrowLast<T>(c: seq<T>, r: seq<RunLength>, r': seq<RunLength>, x: T)
    requires |c| == |r| == |r'| > 0 && c[|c| - 1] == x
    requires r'[..|r| - 1] == r[..|r| - 1] && r'[|r| - 1] == r[|r| - 1] + 1
    ensures Expand(c, r') == Expand(c, r) + [x]
  {
    var k := |r|;
    var e := Expand(c[..k - 1], r[..k - 1]);
    var n := r[k - 1];
    ExpandLast(c, r);
    ExpandLast(c, r');
    RepeatSucc(x, n);
    assert Expand(c, r') == e + (Repeat(x, n) + [x]);
    assert Expand(c, r) == e + Repeat(x, n);
  }

  lemma ExpandLast<T>(c: seq<T>, r: seq<RunLength>)
    requires |c| == |r| > 0
    ensures Expand(c, r) == Expand(c[..|c| - 1], r[..|r| - 1]) + Repeat(c[|c| - 1], r[|r| - 1])
  {
  }

  lemma RepeatSucc<T>(x: T, k: nat)
    ensures Repeat(x, k + 1) == Repeat(x, k) + [x]
  {
  }

  /** A new element with a run of one is appended once. */
  lemma ExpandAppend<T>(c: seq<T>, r: seq<RunLength>, x: T)
    requires |c| == |r|
    ensures Expand(c + [x], r + [1]) == Expand(c, r) + [x]
  {
    assert (c + [x])[..|c|] == c && (r + [1])[..|r|] == r;
    assert Repeat(x, 1) == [] + [x];
  }

  lemma DropLast<T>(s: seq<T>)
    requires |s| > 0
    ensures s == s[..|s| - 1] + [s[|s| - 1]]
  {
  }

  /** How the compaction of a prefix grows when the prefix grows by one element. */
  lemma CompactStep<T>(s: seq<T>, r: nat)
    requires 1 <= r < |s|
    ensures s[r] == s[r - 1] ==> Compact(s[..r + 1]) == Compact(s[..r])
    ensures s[r] != s[r - 1] ==> Compact(s[..r + 1]) == Compact(s[..r]) + [s[r]]
  {
    assert s[..r + 1][..r] == s[..r];
  }

  /** The in-place update `slices.Compact` makes to the first `n` elements of `a`: the
      compacted elements move to the front and the remaining positions keep their values. */
  method CompactInPlace<T(==)>(a: array<T>, n: nat) returns (k: nat)
    requires n <= a.Length
    modifies a
    ensures k == |Compact(old(a[..n]))|
    ensures a[..] == Compact(old(a[..n])) + old(a[..])[k..]
  {
    ghost var s := a[..n];
    ghost var orig := a[..];
    if n < 2 {
      assert Compact(s) == s;
      assert orig == s + orig[n..];
      return n;
    }
    assert s == orig[..n] && s[..1] == [s[0]];
    assert Compact(s[..1]) == [s[0]];
    assert orig == [s[0]] + orig[1..];
    var i, r := 1, 1;
    while r < n
      invariant 1 <= i <= r <= n
      invariant |Compact(s[..r])| == i
      invariant a[..] == Compact(s[..r]) + orig[i..]
    {
      i := CompactVisit(a, i, r, s, orig);
      r := r + 1;
    }
    assert s[..n] == s;
    k := i;
    assert a[..] == Compact(s) + orig[k..];
  }

  /** One pass of the `slices.Compact` loop: `a[r]` is kept, at write index `i`, when it
      differs from the element before it. */
  method CompactVisit<T(==)>(a: array<T>, i: nat, r: nat, ghost s: seq<T>, ghost orig: seq<T>)
    returns (next: nat)
    requires 1 <= i <= r < |s| <= |orig| == a.Length && s == orig[..|s|]
    requires |Compact(s[..r])| == i
    requires a[..] == Compact(s[..r]) + orig[i..]
    modifies a
    ensures next == |Compact(s[..r + 1])|
    ensures a[..] == Compact(s[..r + 1]) + orig[next..]
  {
    ghost var c := Compact(s[..r]);
    ghost var rest := orig[i..];
    CompactStep(s, r);
    assert a[r] == rest[r - i] == s[r];
    assert a[r - 1] == s[r - 1] by {
      if i == r {
        assert a[r - 1] == c[|c| - 1] == s[..r][r - 1];
      } else {
        assert a[r - 1] == rest[r - 1 - i];
      }
    }
    next := i;
    if a[r] != a[r - 1] {
      SpliceAt(c, rest, s[r]);
      if i != r {
        a[i] := a[r];
      }
      next := i + 1;
      assert rest[1..] == orig[next..];
    }
  }

  /** Overwriting the element that follows a prefix. */
  lemma SpliceAt<T>(c: seq<T>, rest: seq<T>, v: T)
    requires |rest| > 0
    ensures (c + rest)[|c| := v] == c + [v] + rest[1..]
    ensures rest[0] == v ==> c + rest == c + [v] + rest[1..]
  {
    assert rest == [rest[0]] + rest[1..];
  }

  /** `s` ordered by `key`: no element's key is below the key of an earlier element. */
  ghost predicate SortedBy<T>(s: seq<T>, key: T -> string) {
    forall i, j :: 0 <= i < j < |s| ==> !Less(key(s[j]), key(s[i]))
  }

  /** `s` in strictly ascending order, so without repeated elements. */
  ghost predicate StrictlyAscending(s: seq<string>) {
    forall i, j :: 0 <= i < j < |s| ==> Less(s[i], s[j])
  }

  /** Inserts `x` into `s` in front of the first element whose key is not below `x`'s. */
  function InsertBy<T>(x: T, s: seq<T>, key: T -> string): seq<T>
    decreases |s|
  {
    if s == [] then [x]
    else if Less(key(s[0]), key(x)) then [s[0]] + InsertBy(x, s[1..], key)
    else [x] + s
  }

  /** Sorts `s` by `key` (an insertion sort, which keeps elements of equal key in order). */
  function SortBy<T>(s: seq<T>, key: T -> string): seq<T>
    decreases |s|
  {
    if s == [] then [] else InsertBy(s[0], SortBy(s[1..], key), key)
  }

  /** Inserting adds exactly the one element. */
  lemma {:induction false} InsertByMultiset<T>(x: T, s: seq<T>, key: T -> string)
    ensures multiset(InsertBy(x, s, key)) == multiset(s) + multiset{x}
    decreases |s|
  {
    if s != [] && Less(key(s[0]), key(x)) {
      InsertByMultiset(x, s[1..], key);
      assert s == [s[0]] + s[1..];
    }
  }

  /** Inserting into a sorted sequence keeps it sorted. */
  lemma {:induction false} InsertBySpec<T>(x: T, s: seq<T>, key: T -> string)
    requires SortedBy(s, key)
    ensures multiset(InsertBy(x, s, key)) == multiset(s) + multiset{x}
    ensures SortedBy(InsertBy(x, s, key), key)
    decreases |s|
  {
    InsertByMultiset(x, s, key);
    if s == [] {
    } else if Less(key(s[0]), key(x)) {
      InsertBySpec(x, s[1..], key);
      InsertAfterHead(x, s, key);
    } else {
      var r := [x] + s;
      forall i, j | 0 <= i < j < |r| ensures !Less(key(r[j]), key(r[i])) {
        if i == 0 {
          LessTotal(key(s[0]), key(x));
          if Less(key(r[j]), key(x)) && key(s[0]) != key(x) {
            LessTransitive(key(r[j]), key(x), key(s[0]));
          }
        }
      }
    }
  }

  /** The case of `InsertBySpec` where `x` goes after the head of `s`. */
  lemma InsertAfterHead<T>(x: T, s: seq<T>, key: T -> string)
    requires SortedBy(s, key) && s != [] && Less(key(s[0]), key(x))
    requires SortedBy(InsertBy(x, s[1..], key), key)
    requires multiset(InsertBy(x, s[1..], key)) == multiset(s[1..]) + multiset{x}
    ensures SortedBy(InsertBy(x, s, key), key)
  {
    var rest := InsertBy(x, s[1..], key);
    assert InsertBy(x, s, key) == [s[0]] + rest;
    forall j | 0 <= j < |rest| ensures !Less(key(rest[j]), key(s[0])) {
      assert rest[j] in multiset(rest);
      if rest[j] == x {
        if Less(key(x), key(s[0])) {
          LessTransitive(key(x), key(s[0]), key(x));
          LessIrreflexive(key(x));
        }
      } else {
        assert rest[j] in s[1..];
      }
    }
  }

  /** `SortBy` rearranges `s` into ascending order of `key`. */
  lemma {:induction false} SortBySpec<T>(s: seq<T>, key: T -> string)
    ensures multiset(SortBy(s, key)) == multiset(s)
    ensures SortedBy(SortBy(s, key), key)
    ensures |SortBy(s, key)| == |s|
    decreases |s|
  {
    if s != [] {
      SortBySpec(s[1..], key);
      InsertBySpec(s[0], SortBy(s[1..], key), key);
      assert s == [s[0]] + s[1..];
    }
    assert |multiset(SortBy(s, key))| == |multiset(s)|;
  }

  /** Compaction keeps a sorted sequence sorted. */
  lemma {:induction false} CompactSortedBy<T(!new)>(s: seq<T>, key: T -> string)
    requires SortedBy(s, key)
    ensures SortedBy(Compact(s), key)
    decreases |s|
  {
    if |s| > 1 {
      var init := s[..|s| - 1];
      CompactSortedBy(init, key);
      CompactSpec(init);
      var c := Compact(init);
      if s[|s| - 1] != s[|s| - 2] {
        forall i | 0 <= i < |c| ensures !Less(key(s[|s| - 1]), key(c[i])) {
          assert c[i] in init;
          var k :| 0 <= k < |init| && init[k] == c[i];
          assert s[k] == c[i];
        }
      }
    }
  }

  function Self(s: string): string { s }

  /** Sorted by a key with no two adjacent keys equal means the keys strictly ascend. */
  lemma AscendingKeys<T>(r: seq<T>, key: T -> string)
    requires SortedBy(r, key)
    requires forall i :: 0 <= i < |r| - 1 ==> key(r[i]) != key(r[i + 1])
    ensures forall i, j :: 0 <= i < j < |r| ==> Less(key(r[i]), key(r[j]))
  {
    forall i, j | 0 <= i < j < |r| ensures Less(key(r[i]), key(r[j])) {
      LessTotal(key(r[i]), key(r[i + 1]));
      LessTotal(key(r[i + 1]), key(r[j]));
      if j > i + 1 && key(r[i + 1]) != key(r[j]) {
        LessTransitive(key(r[i]), key(r[i + 1]), key(r[j]));
      }
    }
  }

  /** Sorted with no two adjacent elements equal means strictly ascending. */
  lemma AscendingWithoutRepeats(r: seq<string>)
    requires SortedBy(r, Self)
    requires forall i :: 0 <= i < |r| - 1 ==> r[i] != r[i + 1]
    ensures StrictlyAscending(r)
  {
    AscendingKeys(r, Self);
  }

  /** `slices.Sort` followed by `slices.Compact` on strings. */
  function SortedDistinct(xs: seq<string>): seq<string> {
    Compact(SortBy(xs, Self))
  }

  /** The result of sorting and compacting is the strictly ascending list of the values of
      `xs`. */
  lemma SortedDistinctSpec(xs: seq<string>)
    ensures StrictlyAscending(SortedDistinct(xs))
    ensures forall x :: x in SortedDistinct(xs) <==> x in xs
    ensures |SortedDistinct(xs)| <= |xs|
  {
    var sorted := SortBy(xs, Self);
    SortBySpec(xs, Self);
    CompactSortedBy(sorted, Self);
    CompactSpec(sorted);
    AscendingWithoutRepeats(Compact(sorted));
    forall x ensures x in sorted <==> x in xs {
      assert x in multiset(sorted) <==> x in multiset(xs);
    }
  }

  /** Two sorted arrangements of the same non-empty multiset start with the same string. */
  lemma SortedHeads(a: seq<string>, b: seq<string>)
    requires SortedBy(a, Self) && SortedBy(b, Self)
    requires multiset(a) == multiset(b) && |a| > 0
    ensures |b| > 0 && a[0] == b[0]
  {
    assert a[0] in multiset(b) && b[0] in multiset(a);
    var k :| 0 <= k < |b| && b[k] == a[0];
    var m :| 0 <= m < |a| && a[m] == b[0];
    LessIrreflexive(a[0]);
    LessIrreflexive(b[0]);
    assert !Less(Self(b[k]), Self(b[0]));
    assert !Less(Self(a[m]), Self(a[0]));
    LessTotal(a[0], b[0]);
  }

  lemma MultisetTail<T>(a: seq<T>)
    requires a != []
    ensures multiset(a[1..]) == multiset(a) - multiset{a[0]}
  {
    assert a == [a[0]] + a[1..];
  }

  /** Two sorted arrangements of the same strings are the same sequence, so any correct sort
      of strings, Go's included, gives the result of `SortBy(_, Self)`. */
  lemma {:induction false} SortedUnique(a: seq<string>, b: seq<string>)
    requires SortedBy(a, Self) && SortedBy(b, Self)
    requires multiset(a) == multiset(b)
    ensures a == b
    decreases |a|
  {
    assert |a| == |multiset(a)| == |multiset(b)| == |b|;
    if |a| > 0 {
      SortedHeads(a, b);
      assert a == [a[0]] + a[1..] && b == [b[0]] + b[1..];
      MultisetTail(a);
      MultisetTail(b);
      SortedUnique(a[1..], b[1..]);
    }
  }

  /** A strictly ascending sequence holds as many values as elements. */
  lemma {:induction false} AscendingCardinality(r: seq<string>)
    requires StrictlyAscending(r)
    ensures |set x | x in r| == |r|
    decreases |r|
  {
    if |r| > 0 {
      AscendingCardinality(r[1..]);
      assert (set x | x in r) == {r[0]} + (set x | x in r[1..]);
      if r[0] in r[1..] {
        var k :| 0 <= k < |r[1..]| && r[1..][k] == r[0];
        assert Less(r[0], r[k + 1]);
        LessIrreflexive(r[0]);
      }
    }
  }

  /** The in-place update `sort.Strings` makes to the first `n` elements of `a`. */
  method SortInPlace(a: array<string>, n: nat)
    requires n <= a.Length
    modifies a
    ensures a[..] == SortBy(old(a[..n]), Self) + old(a[..])[n..]
  {
    var sorted := SortBy(a[..n], Self);
    SortBySpec(a[..n], Self);
    forall j | 0 <= j < n {
      a[j] := sorted[j];
    }
  }

  /** `sort.Strings` followed by `slices.Compact` on the first `n` elements of `a`, in place. */
  method SortCompactInPlace(a: array<string>, n: nat) returns (m: nat)
    requires n <= a.Length
    modifies a
    ensures m == |SortedDistinct(old(a[..n]))|
    ensures a[..] == SortedDistinct(old(a[..n])) + SortBy(old(a[..n]), Self)[m..] + old(a[..])[n..]
  {
    ghost var sorted := SortBy(a[..n], Self);
    ghost var rest := a[..][n..];
    SortBySpec(a[..n], Self);
    SortInPlace(a, n);
    assert a[..n] == sorted;
    m := CompactInPlace(a, n);
    SliceOfAppend(sorted, rest, m);
  }
}

/** The parts of Go's `strings` and `path/filepath` packages that the catalog aggregation
    relies on, and Go's ordering of strings.

    A Go string is modelled as the sequence of its Unicode code points. For valid UTF-8,
    comparing code points lexicographically gives the same order as Go's byte-wise
    comparison, and splitting at a separator gives the same pieces. */
module GoStrings {

  /** Go's `a < b` on strings: lexicographic, a proper prefix coming first. */
  predicate Less(a: string, b: string)
    decreases |a|
  {
    if |a| == 0 then |b| > 0
    else if |b| == 0 then false
    else if a[0] != b[0] then a[0] < b[0]
    else Less(a[1..], b[1..])
  }

  lemma {:induction false} LessIrreflexive(a: string)
    ensures !Less(a, a)
  {
    if |a| > 0 {
      LessIrreflexive(a[1..]);
    }
  }

  lemma {:induction false} LessTransitive(a: string, b: string, c: string)
    requires Less(a, b) && Less(b, c)
    ensures Less(a, c)
  {
    if |a| > 0 && a[0] == b[0] && b[0] == c[0] {
      LessTransitive(a[1..], b[1..], c[1..]);
    }
  }

  lemma {:induction false} LessTotal(a: string, b: string)
    ensures Less(a, b) || a == b || Less(b, a)
  {
    if |a| > 0 && |b| > 0 && a[0] == b[0] {
      LessTotal(a[1..], b[1..]);
      assert a == [a[0]] + a[1..];
      assert b == [b[0]] + b[1..];
    }
  }

  /** `strings.Join`: the elements with `sep` between consecutive ones. */
  function Join(elems: seq<string>, sep: string): string
    decreases |elems|
  {
    if |elems| == 0 then ""
    else if |elems| == 1 then elems[0]
    else elems[0] + sep + Join(elems[1..], sep)
  }

  /** Joining after growing the first element by one character at its front. */
  lemma JoinGrowHead(c: char, parts: seq<string>, sep: string)
    requires |parts| >= 1
    ensures Join([[c] + parts[0]] + parts[1..], sep) == [c] + Join(parts, sep)
  {
    var grown := [[c] + parts[0]] + parts[1..];
    assert grown[1..] == parts[1..];
  }

  /** `strings.Split(s, sep)` for a non-empty separator: the pieces of `s` between the
      non-overlapping occurrences of `sep`, found from left to right. */
  function Split(s: string, sep: string): (parts: seq<string>)
    requires |sep| > 0
    ensures |parts| >= 1
    decreases |s|
  {
    if |s| < |sep| then [s]
    else if s[..|sep|] == sep then [""] + Split(s[|sep|..], sep)
    else
      var rest := Split(s[1..], sep);
      [[s[0]] + rest[0]] + rest[1..]
  }

  /** Splitting and joining back with the same separator gives the original string. */
  lemma {:induction false} JoinSplit(s: string, sep: string)
    requires |sep| > 0
    ensures Join(Split(s, sep), sep) == s
    decreases |s|
  {
    if |s| < |sep| {
    } else if s[..|sep|] == sep {
      JoinSplit(s[|sep|..], sep);
      JoinSplitAtSeparator(sep, s[|sep|..]);
      assert s == sep + s[|sep|..];
    } else {
      JoinSplit(s[1..], sep);
      JoinSplitPastChar(s, sep);
    }
  }

  /** The case of `JoinSplit` where the string starts with the separator. */
  lemma JoinSplitAtSeparator(sep: string, t: string)
    requires |sep| > 0
    requires Join(Split(t, sep), sep) == t
    ensures Join(Split(sep + t, sep), sep) == sep + t
  {
    var rest := Split(t, sep);
    SplitAtSeparator(sep, t);
    JoinCons("", rest, sep);
    assert Join(Split(sep + t, sep), sep) == "" + sep + Join(rest, sep);
    assert "" + sep == sep;
  }

  /** A string that starts with the separator splits into "" and the pieces of the rest. */
  lemma SplitAtSeparator(sep: string, t: string)
    requires |sep| > 0
    ensures Split(sep + t, sep) == [""] + Split(t, sep)
  {
    var s := sep + t;
    assert s[..|sep|] == sep && s[|sep|..] == t;
  }

  /** Joining puts the separator after the first element. */
  lemma JoinCons(x: string, rest: seq<string>, sep: string)
    requires |rest| >= 1
    ensures Join([x] + rest, sep) == x + sep + Join(rest, sep)
  {
    assert ([x] + rest)[1..] == rest;
  }

  /** The case of `JoinSplit` where `s` does not start with the separator. */
  lemma JoinSplitPastChar(s: string, sep: string)
    requires 0 < |sep| <= |s| && s[..|sep|] != sep
    requires Join(Split(s[1..], sep), sep) == s[1..]
    ensures Join(Split(s, sep), sep) == s
  {
    var rest := Split(s[1..], sep);
    assert Split(s, sep) == [[s[0]] + rest[0]] + rest[1..];
    JoinGrowHead(s[0], rest, sep);
    assert s == [s[0]] + s[1..];
  }

  /** The characters of `s` before the first `c`, or all of `s` if there is none. */
  function BeforeFirst(s: string, c: char): (r: string)
    ensures |r| <= |s| && r == s[..|r|] && c !in r
    ensures |r| < |s| ==> s[|r|] == c
  {
    if s == [] || s[0] == c then "" else [s[0]] + BeforeFirst(s[1..], c)
  }

  /** The first piece of a split at a one-character separator is what precedes its first
      occurrence. */
  lemma {:induction false} SplitHead(s: string, sep: string)
    requires |sep| == 1
    ensures Split(s, sep)[0] == BeforeFirst(s, sep[0])
    decreases |s|
  {
    if |s| >= 1 && s[..1] != sep {
      SplitHead(s[1..], sep);
    }
  }

  /** `sep` occurs in `s` starting at index `i`. */
  predicate OccursAt(s: string, sep: string, i: int)
  {
    0 <= i && i + |sep| <= |s| && s[i..i + |sep|] == sep
  }

  /** `strings.Contains(s, sep)`. */
  predicate Contains(s: string, sep: string)
  {
    exists i :: 0 <= i <= |s| && OccursAt(s, sep, i)
  }

  /** For any non-empty separator, the first piece of a split is the text before the first
      occurrence of the separator, and the other pieces are the split of what follows that
      occurrence; with no occurrence, the string is the only piece. */
  lemma {:induction false} SplitFirst(s: string, sep: string)
    requires |sep| > 0
    ensures |Split(s, sep)[0]| <= |s| && Split(s, sep)[0] == s[..|Split(s, sep)[0]|]
    ensures forall i :: 0 <= i < |Split(s, sep)[0]| ==> !OccursAt(s, sep, i)
    ensures |Split(s, sep)[0]| == |s| ==> Split(s, sep) == [s]
    ensures |Split(s, sep)[0]| < |s| ==>
      var p := Split(s, sep)[0];
      OccursAt(s, sep, |p|) && Split(s, sep) == [p] + Split(s[|p| + |sep|..], sep)
    decreases |s|
  {
    if |s| >= |sep| && s[..|sep|] != sep {
      SplitFirst(s[1..], sep);
      SplitFirstPastChar(s, sep);
    }
  }

  /** The case of `SplitFirst` where `s` does not start with the separator. */
  lemma SplitFirstPastChar(s: string, sep: string)
    requires 0 < |sep| <= |s| && s[..|sep|] != sep
    requires |Split(s[1..], sep)[0]| <= |s| - 1
    requires Split(s[1..], sep)[0] == s[1..][..|Split(s[1..], sep)[0]|]
    requires forall i :: 0 <= i < |Split(s[1..], sep)[0]| ==> !OccursAt(s[1..], sep, i)
    requires |Split(s[1..], sep)[0]| == |s| - 1 ==> Split(s[1..], sep) == [s[1..]]
    requires |Split(s[1..], sep)[0]| < |s| - 1 ==>
      var q := Split(s[1..], sep)[0];
      OccursAt(s[1..], sep, |q|) && Split(s[1..], sep) == [q] + Split(s[1..][|q| + |sep|..], sep)
    ensures |Split(s, sep)[0]| <= |s| && Split(s, sep)[0] == s[..|Split(s, sep)[0]|]
    ensures forall i :: 0 <= i < |Split(s, sep)[0]| ==> !OccursAt(s, sep, i)
    ensures |Split(s, sep)[0]| == |s| ==> Split(s, sep) == [s]
    ensures |Split(s, sep)[0]| < |s| ==>
      var p := Split(s, sep)[0];
      OccursAt(s, sep, |p|) && Split(s, sep) == [p] + Split(s[|p| + |sep|..], sep)
  {
    var rest := Split(s[1..], sep);
    var q := rest[0];
    var p := [s[0]] + q;
    assert Split(s, sep) == [p] + rest[1..];
    assert p == s[..|p|];
    NoEarlyOccurrence(s, sep, |q|);
    if |q| == |s| - 1 {
      assert p == s;
    } else {
      OccursInTail(s, sep, |p|);
      assert s[|p| + |sep|..] == s[1..][|q| + |sep|..];
    }
  }

  /** An occurrence past the first character is an occurrence in the tail, one place earlier. */
  lemma OccursInTail(s: string, sep: string, i: int)
    requires |s| > 0 && i > 0
    ensures OccursAt(s, sep, i) <==> OccursAt(s[1..], sep, i - 1)
  {
    if i + |sep| <= |s| {
      assert s[i..i + |sep|] == s[1..][i - 1..i - 1 + |sep|];
    }
  }

  /** No occurrence starts at the first character or, in the tail, before `k`. */
  lemma NoEarlyOccurrence(s: string, sep: string, k: nat)
    requires |s| >= |sep| > 0 && s[..|sep|] != sep
    requires forall i :: 0 <= i < k ==> !OccursAt(s[1..], sep, i)
    ensures forall i :: 0 <= i < k + 1 ==> !OccursAt(s, sep, i)
  {
    forall i | 0 < i < k + 1
      ensures !OccursAt(s, sep, i)
    {
      OccursInTail(s, sep, i);
    }
  }

  /** An occurrence in a prefix of `s` is an occurrence in `s`. */
  lemma OccursInPrefix(s: string, sep: string, n: nat, i: int)
    requires n <= |s|
    ensures OccursAt(s[..n], sep, i) ==> OccursAt(s, sep, i)
  {
    if 0 <= i && i + |sep| <= n {
      assert s[..n][i..i + |sep|] == s[i..i + |sep|];
    }
  }

  /** No piece of a split contains the separator. */
  lemma {:induction false} SplitPiecesFree(s: string, sep: string)
    requires |sep| > 0
    ensures forall piece :: piece in Split(s, sep) ==> !Contains(piece, sep)
    decreases |s|
  {
    SplitFirst(s, sep);
    var parts := Split(s, sep);
    var p := parts[0];
    forall i | 0 <= i <= |p|
      ensures !OccursAt(p, sep, i)
    {
      OccursInPrefix(s, sep, |p|, i);
    }
    if |p| < |s| {
      var t := s[|p| + |sep|..];
      SplitPiecesFree(t, sep);
      assert parts == [p] + Split(t, sep);
    }
  }

  /** `strings.Replace(s, pat, rep, -1)` for a non-empty `pat`: every non-overlapping
      occurrence of `pat`, found from left to right, replaced by `rep`. */
  function ReplaceAll(s: string, pat: string, rep: string): string
    requires |pat| > 0
    decreases |s|
  {
    if |s| < |pat| then s
    else if s[..|pat|] == pat then rep + ReplaceAll(s[|pat|..], pat, rep)
    else [s[0]] + ReplaceAll(s[1..], pat, rep)
  }

  /** Replacing all occurrences is splitting at them and joining with the replacement. */
  lemma {:induction false} ReplaceAllIsSplitJoin(s: string, pat: string, rep: string)
    requires |pat| > 0
    ensures ReplaceAll(s, pat, rep) == Join(Split(s, pat), rep)
    decreases |s|
  {
    if |s| < |pat| {
    } else if s[..|pat|] == pat {
      var t := s[|pat|..];
      ReplaceAllIsSplitJoin(t, pat, rep);
      assert s == pat + t;
      SplitAtSeparator(pat, t);
      JoinCons("", Split(t, pat), rep);
      assert "" + rep == rep;
    } else {
      ReplaceAllIsSplitJoin(s[1..], pat, rep);
      JoinGrowHead(s[0], Split(s[1..], pat), rep);
    }
  }

  /** Length of the run of non-space characters that `s` starts with. */
  function WordEnd(s: string): (k: nat)
    ensures k <= |s| && ' ' !in s[..k]
    ensures forall m :: 0 <= m < k ==> s[m] != ' '
    ensures k < |s| ==> s[k] == ' '
  {
    if s == [] || s[0] == ' ' then 0 else 1 + WordEnd(s[1..])
  }

  /** `strings.FieldsFunc(s, func(r rune) bool { return r == ' ' })`: the maximal runs of
      characters other than the space, in order. */
  function Fields(s: string): seq<string>
    decreases |s|
  {
    if s == [] then []
    else if s[0] == ' ' then Fields(s[1..])
    else
      var k := WordEnd(s);
      [s[..k]] + Fields(s[k..])
  }

  /** The non-empty strings of `parts`, in order. */
  function NonEmpty(parts: seq<string>): seq<string>
    decreases |parts|
  {
    if parts == [] then []
    else (if parts[0] == "" then [] else [parts[0]]) + NonEmpty(parts[1..])
  }

  /** A non-space character followed by a space or the end is a field on its own. */
  lemma FieldsConsAlone(s: string)
    requires s != [] && s[0] != ' ' && (|s| == 1 || s[1] == ' ')
    ensures Fields(s) == [[s[0]]] + Fields(s[1..])
  {
    assert WordEnd(s[1..]) == 0;
    assert WordEnd(s) == 1;
    assert s[..1] == [s[0]];
  }

  /** A non-space character followed by another opens the first field of the rest. */
  lemma FieldsConsJoined(s: string)
    requires |s| > 1 && s[0] != ' ' && s[1] != ' '
    ensures Fields(s[1..]) != [] && Fields(s) == [[s[0]] + Fields(s[1..])[0]] + Fields(s[1..])[1..]
  {
    var t := s[1..];
    var j := WordEnd(t);
    var k := WordEnd(s);
    assert k == 1 + j;
    assert Fields(t) == [t[..j]] + Fields(t[j..]);
    assert Fields(s) == [s[..k]] + Fields(s[k..]);
    assert s[..k] == [s[0]] + t[..j];
    assert s[k..] == t[j..];
  }

  /** The fields are exactly the maximal runs of non-space characters: the pieces between
      single spaces, with the empty pieces that consecutive, leading or trailing spaces
      leave dropped. */
  lemma {:induction false} FieldsSplit(s: string)
    ensures Fields(s) == NonEmpty(Split(s, " "))
    decreases |s|
  {
    if s == [] {
      assert Split(s, " ") == [""];
    } else if s[0] == ' ' {
      var rest := Split(s[1..], " ");
      FieldsSplit(s[1..]);
      assert s[..1] == " ";
      assert Split(s, " ") == [""] + rest;
      assert ([""] + rest)[1..] == rest;
    } else {
      FieldsSplit(s[1..]);
      FieldsSplitPastChar(s);
    }
  }

  /** The case of `FieldsSplit` where `s` starts with a non-space character. */
  lemma FieldsSplitPastChar(s: string)
    requires s != [] && s[0] != ' '
    requires Fields(s[1..]) == NonEmpty(Split(s[1..], " "))
    ensures Fields(s) == NonEmpty(Split(s, " "))
  {
    var rest := Split(s[1..], " ");
    var r0, r1 := rest[0], rest[1..];
    var head := [s[0]] + r0;
    SplitPastChar(s);
    SplitHead(s[1..], " ");
    NonEmptyCons(head, r1);
    NonEmptyCons(r0, r1);
    assert rest == [r0] + r1;
    assert NonEmpty(Split(s, " ")) == [head] + NonEmpty(r1);
    if |s| == 1 || s[1] == ' ' {
      FieldsConsAlone(s);
      assert r0 == "" && head == [s[0]];
      assert Fields(s[1..]) == NonEmpty(r1);
      assert Fields(s) == [head] + NonEmpty(r1);
    } else {
      FieldsConsJoined(s);
      assert r0 != "";
      assert Fields(s[1..]) == [r0] + NonEmpty(r1);
      assert Fields(s) == [head] + NonEmpty(r1);
    }
  }

  /** A string that does not start with a space has its first character at the front of the
      first piece of its split at spaces. */
  lemma SplitPastChar(s: string)
    requires s != [] && s[0] != ' '
    ensures Split(s, " ") == [[s[0]] + Split(s[1..], " ")[0]] + Split(s[1..], " ")[1..]
  {
    assert s[..1] != " ";
  }

  lemma NonEmptyCons(x: string, rest: seq<string>)
    ensures NonEmpty([x] + rest) == (if x == "" then [] else [x]) + NonEmpty(rest)
  {
    assert ([x] + rest)[1..] == rest;
  }

  /** A token of `Fields`: non-empty and free of spaces. */
  predicate IsToken(t: string) {
    t != "" && ' ' !in t
  }

  /** Every field is a token. */
  lemma {:induction false} FieldsTokens(s: string)
    ensures forall f :: f in Fields(s) ==> IsToken(f)
    decreases |s|
  {
    if s != [] {
      if s[0] == ' ' {
        FieldsTokens(s[1..]);
      } else {
        var k := WordEnd(s);
        FieldsTokens(s[k..]);
        assert Fields(s) == [s[..k]] + Fields(s[k..]);
        assert IsToken(s[..k]);
      }
    }
  }

  /** Tokens joined with single spaces split back into the same tokens. */
  lemma {:induction false} FieldsJoin(tokens: seq<string>)
    requires forall t :: t in tokens ==> IsToken(t)
    ensures Fields(Join(tokens, " ")) == tokens
    decreases |tokens|
  {
    if |tokens| == 0 {
    } else {
      var t := tokens[0];
      assert IsToken(t) by { assert tokens[0] in tokens; }
      var s := Join(tokens, " ");
      var rest := if |tokens| == 1 then "" else " " + Join(tokens[1..], " ");
      assert s == t + rest;
      var k := WordEnd(s);
      assert forall m :: 0 <= m < |t| ==> s[m] == t[m] && t[m] in t;
      assert |tokens| > 1 ==> s[|t|] == rest[0] == ' ';
      assert k == |t|;
      assert s[..k] == t;
      assert s[k..] == rest;
      if |tokens| > 1 {
        FieldsJoin(tokens[1..]);
        assert rest[1..] == Join(tokens[1..], " ");
      }
    }
  }

  /** Go's `unicode.IsSpace`: the Latin-1 spaces and the rest of Unicode's White_Space. */
  predicate IsSpace(c: char) {
    c == '\t' || c == '\n' || c == '\U{0B}' || c == '\U{0C}' || c == '\r' || c == ' '
    || c == '\U{85}' || c == '\U{A0}' || c == '\U{1680}'
    || ('\U{2000}' <= c <= '\U{200A}')
    || c == '\U{2028}' || c == '\U{2029}' || c == '\U{202F}' || c == '\U{205F}' || c == '\U{3000}'
  }

  predicate AllSpace(s: string) {
    forall c :: c in s ==> IsSpace(c)
  }

  /** Number of white-space characters that `s` starts with. */
  function LeadingSpaces(s: string): (i: nat)
    ensures i <= |s| && AllSpace(s[..i])
    ensures i < |s| ==> !IsSpace(s[i])
  {
    if s != "" && IsSpace(s[0]) then
      var k := LeadingSpaces(s[1..]);
      assert s[..k + 1] == [s[0]] + s[1..][..k];
      k + 1
    else 0
  }

  /** Index where the white space that `s` ends with begins. */
  function TrailingStart(s: string): (j: nat)
    ensures j <= |s| && AllSpace(s[j..])
    ensures j > 0 ==> !IsSpace(s[j - 1])
  {
    if s != "" && IsSpace(s[|s| - 1]) then
      var k := TrailingStart(s[..|s| - 1]);
      assert s[k..] == s[..|s| - 1][k..] + [s[|s| - 1]];
      k
    else |s|
  }

  /** `strings.TrimSpace`: `s` without its leading and trailing white space. */
  function TrimSpace(s: string): (r: string)
    ensures |r| <= |s|
    ensures exists i :: 0 <= i <= |s| - |r| && r == s[i..i + |r|] && AllSpace(s[..i]) && AllSpace(s[i + |r|..])
    ensures r != "" ==> !IsSpace(r[0]) && !IsSpace(r[|r| - 1])
  {
    var i := LeadingSpaces(s);
    var t := s[i..];
    var j := TrailingStart(t);
    assert t[..j] == s[i..i + j] && s[i + j..] == t[j..];
    t[..j]
  }

  /** `filepath.Split(path)`'s directory part on a system whose separator is '/': everything
      up to and including the last '/', or "" when there is none. */
  function DirPart(path: string): (dir: string)
    ensures |dir| <= |path| && dir == path[..|dir|]
    ensures dir == "" || dir[|dir| - 1] == '/'
    ensures '/' !in path[|dir|..]
    decreases |path|
  {
    if path == "" then ""
    else if path[|path| - 1] == '/' then path
    else
      var d := DirPart(path[..|path| - 1]);
      assert path[|d|..] == path[..|path| - 1][|d|..] + [path[|path| - 1]];
      d
  }
}

/** The conflict-resolution helpers that the album aggregation folds track values through:
    consensus-or-nothing, year bounds that ignore unknown years, timestamp merging and the
    various-artists rule. */
module Reconcile {
  import opened GoStrings
  import opened GoSlices
  import opened Catalog

  /** The answer `allOrNothing` gives for a list of values: the value they all share, with
      count 1; otherwise "" with the number of distinct values, 0 for an empty list. */
  function Consensus(s: seq<string>): (string, nat) {
    if |s| == 0 then ("", 0)
    else if AllEqual(s) then (s[0], 1)
    else ("", |set x | x in s|)
  }

  /** Values that are not all equal are at least two distinct values: no consensus, and a
      conflict count of at least 2 (the empty string counting as a value like any other). */
  lemma ConsensusConflict(s: seq<string>)
    requires !AllEqual(s)
    ensures Consensus(s).0 == "" && Consensus(s).1 >= 2
  {
    var i, j :| 0 <= i < |s| && 0 <= j < |s| && s[i] != s[j];
    var values := set x | x in s;
    var two := {s[i], s[j]};
    assert values == two + (values - two);
    assert |two| == 2;
  }

  /** Sorting and compacting the compacted values leaves one element per distinct value. */
  lemma DistinctCount(s: seq<string>)
    ensures |SortedDistinct(Compact(s))| == |set x | x in s|
  {
    var r := SortedDistinct(Compact(s));
    CompactSpec(s);
    SortedDistinctSpec(Compact(s));
    AscendingCardinality(r);
    assert (set x | x in r) == (set x | x in s);
  }

  /** The contents of the slice's backing array after `allOrNothing`: compacted in place,
      and, when more than one value remained, the compacted prefix sorted and compacted
      again in place. Positions beyond each compacted prefix keep their earlier values. */
  ghost function AfterAllOrNothing(s: seq<string>): seq<string> {
    var c := Compact(s);
    if |c| <= 1 then s
    else
      var sorted := SortBy(c, Self);
      SortBySpec(c, Self);
      var c2 := Compact(sorted);
      c2 + sorted[|c2|..] + s[|c|..]
  }

  /** `allOrNothing(items)`: the consensus value and count of the slice, which it leaves
      compacted (and, if it had several values, sorted) in place. */
  method AllOrNothing(items: array<string>) returns (value: string, count: nat)
    modifies items
    ensures (value, count) == Consensus(old(items[..]))
    ensures items[..] == AfterAllOrNothing(old(items[..]))
  {
    ghost var s := items[..];
    assert s[..items.Length] == s;
    var k := CompactInPlace(items, items.Length);
    ghost var c := Compact(s);
    CompactAllEqual(s);
    if k == 1 {
      assert c[0] == s[0];
      assert items[..] == [s[0]] + s[1..] == s;
      return items[0], 1;
    }
    if k > 1 {
      count := SortCompactInPlace(items, k);
      DistinctCount(s);
      return "", count;
    }
    assert s == [];
    return "", 0;
  }

  /** Calling `allOrNothing` a second time on the same slice, as is done for the comments,
      gives the answer of the first call: what the first call leaves behind still holds the
      same values, and at least two of them when there was no consensus. */
  lemma AllOrNothingRepeat(s: seq<string>)
    ensures Consensus(AfterAllOrNothing(s)) == Consensus(s)
  {
    var c := Compact(s);
    CompactAllEqual(s);
    if |c| > 1 {
      var sorted := SortBy(c, Self);
      SortBySpec(c, Self);
      var c2 := Compact(sorted);
      CompactSpec(s);
      CompactSpec(sorted);
      var after := AfterAllOrNothing(s);
      assert after == c2 + sorted[|c2|..] + s[|c|..];
      forall x ensures x in after <==> x in s {
        assert x in sorted <==> x in multiset(sorted);
        assert x in sorted[|c2|..] ==> x in sorted;
        assert x in s[|c|..] ==> x in s;
      }
      assert (set x | x in after) == (set x | x in s);
      var i, j :| 0 <= i < |s| && 0 <= j < |s| && s[i] != s[j];
      assert s[i] in after && s[j] in after;
      assert !AllEqual(after);
    }
  }

  /** `m` is the largest element of `xs`. */
  ghost predicate IsMax(xs: seq<int>, m: int) {
    m in xs && forall x :: x in xs ==> x <= m
  }

  /** `m` is an element of `xs`, and when no element is negative it is the smallest positive
      element, or 0 when every element is 0 (unknown). */
  ghost predicate IsKnownMin(xs: seq<int>, m: int) {
    && m in xs
    && ((forall x :: x in xs ==> x >= 0) ==>
          && (m == 0 <==> forall x :: x in xs ==> x == 0)
          && (m > 0 ==> forall x :: x in xs && x > 0 ==> m <= x))
  }

  /** `minMax(items)`: the largest year, and the smallest year that is known. */
  method MinMax(items: seq<int>) returns (min: int, max: int)
    requires |items| > 0
    ensures IsKnownMin(items, min)
    ensures IsMax(items, max)
  {
    ghost var natural := forall x :: x in items ==> x >= 0;
    max := items[0];
    min := items[0];
    for i := 0 to |items|
      invariant max in items && forall j :: 0 <= j < i ==> items[j] <= max
      invariant min in items
      invariant natural ==> min >= 0
      invariant natural && min == 0 ==> forall j :: 0 <= j < i ==> items[j] == 0
      invariant natural && min > 0 ==> forall j :: 0 <= j < i && items[j] > 0 ==> min <= items[j]
    {
      var value := items[i];
      max := if value > max then value else max;
      if min == 0 {
        min := value;
      } else if value > 0 {
        min := if value < min then value else min;
      }
    }
  }

  /** `newer(t1, t2)`: the later of two timestamps. */
  function Newer(t1: Timestamp, t2: Timestamp): (r: Timestamp)
    ensures r >= t1 && r >= t2
    ensures r == t1 || r == t2
  {
    if t1 > t2 then t1 else t2
  }

  /** `older(t1, t2)`: the earlier of two timestamps, except that an unset `t1` yields `t2`.
      An unset `t2` is not skipped: it is the earlier one. */
  function Older(t1: Timestamp, t2: Timestamp): (r: Timestamp)
    ensures t1 == 0 ==> r == t2
    ensures t1 != 0 ==> r <= t1 && r <= t2 && (r == t1 || r == t2)
  {
    if t1 == 0 then t2
    else if t1 > t2 then t2
    else t1
  }

  /** The timestamps that follow the last unset one. */
  function SinceLastZero(ts: seq<Timestamp>): seq<Timestamp>
    decreases |ts|
  {
    if ts == [] then []
    else if ts[|ts| - 1] == 0 then []
    else SinceLastZero(ts[..|ts| - 1]) + [ts[|ts| - 1]]
  }

  /** `t` is what folding `older` over `ts`, starting from the zero time, yields: an unset
      timestamp resets the fold, so `t` is the earliest of the timestamps after the last
      unset one, or 0 when there are none. */
  ghost predicate EarliestSinceReset(ts: seq<Timestamp>, t: Timestamp) {
    var run := SinceLastZero(ts);
    && (t == 0 <==> run == [])
    && (run != [] ==> t in run && forall u :: u in run ==> t <= u)
  }

  /** One step of the `older` fold. */
  lemma OlderStep(ts: seq<Timestamp>, acc: Timestamp, t: Timestamp)
    requires EarliestSinceReset(ts, acc)
    ensures EarliestSinceReset(ts + [t], Older(acc, t))
  {
    assert (ts + [t])[..|ts|] == ts;
  }

  /** When every timestamp is set, nothing resets the fold: all of them count. */
  lemma {:induction false} SinceLastZeroAllSet(ts: seq<Timestamp>)
    requires forall i :: 0 <= i < |ts| ==> ts[i] > 0
    ensures SinceLastZero(ts) == ts
    decreases |ts|
  {
    if ts != [] {
      SinceLastZeroAllSet(ts[..|ts| - 1]);
      assert ts == ts[..|ts| - 1] + [ts[|ts| - 1]];
    }
  }

  /** `fixAlbumArtist(al, albumArtistIds)`: a non-compilation album without an album artist
      gets the track artist; a compilation whose tracks do not all name the same album
      artist gets the Various Artists identity; any other album is returned unchanged. */
  function FixAlbumArtist(al: Album, albumArtistIds: seq<string>, lib: Library): (r: Album)
    ensures r == al.(albumArtistId := r.albumArtistId, albumArtist := r.albumArtist)
    ensures !al.compilation && al.albumArtistId == "" ==>
              r == al.(albumArtistId := al.artistId, albumArtist := al.artist)
    ensures al.compilation && !AllEqual(albumArtistIds) ==>
              r == al.(albumArtist := lib.variousArtists, albumArtistId := lib.variousArtistsId)
    ensures (!al.compilation && al.albumArtistId != "") || (al.compilation && AllEqual(albumArtistIds)) ==>
              r == al
  {
    CompactAllEqual(albumArtistIds);
    if !al.compilation then
      if al.albumArtistId == "" then al.(albumArtistId := al.artistId, albumArtist := al.artist) else al
    else if |Compact(albumArtistIds)| > 1 then
      al.(albumArtist := lib.variousArtists, albumArtistId := lib.variousArtistsId)
    else
      al
  }
}

/** The aggregation of a batch of tracks into one Album or one Artist (`MediaFiles.Dirs`,
    `MediaFiles.ToAlbum`, `MediaFiles.ToArtist`). Each loop over the batch is specified by
    functions of the batch prefix it has consumed. */
module Aggregate {
  import opened GoStrings
  import opened GoSlices
  import opened Catalog
  import opened Reconcile

  // The per-track values the folds collect, in batch order.

  function Years(mfs: seq<MediaFile>): seq<int>
    decreases |mfs|
  {
    if mfs == [] then [] else Years(mfs[..|mfs| - 1]) + [mfs[|mfs| - 1].year]
  }

  function OriginalYears(mfs: seq<MediaFile>): seq<int>
    decreases |mfs|
  {
    if mfs == [] then [] else OriginalYears(mfs[..|mfs| - 1]) + [mfs[|mfs| - 1].originalYear]
  }

  function Dates(mfs: seq<MediaFile>): seq<string>
    decreases |mfs|
  {
    if mfs == [] then [] else Dates(mfs[..|mfs| - 1]) + [mfs[|mfs| - 1].date]
  }

  function OriginalDates(mfs: seq<MediaFile>): seq<string>
    decreases |mfs|
  {
    if mfs == [] then [] else OriginalDates(mfs[..|mfs| - 1]) + [mfs[|mfs| - 1].originalDate]
  }

  function ReleaseDates(mfs: seq<MediaFile>): seq<string>
    decreases |mfs|
  {
    if mfs == [] then [] else ReleaseDates(mfs[..|mfs| - 1]) + [mfs[|mfs| - 1].releaseDate]
  }

  function Comments(mfs: seq<MediaFile>): seq<string>
    decreases |mfs|
  {
    if mfs == [] then [] else Comments(mfs[..|mfs| - 1]) + [mfs[|mfs| - 1].comment]
  }

  function AlbumArtistIds(mfs: seq<MediaFile>): seq<string>
    decreases |mfs|
  {
    if mfs == [] then [] else AlbumArtistIds(mfs[..|mfs| - 1]) + [mfs[|mfs| - 1].albumArtistId]
  }

  function MbzAlbumIds(mfs: seq<MediaFile>): seq<string>
    decreases |mfs|
  {
    if mfs == [] then [] else MbzAlbumIds(mfs[..|mfs| - 1]) + [mfs[|mfs| - 1].mbzAlbumId]
  }

  function MbzArtistIds(mfs: seq<MediaFile>): seq<string>
    decreases |mfs|
  {
    if mfs == [] then [] else MbzArtistIds(mfs[..|mfs| - 1]) + [mfs[|mfs| - 1].mbzArtistId]
  }

  function CreatedTimes(mfs: seq<MediaFile>): seq<Timestamp>
    decreases |mfs|
  {
    if mfs == [] then [] else CreatedTimes(mfs[..|mfs| - 1]) + [mfs[|mfs| - 1].createdAt]
  }

  /** Every track's genres, one track after the other. */
  function AllGenres(mfs: seq<MediaFile>): seq<Genre>
    decreases |mfs|
  {
    if mfs == [] then [] else AllGenres(mfs[..|mfs| - 1]) + mfs[|mfs| - 1].genres
  }

  /** Every track's space-separated artist IDs, one track after the other. */
  function ArtistTokens(mfs: seq<MediaFile>): seq<string>
    decreases |mfs|
  {
    if mfs == [] then [] else ArtistTokens(mfs[..|mfs| - 1]) + Fields(mfs[|mfs| - 1].allArtistIds)
  }

  /** The names a track contributes to the full-text field: album name, album artist and
      artist with the " · " collaboration separator turned into a space, and disc subtitle. */
  function FullTextParts(mfs: seq<MediaFile>): seq<string>
    decreases |mfs|
  {
    if mfs == [] then []
    else
      var m := mfs[|mfs| - 1];
      FullTextParts(mfs[..|mfs| - 1])
        + [m.album, ReplaceAll(m.albumArtist, " \U{B7} ", " "), ReplaceAll(m.artist, " \U{B7} ", " "), m.discSubtitle]
  }

  /** Every track's directory, cleaned. */
  function CleanDirs(mfs: seq<MediaFile>, clean: string -> string): seq<string>
    decreases |mfs|
  {
    if mfs == [] then [] else CleanDirs(mfs[..|mfs| - 1], clean) + [clean(DirPart(mfs[|mfs| - 1].path))]
  }

  /** Total size of the batch. */
  function SumSize(mfs: seq<MediaFile>): int
    decreases |mfs|
  {
    if mfs == [] then 0 else SumSize(mfs[..|mfs| - 1]) + mfs[|mfs| - 1].size
  }

  /** Total size of the tracks whose artist is not their album artist. */
  function GuestSize(mfs: seq<MediaFile>): int
    decreases |mfs|
  {
    if mfs == [] then 0
    else
      var m := mfs[|mfs| - 1];
      GuestSize(mfs[..|mfs| - 1]) + (if m.artistId != m.albumArtistId then m.size else 0)
  }

  /** Total size of the tracks whose artist is their album artist. */
  function OwnSize(mfs: seq<MediaFile>): int
    decreases |mfs|
  {
    if mfs == [] then 0
    else
      var m := mfs[|mfs| - 1];
      OwnSize(mfs[..|mfs| - 1]) + (if m.artistId == m.albumArtistId then m.size else 0)
  }

  /** The sizes the artist aggregate leaves out are exactly those of the tracks whose artist
      is their album artist: the two parts make up the batch's total size. */
  lemma {:induction false} SizeAccounting(mfs: seq<MediaFile>)
    ensures GuestSize(mfs) + OwnSize(mfs) == SumSize(mfs)
    decreases |mfs|
  {
    if mfs != [] {
      SizeAccounting(mfs[..|mfs| - 1]);
    }
  }

  /** The cleaned directories are those of the tracks' paths, one per track. */
  lemma {:induction false} CleanDirsMembers(mfs: seq<MediaFile>, clean: string -> string)
    ensures |CleanDirs(mfs, clean)| == |mfs|
    ensures forall d :: d in CleanDirs(mfs, clean) <==> exists m :: m in mfs && d == clean(DirPart(m.path))
    decreases |mfs|
  {
    if mfs != [] {
      var init := mfs[..|mfs| - 1];
      CleanDirsMembers(init, clean);
      assert mfs == init + [mfs[|mfs| - 1]];
      forall d ensures d in CleanDirs(mfs, clean) <==> exists m :: m in mfs && d == clean(DirPart(m.path)) {
        if exists m :: m in mfs && d == clean(DirPart(m.path)) {
          var m :| m in mfs && d == clean(DirPart(m.path));
          if m != mfs[|mfs| - 1] {
            assert m in init;
          }
        }
      }
    }
  }

  /** The artist IDs collected are exactly the tokens of the tracks' artist-ID lists. */
  lemma {:induction false} ArtistTokensMembers(mfs: seq<MediaFile>)
    ensures forall t :: t in ArtistTokens(mfs) <==> exists m :: m in mfs && t in Fields(m.allArtistIds)
    ensures forall t :: t in ArtistTokens(mfs) ==> IsToken(t)
    decreases |mfs|
  {
    if mfs != [] {
      var init := mfs[..|mfs| - 1];
      ArtistTokensMembers(init);
      FieldsTokens(mfs[|mfs| - 1].allArtistIds);
      assert mfs == init + [mfs[|mfs| - 1]];
      forall t ensures t in ArtistTokens(mfs) <==> exists m :: m in mfs && t in Fields(m.allArtistIds) {
        if exists m :: m in mfs && t in Fields(m.allArtistIds) {
          var m :| m in mfs && t in Fields(m.allArtistIds);
          if m != mfs[|mfs| - 1] {
            assert m in init;
          }
        }
      }
    }
  }

  /** `slices.SortFunc` by genre ID followed by `slices.Compact`. */
  function SortCompactGenres(gs: seq<Genre>): seq<Genre> {
    Compact(SortBy(gs, GenreKey))
  }

  /** Genres come out ordered by ID, without two equal genres next to each other and with
      the same genres as went in; when an ID always names the same genre, the IDs are
      strictly ascending, so no genre appears twice. */
  lemma SortCompactGenresSpec(gs: seq<Genre>)
    ensures SortedBy(SortCompactGenres(gs), GenreKey)
    ensures forall i :: 0 <= i < |SortCompactGenres(gs)| - 1 ==> SortCompactGenres(gs)[i] != SortCompactGenres(gs)[i + 1]
    ensures forall g :: g in SortCompactGenres(gs) <==> g in gs
    ensures |SortCompactGenres(gs)| <= |gs|
    ensures (forall g, h :: g in gs && h in gs && g.id == h.id ==> g == h) ==>
              forall i, j :: 0 <= i < j < |SortCompactGenres(gs)| ==> Less(SortCompactGenres(gs)[i].id, SortCompactGenres(gs)[j].id)
  {
    var sorted := SortBy(gs, GenreKey);
    var r := Compact(sorted);
    SortBySpec(gs, GenreKey);
    CompactSortedBy(sorted, GenreKey);
    CompactSpec(sorted);
    forall g ensures g in sorted <==> g in gs {
      assert g in multiset(sorted) <==> g in multiset(gs);
    }
    if forall g, h :: g in gs && h in gs && g.id == h.id ==> g == h {
      forall i | 0 <= i < |r| - 1 ensures GenreKey(r[i]) != GenreKey(r[i + 1]) {
        assert r[i] in gs && r[i + 1] in gs;
      }
      AscendingKeys(r, GenreKey);
    }
  }

  /** A track whose embedded cover art can be used: it has one and a path to read it from. */
  predicate HasEmbeddedArt(m: MediaFile) {
    m.hasCoverArt && m.path != ""
  }

  /** `p` is the path of the first track with usable embedded art, or "" if there is none. */
  ghost predicate FirstEmbeddedArt(mfs: seq<MediaFile>, p: string) {
    && (p == "" <==> forall j :: 0 <= j < |mfs| ==> !HasEmbeddedArt(mfs[j]))
    && (p != "" ==> exists k :: 0 <= k < |mfs| && HasEmbeddedArt(mfs[k]) && mfs[k].path == p
                                 && forall j :: 0 <= j < k ==> !HasEmbeddedArt(mfs[j]))
  }

  /** The album fields copied from every track in turn, so that the last track's values
      remain (the album-artist fields are copied too, then adjusted by FixAlbumArtist). */
  ghost predicate CopiedFrom(al: Album, m: MediaFile) {
    && al.id == m.albumId
    && al.name == m.album
    && al.artist == m.artist
    && al.artistId == m.artistId
    && al.sortAlbumName == m.sortAlbumName
    && al.sortArtistName == m.sortArtistName
    && al.sortAlbumArtistName == m.sortAlbumArtistName
    && al.orderAlbumName == m.orderAlbumName
    && al.orderAlbumArtistName == m.orderAlbumArtistName
    && al.mbzAlbumArtistId == m.mbzAlbumArtistId
    && al.mbzAlbumType == m.mbzAlbumType
    && al.mbzAlbumComment == m.mbzAlbumComment
    && al.catalogNum == m.catalogNum
    && al.compilation == m.compilation
  }

  /** Copies a sequence into a fresh array, the backing array of a slice built by appends. */
  method NewSlice(s: seq<string>) returns (a: array<string>)
    ensures fresh(a) && a[..] == s
  {
    a := new string[|s|](i requires 0 <= i < |s| => s[i]);
  }

  /** `MediaFiles.Dirs`: the distinct cleaned directories of the tracks, in ascending order. */
  method Dirs(mfs: seq<MediaFile>, clean: string -> string) returns (dirs: seq<string>)
    ensures dirs == SortedDistinct(CleanDirs(mfs, clean))
    ensures StrictlyAscending(dirs)
    ensures forall d :: d in dirs <==> exists m :: m in mfs && d == clean(DirPart(m.path))
    ensures |dirs| <= |mfs|
  {
    var all: seq<string> := [];
    for i := 0 to |mfs|
      invariant all == CleanDirs(mfs[..i], clean)
    {
      assert mfs[..i + 1][..i] == mfs[..i];
      all := all + [clean(DirPart(mfs[i].path))];
    }
    assert mfs[..|mfs|] == mfs;
    dirs := SortedDistinct(all);
    SortedDistinctSpec(all);
    CleanDirsMembers(mfs, clean);
  }

  /** How each per-track list grows when the consumed prefix of the batch grows by one track. */
  lemma PrefixStep(mfs: seq<MediaFile>, i: nat, start: Album)
    requires i < |mfs|
    ensures var m := mfs[i];
      && FoldTracks(start, mfs[..i + 1]) == Absorb(FoldTracks(start, mfs[..i]), m)
      && Years(mfs[..i + 1]) == Years(mfs[..i]) + [m.year]
      && OriginalYears(mfs[..i + 1]) == OriginalYears(mfs[..i]) + [m.originalYear]
      && Dates(mfs[..i + 1]) == Dates(mfs[..i]) + [m.date]
      && OriginalDates(mfs[..i + 1]) == OriginalDates(mfs[..i]) + [m.originalDate]
      && ReleaseDates(mfs[..i + 1]) == ReleaseDates(mfs[..i]) + [m.releaseDate]
      && Comments(mfs[..i + 1]) == Comments(mfs[..i]) + [m.comment]
      && AlbumArtistIds(mfs[..i + 1]) == AlbumArtistIds(mfs[..i]) + [m.albumArtistId]
      && MbzAlbumIds(mfs[..i + 1]) == MbzAlbumIds(mfs[..i]) + [m.mbzAlbumId]
      && CreatedTimes(mfs[..i + 1]) == CreatedTimes(mfs[..i]) + [m.createdAt]
      && AllGenres(mfs[..i + 1]) == AllGenres(mfs[..i]) + m.genres
      && ArtistTokens(mfs[..i + 1]) == ArtistTokens(mfs[..i]) + Fields(m.allArtistIds)
      && FullTextParts(mfs[..i + 1]) == FullTextParts(mfs[..i])
           + [m.album, ReplaceAll(m.albumArtist, " \U{B7} ", " "), ReplaceAll(m.artist, " \U{B7} ", " "), m.discSubtitle]
  {
    assert mfs[..i + 1][..i] == mfs[..i];
  }

  /** What one pass of the `MediaFiles.ToAlbum` loop does to the album record for track `m`:
      the attributes assumed to be the same for every track of the album are copied, and the
      others are folded. */
  function Absorb(al: Album, m: MediaFile): Album {
    al.(id := m.albumId, name := m.album, artist := m.artist, artistId := m.artistId,
        albumArtist := m.albumArtist, albumArtistId := m.albumArtistId,
        sortAlbumName := m.sortAlbumName, sortArtistName := m.sortArtistName,
        sortAlbumArtistName := m.sortAlbumArtistName, orderAlbumName := m.orderAlbumName,
        orderAlbumArtistName := m.orderAlbumArtistName, mbzAlbumArtistId := m.mbzAlbumArtistId,
        mbzAlbumType := m.mbzAlbumType, mbzAlbumComment := m.mbzAlbumComment,
        catalogNum := m.catalogNum, compilation := m.compilation,
        size := al.size + m.size,
        updatedAt := Newer(al.updatedAt, m.updatedAt),
        createdAt := Older(al.createdAt, m.createdAt),
        genres := al.genres + m.genres,
        embedArtPath := if m.hasCoverArt && al.embedArtPath == "" then m.path else al.embedArtPath)
  }

  /** The album record after the loop has absorbed the tracks `ms`, starting from `start`. */
  function FoldTracks(start: Album, ms: seq<MediaFile>): Album
    decreases |ms|
  {
    if ms == [] then start else Absorb(FoldTracks(start, ms[..|ms| - 1]), ms[|ms| - 1])
  }

  /** An album record on which the loop has not folded anything yet. */
  predicate Unfolded(al: Album) {
    al.size == 0 && al.updatedAt == 0 && al.createdAt == 0 && al.genres == [] && al.embedArtPath == ""
  }

  /** The folded album takes the copied attributes from the last track, adds up the sizes
      and collects every genre, and keeps the song count it started with. */
  lemma {:induction false} FoldTracksTotals(start: Album, ms: seq<MediaFile>)
    requires Unfolded(start)
    ensures FoldTracks(start, ms).songCount == start.songCount
    ensures FoldTracks(start, ms).size == SumSize(ms)
    ensures FoldTracks(start, ms).genres == AllGenres(ms)
    ensures ms != [] ==>
              && CopiedFrom(FoldTracks(start, ms), ms[|ms| - 1])
              && FoldTracks(start, ms).albumArtist == ms[|ms| - 1].albumArtist
              && FoldTracks(start, ms).albumArtistId == ms[|ms| - 1].albumArtistId
    decreases |ms|
  {
    if ms != [] {
      FoldTracksTotals(start, ms[..|ms| - 1]);
    }
  }

  /** The folded update time is the latest of the tracks'. */
  lemma {:induction false} FoldTracksUpdated(start: Album, ms: seq<MediaFile>)
    requires Unfolded(start)
    ensures forall m :: m in ms ==> m.updatedAt <= FoldTracks(start, ms).updatedAt
    ensures ms == [] ==> FoldTracks(start, ms).updatedAt == 0
    ensures ms != [] ==> exists m :: m in ms && m.updatedAt == FoldTracks(start, ms).updatedAt
    decreases |ms|
  {
    if ms != [] {
      var init, last := ms[..|ms| - 1], ms[|ms| - 1];
      var before := FoldTracks(start, init).updatedAt;
      FoldTracksUpdated(start, init);
      assert FoldTracks(start, ms).updatedAt == Newer(before, last.updatedAt);
      assert ms == init + [last];
      if init != [] {
        var m :| m in init && m.updatedAt == before;
        assert m in ms;
      }
    }
  }

  /** The folded creation time is the earliest since the last track without one. */
  lemma {:induction false} FoldTracksCreated(start: Album, ms: seq<MediaFile>)
    requires Unfolded(start)
    ensures EarliestSinceReset(CreatedTimes(ms), FoldTracks(start, ms).createdAt)
    decreases |ms|
  {
    if ms != [] {
      var init, last := ms[..|ms| - 1], ms[|ms| - 1];
      var before := FoldTracks(start, init).createdAt;
      FoldTracksCreated(start, init);
      assert FoldTracks(start, ms).createdAt == Older(before, last.createdAt);
      OlderStep(CreatedTimes(init), before, last.createdAt);
    }
  }

  /** The embedded-art path the loop settles on for the tracks `ms`: the first usable one. */
  function FirstArtPath(ms: seq<MediaFile>): string
    decreases |ms|
  {
    if ms == [] then ""
    else
      var p := FirstArtPath(ms[..|ms| - 1]);
      if p == "" && HasEmbeddedArt(ms[|ms| - 1]) then ms[|ms| - 1].path else p
  }

  /** `FirstArtPath` is the path of the first track with usable embedded art, or "". */
  lemma {:induction false} FirstArtPathSpec(ms: seq<MediaFile>)
    ensures FirstEmbeddedArt(ms, FirstArtPath(ms))
    decreases |ms|
  {
    if ms != [] {
      var init, last := ms[..|ms| - 1], ms[|ms| - 1];
      var p := FirstArtPath(init);
      FirstArtPathSpec(init);
      if p != "" {
        var k :| 0 <= k < |init| && HasEmbeddedArt(init[k]) && init[k].path == p
                 && forall j :: 0 <= j < k ==> !HasEmbeddedArt(init[j]);
        assert HasEmbeddedArt(ms[k]) && ms[k].path == p;
        assert forall j :: 0 <= j < k ==> !HasEmbeddedArt(ms[j]);
      } else if HasEmbeddedArt(last) {
        assert forall j :: 0 <= j < |ms| - 1 ==> !HasEmbeddedArt(ms[j]);
        assert HasEmbeddedArt(ms[|ms| - 1]) && ms[|ms| - 1].path == FirstArtPath(ms);
      } else {
        assert forall j :: 0 <= j < |ms| ==> !HasEmbeddedArt(ms[j]);
      }
    }
  }

  /** The folded embedded-art path is `FirstArtPath`: a track that has cover art but no path
      leaves the path empty, so a later track can still supply it. */
  lemma {:induction false} FoldTracksEmbedArt(start: Album, ms: seq<MediaFile>)
    requires Unfolded(start)
    ensures FoldTracks(start, ms).embedArtPath == FirstArtPath(ms)
    decreases |ms|
  {
    if ms != [] {
      FoldTracksEmbedArt(start, ms[..|ms| - 1]);
    }
  }

  /** The loop of `MediaFiles.ToAlbum` over the batch: the folded album record, and the
      per-track lists it collects for the steps that follow the loop. */
  method AlbumFold(mfs: seq<MediaFile>)
    returns (al: Album, fullText: seq<string>, albumArtistIds: seq<string>,
             allArtistIdsInAlbum: seq<string>, mbzAlbumIds: seq<string>, comments: seq<string>,
             years: seq<int>, dates: seq<string>, originalYears: seq<int>,
             originalDates: seq<string>, releaseDates: seq<string>)
    ensures al == FoldTracks(EmptyAlbum.(songCount := |mfs|), mfs)
    ensures years == Years(mfs) && originalYears == OriginalYears(mfs)
    ensures dates == Dates(mfs) && originalDates == OriginalDates(mfs) && releaseDates == ReleaseDates(mfs)
    ensures comments == Comments(mfs)
    ensures albumArtistIds == AlbumArtistIds(mfs)
    ensures mbzAlbumIds == MbzAlbumIds(mfs)
    ensures allArtistIdsInAlbum == ArtistTokens(mfs)
    ensures fullText == FullTextParts(mfs)
  {
    var start := EmptyAlbum.(songCount := |mfs|);
    al := start;
    fullText, albumArtistIds, allArtistIdsInAlbum, mbzAlbumIds, comments := [], [], [], [], [];
    years, dates, originalYears, originalDates, releaseDates := [], [], [], [], [];
    for i := 0 to |mfs|
      invariant al == FoldTracks(start, mfs[..i])
      invariant years == Years(mfs[..i])
      invariant dates == Dates(mfs[..i])
      invariant originalYears == OriginalYears(mfs[..i])
      invariant originalDates == OriginalDates(mfs[..i])
      invariant releaseDates == ReleaseDates(mfs[..i])
      invariant comments == Comments(mfs[..i])
      invariant albumArtistIds == AlbumArtistIds(mfs[..i])
      invariant mbzAlbumIds == MbzAlbumIds(mfs[..i])
      invariant allArtistIdsInAlbum == ArtistTokens(mfs[..i])
      invariant fullText == FullTextParts(mfs[..i])
    {
      var m := mfs[i];
      PrefixStep(mfs, i, start);
      years := years + [m.year];
      dates := dates + [m.date];
      originalYears := originalYears + [m.originalYear];
      originalDates := originalDates + [m.originalDate];
      releaseDates := releaseDates + [m.releaseDate];
      comments := comments + [m.comment];
      albumArtistIds := albumArtistIds + [m.albumArtistId];
      var allArtistIdsInSong := Fields(m.allArtistIds);
      allArtistIdsInAlbum := allArtistIdsInAlbum + allArtistIdsInSong;
      mbzAlbumIds := mbzAlbumIds + [m.mbzAlbumId];
      var albumArtistText := ReplaceAll(m.albumArtist, " \U{B7} ", " ");
      var artistText := ReplaceAll(m.artist, " \U{B7} ", " ");
      fullText := fullText + [m.album, albumArtistText, artistText, m.discSubtitle];
      al := Absorb(al, m);
    }
    assert mfs[..|mfs|] == mfs;
  }

  /** The `allOrNothing` calls of `MediaFiles.ToAlbum`, each on a slice the loop built. The
      comments go through it twice; the second call sees the slice the first one compacted
      and sorted in place, and gives the same answer. */
  method ResolveConflicts(dates: seq<string>, originalDates: seq<string>, releaseDates: seq<string>,
                          comments: seq<string>)
    returns (date: string, originalDate: string, releaseDate: string, releases: nat, comment: string)
    ensures date == Consensus(dates).0
    ensures originalDate == Consensus(originalDates).0
    ensures (releaseDate, releases) == Consensus(releaseDates)
    ensures comment == Consensus(comments).0
  {
    var dateItems := NewSlice(dates);
    var dateCount;
    date, dateCount := AllOrNothing(dateItems);
    var originalDateItems := NewSlice(originalDates);
    var originalDateCount;
    originalDate, originalDateCount := AllOrNothing(originalDateItems);
    var releaseDateItems := NewSlice(releaseDates);
    releaseDate, releases := AllOrNothing(releaseDateItems);
    var commentItems := NewSlice(comments);
    var commentCount;
    comment, commentCount := AllOrNothing(commentItems);
    comment, commentCount := AllOrNothing(commentItems);
    AllOrNothingRepeat(comments);
  }

  /** `MediaFiles.ToAlbum`: the album aggregate of a non-empty batch of tracks. */
  method ToAlbum(mfs: seq<MediaFile>, lib: Library) returns (al: Album)
    requires |mfs| > 0
    ensures al.songCount == |mfs|
    ensures al.size == SumSize(mfs)
    ensures CopiedFrom(al, mfs[|mfs| - 1])
    ensures var m := mfs[|mfs| - 1];
      && (!m.compilation && m.albumArtistId == "" ==>
            al.albumArtistId == m.artistId && al.albumArtist == m.artist)
      && (m.compilation && !AllEqual(AlbumArtistIds(mfs)) ==>
            al.albumArtistId == lib.variousArtistsId && al.albumArtist == lib.variousArtists)
      && ((!m.compilation && m.albumArtistId != "") || (m.compilation && AllEqual(AlbumArtistIds(mfs))) ==>
            al.albumArtistId == m.albumArtistId && al.albumArtist == m.albumArtist)
    ensures forall m :: m in mfs ==> m.updatedAt <= al.updatedAt
    ensures exists m :: m in mfs && m.updatedAt == al.updatedAt
    ensures EarliestSinceReset(CreatedTimes(mfs), al.createdAt)
    ensures FirstEmbeddedArt(mfs, al.embedArtPath)
    ensures al.paths == Join(SortedDistinct(CleanDirs(mfs, lib.clean)), lib.zwsp)
    ensures al.date == Consensus(Dates(mfs)).0
    ensures al.originalDate == Consensus(OriginalDates(mfs)).0
    ensures (al.releaseDate, al.releases) == Consensus(ReleaseDates(mfs))
    ensures IsKnownMin(Years(mfs), al.minYear) && IsMax(Years(mfs), al.maxYear)
    ensures IsKnownMin(OriginalYears(mfs), al.minOriginalYear) && IsMax(OriginalYears(mfs), al.maxOriginalYear)
    ensures al.comment == Consensus(Comments(mfs)).0
    ensures al.genre == lib.mostFrequentGenre(AllGenres(mfs)).name
    ensures al.genres == SortCompactGenres(AllGenres(mfs))
    ensures al.fullText == " " + lib.sanitize(FullTextParts(mfs))
    ensures al.allArtistIds == Join(Fields(al.allArtistIds), " ")
    ensures StrictlyAscending(Fields(al.allArtistIds))
    ensures forall t :: t in Fields(al.allArtistIds) <==> exists m :: m in mfs && t in Fields(m.allArtistIds)
    ensures al.mbzAlbumId == lib.mostFrequent(MbzAlbumIds(mfs))
  {
    var fullText, albumArtistIds, allArtistIdsInAlbum, mbzAlbumIds, comments,
        years, dates, originalYears, originalDates, releaseDates;
    al, fullText, albumArtistIds, allArtistIdsInAlbum, mbzAlbumIds, comments,
      years, dates, originalYears, originalDates, releaseDates := AlbumFold(mfs);
    FoldTracksTotals(EmptyAlbum.(songCount := |mfs|), mfs);
    FoldTracksUpdated(EmptyAlbum.(songCount := |mfs|), mfs);
    FoldTracksCreated(EmptyAlbum.(songCount := |mfs|), mfs);
    FoldTracksEmbedArt(EmptyAlbum.(songCount := |mfs|), mfs);
    FirstArtPathSpec(mfs);
    ghost var last := mfs[|mfs| - 1];
    assert CopiedFrom(al, last);

    var dirs := Dirs(mfs, lib.clean);
    var date, originalDate, releaseDate, releases, comment :=
      ResolveConflicts(dates, originalDates, releaseDates, comments);
    var minYear, maxYear := MinMax(years);
    var minOriginalYear, maxOriginalYear := MinMax(originalYears);
    al := al.(paths := Join(dirs, lib.zwsp),
              date := date, originalDate := originalDate, releaseDate := releaseDate, releases := releases,
              minYear := minYear, maxYear := maxYear,
              minOriginalYear := minOriginalYear, maxOriginalYear := maxOriginalYear,
              comment := comment,
              genre := lib.mostFrequentGenre(al.genres).name,
              genres := SortCompactGenres(al.genres),
              fullText := " " + lib.sanitize(fullText));
    assert CopiedFrom(al, last);
    al := FixAlbumArtist(al, albumArtistIds, lib);
    assert CopiedFrom(al, last);

    var artistIds := SortedDistinct(allArtistIdsInAlbum);
    SortedDistinctSpec(allArtistIdsInAlbum);
    ArtistTokensMembers(mfs);
    FieldsJoin(artistIds);
    al := al.(allArtistIds := Join(artistIds, " "), mbzAlbumId := lib.mostFrequent(mbzAlbumIds));
  }

  /** The name an artist is listed under: the part of the track's artist before the first
      "·" (dropping the other collaborators), with surrounding white space trimmed. */
  function ArtistName(artist: string): (name: string)
    ensures name == TrimSpace(BeforeFirst(artist, '\U{B7}'))
  {
    var artists := Split(artist, "\U{B7}");
    SplitHead(artist, "\U{B7}");
    TrimSpace(artists[0])
  }

  /** How the artist's folded values grow when the consumed prefix grows by one track. */
  lemma ArtistPrefixStep(mfs: seq<MediaFile>, i: nat)
    requires i < |mfs|
    ensures var m := mfs[i];
      && GuestSize(mfs[..i + 1]) == GuestSize(mfs[..i]) + (if m.artistId != m.albumArtistId then m.size else 0)
      && AllGenres(mfs[..i + 1]) == AllGenres(mfs[..i]) + m.genres
      && MbzArtistIds(mfs[..i + 1]) == MbzArtistIds(mfs[..i]) + [m.mbzArtistId]
  {
    assert mfs[..i + 1][..i] == mfs[..i];
  }

  /** `MediaFiles.ToArtist`: the artist aggregate of a batch of tracks. */
  method ToArtist(mfs: seq<MediaFile>, lib: Library) returns (a: Artist)
    ensures a.songCount == |mfs|
    ensures |mfs| == 0 ==> a.id == "" && a.name == "" && a.sortArtistName == "" && a.orderArtistName == ""
    ensures |mfs| > 0 ==>
      var m := mfs[|mfs| - 1];
      && a.id == m.artistId
      && a.name == TrimSpace(BeforeFirst(m.artist, '\U{B7}'))
      && a.sortArtistName == m.sortArtistName
      && a.orderArtistName == m.orderArtistName
    ensures a.size == GuestSize(mfs)
    ensures a.genres == SortCompactGenres(AllGenres(mfs))
    ensures a.mbzArtistId == lib.mostFrequent(MbzArtistIds(mfs))
  {
    a := Artist("", "", "", "", |mfs|, 0, [], "");
    var mbzArtistIds: seq<string> := [];
    for i := 0 to |mfs|
      invariant a.songCount == |mfs|
      invariant i == 0 ==> a.id == "" && a.name == "" && a.sortArtistName == "" && a.orderArtistName == ""
      invariant i > 0 ==>
        var m := mfs[i - 1];
        && a.id == m.artistId
        && a.name == TrimSpace(BeforeFirst(m.artist, '\U{B7}'))
        && a.sortArtistName == m.sortArtistName
        && a.orderArtistName == m.orderArtistName
      invariant a.size == GuestSize(mfs[..i])
      invariant a.genres == AllGenres(mfs[..i])
      invariant mbzArtistIds == MbzArtistIds(mfs[..i])
    {
      var m := mfs[i];
      ArtistPrefixStep(mfs, i);
      var size := a.size;
      if m.artistId != m.albumArtistId {
        // Tracks by their own album artist are left out of the artist's size.
        size := size + m.size;
      }
      a := a.(id := m.artistId, name := ArtistName(m.artist),
              sortArtistName := m.sortArtistName, orderArtistName := m.orderArtistName,
              size := size, genres := a.genres + m.genres);
      mbzArtistIds := mbzArtistIds + [m.mbzArtistId];
    }
    assert mfs[..|mfs|] == mfs;
    a := a.(genres := SortCompactGenres(a.genres), mbzArtistId := lib.mostFrequent(mbzArtistIds));
  }
}

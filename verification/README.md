# Navidrome track aggregation, modelled in Dafny

This project models how Navidrome's catalog builds its aggregate records from the tracks
the scanner found (`model/mediafile.go`):

- `MediaFiles.Dirs` gives the sorted, deduplicated directories of a batch of tracks.
- `MediaFiles.ToAlbum` folds a batch of tracks into one `Album`.
- `MediaFiles.ToArtist` folds a batch into one `Artist`.
- Both folds use the reconciliation helpers `allOrNothing`, `minMax`, `newer`, `older` and
  `fixAlbumArtist`.

The modules follow the program:

- `Catalog` (`catalog.dfy`) holds the `MediaFile`, `Album`, `Artist` and `Genre` records.
  It keeps only the fields the aggregation reads or writes.
- `Reconcile` (`reconcile.dfy`) holds the helpers.
- `Aggregate` (`aggregate.dfy`) holds the three `MediaFiles` methods.
- `GoStrings` and `GoSlices` (`go_strings.dfy`, `go_slices.dfy`) model the parts of Go's
  `strings`, `path/filepath`, `slices` and `sort` packages that the code relies on, with the
  properties it depends on.

Where the Go code changes state step by step, the model is imperative:

- The two folds and `minMax` are methods with loops.
- `allOrNothing` works on an `array`, compacting and sorting it in place.
- Each loop is specified by a function of the tracks it has consumed, such as `FoldTracks`,
  `SumSize` or `AllGenres`. Lemmas state what those functions mean.

`newer`, `older` and `fixAlbumArtist` are pure functions.

Strings are sequences of Unicode code points. For valid UTF-8, comparing code points
lexicographically gives the same order as Go's byte-wise comparison. Timestamps are natural
numbers, with 0 standing for Go's zero time.

Some collaborators are outside this model: `filepath.Clean`, `utils.SanitizeStrings`,
`slice.MostFrequent` and the constants `consts.VariousArtists`, `consts.VariousArtistsID`
and `consts.Zwsp`. They are fields of the `Catalog.Library` value passed to the operations.
Their results are stated only by the list or value they are applied to.

`older` does not skip an unset `t2`: when `t1` is set and `t2` is the zero time, it returns
the zero time. So once a track has a zero creation time, the album's `CreatedAt` fold
restarts from the next track. `Older`, `EarliestSinceReset` and `ToAlbum` state this
behaviour.

## Model

| member | source | states |
|---|---|---|
| Reconcile.AllOrNothing | model/mediafile.go:221-231 | The result is ("", 0) for an empty list, (v, 1) when every element is v, and otherwise "" with the number of distinct values. The slice is left compacted, and sorted and compacted again when it held several values. |
| Reconcile.ConsensusConflict | model/mediafile.go:226-228 | When the values are not all equal there is no consensus value, and the count is at least 2. The empty string counts as a value. |
| Reconcile.DistinctCount | model/mediafile.go:227-228 | Sorting and compacting the compacted list leaves exactly one element per distinct value, so the count is the number of distinct values. |
| Reconcile.AllOrNothingRepeat | model/mediafile.go:178-179 | Calling allOrNothing again on what the first call left in the comments slice gives the same answer as the first call. |
| Reconcile.MinMax | model/mediafile.go:233-245 | max is the largest year and is one of them. min is one of the years. When no year is negative, min is 0 exactly when all years are 0, and otherwise the smallest positive year. |
| Reconcile.Newer | model/mediafile.go:247-252 | The result is one of the two timestamps and is not earlier than either. |
| Reconcile.Older | model/mediafile.go:254-262 | An unset t1 yields t2. Otherwise the result is one of the two and is not later than either, so an unset t2 wins. |
| Reconcile.OlderStep | model/mediafile.go:151 | Folding older over one more creation time keeps the result equal to the earliest time after the last unset one, or 0 when there is none. |
| Reconcile.SinceLastZeroAllSet | model/mediafile.go:254-262 | When every creation time is set, nothing resets the fold, and the album's creation time is the earliest of all of them. |
| Reconcile.FixAlbumArtist | model/mediafile.go:264-279 | Only the album-artist fields change. A non-compilation without an album artist takes the track artist. A compilation whose album-artist IDs are not all equal gets the Various Artists name and ID. Every other album is returned unchanged. |
| Aggregate.Dirs | model/mediafile.go:99-107 | The directories are strictly ascending, so there are no duplicates. A directory is listed exactly when it is the cleaned directory part of some track's path. There are at most as many directories as tracks. |
| Aggregate.CleanDirsMembers | model/mediafile.go:100-104 | Collecting directories gives one entry per track, and every entry is some track's cleaned directory part. |
| Aggregate.Absorb | model/mediafile.go:125-169 | Defined as one iteration of the album loop on the album record: the copy-through fields, the size sum, newer and older on the timestamps, the genre append and the first-art rule. The FoldTracks lemmas state what folding it yields. |
| Aggregate.AlbumFold | model/mediafile.go:123-170 | The loop over the tracks yields the fold of the per-track album update over the batch. Each collected list (years, dates, comments, album-artist IDs, artist-ID tokens, MusicBrainz album IDs, full-text parts) is that column of the batch, in track order. |
| Aggregate.FoldTracksTotals | model/mediafile.go:124-152 | Folding keeps the song count. The size is the sum of the track sizes, and the genres are all tracks' genres in order. The copy-through fields, album artist included, are the last track's. |
| Aggregate.FoldTracksUpdated | model/mediafile.go:150 | The folded UpdatedAt is the latest track UpdatedAt and is attained by some track; an empty batch gives 0. |
| Aggregate.FoldTracksCreated | model/mediafile.go:151 | The folded CreatedAt is the earliest creation time after the last unset one, or 0. |
| Aggregate.FirstArtPathSpec | model/mediafile.go:167-169 | The embedded-art path is "" exactly when no track has cover art and a non-empty path. Otherwise it is the path of the first track that has both. |
| Aggregate.FoldTracksEmbedArt | model/mediafile.go:167-169 | The folded EmbedArtPath is the path that FirstArtPathSpec describes. |
| Aggregate.ResolveConflicts | model/mediafile.go:173-179 | Date, original date, release date with its release count, and comment are the consensus of their lists. The comment is computed from the list the first allOrNothing call left behind. |
| Aggregate.ToAlbum | model/mediafile.go:111-190 | For a non-empty batch the result has the following. SongCount is the batch length and Size is the sum of sizes. The copy-through fields are the last track's, and the album artist follows fixAlbumArtist over all album-artist IDs. UpdatedAt is the latest track UpdatedAt and CreatedAt is the earliest since the last reset. EmbedArtPath is the first usable art path. Paths joins the directories. Dates and comment are the consensus values. The year pairs are the known minimum and the maximum. Genre is the most frequent of the unsorted genres, and Genres is that list sorted and compacted. FullText is " " before the sanitised parts. AllArtistIDs is a single-space join of strictly ascending tokens that are exactly the tracks' tokens. MbzAlbumID is the most frequent album ID. |
| Aggregate.SortCompactGenres | model/mediafile.go:181-182 | Defined as the genres sorted by ID and then compacted, as for both the album (181-182) and the artist (214-215); SortCompactGenresSpec states what it yields. |
| Aggregate.SortCompactGenresSpec | model/mediafile.go:181-182 | Sorting genres by ID and compacting gives a list ordered by ID, with no two equal adjacent genres, the same genres as the input and no more elements. When each ID names one genre, the IDs are strictly ascending. |
| Aggregate.ArtistTokensMembers | model/mediafile.go:155-158 | The collected artist IDs are exactly the space-separated tokens of the tracks' AllArtistIDs, and each is non-empty and space-free. |
| Aggregate.ArtistName | model/mediafile.go:202-203 | The artist name is the part of the track artist before the first "·", trimmed of white space. |
| Aggregate.ToArtist | model/mediafile.go:194-219 | SongCount is the batch length. An empty batch leaves ID, name, sort and order names empty. Otherwise they come from the last track, the name cut at the first "·" and trimmed. Size sums the tracks whose artist is not their album artist. Genres are all genres sorted by ID and compacted. MbzArtistID is the most frequent artist ID. |
| Aggregate.GuestSize | model/mediafile.go:206-210 | Defined as the sum of the sizes of the tracks whose artist is not their album artist; ToArtist's Size is proved equal to it. |
| Aggregate.SizeAccounting | model/mediafile.go:206-210 | The tracks left out of the artist's size are exactly those whose artist is their album artist: the artist's size plus theirs is the batch's total size. |
| GoSlices.Compact | model/mediafile.go:222 | The compacted list is no longer than the input and, for a non-empty input, ends with the input's last element; CompactSpec, CompactRuns and CompactAllEqual state the rest. |
| GoSlices.RunLengths | model/mediafile.go:222 | Defined as the lengths of the runs of equal adjacent elements, each at least 1; there is a run exactly when the input is non-empty. |
| GoSlices.CompactRuns | model/mediafile.go:222 | The input is its compaction with each element repeated as often as its run is long, at least once. So compaction keeps the order and merges only adjacent equal elements: [1, 2, 1] stays [1, 2, 1]. |
| GoSlices.CompactInPlace | model/mediafile.go:222 | After the in-place compaction the first k elements are the compacted list, and the remaining positions keep their old values. |
| GoSlices.CompactSpec | model/mediafile.go:222 | Compaction keeps every value and only those, and leaves no two equal elements adjacent. |
| GoSlices.CompactAllEqual | model/mediafile.go:222-224 | Compaction leaves at most one element exactly when all elements are equal. |
| GoSlices.CompactSortedBy | model/mediafile.go:181-182 | Compacting a sorted list keeps it sorted. |
| GoSlices.SortBy | model/mediafile.go:227 | Defined as an insertion sort by a key; SortBySpec and SortedUnique state that it is the sorted permutation Go's sorts produce. |
| GoSlices.SortBySpec | model/mediafile.go:227 | Sorting gives a permutation of the input in ascending key order. |
| GoSlices.SortedUnique | model/mediafile.go:227 | Two sorted permutations of the same strings are equal, so any correct string sort, Go's included, gives the modelled result. |
| GoSlices.SortedDistinct | model/mediafile.go:105-106 | Defined as `slices.Sort` followed by `slices.Compact`, as for the directories (105-106), the artist-ID tokens (185-186) and the second allOrNothing pass (227-228); SortedDistinctSpec states what it yields. |
| GoSlices.SortedDistinctSpec | model/mediafile.go:185-186 | Sorting and compacting strings gives a strictly ascending list of exactly the input's values. |
| GoSlices.AscendingCardinality | model/mediafile.go:228 | A strictly ascending list holds as many distinct values as elements. |
| GoSlices.SortInPlace | model/mediafile.go:227 | Sorting in place rewrites the first n elements to their sorted order and leaves the rest alone. |
| GoSlices.SortCompactInPlace | model/mediafile.go:227-228 | Sorting then compacting in place returns the number of distinct values and leaves the sorted, compacted values at the front. |
| GoStrings.Less | model/mediafile.go:105 | Defined as Go's `<` on strings: lexicographic on code points, a proper prefix first. It is the order that `slices.Sort` uses at lines 105 and 185 and `sort.Strings` at line 227. |
| GoStrings.LessIrreflexive | model/mediafile.go:105 | No string is less than itself. |
| GoStrings.LessTransitive | model/mediafile.go:105 | Less is transitive. |
| GoStrings.LessTotal | model/mediafile.go:227 | Go's string order is total; LessIrreflexive and LessTransitive make it strict. |
| GoStrings.Join | model/mediafile.go:172 | Defined as the elements with the separator between consecutive ones; JoinSplit, ReplaceAllIsSplitJoin and FieldsJoin relate it to splitting. |
| GoStrings.Split | model/mediafile.go:202 | Always yields at least one piece, so taking the first piece never fails; SplitFirst, SplitPiecesFree and JoinSplit state what the pieces are. |
| GoStrings.SplitFirst | model/mediafile.go:202 | For any non-empty separator, the first piece is the prefix before the separator's first occurrence. The remaining pieces are the split of the text after that occurrence. With no occurrence, the string is the only piece. |
| GoStrings.SplitPiecesFree | model/mediafile.go:202 | No piece contains the separator. |
| GoStrings.JoinSplit | model/mediafile.go:202 | Joining the pieces of a split with the same separator gives back the string. |
| GoStrings.SplitHead | model/mediafile.go:202-203 | The first piece of a split at a one-character separator is the text before its first occurrence. |
| GoStrings.BeforeFirst | model/mediafile.go:202 | The result is a prefix that does not contain the character and is followed by it, unless it is the whole string. |
| GoStrings.ReplaceAll | model/mediafile.go:160-161 | Defined as replacing each non-overlapping occurrence found from the left; ReplaceAllIsSplitJoin states it equals splitting and joining with the replacement. |
| GoStrings.ReplaceAllIsSplitJoin | model/mediafile.go:160-161 | Replacing every occurrence equals splitting at them and joining with the replacement. |
| GoStrings.Fields | model/mediafile.go:155-157 | Defined as FieldsFunc at the space character, cutting one run of non-space characters at a time; FieldsTokens and FieldsSplit state what the fields are. |
| GoStrings.FieldsTokens | model/mediafile.go:155-157 | Every field is non-empty and contains no space. |
| GoStrings.FieldsSplit | model/mediafile.go:155-157 | The fields are exactly the maximal runs of non-space characters, in order: the pieces between single spaces with the empty ones dropped. |
| GoStrings.FieldsJoin | model/mediafile.go:185-186 | Tokens joined with single spaces split back into the same tokens. |
| GoStrings.IsSpace | model/mediafile.go:203 | Defined as the white-space set of Go's `unicode.IsSpace`, which `strings.TrimSpace` trims: tab, newline, vertical tab, form feed, carriage return, space, U+0085, U+00A0 and Unicode's other White_Space code points. |
| GoStrings.TrimSpace | model/mediafile.go:203 | The result is a substring of the input. Only white space precedes and follows it, and it neither starts nor ends with white space. |
| GoStrings.DirPart | model/mediafile.go:102 | The directory part is a prefix of the path that is empty or ends in "/". The rest of the path contains no "/". |

## Left out

- Duration and the ReplayGain fields are floating point and are not modelled.
- `ContentType`, `CoverArtID` and `AlbumCoverArtID` depend on the `mime` table, server configuration and artwork helpers that are not part of this model.
- The `MediaFileRepository` interface and the database migration are persistence, not logic.
- `filepath.Clean`, `utils.SanitizeStrings`, `slice.MostFrequent` and the `consts` values are not part of this model. They are fields of `Catalog.Library`, and only the arguments they receive are stated.
- Size is an `int64` in Go. Overflow of the summed size is not modelled; sizes are unbounded integers.
- The genre sort uses Go's pdqsort, which is not stable. The model uses a stable insertion sort by ID. Genres with equal IDs but different names can come out in another order in Go. Because `slices.Compact` merges only adjacent equal genres, the order can also change how many genres remain. For example, {1, A}, {1, B}, {1, A} may come out of an unstable sort as A, A, B and compact to two genres, while the stable order A, B, A keeps three. When every ID names a single genre, both sorts give the same strictly ascending list.
- Sorting strings is modelled by its result rather than by pdqsort's steps. `GoSlices.SortedUnique` shows that every correct sort gives that result.
- `DirPart` models `filepath.Split` with '/' as the only separator, as on Unix.
- Reconcile.MinMax: the minimum is characterised only when no year is negative. With negative years the loop's result still is one of the years but is not pinned down further.
- Timestamps are natural numbers, so times before Go's zero time (0001-01-01 UTC) are not modelled. If every track's UpdatedAt were such a time, Go's `newer` fold would return the zero time, which no track has; in the model the folded UpdatedAt is always attained by a track when the batch is non-empty.
- Aggregate.ToAlbum: requires a non-empty batch, because `minMax` reads the first year and panics on an empty list.

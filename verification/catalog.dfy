/** The catalog's records: the per-file track record the scanner produces and the Album and
    Artist aggregates built from batches of them. Only the fields the aggregation reads or
    writes are kept; floating-point fields (duration, ReplayGain) are not modelled. */
module Catalog {

  /** A point in time, 0 standing for Go's zero time; no time precedes it. */
  type Timestamp = nat

  /** A genre reference carried by tracks and aggregates. */
  datatype Genre = Genre(id: string, name: string)

  /** The key `SortFunc` orders genres by. */
  function GenreKey(g: Genre): string { g.id }

  /** `MediaFile`: the metadata of one audio file. */
  datatype MediaFile = MediaFile(
    path: string,
    album: string,
    artistId: string,
    artist: string,
    albumArtistId: string,
    albumArtist: string,
    allArtistIds: string,
    albumId: string,
    hasCoverArt: bool,
    discSubtitle: string,
    year: int,
    date: string,
    originalYear: int,
    originalDate: string,
    releaseDate: string,
    size: int,
    genres: seq<Genre>,
    sortAlbumName: string,
    sortArtistName: string,
    sortAlbumArtistName: string,
    orderAlbumName: string,
    orderArtistName: string,
    orderAlbumArtistName: string,
    compilation: bool,
    comment: string,
    catalogNum: string,
    mbzAlbumId: string,
    mbzArtistId: string,
    mbzAlbumArtistId: string,
    mbzAlbumType: string,
    mbzAlbumComment: string,
    createdAt: Timestamp,
    updatedAt: Timestamp)

  /** `Album`: the aggregate of the tracks of one album. */
  datatype Album = Album(
    id: string,
    name: string,
    artistId: string,
    artist: string,
    albumArtistId: string,
    albumArtist: string,
    sortAlbumName: string,
    sortArtistName: string,
    sortAlbumArtistName: string,
    orderAlbumName: string,
    orderAlbumArtistName: string,
    mbzAlbumArtistId: string,
    mbzAlbumType: string,
    mbzAlbumComment: string,
    catalogNum: string,
    compilation: bool,
    songCount: nat,
    size: int,
    updatedAt: Timestamp,
    createdAt: Timestamp,
    genre: string,
    genres: seq<Genre>,
    embedArtPath: string,
    paths: string,
    date: string,
    originalDate: string,
    releaseDate: string,
    releases: nat,
    minYear: int,
    maxYear: int,
    minOriginalYear: int,
    maxOriginalYear: int,
    comment: string,
    fullText: string,
    allArtistIds: string,
    mbzAlbumId: string)

  /** The zero `Album` value. */
  const EmptyAlbum := Album("", "", "", "", "", "", "", "", "", "", "", "", "", "", "", false,
                            0, 0, 0, 0, "", [], "", "", "", "", "", 0, 0, 0, 0, 0, "", "", "", "")

  /** `Artist`: the aggregate of the tracks of one artist. */
  datatype Artist = Artist(
    id: string,
    name: string,
    sortArtistName: string,
    orderArtistName: string,
    songCount: nat,
    size: int,
    genres: seq<Genre>,
    mbzArtistId: string)

  /** The collaborators the aggregation calls but whose code is not part of this model:
      `filepath.Clean`, `utils.SanitizeStrings`, `slice.MostFrequent` (at the two element
      types it is used with) and the constants `consts.VariousArtists`,
      `consts.VariousArtistsID` and `consts.Zwsp`. */
  datatype Library = Library(
    clean: string -> string,
    sanitize: seq<string> -> string,
    mostFrequent: seq<string> -> string,
    mostFrequentGenre: seq<Genre> -> Genre,
    variousArtists: string,
    variousArtistsId: string,
    zwsp: string)
}

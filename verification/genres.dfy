/** The genre pass of the transform (main.py lines 92-108): a first-seen-wins genre
    dictionary and one movie_genres row per genre occurrence. */
module GenrePass {
  import opened Seqs
  import opened OrderedDict
  import opened Records

  datatype GenreTables = GenreTables(genres: Dict<int, string>, movieGenres: seq<MovieGenreRow>)

  /** The (id, name) pairs of a movie's genres, in listed order. */
  function GenrePairsOf(m: RawMovie): seq<(int, string)>
  {
    seq(|m.genres|, i requires 0 <= i < |m.genres| => (m.genres[i].id, m.genres[i].name))
  }

  /** The movie_genres rows one movie appends. */
  function GenreRowsOf(m: RawMovie): seq<MovieGenreRow>
  {
    seq(|m.genres|, i requires 0 <= i < |m.genres| => MovieGenreRow(m.tmdbId, m.genres[i].id))
  }

  function GenreListLength(m: RawMovie): nat
  {
    |m.genres|
  }

  /** One iteration of the outer loop: every genre of `m` is offered to the dictionary
      and produces a row, whether or not its id was already known. */
  function GenreStep(t: GenreTables, m: RawMovie): GenreTables
  {
    GenreTables(InsertAll(t.genres, GenrePairsOf(m)), t.movieGenres + GenreRowsOf(m))
  }

  /** The genre pass over all movies, in order. */
  function BuildGenres(movies: seq<RawMovie>): GenreTables
    decreases |movies|
  {
    if |movies| == 0 then GenreTables([], [])
    else GenreStep(BuildGenres(Init(movies)), Last(movies))
  }

  /** Genre ids in the genre table are unique. */
  lemma {:induction false} GenresUnique(movies: seq<RawMovie>)
    ensures UniqueKeys(BuildGenres(movies).genres)
    decreases |movies|
  {
    if |movies| != 0 {
      GenresUnique(Init(movies));
      InsertAllExtends(BuildGenres(Init(movies)).genres, GenrePairsOf(Last(movies)));
    }
  }

  /** Every movie_genres row names a genre of the genre table. */
  lemma {:induction false} GenresClosed(movies: seq<RawMovie>)
    ensures forall n :: 0 <= n < |BuildGenres(movies).movieGenres| ==>
              HasKey(BuildGenres(movies).genres, BuildGenres(movies).movieGenres[n].genreId)
    decreases |movies|
  {
    if |movies| != 0 {
      var prev := BuildGenres(Init(movies));
      var m := Last(movies);
      var next := BuildGenres(movies);
      assert next == GenreStep(prev, m);
      GenresClosed(Init(movies));
      InsertAllExtends(prev.genres, GenrePairsOf(m));
      HasKeyPrefix(prev.genres, next.genres);
      InsertAllCovers(prev.genres, GenrePairsOf(m));
      assert forall j :: 0 <= j < |m.genres| ==> GenrePairsOf(m)[j].0 == GenreRowsOf(m)[j].genreId;
    }
  }

  /** The genre table is the first-wins dictionary of every genre occurrence, movie by
      movie and in listed order within a movie. */
  lemma {:induction false} GenresAreFirstWins(movies: seq<RawMovie>)
    ensures BuildGenres(movies).genres == InsertAll([], Flatten(movies, GenrePairsOf))
    decreases |movies|
  {
    if |movies| != 0 {
      var init, m := Init(movies), Last(movies);
      GenresAreFirstWins(init);
      assert BuildGenres(movies).genres == InsertAll(BuildGenres(init).genres, GenrePairsOf(m));
      FlattenInit(movies, GenrePairsOf);
      InsertAllConcat([], Flatten(init, GenrePairsOf), GenrePairsOf(m));
    }
  }

  /** First-seen wins: the stored name of a genre id is the name of its first
      occurrence; an id that never occurs is absent. */
  lemma GenreNameFirstSeen(movies: seq<RawMovie>, k: int)
    ensures Lookup(BuildGenres(movies).genres, k) == Lookup(Flatten(movies, GenrePairsOf), k)
  {
    GenresAreFirstWins(movies);
    InsertAllFirstSeen([], Flatten(movies, GenrePairsOf), k);
    assert [] + Flatten(movies, GenrePairsOf) == Flatten(movies, GenrePairsOf);
  }

  /** The movie_genres rows are the per-movie rows concatenated in movie order. */
  lemma {:induction false} GenreRowsInOrder(movies: seq<RawMovie>)
    ensures BuildGenres(movies).movieGenres == Flatten(movies, GenreRowsOf)
    decreases |movies|
  {
    if |movies| != 0 {
      GenreRowsInOrder(Init(movies));
      FlattenInit(movies, GenreRowsOf);
    }
  }

  /** One row per genre occurrence: the table has as many rows as all genre lists together. */
  lemma GenreRowsCount(movies: seq<RawMovie>)
    ensures |BuildGenres(movies).movieGenres| == Sum(movies, GenreListLength)
  {
    GenreRowsInOrder(movies);
    FlattenLength(movies, GenreRowsOf, GenreListLength);
  }

  /** Genre `j` of movie `i` is the row `j` places after the rows of the movies before
      it, so a genre id already in the table still gets its row. */
  lemma GenreRowAt(movies: seq<RawMovie>, i: nat, j: nat)
    requires i < |movies| && j < |movies[i].genres|
    ensures Sum(movies[..i], GenreListLength) + j < |BuildGenres(movies).movieGenres|
    ensures BuildGenres(movies).movieGenres[Sum(movies[..i], GenreListLength) + j]
         == MovieGenreRow(movies[i].tmdbId, movies[i].genres[j].id)
  {
    GenreRowsInOrder(movies);
    FlattenAt(movies, GenreRowsOf, i, j);
    FlattenLength(movies[..i], GenreRowsOf, GenreListLength);
  }

  /** A movie with an empty genre list adds no row and leaves the genre table alone. */
  lemma NoGenresNoRows(movies: seq<RawMovie>, m: RawMovie)
    requires m.genres == []
    ensures BuildGenres(movies + [m]) == BuildGenres(movies)
  {
    assert Init(movies + [m]) == movies;
    assert GenreRowsOf(m) == [];
    assert GenrePairsOf(m) == [];
  }
}

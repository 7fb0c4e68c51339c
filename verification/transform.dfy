/** The final movies table with its integrity filter (main.py lines 143-156) and the
    whole transform phase assembled from the genre and people passes. */
module Transform {
  import opened Options
  import opened Seqs
  import opened OrderedDict
  import opened Records
  import opened GenrePass
  import opened PeoplePass

  /** The five tables the transform hands to the loader. */
  datatype Tables = Tables(
    movies: seq<MovieRow>,
    genres: Dict<int, string>,
    people: Dict<int, string>,
    movieGenres: seq<MovieGenreRow>,
    movieCast: seq<MovieCastRow>)

  /** Why the transform as written stops without producing tables. */
  datatype TransformError =
    /** The raw frame built from no records has no columns to select. */
    MissingColumns

  /** Every raw movie whose id has a director-map entry, in the original order, with
      that entry as its director id; the others are dropped. */
  function MoviesTable(raw: seq<RawMovie>, directors: map<int, int>): (rows: seq<MovieRow>)
    ensures |rows| <= |raw|
    ensures forall n :: 0 <= n < |rows| ==> rows[n].id in directors && rows[n].directorId == directors[rows[n].id]
  {
    if |raw| == 0 then []
    else
      (if raw[0].tmdbId in directors then [MovieRow(raw[0].tmdbId, raw[0].details, directors[raw[0].tmdbId])] else [])
      + MoviesTable(raw[1..], directors)
  }

  /** The filter keeps the original order: filtering a concatenation is concatenating
      the filtered parts. */
  lemma {:induction false} MoviesTableAppend(a: seq<RawMovie>, b: seq<RawMovie>, directors: map<int, int>)
    ensures MoviesTable(a + b, directors) == MoviesTable(a, directors) + MoviesTable(b, directors)
  {
    if |a| == 0 {
      assert a + b == b;
    } else {
      assert (a + b)[0] == a[0];
      assert (a + b)[1..] == a[1..] + b;
      MoviesTableAppend(a[1..], b, directors);
    }
  }

  /** A row is in the movies table exactly when it is the row of a raw movie whose id
      has a director-map entry. */
  lemma {:induction false} MoviesTableMembers(raw: seq<RawMovie>, directors: map<int, int>, row: MovieRow)
    ensures row in MoviesTable(raw, directors) <==>
            exists i :: 0 <= i < |raw| && raw[i].tmdbId in directors
                     && row == MovieRow(raw[i].tmdbId, raw[i].details, directors[raw[i].tmdbId])
  {
    if |raw| != 0 {
      MoviesTableMembers(raw[1..], directors, row);
      assert forall i :: 1 <= i < |raw| ==> raw[i] == raw[1..][i - 1];
      if row in MoviesTable(raw[1..], directors) {
        var i :| 0 <= i < |raw[1..]| && raw[1..][i].tmdbId in directors
                 && row == MovieRow(raw[1..][i].tmdbId, raw[1..][i].details, directors[raw[1..][i].tmdbId]);
        assert raw[i + 1] == raw[1..][i];
      }
    }
  }

  /** The transform: the genre pass, the people pass, then the filtered movies table.
      Genre and person ids are unique, and every junction row and every movie's
      director names an existing genre or person. */
  function Transform(raw: seq<RawMovie>): (t: Tables)
    ensures UniqueKeys(t.genres) && UniqueKeys(t.people)
    ensures forall n :: 0 <= n < |t.movieGenres| ==> HasKey(t.genres, t.movieGenres[n].genreId)
    ensures forall n :: 0 <= n < |t.movieCast| ==> HasKey(t.people, t.movieCast[n].personId)
    ensures forall n :: 0 <= n < |t.movies| ==> HasKey(t.people, t.movies[n].directorId)
  {
    var g := BuildGenres(raw);
    var p := BuildPeople(raw);
    GenresUnique(raw);
    PeopleUnique(raw);
    GenresClosed(raw);
    CastRowsClosed(raw);
    DirectorsClosed(raw);
    Tables(MoviesTable(raw, p.directors), g.genres, p.people, g.movieGenres, p.movieCast)
  }

  /** With distinct movie ids, the movies table holds exactly one row for each raw
      movie whose crew credits a director, carrying the first credited director's id;
      movies without a director are absent. */
  lemma {:induction false} MoviesOfTransform(raw: seq<RawMovie>, row: MovieRow)
    requires DistinctIds(raw)
    ensures row in Transform(raw).movies <==>
            exists i :: 0 <= i < |raw| && HasDirector(raw[i])
                     && row == MovieRow(raw[i].tmdbId, raw[i].details, FindDirector(raw[i].crew).value.id)
  {
    var d := BuildPeople(raw).directors;
    MoviesTableMembers(raw, d, row);
    if row in Transform(raw).movies {
      var i :| 0 <= i < |raw| && raw[i].tmdbId in d && row == MovieRow(raw[i].tmdbId, raw[i].details, d[raw[i].tmdbId]);
      DirectorOfMovie(raw, i);
    }
    if exists i :: 0 <= i < |raw| && HasDirector(raw[i])
                && row == MovieRow(raw[i].tmdbId, raw[i].details, FindDirector(raw[i].crew).value.id) {
      var i :| 0 <= i < |raw| && HasDirector(raw[i])
               && row == MovieRow(raw[i].tmdbId, raw[i].details, FindDirector(raw[i].crew).value.id);
      DirectorOfMovie(raw, i);
    }
  }

  /** A movie without a director is dropped from the movies table only: its genre and
      cast rows stay in the junction tables, naming a movie id the movies table lacks. */
  lemma JunctionRowsNotFiltered()
    ensures var t := Transform([RawMovie(1, Details("T", "O", "2000-01-01", 8.0), [GenreEntry(18, "Drama")],
                                         [CastEntry(2, "P", "C")], [CrewEntry(3, "W", "Writer")])]);
            t.movies == [] && t.movieGenres == [MovieGenreRow(1, 18)] && t.movieCast == [MovieCastRow(1, 2, "C")]
  {
    var m := RawMovie(1, Details("T", "O", "2000-01-01", 8.0), [GenreEntry(18, "Drama")],
                      [CastEntry(2, "P", "C")], [CrewEntry(3, "W", "Writer")]);
    assert Init([m]) == [];
    assert FindDirector(m.crew) == None;
    assert GenreRowsOf(m) == [MovieGenreRow(1, 18)];
    assert CastRowsOf(m) == [MovieCastRow(1, 2, "C")];
  }

  /** The keys of the dictionary built for each collected record (main.py lines 67-76);
      every record carries all eight, whatever its values. */
  const RecordKeys: set<string> :=
    {"tmdb_id", "title", "overview", "release_date", "vote_average", "genres", "cast", "crew"}

  /** The columns selected for the movies table (main.py line 144). */
  const SelectedColumns: set<string> := {"tmdb_id", "title", "overview", "release_date", "vote_average"}

  /** The columns of the raw frame built from a list of record dictionaries: the union of
      the records' keys, so a frame built from no records has no columns. */
  function FrameColumns(raw: seq<RawMovie>): set<string>
  {
    if |raw| == 0 then {} else RecordKeys + FrameColumns(raw[1..])
  }

  /** The raw frame has no columns when no record was collected, and exactly the record
      keys otherwise. */
  lemma {:induction false} FrameColumnsOfRecords(raw: seq<RawMovie>)
    ensures |raw| == 0 ==> FrameColumns(raw) == {}
    ensures |raw| > 0 ==> FrameColumns(raw) == RecordKeys
  {
    if |raw| > 1 {
      FrameColumnsOfRecords(raw[1..]);
    }
  }

  /** The transform as written: the detail columns are selected from the raw frame, and
      the selection fails when the frame lacks any of them. */
  function TransformAsWritten(raw: seq<RawMovie>): (r: Result<Tables, TransformError>)
    ensures r.Failure? <==> |raw| == 0
    ensures r.Success? ==> r.value == Transform(raw)
  {
    FrameColumnsOfRecords(raw);
    if SelectedColumns <= FrameColumns(raw) then Success(Transform(raw)) else Failure(MissingColumns)
  }

  /** On no records the transform as written fails, where the transform yields five
      empty tables. */
  lemma EmptyRunDiffers()
    ensures TransformAsWritten([]) == Failure(MissingColumns)
    ensures Transform([]) == Tables([], [], [], [], [])
  {
  }
}

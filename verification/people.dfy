/** The people pass of the transform (main.py lines 111-140): director resolution,
    the first ten billed cast members, a first-seen-wins people dictionary, the
    movie_cast rows and the movie-to-director map. */
module PeoplePass {
  import opened Options
  import opened Seqs
  import opened OrderedDict
  import opened Records

  datatype PeopleTables = PeopleTables(
    people: Dict<int, string>,
    movieCast: seq<MovieCastRow>,
    directors: map<int, int>)

  /** The first crew entry whose job is "Director"; later directors are ignored. */
  function FindDirector(crew: seq<CrewEntry>): Option<CrewEntry>
  {
    if |crew| == 0 then None
    else if crew[0].job == Director then Some(crew[0])
    else FindDirector(crew[1..])
  }

  /** The resolved director is absent exactly when no crew entry has job "Director",
      and otherwise it is a "Director" entry with none before it. */
  lemma {:induction false} FindDirectorFirst(crew: seq<CrewEntry>)
    ensures FindDirector(crew).None? <==> forall i :: 0 <= i < |crew| ==> crew[i].job != Director
    ensures FindDirector(crew).Some? ==>
            exists i :: 0 <= i < |crew| && crew[i] == FindDirector(crew).value && crew[i].job == Director
                     && forall j :: 0 <= j < i ==> crew[j].job != Director
  {
    if |crew| != 0 && crew[0].job != Director {
      var r := FindDirector(crew[1..]);
      FindDirectorFirst(crew[1..]);
      assert forall i :: 1 <= i < |crew| ==> crew[i] == crew[1..][i - 1];
      if r.Some? {
        var i :| 0 <= i < |crew[1..]| && crew[1..][i] == r.value && crew[1..][i].job == Director
                 && forall j :: 0 <= j < i ==> crew[1..][j].job != Director;
        assert crew[i + 1] == r.value;
        assert forall j :: 0 <= j < i + 1 ==> crew[j].job != Director by {
          forall j | 0 <= j < i + 1 ensures crew[j].job != Director {
            if j > 0 { assert crew[j] == crew[1..][j - 1]; }
          }
        }
      }
    }
  }

  predicate HasDirector(m: RawMovie)
  {
    FindDirector(m.crew).Some?
  }

  /** The cast members kept for a movie: the first ten in billing order. */
  function Billed(m: RawMovie): seq<CastEntry>
  {
    Prefix(m.cast, CastLimit)
  }

  function BilledCount(m: RawMovie): nat
  {
    |Billed(m)|
  }

  /** The (id, name) pairs of the billed cast, in billing order. */
  function CastPairsOf(m: RawMovie): seq<(int, string)>
  {
    var b := Billed(m);
    seq(|b|, i requires 0 <= i < |b| => (b[i].id, b[i].name))
  }

  /** The movie_cast rows one movie appends. */
  function CastRowsOf(m: RawMovie): seq<MovieCastRow>
  {
    var b := Billed(m);
    seq(|b|, i requires 0 <= i < |b| => MovieCastRow(m.tmdbId, b[i].id, b[i].character))
  }

  /** The people one movie offers to the dictionary, in the order it offers them:
      its director, if any, then its billed cast. */
  function PeoplePairsOf(m: RawMovie): seq<(int, string)>
  {
    (match FindDirector(m.crew)
     case Some(d) => [(d.id, d.name)]
     case None => [])
    + CastPairsOf(m)
  }

  /** `directors_map[movie_id] = director_id` when the crew credits a director. */
  function RecordDirector(directors: map<int, int>, m: RawMovie): map<int, int>
  {
    match FindDirector(m.crew)
    case Some(d) => directors[m.tmdbId := d.id]
    case None => directors
  }

  /** One iteration of the outer loop: the director, if any, is recorded and offered to
      the dictionary before the billed cast. */
  function PeopleStep(t: PeopleTables, m: RawMovie): PeopleTables
  {
    var withDirector :=
      match FindDirector(m.crew)
      case Some(d) => InsertIfAbsent(t.people, d.id, d.name)
      case None => t.people;
    PeopleTables(InsertAll(withDirector, CastPairsOf(m)), t.movieCast + CastRowsOf(m), RecordDirector(t.directors, m))
  }

  /** One movie offers its people to the dictionary in the order of `PeoplePairsOf`. */
  lemma PeopleStepOffers(t: PeopleTables, m: RawMovie)
    ensures PeopleStep(t, m).people == InsertAll(t.people, PeoplePairsOf(m))
  {
    match FindDirector(m.crew)
    case Some(d) =>
      InsertAllConcat(t.people, [(d.id, d.name)], CastPairsOf(m));
      assert [(d.id, d.name)][1..] == [];
    case None =>
      assert PeoplePairsOf(m) == CastPairsOf(m);
  }

  /** The people pass over all movies, in order. */
  function BuildPeople(movies: seq<RawMovie>): PeopleTables
    decreases |movies|
  {
    if |movies| == 0 then PeopleTables([], [], map[])
    else PeopleStep(BuildPeople(Init(movies)), Last(movies))
  }

  /** Person ids in the people table are unique. */
  lemma {:induction false} PeopleUnique(movies: seq<RawMovie>)
    ensures UniqueKeys(BuildPeople(movies).people)
    decreases |movies|
  {
    if |movies| != 0 {
      var prev, m := BuildPeople(Init(movies)), Last(movies);
      PeopleUnique(Init(movies));
      PeopleStepOffers(prev, m);
      InsertAllExtends(prev.people, PeoplePairsOf(m));
    }
  }

  /** The offers of a movie: its director first, when it has one, then its billed cast. */
  lemma PeoplePairsLayout(m: RawMovie)
    ensures HasDirector(m) ==> PeoplePairsOf(m)[0].0 == FindDirector(m.crew).value.id
    ensures forall j :: 0 <= j < |CastRowsOf(m)| ==>
              (if HasDirector(m) then 1 else 0) + j < |PeoplePairsOf(m)| &&
              PeoplePairsOf(m)[(if HasDirector(m) then 1 else 0) + j].0 == CastRowsOf(m)[j].personId
  {
    var offset := if HasDirector(m) then 1 else 0;
    var b, cast, rows := Billed(m), CastPairsOf(m), CastRowsOf(m);
    var head: seq<(int, string)> := if HasDirector(m) then [(FindDirector(m.crew).value.id, FindDirector(m.crew).value.name)] else [];
    assert PeoplePairsOf(m) == head + cast;
    assert |head| == offset;
    assert |rows| == |b| == |cast|;
    forall j | 0 <= j < |rows|
      ensures offset + j < |PeoplePairsOf(m)| && PeoplePairsOf(m)[offset + j].0 == rows[j].personId
    {
      assert (head + cast)[offset + j] == cast[j];
      assert cast[j].0 == b[j].id == rows[j].personId;
    }
  }

  /** Every movie_cast row names a person of the people table. */
  lemma {:induction false} CastRowsClosed(movies: seq<RawMovie>)
    ensures forall n :: 0 <= n < |BuildPeople(movies).movieCast| ==>
              HasKey(BuildPeople(movies).people, BuildPeople(movies).movieCast[n].personId)
    decreases |movies|
  {
    if |movies| != 0 {
      var prev, m := BuildPeople(Init(movies)), Last(movies);
      var next := BuildPeople(movies);
      CastRowsClosed(Init(movies));
      PeopleStepOffers(prev, m);
      InsertAllExtends(prev.people, PeoplePairsOf(m));
      HasKeyPrefix(prev.people, next.people);
      InsertAllCovers(prev.people, PeoplePairsOf(m));
      PeoplePairsLayout(m);
      assert next.movieCast == prev.movieCast + CastRowsOf(m);
    }
  }

  /** Every director the map records names a person of the people table. */
  lemma {:induction false} DirectorsClosed(movies: seq<RawMovie>)
    ensures forall k :: k in BuildPeople(movies).directors ==>
              HasKey(BuildPeople(movies).people, BuildPeople(movies).directors[k])
    decreases |movies|
  {
    if |movies| != 0 {
      var prev, m := BuildPeople(Init(movies)), Last(movies);
      var next := BuildPeople(movies);
      DirectorsClosed(Init(movies));
      PeopleStepOffers(prev, m);
      InsertAllExtends(prev.people, PeoplePairsOf(m));
      HasKeyPrefix(prev.people, next.people);
      InsertAllCovers(prev.people, PeoplePairsOf(m));
      PeoplePairsLayout(m);
      assert next.directors == RecordDirector(prev.directors, m);
    }
  }

  /** The people table is the first-wins dictionary of every person offered, movie by
      movie: a movie's director before its billed cast. */
  lemma {:induction false} PeopleAreFirstWins(movies: seq<RawMovie>)
    ensures BuildPeople(movies).people == InsertAll([], Flatten(movies, PeoplePairsOf))
    decreases |movies|
  {
    if |movies| != 0 {
      var init, m := Init(movies), Last(movies);
      PeopleAreFirstWins(init);
      PeopleStepOffers(BuildPeople(init), m);
      FlattenInit(movies, PeoplePairsOf);
      InsertAllConcat([], Flatten(init, PeoplePairsOf), PeoplePairsOf(m));
    }
  }

  /** First-seen wins across roles: a person's stored name is the name of their first
      appearance, whether that was as a director or as a billed cast member. */
  lemma PersonNameFirstSeen(movies: seq<RawMovie>, k: int)
    ensures Lookup(BuildPeople(movies).people, k) == Lookup(Flatten(movies, PeoplePairsOf), k)
  {
    PeopleAreFirstWins(movies);
    InsertAllFirstSeen([], Flatten(movies, PeoplePairsOf), k);
    assert [] + Flatten(movies, PeoplePairsOf) == Flatten(movies, PeoplePairsOf);
  }

  /** The movie_cast rows are the per-movie rows concatenated in movie order. */
  lemma {:induction false} CastRowsInOrder(movies: seq<RawMovie>)
    ensures BuildPeople(movies).movieCast == Flatten(movies, CastRowsOf)
    decreases |movies|
  {
    if |movies| != 0 {
      CastRowsInOrder(Init(movies));
      FlattenInit(movies, CastRowsOf);
    }
  }

  /** Each movie contributes min(10, |cast|) rows, so the table has that many summed
      over all movies. */
  lemma CastRowsCount(movies: seq<RawMovie>)
    ensures forall i :: 0 <= i < |movies| ==> BilledCount(movies[i]) == Min(CastLimit, |movies[i].cast|)
    ensures |BuildPeople(movies).movieCast| == Sum(movies, BilledCount)
  {
    CastRowsInOrder(movies);
    FlattenLength(movies, CastRowsOf, BilledCount);
  }

  /** Cast entry `j` of movie `i`, for `j` below ten, is the row `j` places after the
      rows of the movies before it, with the person id and character copied from it. */
  lemma CastRowAt(movies: seq<RawMovie>, i: nat, j: nat)
    requires i < |movies| && j < Min(CastLimit, |movies[i].cast|)
    ensures Sum(movies[..i], BilledCount) + j < |BuildPeople(movies).movieCast|
    ensures BuildPeople(movies).movieCast[Sum(movies[..i], BilledCount) + j]
         == MovieCastRow(movies[i].tmdbId, movies[i].cast[j].id, movies[i].cast[j].character)
  {
    CastRowsInOrder(movies);
    FlattenAt(movies, CastRowsOf, i, j);
    FlattenLength(movies[..i], CastRowsOf, BilledCount);
  }

  /** A movie credited with a director under id `k`. */
  predicate DirectedAs(movies: seq<RawMovie>, i: int, k: int)
  {
    0 <= i < |movies| && movies[i].tmdbId == k && HasDirector(movies[i])
  }

  /** The director map on its own: the people pass's `directors` field. */
  function DirectorMap(movies: seq<RawMovie>): map<int, int>
    decreases |movies|
  {
    if |movies| == 0 then map[] else RecordDirector(DirectorMap(Init(movies)), Last(movies))
  }

  lemma {:induction false} DirectorMapOfPass(movies: seq<RawMovie>)
    ensures BuildPeople(movies).directors == DirectorMap(movies)
    decreases |movies|
  {
    if |movies| != 0 {
      DirectorMapOfPass(Init(movies));
    }
  }

  /** One movie changes the director map only under its own id, and only when its
      crew credits a director. */
  lemma DirectorMapStep(movies: seq<RawMovie>, k: int)
    requires |movies| > 0
    ensures DirectedAs(movies, |movies| - 1, k) ==>
            k in DirectorMap(movies) && DirectorMap(movies)[k] == FindDirector(Last(movies).crew).value.id
    ensures !DirectedAs(movies, |movies| - 1, k) ==>
            (k in DirectorMap(movies) <==> k in DirectorMap(Init(movies))) &&
            (k in DirectorMap(movies) ==> DirectorMap(movies)[k] == DirectorMap(Init(movies))[k])
  {
    var m := Last(movies);
    assert DirectorMap(movies) == RecordDirector(DirectorMap(Init(movies)), m);
    assert DirectedAs(movies, |movies| - 1, k) <==> m.tmdbId == k && HasDirector(m);
  }

  /** A movie id has a director-map entry exactly when some movie with that id credits
      a director. */
  lemma {:induction false} DirectorEntryExists(movies: seq<RawMovie>, k: int)
    ensures k in DirectorMap(movies) <==> exists i :: DirectedAs(movies, i, k)
    decreases |movies|
  {
    if |movies| != 0 {
      var init := Init(movies);
      DirectorEntryExists(init, k);
      DirectorMapStep(movies, k);
      assert forall i :: DirectedAs(init, i, k) <==> i != |init| && DirectedAs(movies, i, k);
    }
  }

  /** The director-map entry of an id is the first credited director of the last movie
      with that id that credits one: a later movie with the same id overwrites it, one
      without a director does not. */
  lemma {:induction false} DirectorsResolved(movies: seq<RawMovie>, k: int)
    requires k in DirectorMap(movies)
    ensures exists i :: DirectedAs(movies, i, k)
                     && DirectorMap(movies)[k] == FindDirector(movies[i].crew).value.id
                     && forall j :: i < j < |movies| ==> !DirectedAs(movies, j, k)
    decreases |movies|
  {
    var init, n := Init(movies), |movies| - 1;
    DirectorMapStep(movies, k);
    if DirectedAs(movies, n, k) {
      assert DirectorMap(movies)[k] == FindDirector(movies[n].crew).value.id;
    } else {
      DirectorsResolved(init, k);
      var i :| DirectedAs(init, i, k) && DirectorMap(init)[k] == FindDirector(init[i].crew).value.id
               && forall j :: i < j < |init| ==> !DirectedAs(init, j, k);
      assert init[i] == movies[i];
      assert forall j :: i < j < |movies| ==> !DirectedAs(movies, j, k) by {
        forall j | i < j < |movies| ensures !DirectedAs(movies, j, k) {
          if j < n { assert movies[j] == init[j]; assert !DirectedAs(init, j, k); }
        }
      }
    }
  }

  /** With distinct movie ids, a movie has a director-map entry exactly when its crew
      credits a director, and the entry is the first credited director's id. */
  lemma DirectorOfMovie(movies: seq<RawMovie>, i: nat)
    requires DistinctIds(movies) && i < |movies|
    ensures movies[i].tmdbId in BuildPeople(movies).directors <==> HasDirector(movies[i])
    ensures HasDirector(movies[i]) ==>
            BuildPeople(movies).directors[movies[i].tmdbId] == FindDirector(movies[i].crew).value.id
  {
    var k, d := movies[i].tmdbId, DirectorMap(movies);
    DirectorEntryExists(movies, k);
    DirectorMapOfPass(movies);
    assert HasDirector(movies[i]) ==> DirectedAs(movies, i, k);
    if k in d {
      DirectorsResolved(movies, k);
      var i' :| DirectedAs(movies, i', k) && d[k] == FindDirector(movies[i'].crew).value.id;
      assert i' == i;
    }
  }

  /** A writer, then two directors: the first director is the one resolved. */
  lemma FirstCreditedDirectorWins()
    ensures FindDirector([CrewEntry(1, "W", "Writer"), CrewEntry(5, "A", Director), CrewEntry(6, "B", Director)])
         == Some(CrewEntry(5, "A", Director))
  {
    var crew := [CrewEntry(1, "W", "Writer"), CrewEntry(5, "A", Director), CrewEntry(6, "B", Director)];
    assert crew[1..][0] == CrewEntry(5, "A", Director);
  }
}

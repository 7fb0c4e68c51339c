# Movie ETL transform — Dafny model

This project models the pure core of a batch ETL script (`main.py`). The script pulls the
top-rated movies from a movie-metadata web API and reshapes the nested per-movie records
into five relational tables. Those tables are movies, genres, people, movie_genres and
movie_cast. The model covers two parts:

- the **transform phase**, as pure functions over a sequence of raw movie records:
  - genre deduplication and the movie–genre junction rows;
  - director resolution;
  - the first ten billed cast members, and the people dictionary they share with directors;
  - the movie–cast junction rows;
  - the final movies table with its "no director, no row" integrity filter;
- the **page-combining rule** of `fetch_top_movies`, over an abstract page-outcome function
  that stands in for the HTTP listing endpoint.

Python dictionaries keep keys in insertion order, so `all_genres` and `all_people` are
modelled as sequences of `(id, name)` pairs (`OrderedDict.Dict`). Insertion into them is
first-wins (`OrderedDict.InsertIfAbsent`). `directors_map` is a Dafny `map`, because the
source assigns into it with overwrite semantics. Title, overview, release date and vote
average are carried as opaque payload (`Records.Details`).

Modules:

- `Options`: `Option` and `Result`.
- `Seqs`: the `s[:n]` slice, plus flattening and summing over a sequence, with lemmas.
- `OrderedDict`: the insertion-ordered, first-wins dictionary.
- `Fetcher`: `fetch_top_movies` page combining.
- `Records`: the raw records, the row types and the constants `"Director"` and `10`.
- `GenrePass`: the genre loop.
- `PeoplePass`: the director/cast loop.
- `Transform`: the movies table and the assembled transform.

Where the intended behaviour and the code disagree, the model follows the code:

- The schema intends every junction row to reference a stored movie. The code drops
  director-less movies from `movies_df` only (main.py:155). Their genre and cast rows stay
  in the junction tables, as `Transform.JunctionRowsNotFiltered` shows.
- A failed listing page is meant to yield an empty result for the run. In the code, the
  run then stops with an error in the transform (see Findings). A network error or a
  non-JSON body is not turned into an empty listing at all: the exception from
  `requests.get` or `response.json()` (main.py:22, 25) leaves `fetch_top_movies` and stops
  the script.
- Nothing states what repeated movie ids should do. In the code, `directors_map` is
  overwritten by the last movie with that id that credits a director. Every movie with
  that id is then kept with that director (`PeoplePass.DirectorsResolved`). With distinct
  ids this reduces to "kept exactly when its own crew credits a director"
  (`PeoplePass.DirectorOfMovie`, `Transform.MoviesOfTransform`).

## Model

| member | source | states |
|---|---|---|
| `OrderedDict.Lookup` | main.py:101-102 | The result is present exactly when some entry has the key. It is then the value of the first entry with that key. |
| `OrderedDict.InsertIfAbsent` | main.py:101-102 | Existing entries keep their positions. A key already present keeps its stored value; an absent key then maps to the new value. Unique keys stay unique. |
| `OrderedDict.InsertIfAbsentOthers` | main.py:101-102 | Inserting one key leaves the lookup of every other key unchanged. |
| `OrderedDict.InsertAllFirstSeen` | main.py:98-102 | After a run of first-wins insertions, every key maps to its first occurrence in the old dictionary followed by the inserted pairs. |
| `OrderedDict.InsertAllConcat` | main.py:96-102 | Inserting two runs of pairs one after the other is the same as inserting their concatenation. |
| `Fetcher.FetchTopMovies` | main.py:17-30 | The result has at most 50 entries. It is empty when any of pages 1-3 fails. Otherwise it is the prefix, of length min(50, total), of the page results concatenated in page order. |
| `Seqs.Prefix` | main.py:128 | The slice `s[:n]` is a prefix of `s` of length min(n, \|s\|). |
| `GenrePass.GenresUnique` | main.py:93-102 | Genre ids in the genre table are unique. |
| `GenrePass.GenresClosed` | main.py:98-104 | Every movie_genres row names a genre id present in the genre table. |
| `GenrePass.GenresAreFirstWins` | main.py:96-104 | The genre table equals the first-wins dictionary of every genre occurrence, movie by movie and in listed order. |
| `GenrePass.GenreNameFirstSeen` | main.py:101-102 | A genre id's stored name is the name of its first occurrence across all movies. An id that never occurs is absent. |
| `GenrePass.GenreRowsInOrder` | main.py:96-104 | The movie_genres rows are each movie's rows, concatenated in movie order. |
| `GenrePass.GenreRowsCount` | main.py:98-104 | There are as many movie_genres rows as genre entries over all movies. |
| `GenrePass.GenreRowAt` | main.py:98-104 | Genre j of movie i is the row (movie id, genre id) at offset j after the rows of earlier movies. This holds even when the genre id was already known. |
| `GenrePass.NoGenresNoRows` | main.py:98-104 | A movie with an empty genre list adds no row and leaves the genre table unchanged. |
| `PeoplePass.FindDirectorFirst` | main.py:119-125 | The result is absent exactly when no crew entry has job "Director". Otherwise it is a "Director" entry with no "Director" entry before it. |
| `PeoplePass.FirstCreditedDirectorWins` | main.py:119-125 | For a crew of a writer followed by directors 5 and 6, director 5 is resolved. |
| `PeoplePass.PeopleStepOffers` | main.py:119-136 | One movie updates the people table as if its director, when it has one, were inserted first, followed by its billed cast. |
| `PeoplePass.PeopleUnique` | main.py:112-131 | Person ids in the people table are unique. |
| `PeoplePass.CastRowsClosed` | main.py:128-136 | Every movie_cast row's person id is in the people table. |
| `PeoplePass.DirectorsClosed` | main.py:119-125 | Every director id the map records is in the people table. |
| `PeoplePass.PeopleAreFirstWins` | main.py:119-136 | The people table equals the first-wins dictionary of all people offered, movie by movie, each movie offering its director before its billed cast. |
| `PeoplePass.PersonNameFirstSeen` | main.py:123-131 | A person's stored name is the name of their first appearance, as a director or as a cast member. Later appearances do not overwrite it. |
| `PeoplePass.CastRowsInOrder` | main.py:128-136 | The movie_cast rows are each movie's rows, concatenated in movie order. |
| `PeoplePass.CastRowsCount` | main.py:128-136 | Each movie contributes min(10, \|cast\|) rows. The table holds the sum of these over all movies. |
| `PeoplePass.CastRowAt` | main.py:128-136 | For j < min(10, \|cast\|), cast entry j of movie i is the row at offset j after earlier movies' rows. That row copies the movie id, the person id and the character name. |
| `PeoplePass.DirectorMapOfPass` | main.py:114-125 | The pass's director map is the map built by recording each movie's resolved director under its id, in order. |
| `PeoplePass.DirectorEntryExists` | main.py:116-125 | A movie id has a map entry exactly when some movie with that id credits a director. |
| `PeoplePass.DirectorsResolved` | main.py:116-125 | The map entry of an id is the first credited director of the last movie with that id that credits one. A later movie without a director does not overwrite it. |
| `PeoplePass.DirectorOfMovie` | main.py:119-125 | With distinct movie ids, a movie has an entry exactly when its crew credits a director. That entry is the first credited director's id. |
| `Transform.MoviesTable` | main.py:144-156 | No more rows than raw movies. Every row's id has a director-map entry, and its director id equals that entry. |
| `Transform.MoviesTableAppend` | main.py:146-155 | The filter keeps the original order: filtering a concatenation concatenates the filtered parts. |
| `Transform.MoviesTableMembers` | main.py:144-156 | A row is in the movies table exactly when it is the row of a raw movie with a director-map entry, carrying that movie's details and that entry. |
| `Transform.Transform` | main.py:93-156 | Genre and person ids are unique. Every movie_genres genre id, every movie_cast person id and every movie's director id appear in the genre or people table. |
| `Transform.MoviesOfTransform` | main.py:116-156 | With distinct ids, the movies table holds exactly the raw movies whose crew credits a director, each with the first credited director's id. |
| `Transform.JunctionRowsNotFiltered` | main.py:154-155 | A movie without a director leaves the movies table empty, but its genre and cast rows remain. |
| `Transform.FrameColumnsOfRecords` | main.py:67-80 | The raw frame built from the record dictionaries has no columns when no record was collected, and exactly the eight record keys otherwise. |
| `Transform.TransformAsWritten` | main.py:144 | Selecting the five detail columns from the raw frame fails exactly when no raw record was collected, because only then does the frame lack them. Otherwise it yields the transform's tables. |
| `Transform.EmptyRunDiffers` | main.py:144 | On no records the as-written transform fails, while the corrected transform yields five empty tables. |

## Left out

- HTTP requests and status checks (main.py:20-22, 37-50): network I/O. A listing page is
  an abstract `Fetcher.PageOutcome`. `fetch_movie_details` is not modelled.
- Fetcher.FetchTopMovies: exceptions from the request or from JSON decoding (main.py:22,
  25) propagate out of `fetch_top_movies` and stop the script. They are not modelled as a
  `Failed` page; only a non-200 status is.
- The extraction loop (main.py:56-77): network-driven glue. This covers the `if movie_id`
  skip, the per-movie detail fetch and the `if details and credits` check. The raw records
  it produces are the transform's input, taken as given.
- DataFrame construction, previews and printed output (main.py:80-86, 107-108, 139-140,
  159-175): presentation and library plumbing. Tables are sequences of row datatypes.
- `pd.to_datetime` (main.py:152): library date parsing. The release date stays an opaque
  string.
- `vote_average`: a floating-point value carried as an opaque `real` and never computed
  with.
- Transform.Transform: ids are assumed to lie below 2^53. When any movie lacks a
  director, `.map(directors_map)` (main.py:146) fills in NaN and the `director_id` column
  becomes float64 before `astype(int)` (main.py:156). Below 2^53 that round trip is exact.
  Above it a director id may be rounded, and the stored `director_id` would then differ
  from the `people` id. The model keeps ids as unbounded integers and does not model this
  rounding.
- Payload entries missing a key (`genre['id']`, `member['job']`, `actor['character']`, …)
  would raise in the source. The model assumes well-formed API payloads, so every entry
  carries its fields.
- `None` values from `details.get(...)`: ids are integers and fields are always present.
- SQLite loading with replace semantics (main.py:184-209): database I/O.
- The five report queries and their execution loop (main.py:216-310): their meaning lives
  in the SQL engine.

## Findings

| source | as written | input that shows it | evidently intended | confidence | as-written member | corrected member |
|---|---|---|---|---|---|---|
| main.py:144 | The five detail columns are selected from `raw_data_df`. When no record was collected, that frame is built from an empty list and has no columns, so the selection raises KeyError and the run stops. | Any listing page fails (`fetch_top_movies` returns `[]`), or every detail fetch fails. | An empty run yields five empty tables. The `if top_movies_list:` guard shows an empty listing was meant to flow through. | medium, not executed | `Transform.TransformAsWritten` (exhibited by `Transform.EmptyRunDiffers`) | `Transform.Transform` (empty tables proved by `Transform.EmptyRunDiffers`) |

/** The raw per-movie records the transform consumes and the rows it produces. */
module Records {

  /** The crew job that marks a movie's director. */
  const Director: string := "Director"
  /** How many billed cast members per movie are kept. */
  const CastLimit: nat := 10

  datatype GenreEntry = GenreEntry(id: int, name: string)
  datatype CastEntry = CastEntry(id: int, name: string, character: string)
  datatype CrewEntry = CrewEntry(id: int, name: string, job: string)

  /** Detail fields copied into the movies table without interpretation. */
  datatype Details = Details(title: string, overview: string, releaseDate: string, voteAverage: real)

  /** One combined record: the movie's details plus its genre, cast and crew lists
      (each empty when the payload lacks it). */
  datatype RawMovie = RawMovie(
    tmdbId: int,
    details: Details,
    genres: seq<GenreEntry>,
    cast: seq<CastEntry>,
    crew: seq<CrewEntry>)

  /** A row of the movie_genres junction table. */
  datatype MovieGenreRow = MovieGenreRow(movieId: int, genreId: int)
  /** A row of the movie_cast junction table. */
  datatype MovieCastRow = MovieCastRow(movieId: int, personId: int, characterName: string)
  /** A row of the final movies table. */
  datatype MovieRow = MovieRow(id: int, details: Details, directorId: int)

  predicate DistinctIds(movies: seq<RawMovie>)
  {
    forall i, j :: 0 <= i < j < |movies| ==> movies[i].tmdbId != movies[j].tmdbId
  }
}

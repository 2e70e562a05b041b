/** The fixed genre catalog shown as a check-list, and the two "special"
    genres whose catalogs are too small to be combined with anything else. */
module Catalog {

  /** A catalog genre name: never empty and never containing `%`. */
  type GenreName = s: string | s != "" && '%' !in s witness "Action"

  /** One check-list entry: the genre's display name and how many movies
      the backend holds for it. */
  datatype GenreEntry = GenreEntry(genre: GenreName, movieCount: nat)

  /** The genre names, each checked on its own against `GenreName`. */
  const Action: GenreName := "Action"
  const Adventure: GenreName := "Adventure"
  const Animation: GenreName := "Animation"
  const Comedy: GenreName := "Comedy"
  const Crime: GenreName := "Crime"
  const Documentary: GenreName := "Documentary"
  const Drama: GenreName := "Drama"
  const Family: GenreName := "Family"
  const Fantasy: GenreName := "Fantasy"
  const History: GenreName := "History"
  const Horror: GenreName := "Horror"
  const Music: GenreName := "Music"
  const Mystery: GenreName := "Mystery"
  const Romance: GenreName := "Romance"
  const ScienceFiction: GenreName := "Science Fiction"
  const TvMovie: GenreName := "TV Movie"
  const Thriller: GenreName := "Thriller"
  const War: GenreName := "War"
  const Western: GenreName := "Western"

  /** The catalog, in display order. */
  const Genres: seq<GenreEntry> := [
    GenreEntry(Action, 715),
    GenreEntry(Adventure, 598),
    GenreEntry(Animation, 200),
    GenreEntry(Comedy, 650),
    GenreEntry(Crime, 322),
    GenreEntry(Documentary, 1),
    GenreEntry(Drama, 762),
    GenreEntry(Family, 303),
    GenreEntry(Fantasy, 349),
    GenreEntry(History, 89),
    GenreEntry(Horror, 255),
    GenreEntry(Music, 45),
    GenreEntry(Mystery, 198),
    GenreEntry(Romance, 297),
    GenreEntry(ScienceFiction, 381),
    GenreEntry(TvMovie, 6),
    GenreEntry(Thriller, 588),
    GenreEntry(War, 70),
    GenreEntry(Western, 24)
  ]

  /** The genres that may only ever be selected on their own. */
  predicate IsSpecial(g: string) {
    g == Documentary || g == TvMovie
  }

  /** True when `g` is the name of some catalog entry: the only values a
      check-box can hand to the toggle handler. */
  predicate InCatalog(g: string) {
    exists i :: 0 <= i < |Genres| && Genres[i].genre == g
  }

  /** The special genres are exactly the catalog entries with fewer than ten
      movies, which is the reason they are singled out. */
  lemma SpecialMeansRare(i: int)
    requires 0 <= i < |Genres|
    ensures IsSpecial(Genres[i].genre) <==> Genres[i].movieCount < 10
  {
  }

  /** Both special genres appear in the catalog. */
  lemma SpecialsInCatalog()
    ensures InCatalog(Documentary) && InCatalog(TvMovie)
  {
    assert Genres[5].genre == Documentary;
    assert Genres[15].genre == TvMovie;
  }

  /** No catalog name is empty or contains a `%`, so the `%2C`-joined query
      of catalog names can be split back apart, and the initial placeholder
      `""` can never be toggled by a check-box. */
  lemma CatalogNamesPlain(g: string)
    requires InCatalog(g)
    ensures g != "" && '%' !in g
  {
    var i :| 0 <= i < |Genres| && Genres[i].genre == g;
  }
}

/** One movie of the result list, and the release-year extraction used when
    it is displayed. */
module Movies {

  /** A result record as the backend returns it. `voteAverage` is only ever
      displayed, so its floating-point nature is not modelled. */
  datatype Movie = Movie(
    id: string,
    title: string,
    genres: string,
    releaseDate: string,
    voteAverage: real,
    voteCount: int,
    posterPath: string)

  /** The part of a release date before its first `-`, or the whole date when
      it has none: `"2007-05-01"` gives `"2007"`. */
  function ExtractYear(releaseDate: string): (year: string)
    ensures year <= releaseDate
    ensures '-' !in year
    ensures |year| == |releaseDate| || releaseDate[|year|] == '-'
    decreases |releaseDate|
  {
    if |releaseDate| == 0 || releaseDate[0] == '-' then ""
    else [releaseDate[0]] + ExtractYear(releaseDate[1..])
  }

  /** The contract of `ExtractYear` determines its result: any prefix that
      has no `-` and stops at the end or at a `-` is the extracted year. */
  lemma ExtractYearUnique(releaseDate: string, year: string)
    requires year <= releaseDate && '-' !in year
    requires |year| == |releaseDate| || releaseDate[|year|] == '-'
    ensures ExtractYear(releaseDate) == year
  {
  }

  /** A year followed by `-` and the rest of the date extracts to that year. */
  lemma ExtractYearOfDate(year: string, rest: string)
    requires '-' !in year
    ensures ExtractYear(year + "-" + rest) == year
  {
    var d := year + "-" + rest;
    assert d[..|year|] == year;
    ExtractYearUnique(d, year);
  }
}

/** src/index.ts: the entry point. It reads the profile URL, runs the extraction, exports the CSV
    when something was found, and lists the ten best-rated movies, sorted by rating with
    `movies.sort((a, b) => b.rating - a.rating).slice(0, 10)`. */
module App {
  import opened Types
  import opened Extractor

  /** Ratings never increase along the list. */
  predicate SortedByRating(ms: seq<Movie>)
  {
    forall i, j :: 0 <= i < j < |ms| ==> ms[i].rating >= ms[j].rating
  }

  /** Puts m in front of the first movie rated no higher than m. */
  function Insert(m: Movie, s: seq<Movie>): seq<Movie>
  {
    if s == [] || s[0].rating <= m.rating then [m] + s else [s[0]] + Insert(m, s[1..])
  }

  /** Array.prototype.sort with the comparator `b.rating - a.rating`: highest rating first, and
      movies with equal ratings keep their order, as the sort is stable. */
  function SortByRating(ms: seq<Movie>): seq<Movie>
  {
    if ms == [] then [] else Insert(ms[0], SortByRating(ms[1..]))
  }

  /** The movies rated r, in list order. */
  function WithRating(ms: seq<Movie>, r: int): seq<Movie>
  {
    if ms == [] then [] else (if ms[0].rating == r then [ms[0]] else []) + WithRating(ms[1..], r)
  }

  /** Prepending a movie rated at least as high as everything in a sorted list keeps it sorted. */
  lemma ConsSorted(x: Movie, t: seq<Movie>)
    requires SortedByRating(t)
    requires forall y :: y in t ==> y.rating <= x.rating
    ensures SortedByRating([x] + t)
  {
    forall i, j | 0 <= i < j < |[x] + t|
      ensures ([x] + t)[i].rating >= ([x] + t)[j].rating
    {
      if i > 0 {
        assert ([x] + t)[i] == t[i - 1] && ([x] + t)[j] == t[j - 1];
      } else {
        assert ([x] + t)[j] in t;
      }
    }
  }

  /** Insert adds m and loses nothing. */
  lemma {:induction false} InsertPermutes(m: Movie, s: seq<Movie>)
    ensures multiset(Insert(m, s)) == multiset(s) + multiset{m}
  {
    if s != [] && s[0].rating > m.rating {
      InsertPermutes(m, s[1..]);
      assert s == [s[0]] + s[1..];
    }
  }

  lemma {:induction false} InsertSorted(m: Movie, s: seq<Movie>)
    requires SortedByRating(s)
    ensures SortedByRating(Insert(m, s))
  {
    if s != [] && s[0].rating > m.rating {
      InsertSorted(m, s[1..]);
      InsertPermutes(m, s[1..]);
      var t := Insert(m, s[1..]);
      forall y | y in t
        ensures y.rating <= s[0].rating
      {
        assert y in multiset(t);
        if y != m {
          assert y in multiset(s[1..]);
          var k :| 0 <= k < |s[1..]| && s[1..][k] == y;
          assert s[k + 1] == y;
        }
      }
      ConsSorted(s[0], t);
    } else if s != [] {
      forall y | y in s
        ensures y.rating <= m.rating
      {
        var k :| 0 <= k < |s| && s[k] == y;
      }
      ConsSorted(m, s);
    }
  }

  /** The sort orders the list by rating, highest first, and is a permutation of it. */
  lemma {:induction false} SortByRatingSpec(ms: seq<Movie>)
    ensures SortedByRating(SortByRating(ms))
    ensures multiset(SortByRating(ms)) == multiset(ms)
    ensures |SortByRating(ms)| == |ms|
  {
    var s := SortByRating(ms);
    if ms != [] {
      var t := SortByRating(ms[1..]);
      SortByRatingSpec(ms[1..]);
      assert s == Insert(ms[0], t);
      InsertSorted(ms[0], t);
      assert multiset(s) == multiset(ms) by {
        InsertPermutes(ms[0], t);
        assert ms == [ms[0]] + ms[1..];
      }
    }
    assert |s| == |multiset(s)| == |multiset(ms)| == |ms|;
  }

  lemma {:induction false} InsertWithRating(m: Movie, s: seq<Movie>, r: int)
    ensures WithRating(Insert(m, s), r) == (if m.rating == r then [m] else []) + WithRating(s, r)
  {
    if s != [] && s[0].rating > m.rating {
      InsertWithRating(m, s[1..], r);
      assert Insert(m, s) == [s[0]] + Insert(m, s[1..]);
      assert ([s[0]] + Insert(m, s[1..]))[1..] == Insert(m, s[1..]);
      if m.rating == r {
        assert s[0].rating != r;
      }
    } else {
      assert ([m] + s)[1..] == s;
    }
  }

  /** The sort is stable: for every rating, the movies with that rating come out in the order
      they went in. */
  lemma {:induction false} SortByRatingStable(ms: seq<Movie>, r: int)
    ensures WithRating(SortByRating(ms), r) == WithRating(ms, r)
  {
    if ms != [] {
      SortByRatingStable(ms[1..], r);
      InsertWithRating(ms[0], SortByRating(ms[1..]), r);
    }
  }

  function Min(a: int, b: int): int
  {
    if a < b then a else b
  }

  /** The top list: the sorted movies cut to the first ten. */
  function TopRated(ms: seq<Movie>): seq<Movie>
  {
    var s := SortByRating(ms);
    SortByRatingSpec(ms);
    s[..Min(10, |s|)]
  }

  /** In a sorted list, everything before position k is rated at least as high as everything
      from k on. */
  lemma SortedSplit(s: seq<Movie>, k: nat)
    requires SortedByRating(s) && k <= |s|
    ensures forall x, y :: x in s[..k] && y in s[k..] ==> x.rating >= y.rating
  {
    forall x, y | x in s[..k] && y in s[k..]
      ensures x.rating >= y.rating
    {
      var i :| 0 <= i < k && s[..k][i] == x;
      var j :| 0 <= j < |s| - k && s[k..][j] == y;
      assert s[i] == x && s[k + j] == y;
    }
  }

  /** The movies the top list leaves out: the rest of the sorted list. */
  function LeftOut(ms: seq<Movie>): seq<Movie>
  {
    var s := SortByRating(ms);
    SortByRatingSpec(ms);
    s[Min(10, |s|)..]
  }

  /** The top list holds ten movies, or all of them when there are fewer, and is ordered by
      rating, highest first. */
  lemma TopRatedSpec(ms: seq<Movie>)
    ensures |TopRated(ms)| == Min(10, |ms|)
    ensures SortedByRating(TopRated(ms))
  {
    SortByRatingSpec(ms);
  }

  /** The top list and the movies it leaves out are the whole list, and no movie left out is
      rated higher than a movie in the top list. */
  lemma TopRatedBeatsRest(ms: seq<Movie>)
    ensures multiset(TopRated(ms)) + multiset(LeftOut(ms)) == multiset(ms)
    ensures forall x, y :: x in TopRated(ms) && y in LeftOut(ms) ==> x.rating >= y.rating
  {
    var s := SortByRating(ms);
    SortByRatingSpec(ms);
    var k := Min(10, |s|);
    assert s == s[..k] + s[k..];
    SortedSplit(s, k);
  }

  /** How main ends: without a profile URL it stops at once; otherwise it reports the movies
      found, the exported CSV text (only when a movie was found) and the top list. */
  datatype Outcome = MissingProfileUrl | Finished(found: nat, csv: Option<string>, top: seq<Movie>)

  /** main, with the environment variable and the browser as parameters. */
  method RunMain(profileUrl: Option<string>, b: Browser) returns (outcome: Outcome)
    ensures Missing(profileUrl) <==> outcome == MissingProfileUrl
    ensures !Missing(profileUrl) ==>
              var movies := Crawl(MoviesOn(b), b, 1, 0);
              outcome == Finished(|movies|,
                                  if |movies| > 0 then Some(ExportContent(movies)) else None,
                                  if |movies| > 0 then TopRated(movies) else [])
  {
    if Missing(profileUrl) {
      return MissingProfileUrl;
    }
    var extractor := new SenscritiqueExtractor(profileUrl.value);
    var movies := extractor.ExtractAllMovies(b);
    var csv: Option<string> := None;
    var top: seq<Movie> := [];
    if |movies| > 0 {
      var content := extractor.ExportToCsv();
      csv := Some(content);
      top := TopRated(movies);
    }
    outcome := Finished(|movies|, csv, top);
  }
}

/** src/extractors/senscritique-extractor.ts: the record shaping of the extractor (user id and rating
    lookup in the Apollo state, year and title from the link text, the site origin put in front of
    site paths), the per-page movie list, the pagination loop over an abstract browser, the CSV
    export and the summary counts. */
module Extractor {
  import opened Types
  import opened JsText
  import opened Csv
  import opened Rating
  import ConvertScript

  // ---------------------------------------------------------------------------------------------
  // The Apollo state

  /** One entry of the Apollo cache embedded in the page: its key and the `rating` field of the
      object stored there (None when the object has no rating). */
  datatype ApolloEntry = ApolloEntry(key: string, rating: Option<int>)

  /** The cache as an object: its entries in key order. Keys of a parsed JSON object are unique. */
  type ApolloState = seq<ApolloEntry>

  /** No two entries share a key, as in a parsed JSON object. */
  predicate UniqueKeys(state: ApolloState)
  {
    forall i, j :: 0 <= i < j < |state| ==> state[i].key != state[j].key
  }

  const UserInfoPrefix := "ProductUserInfos:"

  /** `ProductUserInfos:<movieId>_<userId>`, the key of a user's rating of a movie. */
  function UserInfoKey(movieId: string, userId: string): string
  {
    UserInfoPrefix + movieId + "_" + userId
  }

  /** `apolloState[key]`: the entry stored under key, if any. */
  function Lookup(state: ApolloState, key: string): (r: Option<ApolloEntry>)
    ensures r.Some? ==> r.value in state && r.value.key == key
    ensures r.None? ==> forall e :: e in state ==> e.key != key
  {
    if state == [] then None
    else if state[0].key == key then Some(state[0])
    else Lookup(state[1..], key)
  }

  /** With unique keys, the lookup finds the one entry stored under the key. */
  lemma {:induction false} LookupUnique(state: ApolloState, key: string, e: ApolloEntry)
    requires UniqueKeys(state) && e in state && e.key == key
    ensures Lookup(state, key) == Some(e)
  {
    var j :| 0 <= j < |state| && state[j] == e;
    if state[0].key == key {
      assert j == 0;
    } else {
      assert j > 0 && state[1..][j - 1] == e;
      LookupUnique(state[1..], key, e);
    }
  }

  lemma LookupUniqueAll(state: ApolloState, key: string)
    ensures UniqueKeys(state) ==> forall e :: e in state && e.key == key ==> Lookup(state, key) == Some(e)
  {
    if UniqueKeys(state) {
      forall e | e in state && e.key == key
        ensures Lookup(state, key) == Some(e)
      {
        LookupUnique(state, key, e);
      }
    }
  }

  /** A value JavaScript treats as missing in `!userId` / `!movieId`: null or the empty string. */
  predicate Missing(s: Option<string>)
  {
    s.None? || s.value == ""
  }

  /** extractRating: 0 unless the state, the user id and the movie id are all present; otherwise
      the rating stored under the user-info key, 0 when there is none (`?.rating || 0`). */
  function ExtractRating(state: Option<ApolloState>, userId: Option<string>, movieId: Option<string>): (r: int)
    ensures state.None? || Missing(userId) || Missing(movieId) ==> r == 0
    ensures r != 0 ==> exists e :: e in state.value && e.key == UserInfoKey(movieId.value, userId.value) && e.rating == Some(r)
    ensures !(state.None? || Missing(userId) || Missing(movieId)) && UniqueKeys(state.value) ==>
              forall e :: e in state.value && e.key == UserInfoKey(movieId.value, userId.value) ==>
                r == (if e.rating.Some? then e.rating.value else 0)
  {
    if state.None? || Missing(userId) || Missing(movieId) then 0
    else
      LookupUniqueAll(state.value, UserInfoKey(movieId.value, userId.value));
      match Lookup(state.value, UserInfoKey(movieId.value, userId.value))
      case None => 0
      case Some(e) => if e.rating.Some? then e.rating.value else 0
  }

  /** The match of /ProductUserInfos:\d+_(\d+)/ starting at position i of key: the prefix, a run of
      digits, an underscore and a run of digits; the captured user id is that last run. Both runs
      are greedy and a digit is never '_', so each run is the longest one. */
  function UserIdMatchAt(key: string, i: nat): (r: Option<string>)
    ensures r.Some? ==> r.value != [] && AllDigits(r.value)
  {
    if i > |key| || !StartsWith(key[i..], UserInfoPrefix) then None
    else
      var rest := key[i + |UserInfoPrefix|..];
      var movie := DigitPrefix(rest);
      if movie == [] || |movie| == |rest| || rest[|movie|] != '_' then None
      else
        var user := DigitPrefix(rest[|movie| + 1..]);
        DigitPrefixSpec(rest[|movie| + 1..]);
        if user == [] then None else Some(user)
  }

  /** The first key of the state that starts with "ProductUserInfos:". */
  function FirstUserInfoKey(state: ApolloState): (r: Option<string>)
    ensures r.Some? ==> StartsWith(r.value, UserInfoPrefix) && exists e :: e in state && e.key == r.value
    ensures r.None? ==> forall e :: e in state ==> !StartsWith(e.key, UserInfoPrefix)
  {
    if state == [] then None
    else if StartsWith(state[0].key, UserInfoPrefix) then Some(state[0].key)
    else FirstUserInfoKey(state[1..])
  }

  /** extractUserId: the user id captured from the first user-info key, or null. */
  function ExtractUserId(state: Option<ApolloState>): (r: Option<string>)
    ensures r.Some? ==> r.value != [] && AllDigits(r.value)
  {
    if state.None? then None
    else
      match FirstUserInfoKey(state.value)
      case None => None
      case Some(key) => Leftmost(key, 0, UserIdMatchAt)
  }

  /** A key built from digit ids yields the user id back. */
  lemma UserIdMatchOfKey(movieId: string, userId: string)
    requires movieId != [] && AllDigits(movieId) && userId != [] && AllDigits(userId)
    ensures UserIdMatchAt(UserInfoKey(movieId, userId), 0) == Some(userId)
  {
    var key := UserInfoKey(movieId, userId);
    assert key[0..][..|UserInfoPrefix|] == UserInfoPrefix;
    var rest := key[|UserInfoPrefix|..];
    assert rest == movieId + ("_" + userId);
    DigitPrefixAppend(movieId, "_" + userId);
    assert rest[|movieId| + 1..] == userId;
    DigitPrefixAll(userId);
  }

  /** When the first user-info entry of the state is a user's rating of a movie, with digit ids,
      extractUserId recovers that user, and extractRating with the two ids finds that rating
      (0 when the entry has none). */
  lemma UserIdAndRatingRoundTrip(before: ApolloState, movieId: string, userId: string, rating: Option<int>, after: ApolloState)
    requires movieId != [] && AllDigits(movieId) && userId != [] && AllDigits(userId)
    requires forall e :: e in before ==> !StartsWith(e.key, UserInfoPrefix)
    ensures var state := before + [ApolloEntry(UserInfoKey(movieId, userId), rating)] + after;
            ExtractUserId(Some(state)) == Some(userId) &&
            ExtractRating(Some(state), Some(userId), Some(movieId)) == (if rating.Some? then rating.value else 0)
  {
    var entry := ApolloEntry(UserInfoKey(movieId, userId), rating);
    var state := before + [entry] + after;
    FirstUserInfoKeyAfter(before, entry, after);
    LookupAfter(before, entry, after);
    UserIdMatchOfKey(movieId, userId);
  }

  lemma {:induction false} FirstUserInfoKeyAfter(before: ApolloState, entry: ApolloEntry, after: ApolloState)
    requires forall e :: e in before ==> !StartsWith(e.key, UserInfoPrefix)
    requires StartsWith(entry.key, UserInfoPrefix)
    ensures FirstUserInfoKey(before + [entry] + after) == Some(entry.key)
  {
    if before != [] {
      assert (before + [entry] + after)[1..] == before[1..] + [entry] + after;
      FirstUserInfoKeyAfter(before[1..], entry, after);
    } else {
      assert (before + [entry] + after)[0] == entry;
    }
  }

  lemma {:induction false} LookupAfter(before: ApolloState, entry: ApolloEntry, after: ApolloState)
    requires forall e :: e in before ==> !StartsWith(e.key, UserInfoPrefix)
    requires StartsWith(entry.key, UserInfoPrefix)
    ensures Lookup(before + [entry] + after, entry.key) == Some(entry)
  {
    if before != [] {
      assert (before + [entry] + after)[1..] == before[1..] + [entry] + after;
      assert before[0] in before;
      LookupAfter(before[1..], entry, after);
    } else {
      assert (before + [entry] + after)[0] == entry;
    }
  }

  // ---------------------------------------------------------------------------------------------
  // Year and title

  /** /\((\d{4})\)/ matches at position i: an opening parenthesis, four digits and a closing one. */
  predicate YearAt(t: string, i: int)
  {
    0 <= i && i + 6 <= |t| && t[i] == '(' && AllDigits(t[i + 1..i + 5]) && t[i + 5] == ')'
  }

  /** The leftmost position from i on where the year pattern matches. */
  function YearSearch(t: string, i: nat): (r: Option<nat>)
    decreases |t| - i
    ensures r.Some? ==> i <= r.value && YearAt(t, r.value) && forall k :: i <= k < r.value ==> !YearAt(t, k)
    ensures r.None? ==> forall k :: i <= k ==> !YearAt(t, k)
  {
    if i + 6 > |t| then None
    else if YearAt(t, i) then Some(i)
    else YearSearch(t, i + 1)
  }

  /** The year of a raw title: parseInt of the four digits of the first "(dddd)" anywhere in it,
      or undefined. */
  function ExtractYear(title: string): (r: Option<int>)
    ensures r.Some? <==> exists i :: YearAt(title, i)
    ensures r.Some? ==> 0 <= r.value <= 9999
    ensures r.Some? ==> exists i :: YearAt(title, i) && (forall k :: 0 <= k < i ==> !YearAt(title, k))
                                    && r == ParseInt(title[i + 1..i + 5])
  {
    match YearSearch(title, 0)
    case None => None
    case Some(i) =>
      var d := title[i + 1..i + 5];
      DecValueBound(d);
      assert Pow10(4) == 10000;
      ParseIntDigits(d);
      ParseInt(d)
  }

  /** title.replace(/\s*\(\d{4}\)\s*$/, ''): a trailing "(dddd)" is removed together with the white
      space around it; a title without one is unchanged. The leftmost match starts where the white
      space before the parenthesis starts. */
  function CleanTitle(t: string): string
  {
    var u := TrimEnd(t);
    if |u| >= 6 && YearAt(u, |u| - 6) then TrimEnd(u[..|u| - 6]) else t
  }

  /** The cleaned title is a prefix of the title. It differs from the title exactly when the title
      ends in "(dddd)" followed only by white space; then what was cut is white space, the "(dddd)"
      and white space, and it starts right after the last character that is not white space. */
  lemma CleanTitleSpec(t: string)
    ensures var c := CleanTitle(t); |c| <= |t| && c == t[..|c|]
    ensures CleanTitle(t) != t <==> exists i :: YearAt(t, i) && AllWhiteSpace(t[i + 6..])
    ensures var c := CleanTitle(t);
            c != t ==> exists i :: |c| <= i && YearAt(t, i) && AllWhiteSpace(t[|c|..i]) && AllWhiteSpace(t[i + 6..])
    ensures var c := CleanTitle(t); c != t ==> c == [] || !IsWhiteSpace(c[|c| - 1])
  {
    var u := TrimEnd(t);
    TrimEndSpec(t);
    if |u| >= 6 && YearAt(u, |u| - 6) {
      var i := |u| - 6;
      var c := TrimEnd(u[..i]);
      TrimEndSpec(u[..i]);
      assert u[i + 1..i + 5] == t[i + 1..i + 5];
      assert YearAt(t, i);
      assert t[|c|..i] == u[..i][|c|..];
      assert t[..|c|] == u[..i][..|c|];
    } else {
      forall i | YearAt(t, i) && AllWhiteSpace(t[i + 6..])
        ensures false
      {
        TrailingYear(t, i);
      }
    }
  }

  /** A "(dddd)" followed only by white space ends the trimmed title. */
  lemma TrailingYear(t: string, i: int)
    ensures YearAt(t, i) && AllWhiteSpace(t[i + 6..]) ==>
              |TrimEnd(t)| >= 6 && YearAt(TrimEnd(t), |TrimEnd(t)| - 6)
  {
    if YearAt(t, i) && AllWhiteSpace(t[i + 6..]) {
      var u := TrimEnd(t);
      TrimEndSpec(t);
      assert !IsWhiteSpace(t[i + 5]);
      assert forall j :: i + 6 <= j < |t| ==> IsWhiteSpace(t[j]) by {
        assert forall j :: i + 6 <= j < |t| ==> t[j] == t[i + 6..][j - (i + 6)];
      }
      assert |u| == i + 6;
      assert u[i + 1..i + 5] == t[i + 1..i + 5];
    }
  }

  /** A title made of a base without any "(dddd)", a space and "(dddd)": the year is those four
      digits and the cleaned title is the base. */
  lemma TitleWithYear(base: string, d: string)
    requires |d| == 4 && AllDigits(d)
    requires forall j :: !YearAt(base, j)
    requires base == [] || !IsWhiteSpace(base[|base| - 1])
    ensures ExtractYear(base + " (" + d + ")") == Some(DecValue(d))
    ensures CleanTitle(base + " (" + d + ")") == base
  {
    var t := base + " (" + d + ")";
    var p := |base| + 1;
    assert t[p + 1..p + 5] == d;
    assert YearAt(t, p);
    NoYearBefore(base, d);
    assert YearSearch(t, 0) == Some(p);
    ParseIntDigits(d);
    CleanTitleWithYear(base, d);
  }

  lemma NoYearBefore(base: string, d: string)
    requires forall j :: !YearAt(base, j)
    ensures forall j :: 0 <= j <= |base| ==> !YearAt(base + " (" + d + ")", j)
  {
    var t := base + " (" + d + ")";
    forall j | 0 <= j <= |base|
      ensures !YearAt(t, j)
    {
      if j + 6 <= |base| {
        assert t[j + 1..j + 5] == base[j + 1..j + 5];
        assert !YearAt(base, j);
      } else if j + 1 <= |base| <= j + 4 && j + 6 <= |t| {
        assert t[j + 1..j + 5][|base| - j - 1] == t[|base|] == ' ';
      }
    }
  }

  lemma CleanTitleWithYear(base: string, d: string)
    requires |d| == 4 && AllDigits(d)
    requires base == [] || !IsWhiteSpace(base[|base| - 1])
    ensures CleanTitle(base + " (" + d + ")") == base
  {
    var t := base + " (" + d + ")";
    var p := |base| + 1;
    assert TrimEnd(t) == t;
    assert t[p + 1..p + 5] == d;
    assert YearAt(t, |t| - 6);
    assert t[..p] == base + " ";
    assert (base + " ")[..|base|] == base;
    assert TrimEnd(base) == base;
  }

  // ---------------------------------------------------------------------------------------------
  // URLs

  const SiteOrigin := "https://www.senscritique.com"

  /** `url.startsWith('/') ? origin + url : url`. */
  function Absolutize(url: string): (r: string)
    ensures |url| <= |r| && r[|r| - |url|..] == url
    ensures !StartsWith(r, "/")
    ensures !StartsWith(url, "/") ==> r == url
  {
    if StartsWith(url, "/") then
      assert (SiteOrigin + url)[..1] == "h";
      SiteOrigin + url
    else url
  }

  /** Absolutising twice is absolutising once; a site-relative path gets exactly the origin. */
  lemma AbsolutizeIdempotent(url: string)
    ensures Absolutize(Absolutize(url)) == Absolutize(url)
    ensures StartsWith(url, "/") ==> Absolutize(url) == SiteOrigin + url
  {
  }

  /** The longest prefix of s without '/'. */
  function NonSlashPrefix(s: string): (r: string)
    ensures |r| <= |s|
  {
    if s != [] && s[0] != '/' then [s[0]] + NonSlashPrefix(s[1..]) else []
  }

  lemma {:induction false} NonSlashPrefixSpec(s: string)
    ensures NonSlashPrefix(s) == s[..|NonSlashPrefix(s)|] && '/' !in NonSlashPrefix(s)
    ensures |NonSlashPrefix(s)| < |s| ==> s[|NonSlashPrefix(s)|] == '/'
  {
    if s != [] && s[0] != '/' {
      NonSlashPrefixSpec(s[1..]);
    }
  }

  /** The match of /\/film\/[^\/]+\/(\d+)/ starting at position i of a URL: "/film/", a
      non-empty run of characters other than '/', a '/', then the captured run of digits. The
      middle run is greedy and cannot contain '/', so it is the longest such run. */
  function MovieIdMatchAt(url: string, i: nat): (r: Option<string>)
    ensures r.Some? ==> r.value != [] && AllDigits(r.value)
  {
    if i > |url| || !StartsWith(url[i..], "/film/") then None
    else
      var rest := url[i + 6..];
      var slug := NonSlashPrefix(rest);
      if slug == [] || |slug| == |rest| then None
      else
        var id := DigitPrefix(rest[|slug| + 1..]);
        DigitPrefixSpec(rest[|slug| + 1..]);
        if id == [] then None else Some(id)
  }

  /** The leftmost match of a pattern, given the match attempt at each start position. */
  function Leftmost(s: string, i: nat, matchAt: (string, nat) -> Option<string>): (r: Option<string>)
    decreases |s| - i
    ensures r.Some? ==> exists j :: i <= j <= |s| && matchAt(s, j) == r && forall k :: i <= k < j ==> matchAt(s, k).None?
    ensures r.None? ==> forall j :: i <= j <= |s| ==> matchAt(s, j).None?
  {
    if i > |s| then None
    else if matchAt(s, i).Some? then matchAt(s, i)
    else Leftmost(s, i + 1, matchAt)
  }

  /** The movie id in a link, or null. */
  function MovieIdFromUrl(url: string): (r: Option<string>)
    ensures r.Some? ==> r.value != [] && AllDigits(r.value)
  {
    Leftmost(url, 0, MovieIdMatchAt)
  }

  /** The id of a movie page link "/film/<slug>/<id>" is <id>. */
  lemma MovieIdOfFilmPath(slug: string, id: string)
    requires slug != [] && '/' !in slug
    requires id != [] && AllDigits(id)
    ensures MovieIdFromUrl("/film/" + slug + "/" + id) == Some(id)
  {
    var url := "/film/" + slug + "/" + id;
    assert url[0..] == url;
    assert url[..6] == "/film/";
    assert StartsWith(url[0..], "/film/");
    var rest := url[0 + 6..];
    assert rest == slug + ("/" + id);
    NonSlashPrefixAppend(slug, "/" + id);
    assert NonSlashPrefix(rest) == slug;
    assert rest[|slug| + 1..] == id;
    DigitPrefixAll(id);
    assert DigitPrefix(rest[|slug| + 1..]) == id;
  }

  lemma {:induction false} NonSlashPrefixAppend(a: string, b: string)
    requires '/' !in a && b != [] && b[0] == '/'
    ensures NonSlashPrefix(a + b) == a
  {
    if a != [] {
      assert (a + b)[1..] == a[1..] + b;
      NonSlashPrefixAppend(a[1..], b);
    } else {
      assert a + b == b;
    }
  }

  // ---------------------------------------------------------------------------------------------
  // One page of the profile

  /** One `a[data-testid="product-title"]` link of the page: its text, its href, and the number
      parsed from the HTML rating element next to it (None when there is no such element or it
      does not parse). */
  datatype Anchor = Anchor(text: string, href: Option<string>, fallback: Option<int>)

  /** The page as the extractor reads it: the Apollo state of `__NEXT_DATA__` (None when the
      script is absent, does not parse or lacks the state) and the title links in document order. */
  datatype Page = Page(state: Option<ApolloState>, anchors: seq<Anchor>)

  /** The rating of a link: the Apollo rating when it is not 0, else the HTML fallback when there
      is one, else 0. */
  function AnchorRating(a: Anchor, state: Option<ApolloState>, userId: Option<string>): int
    requires a.href.Some?
  {
    var apollo := ExtractRating(state, userId, MovieIdFromUrl(a.href.value));
    if apollo != 0 then apollo
    else if a.fallback.Some? then a.fallback.value
    else 0
  }

  /** The callback run on each link: links without text or href are skipped, and so are movies
      whose rating is not > 0; the others give a movie with the cleaned title, the year of the
      raw title and the href, with the site origin put in front of a site path ("/..."). */
  function AnchorMovie(a: Anchor, state: Option<ApolloState>, userId: Option<string>): (r: Option<Movie>)
    ensures r.Some? <==> Trim(a.text) != [] && a.href.Some? && a.href.value != [] && AnchorRating(a, state, userId) > 0
    ensures r.Some? ==> r.value.rating > 0 && !StartsWith(r.value.url, "/")
    ensures r.Some? ==> if StartsWith(a.href.value, "/") then r.value.url == SiteOrigin + a.href.value
                        else r.value.url == a.href.value
  {
    var title := Trim(a.text);
    if title == [] || a.href.None? || a.href.value == [] then None
    else
      var rating := AnchorRating(a, state, userId);
      if rating > 0 then Some(Movie(CleanTitle(title), ExtractYear(title), rating, Absolutize(a.href.value)))
      else None
  }

  function Kept(m: Option<Movie>): seq<Movie>
  {
    match m
    case Some(movie) => [movie]
    case None => []
  }

  /** The movies of a run of links, in link order. */
  function Collect(anchors: seq<Anchor>, state: Option<ApolloState>, userId: Option<string>): seq<Movie>
  {
    if anchors == [] then []
    else Collect(anchors[..|anchors| - 1], state, userId) + Kept(AnchorMovie(anchors[|anchors| - 1], state, userId))
  }

  /** The movies extractMoviesFromPage returns for a page. */
  function PageMovies(p: Page): seq<Movie>
  {
    Collect(p.anchors, p.state, ExtractUserId(p.state))
  }

  /** At most one movie per link, and every movie kept is the movie `AnchorMovie` gives for one of
      the links: rated above 0, its URL the href with the site origin in front of a site path. */
  lemma {:induction false} CollectSpec(anchors: seq<Anchor>, state: Option<ApolloState>, userId: Option<string>)
    ensures |Collect(anchors, state, userId)| <= |anchors|
    ensures forall m :: m in Collect(anchors, state, userId) ==> m.rating > 0 && !StartsWith(m.url, "/")
    ensures forall m :: m in Collect(anchors, state, userId) ==>
              exists i :: 0 <= i < |anchors| && AnchorMovie(anchors[i], state, userId) == Some(m)
  {
    if anchors != [] {
      var init := anchors[..|anchors| - 1];
      CollectSpec(init, state, userId);
      forall m | m in Collect(anchors, state, userId)
        ensures exists i :: 0 <= i < |anchors| && AnchorMovie(anchors[i], state, userId) == Some(m)
      {
        if m in Collect(init, state, userId) {
          var i :| 0 <= i < |init| && AnchorMovie(init[i], state, userId) == Some(m);
          assert anchors[i] == init[i];
        } else {
          assert AnchorMovie(anchors[|anchors| - 1], state, userId) == Some(m);
        }
      }
    }
  }

  /** The loop of extractMoviesFromPage: one pass over the links, pushing each kept movie. */
  method ExtractMoviesFromPage(p: Page) returns (movies: seq<Movie>)
    ensures movies == PageMovies(p)
  {
    var userId := ExtractUserId(p.state);
    movies := [];
    for i := 0 to |p.anchors|
      invariant movies == Collect(p.anchors[..i], p.state, userId)
    {
      assert p.anchors[..i + 1][..i] == p.anchors[..i];
      var m := AnchorMovie(p.anchors[i], p.state, userId);
      if m.Some? {
        movies := movies + [m.value];
      }
    }
    assert p.anchors[..|p.anchors|] == p.anchors;
  }

  // ---------------------------------------------------------------------------------------------
  // Pagination

  /** The safety limit on the page number. */
  const MaxPages := 50

  /** getTotalMovieCount: a fixed estimate of 30 pages of 18 movies. */
  const TotalMovieCount := 30 * 18

  /** The browser as the loop sees it, by page number: the page shown, whether a link to the next
      page exists, and whether the click to the next page succeeds. */
  datatype Browser = Browser(pageAt: nat -> Page, hasNextPage: nat -> bool, goToNextPage: nat -> bool)

  /** The movies extractMoviesFromPage finds on each page of the browser. */
  function MoviesOn(b: Browser): nat -> seq<Movie>
  {
    (p: nat) => PageMovies(b.pageAt(p))
  }

  /** The loop goes on past page p, after count movies in total, when the page had movies
      (`moviesOn(p)`), a next page exists, fewer movies than the target are collected, the click
      succeeds and the safety limit is not reached. */
  predicate Continues(moviesOn: nat -> seq<Movie>, b: Browser, p: nat, count: nat)
  {
    moviesOn(p) != [] && b.hasNextPage(p) && count + |moviesOn(p)| < TotalMovieCount
    && b.goToNextPage(p) && p < MaxPages
  }

  /** The movies the loop gathers from page p on when count movies are already collected. */
  function Crawl(moviesOn: nat -> seq<Movie>, b: Browser, p: nat, count: nat): seq<Movie>
    requires 1 <= p <= MaxPages
    decreases MaxPages - p
  {
    if Continues(moviesOn, b, p, count) then moviesOn(p) + Crawl(moviesOn, b, p + 1, count + |moviesOn(p)|)
    else moviesOn(p)
  }

  /** One step of the loop: the movies of page p, then, if the loop goes on, those gathered from
      page p + 1 on. */
  lemma CrawlUnfold(moviesOn: nat -> seq<Movie>, b: Browser, p: nat, count: nat)
    requires 1 <= p <= MaxPages
    ensures Continues(moviesOn, b, p, count) ==>
              Crawl(moviesOn, b, p, count) == moviesOn(p) + Crawl(moviesOn, b, p + 1, count + |moviesOn(p)|)
    ensures !Continues(moviesOn, b, p, count) ==> Crawl(moviesOn, b, p, count) == moviesOn(p)
  {
  }

  /** One pass of the loop on page p, with the movies held so far and the movies the whole crawl
      ends with: an empty page leaves the held movies as the result; otherwise the page's movies
      are added and, as the loop goes on or not, the rest comes from page p + 1 or nothing does. */
  lemma PageStep(moviesOn: nat -> seq<Movie>, b: Browser, p: nat, held: seq<Movie>, target: seq<Movie>)
    requires 1 <= p <= MaxPages
    requires held + Crawl(moviesOn, b, p, |held|) == target
    ensures moviesOn(p) == [] ==> held == target
    ensures Continues(moviesOn, b, p, |held|) ==>
              (held + moviesOn(p)) + Crawl(moviesOn, b, p + 1, |held + moviesOn(p)|) == target
    ensures !Continues(moviesOn, b, p, |held|) ==> held + moviesOn(p) == target
  {
    CrawlUnfold(moviesOn, b, p, |held|);
    if Continues(moviesOn, b, p, |held|) {
      var rest := Crawl(moviesOn, b, p + 1, |held| + |moviesOn(p)|);
      assert |held + moviesOn(p)| == |held| + |moviesOn(p)|;
      assert held + (moviesOn(p) + rest) == (held + moviesOn(p)) + rest;
    } else if moviesOn(p) == [] {
      assert held + [] == held;
    }
  }

  /** The number of pages whose movies the loop keeps, from page p on. */
  function CrawlPages(moviesOn: nat -> seq<Movie>, b: Browser, p: nat, count: nat): nat
    requires 1 <= p <= MaxPages
    decreases MaxPages - p
  {
    if moviesOn(p) == [] then 0
    else if Continues(moviesOn, b, p, count) then 1 + CrawlPages(moviesOn, b, p + 1, count + |moviesOn(p)|)
    else 1
  }
  /** One step of the page count: none for an empty page, otherwise this page and, if the loop
      goes on, the pages kept from page p + 1 on. */
  lemma CrawlPagesUnfold(moviesOn: nat -> seq<Movie>, b: Browser, p: nat, count: nat)
    requires 1 <= p <= MaxPages
    ensures moviesOn(p) == [] ==> CrawlPages(moviesOn, b, p, count) == 0
    ensures moviesOn(p) != [] && Continues(moviesOn, b, p, count) ==>
              CrawlPages(moviesOn, b, p, count) == 1 + CrawlPages(moviesOn, b, p + 1, count + |moviesOn(p)|)
    ensures moviesOn(p) != [] && !Continues(moviesOn, b, p, count) ==> CrawlPages(moviesOn, b, p, count) == 1
  {
  }


  /** The movies of pages p .. q - 1, in page order. */
  function PagesMovies(moviesOn: nat -> seq<Movie>, p: nat, q: nat): seq<Movie>
    decreases q - p
  {
    if p >= q then [] else moviesOn(p) + PagesMovies(moviesOn, p + 1, q)
  }

  /** The movies of pages p .. q - 1 are those of page p followed by those of the pages after it. */
  lemma PagesMoviesCons(moviesOn: nat -> seq<Movie>, p: nat, q: nat)
    requires p < q
    ensures PagesMovies(moviesOn, p, q) == moviesOn(p) + PagesMovies(moviesOn, p + 1, q)
  {
  }

  /** The movies of pages p .. q - 1 count those of page p and those of the pages after it. */
  lemma PagesMoviesLength(moviesOn: nat -> seq<Movie>, p: nat, q: nat)
    requires p < q
    ensures |PagesMovies(moviesOn, p, q)| == |moviesOn(p)| + |PagesMovies(moviesOn, p + 1, q)|
    ensures p + 1 == q ==> |PagesMovies(moviesOn, p, q)| == |moviesOn(p)|
  {
    assert PagesMovies(moviesOn, p, q) == moviesOn(p) + PagesMovies(moviesOn, p + 1, q);
  }

  /** The loop keeps the movies of n consecutive non-empty pages starting at p, with n at most the
      pages left before the safety limit. */
  lemma CrawlShape(moviesOn: nat -> seq<Movie>, b: Browser, p: nat, count: nat)
    requires 1 <= p <= MaxPages
    ensures var n := CrawlPages(moviesOn, b, p, count);
            n <= MaxPages + 1 - p && Crawl(moviesOn, b, p, count) == PagesMovies(moviesOn, p, p + n)
    ensures forall k :: p <= k < p + CrawlPages(moviesOn, b, p, count) ==> moviesOn(k) != []
  {
    CrawlPagesBound(moviesOn, b, p, count);
    CrawlPagesMovies(moviesOn, b, p, count);
    forall k | p <= k < p + CrawlPages(moviesOn, b, p, count)
      ensures moviesOn(k) != []
    {
      CrawlPageAt(moviesOn, b, p, count, k);
    }
  }

  lemma {:induction false} CrawlPagesBound(moviesOn: nat -> seq<Movie>, b: Browser, p: nat, count: nat)
    requires 1 <= p <= MaxPages
    ensures CrawlPages(moviesOn, b, p, count) <= MaxPages + 1 - p
    decreases MaxPages - p
  {
    CrawlPagesUnfold(moviesOn, b, p, count);
    if Continues(moviesOn, b, p, count) {
      CrawlPagesBound(moviesOn, b, p + 1, count + |moviesOn(p)|);
    }
  }

  lemma {:induction false} CrawlPagesMovies(moviesOn: nat -> seq<Movie>, b: Browser, p: nat, count: nat)
    requires 1 <= p <= MaxPages
    ensures Crawl(moviesOn, b, p, count) == PagesMovies(moviesOn, p, p + CrawlPages(moviesOn, b, p, count))
    decreases MaxPages - p
  {
    if Continues(moviesOn, b, p, count) {
      var ms := moviesOn(p);
      var n: nat := CrawlPages(moviesOn, b, p + 1, count + |ms|);
      var q := p + CrawlPages(moviesOn, b, p, count);
      assert q == p + 1 + n by {
        CrawlPagesUnfold(moviesOn, b, p, count);
      }
      calc {
        Crawl(moviesOn, b, p, count);
      == { CrawlUnfold(moviesOn, b, p, count); }
        ms + Crawl(moviesOn, b, p + 1, count + |ms|);
      == { CrawlPagesMovies(moviesOn, b, p + 1, count + |ms|); }
        ms + PagesMovies(moviesOn, p + 1, q);
      == { PagesMoviesCons(moviesOn, p, q); }
        PagesMovies(moviesOn, p, q);
      }
    } else {
      CrawlPagesMoviesStop(moviesOn, b, p, count);
    }
  }

  lemma CrawlPagesMoviesStop(moviesOn: nat -> seq<Movie>, b: Browser, p: nat, count: nat)
    requires 1 <= p <= MaxPages && !Continues(moviesOn, b, p, count)
    ensures Crawl(moviesOn, b, p, count) == PagesMovies(moviesOn, p, p + CrawlPages(moviesOn, b, p, count))
  {
    var ms := moviesOn(p);
    var q := p + CrawlPages(moviesOn, b, p, count);
    assert Crawl(moviesOn, b, p, count) == ms by {
      CrawlUnfold(moviesOn, b, p, count);
    }
    CrawlPagesUnfold(moviesOn, b, p, count);
    if ms != [] {
      assert q == p + 1;
      assert PagesMovies(moviesOn, p, q) == ms by {
        PagesMoviesCons(moviesOn, p, q);
        assert PagesMovies(moviesOn, q, q) == [];
        assert ms + [] == ms;
      }
    }
  }

  lemma {:induction false} CrawlPageAt(moviesOn: nat -> seq<Movie>, b: Browser, p: nat, count: nat, k: nat)
    requires 1 <= p <= MaxPages
    requires p <= k < p + CrawlPages(moviesOn, b, p, count)
    ensures moviesOn(k) != []
    decreases k - p
  {
    CrawlPagesUnfold(moviesOn, b, p, count);
    if k > p {
      CrawlPageAt(moviesOn, b, p + 1, count + |moviesOn(p)|, k);
    }
  }

  /** The loop went past every kept page but the last: a next page existed, the click succeeded
      and the movies so far stayed below the target. */
  lemma CrawlSteps(moviesOn: nat -> seq<Movie>, b: Browser, p: nat, count: nat)
    requires 1 <= p <= MaxPages
    ensures forall k :: p <= k < p + CrawlPages(moviesOn, b, p, count) - 1 ==> StepOk(moviesOn, b, p, count, k)
  {
    forall k | p <= k < p + CrawlPages(moviesOn, b, p, count) - 1
      ensures StepOk(moviesOn, b, p, count, k)
    {
      CrawlStepAt(moviesOn, b, p, count, k);
    }
  }

  /** After page k of a crawl from page p with count movies already held, a next page existed, the
      click succeeded and the movies of pages p .. k stayed below the target. */
  predicate StepOk(moviesOn: nat -> seq<Movie>, b: Browser, p: nat, count: nat, k: nat)
  {
    b.hasNextPage(k) && b.goToNextPage(k) && count + |PagesMovies(moviesOn, p, k + 1)| < TotalMovieCount
  }

  /** The loop went past page k, one of the kept pages but the last: a next page existed, the click
      succeeded and the movies up to page k stayed below the target. */
  lemma {:induction false} CrawlStepAt(moviesOn: nat -> seq<Movie>, b: Browser, p: nat, count: nat, k: nat)
    requires 1 <= p <= MaxPages
    requires p <= k < p + CrawlPages(moviesOn, b, p, count) - 1
    ensures b.hasNextPage(k) && b.goToNextPage(k) && count + |PagesMovies(moviesOn, p, k + 1)| < TotalMovieCount
    decreases k - p
  {
    var ms := moviesOn(p);
    assert Continues(moviesOn, b, p, count);
    PagesMoviesLength(moviesOn, p, k + 1);
    if k > p {
      assert CrawlPages(moviesOn, b, p, count) == 1 + CrawlPages(moviesOn, b, p + 1, count + |ms|);
      CrawlStepAt(moviesOn, b, p + 1, count + |ms|, k);
    }
  }

  /** Why the loop stopped after the pages it kept: page p was empty, or after the last kept page q
      there was no next page, the target was reached, the click failed, q was the safety limit, or
      page q + 1 was empty. */
  lemma {:induction false} CrawlStop(moviesOn: nat -> seq<Movie>, b: Browser, p: nat, count: nat)
    requires 1 <= p <= MaxPages
    ensures CrawlPages(moviesOn, b, p, count) == 0 <==> moviesOn(p) == []
    ensures var n := CrawlPages(moviesOn, b, p, count);
            var q := p + n - 1;
            n > 0 ==> q == MaxPages || !b.hasNextPage(q) || count + |Crawl(moviesOn, b, p, count)| >= TotalMovieCount
                      || !b.goToNextPage(q) || (q < MaxPages && moviesOn(q + 1) == [])
    decreases MaxPages - p
  {
    var ms := moviesOn(p);
    if Continues(moviesOn, b, p, count) {
      var count' := count + |ms|;
      CrawlStop(moviesOn, b, p + 1, count');
      assert CrawlPages(moviesOn, b, p, count) == 1 + CrawlPages(moviesOn, b, p + 1, count');
      assert count + |Crawl(moviesOn, b, p, count)| == count' + |Crawl(moviesOn, b, p + 1, count')|;
    } else {
      assert Crawl(moviesOn, b, p, count) == ms;
    }
  }

  /** The safety limit is reached exactly: when every page holds one movie and a next page always
      exists and opens, the loop keeps 50 pages and 50 movies. */
  lemma SafetyLimit(moviesOn: nat -> seq<Movie>, b: Browser)
    requires forall k :: |moviesOn(k)| == 1
    requires forall k :: b.hasNextPage(k) && b.goToNextPage(k)
    ensures CrawlPages(moviesOn, b, 1, 0) == MaxPages && |Crawl(moviesOn, b, 1, 0)| == MaxPages
  {
    SafetyLimitFrom(moviesOn, b, 1);
  }

  lemma {:induction false} SafetyLimitFrom(moviesOn: nat -> seq<Movie>, b: Browser, p: nat)
    requires 1 <= p <= MaxPages
    requires forall k :: |moviesOn(k)| == 1
    requires forall k :: b.hasNextPage(k) && b.goToNextPage(k)
    ensures CrawlPages(moviesOn, b, p, p - 1) == MaxPages + 1 - p && |Crawl(moviesOn, b, p, p - 1)| == MaxPages + 1 - p
    decreases MaxPages - p
  {
    assert |moviesOn(p)| == 1;
    if p < MaxPages {
      SafetyLimitFrom(moviesOn, b, p + 1);
    }
  }

  /** The target stops the loop: with 18 movies on every page and a next page always available,
      the loop keeps 30 pages, 540 movies. */
  lemma TargetReached(moviesOn: nat -> seq<Movie>, b: Browser)
    requires forall k :: |moviesOn(k)| == 18
    requires forall k :: b.hasNextPage(k) && b.goToNextPage(k)
    ensures CrawlPages(moviesOn, b, 1, 0) == 30 && |Crawl(moviesOn, b, 1, 0)| == TotalMovieCount
  {
    TargetPagesFrom(moviesOn, b, 1, 0);
    assert Crawl(moviesOn, b, 1, 0) == PagesMovies(moviesOn, 1, 31) by {
      CrawlPagesMovies(moviesOn, b, 1, 0);
    }
    FullPagesLength(moviesOn, 1, 31);
  }

  /** With 18 movies on every page and every click succeeding, the loop goes on past page p after
      the 18 (p - 1) movies of the pages before it exactly when p is below 30. */
  lemma TargetStep(moviesOn: nat -> seq<Movie>, b: Browser, p: nat, count: nat)
    requires 1 <= p <= 30 && count == 18 * (p - 1)
    requires forall k :: |moviesOn(k)| == 18
    requires forall k :: b.hasNextPage(k) && b.goToNextPage(k)
    ensures p < 30 ==> CrawlPages(moviesOn, b, p, count) == 1 + CrawlPages(moviesOn, b, p + 1, count + 18)
    ensures p == 30 ==> CrawlPages(moviesOn, b, p, count) == 1
  {
    assert |moviesOn(p)| == 18 && b.hasNextPage(p) && b.goToNextPage(p);
    assert Continues(moviesOn, b, p, count) <==> p < 30;
    CrawlPagesUnfold(moviesOn, b, p, count);
  }

  lemma {:induction false} TargetPagesFrom(moviesOn: nat -> seq<Movie>, b: Browser, p: nat, count: nat)
    requires 1 <= p <= 30 && count == 18 * (p - 1)
    requires forall k :: |moviesOn(k)| == 18
    requires forall k :: b.hasNextPage(k) && b.goToNextPage(k)
    ensures CrawlPages(moviesOn, b, p, count) == 31 - p
    decreases 30 - p
  {
    var here := CrawlPages(moviesOn, b, p, count);
    TargetStep(moviesOn, b, p, count);
    if p < 30 {
      var next := CrawlPages(moviesOn, b, p + 1, count + 18);
      TargetPagesFrom(moviesOn, b, p + 1, count + 18);
      assert here == 1 + next && next == 30 - p;
    }
  }

  /** With 18 movies on every page, pages p .. q - 1 hold 18 (q - p) movies. */
  lemma {:induction false} FullPagesLength(moviesOn: nat -> seq<Movie>, p: nat, q: nat)
    requires p <= q
    requires forall k :: |moviesOn(k)| == 18
    ensures |PagesMovies(moviesOn, p, q)| == 18 * (q - p)
    decreases q - p
  {
    if p < q {
      var next := |PagesMovies(moviesOn, p + 1, q)|;
      FullPagesLength(moviesOn, p + 1, q);
      PagesMoviesLength(moviesOn, p, q);
      assert |moviesOn(p)| == 18;
      assert next == 18 * (q - p - 1);
    }
  }

  // ---------------------------------------------------------------------------------------------
  // CSV export

  /** `movie.year || ''`: no year, and the year 0, give an empty field. */
  function YearField(year: Option<int>): string
  {
    if year.None? || year.value == 0 then "" else IntToString(year.value)
  }

  /** String(convertToLetterboxdRating(rating)). */
  function RatingField(rating: int): string
  {
    HalfStarsText(HalfStars(rating))
  }

  /** The rating field reads back with parseFloat as exactly the Letterboxd rating, and String()
      of that number is the field itself. */
  lemma RatingFieldValue(rating: int)
    ensures ParseFloat(RatingField(rating)).Finite?
    ensures Value(ParseFloat(RatingField(rating))) == LetterboxdRating(rating)
    ensures NumberToString(ParseFloat(RatingField(rating))) == RatingField(rating)
  {
    HalfStarsTextValue(HalfStars(rating));
    LetterboxdRatingInHalfStars(rating);
  }

  /** The fields of an exported line: the quoted title with its quotes doubled, the year field,
      the Letterboxd rating and the site rating. */
  function ExportFields(m: Movie): seq<string>
  {
    [Quote(m.title), YearField(m.year), RatingField(m.rating), IntToString(m.rating)]
  }

  /** One exported line: the quoted title with its quotes doubled, the year field, the Letterboxd
      rating and the site rating, joined with commas. */
  function ExportRow(m: Movie): string
  {
    Join(ExportFields(m))
  }

  function ExportRows(ms: seq<Movie>): seq<string>
  {
    if ms == [] then [] else ExportRows(ms[..|ms| - 1]) + [ExportRow(ms[|ms| - 1])]
  }

  /** The text written to the file: the header and one row per movie, joined with newlines. */
  function ExportContent(ms: seq<Movie>): string
  {
    JoinWith([LetterboxdHeader] + ExportRows(ms), '\n')
  }

  /** One row per movie, in the order of the movies. */
  lemma ExportRowsSpec(ms: seq<Movie>)
    ensures |ExportRows(ms)| == |ms|
    ensures forall k :: 0 <= k < |ms| ==> ExportRows(ms)[k] == ExportRow(ms[k])
  {
    ExportRowsLength(ms);
    forall k | 0 <= k < |ms|
      ensures ExportRows(ms)[k] == ExportRow(ms[k])
    {
      ExportRowAt(ms, k);
    }
  }

  lemma {:induction false} ExportRowsLength(ms: seq<Movie>)
    ensures |ExportRows(ms)| == |ms|
  {
    if ms != [] {
      ExportRowsLength(ms[..|ms| - 1]);
    }
  }

  lemma {:induction false} ExportRowAt(ms: seq<Movie>, k: nat)
    requires k < |ms|
    ensures |ExportRows(ms)| == |ms| && ExportRows(ms)[k] == ExportRow(ms[k])
  {
    var p := ms[..|ms| - 1];
    ExportRowsLength(p);
    assert ExportRows(ms) == ExportRows(p) + [ExportRow(ms[|ms| - 1])];
    if k < |p| {
      ExportRowAt(p, k);
      assert ms[k] == p[k];
    }
  }

  /** An exported row splits back into its four fields: the title reads back through the CSV
      unquoting, the site rating and a non-zero year parse back with parseInt, a missing or
      zero year leaves the field empty, and the third field parses with parseFloat to the
      Letterboxd rating. */
  lemma ExportRowFields(m: Movie)
    ensures Split(ExportRow(m)) == [Quote(m.title), YearField(m.year), RatingField(m.rating), IntToString(m.rating)]
    ensures UnquoteField(Split(ExportRow(m))[0]) == Some(m.title)
    ensures ParseInt(Split(ExportRow(m))[3]) == Some(m.rating)
    ensures m.year.Some? && m.year.value != 0 ==> ParseInt(Split(ExportRow(m))[1]) == m.year
    ensures m.year.None? || m.year.value == 0 ==> Split(ExportRow(m))[1] == ""
    ensures ParseFloat(Split(ExportRow(m))[2]).Finite?
    ensures Value(ParseFloat(Split(ExportRow(m))[2])) == LetterboxdRating(m.rating)
  {
    var fields := ExportFields(m);
    assert Split(ExportRow(m)) == fields by {
      ExportFieldsClean(m);
      SplitJoinClean(fields);
    }
    QuoteRoundTrip(m.title);
    RatingFieldValue(m.rating);
    ParseIntIntToString(m.rating);
    if m.year.Some? && m.year.value != 0 {
      ParseIntIntToString(m.year.value);
    }
  }

  lemma ExportFieldsClean(m: Movie)
    ensures forall k :: 0 <= k < 4 ==> Clean(ExportFields(m)[k])
  {
    QuotedIsClean(m.title);
    if m.year.Some? && m.year.value != 0 {
      IntToStringPlain(m.year.value);
    }
    PlainIsClean(YearField(m.year));
    PlainIsClean(RatingField(m.rating));
    IntToStringPlain(m.rating);
    PlainIsClean(IntToString(m.rating));
  }

  /** The exported rows are not input the conversion script accepts: it wants at least five
      fields and an exported row has four, so converting the export gives the header alone. */
  lemma ExportNotReconverted(m: Movie)
    ensures ConvertScript.ConvertLine(ExportRow(m)) == None
  {
    var fields := ExportFields(m);
    ExportFieldsClean(m);
    var row := Join(fields);
    var last := IntToString(m.rating);
    var n: nat := if m.rating < 0 then -m.rating else m.rating;
    NatToStringDigits(n);
    assert last[|last| - 1] == NatToString(n)[|NatToString(n)| - 1];
    assert IsDigit(last[|last| - 1]);
    assert row == JoinWith(fields[..3], ',') + [','] + last;
    assert row[|row| - 1] == last[|last| - 1];
    JoinWithFirst(fields, ',');
    assert row[0] == fields[0][0] == '"';
    TrimNoEdges(row);
    ConvertScript.FourFieldLineSkipped(fields);
  }

  // ---------------------------------------------------------------------------------------------
  // Summary counts

  /** How many movies have rating r. */
  function CountRating(ms: seq<Movie>, r: int): nat
  {
    if ms == [] then 0 else CountRating(ms[..|ms| - 1], r) + (if ms[|ms| - 1].rating == r then 1 else 0)
  }

  /** The ratings present, each once, in order of first appearance. */
  function DistinctRatings(ms: seq<Movie>): seq<int>
  {
    if ms == [] then []
    else
      var ks := DistinctRatings(ms[..|ms| - 1]);
      if ms[|ms| - 1].rating in ks then ks else ks + [ms[|ms| - 1].rating]
  }

  /** The sum of the counts in `counts` under the given keys. */
  function SumCounts(counts: map<int, nat>, keys: seq<int>): nat
  {
    if keys == [] then 0
    else SumCounts(counts, keys[..|keys| - 1]) + (if keys[|keys| - 1] in counts then counts[keys[|keys| - 1]] else 0)
  }

  /** The sum over keys of the number of movies with each rating. */
  function SumOfCounts(ms: seq<Movie>, keys: seq<int>): nat
  {
    if keys == [] then 0 else SumOfCounts(ms, keys[..|keys| - 1]) + CountRating(ms, keys[|keys| - 1])
  }

  predicate Distinct(keys: seq<int>)
  {
    forall i, j :: 0 <= i < j < |keys| ==> keys[i] != keys[j]
  }

  lemma {:induction false} DistinctRatingsSpec(ms: seq<Movie>)
    ensures Distinct(DistinctRatings(ms))
    ensures forall r :: r in DistinctRatings(ms) <==> exists m :: m in ms && m.rating == r
  {
    if ms != [] {
      var p := ms[..|ms| - 1];
      DistinctRatingsSpec(p);
      forall r ensures r in DistinctRatings(ms) <==> exists m :: m in ms && m.rating == r
      {
        if exists m :: m in ms && m.rating == r {
          var m :| m in ms && m.rating == r;
          if m != ms[|ms| - 1] {
            assert m in p;
          }
        }
        if r in DistinctRatings(p) {
          var m :| m in p && m.rating == r;
          assert m in ms;
        }
      }
    }
  }

  lemma {:induction false} CountRatingAbsent(ms: seq<Movie>, r: int)
    requires forall m :: m in ms ==> m.rating != r
    ensures CountRating(ms, r) == 0
  {
    if ms != [] {
      CountRatingAbsent(ms[..|ms| - 1], r);
    }
  }

  lemma {:induction false} SumOfCountsSnoc(ms: seq<Movie>, m: Movie, keys: seq<int>)
    requires Distinct(keys)
    ensures SumOfCounts(ms + [m], keys) == SumOfCounts(ms, keys) + (if m.rating in keys then 1 else 0)
  {
    if keys != [] {
      var ks := keys[..|keys| - 1];
      assert Distinct(ks);
      SumOfCountsSnoc(ms, m, ks);
      assert (ms + [m])[..|ms|] == ms;
      assert m.rating in keys <==> m.rating in ks || m.rating == keys[|keys| - 1];
      assert m.rating == keys[|keys| - 1] ==> m.rating !in ks;
    }
  }

  lemma {:induction false} SumOfCountsAppendKey(ms: seq<Movie>, keys: seq<int>, k: int)
    ensures SumOfCounts(ms, keys + [k]) == SumOfCounts(ms, keys) + CountRating(ms, k)
  {
    assert (keys + [k])[..|keys|] == keys;
  }

  /** The counts of the ratings present add up to the number of movies. */
  lemma {:induction false} CountsAddUp(ms: seq<Movie>)
    ensures SumOfCounts(ms, DistinctRatings(ms)) == |ms|
  {
    if ms != [] {
      var p := ms[..|ms| - 1];
      var m := ms[|ms| - 1];
      assert ms == p + [m];
      var ks := DistinctRatings(p);
      CountsAddUp(p);
      DistinctRatingsSpec(p);
      SumOfCountsSnoc(p, m, ks);
      if m.rating !in ks {
        SumOfCountsAppendKey(ms, ks, m.rating);
        assert forall x :: x in p ==> x.rating != m.rating;
        CountRatingAbsent(p, m.rating);
      }
    }
  }

  /** counts holds, for each rating present in ms and no other, the number of movies with it. */
  ghost predicate Tallies(counts: map<int, nat>, ms: seq<Movie>)
  {
    (forall r :: r in counts <==> exists m :: m in ms && m.rating == r) &&
    (forall r :: r in counts ==> counts[r] == CountRating(ms, r))
  }

  /** One step of showSummary's loop: counting one more movie. */
  lemma TalliesSnoc(counts: map<int, nat>, ms: seq<Movie>, m: Movie)
    requires Tallies(counts, ms)
    ensures Tallies(counts[m.rating := (if m.rating in counts then counts[m.rating] else 0) + 1], ms + [m])
  {
    var ms' := ms + [m];
    assert ms'[..|ms|] == ms;
    if m.rating !in counts {
      CountRatingAbsent(ms, m.rating);
    }
    assert CountRating(ms', m.rating) == CountRating(ms, m.rating) + 1;
    assert forall r :: r != m.rating ==> CountRating(ms', r) == CountRating(ms, r);
  }

  lemma {:induction false} SumCountsAgree(counts: map<int, nat>, ms: seq<Movie>, keys: seq<int>)
    requires forall r :: r in keys ==> r in counts && counts[r] == CountRating(ms, r)
    ensures SumCounts(counts, keys) == SumOfCounts(ms, keys)
  {
    if keys != [] {
      SumCountsAgree(counts, ms, keys[..|keys| - 1]);
    }
  }

  // ---------------------------------------------------------------------------------------------
  // The extractor object

  class SenscritiqueExtractor {
    const profileUrl: string
    var allMovies: seq<Movie>

    constructor(profileUrl: string)
      ensures this.profileUrl == profileUrl && allMovies == []
    {
      this.profileUrl := profileUrl;
      allMovies := [];
    }

    /** extractAllMovies: the pagination loop run on the browser, each page read with
        extractMoviesFromPage, then the summary. */
    method ExtractAllMovies(b: Browser) returns (movies: seq<Movie>)
      modifies this
      ensures allMovies == old(allMovies) + Crawl(MoviesOn(b), b, 1, |old(allMovies)|)
      ensures allMovies[..|old(allMovies)|] == old(allMovies)
      ensures movies == allMovies
    {
      movies := Paginate(MoviesOn(b), b);
      var ratingCounts := ShowSummary();
    }

    /** The while loop of extractAllMovies, with the movies found on page k given by moviesOn(k):
        push each page's movies onto allMovies; stop on an empty page, when no next page exists or
        the target count is reached, when the click fails, or past the safety limit. What
        allMovies held before is kept in front. */
    method Paginate(moviesOn: nat -> seq<Movie>, b: Browser) returns (movies: seq<Movie>)
      modifies this
      ensures allMovies == old(allMovies) + Crawl(moviesOn, b, 1, |old(allMovies)|)
      ensures allMovies[..|old(allMovies)|] == old(allMovies)
      ensures movies == allMovies
    {
      var pageNumber: nat := 1;
      var hasMorePages := true;
      var totalExpected := 0;
      ghost var target := allMovies + Crawl(moviesOn, b, 1, |allMovies|);
      while hasMorePages
        invariant 1 <= pageNumber <= MaxPages
        invariant hasMorePages ==> allMovies + Crawl(moviesOn, b, pageNumber, |allMovies|) == target
        invariant !hasMorePages ==> allMovies == target
        invariant pageNumber > 1 ==> totalExpected == TotalMovieCount
        decreases MaxPages - pageNumber, hasMorePages
      {
        var pageMovies := moviesOn(pageNumber);
        ghost var before := allMovies;
        ghost var cont := Continues(moviesOn, b, pageNumber, |before|);
        PageStep(moviesOn, b, pageNumber, before, target);
        if |pageMovies| == 0 {
          break;
        }
        allMovies := allMovies + pageMovies;
        if pageNumber == 1 {
          totalExpected := TotalMovieCount;
        }
        assert totalExpected == TotalMovieCount;
        hasMorePages := b.hasNextPage(pageNumber) && |allMovies| < totalExpected;
        if hasMorePages {
          var navigated := b.goToNextPage(pageNumber);
          if !navigated {
            assert !cont;
            break;
          }
          pageNumber := pageNumber + 1;
        }
        if pageNumber > MaxPages {
          assert !cont;
          break;
        }
        assert hasMorePages == cont;
      }
      movies := allMovies;
    }

    /** showSummary's count of movies per rating. */
    method ShowSummary() returns (ratingCounts: map<int, nat>)
      ensures forall r :: r in ratingCounts <==> exists m :: m in allMovies && m.rating == r
      ensures forall r :: r in ratingCounts ==> ratingCounts[r] == CountRating(allMovies, r)
      ensures SumCounts(ratingCounts, DistinctRatings(allMovies)) == |allMovies|
    {
      ratingCounts := map[];
      for i := 0 to |allMovies|
        invariant Tallies(ratingCounts, allMovies[..i])
      {
        var m := allMovies[i];
        assert allMovies[..i + 1] == allMovies[..i] + [m];
        TalliesSnoc(ratingCounts, allMovies[..i], m);
        ratingCounts := ratingCounts[m.rating := (if m.rating in ratingCounts then ratingCounts[m.rating] else 0) + 1];
      }
      assert allMovies[..|allMovies|] == allMovies;
      DistinctRatingsSpec(allMovies);
      SumCountsAgree(ratingCounts, allMovies, DistinctRatings(allMovies));
      CountsAddUp(allMovies);
    }

    /** exportToCSV's rows and the text it writes. */
    method ExportToCsv() returns (content: string)
      ensures content == ExportContent(allMovies)
    {
      var csvRows := [LetterboxdHeader];
      for i := 0 to |allMovies|
        invariant csvRows == [LetterboxdHeader] + ExportRows(allMovies[..i])
      {
        assert allMovies[..i + 1][..i] == allMovies[..i];
        csvRows := csvRows + [ExportRow(allMovies[i])];
      }
      assert allMovies[..|allMovies|] == allMovies;
      content := JoinWith(csvRows, '\n');
    }

    /** getAllMovies. */
    function GetAllMovies(): (r: seq<Movie>)
      reads this
      ensures r == allMovies
    {
      allMovies
    }
  }
}

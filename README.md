# senscritique-to-letterboxd in Dafny

A verified model of the core of senscritique-to-letterboxd. The tool reads a user's rated movies from a
Senscritique profile and writes them as a CSV file that Letterboxd can import.

The model has three parts:

- **The extractor** (`src/extractors/senscritique-extractor.ts`).
  - It reads the user id and each movie's rating from the Apollo cache embedded in the page.
  - It takes the year from the link text, cleans the title, and puts the site origin in front of an href that is a site path ("/...").
  - It walks the profile's pages until a stop rule fires: an empty page, no next page, the target count of 30 × 18 = 540 movies, a failed click, or the limit of 50 pages.
  - It exports the movies as `Title,Year,Rating,Rating10` rows and counts the movies per rating.
- **The entry point** (`src/index.ts`). It runs the extraction, exports the CSV when a movie was found, and sorts the movies by rating to show the top ten.
- **The conversion script** (`scripts/convert-to-letterboxd.js`). It turns a five-column CSV export into the same import format. Its quote-aware splitter keeps quote characters in the fields and toggles an "in quotes" flag on each one.

The modules:

- `Types` holds the `Movie` record.
- `JsText` holds the JavaScript built-ins the code relies on: `trim`, `parseInt`, `parseFloat`, `String(n)`, `split` and `join`.
- `Csv` holds the splitter, as a specification function, and the quoting of titles (section 2, rule 7 of RFC 4180).
- `Rating` holds `convertToLetterboxdRating`.
- `ConvertScript` holds the conversion script.
- `Extractor` holds the extractor class and the functions that specify it.
- `App` holds `main` and the sort.

Where the source changes state, the model does too:

- The class `SenscritiqueExtractor` keeps `allMovies` as a field.
- The loops of the source are `while`/`for` loops, proved against specification functions:
  - `Split` for the character loop;
  - `ConvertedRows` for the line loop;
  - `Collect` for the links of a page;
  - `Crawl` for the pagination loop;
  - `ExportRows` for the export;
  - `CountRating` for the summary.

The browser is a value of type `Browser`. It gives, by page number, the page shown, whether a next-page link exists and whether the click on it succeeds. `main` takes the profile URL as a parameter instead of reading the environment.

## Model

| member | source | states |
|---|---|---|
| ConvertScript.SplitLine | scripts/convert-to-letterboxd.js:50-65 | the character loop yields exactly the fields of `Csv.Split`; they join back with commas to the line, and there is one more field than there are commas outside quotes |
| Csv.JoinSplit | scripts/convert-to-letterboxd.js:54-65 | joining the fields with "," gives back the line exactly: the splitter loses no character |
| Csv.SplitCount | scripts/convert-to-letterboxd.js:54-65 | the number of fields is 1 plus the number of commas outside quotes |
| Csv.InQuotesIsParity | scripts/convert-to-letterboxd.js:52-57 | the splitter's `inQuotes` flag, which starts false and flips at each quote, is on exactly when an odd number of quote characters has been read |
| Csv.SplitFieldsClean | scripts/convert-to-letterboxd.js:54-65 | every field but the last is kept whole and ends outside quotes; the last carries the quote state of the line |
| Csv.SplitAppend | scripts/convert-to-letterboxd.js:58-60 | a comma outside quotes cuts the line into two halves that split independently |
| Csv.SplitJoinClean | scripts/convert-to-letterboxd.js:54-65 | clean fields joined with commas split back into exactly those fields |
| Csv.QuotedIsClean | scripts/convert-to-letterboxd.js:76 | a quoted title with its quotes doubled is a single field, whatever commas or quotes the title holds |
| Csv.EscapeQuoteCount | scripts/convert-to-letterboxd.js:76 | doubling the quotes of a title exactly doubles its number of quote characters |
| ConvertScript.EscapeIsIdentity | scripts/convert-to-letterboxd.js:76 | doubling the quotes leaves a title unchanged exactly when it holds no quote character |
| Csv.QuotedFieldStaysWhole | scripts/convert-to-letterboxd.js:76 | a quoted title followed by a comma stays one field, and the rest of the line splits on its own |
| Csv.QuoteRoundTrip | src/extractors/senscritique-extractor.ts:405 | decoding a quoted title as RFC 4180 does gives the title back |
| ConvertScript.StripQuotesOfQuote | scripts/convert-to-letterboxd.js:68 | removing the outer quotes of a quoted title leaves the escaped title, which equals the title exactly when the title has no quote |
| ConvertScript.ConvertOne | scripts/convert-to-letterboxd.js:45-83 | one line gives a row exactly when it is not blank, has at least five fields, and both parseInt of field 2 and parseFloat of field 4 are > 0; the row is built from the title without its outer quotes, the year field, the converted and the source rating |
| ConvertScript.ConvertLines | scripts/convert-to-letterboxd.js:41-87 | the output is the header followed by the rows of the lines after the first, in line order |
| ConvertScript.ConvertLinesWith | scripts/convert-to-letterboxd.js:41-87 | the loop over lines 1 to n - 1 leaves the header followed by the row of each line that gives one, in line order, for any per-line conversion |
| ConvertScript.RowFields | scripts/convert-to-letterboxd.js:74-81 | a row built from a title, a year field the splitter keeps whole and the two numbers splits back into exactly those four fields, the title quoted |
| ConvertScript.ConvertContent | scripts/convert-to-letterboxd.js:31-90 | the output text is the header and the rows joined with newlines, from the trimmed input split on newlines; it always starts with the header |
| ConvertScript.ConvertedRowsAtMostNonBlank | scripts/convert-to-letterboxd.js:44-46 | there are never more rows than non-blank data lines |
| ConvertScript.ConvertedRowsAppend | scripts/convert-to-letterboxd.js:44-87 | rows keep the order of their lines: the rows of two runs of lines are the rows of the first run followed by those of the second |
| ConvertScript.ConvertLineFields | scripts/convert-to-letterboxd.js:67-81 | an emitted row splits back into exactly its four fields: the quoted title, the year field, String(parseFloat(field 4)) and String(parseInt(field 2)), both numbers being > 0 |
| ConvertScript.ConvertedRowsFourFields | scripts/convert-to-letterboxd.js:74-81 | every output row has exactly four fields |
| ConvertScript.FourFieldLineSkipped | scripts/convert-to-letterboxd.js:67 | a line of four clean fields, the shape of every row written in the import format, is skipped |
| JsText.TrimSpec | scripts/convert-to-letterboxd.js:45 | trim keeps the middle between a leading and a trailing run of white space, and what it keeps has no white space at either end |
| JsText.JoinSplitOn | scripts/convert-to-letterboxd.js:32 | splitting on "\n" and joining with "\n" gives back the text |
| JsText.ParseIntIntToString | scripts/convert-to-letterboxd.js:70 | parseInt reads back String(i) as i, for every integer i |
| JsText.ParseFloatDigits | scripts/convert-to-letterboxd.js:71 | a finite parseFloat result is held as canonical digit strings: no leading zero before the point and no trailing zero after it |
| JsText.ParseIntDigits | src/extractors/senscritique-extractor.ts:136 | parseInt of a non-empty run of digits is its decimal value |
| JsText.ParseFloatDecimal | scripts/convert-to-letterboxd.js:71 | parseFloat of digits, optionally followed by a point and digits that do not end in "0", keeps that fraction and drops the leading zeros of the whole part |
| Rating.HalfStars | src/extractors/senscritique-extractor.ts:420-424 | a rating r > 0 converts to exactly r half stars; a rating <= 0 converts to 0 |
| Rating.LetterboxdRatingInHalfStars | src/extractors/senscritique-extractor.ts:420-424 | the formula round(r / 10 * 5 * 2) / 2, evaluated exactly, equals the half-star count over 2, which is r / 2 for r > 0 |
| Rating.LetterboxdRatingScale | src/index.ts:52-56 | the conversion keeps the order of ratings, sends 1..10 into 0.5..5.0, and sends a rating <= 0 to 0 |
| Rating.HalfStarsText | src/extractors/senscritique-extractor.ts:403-407 | the printed Letterboxd rating never contains a quote or a comma |
| Rating.HalfStarsParse | src/extractors/senscritique-extractor.ts:403-407 | parseFloat of the text printed for h half stars keeps the digits of h / 2 and a fraction of nothing or "5" |
| Rating.HalfStarsTextValue | src/extractors/senscritique-extractor.ts:403-407 | parseFloat of the text printed for h half stars is a finite number worth exactly h / 2, and String() of it gives the same text |
| Extractor.RatingFieldValue | src/extractors/senscritique-extractor.ts:403-407 | the third column of a row reads back with parseFloat as exactly `convertToLetterboxdRating(rating)`, and String() of that number is the column itself |
| Extractor.Lookup | src/extractors/senscritique-extractor.ts:147 | the entry found is in the state under that key; none is found only when no entry has the key |
| Extractor.LookupUnique | src/extractors/senscritique-extractor.ts:147 | when no two entries share a key, the lookup finds the one entry stored under the key |
| Extractor.ExtractRating | src/extractors/senscritique-extractor.ts:229-234 | 0 when the state, the user id or the movie id is missing; a non-zero result is the rating stored under `ProductUserInfos:<movieId>_<userId>`; conversely, when all three are present and keys are unique, the result is the rating of the entry under that key, or 0 when it has none |
| Extractor.UserIdMatchAt | src/extractors/senscritique-extractor.ts:243 | a captured user id is a non-empty run of digits |
| Extractor.FirstUserInfoKey | src/extractors/senscritique-extractor.ts:242-243 | the key found is a key of the state that starts with `ProductUserInfos:`; none is found only when no key starts with it |
| Extractor.ExtractUserId | src/extractors/senscritique-extractor.ts:239-245 | a user id found is a non-empty run of digits |
| Extractor.UserIdMatchOfKey | src/extractors/senscritique-extractor.ts:243 | the pattern captures the user id back from a key built from digit ids |
| Extractor.UserIdAndRatingRoundTrip | src/extractors/senscritique-extractor.ts:145-152 | when the first user-info entry is a user's rating of a movie, the user id comes back and the lookup with both ids finds that rating, or 0 when the entry has none |
| Extractor.YearSearch | src/extractors/senscritique-extractor.ts:136 | returns the leftmost position where "(dddd)" occurs, and none when it occurs nowhere |
| Extractor.ExtractYear | src/extractors/senscritique-extractor.ts:136-137 | a year is found exactly when the raw title contains "(dddd)" somewhere; it is parseInt of the four digits of the first such "(dddd)", and lies in 0..9999 |
| Extractor.CleanTitleSpec | src/extractors/senscritique-extractor.ts:140 | the cleaned title is a prefix of the title; it differs exactly when the title ends in "(dddd)" and white space; the cut part is white space, "(dddd)", white space; and the result then does not end in white space |
| Extractor.TitleWithYear | src/extractors/senscritique-extractor.ts:135-140 | for "base (dddd)" with no year in base, the year is dddd and the cleaned title is base |
| Extractor.Absolutize | src/extractors/senscritique-extractor.ts:173 | the result ends with the href and never starts with "/"; an href not starting with "/" is unchanged |
| Extractor.AbsolutizeIdempotent | src/extractors/senscritique-extractor.ts:173 | putting the site origin in front of a site path is idempotent: applied twice it gives the same URL as once |
| Extractor.MovieIdMatchAt | src/extractors/senscritique-extractor.ts:132 | a captured movie id is a non-empty run of digits |
| Extractor.Leftmost | src/extractors/senscritique-extractor.ts:132-133 | the result is the match at the first position where the pattern matches, and none when it matches nowhere |
| Extractor.MovieIdFromUrl | src/extractors/senscritique-extractor.ts:132-133 | a movie id found is a non-empty run of digits |
| Extractor.MovieIdOfFilmPath | src/extractors/senscritique-extractor.ts:132-133 | the id of "/film/<slug>/<id>" is <id> |
| Extractor.AnchorMovie | src/extractors/senscritique-extractor.ts:124-175 | a link gives a movie exactly when its trimmed text and its href are non-empty and its rating (the Apollo rating, else the HTML fallback) is > 0; such a movie has rating > 0, and its URL is the site origin followed by the href when the href starts with "/", and the href itself otherwise, so it never starts with "/" |
| Extractor.CollectSpec | src/extractors/senscritique-extractor.ts:168-175 | a page gives at most one movie per link; each is the movie AnchorMovie gives for one of the links, so it is rated above 0 and its URL is that href with the site origin in front of a site path, never starting with "/" |
| Extractor.ExtractMoviesFromPage | src/extractors/senscritique-extractor.ts:102-179 | the loop over the links returns exactly the movies of `PageMovies`, in link order |
| Extractor.CrawlShape | src/extractors/senscritique-extractor.ts:33-84 | the loop keeps the movies of n consecutive non-empty pages from page 1, in page order, with n <= 50 |
| Extractor.CrawlSteps | src/extractors/senscritique-extractor.ts:33-84 | the loop went past each kept page but the last because a next page existed, the click succeeded and the count was below the target |
| Extractor.CrawlStop | src/extractors/senscritique-extractor.ts:47-83 | no page is kept exactly when the first page is empty; otherwise the loop stopped after the last kept page q because q was the 50th page, no next page existed, the target was reached, the click failed, or page q + 1 was empty |
| Extractor.SafetyLimit | src/extractors/senscritique-extractor.ts:80-83 | with one movie per page and next pages always available, the loop stops at 50 pages and 50 movies |
| Extractor.TargetReached | src/extractors/senscritique-extractor.ts:56-63 | with 18 movies per page and next pages always available, the loop stops after 30 pages with 540 movies |
| Extractor.ExportRowsSpec | src/extractors/senscritique-extractor.ts:402-410 | one row per movie, in the order of the movies |
| Extractor.ExportRowFields | src/extractors/senscritique-extractor.ts:404-409 | an exported row splits back into its four fields; the title decodes back to the movie's title; the site rating and a non-zero year parse back; a missing or zero year gives an empty field; the third field parses with parseFloat to exactly the Letterboxd rating |
| Extractor.ExportFieldsClean | src/extractors/senscritique-extractor.ts:405-408 | each of the four exported fields is kept whole by the CSV splitter |
| Extractor.ExportNotReconverted | src/extractors/senscritique-extractor.ts:404-409 | the conversion script skips every exported row, because a row has four fields and the script wants five |
| Extractor.DistinctRatingsSpec | src/extractors/senscritique-extractor.ts:385 | the keys of the distribution are the ratings present, each once |
| Extractor.CountsAddUp | src/extractors/senscritique-extractor.ts:379-382 | the counts per rating add up to the number of movies |
| Extractor.SenscritiqueExtractor.constructor | src/extractors/senscritique-extractor.ts:10-12 | stores the profile URL and starts with no movies |
| Extractor.SenscritiqueExtractor.ExtractAllMovies | src/extractors/senscritique-extractor.ts:17-97 | allMovies becomes its old value followed by the movies the crawl of the browser's pages gathers; the old movies are kept in front, and the result is allMovies |
| Extractor.SenscritiqueExtractor.Paginate | src/extractors/senscritique-extractor.ts:29-84 | the while loop appends exactly `Crawl` from page 1 to allMovies, with its count starting at the movies already held |
| Extractor.PageStep | src/extractors/senscritique-extractor.ts:33-83 | one pass of the loop: an empty page ends the crawl with the movies held; otherwise the page's movies are appended and the rest comes from the next page when the loop goes on, and nothing more when it stops |
| Extractor.SenscritiqueExtractor.ShowSummary | src/extractors/senscritique-extractor.ts:374-382 | the distribution has a key for exactly the ratings present; each value is the number of movies with that rating; the values add up to the number of movies |
| Extractor.SenscritiqueExtractor.ExportToCsv | src/extractors/senscritique-extractor.ts:396-412 | the text written is the header and one row per movie of allMovies, joined with newlines |
| Extractor.SenscritiqueExtractor.GetAllMovies | src/extractors/senscritique-extractor.ts:436-438 | returns the movies collected so far |
| App.SortByRatingSpec | src/index.ts:30-31 | the sort orders the movies by rating, highest first, and is a permutation of them |
| App.SortByRatingStable | src/index.ts:30-31 | the sort is stable: the movies with any given rating keep their order |
| App.TopRatedSpec | src/index.ts:30-32 | the top list holds ten movies, or all of them if there are fewer, highest rating first |
| App.TopRatedBeatsRest | src/index.ts:30-32 | the top list and the movies left out make up all the movies, and no movie left out is rated higher than one in the list |
| App.RunMain | src/index.ts:4-50 | without a profile URL main stops at once; otherwise it reports the crawled movies; it exports the CSV exactly when at least one movie was found, and the top list is the ten best-rated |

## Left out

- The browser and the HTML are left out: puppeteer, cheerio, CSS selectors, `page.goto`, the waits and `JSON.parse`. A page is given as its parsed Apollo state and its title links, each with its text, its href and the number parsed from the nearby rating element. `hasNextPage` and `goToNextPage` are given per page number.
- Logging and file I/O are left out. The written files are modelled as the text returned.
- The script's command line is left out (scripts/convert-to-letterboxd.js:8-29): the input and output paths taken from `process.argv` with their defaults, the check that the input file exists, and the usage message and `process.exit(1)` when it does not. `ConvertContent` takes the content of the input file.
- In `main`, `process.env.SENSCRITIQUE_PROFILE_URL` becomes the profile URL parameter of `RunMain`. When it is missing, `main` logs and returns (src/index.ts:9-13), which is the outcome `MissingProfileUrl`. The `process.exit(1)` at src/index.ts:48 belongs to the `try`/`catch` left out below.
- The `try`/`catch` paths are left out. A thrown error (a browser failure, or a bad input file in the script) is not modelled; the model always takes the normal path.
- Floating point is left out. `convertToLetterboxdRating` is evaluated exactly on the reals and on integers, and ratings are integers. A non-integer HTML fallback rating is not modelled, and `Math.round` is modelled only where its argument is exact.
- Exponents in numbers are left out. `parseFloat` is modelled for optional white space, a sign, "Infinity" and digits with an optional fraction; an exponent part ("1e3") is not parsed. `String(x)` is modelled without exponent notation.
- Large integers are left out. `parseInt` keeps an exact integer, without the precision loss of doubles beyond 2^53.
- Double rounding is left out. `ParseFloat` keeps the exact decimal, and `NumberToString` prints it back digit for digit. JavaScript rounds to the nearest double and prints that double's shortest form. So a field 4 with more than about 17 significant digits is echoed by the model as written, while the script prints it rounded (scripts/convert-to-letterboxd.js:71, :78).
- The `.map(Number).sort(...).forEach(console.log)` display of `showSummary` (lines 384-390) is left out; only the counts are modelled.
- `parseMovieElement` and `parseJsonData` (lines 184-224) are never called, so they are not modelled. Only the title, year and URL shaping of `parseMovieElement` is the same as in `extractMoviesFromPage`. It takes its rating from `extractRating` alone, with no HTML fallback, and it keeps movies rated 0. `parseJsonData` does no shaping at all.
- Extractor.SenscritiqueExtractor.Paginate: does not call the ExtractMoviesFromPage method. It reads each page's movies through the function `moviesOn`, which ExtractAllMovies sets to `PageMovies` of the browser's page. ExtractMoviesFromPage is proved to compute `PageMovies`.
- ConvertScript.ConvertLinesWith: takes the conversion of one line as a function parameter instead of calling the ConvertOne method. ConvertLines passes `ConvertLine`, and ConvertOne is proved to compute `ConvertLine`.
- Extractor.ExtractRating: states the exact rating only when no two entries of the Apollo state share a key. The state comes from `JSON.parse` of an object, which holds one value per key, so a state with a repeated key does not arise; the lookup takes the first entry with the key.
- App.RunMain: does not model that the in-place `sort` also reorders the extractor's `allMovies` array. The model returns the sorted list, and nothing reads `allMovies` after the sort.
- App.RunMain: the printed top list and its converted ratings are console output and are left out.
- ConvertScript.ConvertOne: models `parts[0].replace(/^"|"$/g, "")` exactly as written. It does not undo doubled quotes, so a title holding quotes comes out with them doubled twice (see `StripQuotesOfQuote`).

# Book-catalogue ETL pipeline: extract and transform stages

This project models the two data-shaping stages of a small ETL pipeline
that scrapes the books.toscrape.com catalogue and prepares the result for a
warehouse load:

- **extract** (`get_book_data`, scripts/extract.py): catalogue pages 1 to 5
  are requested in turn; a page whose status is not 200 is skipped; every
  product entry of a good page becomes one raw record holding its title, its
  price text with the pound sign removed and whitespace stripped, its
  stripped availability text, the second class token of its star-rating
  marker (or the literal "None" when there is no marker) and its link
  resolved against the catalogue base URL. Records are appended in page and
  document order.
- **transform** (`transform_data`, scripts/transform.py): the price column
  is reduced to its digits and points and coerced to a number (NaN when
  that fails), an `in_stock` flag is derived from the availability text, the
  rating word is mapped to 1..5 (NaN when unmapped), the availability and
  rating columns are dropped, and every row with a missing cell is removed.
- **pipeline** (`run_pipeline`, scripts/main.py): the extracted records are
  written to CSV and read back before the transform; reading back turns the
  texts pandas treats as missing by default into missing cells.

Files: `text.dfy` (module `Text`: the string behaviour the code relies on
— character filtering, `strip`, substring test, decimal digits — plus small
generic sequence helpers), `transform.dfy` (module `Transform`),
`extract.dfy` (module `Extract`), `pipeline.dfy` (module `Pipeline`).

The transform is pure and is modelled as functions over a sequence of rows;
a column-wise pandas step becomes a row-wise function mapped over the
table. `Transform.TransformData` (normalize every row, then drop incomplete
rows) is related to an independent row-level definition (`Survives`,
`Cleaned`) by `Transform.TransformSelects`. The extract loop is imperative
and is modelled as a method with loops (`Extract.GetBookData` and, for its
inner loop, `Extract.AppendPageBooks`), each proved against the
specification function `Extract.Scrape`, about which the remaining
properties are lemmas. An exception that ends the run becomes a `None`
result.

Prices are exact decimals (`Decimal(mantissa, scale)`, the value
`mantissa / 10^scale`) rather than floats.

## Model

| member | source | states |
|---|---|---|
| Text.Keep | scripts/transform.py:21 | the filtered text is no longer than the input and every character in it satisfies the filter |
| Text.KeepAppend | scripts/transform.py:21 | the filter works character by character: filtering a concatenation concatenates the filtered parts, so order is kept |
| Text.KeepAll | scripts/transform.py:21 | text made only of kept characters is unchanged |
| Text.KeepIdempotent | scripts/transform.py:21 | filtering twice equals filtering once |
| Text.KeepMembership | scripts/transform.py:21 | a character occurs in the filtered text exactly when it occurs in the input and is kept |
| Text.Strip | scripts/extract.py:32-33 | stripped text is no longer than the input and neither starts nor ends with whitespace |
| Text.LeadingSpacesSpec | scripts/extract.py:32-33 | the leading count covers exactly the whitespace run at the start |
| Text.TrailingSpacesSpec | scripts/extract.py:32-33 | the trailing count covers exactly the whitespace run at the end |
| Text.StripIsSlice | scripts/extract.py:32-33 | the stripped text is the contiguous run of the input that follows the leading whitespace |
| Text.StripCutsSpaces | scripts/extract.py:32-33 | everything removed on either side of the kept run is whitespace |
| Text.StripKeepsAbsent | scripts/extract.py:32 | stripping adds no character: one absent from the input is absent from the result |
| Text.StripIdempotent | scripts/extract.py:32-33 | stripping stripped text changes nothing |
| Text.StripExample | scripts/extract.py:33 | an availability paragraph with surrounding newlines and spaces strips to "In stock" |
| Text.StripUnchangedExample | scripts/extract.py:32 | a price text without surrounding whitespace is unchanged |
| Text.ContainsIff | scripts/transform.py:27 | the substring test holds exactly when the needle occurs at some position |
| Text.NatDigits | scripts/extract.py:20 | a page number prints as at least one digit with no leading zero |
| Text.NatDigitsRoundTrip | scripts/extract.py:20 | reading back the printed digits of a number gives the number |
| Text.NatDigitsInjective | scripts/extract.py:20 | distinct page numbers print differently |
| Transform.CleanPriceText | scripts/transform.py:21 | only digits and points remain in the cleaned price text |
| Transform.CleanPriceIdempotent | scripts/transform.py:21 | cleaning cleaned text changes nothing |
| Transform.CleanPriceKeepsPriceChars | scripts/transform.py:21 | cleaning distributes over concatenation and keeps exactly the digits and points of the input |
| Transform.ToNumeric | scripts/transform.py:22 | a coerced number is negative only when its text starts with a minus sign |
| Transform.ParsePrice | scripts/transform.py:21-22 | a parsed price is never negative, because cleaning removes every sign |
| Transform.ParsePriceOfCleaned | scripts/transform.py:21-22 | parsing the cleaned text of a cell gives the same price as parsing the cell |
| Transform.MissingPriceStaysMissing | scripts/transform.py:21-22 | a missing price cell, printed as "nan", still coerces to NaN |
| Transform.CleanTextParsesIff | scripts/transform.py:21-22 | cleaned text coerces to a number exactly when it has at least one digit and at most one point |
| Transform.ParseUnsignedDigits | scripts/transform.py:22 | a plain digit string coerces to its integer value |
| Transform.ParseUnsignedPoint | scripts/transform.py:22 | digits, a point and digits coerce to the value of all the digits scaled by the count after the point |
| Transform.RenderRoundTrip | scripts/transform.py:22 | coercion reads every non-negative decimal back from its decimal text |
| Transform.ParsePriceRendered | scripts/transform.py:21-22 | a cell already holding a decimal's text parses to that decimal |
| Transform.PriceExample | scripts/transform.py:21-22 | the cell "£51.77" parses to 51.77 |
| Transform.CleanPriceExample | scripts/transform.py:21 | cleaning "£51.77" gives "51.77" |
| Transform.PriceCellText | scripts/transform.py:21 | a present price cell keeps its text; a missing one prints as a text holding no digit and no point |
| Transform.InStock | scripts/transform.py:26-28 | a row is in stock exactly when "In stock" occurs somewhere in its availability text |
| Transform.InStockCaseSensitive | scripts/transform.py:26-28 | the test is case-sensitive: "In stock (19 available)" is in stock, "in stock" is not |
| Transform.RatingNumber | scripts/transform.py:31-39 | a mapped rating lies between 1 and 5 |
| Transform.RatingLabelRoundTrip | scripts/transform.py:31-39 | each of the five words maps to its star count |
| Transform.RatingNumberInverse | scripts/transform.py:31-39 | only the five words map, each to the count whose word it is; "None" and a missing cell stay unmapped |
| Transform.Normalize | scripts/transform.py:21-42 | a normalized row keeps its title and link, a parsed price is non-negative, the in-stock flag holds exactly when "In stock" occurs in the availability text, and a mapped rating lies in 1..5 |
| Transform.DropMissing | scripts/transform.py:45 | a row is kept exactly when its title, price, link and rating number are all present, and a kept row carries every one of its cells unchanged |
| Transform.Normalized | scripts/transform.py:21-42 | the normalized table has one row per raw row |
| Transform.DropNa | scripts/transform.py:45 | the purged table is no longer than its input and each of its rows is the complete form of some input row |
| Transform.TransformData | scripts/transform.py:12-45 | the processed table is no longer than the raw one; every rating lies in 1..5 and every price is non-negative |
| Transform.NormalizeThenDrop | scripts/transform.py:21-45 | a row survives normalization and purging exactly when its title and link are present, its price parses and its rating maps, and then becomes its cleaned form |
| Transform.TransformSelects | scripts/transform.py:21-45 | the processed table is the cleaned form of exactly the surviving raw rows, in their original order |
| Transform.TransformSnoc | scripts/transform.py:21-45 | one more raw row appends its cleaned form to the processed table when it survives and leaves the table unchanged otherwise |
| Transform.SurvivorIndicesIff | scripts/transform.py:45 | a raw row is represented in the processed table exactly when it survives |
| Transform.TransformKeepsAllIff | scripts/transform.py:45 | no row is dropped exactly when every row survives |
| Transform.TransformExample | scripts/transform.py:12-45 | a complete row with price "£51.77", availability "In stock (19 available)" and rating "Three" becomes one book at 51.77, in stock, rated 3 |
| Extract.PageUrl | scripts/extract.py:12-20 | the URL of a page is the catalogue page prefix, the page number's decimal digits, and ".html" |
| Extract.PageUrls | scripts/extract.py:18-20 | the i-th requested URL is that of page i + 1 |
| Extract.PageUrlInjective | scripts/extract.py:12-20 | different pages are requested at different URLs |
| Extract.RemovePound | scripts/extract.py:32 | no pound sign is left |
| Extract.RemovePoundExample | scripts/extract.py:32 | "£51.77" loses its pound sign and nothing else |
| Extract.RatingClass | scripts/extract.py:35-36 | the second class token of the marker, "None" without a marker, and a raise exactly when the marker has fewer than two tokens |
| Extract.MakeRecord | scripts/extract.py:30-47 | building a record raises exactly when the star marker has fewer than two class tokens |
| Extract.MakeRecordLink | scripts/extract.py:31-39 | a record keeps the entry's title and rating class, and its link is the catalogue base followed by the entry's href |
| Extract.MakeRecordTexts | scripts/extract.py:32-33 | a record's price text has no pound sign and no surrounding whitespace; its availability text has no surrounding whitespace |
| Extract.MakeRecordExample | scripts/extract.py:30-47 | a typical catalogue entry yields the record with price "51.77", availability "In stock", rating "Three" and its resolved link |
| Extract.PageRecords | scripts/extract.py:30-47 | a page yields one record per entry |
| Extract.PageRecordsSpec | scripts/extract.py:30-47 | a page's records exist exactly when every entry builds, and then they are the entries' records in document order |
| Extract.PageRecordsStep | scripts/extract.py:30-47 | one more entry extends the records of the entries before it, or makes the whole page raise |
| Extract.Scrape | scripts/extract.py:18-47 | a completed run holds one record per entry of the pages that answered 200 |
| Extract.PageContribution | scripts/extract.py:23-47 | a page that does not answer 200 adds no record; a page that answers 200 adds one record per entry, unless building one raises |
| Extract.ScrapeSomeIff | scripts/extract.py:18-47 | a run raises exactly when some page that answered 200 has an entry that raises |
| Extract.ScrapeStep | scripts/extract.py:18-47 | processing one more page joins its contribution to the records so far |
| Extract.GetBookData | scripts/extract.py:15-49 | the result is the specification of the run over the five responses; the pages are requested in order, all five when the run completes, and up to the first raising page otherwise |
| Extract.AppendPageBooks | scripts/extract.py:30-47 | the inner loop appends the page's records, in order, to the records so far, or raises |
| Extract.ScrapePrefixRaises | scripts/extract.py:18-47 | once processing some pages raises, processing more pages raises too |
| Extract.ScrapeAppend | scripts/extract.py:18-47 | the records of consecutive runs of pages concatenate, in order |
| Extract.ScrapeSingle | scripts/extract.py:23-47 | processing one response gives exactly that page's contribution |
| Extract.ScrapeSkip | scripts/extract.py:23-25 | a page that does not answer 200 can be removed from between any others without changing the result |
| Extract.ScrapeSkipsFailedPage | scripts/extract.py:23-25 | a page that does not answer 200 adds nothing to the run |
| Extract.ScrapeOrigin | scripts/extract.py:23-47 | every scraped record was built from an entry of a page that answered 200 |
| Extract.ScrapedRecord | scripts/extract.py:30-47 | every scraped record links into the catalogue, and its price and availability texts have no pound sign and no surrounding whitespace |
| Pipeline.ReadCell | scripts/transform.py:15 | a cell reads back as missing exactly when its text is one of the default missing markers, and otherwise as its own text |
| Pipeline.ReadRow | scripts/transform.py:15 | each of the five cells of a record reads back as missing exactly when its text is a missing marker, and otherwise as that text |
| Pipeline.ReadBack | scripts/transform.py:15 | reading the CSV back yields one raw row per scraped record |
| Pipeline.RunPipeline | scripts/main.py:17-27 | a processed table exists only when extraction completes with at least one record (an empty frame is saved as a file with no header, and reading it back raises), and has no more rows than there are scraped records |
| Pipeline.NoPageRaises | scripts/main.py:21-26 | when no page answers 200 there is no record, and the run raises at the read-back |
| Pipeline.ReadPriceParses | scripts/main.py:21-27 | a price read back parses exactly when its text is not a missing marker and parses |
| Pipeline.ReadRatingMaps | scripts/main.py:21-27 | a rating read back maps exactly when it is one of the five rating words |
| Pipeline.RecordSurvivesIff | scripts/main.py:21-27 | a scraped record reaches the processed table exactly when its title and link are not read as missing, its price parses and its rating is a rating word; a record built without a star marker never does |
| Pipeline.PipelineBook | scripts/main.py:21-27 | every processed book links into the catalogue, has a rating in 1..5 and a non-negative price, and carries the title and in-stock flag of some scraped record |

## Left out

- HTTP requests and HTML parsing: each page arrives as its status code and
  the entries the parser found (title, price text, availability text, star
  classes, href). Network errors, timeouts and parser failures other than
  the indexing error on the star marker are not modelled.
- A missing anchor, price paragraph or availability paragraph (the parser
  returning `None` and the attribute access raising) is not modelled: every
  entry carries all five parts.
- Floating point: prices are exact decimals, so float rounding and the
  float's own printing are not modelled.
- Transform.ToNumeric: covers an optional sign, digits and at most one
  point; exponents, "inf"/"nan" spellings, surrounding whitespace and digit
  separators are not modelled, because cleaning removes every character
  they need.
- Transform.TransformData: requires every availability cell to be present;
  a missing one makes the in-stock test raise, which is modelled only at the
  pipeline level (`Pipeline.RunPipeline` gives `None`).
- Pipeline.RunPipeline: the CSV file is not modelled byte by byte. Reading
  back is modelled cell by cell (default missing markers become missing);
  pandas' type inference on the price column (which may reprint a price
  such as "51.70" as "51.7", the same value) and on other columns is not
  modelled.
- Saving the processed table to Excel, the Snowflake load (scripts/load.py),
  the Airflow DAG, environment variables and console output are not part of
  this model.
- Extract.GetBookData: the pandas DataFrame it returns is modelled as the
  sequence of records; the inner loop is a separate method
  (`Extract.AppendPageBooks`) that returns the extended sequence instead of
  appending to a shared list in place.

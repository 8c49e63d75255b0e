/** The two stages chained as `run_pipeline` in scripts/main.py does: the
    scraped records are written to a CSV file, read back, and transformed.
    The file itself is not modelled; reading it back is modelled cell by
    cell: a text that `pandas.read_csv` treats as missing by default becomes
    a missing cell, any other text stays as it is. */
module Pipeline {
  import opened Text
  import opened Transform
  import opened Extract

  /** The texts `pandas.read_csv` reads as NaN by default. */
  const NaMarkers: set<string> := {
    "", "#N/A", "#N/A N/A", "#NA", "-1.#IND", "-1.#QNAN", "-NaN", "-nan", "1.#IND", "1.#QNAN",
    "<NA>", "N/A", "NA", "NULL", "NaN", "None", "n/a", "nan", "null"
  }

  /** One CSV cell as read back. */
  function ReadCell(s: string): (c: Option<string>)
    ensures c.None? <==> s in NaMarkers
    ensures c.Some? ==> c.value == s
  {
    if s in NaMarkers then None else Some(s)
  }

  /** One scraped record as the transform stage reads it. */
  function ReadRow(r: RawRecord): (row: RawRow)
    ensures row.title.None? <==> r.title in NaMarkers
    ensures row.price.None? <==> r.price in NaMarkers
    ensures row.availability.None? <==> r.availability in NaMarkers
    ensures row.rating.None? <==> r.rating in NaMarkers
    ensures row.link.None? <==> r.link in NaMarkers
    ensures row.title.Some? ==> row.title.value == r.title
    ensures row.price.Some? ==> row.price.value == r.price
    ensures row.availability.Some? ==> row.availability.value == r.availability
    ensures row.rating.Some? ==> row.rating.value == r.rating
    ensures row.link.Some? ==> row.link.value == r.link
  {
    RawRow(ReadCell(r.title), ReadCell(r.price), ReadCell(r.availability), ReadCell(r.rating), ReadCell(r.link))
  }

  /** The raw table read back from the scraped records, row for row. */
  function ReadBack(records: seq<RawRecord>): (rows: seq<RawRow>)
    ensures |rows| == |records|
  {
    seq(|records|, i requires 0 <= i < |records| => ReadRow(records[i]))
  }

  /** `run_pipeline` up to the processed table. It is `None`, the run
      raising, in three cases: extraction raises; extraction yields no record,
      so the frame has no columns, the CSV file has no header and reading it
      back raises; or an availability cell reads back as missing and the
      in-stock test raises on it. */
  function RunPipeline(responses: seq<Response>): (r: Option<seq<Book>>)
    ensures r.Some? ==> Scrape(responses).Some? && 0 < |Scrape(responses).value|
    ensures r.Some? ==> |r.value| <= |Scrape(responses).value|
  {
    match Scrape(responses)
    case None => None
    case Some(records) =>
      if records == [] then None
      else
        var rows := ReadBack(records);
        if AvailabilityPresent(rows) then Some(TransformData(rows)) else None
  }

  /** When no page answers with status 200 there is no record, and the run
      raises when the empty CSV file is read back. */
  lemma NoPageRaises(responses: seq<Response>)
    requires forall k :: 0 <= k < |responses| ==> responses[k].status != 200
    ensures RunPipeline(responses) == None
  {
    ScrapeSomeIff(responses);
    assert OkEntryCount(responses) == 0 by {
      NoOkEntries(responses);
    }
  }

  lemma {:induction false} NoOkEntries(rs: seq<Response>)
    requires forall k :: 0 <= k < |rs| ==> rs[k].status != 200
    ensures OkEntryCount(rs) == 0
  {
    if rs != [] {
      var n := |rs| - 1;
      assert forall k :: 0 <= k < n ==> rs[..n][k] == rs[k];
      NoOkEntries(rs[..n]);
    }
  }

  /** A scraped record reaches the processed table exactly when its title
      and link are not read back as missing, its price text parses and its
      rating is one of the five rating words; a record built without a star
      marker (rating "None") never does. */
  lemma RecordSurvivesIff(r: RawRecord)
    ensures Survives(ReadRow(r)) <==>
              r.title !in NaMarkers && r.link !in NaMarkers
              && r.price !in NaMarkers && ParsePrice(Some(r.price)).Some?
              && r.rating in RatingMap
    ensures r.rating == "None" ==> !Survives(ReadRow(r))
  {
    ReadPriceParses(r.price);
    ReadRatingMaps(r.rating);
    RatingNumberInverse(r.rating);
  }

  /** A price cell read back parses exactly when its text is not a missing
      marker and parses. */
  lemma ReadPriceParses(price: string)
    ensures ParsePrice(ReadCell(price)).Some? <==> price !in NaMarkers && ParsePrice(Some(price)).Some?
  {
    if price in NaMarkers {
      MissingPriceStaysMissing();
    }
  }

  /** A rating cell read back maps exactly when it holds one of the five
      rating words: none of them is a missing marker. */
  lemma ReadRatingMaps(word: string)
    ensures RatingNumber(ReadCell(word)).Some? <==> word in RatingMap
  {
    if word in RatingMap {
      assert word == "One" || word == "Two" || word == "Three" || word == "Four" || word == "Five";
    }
  }

  /** Every book of the processed table is the cleaned form of a scraped
      record: same title, a link into the catalogue, the in-stock flag of
      its availability text and a rating between 1 and 5. */
  lemma PipelineBook(responses: seq<Response>, j: nat)
    requires RunPipeline(responses).Some? && j < |RunPipeline(responses).value|
    ensures var book := RunPipeline(responses).value[j];
            StartsWith(book.link, CatalogueBase) && 1 <= book.ratingNumber <= 5 && book.price.mantissa >= 0
            && exists i :: 0 <= i < |Scrape(responses).value|
                 && book.title == Scrape(responses).value[i].title
                 && book.inStock == InStock(Scrape(responses).value[i].availability)
  {
    var records := Scrape(responses).value;
    var rows := ReadBack(records);
    TransformSelects(rows);
    var idx := SurvivorIndices(rows);
    var i := idx[j];
    assert RunPipeline(responses).value == TransformData(rows);
    var book := TransformData(rows)[j];
    assert rows[i] == ReadRow(records[i]);
    assert book == Cleaned(rows[i]);
    ScrapedRecord(responses, i);
    assert book.title == records[i].title && book.link == records[i].link;
  }
}

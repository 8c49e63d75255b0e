/** The extract stage (`get_book_data` in scripts/extract.py): five catalogue
    pages are requested in turn and every product entry on a page that came
    back with status 200 becomes one raw record. The HTTP client and the HTML
    parser are not modelled: each page arrives as its status code and the
    entries the parser found on it. */
module Extract {
  import opened Text

  /** Pages 1 through `PageCount` are requested. */
  const PageCount: nat := 5

  /** `BASE_URL`, split around its `{}` placeholder. */
  const PageUrlPrefix: string := "https://books.toscrape.com/catalogue/page-"
  const PageUrlSuffix: string := ".html"

  /** The base every detail link is resolved against. */
  const CatalogueBase: string := "https://books.toscrape.com/catalogue/"

  /** One `article.product_pod` as the parser sees it: the anchor's title,
      the text of the price paragraph, the text of the availability
      paragraph, the class tokens of the star-rating paragraph (`None` when
      there is none) and the anchor's href. */
  datatype Entry = Entry(
    title: string,
    priceText: string,
    availabilityText: string,
    starClasses: Option<seq<string>>,
    href: string)

  /** The answer to one page request. */
  datatype Response = Response(status: int, entries: seq<Entry>)

  /** One dictionary appended to `all_books`. */
  datatype RawRecord = RawRecord(title: string, price: string, availability: string, rating: string, link: string)

  /** The URL of catalogue page `page` (line 20). */
  function PageUrl(page: nat): (u: string)
    ensures StartsWith(u, PageUrlPrefix)
    ensures |PageUrlPrefix| + |PageUrlSuffix| <= |u| && u[|u| - |PageUrlSuffix|..] == PageUrlSuffix
    ensures u[|PageUrlPrefix|..|u| - |PageUrlSuffix|] == NatDigits(page)
  {
    PageUrlPrefix + NatDigits(page) + PageUrlSuffix
  }

  /** The URLs of pages 1 through `n`, in increasing page order. */
  function PageUrls(n: nat): (urls: seq<string>)
    ensures |urls| == n
    ensures forall i :: 0 <= i < n ==> urls[i] == PageUrl(i + 1)
  {
    if n == 0 then [] else PageUrls(n - 1) + [PageUrl(n)]
  }

  /** Different pages are requested at different URLs. */
  lemma PageUrlInjective(p: nat, q: nat)
    requires PageUrl(p) == PageUrl(q)
    ensures p == q
  {
    var u := PageUrl(p);
    var lo, hi := |PageUrlPrefix|, |u| - |PageUrlSuffix|;
    assert u[lo..hi] == NatDigits(p);
    assert PageUrl(q)[lo..hi] == NatDigits(q);
    NatDigitsInjective(p, q);
  }

  /** Every pound sign deleted (line 32). */
  function RemovePound(s: string): (r: string)
    ensures '£' !in r
  {
    Keep(s, c => c != '£')
  }

  /** Line 36: the second class token of the star marker, the literal
      "None" without a marker, and `None` when the marker has fewer than two
      tokens and the index raises. */
  function RatingClass(marker: Option<seq<string>>): (r: Option<string>)
    ensures r.None? <==> marker.Some? && |marker.value| < 2
    ensures marker.None? ==> r == Some("None")
    ensures marker.Some? && r.Some? ==> r.value == marker.value[1]
  {
    match marker
    case None => Some("None")
    case Some(classes) => if |classes| >= 2 then Some(classes[1]) else None
  }

  /** Lines 31-47 for one entry; `None` when building it raises. */
  function MakeRecord(e: Entry): (r: Option<RawRecord>)
    ensures r.Some? <==> e.starClasses.None? || |e.starClasses.value| >= 2
  {
    match RatingClass(e.starClasses)
    case None => None
    case Some(rating) =>
      Some(RawRecord(e.title, Strip(RemovePound(e.priceText)), Strip(e.availabilityText), rating, CatalogueBase + e.href))
  }

  /** A built record keeps the entry's title and its second star class, or
      "None" without a marker, and its link is the href behind the
      catalogue base. */
  lemma MakeRecordLink(e: Entry)
    requires MakeRecord(e).Some?
    ensures MakeRecord(e).value.title == e.title
    ensures MakeRecord(e).value.rating == if e.starClasses.None? then "None" else e.starClasses.value[1]
    ensures StartsWith(MakeRecord(e).value.link, CatalogueBase) && MakeRecord(e).value.link[|CatalogueBase|..] == e.href
  {
  }

  /** A built record's price text has no pound sign and, like its
      availability text, no surrounding whitespace. */
  lemma MakeRecordTexts(e: Entry)
    requires MakeRecord(e).Some?
    ensures '£' !in MakeRecord(e).value.price && Stripped(MakeRecord(e).value.price)
    ensures Stripped(MakeRecord(e).value.availability)
  {
    StripKeepsAbsent(RemovePound(e.priceText), '£');
  }

  /** Both present: the concatenation; otherwise `None`, the exception. */
  function Join(a: Option<seq<RawRecord>>, b: Option<seq<RawRecord>>): Option<seq<RawRecord>> {
    if a.Some? && b.Some? then Some(a.value + b.value) else None
  }

  lemma JoinAssociative(x: Option<seq<RawRecord>>, y: Option<seq<RawRecord>>, z: Option<seq<RawRecord>>)
    ensures Join(Join(x, y), z) == Join(x, Join(y, z))
  {
    if x.Some? && y.Some? && z.Some? {
      assert x.value + y.value + z.value == x.value + (y.value + z.value);
    }
  }

  /** The records of one page's entries, one per entry in document order,
      or `None` when some entry raises. */
  function PageRecords(es: seq<Entry>): (r: Option<seq<RawRecord>>)
    ensures r.Some? ==> |r.value| == |es|
  {
    MapAll(es, MakeRecord)
  }

  /** A page's records exist exactly when every entry builds, and then they
      are the entries' records in document order. */
  lemma PageRecordsSpec(es: seq<Entry>)
    ensures PageRecords(es).Some? <==> forall j :: 0 <= j < |es| ==> MakeRecord(es[j]).Some?
    ensures PageRecords(es).Some? ==> forall j :: 0 <= j < |es| ==> PageRecords(es).value[j] == MakeRecord(es[j]).value
  {
    MapAllSpec(es, MakeRecord);
  }

  /** What one page adds: nothing when its status is not 200. */
  function PageContribution(r: Response): (c: Option<seq<RawRecord>>)
    ensures r.status != 200 ==> c == Some([])
    ensures c.Some? ==> |c.value| == if r.status == 200 then |r.entries| else 0
  {
    if r.status != 200 then Some([]) else PageRecords(r.entries)
  }

  /** The number of entries on the pages that answered with status 200. */
  function OkEntryCount(rs: seq<Response>): nat {
    if rs == [] then 0
    else OkEntryCount(rs[..|rs| - 1]) + (if rs[|rs| - 1].status == 200 then |rs[|rs| - 1].entries| else 0)
  }

  /** `all_books` after processing the responses `rs` in order, or `None`
      when processing them raises. */
  function Scrape(rs: seq<Response>): (r: Option<seq<RawRecord>>)
    ensures r.Some? ==> |r.value| == OkEntryCount(rs)
  {
    if rs == [] then Some([])
    else Join(Scrape(rs[..|rs| - 1]), PageContribution(rs[|rs| - 1]))
  }

  /** Processing raises exactly when some page's contribution raises. */
  lemma {:induction false} ScrapeSomeIff(rs: seq<Response>)
    ensures Scrape(rs).Some? <==> forall k :: 0 <= k < |rs| ==> PageContribution(rs[k]).Some?
  {
    if rs != [] {
      var n := |rs| - 1;
      ScrapeSomeIff(rs[..n]);
      assert forall k :: 0 <= k < n ==> rs[..n][k] == rs[k];
    }
  }

  /** Processing one more page joins its contribution to the records so far. */
  lemma ScrapeStep(rs: seq<Response>, page: nat)
    requires 1 <= page <= |rs|
    ensures Scrape(rs[..page]) == Join(Scrape(rs[..page - 1]), PageContribution(rs[page - 1]))
  {
    assert rs[..page][..page - 1] == rs[..page - 1];
  }

  /** `get_book_data`. `responses[p - 1]` is the answer to the request for
      page `p`; `requested` lists the URLs requested, in order, up to the
      page whose processing raised, if any. */
  method GetBookData(responses: seq<Response>) returns (books: Option<seq<RawRecord>>, requested: seq<string>)
    requires |responses| == PageCount
    ensures books == Scrape(responses)
    ensures 1 <= |requested| <= PageCount && requested == PageUrls(|requested|)
    ensures books.Some? ==> |requested| == PageCount
    ensures books.None? ==> Scrape(responses[..|requested|]).None? && Scrape(responses[..|requested| - 1]).Some?
  {
    var allBooks: seq<RawRecord> := [];
    requested := [];
    for page := 1 to PageCount + 1
      invariant requested == PageUrls(page - 1)
      invariant Scrape(responses[..page - 1]) == Some(allBooks)
    {
      requested := requested + [PageUrl(page)];
      var response := responses[page - 1];
      ScrapeStep(responses, page);
      if response.status != 200 {
        assert allBooks + [] == allBooks;
        continue;
      }
      var extended := AppendPageBooks(allBooks, response.entries);
      if extended.None? {
        ScrapePrefixRaises(responses, page);
        books := None;
        return;
      }
      allBooks := extended.value;
    }
    assert responses[..PageCount] == responses;
    books := Some(allBooks);
  }

  /** The inner loop of `get_book_data` (lines 30-47): one record per entry
      appended to `allBooks`, or `None` when building a record raises. */
  method AppendPageBooks(allBooks: seq<RawRecord>, entries: seq<Entry>) returns (extended: Option<seq<RawRecord>>)
    ensures extended == Join(Some(allBooks), PageRecords(entries))
  {
    var books := allBooks;
    ghost var pageBooks: seq<RawRecord> := [];
    for j := 0 to |entries|
      invariant books == allBooks + pageBooks
      invariant PageRecords(entries[..j]) == Some(pageBooks)
    {
      var record := MakeRecord(entries[j]);
      PageRecordsStep(entries, j, pageBooks);
      if record.None? {
        return None;
      }
      books := books + [record.value];
      pageBooks := pageBooks + [record.value];
    }
    assert entries[..|entries|] == entries;
    extended := Some(books);
  }

  /** One more entry either extends the records of the entries before it or
      makes the whole page raise. */
  lemma PageRecordsStep(es: seq<Entry>, j: nat, before: seq<RawRecord>)
    requires j < |es| && PageRecords(es[..j]) == Some(before)
    ensures MakeRecord(es[j]).None? ==> PageRecords(es).None?
    ensures MakeRecord(es[j]).Some? ==> PageRecords(es[..j + 1]) == Some(before + [MakeRecord(es[j]).value])
  {
    MapAllSnoc(es, MakeRecord, j);
    PageRecordsSpec(es);
  }

  /** Once processing some pages raises, processing more pages raises too. */
  lemma ScrapePrefixRaises(rs: seq<Response>, k: nat)
    requires k <= |rs| && Scrape(rs[..k]).None?
    ensures Scrape(rs).None?
  {
    ScrapeSomeIff(rs[..k]);
    var j :| 0 <= j < k && PageContribution(rs[..k][j]).None?;
    assert rs[..k][j] == rs[j];
    ScrapeSomeIff(rs);
  }
  /** Processing pages one after the other: the records of a concatenation
      of responses are the records of each part, in order. */
  lemma {:induction false} ScrapeAppend(a: seq<Response>, b: seq<Response>)
    ensures Scrape(a + b) == Join(Scrape(a), Scrape(b))
  {
    if b == [] {
      assert a + b == a;
      if Scrape(a).Some? {
        assert Scrape(a).value + [] == Scrape(a).value;
      }
    } else {
      var n := |b| - 1;
      assert (a + b)[..|a + b| - 1] == a + b[..n];
      assert (a + b)[|a + b| - 1] == b[n];
      ScrapeAppend(a, b[..n]);
      var x, y, z := Scrape(a), Scrape(b[..n]), PageContribution(b[n]);
      assert Scrape(a + b) == Join(Join(x, y), z);
      assert Scrape(b) == Join(y, z);
      JoinAssociative(x, y, z);
    }
  }

  /** A page that does not answer with status 200 adds nothing: the result is
      that of the other pages alone. */
  lemma ScrapeSkipsFailedPage(rs: seq<Response>, k: nat)
    requires k < |rs| && rs[k].status != 200
    ensures Scrape(rs) == Scrape(rs[..k] + rs[k + 1..])
  {
    SplitAt(rs, k);
    ScrapeSkip(rs[..k], rs[k], rs[k + 1..]);
  }

  lemma ScrapeSkip(before: seq<Response>, r: Response, after: seq<Response>)
    requires r.status != 200
    ensures Scrape(before + ([r] + after)) == Scrape(before + after)
  {
    ScrapeAppend(before, [r] + after);
    ScrapeAppend([r], after);
    ScrapeAppend(before, after);
    ScrapeSingle(r);
    assert Scrape([r] + after) == Scrape(after) by {
      if Scrape(after).Some? {
        assert [] + Scrape(after).value == Scrape(after).value;
      }
    }
  }

  /** Processing a single response gives its contribution. */
  lemma ScrapeSingle(r: Response)
    ensures Scrape([r]) == PageContribution(r)
  {
    assert [r][..0] == [];
    if PageContribution(r).Some? {
      assert [] + PageContribution(r).value == PageContribution(r).value;
    }
  }

  /** Every scraped record was built from an entry of a page that answered
      with status 200. */
  lemma {:induction false} ScrapeOrigin(rs: seq<Response>, i: nat)
    requires Scrape(rs).Some? && i < |Scrape(rs).value|
    ensures exists k, j :: 0 <= k < |rs| && rs[k].status == 200 && 0 <= j < |rs[k].entries|
              && MakeRecord(rs[k].entries[j]) == Some(Scrape(rs).value[i])
  {
    var n := |rs| - 1;
    var init := Scrape(rs[..n]).value;
    var last := PageContribution(rs[n]).value;
    assert Scrape(rs).value == init + last;
    if i < |init| {
      ScrapeOrigin(rs[..n], i);
      var k, j :| 0 <= k < n && rs[..n][k].status == 200 && 0 <= j < |rs[..n][k].entries|
                  && MakeRecord(rs[..n][k].entries[j]) == Some(init[i]);
      assert rs[..n][k] == rs[k];
    } else {
      var j := i - |init|;
      assert rs[n].status == 200 && last == PageRecords(rs[n].entries).value;
      PageRecordsSpec(rs[n].entries);
      assert MakeRecord(rs[n].entries[j]) == Some(last[j]);
    }
  }

  /** Every scraped record links into the catalogue, and its price and
      availability texts carry no pound sign and no surrounding whitespace. */
  lemma ScrapedRecord(rs: seq<Response>, i: nat)
    requires Scrape(rs).Some? && i < |Scrape(rs).value|
    ensures StartsWith(Scrape(rs).value[i].link, CatalogueBase)
    ensures '£' !in Scrape(rs).value[i].price && Stripped(Scrape(rs).value[i].price)
    ensures Stripped(Scrape(rs).value[i].availability)
  {
    ScrapeOrigin(rs, i);
    var k, j :| 0 <= k < |rs| && rs[k].status == 200 && 0 <= j < |rs[k].entries|
                && MakeRecord(rs[k].entries[j]) == Some(Scrape(rs).value[i]);
    MakeRecordLink(rs[k].entries[j]);
    MakeRecordTexts(rs[k].entries[j]);
  }

  /** The pound sign of a catalogue price goes. */
  lemma RemovePoundExample()
    ensures RemovePound("£51.77") == "51.77"
  {
    assert "£51.77"[1..] == "51.77";
    KeepAll("51.77", c => c != '£');
  }

  /** A product entry as the catalogue serves it. */
  lemma MakeRecordExample()
    ensures MakeRecord(Entry("A Light in the Attic", "£51.77", "\n In stock\n",
                             Some(["star-rating", "Three"]), "a-light-in-the-attic_1000/index.html"))
            == Some(RawRecord("A Light in the Attic", "51.77", "In stock", "Three",
                              CatalogueBase + "a-light-in-the-attic_1000/index.html"))
  {
    RemovePoundExample();
    StripExample();
    StripUnchangedExample();
  }
}

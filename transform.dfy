/** The transform stage (`transform_data` in scripts/transform.py): raw rows
    with possibly missing cells become cleaned book rows. The source works
    column by column on a table; here a table is a sequence of rows, the
    column step is `Normalize` applied to every row, and `dropna` is `DropNa`. */
module Transform {
  import opened Text

  /** An exact decimal number, `mantissa / 10^scale`; it stands for the float
      `pd.to_numeric` would produce. */
  datatype Decimal = Decimal(mantissa: int, scale: nat)

  /** One row of the raw table; `None` is a missing (NaN) cell. */
  datatype RawRow = RawRow(
    title: Option<string>,
    price: Option<string>,
    availability: Option<string>,
    rating: Option<string>,
    link: Option<string>)

  /** A row after the derived columns are computed and the availability and
      rating columns are dropped, before missing values are purged. */
  datatype NormalizedRow = NormalizedRow(
    title: Option<string>,
    price: Option<Decimal>,
    link: Option<string>,
    inStock: bool,
    ratingNumber: Option<int>)

  /** One row of the processed table. */
  datatype Book = Book(title: string, price: Decimal, link: string, inStock: bool, ratingNumber: int)

  // ---------------------------------------------------------------- price

  predicate IsPriceChar(c: char) {
    IsDigit(c) || c == '.'
  }

  /** `astype(str)` on line 21: present text is kept as it is, and a missing
      cell is printed as "nan", which holds no digit and no point. */
  function PriceCellText(cell: Option<string>): (t: string)
    ensures cell.Some? ==> t == cell.value
    ensures cell.None? ==> forall i :: 0 <= i < |t| ==> !IsPriceChar(t[i])
  {
    match cell
    case None => "nan"
    case Some(s) => s
  }

  /** The regex replacement on line 21: every character other than a digit
      or a point is deleted. */
  function CleanPriceText(s: string): (r: string)
    ensures forall i :: 0 <= i < |r| ==> IsPriceChar(r[i])
  {
    Keep(s, IsPriceChar)
  }

  /** Index of the first `c` in `s`, or `|s|` when there is none. */
  function IndexOf(s: string, c: char): (k: nat)
    ensures k <= |s|
    ensures k < |s| ==> s[k] == c
    ensures forall i :: 0 <= i < k ==> s[i] != c
  {
    if s == [] || s[0] == c then 0 else 1 + IndexOf(s[1..], c)
  }

  /** An unsigned decimal: digits, optionally one point and more digits,
      with at least one digit in all. */
  function ParseUnsigned(s: string): (r: Option<Decimal>)
    ensures r.Some? ==> r.value.mantissa >= 0
    ensures r.Some? ==> exists i :: 0 <= i < |s| && IsDigit(s[i])
  {
    var k := IndexOf(s, '.');
    var whole := s[..k];
    var frac := if k < |s| then s[k + 1..] else [];
    if AllDigits(whole) && AllDigits(frac) && |whole| + |frac| > 0 then
      assert |whole| > 0 ==> IsDigit(s[0]);
      assert |frac| > 0 ==> IsDigit(s[k + 1]);
      Some(Decimal(DigitsValue(whole + frac), |frac|))
    else
      None
  }

  /** `pd.to_numeric(..., errors="coerce")` on one string: an optional sign
      followed by an unsigned decimal; anything else coerces to NaN (`None`). */
  function ToNumeric(s: string): (r: Option<Decimal>)
    ensures r.Some? && r.value.mantissa < 0 ==> |s| > 0 && s[0] == '-'
  {
    if |s| > 0 && (s[0] == '-' || s[0] == '+') then
      match ParseUnsigned(s[1..])
      case None => None
      case Some(d) => Some(if s[0] == '-' then Decimal(-d.mantissa, d.scale) else d)
    else
      ParseUnsigned(s)
  }

  /** The price column after lines 21-22: cleaned, then coerced. Cleaning
      removes every sign, so a parsed price is never negative. */
  function ParsePrice(cell: Option<string>): (r: Option<Decimal>)
    ensures r.Some? ==> r.value.mantissa >= 0
  {
    ToNumeric(CleanPriceText(PriceCellText(cell)))
  }

  /** The digits of `d.mantissa`, with leading zeros up to `d.scale + 1` digits. */
  function PaddedDigits(d: Decimal): (p: string)
    requires d.mantissa >= 0
    ensures |p| > d.scale && AllDigits(p)
    ensures DigitsValue(p) == d.mantissa
  {
    var digits := NatDigits(d.mantissa);
    NatDigitsRoundTrip(d.mantissa);
    if |digits| <= d.scale then
      LeadingZerosValue(d.scale + 1 - |digits|, digits);
      Zeros(d.scale + 1 - |digits|) + digits
    else
      digits
  }

  /** The decimal text for `d` with exactly `d.scale` fraction digits (a `0`
      before the point when needed). */
  function Render(d: Decimal): (s: string)
    requires d.mantissa >= 0
    ensures |s| > 0 && IsDigit(s[0])
    ensures forall i :: 0 <= i < |s| ==> IsPriceChar(s[i])
  {
    var padded := PaddedDigits(d);
    var cut := |padded| - d.scale;
    if d.scale == 0 then padded else padded[..cut] + "." + padded[cut..]
  }

  // ---------------------------------------------------------------- availability

  /** Lines 26-28: the row is in stock when its availability text contains
      "In stock". */
  function InStock(availability: string): (b: bool)
    ensures b <==> exists k :: OccursAt(availability, "In stock", k)
  {
    ContainsIff(availability, "In stock");
    Contains(availability, "In stock")
  }

  // ---------------------------------------------------------------- rating

  const RatingMap: map<string, int> := map["One" := 1, "Two" := 2, "Three" := 3, "Four" := 4, "Five" := 5]

  /** Line 39, mapping the rating column through the rating map: an
      unmapped or missing word gives NaN. */
  function RatingNumber(word: Option<string>): (r: Option<int>)
    ensures r.Some? ==> 1 <= r.value <= 5
  {
    if word.Some? && word.value in RatingMap then Some(RatingMap[word.value]) else None
  }

  /** The word for a star count, the inverse of the rating map. */
  function RatingLabel(n: int): string
    requires 1 <= n <= 5
  {
    ["One", "Two", "Three", "Four", "Five"][n - 1]
  }

  // ---------------------------------------------------------------- rows and table

  predicate AvailabilityPresent(rows: seq<RawRow>) {
    forall i :: 0 <= i < |rows| ==> rows[i].availability.Some?
  }

  /** Lines 21-42 on one row: derived columns computed, source columns dropped. */
  function Normalize(row: RawRow): (n: NormalizedRow)
    requires row.availability.Some?
    ensures n.title == row.title && n.link == row.link
    ensures n.price.Some? ==> n.price.value.mantissa >= 0
    ensures n.inStock <==> exists k :: OccursAt(row.availability.value, "In stock", k)
    ensures n.ratingNumber.Some? ==> 1 <= n.ratingNumber.value <= 5
  {
    NormalizedRow(row.title, ParsePrice(row.price), row.link,
                  InStock(row.availability.value), RatingNumber(row.rating))
  }

  /** The row as a complete book, or `None` when any cell is missing. */
  function DropMissing(n: NormalizedRow): (b: Option<Book>)
    ensures b.Some? <==> n.title.Some? && n.price.Some? && n.link.Some? && n.ratingNumber.Some?
    ensures b.Some? ==> Some(b.value.title) == n.title && Some(b.value.price) == n.price
                        && Some(b.value.link) == n.link && b.value.inStock == n.inStock
                        && Some(b.value.ratingNumber) == n.ratingNumber
  {
    if n.title.Some? && n.price.Some? && n.link.Some? && n.ratingNumber.Some? then
      Some(Book(n.title.value, n.price.value, n.link.value, n.inStock, n.ratingNumber.value))
    else
      None
  }

  /** The normalized table: `Normalize` on every row, in order. */
  function Normalized(rows: seq<RawRow>): (ns: seq<NormalizedRow>)
    requires AvailabilityPresent(rows)
    ensures |ns| == |rows|
  {
    seq(|rows|, i requires 0 <= i < |rows| => Normalize(rows[i]))
  }

  /** Line 45, `df.dropna()`: the complete rows, in order. */
  function DropNa(ns: seq<NormalizedRow>): (r: seq<Book>)
    ensures |r| <= |ns|
    ensures forall j :: 0 <= j < |r| ==> exists i :: 0 <= i < |ns| && DropMissing(ns[i]) == Some(r[j])
  {
    if ns == [] then []
    else
      var init := DropNa(ns[..|ns| - 1]);
      var last := ns[|ns| - 1];
      assert forall i :: 0 <= i < |ns| - 1 ==> ns[..|ns| - 1][i] == ns[i];
      match DropMissing(last)
      case Some(b) => init + [b]
      case None => init
  }

  /** `transform_data`: normalize every row, then purge incomplete rows. */
  function TransformData(rows: seq<RawRow>): (r: seq<Book>)
    requires AvailabilityPresent(rows)
    ensures |r| <= |rows|
    ensures forall j :: 0 <= j < |r| ==> 1 <= r[j].ratingNumber <= 5 && r[j].price.mantissa >= 0
  {
    DropNa(Normalized(rows))
  }

  // ---------------------------------------------------------------- the row-level view

  /** A raw row reaches the processed table exactly when its title and link
      are present, its price parses and its rating label maps. */
  predicate Survives(row: RawRow) {
    row.title.Some? && row.link.Some? && ParsePrice(row.price).Some? && RatingNumber(row.rating).Some?
  }

  /** The processed row for a surviving raw row. */
  function Cleaned(row: RawRow): Book
    requires row.availability.Some? && Survives(row)
  {
    Book(row.title.value, ParsePrice(row.price).value, row.link.value,
         InStock(row.availability.value), RatingNumber(row.rating).value)
  }

  /** Positions of the surviving rows, in increasing order. */
  function SurvivorIndices(rows: seq<RawRow>): (idx: seq<nat>)
  {
    Positions(rows, Survives)
  }

  // ---------------------------------------------------------------- price properties

  /** Cleaning already cleaned price text returns it unchanged. */
  lemma CleanPriceIdempotent(s: string)
    ensures CleanPriceText(CleanPriceText(s)) == CleanPriceText(s)
  {
    KeepIdempotent(s, IsPriceChar);
  }

  /** The cleaned text keeps exactly the digits and points of the input, in
      their original order. */
  lemma CleanPriceKeepsPriceChars(a: string, b: string, c: char)
    ensures CleanPriceText(a + b) == CleanPriceText(a) + CleanPriceText(b)
    ensures c in CleanPriceText(a) <==> c in a && IsPriceChar(c)
  {
    KeepAppend(a, b, IsPriceChar);
    KeepMembership(a, IsPriceChar, c);
  }

  /** Parsing the cleaned text of a cell gives the same price as the cell. */
  lemma ParsePriceOfCleaned(s: string)
    ensures ParsePrice(Some(CleanPriceText(s))) == ParsePrice(Some(s))
  {
    CleanPriceIdempotent(s);
  }

  /** A missing price stays missing: "nan" loses every letter and the empty
      text coerces to NaN. */
  lemma MissingPriceStaysMissing()
    ensures ParsePrice(None) == None
  {
    assert CleanPriceText("nan") == [] by {
      assert "nan"[1..] == "an" && "an"[1..] == "n" && "n"[1..] == [];
    }
  }

  predicate HasDigit(s: string) {
    exists i :: 0 <= i < |s| && IsDigit(s[i])
  }

  predicate AtMostOneDot(s: string) {
    forall i, j :: 0 <= i < j < |s| && s[i] == '.' ==> s[j] != '.'
  }

  /** On text made of digits and points, coercion succeeds exactly when
      there is at least one digit and at most one point: empty text, a lone
      point and text with two points all give no price. */
  lemma CleanTextParsesIff(t: string)
    requires forall i :: 0 <= i < |t| ==> IsPriceChar(t[i])
    ensures ToNumeric(t).Some? <==> HasDigit(t) && AtMostOneDot(t)
  {
    assert ToNumeric(t) == ParseUnsigned(t);
    var k := IndexOf(t, '.');
    var whole := t[..k];
    assert AllDigits(whole);
    if k == |t| {
      assert AtMostOneDot(t);
      assert HasDigit(t) <==> |t| > 0;
    } else {
      var frac := t[k + 1..];
      if AllDigits(frac) {
        forall i, j | 0 <= i < j < |t| && t[i] == '.'
          ensures t[j] != '.'
        {
          assert i == k;
          assert t[j] == frac[j - k - 1];
        }
        if HasDigit(t) {
          var i :| 0 <= i < |t| && IsDigit(t[i]);
          assert i != k;
        }
        if |whole| + |frac| > 0 {
          if |whole| > 0 { assert IsDigit(t[0]); } else { assert IsDigit(t[k + 1]); }
        }
      } else {
        var j :| 0 <= j < |frac| && !IsDigit(frac[j]);
        assert t[k + 1 + j] == '.';
      }
    }
  }

  /** A plain digit string coerces to its integer value. */
  lemma ParseUnsignedDigits(p: string)
    requires |p| > 0 && AllDigits(p)
    ensures ParseUnsigned(p) == Some(Decimal(DigitsValue(p), 0))
  {
    assert IndexOf(p, '.') == |p|;
    assert p[..|p|] + [] == p;
  }

  /** Digits, one point and more digits coerce to the value of all the
      digits, scaled by the number of digits after the point. */
  lemma ParseUnsignedPoint(whole: string, frac: string)
    requires |whole| > 0 && |frac| > 0 && AllDigits(whole) && AllDigits(frac)
    ensures AllDigits(whole + frac)
    ensures ParseUnsigned(whole + "." + frac) == Some(Decimal(DigitsValue(whole + frac), |frac|))
  {
    var s := whole + "." + frac;
    var k := |whole|;
    assert s[..k] == whole && s[k + 1..] == frac && s[k] == '.';
    IndexOfFirst(s, '.', k);
  }

  /** The first occurrence is found. */
  lemma IndexOfFirst(s: string, c: char, k: nat)
    requires k < |s| && s[k] == c && c !in s[..k]
    ensures IndexOf(s, c) == k
  {
  }

  /** Text that starts with a digit carries no sign. */
  lemma ToNumericUnsigned(s: string)
    requires |s| > 0 && IsDigit(s[0])
    ensures ToNumeric(s) == ParseUnsigned(s)
  {
  }

  /** Coercion reads back every non-negative decimal from its text. */
  lemma RenderRoundTrip(d: Decimal)
    requires d.mantissa >= 0
    ensures ToNumeric(Render(d)) == Some(d)
  {
    var padded := PaddedDigits(d);
    var s := Render(d);
    ToNumericUnsigned(s);
    if d.scale == 0 {
      assert s == padded;
      ParseUnsignedDigits(padded);
    } else {
      var cut := |padded| - d.scale;
      var whole, frac := padded[..cut], padded[cut..];
      assert s == whole + "." + frac;
      assert whole + frac == padded;
      ParseUnsignedPoint(whole, frac);
    }
  }

  /** A price cell that already holds a normalized decimal parses to it:
      normalizing normalized text is the identity on values. */
  lemma ParsePriceRendered(d: Decimal)
    requires d.mantissa >= 0
    ensures ParsePrice(Some(Render(d))) == Some(d)
  {
    KeepAll(Render(d), IsPriceChar);
    RenderRoundTrip(d);
  }

  // ---------------------------------------------------------------- availability and rating properties

  /** The test is case-sensitive: a lower-case "in stock" does not count. */
  lemma InStockCaseSensitive()
    ensures InStock("In stock (19 available)")
    ensures !InStock("in stock")
  {
    assert OccursAt("In stock (19 available)", "In stock", 0) by {
      assert "In stock (19 available)"[0..8] == "In stock";
    }
    assert "in stock"[0] != "In stock"[0];
  }

  /** The rating map sends each of the five words to its position. */
  lemma RatingLabelRoundTrip(n: int)
    requires 1 <= n <= 5
    ensures RatingNumber(Some(RatingLabel(n))) == Some(n)
  {
  }

  /** Only the five words map, and each maps back to its own word; a
      missing label and the literal "None" stay unmapped. */
  lemma RatingNumberInverse(word: string)
    ensures RatingNumber(Some(word)).Some? ==> RatingLabel(RatingNumber(Some(word)).value) == word
    ensures RatingNumber(Some("None")) == None && RatingNumber(None) == None
  {
  }

  // ---------------------------------------------------------------- table properties

  /** Normalizing a row and purging missing cells keeps it exactly when it
      survives, and then yields its cleaned form. */
  lemma NormalizeThenDrop(row: RawRow)
    requires row.availability.Some?
    ensures DropMissing(Normalize(row)) == if Survives(row) then Some(Cleaned(row)) else None
  {
  }

  /** The processed table is the cleaned form of the surviving rows, in
      their original order. */
  lemma {:induction false} TransformSelects(rows: seq<RawRow>)
    requires AvailabilityPresent(rows)
    ensures |TransformData(rows)| == |SurvivorIndices(rows)|
    ensures forall j :: 0 <= j < |TransformData(rows)| ==>
              TransformData(rows)[j] == Cleaned(rows[SurvivorIndices(rows)[j]])
  {
    if rows != [] {
      var n := |rows| - 1;
      var init := rows[..n];
      TransformSelects(init);
      TransformSnoc(rows);
      var prev, prevIdx := TransformData(init), SurvivorIndices(init);
      assert SurvivorIndices(rows) == if Survives(rows[n]) then prevIdx + [n] else prevIdx;
      forall j | 0 <= j < |prev|
        ensures TransformData(rows)[j] == Cleaned(rows[SurvivorIndices(rows)[j]])
      {
        assert init[prevIdx[j]] == rows[prevIdx[j]];
      }
    }
  }

  /** One more raw row adds its cleaned form to the processed table exactly
      when it survives. */
  lemma TransformSnoc(rows: seq<RawRow>)
    requires AvailabilityPresent(rows) && rows != []
    ensures var n := |rows| - 1;
            AvailabilityPresent(rows[..n]) && Survives(rows[n]) ==> TransformData(rows) == TransformData(rows[..n]) + [Cleaned(rows[n])]
    ensures var n := |rows| - 1;
            AvailabilityPresent(rows[..n]) && !Survives(rows[n]) ==> TransformData(rows) == TransformData(rows[..n])
  {
    var n := |rows| - 1;
    var ns := Normalized(rows);
    assert forall i :: 0 <= i < n ==> rows[..n][i] == rows[i];
    assert ns[..n] == Normalized(rows[..n]);
    assert ns[n] == Normalize(rows[n]);
    NormalizeThenDrop(rows[n]);
  }

  /** A raw row is represented in the processed table exactly when it survives. */
  lemma SurvivorIndicesIff(rows: seq<RawRow>, i: nat)
    ensures i in SurvivorIndices(rows) <==> i < |rows| && Survives(rows[i])
  {
  }

  /** No row is lost exactly when every row survives. */
  lemma TransformKeepsAllIff(rows: seq<RawRow>)
    requires AvailabilityPresent(rows)
    ensures |TransformData(rows)| == |rows| <==> forall i :: 0 <= i < |rows| ==> Survives(rows[i])
  {
    TransformSelects(rows);
    PositionsFull(rows, Survives);
  }

  /** The price of the worked example: the pound sign goes, 51.77 remains. */
  lemma PriceExample()
    ensures ParsePrice(Some("£51.77")) == Some(Decimal(5177, 2))
  {
    CleanPriceExample();
    assert DigitsValue("5177") == 5177 by {
      assert "5177"[..3] == "517" && "517"[..2] == "51" && "51"[..1] == "5";
    }
    assert "51" + "." + "77" == "51.77" && "51" + "77" == "5177";
    ParseUnsignedPoint("51", "77");
    ToNumericUnsigned("51.77");
  }

  /** Cleaning drops the pound sign and keeps digits and the point. */
  lemma CleanPriceExample()
    ensures CleanPriceText("£51.77") == "51.77"
  {
    assert "£51.77"[1..] == "51.77";
    KeepAll("51.77", IsPriceChar);
  }

  /** The worked example: one complete row with a pound sign in its price. */
  lemma TransformExample()
    ensures TransformData([RawRow(Some("A"), Some("£51.77"), Some("In stock (19 available)"),
                                  Some("Three"), Some("http://x/a"))])
            == [Book("A", Decimal(5177, 2), "http://x/a", true, 3)]
  {
    var row := RawRow(Some("A"), Some("£51.77"), Some("In stock (19 available)"), Some("Three"), Some("http://x/a"));
    PriceExample();
    assert InStock("In stock (19 available)") by {
      assert StartsWith("In stock (19 available)", "In stock");
    }
    assert Survives(row);
    var ns := Normalized([row]);
    assert ns == [Normalize(row)] && ns[..0] == [];
    NormalizeThenDrop(row);
  }
}

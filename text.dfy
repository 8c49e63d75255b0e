/** String and digit helpers shared by the extract and transform stages:
    the pieces of Python's `str` behaviour the pipeline relies on. */
module Text {

  /** A value that may be missing (a `None`/NaN cell). */
  datatype Option<+T> = None | Some(value: T)

  predicate IsDigit(c: char) {
    '0' <= c <= '9'
  }

  predicate AllDigits(s: string) {
    forall i :: 0 <= i < |s| ==> IsDigit(s[i])
  }

  function DigitValue(c: char): (d: nat)
    requires IsDigit(c)
    ensures d < 10
  {
    c as int - '0' as int
  }

  function DigitChar(d: nat): (c: char)
    requires d < 10
    ensures IsDigit(c) && DigitValue(c) == d
  {
    ('0' as int + d) as char
  }

  /** The characters Python's `str.isspace` accepts: those `str.strip()`
      removes. */
  const SpaceChars: set<char> := {
    '\t', '\n', '\U{0B}', '\U{0C}', '\r', '\U{1C}', '\U{1D}', '\U{1E}', '\U{1F}', ' ',
    '\U{85}', '\U{A0}', '\U{1680}',
    '\U{2000}', '\U{2001}', '\U{2002}', '\U{2003}', '\U{2004}', '\U{2005}',
    '\U{2006}', '\U{2007}', '\U{2008}', '\U{2009}', '\U{200A}',
    '\U{2028}', '\U{2029}', '\U{202F}', '\U{205F}', '\U{3000}'
  }

  predicate IsSpace(c: char) {
    c in SpaceChars
  }

  /** The characters of `s` that satisfy `p`, in their original order
      (a character-class regex replacement by the empty string). */
  function Keep(s: string, p: char -> bool): (r: string)
    ensures |r| <= |s|
    ensures forall i :: 0 <= i < |r| ==> p(r[i])
  {
    if s == [] then [] else (if p(s[0]) then [s[0]] else []) + Keep(s[1..], p)
  }

  /** Keep works character by character: filtering a concatenation is the
      concatenation of the filtered parts, so order is preserved. */
  lemma {:induction false} KeepAppend(a: string, b: string, p: char -> bool)
    ensures Keep(a + b, p) == Keep(a, p) + Keep(b, p)
  {
    if a == [] {
      assert a + b == b;
    } else {
      assert (a + b)[0] == a[0] && (a + b)[1..] == a[1..] + b;
      KeepAppend(a[1..], b, p);
      calc {
        Keep(a + b, p);
        (if p(a[0]) then [a[0]] else []) + Keep(a[1..] + b, p);
        (if p(a[0]) then [a[0]] else []) + (Keep(a[1..], p) + Keep(b, p));
      }
    }
  }

  /** Text made only of kept characters passes through unchanged. */
  lemma {:induction false} KeepAll(s: string, p: char -> bool)
    requires forall i :: 0 <= i < |s| ==> p(s[i])
    ensures Keep(s, p) == s
  {
    if s != [] {
      KeepAll(s[1..], p);
    }
  }

  /** Filtering twice is filtering once. */
  lemma KeepIdempotent(s: string, p: char -> bool)
    ensures Keep(Keep(s, p), p) == Keep(s, p)
  {
    KeepAll(Keep(s, p), p);
  }

  /** A character of `s` is in the filtered text exactly when it is kept. */
  lemma {:induction false} KeepMembership(s: string, p: char -> bool, c: char)
    ensures c in Keep(s, p) <==> c in s && p(c)
  {
    if s != [] {
      KeepMembership(s[1..], p, c);
      assert s == [s[0]] + s[1..];
    }
  }

  /** The number of whitespace characters `s` starts with. */
  function LeadingSpaces(s: string): (n: nat)
    ensures n <= |s|
  {
    if s != [] && IsSpace(s[0]) then 1 + LeadingSpaces(s[1..]) else 0
  }

  /** `LeadingSpaces` counts the whole whitespace run at the start and no more. */
  lemma {:induction false} LeadingSpacesSpec(s: string)
    ensures forall i :: 0 <= i < LeadingSpaces(s) ==> IsSpace(s[i])
    ensures LeadingSpaces(s) < |s| ==> !IsSpace(s[LeadingSpaces(s)])
  {
    if s != [] && IsSpace(s[0]) {
      LeadingSpacesSpec(s[1..]);
      forall i | 1 <= i < LeadingSpaces(s)
        ensures IsSpace(s[i])
      {
        assert s[i] == s[1..][i - 1];
      }
    }
  }

  /** The number of whitespace characters `s` ends with. */
  function TrailingSpaces(s: string): (n: nat)
    ensures n <= |s|
  {
    if s != [] && IsSpace(s[|s| - 1]) then 1 + TrailingSpaces(s[..|s| - 1]) else 0
  }

  /** `TrailingSpaces` counts the whole whitespace run at the end and no more. */
  lemma {:induction false} TrailingSpacesSpec(s: string)
    ensures forall i :: |s| - TrailingSpaces(s) <= i < |s| ==> IsSpace(s[i])
    ensures TrailingSpaces(s) < |s| ==> !IsSpace(s[|s| - 1 - TrailingSpaces(s)])
  {
    if s != [] && IsSpace(s[|s| - 1]) {
      var init := s[..|s| - 1];
      TrailingSpacesSpec(init);
      forall i | |s| - TrailingSpaces(s) <= i < |s| - 1
        ensures IsSpace(s[i])
      {
        assert s[i] == init[i];
      }
    }
  }

  /** Neither starts nor ends with whitespace. */
  predicate Stripped(s: string) {
    s == [] || (!IsSpace(s[0]) && !IsSpace(s[|s| - 1]))
  }

  /** Python's `str.strip()`: leading and trailing whitespace removed. */
  function Strip(s: string): (r: string)
    ensures |r| <= |s| && Stripped(r)
  {
    var rest := s[LeadingSpaces(s)..];
    LeadingSpacesSpec(s);
    TrailingSpacesSpec(rest);
    rest[..|rest| - TrailingSpaces(rest)]
  }

  /** What `Strip` keeps is one contiguous run of its input, starting after
      the leading whitespace. */
  lemma StripIsSlice(s: string)
    ensures LeadingSpaces(s) + |Strip(s)| <= |s|
    ensures forall i :: 0 <= i < |Strip(s)| ==> Strip(s)[i] == s[LeadingSpaces(s) + i]
  {
    var lo := LeadingSpaces(s);
    var rest := s[lo..];
    assert Strip(s) == rest[..|rest| - TrailingSpaces(rest)];
  }

  /** Everything `Strip` cuts on either side of what it keeps is whitespace. */
  lemma StripCutsSpaces(s: string)
    ensures LeadingSpaces(s) + |Strip(s)| <= |s|
    ensures forall i :: 0 <= i < LeadingSpaces(s) ==> IsSpace(s[i])
    ensures forall i :: LeadingSpaces(s) + |Strip(s)| <= i < |s| ==> IsSpace(s[i])
  {
    var lo := LeadingSpaces(s);
    var rest := s[lo..];
    var t := TrailingSpaces(rest);
    assert |Strip(s)| == |rest| - t;
    LeadingSpacesSpec(s);
    TrailingSpacesSpec(rest);
    forall i | lo + |rest| - t <= i < |s|
      ensures IsSpace(s[i])
    {
      assert s[i] == rest[i - lo];
    }
  }

  /** Stripping removes characters and adds none. */
  lemma StripKeepsAbsent(s: string, c: char)
    requires c !in s
    ensures c !in Strip(s)
  {
    StripIsSlice(s);
    var lo := LeadingSpaces(s);
    var r := Strip(s);
    forall i | 0 <= i < |r|
      ensures r[i] != c
    {
      assert s[lo + i] in s;
    }
  }

  /** Stripping already stripped text changes nothing. */
  lemma StripIdempotent(s: string)
    ensures Strip(Strip(s)) == Strip(s)
  {
    var r := Strip(s);
    assert LeadingSpaces(r) == 0;
    assert r[0..] == r;
    assert TrailingSpaces(r) == 0;
  }

  /** The surrounding newlines and spaces of a paragraph's text go. */
  lemma StripExample()
    ensures Strip("\n In stock\n") == "In stock"
  {
    var a := "\n In stock\n";
    LeadingSpacesExample();
    assert a[2..] == "In stock\n";
    TrailingSpacesExample();
  }

  lemma LeadingSpacesExample()
    ensures LeadingSpaces("\n In stock\n") == 2
  {
    var a := "\n In stock\n";
    assert a[1..][1..] == "In stock\n";
    assert !IsSpace('I');
  }

  lemma TrailingSpacesExample()
    ensures TrailingSpaces("In stock\n") == 1
  {
    assert "In stock\n"[..8] == "In stock";
    assert !IsSpace('k');
  }

  /** Text without surrounding whitespace is unchanged. */
  lemma StripUnchangedExample()
    ensures Strip("51.77") == "51.77"
  {
    assert LeadingSpaces("51.77") == 0 && "51.77"[0..] == "51.77";
    assert TrailingSpaces("51.77") == 0;
  }

  predicate StartsWith(s: string, prefix: string) {
    |prefix| <= |s| && s[..|prefix|] == prefix
  }

  /** `needle` occurs in `s` starting at position `k`. */
  predicate OccursAt(s: string, needle: string, k: int) {
    0 <= k && k + |needle| <= |s| && s[k..k + |needle|] == needle
  }

  /** Python's `needle in s` on strings: a case-sensitive substring test. */
  predicate Contains(s: string, needle: string)
    decreases |s|
  {
    StartsWith(s, needle) || (s != [] && Contains(s[1..], needle))
  }

  /** `Contains` holds exactly when `needle` occurs at some position of `s`. */
  lemma {:induction false} ContainsIff(s: string, needle: string)
    ensures Contains(s, needle) <==> exists k :: OccursAt(s, needle, k)
    decreases |s|
  {
    if StartsWith(s, needle) {
      assert OccursAt(s, needle, 0);
    } else if s != [] {
      ContainsIff(s[1..], needle);
      if Contains(s[1..], needle) {
        var k :| OccursAt(s[1..], needle, k);
        assert s[k + 1..k + 1 + |needle|] == s[1..][k..k + |needle|];
        assert OccursAt(s, needle, k + 1);
      }
      if k :| OccursAt(s, needle, k) {
        assert k != 0;
        assert s[1..][k - 1..k - 1 + |needle|] == s[k..k + |needle|];
        assert OccursAt(s[1..], needle, k - 1);
      }
    }
  }

  /** The value of a string of decimal digits, most significant first. */
  function DigitsValue(s: string): nat
    requires AllDigits(s)
  {
    if s == [] then 0 else DigitsValue(s[..|s| - 1]) * 10 + DigitValue(s[|s| - 1])
  }

  /** Python's `str(n)` for a non-negative integer: no sign, no leading zero. */
  function NatDigits(n: nat): (s: string)
    ensures 1 <= |s| && AllDigits(s)
    ensures |s| > 1 ==> s[0] != '0'
  {
    if n < 10 then [DigitChar(n)] else NatDigits(n / 10) + [DigitChar(n % 10)]
  }

  /** Reading back the digits of `n` gives `n`. */
  lemma {:induction false} NatDigitsRoundTrip(n: nat)
    ensures DigitsValue(NatDigits(n)) == n
  {
    if n >= 10 {
      var s := NatDigits(n);
      assert s[..|s| - 1] == NatDigits(n / 10);
      NatDigitsRoundTrip(n / 10);
    }
  }

  /** Distinct numbers print differently. */
  lemma NatDigitsInjective(m: nat, n: nat)
    requires NatDigits(m) == NatDigits(n)
    ensures m == n
  {
    NatDigitsRoundTrip(m);
    NatDigitsRoundTrip(n);
  }

  function Zeros(k: nat): (s: string)
    ensures |s| == k && AllDigits(s)
    ensures forall i :: 0 <= i < k ==> s[i] == '0'
  {
    if k == 0 then [] else Zeros(k - 1) + ['0']
  }

  /** Leading zeros do not change the value of a digit string. */
  lemma {:induction false} LeadingZerosValue(k: nat, s: string)
    requires AllDigits(s)
    ensures AllDigits(Zeros(k) + s) && DigitsValue(Zeros(k) + s) == DigitsValue(s)
    decreases |s|, k
  {
    var z := Zeros(k) + s;
    if s == [] {
      assert z == Zeros(k);
      if k > 0 {
        assert z[..|z| - 1] == Zeros(k - 1) + [];
        LeadingZerosValue(k - 1, []);
      }
    } else {
      assert z[..|z| - 1] == Zeros(k) + s[..|s| - 1];
      LeadingZerosValue(k, s[..|s| - 1]);
    }
  }

  /** The positions `i` with `p(s[i])`, in increasing order. */
  function Positions<T>(s: seq<T>, p: T -> bool): (idx: seq<nat>)
    ensures |idx| <= |s|
    ensures forall j :: 0 <= j < |idx| ==> idx[j] < |s| && p(s[idx[j]])
    ensures forall j, k :: 0 <= j < k < |idx| ==> idx[j] < idx[k]
    ensures forall i :: 0 <= i < |s| && p(s[i]) ==> i in idx
  {
    if s == [] then []
    else
      var n := |s| - 1;
      var init := Positions(s[..n], p);
      assert forall i :: 0 <= i < n ==> s[..n][i] == s[i];
      if p(s[n]) then init + [n] else init
  }

  /** Every position is selected exactly when every element satisfies `p`. */
  lemma {:induction false} PositionsFull<T>(s: seq<T>, p: T -> bool)
    ensures |Positions(s, p)| == |s| <==> forall i :: 0 <= i < |s| ==> p(s[i])
  {
    if s != [] {
      var n := |s| - 1;
      var init := Positions(s[..n], p);
      PositionsFull(s[..n], p);
      assert forall i :: 0 <= i < n ==> s[..n][i] == s[i];
      if p(s[n]) {
        assert |Positions(s, p)| == |init| + 1;
      } else {
        assert |Positions(s, p)| == |init| <= n;
      }
    }
  }

  /** A sequence is the part before position `k`, its element at `k`, and
      the part after. */
  lemma SplitAt<T>(s: seq<T>, k: nat)
    requires k < |s|
    ensures s == s[..k] + ([s[k]] + s[k + 1..])
  {
  }

  /** `f` applied to every element in order, or `None` as soon as one
      application gives `None` (an exception that stops a loop). */
  function MapAll<A, B>(s: seq<A>, f: A -> Option<B>): (r: Option<seq<B>>)
    ensures r.Some? ==> |r.value| == |s|
  {
    if s == [] then Some([])
    else
      var init := MapAll(s[..|s| - 1], f);
      var last := f(s[|s| - 1]);
      if init.Some? && last.Some? then Some(init.value + [last.value]) else None
  }

  /** `MapAll` succeeds exactly when `f` succeeds on every element, and then
      holds `f`'s results in the order of the elements. */
  lemma {:induction false} MapAllSpec<A, B>(s: seq<A>, f: A -> Option<B>)
    ensures MapAll(s, f).Some? <==> forall j :: 0 <= j < |s| ==> f(s[j]).Some?
    ensures MapAll(s, f).Some? ==> forall j :: 0 <= j < |s| ==> MapAll(s, f).value[j] == f(s[j]).value
  {
    if s != [] {
      var n := |s| - 1;
      MapAllSpec(s[..n], f);
      assert forall j :: 0 <= j < n ==> s[..n][j] == s[j];
    }
  }

  /** Mapping one more element extends the mapped prefix. */
  lemma MapAllSnoc<A, B>(s: seq<A>, f: A -> Option<B>, j: nat)
    requires j < |s|
    ensures MapAll(s[..j + 1], f) ==
            if MapAll(s[..j], f).Some? && f(s[j]).Some? then Some(MapAll(s[..j], f).value + [f(s[j]).value]) else None
  {
    assert s[..j + 1][..j] == s[..j];
  }
}

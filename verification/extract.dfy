/** The pure text extractors of `mysql_compare.py`: the asking price, the
    beds/baths/year-built attributes, the table-name allow-list and the
    zip/city/state parts of a free-text location. Each regular expression of
    the source is hand-written as a matcher at one start position plus
    `Text.Leftmost`, which is Python's `re.search`.
 */
module Extract {

  import opened Wrappers
  import opened Text

  /** A marketplace listing as this engine reads it; a missing field is the
      empty string, which is how every use in the source treats `None`. */
  datatype Listing = Listing(
    id: string,
    title: string,
    description: string,
    price: string,
    location: string,
    postUrl: string)

  // ---------------------------------------------------------------------------
  // _parse_price

  const Unspecified: string := "**unspecified**"

  predicate PriceChar(c: char) { IsDigit(c) || c == '.' }

  /** `re.sub(r"[^\d.,]", "", s.replace(",", ""))`: every character that is
      neither a digit nor a dot is dropped, in order. */
  function CleanPrice(s: string): (r: string)
    ensures |r| <= |s|
    ensures forall i :: 0 <= i < |r| ==> PriceChar(r[i])
    ensures (forall i :: 0 <= i < |s| ==> PriceChar(s[i])) ==> r == s
    decreases |s|
  {
    if |s| == 0 then []
    else (if PriceChar(s[0]) then [s[0]] else []) + CleanPrice(s[1..])
  }

  lemma {:induction false} CleanPriceAppend(a: string, b: string)
    ensures CleanPrice(a + b) == CleanPrice(a) + CleanPrice(b)
    decreases |a|
  {
    if |a| > 0 {
      var head := if PriceChar(a[0]) then [a[0]] else [];
      assert (a + b)[0] == a[0] && (a + b)[1..] == a[1..] + b;
      CleanPriceAppend(a[1..], b);
      assert CleanPrice(a + b) == head + (CleanPrice(a[1..]) + CleanPrice(b));
      assert CleanPrice(a) == head + CleanPrice(a[1..]);
    } else {
      assert a + b == b;
    }
  }

  /** At most one dot and at least one digit: exactly the digit-and-dot
      strings Python's `float()` accepts. */
  predicate DecimalShape(t: string) {
    && (forall i, j :: 0 <= i < j < |t| && t[i] == '.' ==> t[j] != '.')
    && (exists i :: 0 <= i < |t| && IsDigit(t[i]))
  }

  /** Python's `float()` on a string of digits and dots. */
  function ParseDecimal(t: string): (r: Option<real>)
    requires forall i :: 0 <= i < |t| ==> PriceChar(t[i])
    ensures r.Some? <==> DecimalShape(t)
    ensures r.Some? ==> r.value >= 0.0
    ensures r.Some? && '.' !in t ==> AllDigits(t) && r.value == DigitsValue(t) as real
  {
    if '.' !in t then
      DotFreeIsDigits(t);
      if |t| == 0 then None else
      Some(DigitsValue(t) as real)
    else
      var k := IndexOf(t, '.');
      var whole, frac := t[..k], t[k + 1..];
      assert AllDigits(whole) by {
        forall i | 0 <= i < |whole| ensures IsDigit(whole[i]) {
          assert whole[i] in whole && whole[i] == t[i];
          assert whole[i] != '.';
          assert PriceChar(t[i]);
        }
      }
      if '.' in frac then
        var j := IndexOf(frac, '.');
        assert t[k + 1 + j] == '.';
        None
      else if |whole| + |frac| == 0 then
        assert |t| == 1;
        None
      else
        assert AllDigits(frac) by {
          forall i | 0 <= i < |frac| ensures IsDigit(frac[i]) {
            assert frac[i] == t[k + 1 + i] && frac[i] in frac;
            assert frac[i] != '.';
            assert PriceChar(t[k + 1 + i]);
          }
        }
        assert DecimalShape(t) by {
          if |whole| > 0 { assert IsDigit(t[0]); } else { assert IsDigit(t[k + 1]); }
          forall x | 0 <= x < k ensures t[x] != '.' {
            assert t[x] == whole[x] && whole[x] in whole;
          }
          forall x | k < x < |t| ensures t[x] != '.' {
            assert t[x] == frac[x - k - 1] && frac[x - k - 1] in frac;
          }
        }
        Some(DecimalValue(whole, frac))
  }

  /** Whatever `float()` accepts it reads as the decimal its digits spell. */
  lemma ParseDecimalReading(t: string)
    requires forall i :: 0 <= i < |t| ==> PriceChar(t[i])
    ensures ParseDecimal(t).Some? ==> DecimalReading(t, ParseDecimal(t).value)
  {
    if '.' in t && ParseDecimal(t).Some? {
      var k := IndexOf(t, '.');
      assert AllDigits(t[..k]) && AllDigits(t[k + 1..]);
    }
  }

  /** `v` is what `float()` makes of the text `t`: the number its digits
      spell, with the digits after the dot (if any) as a fraction. */
  ghost predicate DecimalReading(t: string, v: real) {
    if '.' in t then
      var k := IndexOf(t, '.');
      && AllDigits(t[..k]) && AllDigits(t[k + 1..])
      && v == DecimalValue(t[..k], t[k + 1..])
    else AllDigits(t) && v == DigitsValue(t) as real
  }

  /** The value of the decimal `whole.frac`: the whole part plus the
      fraction digits divided by ten once per fraction digit. */
  function DecimalValue(whole: string, frac: string): real
    requires AllDigits(whole) && AllDigits(frac)
  {
    DigitsValue(whole) as real + Tenths(DigitsValue(frac), |frac|)
  }

  /** `n` divided by ten `k` times. */
  function Tenths(n: nat, k: nat): (r: real)
    ensures r >= 0.0
    decreases k
  {
    if k == 0 then n as real else Tenths(n, k - 1) / 10.0
  }

  lemma DotFreeIsDigits(t: string)
    requires forall i :: 0 <= i < |t| ==> PriceChar(t[i])
    requires '.' !in t
    ensures AllDigits(t)
    ensures DecimalShape(t) <==> |t| > 0
  {
    forall i | 0 <= i < |t| ensures IsDigit(t[i]) {
      assert t[i] in t;
    }
    if |t| > 0 {
      assert IsDigit(t[0]);
    }
  }

  /** `_parse_price`: `None` for the empty string and the `**unspecified**`
      placeholder; otherwise `float()` of the digits and dots of the text
      (commas and every other character dropped), `None` when that is empty
      or not a decimal. */
  function ParsePrice(s: string): (r: Option<real>)
    ensures s == "" || s == Unspecified ==> r.None?
    ensures r.Some? <==> s != "" && s != Unspecified && DecimalShape(CleanPrice(s))
    ensures r.Some? ==> r.value >= 0.0
  {
    if s == "" || s == Unspecified then None
    else ParseDecimal(CleanPrice(s))
  }

  /** A price is the decimal its cleaned text spells: with a dot, the
      digits before it plus the digits after it as a fraction. */
  lemma ParsePriceReading(s: string)
    ensures ParsePrice(s).Some? ==> DecimalReading(CleanPrice(s), ParsePrice(s).value)
  {
    if ParsePrice(s).Some? {
      ParseDecimalReading(CleanPrice(s));
    }
  }

  /** Without a dot the price is every digit of the text read as one number:
      the digits of a range such as "$30,000 - $32,000" run together. */
  lemma PriceConcatenatesDigits(s: string)
    requires s != "" && s != Unspecified
    requires '.' !in s
    requires exists i :: 0 <= i < |s| && IsDigit(s[i])
    ensures AllDigits(CleanPrice(s))
    ensures ParsePrice(s) == Some(DigitsValue(CleanPrice(s)) as real)
  {
    var i :| 0 <= i < |s| && IsDigit(s[i]);
    var t := CleanPrice(s);
    CleanPriceDotFree(s);
    CleanPriceKeepsDigit(s, i);
    DotFreeIsDigits(t);
  }

  lemma {:induction false} CleanPriceKeepsDigit(s: string, i: nat)
    requires i < |s| && IsDigit(s[i])
    ensures |CleanPrice(s)| > 0
    decreases |s|
  {
    if i > 0 {
      CleanPriceKeepsDigit(s[1..], i - 1);
    }
  }

  lemma {:induction false} CleanPriceDotFree(s: string)
    requires '.' !in s
    ensures '.' !in CleanPrice(s)
    decreases |s|
  {
    if |s| > 0 {
      assert forall c :: c in s[1..] ==> c in s;
      CleanPriceDotFree(s[1..]);
    }
  }

  /** A price range "$A - $B" reads as the digits of A followed by those
      of B: one large number. */
  lemma PriceOfRange(a: string, b: string)
    requires |a| > 0 && AllDigits(a) && |b| > 0 && AllDigits(b)
    ensures ParsePrice("$" + a + " - $" + b) == Some(DigitsValue(a + b) as real)
    ensures DigitsValue(a + b) == DigitsValue(a) * Pow10(|b|) + DigitsValue(b)
  {
    var s := "$" + a + " - $" + b;
    assert s[0] == '$' && Unspecified[0] == '*';
    RangeCleansToDigits(a, b);
    assert ParsePrice(s) == ParseDecimal(a + b);
    DigitsArePriceChars(a + b);
    DotFreeIsDigits(a + b);
    DigitsValueAppend(a, b);
  }

  lemma DigitsArePriceChars(d: string)
    requires AllDigits(d)
    ensures forall k :: 0 <= k < |d| ==> PriceChar(d[k])
    ensures '.' !in d
  {
    assert forall k :: 0 <= k < |d| ==> d[k] != '.';
  }

  lemma RangeCleansToDigits(a: string, b: string)
    requires AllDigits(a) && AllDigits(b)
    ensures CleanPrice("$" + a + " - $" + b) == a + b
  {
    var sep := " - $";
    var tail := sep + b;
    assert "$" + a + " - $" + b == "$" + (a + tail);
    assert CleanPrice(tail) == b by {
      CleanPriceAppend(sep, b);
      DigitsArePriceChars(b);
    }
    assert CleanPrice(a + tail) == a + b by {
      CleanPriceAppend(a, tail);
      DigitsArePriceChars(a);
    }
    CleanPriceAppend("$", a + tail);
  }

  /** A price written as a currency sign and a digit run is that number. */
  lemma {:induction false} PriceOfDigits(d: string)
    requires |d| > 0 && AllDigits(d)
    ensures ParsePrice("$" + d) == Some(DigitsValue(d) as real)
  {
    DigitsArePriceChars(d);
    PriceAfterDollar(d);
    DotFreeIsDigits(d);
  }

  /** A price with a fraction, "$A.C", is A plus C read after the point;
      with two fraction digits that is A plus C hundredths (`Hundredths`). */
  lemma PriceWithCents(a: string, c: string)
    requires AllDigits(a) && AllDigits(c) && |c| > 0
    ensures ParsePrice("$" + a + "." + c) == Some(DecimalValue(a, c))
  {
    var t := a + "." + c;
    assert "$" + a + "." + c == "$" + t;
    DecimalOfParts(a, c);
    PriceAfterDollar(t);
  }

  lemma Hundredths(a: string, c: string)
    requires AllDigits(a) && AllDigits(c) && |c| == 2
    ensures DecimalValue(a, c) == DigitsValue(a) as real + DigitsValue(c) as real / 100.0
  {
    var m := DigitsValue(c);
    assert Tenths(m, 2) == Tenths(m, 1) / 10.0 && Tenths(m, 1) == m as real / 10.0;
  }

  /** After a currency sign, text made only of digits and dots is read
      whole by `float()`. */
  lemma PriceAfterDollar(t: string)
    requires forall k :: 0 <= k < |t| ==> PriceChar(t[k])
    ensures ParsePrice("$" + t) == ParseDecimal(t)
  {
    var s := ['$'] + t;
    assert s != "" && s != Unspecified by {
      assert s[0] == '$' && Unspecified[0] == '*';
    }
    assert CleanPrice(s) == t by {
      CleanPriceSkips('$', t);
    }
  }

  /** A character that is not part of a price is dropped by the cleaning. */
  lemma CleanPriceSkips(c: char, t: string)
    requires !PriceChar(c)
    ensures CleanPrice([c] + t) == CleanPrice(t)
  {
    assert ([c] + t)[0] == c && ([c] + t)[1..] == t;
  }

  lemma DecimalPriceChars(a: string, c: string)
    requires AllDigits(a) && AllDigits(c)
    ensures forall k :: 0 <= k < |a + "." + c| ==> PriceChar((a + "." + c)[k])
  {
    var t := a + "." + c;
    forall k | 0 <= k < |t| ensures PriceChar(t[k]) {
      if k < |a| { assert t[k] == a[k]; }
      else if k > |a| { assert t[k] == c[k - |a| - 1]; }
    }
  }

  /** `float()` of "A.C" is A plus C read as a fraction. */
  lemma DecimalOfParts(a: string, c: string)
    requires AllDigits(a) && AllDigits(c) && |c| > 0
    ensures forall k :: 0 <= k < |a + "." + c| ==> PriceChar((a + "." + c)[k])
    ensures ParseDecimal(a + "." + c) == Some(DecimalValue(a, c))
  {
    var t := a + "." + c;
    DecimalPriceChars(a, c);
    DigitsArePriceChars(c);
    IndexOfAfter(a, '.', c);
    assert t == a + ['.'] + c;
    assert t[..|a|] == a && t[|a| + 1..] == c;
  }

  /** Rendering a whole number after a currency sign and parsing it back
      gives the number. */
  lemma PriceRoundTrip(n: nat)
    ensures ParsePrice("$" + NatToString(n)) == Some(n as real)
  {
    PriceOfDigits(NatToString(n));
  }

  // ---------------------------------------------------------------------------
  // _parse_beds_baths_year

  /** The attributes the comparable search filters on. */
  datatype Attributes = Attributes(beds: Option<nat>, baths: Option<real>, yearBuilt: Option<nat>)

  /** `(\d+)\s*bed` matched at position `i`, giving the digit group: the
      digit run must be the whole run starting at `i`, because the
      character after it has to be a space or the `b` of `bed`. */
  function BedsAt(t: string, i: nat): (r: Option<string>)
    ensures r.Some? ==> |r.value| > 0 && AllDigits(r.value)
    ensures r.Some? ==> exists j: nat :: BedsRegexAt(t, i, j) && r.value == t[i..j]
  {
    if i >= |t| then None
    else
      var k := RunEnd(t, i, IsDigit);
      var m := RunEnd(t, k, IsSpace);
      if k > i && "bed" <= t[m..] then
        DigitRunSlice(t, i, k);
        SpaceRunSlice(t, k, m);
        assert BedsRegexAt(t, i, k);
        Some(t[i..k])
      else None
  }

  /** `int(m.group(1))` under `except ValueError: pass`: a digit group with
      more digits than Python converts leaves the bed count unset. */
  function BedsValue(g: string): Option<nat>
    requires AllDigits(g)
  {
    if |g| <= IntMaxStrDigits then Some(DigitsValue(g)) else None
  }

  /** The regular expression `(\d+)\s*bed` read literally: some non-empty
      digit group `t[i..j]`, then some whitespace, then `bed`. */
  ghost predicate BedsRegexAt(t: string, i: nat, j: nat) {
    && i < j <= |t| && AllDigits(t[i..j])
    && exists m :: j <= m <= |t| && AllSpace(t[j..m]) && "bed" <= t[m..]
  }

  /** The hand-written matcher agrees with the regular expression at every
      position, and the digit group it reads is the only one possible. */
  lemma BedsAtMatchesRegex(t: string, i: nat)
    ensures BedsAt(t, i).Some? <==> exists j :: BedsRegexAt(t, i, j)
    ensures forall j: nat :: BedsRegexAt(t, i, j) ==> BedsAt(t, i) == Some(t[i..j])
  {
    if i < |t| {
      var k := RunEnd(t, i, IsDigit);
      var m := RunEnd(t, k, IsSpace);
      if k > i && "bed" <= t[m..] {
        assert BedsRegexAt(t, i, k);
      }
      forall j: nat | BedsRegexAt(t, i, j) ensures j == k && m <= |t| && "bed" <= t[m..] {
        var m' :| j <= m' <= |t| && AllSpace(t[j..m']) && "bed" <= t[m'..];
        BedsRegexGroup(t, i, j, m');
      }
    }
  }

  /** A digit group followed by whitespace and `bed` ends where the digit
      run ends, and the whitespace where the space run ends. */
  lemma BedsRegexGroup(t: string, i: nat, j: nat, m: nat)
    requires i < j <= m <= |t| && AllDigits(t[i..j]) && AllSpace(t[j..m]) && "bed" <= t[m..]
    ensures RunEnd(t, i, IsDigit) == j && RunEnd(t, j, IsSpace) == m
  {
    assert t[m..][0] == 'b' && t[m] == 'b';
    SpacesBeforeB(t, j, m);
    DigitsEndRun(t, i, j);
  }

  /** A whitespace run followed by `b` ends at the `b`, and starts with
      neither a digit nor a dot. */
  lemma SpacesBeforeB(t: string, j: nat, m: nat)
    requires j <= m < |t| && AllSpace(t[j..m]) && t[m] == 'b'
    ensures RunEnd(t, j, IsSpace) == m && !IsDigit(t[j]) && t[j] != '.'
  {
    forall x | j <= x < m ensures IsSpace(t[x]) {
      assert t[x] == t[j..m][x - j];
    }
    RunEndUnique(t, j, m, IsSpace);
    if m > j { assert IsSpace(t[j]); }
  }

  /** A digit group that stops before a non-digit is the whole digit run. */
  lemma DigitsEndRun(t: string, i: nat, j: nat)
    requires i < j <= |t| && AllDigits(t[i..j]) && (j == |t| || !IsDigit(t[j]))
    ensures RunEnd(t, i, IsDigit) == j
  {
    forall x | i <= x < j ensures IsDigit(t[x]) {
      assert t[x] == t[i..j][x - i];
    }
    RunEndUnique(t, i, j, IsDigit);
  }

  /** `(\d+(?:\.\d+)?)\s*bath` matched at position `i`; the group is read
      with `float()`. */
  function BathsAt(t: string, i: nat): (r: Option<real>)
    ensures r.Some? ==> exists j: nat :: BathsRegexAt(t, i, j) && AllPriceChars(t[i..j]) && r == ParseDecimal(t[i..j])
  {
    if i >= |t| then None
    else
      var k := RunEnd(t, i, IsDigit);
      var j := FractionEnd(t, k);
      var m := RunEnd(t, j, IsSpace);
      if k > i && "bath" <= t[m..] then
        BathsGroupFound(t, i, k, j, m);
        ParseDecimal(t[i..j])
      else None
  }

  /** `(?:\.\d+)?` after the digit run ending at `k`: where the optional
      fraction ends. */
  function FractionEnd(t: string, k: nat): (j: nat)
    requires k <= |t|
    ensures k <= j <= |t|
    ensures j > k <==> k + 1 < |t| && t[k] == '.' && IsDigit(t[k + 1])
  {
    if k + 1 < |t| && t[k] == '.' && IsDigit(t[k + 1]) then RunEnd(t, k + 1, IsDigit) else k
  }

  predicate AllPriceChars(g: string) {
    forall p :: 0 <= p < |g| ==> PriceChar(g[p])
  }

  /** `\d+(?:\.\d+)?`: digits, optionally a dot and more digits. */
  ghost predicate DecimalGroup(g: string) {
    || (|g| > 0 && AllDigits(g))
    || (exists p :: 0 < p < |g| - 1 && AllDigits(g[..p]) && g[p] == '.' && AllDigits(g[p + 1..]))
  }

  /** The regular expression `(\d+(?:\.\d+)?)\s*bath` read literally: a
      decimal group `t[i..j]`, then some whitespace, then `bath`. */
  ghost predicate BathsRegexAt(t: string, i: nat, j: nat) {
    && i < j <= |t| && DecimalGroup(t[i..j])
    && exists m :: j <= m <= |t| && AllSpace(t[j..m]) && "bath" <= t[m..]
  }

  /** The group the baths matcher reads satisfies the regular expression. */
  lemma BathsGroupFound(t: string, i: nat, k: nat, j: nat, m: nat)
    requires i < |t| && i < k == RunEnd(t, i, IsDigit)
    requires j == FractionEnd(t, k)
    requires m == RunEnd(t, j, IsSpace) && "bath" <= t[m..]
    ensures BathsRegexAt(t, i, j) && AllPriceChars(t[i..j])
  {
    DigitRunSlice(t, i, k);
    if j > k {
      assert j == RunEnd(t, k + 1, IsDigit);
      DigitRunSlice(t, k + 1, j);
    }
    GroupOfRuns(t, i, k, j);
    SpaceRunSlice(t, j, m);
  }

  lemma SpaceRunSlice(t: string, j: nat, m: nat)
    requires j <= m <= |t| && forall x :: j <= x < m ==> IsSpace(t[x])
    ensures AllSpace(t[j..m])
  {
    forall x | 0 <= x < m - j ensures IsSpace(t[j..m][x]) { assert t[j..m][x] == t[j + x]; }
  }

  lemma DigitRunSlice(t: string, i: nat, k: nat)
    requires i <= k <= |t| && forall x :: i <= x < k ==> IsDigit(t[x])
    ensures AllDigits(t[i..k])
  {
    forall x | 0 <= x < k - i ensures IsDigit(t[i..k][x]) { assert t[i..k][x] == t[i + x]; }
  }

  /** A digit run, optionally followed by a dot and a second digit run, is
      a decimal group made of price characters. */
  lemma GroupOfRuns(t: string, i: nat, k: nat, j: nat)
    requires i < k <= j <= |t| && AllDigits(t[i..k])
    requires j > k ==> k + 1 < j && t[k] == '.' && AllDigits(t[k + 1..j])
    ensures DecimalGroup(t[i..j]) && AllPriceChars(t[i..j])
  {
    var g := t[i..j];
    if j == k {
      assert g == t[i..k];
    } else {
      var p := k - i;
      assert g[..p] == t[i..k];
      assert g[p] == '.';
      assert g[p + 1..] == t[k + 1..j];
    }
    forall x | 0 <= x < |g| ensures PriceChar(g[x]) {
      assert g[x] == t[i + x];
      if x < k - i { assert t[i + x] == t[i..k][x]; }
      else if x > k - i { assert t[i + x] == t[k + 1..j][x - (k - i) - 1]; }
    }
  }

  /** The hand-written baths matcher agrees with the regular expression at
      every position, and the group it reads is the only one possible. */
  lemma BathsAtMatchesRegex(t: string, i: nat)
    ensures BathsAt(t, i).Some? <==> exists j: nat :: BathsRegexAt(t, i, j)
    ensures forall j: nat :: BathsRegexAt(t, i, j) ==> AllPriceChars(t[i..j]) && BathsAt(t, i) == ParseDecimal(t[i..j])
  {
    forall j: nat | BathsRegexAt(t, i, j)
      ensures AllPriceChars(t[i..j]) && BathsAt(t, i) == ParseDecimal(t[i..j]) && BathsAt(t, i).Some?
    {
      var m :| j <= m <= |t| && AllSpace(t[j..m]) && "bath" <= t[m..];
      var k := RunEnd(t, i, IsDigit);
      BathsRegexGroup(t, i, j, m);
      BathsGroupFound(t, i, k, j, m);
      BathsAtScan(t, i, k, j, m);
      DecimalGroupShape(t[i..j]);
    }
  }

  /** When the scan finds `bath`, the value is the group read with `float()`. */
  lemma BathsAtScan(t: string, i: nat, k: nat, j: nat, m: nat)
    requires i < |t| && i < k == RunEnd(t, i, IsDigit)
    requires j == FractionEnd(t, k)
    requires m == RunEnd(t, j, IsSpace) && "bath" <= t[m..]
    requires AllPriceChars(t[i..j])
    ensures BathsAt(t, i) == ParseDecimal(t[i..j])
  {
  }

  /** Every decimal group is text `float()` accepts. */
  lemma DecimalGroupShape(g: string)
    requires DecimalGroup(g)
    ensures AllPriceChars(g) && DecimalShape(g)
  {
    if |g| > 0 && AllDigits(g) {
      assert IsDigit(g[0]);
    } else {
      var p :| 0 < p < |g| - 1 && AllDigits(g[..p]) && g[p] == '.' && AllDigits(g[p + 1..]);
      var head, tail := g[..p], g[p + 1..];
      forall x | 0 <= x < |g| && x != p ensures IsDigit(g[x]) {
        if x < p { assert g[x] == head[x]; } else { assert g[x] == tail[x - p - 1]; }
      }
      assert IsDigit(g[0]);
    }
  }

  /** A decimal group followed by whitespace and `bath` is exactly what the
      matcher scans: the digit run, the optional fraction, the space run. */
  lemma BathsRegexGroup(t: string, i: nat, j: nat, m: nat)
    requires i < j <= m <= |t| && DecimalGroup(t[i..j]) && AllSpace(t[j..m]) && "bath" <= t[m..]
    ensures var k := RunEnd(t, i, IsDigit);
      && i < k
      && j == FractionEnd(t, k)
      && RunEnd(t, j, IsSpace) == m
  {
    assert t[m..][0] == 'b' && t[m] == 'b';
    SpacesBeforeB(t, j, m);
    DecimalGroupEndsRun(t, i, j);
  }

  /** A decimal group that stops before anything but a digit or a dot is
      the digit run, then, when a dot and a digit follow, the next run. */
  lemma DecimalGroupEndsRun(t: string, i: nat, j: nat)
    requires i < j <= |t| && DecimalGroup(t[i..j]) && (j == |t| || (!IsDigit(t[j]) && t[j] != '.'))
    ensures var k := RunEnd(t, i, IsDigit);
      && i < k
      && j == FractionEnd(t, k)
  {
    var g := t[i..j];
    if |g| > 0 && AllDigits(g) {
      DigitsEndRun(t, i, j);
      assert FractionEnd(t, j) == j;
    } else {
      var p :| 0 < p < |g| - 1 && AllDigits(g[..p]) && g[p] == '.' && AllDigits(g[p + 1..]);
      FractionGroupParts(t, i, j, p);
      FractionGroupEndsRun(t, i, p, j);
    }
  }

  /** The pieces of a group `t[i..j]` split at the dot `p`, as slices of
      `t`. */
  lemma FractionGroupParts(t: string, i: nat, j: nat, p: nat)
    requires i <= j <= |t| && 0 < p < j - i - 1
    requires AllDigits(t[i..j][..p]) && t[i..j][p] == '.' && AllDigits(t[i..j][p + 1..])
    ensures AllDigits(t[i..i + p]) && t[i + p] == '.' && AllDigits(t[i + p + 1..j])
  {
    var g := t[i..j];
    var whole, frac := t[i..i + p], t[i + p + 1..j];
    assert AllDigits(whole) by {
      forall x | 0 <= x < |whole| ensures whole[x] == g[..p][x] { }
      assert whole == g[..p];
    }
    assert AllDigits(frac) by {
      forall x | 0 <= x < |frac| ensures frac[x] == g[p + 1..][x] { }
      assert frac == g[p + 1..];
    }
    assert t[i + p] == g[p];
  }

  /** Digits, a dot and digits that stop before a non-digit: the digit
      run ends at the dot and the fraction at the end of the group. */
  lemma FractionGroupEndsRun(t: string, i: nat, p: nat, j: nat)
    requires 0 < p && i + p + 1 < j <= |t| && t[i + p] == '.'
    requires AllDigits(t[i..i + p]) && AllDigits(t[i + p + 1..j]) && (j == |t| || !IsDigit(t[j]))
    ensures RunEnd(t, i, IsDigit) == i + p && FractionEnd(t, i + p) == j
  {
    DigitsEndRun(t, i, i + p);
    assert IsDigit(t[i + p + 1]) by {
      assert t[i + p + 1] == t[i + p + 1..j][0];
    }
    DigitsEndRun(t, i + p + 1, j);
  }

  predicate KeywordSep(c: char) { c == ':' || IsSpace(c) }

  /** `(?:built|year|yr)\s*[:\s]*(\d{4})` matched at position `i`: the four
      digits start where the run of colons and whitespace after the keyword
      ends. */
  function KeywordYearAt(t: string, i: nat): (r: Option<nat>)
    ensures r.Some? ==> r.value < 10000
  {
    if i >= |t| then None
    else
      var rest := t[i..];
      var e := if "built" <= rest then 5 else if "year" <= rest then 4 else if "yr" <= rest then 2 else 0;
      if e == 0 then None
      else
        var m := RunEnd(t, i + e, KeywordSep);
        if m + 4 <= |t| && AllDigits(t[m..m + 4]) then
          DigitsValueBound(t[m..m + 4]);
          assert Pow10(4) == 10000;
          Some(DigitsValue(t[m..m + 4]))
        else None
  }

  /** `\b(19\d{2}|20[0-2]\d)\b` matched at position `i`. */
  function BareYearAt(t: string, i: nat): (r: Option<nat>)
    ensures r.Some? ==> 1900 <= r.value <= 2029
  {
    if i + 4 <= |t| && (i == 0 || !IsWordChar(t[i - 1])) && (i + 4 == |t| || !IsWordChar(t[i + 4]))
       && AllDigits(t[i..i + 4])
       && ((t[i] == '1' && t[i + 1] == '9') || (t[i] == '2' && t[i + 1] == '0' && '0' <= t[i + 2] <= '2'))
    then
      var d := t[i..i + 4];
      DigitsValueOfFour(d);
      Some(DigitsValue(d))
    else None
  }

  lemma DigitsValueOfFour(d: string)
    requires |d| == 4 && AllDigits(d)
    ensures DigitsValue(d) == 1000 * DigitValue(d[0]) + 100 * DigitValue(d[1]) + 10 * DigitValue(d[2]) + DigitValue(d[3])
  {
    assert d[..3][..2][..1][..0] == [];
    assert d[..3][..2][..1] == d[..1];
    assert d[..3][..2] == d[..2];
    assert DigitsValue(d[..1]) == DigitValue(d[0]);
    assert DigitsValue(d[..2]) == 10 * DigitValue(d[0]) + DigitValue(d[1]);
    assert DigitsValue(d[..3]) == 100 * DigitValue(d[0]) + 10 * DigitValue(d[1]) + DigitValue(d[2]);
  }

  /** The text `_parse_beds_baths_year` searches: the title and description,
      space-separated, lower-cased. */
  function AttributeText(l: Listing): string {
    Lower(l.title + " " + l.description)
  }

  /** What `re.search` over `t` finds, leftmost first. */
  function SearchValue<T>(at: nat -> Option<T>, t: string): (r: Option<T>)
    ensures r.Some? ==> exists i :: 0 <= i <= |t| && at(i) == r && forall q :: 0 <= q < i ==> at(q).None?
    ensures r.None? <==> forall i :: 0 <= i <= |t| ==> at(i).None?
  {
    match Leftmost(at, 0, |t|)
    case Some(hit) => Some(hit.1)
    case None => None
  }

  /** The leftmost `(\d+)\s*bed` match in `t`, converted. */
  function BedsOf(t: string): Option<nat> {
    match SearchValue(i => BedsAt(t, i), t)
    case Some(g) => BedsValue(g)
    case None => None
  }

  /** The search returns what the leftmost matching position gives. */
  lemma SearchValueLeftmost<T>(at: nat -> Option<T>, t: string, i: nat)
    requires i <= |t| && at(i).Some? && forall q :: 0 <= q < i ==> at(q).None?
    ensures SearchValue(at, t) == at(i)
  {
    var r := SearchValue(at, t);
    assert r.Some?;
    var first :| 0 <= first <= |t| && at(first) == r && forall q :: 0 <= q < first ==> at(q).None?;
    assert !(first < i) && !(i < first);
  }

  /** `_parse_beds_baths_year`: the leftmost match of each pattern. The year
      after a `built`/`year`/`yr` keyword is exactly four digits; only when no
      keyword matches is a bare year in 1900..2029 taken. */
  function ParseBedsBathsYear(l: Listing): (r: Attributes)
    ensures r.yearBuilt.Some? ==> r.yearBuilt.value < 10000
    ensures (forall i :: 0 <= i <= |AttributeText(l)| ==> KeywordYearAt(AttributeText(l), i).None?) ==>
              (r.yearBuilt.Some? ==> 1900 <= r.yearBuilt.value <= 2029)
  {
    var t := AttributeText(l);
    var beds := BedsOf(t);
    var baths := SearchValue(i => BathsAt(t, i), t);
    var keywordYear := SearchValue(i => KeywordYearAt(t, i), t);
    var year := if keywordYear.Some? then keywordYear else SearchValue(i => BareYearAt(t, i), t);
    Attributes(beds, baths, year)
  }

  /** Every pattern needs a digit, so a text without digits yields nothing. */
  lemma NoDigitsNoAttributes(l: Listing)
    requires NoDigits(AttributeText(l))
    ensures ParseBedsBathsYear(l) == Attributes(None, None, None)
  {
    var t := AttributeText(l);
    forall i | 0 <= i <= |t| ensures BedsAt(t, i).None? && BathsAt(t, i).None? && BareYearAt(t, i).None? {
      if i < |t| {
        assert !IsDigit(t[i]);
      }
    }
    forall i | 0 <= i <= |t| ensures KeywordYearAt(t, i).None? {
      if i < |t| {
        var rest := t[i..];
        var e := if "built" <= rest then 5 else if "year" <= rest then 4 else if "yr" <= rest then 2 else 0;
        if e != 0 {
          var m := RunEnd(t, i + e, KeywordSep);
          if m + 4 <= |t| {
            assert !IsDigit(t[m]);
            assert t[m] == t[m..m + 4][0];
          }
        }
      }
    }
  }

  /** Only the leftmost match of `(\d+)\s*bed` is converted: the bed count
      is its digit group's value, or unset when `int()` rejects that group;
      a later match is never tried. */
  lemma BedsFromLeftmostGroup(t: string, i: nat)
    requires i <= |t| && BedsAt(t, i).Some?
    requires forall q :: 0 <= q < i ==> BedsAt(t, q).None?
    ensures BedsOf(t) == BedsValue(BedsAt(t, i).value)
  {
    SearchValueLeftmost(q => BedsAt(t, q), t, i);
  }

  /** A leading bed count too long for `int()` leaves the count unset even
      though a readable one follows: `re.search` stops at the first match. */
  lemma LongBedsGroupHidesLater(l: Listing, d: string)
    requires |d| > IntMaxStrDigits && AllDigits(d) && l.title == d + " bed, 3 bed"
    ensures BedsAt(AttributeText(l), |d| + 6) == Some("3")
    ensures ParseBedsBathsYear(l).beds == None
  {
    var t := AttributeText(l);
    var n := |d|;
    assert t[..n] == d by {
      forall x | 0 <= x < n ensures t[x] == d[x] {
        assert (l.title + " " + l.description)[x] == d[x];
        assert IsDigit(d[x]);
      }
    }
    assert t[n] == ' ' && t[n + 1] == 'b' && t[n + 2] == 'e' && t[n + 3] == 'd' by {
      CharsOfTail(l, n, 4);
    }
    LongLeadingGroup(t, d);
    LaterBedsMatch(l, d);
  }

  /** In a title `d + " bed, 3 bed"`, the second `bed` has the group `3`. */
  lemma LaterBedsMatch(l: Listing, d: string)
    requires l.title == d + " bed, 3 bed"
    ensures BedsAt(AttributeText(l), |d| + 6) == Some("3")
  {
    var t := AttributeText(l);
    var n := |d|;
    assert t[n + 6] == '3' && t[n + 7] == ' ' && t[n + 8] == 'b' && t[n + 9] == 'e' && t[n + 10] == 'd' by {
      CharsOfTail(l, n, 11);
    }
    ThreeBedsAt(t, n + 6);
  }

  /** The first `k` characters after the digits of a title `d + " bed, 3 bed"`
      survive lower-casing. */
  lemma CharsOfTail(l: Listing, n: nat, k: nat)
    requires k <= 11 && n + 11 <= |l.title| && l.title[n..] == " bed, 3 bed"
    ensures forall x :: n <= x < n + k ==> AttributeText(l)[x] == " bed, 3 bed"[x - n]
  {
    forall x | n <= x < n + k ensures AttributeText(l)[x] == " bed, 3 bed"[x - n] {
      assert (l.title + " " + l.description)[x] == l.title[n..][x - n];
    }
  }

  /** A leading digit group longer than `int()` converts, followed by
      ` bed`, leaves the bed count unset. */
  lemma LongLeadingGroup(t: string, d: string)
    requires |d| > IntMaxStrDigits && AllDigits(d) && |t| >= |d| + 4 && t[..|d|] == d
    requires t[|d|] == ' ' && t[|d| + 1] == 'b' && t[|d| + 2] == 'e' && t[|d| + 3] == 'd'
    ensures BedsOf(t) == None
  {
    var n := |d|;
    assert BedsRegexAt(t, 0, n) by {
      assert t[0..n] == d;
      OneSpaceThenBed(t, n);
    }
    BedsAtMatchesRegex(t, 0);
    BedsFromLeftmostGroup(t, 0);
  }

  /** `3 bed` at `j` reads the group `3`. */
  lemma ThreeBedsAt(t: string, j: nat)
    requires j + 5 <= |t| && t[j] == '3'
    requires t[j + 1] == ' ' && t[j + 2] == 'b' && t[j + 3] == 'e' && t[j + 4] == 'd'
    ensures BedsAt(t, j) == Some("3")
  {
    assert BedsRegexAt(t, j, j + 1) by {
      assert t[j..j + 1] == [t[j]] == "3";
      OneSpaceThenBed(t, j + 1);
    }
    BedsAtMatchesRegex(t, j);
    assert t[j..j + 1] == "3";
  }

  /** One space and `bed` from `j` satisfy the tail of `(\d+)\s*bed`. */
  lemma OneSpaceThenBed(t: string, j: nat)
    requires j + 4 <= |t| && t[j] == ' ' && t[j + 1] == 'b' && t[j + 2] == 'e' && t[j + 3] == 'd'
    ensures AllSpace(t[j..j + 1]) && "bed" <= t[j + 1..]
  {
    assert t[j..j + 1] == [' '];
    assert t[j + 1..][..3] == [t[j + 1], t[j + 2], t[j + 3]];
  }

  // ---------------------------------------------------------------------------
  // _safe_table

  /** `[a-zA-Z0-9_]+`. */
  predicate IsIdentifier(s: string) {
    |s| > 0 && forall i :: 0 <= i < |s| ==> IsWordChar(s[i])
  }

  /** `_safe_table`: `re.match(r"^[a-zA-Z0-9_]+$", name)` on a non-empty
      name. Python's `$` also matches just before a final newline, so an
      identifier followed by one `\n` passes as well. */
  predicate SafeTable(name: string) {
    || IsIdentifier(name)
    || (|name| >= 2 && name[|name| - 1] == '\n' && IsIdentifier(name[..|name| - 1]))
  }

  /** A name that passes the guard cannot leave the backtick quoting it is
      interpolated into, nor end or extend the statement: every character
      is a letter, digit or underscore, save a possible final newline. */
  lemma SafeTableCharacters(name: string)
    requires SafeTable(name)
    ensures |name| > 0
    ensures forall i :: 0 <= i < |name| ==> IsWordChar(name[i]) || (i == |name| - 1 && name[i] == '\n')
    ensures '`' !in name && ';' !in name && ' ' !in name
  {
    if !IsIdentifier(name) {
      assert forall i :: 0 <= i < |name| - 1 ==> name[i] == name[..|name| - 1][i];
    }
  }

  lemma SafeTableExamples()
    ensures !SafeTable("fb_listings; DROP TABLE x")
    ensures !SafeTable("")
    ensures SafeTable("fb_listings")
    ensures SafeTable("fb_listings\n")
  {
    var bad := "fb_listings; DROP TABLE x";
    assert !IsWordChar(bad[11]);
    assert bad[|bad| - 1] != '\n';
    var good := "fb_listings\n";
    assert good[..|good| - 1] == "fb_listings";
  }

  // ---------------------------------------------------------------------------
  // The zip regular expression `\b(\d{5})(?:-\d{4})?\b`

  predicate BoundaryBefore(t: string, i: nat)
    requires i <= |t|
  {
    i == 0 || !IsWordChar(t[i - 1])
  }

  predicate BoundaryAfter(t: string, j: nat)
    requires j <= |t|
  {
    j == |t| || !IsWordChar(t[j])
  }

  /** The zip matched at position `i`: five digits standing alone. */
  function ZipAt(t: string, i: nat): (r: Option<string>)
    ensures r.Some? ==> |r.value| == 5 && AllDigits(r.value) && i + 5 <= |t| && r.value == t[i..i + 5]
  {
    if i + 5 <= |t| && BoundaryBefore(t, i) && AllDigits(t[i..i + 5]) && BoundaryAfter(t, i + 5)
    then Some(t[i..i + 5]) else None
  }

  /** The regular expression read literally, with its optional `-NNNN`
      extension tried first, as the greedy `?` does. */
  ghost predicate ZipRegexAt(t: string, i: nat) {
    && i + 5 <= |t| && BoundaryBefore(t, i) && AllDigits(t[i..i + 5])
    && (|| (i + 10 <= |t| && t[i + 5] == '-' && AllDigits(t[i + 6..i + 10]) && BoundaryAfter(t, i + 10))
        || BoundaryAfter(t, i + 5))
  }

  /** The extension never decides whether a zip matches: when it is present
      the dash before it is already a word boundary. */
  lemma ZipExtensionIrrelevant(t: string, i: nat)
    ensures ZipRegexAt(t, i) <==> ZipAt(t, i).Some?
  {
  }

  /** The first standalone five-digit run of the text. */
  function ExtractZip(t: string): (r: Option<string>)
    ensures r.Some? ==> |r.value| == 5 && AllDigits(r.value) && ContainsSub(t, r.value)
    ensures r.None? <==> forall i :: 0 <= i <= |t| ==> ZipAt(t, i).None?
    ensures r.Some? ==> exists i: nat :: i <= |t| && ZipAt(t, i) == r && forall q :: 0 <= q < i ==> ZipAt(t, q).None?
  {
    var at := (i: nat) => ZipAt(t, i);
    match Leftmost(at, 0, |t|)
    case Some(hit) =>
      ContainsSubInMiddle(t[..hit.0], hit.1, t[hit.0 + 5..]);
      assert t == t[..hit.0] + hit.1 + t[hit.0 + 5..];
      assert ZipAt(t, hit.0) == Some(hit.1);
      forall q | 0 <= q < hit.0 ensures ZipAt(t, q).None? {
        assert at(q).None?;
      }
      Some(hit.1)
    case None =>
      forall q | 0 <= q <= |t| ensures ZipAt(t, q).None? {
        assert at(q).None?;
      }
      None
  }

  lemma NoDigitsNoZip(t: string)
    requires NoDigits(t)
    ensures ExtractZip(t).None?
  {
    forall i | 0 <= i <= |t| ensures ZipAt(t, i).None? {
      if i + 5 <= |t| { assert !IsDigit(t[i..i + 5][0]); }
    }
  }

  // ---------------------------------------------------------------------------
  // MySQLCompare._parse_location_parts

  predicate NoDoubleSpace(p: string) {
    forall k :: 0 <= k < |p| - 1 && IsSpace(p[k]) ==> !IsSpace(p[k + 1])
  }

  /** `re.split(r",|\s{2,}", s)`: split at every comma and at every run of
      two or more whitespace characters, scanning left to right. */
  function SplitLocation(s: string): (r: seq<string>)
    ensures |r| >= 1 && r[0] <= s
    ensures forall k :: 0 <= k < |r| ==> ',' !in r[k] && NoDoubleSpace(r[k])
    decreases |s|
  {
    if |s| == 0 then [""]
    else if s[0] == ',' then [""] + SplitLocation(s[1..])
    else if |s| >= 2 && IsSpace(s[0]) && IsSpace(s[1]) then [""] + SplitLocation(s[RunEnd(s, 0, IsSpace)..])
    else
      var rest := SplitLocation(s[1..]);
      [[s[0]] + rest[0]] + rest[1..]
  }

  /** A text without commas or double whitespace is a single piece. */
  lemma {:induction false} SplitLocationSingle(s: string)
    requires ',' !in s && NoDoubleSpace(s)
    ensures SplitLocation(s) == [s]
    decreases |s|
  {
    if |s| > 0 {
      assert s[0] != ',';
      assert NoDoubleSpace(s[1..]) by {
        forall k | 0 <= k < |s[1..]| - 1 && IsSpace(s[1..][k]) ensures !IsSpace(s[1..][k + 1]) {
          assert s[1..][k] == s[k + 1] && s[1..][k + 1] == s[k + 2];
        }
      }
      assert ',' !in s[1..] by { assert forall c :: c in s[1..] ==> c in s; }
      SplitLocationSingle(s[1..]);
      assert !(|s| >= 2 && IsSpace(s[0]) && IsSpace(s[1]));
      assert [s[0]] + s[1..] == s;
    }
  }

  /** Splitting at a comma: the text before it (free of commas and double
      whitespace) is the first piece, and the rest is split on its own. */
  lemma {:induction false} SplitLocationAtComma(a: string, b: string)
    requires ',' !in a && NoDoubleSpace(a)
    ensures SplitLocation(a + "," + b) == [a] + SplitLocation(b)
    decreases |a|
  {
    var s := a + "," + b;
    if |a| == 0 {
      assert s == "," + b && s[1..] == b;
    } else {
      assert s[0] == a[0] && a[0] != ',';
      assert !(IsSpace(s[0]) && IsSpace(s[1])) by {
        if |a| > 1 { assert s[1] == a[1]; } else { assert s[1] == ','; }
      }
      assert NoDoubleSpace(a[1..]) by {
        forall k | 0 <= k < |a[1..]| - 1 && IsSpace(a[1..][k]) ensures !IsSpace(a[1..][k + 1]) {
          assert a[1..][k] == a[k + 1] && a[1..][k + 1] == a[k + 2];
        }
      }
      AbsentFromTail(a, ',');
      var rest := a[1..] + "," + b;
      assert s == [a[0]] + rest;
      SplitLocationAtComma(a[1..], b);
      SplitLocationPlainChar(a[0], rest);
      var r := SplitLocation(rest);
      assert r[0] == a[1..] && r[1..] == SplitLocation(b);
      assert [a[0]] + a[1..] == a;
    }
  }

  /** A character that is no comma and does not start a double whitespace
      joins the first piece of what follows. */
  lemma SplitLocationPlainChar(c: char, rest: string)
    requires c != ',' && !(IsSpace(c) && |rest| > 0 && IsSpace(rest[0]))
    ensures var r := SplitLocation(rest);
      SplitLocation([c] + rest) == [[c] + r[0]] + r[1..]
  {
    var s := [c] + rest;
    assert s[0] == c && s[1..] == rest;
    assert |s| >= 2 ==> s[1] == rest[0];
  }

  /** `[p.strip() for p in pieces if p.strip()]`. */
  function StrippedParts(pieces: seq<string>): (r: seq<string>)
    ensures |r| <= |pieces|
    ensures forall k :: 0 <= k < |r| ==> r[k] != [] && !IsSpace(r[k][0]) && !IsSpace(r[k][|r[k]| - 1])
    ensures (forall k :: 0 <= k < |pieces| ==> ',' !in pieces[k]) ==> forall k :: 0 <= k < |r| ==> ',' !in r[k]
    decreases |pieces|
  {
    if |pieces| == 0 then []
    else
      var p := Strip(pieces[0]);
      var rest := StrippedParts(pieces[1..]);
      if p == [] then rest else
        assert forall c :: c in p ==> c in pieces[0];
        [p] + rest
  }

  /** A piece is dropped exactly when it strips to nothing: with no blank
      piece every piece is kept, stripped, in order. */
  lemma {:induction false} StrippedPartsKeepAll(pieces: seq<string>)
    requires forall k :: 0 <= k < |pieces| ==> Strip(pieces[k]) != []
    ensures |StrippedParts(pieces)| == |pieces|
    ensures forall k :: 0 <= k < |pieces| ==> StrippedParts(pieces)[k] == Strip(pieces[k])
    decreases |pieces|
  {
    if |pieces| > 0 {
      StrippedPartsKeepAll(pieces[1..]);
      var r := StrippedParts(pieces);
      assert r == [Strip(pieces[0])] + StrippedParts(pieces[1..]);
      forall k | 0 < k < |pieces| ensures r[k] == Strip(pieces[k]) {
        assert pieces[1..][k - 1] == pieces[k];
      }
    }
  }

  /** Blank pieces leave nothing behind. */
  lemma {:induction false} StrippedPartsDropBlank(pieces: seq<string>)
    requires forall k :: 0 <= k < |pieces| ==> Strip(pieces[k]) == []
    ensures StrippedParts(pieces) == []
    decreases |pieces|
  {
    if |pieces| > 0 {
      StrippedPartsDropBlank(pieces[1..]);
    }
  }

  /** The comprehension works piece by piece: stripping a concatenation of
      piece lists gives the concatenation of their stripped parts. */
  lemma {:induction false} StrippedPartsAppend(a: seq<string>, b: seq<string>)
    ensures StrippedParts(a + b) == StrippedParts(a) + StrippedParts(b)
    decreases |a|
  {
    if |a| == 0 {
      assert a + b == b;
    } else {
      assert (a + b)[0] == a[0] && (a + b)[1..] == a[1..] + b;
      StrippedPartsAppend(a[1..], b);
    }
  }

  datatype LocationParts = LocationParts(city: Option<string>, state: Option<string>, zip: Option<string>)

  /** `_parse_location_parts`: the zip is the first standalone five-digit
      run; the state is set only when there are at least two parts and the
      last is exactly two letters, and the city is then the first part; a
      single part is the city only when there is no zip. */
  function ParseLocationParts(location: string): (r: LocationParts)
    ensures r.zip == ExtractZip(Strip(location))
    ensures ChosenFrom(StrippedParts(SplitLocation(Strip(location))), r)
    ensures r.state.Some? ==> |r.state.value| == 2 && AllLetters(r.state.value) && r.city.Some?
    ensures r.city.Some? ==> r.city.value != [] && ',' !in r.city.value
    ensures r.city.Some? && r.state.None? ==> r.zip.None?
  {
    var loc := Strip(location);
    var parts := StrippedParts(SplitLocation(loc));
    assert forall k :: 0 <= k < |parts| ==> parts[k] != [] && ',' !in parts[k];
    LocationFromParts(parts, ExtractZip(loc))
  }

  /** City and state as chosen from the parts: a state exactly when there
      are at least two parts and the last is two letters, and then the city
      is the first part; otherwise a city exactly when there is a single
      part and no zip, and it is that part. */
  predicate ChosenFrom(parts: seq<string>, r: LocationParts) {
    && (r.state.Some? <==> |parts| >= 2 && |parts[|parts| - 1]| == 2 && AllLetters(parts[|parts| - 1]))
    && (r.state.Some? ==> |parts| >= 2 && r.city == Some(parts[0]) && r.state == Some(parts[|parts| - 1]))
    && (r.state.None? ==> (r.city.Some? <==> |parts| == 1 && r.zip.None?))
    && (r.state.None? && r.city.Some? ==> |parts| == 1 && r.city == Some(parts[0]))
  }

  /** The choice `_parse_location_parts` makes once the parts and the zip
      are known. */
  function LocationFromParts(parts: seq<string>, zip: Option<string>): (r: LocationParts)
    requires forall k :: 0 <= k < |parts| ==> parts[k] != [] && ',' !in parts[k]
    ensures r.zip == zip && ChosenFrom(parts, r)
    ensures r.city.Some? ==> r.city.value != [] && ',' !in r.city.value
  {
    if |parts| >= 2 && |parts[|parts| - 1]| == 2 && AllLetters(parts[|parts| - 1]) then
      LocationParts(Some(parts[0]), Some(parts[|parts| - 1]), zip)
    else if |parts| == 1 && zip.None? then
      LocationParts(Some(parts[0]), None, zip)
    else
      LocationParts(None, None, zip)
  }

  /** "Erie, PA 16509": the zip is found, but the last part is "PA 16509",
      not a two-letter state, and with two parts there is no city either. */
  lemma ErieWithZip()
    ensures ParseLocationParts("Erie, PA 16509") == LocationParts(None, None, Some("16509"))
  {
    var city, part := "Erie", "PA 16509";
    var loc := city + ", " + part;
    assert loc == "Erie, PA 16509";
    ErieFacts();
    StripUnchanged(loc);
    CityAndPart(city, part);
    ErieZip();
  }

  /** "Erie, PA": two parts, the last a two-letter state, and no zip. */
  lemma ErieWithoutZip()
    ensures ParseLocationParts("Erie, PA") == LocationParts(Some("Erie"), Some("PA"), None)
  {
    var city, part := "Erie", "PA";
    var loc := city + ", " + part;
    var parts := [city, part];
    assert loc == "Erie, PA";
    assert Strip(loc) == loc by {
      StripUnchanged(loc);
    }
    assert StrippedParts(SplitLocation(loc)) == parts && AllLetters(part) by {
      ErieFacts();
      CityAndPart(city, part);
    }
    assert |part| == 2;
    ErieNoZip();
    CityStateLocation(loc, city, part);
  }

  /** A stripped location whose parts are a city and a two-letter state,
      with no zip in it, gives that city and state. */
  lemma CityStateLocation(loc: string, city: string, state: string)
    requires Strip(loc) == loc && StrippedParts(SplitLocation(loc)) == [city, state]
    requires |state| == 2 && AllLetters(state) && ExtractZip(loc).None?
    ensures ParseLocationParts(loc) == LocationParts(Some(city), Some(state), None)
  {
    var r := ParseLocationParts(loc);
    assert ChosenFrom([city, state], r);
  }

  lemma ErieNoZip()
    ensures ExtractZip("Erie, PA").None?
  {
    var loc := "Erie, PA";
    forall q: nat | q <= |loc| ensures ZipAt(loc, q).None? {
      if q + 5 <= |loc| { assert loc[q..q + 5][4 - q] == loc[4] == ','; }
    }
  }

  lemma ErieFacts()
    ensures AllLetters("Erie") && AllLetters("PA")
    ensures var p := "PA 16509"; ',' !in p && NoDoubleSpace(" " + p) && !IsSpace(p[0]) && !IsSpace(p[|p| - 1])
  {
    var e, s, p := "Erie", "PA", " PA 16509";
    assert e[0] == 'E' && e[1] == 'r' && e[2] == 'i' && e[3] == 'e';
    assert s[0] == 'P' && s[1] == 'A';
    assert p[0] == ' ' && p[1] == 'P' && p[2] == 'A' && p[3] == ' ' && p[4] == '1';
    assert p[5] == '6' && p[6] == '5' && p[7] == '0' && p[8] == '9';
    assert p == " " + "PA 16509";
  }

  /** "City, Part", a one-word city and a part with no comma and no double
      whitespace, splits into exactly those two stripped parts. */
  lemma CityAndPart(city: string, part: string)
    requires city != [] && AllLetters(city)
    requires part != [] && ',' !in part && NoDoubleSpace(" " + part)
    requires !IsSpace(part[0]) && !IsSpace(part[|part| - 1])
    ensures StrippedParts(SplitLocation(city + ", " + part)) == [city, part]
  {
    var tail := " " + part;
    assert city + ", " + part == city + "," + tail;
    CityThenPiece(city, tail);
    assert Strip(city) == city by {
      StripUnchanged(city);
    }
    StripOneLeadingSpace(part);
    StrippedPair(city, tail);
  }

  /** Two pieces that are not blank are both kept, stripped. */
  lemma StrippedPair(a: string, b: string)
    requires Strip(a) != [] && Strip(b) != []
    ensures StrippedParts([a, b]) == [Strip(a), Strip(b)]
  {
    var pieces := [a, b];
    assert pieces[0] == a && pieces[1] == b;
    StrippedPartsKeepAll(pieces);
  }

  /** A one-word city, a comma and a piece free of commas and double
      whitespace split into exactly those two pieces. */
  lemma CityThenPiece(city: string, tail: string)
    requires city != [] && AllLetters(city)
    requires ',' !in tail && NoDoubleSpace(tail)
    ensures SplitLocation(city + "," + tail) == [city, tail]
  {
    assert ',' !in city && NoDoubleSpace(city) by {
      forall k | 0 <= k < |city| ensures city[k] != ',' && !IsSpace(city[k]) {
        assert IsLetter(city[k]);
      }
    }
    SplitLocationAtComma(city, tail);
    SplitLocationSingle(tail);
  }

  lemma ErieZip()
    ensures ExtractZip("Erie, PA 16509") == Some("16509")
  {
    var loc := "Erie, PA 16509";
    assert ZipAt(loc, 9) == Some("16509") by {
      var z := "16509";
      assert |loc| == 14 && loc[9..14] == z;
      assert !IsWordChar(loc[8]);
      assert AllDigits(z) by {
        assert z[0] == '1' && z[1] == '6' && z[2] == '5' && z[3] == '0' && z[4] == '9';
      }
    }
    forall q: nat | q < 9 ensures ZipAt(loc, q).None? {
      var w := loc[q..q + 5];
      if q <= 4 { assert w[4 - q] == loc[4]; }
      else if q <= 5 { assert w[0] == loc[5]; }
      else { assert w[8 - q] == loc[8]; }
    }
  }
}

/** The Craigslist RSS scraper (`craigslist_monitor/scraper.py`): the
    search URL, `urllib.parse.quote` for its query, and the mapping of feed
    entries to listings. The HTTP request and the feed parser are outside
    the model; the entries they yield are the input.
 */
module Scraper {

  import opened Wrappers
  import opened Text
  import opened Seqs

  /** A Craigslist listing. Its id is its link. */
  datatype Listing = Listing(
    id: string,
    title: string,
    url: string,
    price: string,
    location: string,
    description: string,
    published: string)

  // ---------------------------------------------------------------------------
  // urllib.parse.quote (default safe set "/")

  /** The characters `quote` never escapes. */
  predicate AlwaysSafe(c: char) {
    IsLetter(c) || IsDigit(c) || c == '_' || c == '.' || c == '-' || c == '~'
  }

  /** The characters a quoted text is made of. */
  predicate QuotedChar(c: char) {
    AlwaysSafe(c) || c == '/' || c == '%'
  }

  function HexDigit(n: nat): (c: char)
    requires n < 16
    ensures AlwaysSafe(c)
  {
    if n < 10 then ('0' as int + n) as char else ('A' as int + n - 10) as char
  }

  predicate IsHexDigit(c: char) {
    IsDigit(c) || 'A' <= c <= 'F' || 'a' <= c <= 'f'
  }

  function HexValue(c: char): (n: nat)
    requires IsHexDigit(c)
    ensures n < 16
  {
    if IsDigit(c) then c as int - '0' as int
    else if 'A' <= c <= 'F' then c as int - 'A' as int + 10
    else c as int - 'a' as int + 10
  }

  lemma HexRoundTrip(n: nat)
    requires n < 16
    ensures IsHexDigit(HexDigit(n)) && HexValue(HexDigit(n)) == n
  {
  }

  /** The UTF-8 encoding of a character. */
  function Utf8(c: char): (bytes: seq<nat>)
    ensures 1 <= |bytes| <= 4
    ensures forall k :: 0 <= k < |bytes| ==> bytes[k] < 256
    ensures |bytes| == 1 <==> c as int < 0x80
    ensures |bytes| == 1 ==> bytes[0] == c as int
  {
    var n := c as int;
    if n < 0x80 then [n]
    else if n < 0x800 then [0xC0 + n / 64, 0x80 + n % 64]
    else if n < 0x10000 then [0xE0 + n / 4096, 0x80 + (n / 64) % 64, 0x80 + n % 64]
    else [0xF0 + n / 262144, 0x80 + (n / 4096) % 64, 0x80 + (n / 64) % 64, 0x80 + n % 64]
  }

  function PercentBytes(bytes: seq<nat>): (r: string)
    requires forall k :: 0 <= k < |bytes| ==> bytes[k] < 256
    ensures |r| == 3 * |bytes|
    ensures forall k :: 0 <= k < |r| ==> QuotedChar(r[k])
  {
    if |bytes| == 0 then []
    else ['%', HexDigit(bytes[0] / 16), HexDigit(bytes[0] % 16)] + PercentBytes(bytes[1..])
  }

  /** One character as `quote` writes it: itself when safe, otherwise the
      `%XX` escapes of its UTF-8 bytes, in upper-case hexadecimal. */
  function QuoteChar(c: char): (r: string)
    ensures forall k :: 0 <= k < |r| ==> QuotedChar(r[k])
    ensures AlwaysSafe(c) || c == '/' ==> r == [c]
    ensures !(AlwaysSafe(c) || c == '/') ==> |r| >= 3 && r[0] == '%'
  {
    if AlwaysSafe(c) || c == '/' then [c] else PercentBytes(Utf8(c))
  }

  /** `urllib.parse.quote(s)`. */
  function Quote(s: string): (r: string)
    ensures forall k :: 0 <= k < |r| ==> QuotedChar(r[k])
    ensures (forall k :: 0 <= k < |s| ==> AlwaysSafe(s[k]) || s[k] == '/') ==> r == s
    decreases |s|
  {
    if |s| == 0 then [] else QuoteChar(s[0]) + Quote(s[1..])
  }

  /** `urllib.parse.unquote` for escapes of ASCII characters: each `%XX`
      becomes the character with that code. */
  function UnquoteAscii(s: string): string
    decreases |s|
  {
    if |s| == 0 then []
    else if |s| >= 3 && s[0] == '%' && IsHexDigit(s[1]) && IsHexDigit(s[2]) then
      [(HexValue(s[1]) * 16 + HexValue(s[2])) as char] + UnquoteAscii(s[3..])
    else [s[0]] + UnquoteAscii(s[1..])
  }

  /** Unquoting reads one quoted ASCII character back off the front. */
  lemma UnquoteQuotedChar(c: char, rest: string)
    requires c as int < 0x80
    ensures UnquoteAscii(QuoteChar(c) + rest) == [c] + UnquoteAscii(rest)
  {
    var q := QuoteChar(c) + rest;
    if AlwaysSafe(c) || c == '/' {
      assert q[0] == c && q[1..] == rest;
    } else {
      var n := c as int;
      HexRoundTrip(n / 16);
      HexRoundTrip(n % 16);
      assert QuoteChar(c) == ['%', HexDigit(n / 16), HexDigit(n % 16)] by {
        assert Utf8(c) == [n];
        assert PercentBytes([n]) == ['%', HexDigit(n / 16), HexDigit(n % 16)] + PercentBytes([]);
      }
      assert q[3..] == rest;
      assert (HexValue(q[1]) * 16 + HexValue(q[2])) as char == c;
    }
  }

  /** Unquoting a quoted ASCII text gives it back. */
  lemma {:induction false} QuoteRoundTrip(s: string)
    requires forall k :: 0 <= k < |s| ==> s[k] as int < 0x80
    ensures UnquoteAscii(Quote(s)) == s
    decreases |s|
  {
    if |s| > 0 {
      QuoteRoundTrip(s[1..]);
      assert Quote(s) == QuoteChar(s[0]) + Quote(s[1..]);
      UnquoteQuotedChar(s[0], Quote(s[1..]));
      assert s == [s[0]] + s[1..];
    }
  }

  // ---------------------------------------------------------------------------
  // build_rss_url

  function RssBase(site: string, category: string): string {
    "https://" + site + ".craigslist.org/search/" + category
  }

  /** The query parameters, in order: the quoted query when there is one,
      each positive price bound, and always `format=rss` last. */
  function RssParams(query: string, minPrice: int, maxPrice: int): (ps: seq<string>)
    ensures |ps| == 1 + (if query != [] then 1 else 0) + (if minPrice > 0 then 1 else 0) + (if maxPrice > 0 then 1 else 0)
    ensures ps[|ps| - 1] == "format=rss"
    ensures query != [] ==> ps[0] == "query=" + Quote(query)
    ensures minPrice > 0 ==> ps[|ps| - (if maxPrice > 0 then 3 else 2)] == "min_price=" + IntToString(minPrice)
    ensures maxPrice > 0 ==> ps[|ps| - 2] == "max_price=" + IntToString(maxPrice)
  {
    var q := OptionalParam(query != [], "query=", Quote(query));
    var lo := OptionalParam(minPrice > 0, "min_price=", IntToString(minPrice));
    var hi := OptionalParam(maxPrice > 0, "max_price=", IntToString(maxPrice));
    var front := q + lo;
    var ps := front + hi + ["format=rss"];
    assert front[..|q|] == q;
    assert front[|q|..] == lo;
    assert ps[..|front|] == front;
    assert ps[|front|..] == hi + ["format=rss"];
    ps
  }

  /** A `key=value` parameter when `present`, nothing otherwise. */
  function OptionalParam(present: bool, key: string, value: string): (ps: seq<string>)
    ensures |ps| == if present then 1 else 0
    ensures present ==> ps[0] == key + value
  {
    if present then [key + value] else []
  }

  /** `build_rss_url`. */
  function BuildRssUrl(site: string, category: string, query: string, minPrice: int, maxPrice: int): (url: string)
    ensures RssBase(site, category) + "?" <= url
  {
    RssBase(site, category) + "?" + Join(RssParams(query, minPrice, maxPrice), "&")
  }

  /** A text made of quoted characters, digits and minus signs holds no `&`. */
  lemma NoAmpersandInValue(v: string)
    requires forall k :: 0 <= k < |v| ==> QuotedChar(v[k]) || IsDigit(v[k]) || v[k] == '-'
    ensures '&' !in v
  {
  }

  /** No text of `ps` contains `&`. */
  predicate NoAmpersands(ps: seq<string>) {
    forall k :: 0 <= k < |ps| ==> '&' !in ps[k]
  }

  /** No parameter contains `&`: the quoted query cannot, nor can a number. */
  lemma ParamsHaveNoAmpersand(query: string, minPrice: int, maxPrice: int)
    ensures NoAmpersands(RssParams(query, minPrice, maxPrice))
  {
    var q := OptionalParam(query != [], "query=", Quote(query));
    var lo := OptionalParam(minPrice > 0, "min_price=", IntToString(minPrice));
    var hi := OptionalParam(maxPrice > 0, "max_price=", IntToString(maxPrice));
    assert RssParams(query, minPrice, maxPrice) == q + lo + hi + ["format=rss"];
    NoAmpersandInValue(Quote(query));
    OptionalParamNoAmpersand(query != [], "query=", Quote(query));
    NumberHasNoAmpersand(minPrice);
    OptionalParamNoAmpersand(minPrice > 0, "min_price=", IntToString(minPrice));
    NumberHasNoAmpersand(maxPrice);
    OptionalParamNoAmpersand(maxPrice > 0, "max_price=", IntToString(maxPrice));
    NoAmpersandsConcat(q, lo);
    NoAmpersandsConcat(q + lo, hi);
    NoAmpersandsConcat(q + lo + hi, ["format=rss"]);
  }

  lemma OptionalParamNoAmpersand(present: bool, key: string, value: string)
    requires '&' !in key && '&' !in value
    ensures NoAmpersands(OptionalParam(present, key, value))
  {
    if present {
      assert '&' !in key + value;
    }
  }

  lemma NoAmpersandsConcat(a: seq<string>, b: seq<string>)
    requires NoAmpersands(a) && NoAmpersands(b)
    ensures NoAmpersands(a + b)
  {
    forall k | 0 <= k < |a + b| ensures '&' !in (a + b)[k] {
      if k < |a| { assert (a + b)[k] == a[k]; } else { assert (a + b)[k] == b[k - |a|]; }
    }
  }

  /** The decimal text of a number holds no `&`. */
  lemma NumberHasNoAmpersand(n: int)
    ensures '&' !in IntToString(n)
  {
    var r := IntToString(n);
    if n < 0 {
      assert r == [r[0]] + r[1..];
      NoAmpersandInValue(r[1..]);
    } else {
      NoAmpersandInValue(r);
    }
  }

  lemma RssBaseNoQuestionMark(site: string, category: string)
    requires '?' !in site && '?' !in category
    ensures '?' !in RssBase(site, category)
  {
    var pre := "https://" + site;
    assert '?' !in pre;
    var mid := pre + ".craigslist.org/search/";
    assert '?' !in mid;
    assert RssBase(site, category) == mid + category;
  }

  /** The URL parses back: everything before the first `?` is the base, and
      splitting the rest on `&` gives the parameters, in order. */
  lemma RssUrlRoundTrip(site: string, category: string, query: string, minPrice: int, maxPrice: int)
    requires '?' !in site && '?' !in category
    ensures var url := BuildRssUrl(site, category, query, minPrice, maxPrice);
      var base := RssBase(site, category);
      && '?' in url && IndexOf(url, '?') == |base|
      && url[..|base|] == base
      && SplitOnChar(url[|base| + 1..], '&') == RssParams(query, minPrice, maxPrice)
  {
    RssBaseNoQuestionMark(site, category);
    ParamsHaveNoAmpersand(query, minPrice, maxPrice);
    QueryStringRoundTrip(RssBase(site, category), RssParams(query, minPrice, maxPrice));
  }

  /** A URL made of a base without `?`, then `?`, then parameters without
      `&` joined by `&`, splits back into the base and the parameters. */
  lemma QueryStringRoundTrip(base: string, ps: seq<string>)
    requires '?' !in base && |ps| >= 1 && NoAmpersands(ps)
    ensures var url := base + "?" + Join(ps, "&");
      && '?' in url && IndexOf(url, '?') == |base|
      && url[..|base|] == base
      && SplitOnChar(url[|base| + 1..], '&') == ps
  {
    var rest := Join(ps, "&");
    assert base + "?" + rest == base + ['?'] + rest;
    IndexOfAfter(base, '?', rest);
    SplitJoinOnChar(ps, '&');
  }

  // ---------------------------------------------------------------------------
  // Tags, price and location of an entry

  /** `<[^>]+>` matches at `i`; the index of its closing `>`. */
  function TagEnd(t: string, i: nat): (k: Option<nat>)
    requires i <= |t|
    ensures k.Some? ==> i + 1 < k.value < |t| && t[i] == '<' && t[k.value] == '>' && '>' !in t[i + 1..k.value]
    ensures k.None? && i < |t| && t[i] == '<' ==> i + 1 == |t| || t[i + 1] == '>' || '>' !in t[i + 1..]
  {
    if i < |t| && t[i] == '<' then
      var k := RunEnd(t, i + 1, c => c != '>');
      assert forall j :: i + 1 <= j < k ==> t[j] != '>';
      if k > i + 1 && k < |t| then Some(k) else None
    else None
  }

  /** No `<[^>]+>` match starts at position `i`. */
  predicate NoTagAt(r: string, i: nat)
    requires i < |r|
  {
    r[i] == '<' ==> i + 1 == |r| || r[i + 1] == '>' || '>' !in r[i + 1..]
  }

  /** No `<[^>]+>` match anywhere. */
  predicate NoTag(r: string) {
    forall i :: 0 <= i < |r| ==> NoTagAt(r, i)
  }

  /** Putting a character in front of a tag-free text keeps it tag-free
      unless the character opens a tag the text closes. */
  lemma NoTagCons(c: char, rest: string)
    requires NoTag(rest)
    requires c == '<' ==> |rest| == 0 || rest[0] == '>' || '>' !in rest
    ensures NoTag([c] + rest)
  {
    var r := [c] + rest;
    assert r[1..] == rest;
    forall i | 0 <= i < |r| ensures NoTagAt(r, i) {
      if i > 0 {
        assert NoTagAt(rest, i - 1);
        assert r[i] == rest[i - 1];
        if i + 1 < |r| {
          assert r[i + 1] == rest[i];
          assert r[i + 1..] == rest[i..];
        }
      }
    }
  }

  /** `re.sub(r"<[^>]+>", " ", t)`: every tag, scanned left to right, becomes
      one space. */
  function StripTags(t: string): (r: string)
    ensures NoTag(r)
    ensures '>' !in t ==> '>' !in r
    ensures |t| > 0 && t[0] != '<' ==> |r| > 0 && r[0] == t[0]
    decreases |t|
  {
    if |t| == 0 then []
    else match TagEnd(t, 0)
      case Some(k) =>
        var rest := StripTags(t[k + 1..]);
        NoTagCons(' ', rest);
        " " + rest
      case None =>
        var rest := StripTags(t[1..]);
        assert '>' !in t[1..] ==> '>' !in rest;
        assert |t| > 1 && t[1] == '>' ==> rest[0] == '>' by {
          if |t| > 1 && t[1] == '>' { assert t[1..][0] == '>'; }
        }
        NoTagCons(t[0], rest);
        [t[0]] + rest
  }

  /** Text with no tag in it passes through unchanged. */
  lemma {:induction false} StripTagsTagFree(t: string)
    requires NoTag(t)
    ensures StripTags(t) == t
    decreases |t|
  {
    if |t| > 0 {
      assert NoTagAt(t, 0);
      assert TagEnd(t, 0).None? by {
        if t[0] == '<' && |t| > 1 && t[1] != '>' {
          assert '>' !in t[1..];
          forall j | 1 <= j < |t| ensures t[j] != '>' {
            assert t[j] == t[1..][j - 1];
          }
          RunEndUnique(t, 1, |t|, c => c != '>');
        }
      }
      NoTagSlice(t, 1, t[1..]);
      StripTagsTagFree(t[1..]);
      assert [t[0]] + t[1..] == t;
    }
  }

  /** Text without `<` is copied as it is, and the rest is handled on its
      own. */
  lemma {:induction false} StripTagsPlainPrefix(a: string, b: string)
    requires '<' !in a
    ensures StripTags(a + b) == a + StripTags(b)
    decreases |a|
  {
    if |a| == 0 {
      assert a + b == b;
    } else {
      var tail := a[1..] + b;
      assert a + b == [a[0]] + tail;
      AbsentFromTail(a, '<');
      calc {
        StripTags(a + b);
        StripTags([a[0]] + tail);
        { StripTagsPlainChar(a[0], tail); }
        [a[0]] + StripTags(tail);
        { StripTagsPlainPrefix(a[1..], b); }
        [a[0]] + (a[1..] + StripTags(b));
        ([a[0]] + a[1..]) + StripTags(b);
        { assert [a[0]] + a[1..] == a; }
        a + StripTags(b);
      }
    }
  }

  /** A character other than `<` starts no tag and is copied. */
  lemma StripTagsPlainChar(c: char, s: string)
    requires c != '<'
    ensures StripTags([c] + s) == [c] + StripTags(s)
  {
    var t := [c] + s;
    assert t[0] == c && t[1..] == s;
    assert TagEnd(t, 0).None?;
  }

  /** A tag `<x>` (with `x` non-empty and free of `>`) becomes one space. */
  lemma StripTagsOneTag(x: string, b: string)
    requires x != [] && '>' !in x
    ensures StripTags("<" + x + ">" + b) == " " + StripTags(b)
  {
    var t := "<" + x + ">" + b;
    var k := |x| + 1;
    forall j | 1 <= j < k ensures t[j] != '>' {
      assert t[j] == x[j - 1];
    }
    assert t[k] == '>';
    RunEndUnique(t, 1, k, c => c != '>');
    assert TagEnd(t, 0) == Some(k);
    assert t[k + 1..] == b;
  }

  /** A slice of a tag-free text is tag-free. */
  lemma NoTagSlice(t: string, lo: nat, p: string)
    requires NoTag(t) && lo + |p| <= |t| && p == t[lo..lo + |p|]
    ensures NoTag(p)
  {
    forall i | 0 <= i < |p| ensures NoTagAt(p, i) {
      assert NoTagAt(t, lo + i);
      assert p[i] == t[lo + i];
      if p[i] == '<' && i + 1 < |p| && p[i + 1] != '>' {
        assert t[lo + i + 1] == p[i + 1];
        assert '>' !in t[lo + i + 1..];
        forall m | i + 1 <= m < |p| ensures p[m] != '>' {
          assert p[m] == t[lo + i + 1..][m - i - 1];
        }
      }
    }
  }

  predicate PriceChar(c: char) { IsDigit(c) || c == ',' }

  /** `\$[\d,]+` matches at `i`; what it matches. */
  function DollarAt(t: string, i: nat): (r: Option<string>)
    ensures r.Some? ==> i + |r.value| <= |t| && r.value == t[i..i + |r.value|] && |r.value| >= 2
    ensures r.Some? ==> DollarAmount(r.value)
    ensures r.Some? ==> i + |r.value| == |t| || !PriceChar(t[i + |r.value|])
    ensures r.None? <==> !(i + 1 < |t| && t[i] == '$' && PriceChar(t[i + 1]))
  {
    if i < |t| && t[i] == '$' then
      var k := RunEnd(t, i + 1, PriceChar);
      if k > i + 1 then Some(t[i..k]) else None
    else None
  }

  /** A price as the title shows it: a dollar sign and digits or commas. */
  predicate DollarAmount(p: string) {
    |p| >= 2 && p[0] == '$' && forall k :: 1 <= k < |p| ==> PriceChar(p[k])
  }

  /** The first dollar amount in the title, or "". */
  function TitlePrice(title: string): (p: string)
    ensures p == [] <==> forall i :: 0 <= i <= |title| ==> DollarAt(title, i).None?
    ensures p != [] ==> DollarAmount(p) && ContainsSub(title, p)
    ensures p != [] ==> exists i: nat :: i <= |title| && DollarAt(title, i) == Some(p) && forall q :: 0 <= q < i ==> DollarAt(title, q).None?
  {
    var at := (i: nat) => DollarAt(title, i);
    match Leftmost(at, 0, |title|)
    case Some(hit) =>
      var i, m := hit.0, hit.1;
      assert DollarAt(title, i) == Some(m);
      DollarAtContained(title, i, m);
      forall q | 0 <= q < i ensures DollarAt(title, q).None? {
        assert at(q).None?;
      }
      m
    case None =>
      forall q | 0 <= q <= |title| ensures DollarAt(title, q).None? {
        assert at(q).None?;
      }
      ""
  }

  /** What `DollarAt` matches is a piece of the text. */
  lemma DollarAtContained(title: string, i: nat, m: string)
    requires DollarAt(title, i) == Some(m)
    ensures ContainsSub(title, m)
  {
    var pre, post := title[..i], title[i + |m|..];
    ContainsSubInMiddle(pre, m, post);
    assert title == pre + m + post;
  }

  /** `\(([^)]+)\)\s*$` matches at `i`; its group. */
  function ParenAt(t: string, i: nat): (r: Option<string>)
    ensures r.Some? ==> ')' !in r.value
    ensures r.Some? ==>
      var k := i + 1 + |r.value|;
      && k < |t| && t[i] == '(' && r.value == t[i + 1..k] && r.value != []
      && ')' !in r.value && t[k] == ')' && AllSpace(t[k + 1..])
  {
    if i < |t| && t[i] == '(' then
      var k := RunEnd(t, i + 1, c => c != ')');
      assert forall j :: i + 1 <= j < k ==> t[j] != ')';
      if k > i + 1 && k < |t| && AllSpace(t[k + 1..]) then Some(t[i + 1..k]) else None
    else None
  }

  /** The stripped text of the last parenthesised group, when the title
      ends with one (trailing whitespace aside), or "". */
  function TitleLocation(title: string): (loc: string)
    ensures loc != [] ==> ')' !in loc && loc == Strip(loc)
    ensures (forall i :: 0 <= i <= |title| ==> ParenAt(title, i).None?) ==> loc == []
  {
    var at := (i: nat) => ParenAt(title, i);
    match Leftmost(at, 0, |title|)
    case None =>
      forall q | 0 <= q <= |title| ensures ParenAt(title, q).None? {
        assert at(q).None?;
      }
      ""
    case Some(hit) =>
      var g := hit.1;
      var loc := Strip(g);
      StripKeepsAbsent(g, ')');
      StripUnchanged(loc);
      loc
  }

  // ---------------------------------------------------------------------------
  // fetch_listings: one entry

  /** The fields of a feed entry; `None` when the entry lacks one. */
  datatype Entry = Entry(
    link: Option<string>,
    title: Option<string>,
    summary: Option<string>,
    published: Option<string>,
    updated: Option<string>)

  /** Python's `a or b` on an optional text. */
  function OrElse(a: Option<string>, b: string): (r: string)
    ensures a.Some? && a.value != [] ==> r == a.value
    ensures a.None? || a.value == [] ==> r == b
  {
    if a.Some? && a.value != [] then a.value else b
  }

  /** The summary as plain text: tags replaced by spaces, stripped. */
  function PlainSummary(summary: string): (r: string)
    ensures NoTag(r)
    ensures r == [] || (!IsSpace(r[0]) && !IsSpace(r[|r| - 1]))
  {
    var t := StripTags(Strip(summary));
    NoTagStrip(t);
    Strip(t)
  }

  /** A summary without tags is only stripped. */
  lemma PlainSummaryTagFree(summary: string)
    requires NoTag(Strip(summary))
    ensures PlainSummary(summary) == Strip(summary)
  {
    StripTagsTagFree(Strip(summary));
    StripUnchanged(Strip(summary));
  }

  /** A summary that opens with a tag reads as the rest of it: the tag
      becomes a space, which stripping then removes. */
  lemma PlainSummaryLeadingTag(x: string, b: string)
    requires x != [] && '>' !in x && '<' !in b && b != [] && !IsSpace(b[0]) && !IsSpace(b[|b| - 1])
    ensures PlainSummary("<" + x + ">" + b) == b
  {
    var s := "<" + x + ">" + b;
    var t := " " + b;
    assert Strip(s) == s by {
      assert s[0] == '<' && s[|s| - 1] == b[|b| - 1];
      StripUnchanged(s);
    }
    assert StripTags(s) == t by {
      StripTagsOneTag(x, b);
      StripTagsPlainPrefix(b, []);
      assert b + [] == b;
    }
    StripOneLeadingSpace(b);
  }

  lemma NoTagStrip(t: string)
    requires NoTag(t)
    ensures NoTag(Strip(t))
  {
    var i := StripWitness(t);
    NoTagSlice(t, i, Strip(t));
  }

  /** Well-formedness of every listing the scraper builds. */
  predicate WellFormed(l: Listing) {
    && l.id != [] && l.id == l.url && l.id == Strip(l.id)
    && l.title != []
    && (l.price == [] || DollarAmount(l.price))
    && ')' !in l.location
    && |l.description| <= 500 && NoTag(l.description)
  }

  /** The body of the `for` loop of `fetch_listings`: `None` for an entry
      whose link is missing or blank (it is skipped), otherwise its listing,
      identified by its stripped link. */
  function EntryListing(e: Entry): (r: Option<Listing>)
    ensures r.None? <==> Strip(OrElse(e.link, "")) == []
    ensures r.Some? ==> WellFormed(r.value) && r.value.id == Strip(OrElse(e.link, ""))
    ensures r.Some? ==> var title := Strip(OrElse(e.title, ""));
      && (title != [] ==> r.value.title == title && r.value.price == TitlePrice(title) && r.value.location == TitleLocation(title))
      && (title == [] ==> r.value.title == "No title" && r.value.price == [] && r.value.location == [])
    ensures r.Some? ==>
      && r.value.url == r.value.id
      && r.value.description == PyTake(PlainSummary(OrElse(e.summary, "")), 500)
      && r.value.published == Strip(OrElse(e.published, OrElse(e.updated, "")))
  {
    var link := Strip(OrElse(e.link, ""));
    if link == [] then None
    else
      StripUnchanged(link);
      Some(MakeListing(link, Strip(OrElse(e.title, "")), PlainSummary(OrElse(e.summary, "")),
        Strip(OrElse(e.published, OrElse(e.updated, "")))))
  }

  /** The listing built from an entry's stripped link and title, its plain
      summary and its date. */
  function MakeListing(link: string, title: string, plain: string, published: string): (l: Listing)
    requires link != [] && link == Strip(link) && NoTag(plain)
    ensures WellFormed(l) && l.id == link && l.published == published
    ensures title != [] ==> l.title == title && l.price == TitlePrice(title) && l.location == TitleLocation(title)
    ensures title == [] ==> l.title == "No title" && l.price == [] && l.location == []
    ensures l.description == PyTake(plain, 500)
    ensures |plain| <= 500 ==> l.description == plain
  {
    var price := if title != [] then TitlePrice(title) else "";
    var loc := if title != [] then TitleLocation(title) else "";
    var description := PyTake(plain, 500);
    NoTagSlice(plain, 0, description);
    Listing(link, if title != [] then title else "No title", link, price, loc, description, published)
  }

  /** `fetch_listings` after the request: the listings of the entries that
      have a link, in feed order. */
  function EntriesToListings(entries: seq<Entry>): (ls: seq<Listing>)
    ensures |ls| <= |entries|
    ensures forall k :: 0 <= k < |ls| ==> WellFormed(ls[k])
  {
    FilterMapKeeps(entries, EntryListing, WellFormed);
    FilterMap(entries, EntryListing)
  }

  /** The entry has a link that is not blank. */
  predicate HasLink(e: Entry) {
    Strip(OrElse(e.link, "")) != []
  }

  lemma LinkDecides(e: Entry)
    ensures EntryListing(e).Some? <==> HasLink(e)
  {
  }

  /** The number of entries with a link. */
  function LinkedCount(entries: seq<Entry>): nat
    decreases |entries|
  {
    if |entries| == 0 then 0
    else LinkedCount(entries[..|entries| - 1]) + (if HasLink(entries[|entries| - 1]) then 1 else 0)
  }

  /** One listing per entry whose link is not blank. */
  lemma {:induction false} EntriesToListingsCount(entries: seq<Entry>)
    ensures |EntriesToListings(entries)| == LinkedCount(entries)
    decreases |entries|
  {
    if |entries| > 0 {
      var init := entries[..|entries| - 1];
      EntriesToListingsCount(init);
      LinkDecides(entries[|entries| - 1]);
      assert EntriesToListings(init) == FilterMap(init, EntryListing);
      assert EntriesToListings(entries) == FilterMap(entries, EntryListing);
    }
  }

  /** The feed is mapped entry by entry: the listings of two runs of entries
      are those of the first followed by those of the second. */
  lemma EntriesToListingsAppend(a: seq<Entry>, b: seq<Entry>)
    ensures EntriesToListings(a + b) == EntriesToListings(a) + EntriesToListings(b)
  {
    FilterMapAppend(a, b, EntryListing);
  }

  /** `fetch_listings`: request the feed at the search's RSS URL (`get` is
      the request and the feed parser; `Raised` is a failed request, which
      propagates) and map its entries to listings. */
  function FetchListings(site: string, category: string, query: string, minPrice: int, maxPrice: int,
                         get: string -> Outcome<seq<Entry>>): (r: Outcome<seq<Listing>>)
    ensures var feed := get(BuildRssUrl(site, category, query, minPrice, maxPrice));
      && (r.Raised? <==> feed.Raised?)
      && (r.Returned? ==> r.value == EntriesToListings(feed.value))
      && (r.Returned? ==> |r.value| == LinkedCount(feed.value))
  {
    match get(BuildRssUrl(site, category, query, minPrice, maxPrice))
    case Raised => Raised
    case Returned(entries) =>
      EntriesToListingsCount(entries);
      Returned(EntriesToListings(entries))
  }
}

/** String helpers shared by the model, each one the Python built-in it
    stands for, restricted to ASCII: `\d`, `\w`, `\s`, `str.isspace`,
    `str.isalpha`, `str.lower` and `str.upper` are all Unicode-aware in
    Python, and this model only covers their ASCII part.
 */
module Text {

  import opened Wrappers

  /** Python's `\d`, ASCII part. */
  predicate IsDigit(c: char) { '0' <= c <= '9' }

  /** Python's `str.isalpha`, ASCII part. */
  predicate IsLetter(c: char) { 'a' <= c <= 'z' || 'A' <= c <= 'Z' }

  /** Python's `\w`, ASCII part. */
  predicate IsWordChar(c: char) { IsLetter(c) || IsDigit(c) || c == '_' }

  /** Python's `str.isspace` and regex `\s`, ASCII part (it includes the
      four separator controls 0x1C..0x1F). */
  predicate IsSpace(c: char) {
    c == ' ' || c == '\t' || c == '\n' || c == '\r' || c == '\U{000B}' || c == '\U{000C}'
    || '\U{001C}' <= c <= '\U{001F}'
  }

  predicate AllDigits(s: string) { forall i :: 0 <= i < |s| ==> IsDigit(s[i]) }

  predicate AllLetters(s: string) { forall i :: 0 <= i < |s| ==> IsLetter(s[i]) }

  predicate AllSpace(s: string) { forall i :: 0 <= i < |s| ==> IsSpace(s[i]) }

  predicate NoDigits(s: string) { forall i :: 0 <= i < |s| ==> !IsDigit(s[i]) }

  // ---------------------------------------------------------------------------
  // Stripping whitespace

  /** The number of whitespace characters `s` starts with. */
  function LeadingSpaces(s: string): (n: nat)
    ensures n <= |s|
    ensures forall k :: 0 <= k < n ==> IsSpace(s[k])
    ensures n == |s| || !IsSpace(s[n])
    decreases |s|
  {
    if |s| > 0 && IsSpace(s[0]) then
      var n := 1 + LeadingSpaces(s[1..]);
      assert forall k :: 1 <= k < n ==> s[k] == s[1..][k - 1];
      n
    else 0
  }

  /** Python's `str.lstrip()`. */
  function StripLeft(s: string): (r: string)
    ensures r == s[LeadingSpaces(s)..]
    ensures r == [] || !IsSpace(r[0])
  {
    s[LeadingSpaces(s)..]
  }

  /** Python's `str.rstrip()`. */
  function StripRight(s: string): (r: string)
    ensures |r| <= |s| && r == s[..|r|]
    ensures forall k :: |r| <= k < |s| ==> IsSpace(s[k])
    ensures r == [] || !IsSpace(r[|r| - 1])
    decreases |s|
  {
    if |s| > 0 && IsSpace(s[|s| - 1]) then StripRight(s[..|s| - 1]) else s
  }

  /** Python's `str.strip()`: the result is the slice of `s` that starts
      after its leading whitespace and leaves only whitespace after it, and
      it neither starts nor ends with whitespace. */
  function Strip(s: string): (r: string)
    ensures LeadingSpaces(s) + |r| <= |s| && r == s[LeadingSpaces(s)..LeadingSpaces(s) + |r|]
    ensures forall k :: LeadingSpaces(s) + |r| <= k < |s| ==> IsSpace(s[k])
    ensures r == [] || (!IsSpace(r[0]) && !IsSpace(r[|r| - 1]))
  {
    var i := LeadingSpaces(s);
    var t := s[i..];
    var r := StripRight(t);
    forall k | i + |r| <= k < |s| ensures IsSpace(s[k]) {
      assert s[k] == t[k - i];
    }
    r
  }

  /** Where `Strip(s)` starts in `s`. */
  lemma StripWitness(s: string) returns (i: nat)
    ensures i + |Strip(s)| <= |s| && Strip(s) == s[i..i + |Strip(s)|]
  {
    i := LeadingSpaces(s);
  }

  /** Stripping keeps a text free of digits. */
  lemma StripKeepsNoDigits(s: string)
    requires NoDigits(s)
    ensures NoDigits(Strip(s))
  {
    var r := Strip(s);
    var i := StripWitness(s);
    forall k | 0 <= k < |r| ensures !IsDigit(r[k]) {
      assert r[k] == s[i + k];
    }
  }

  /** Stripping adds no character. */
  lemma StripKeepsAbsent(s: string, c: char)
    requires c !in s
    ensures c !in Strip(s)
  {
    var r := Strip(s);
    var i := StripWitness(s);
    forall k | 0 <= k < |r| ensures r[k] != c {
      assert r[k] == s[i + k];
    }
  }

  /** A text that neither starts nor ends with whitespace is its own strip. */
  lemma StripUnchanged(s: string)
    requires s == [] || (!IsSpace(s[0]) && !IsSpace(s[|s| - 1]))
    ensures Strip(s) == s
  {
  }

  /** One space in front of an already stripped text is stripped off. */
  lemma StripOneLeadingSpace(s: string)
    requires s != [] && !IsSpace(s[0]) && !IsSpace(s[|s| - 1])
    ensures Strip(" " + s) == s
  {
    var t := " " + s;
    assert t[1..] == s && LeadingSpaces(t) == 1;
  }

  lemma StripEmptyIffAllSpace(s: string)
    ensures Strip(s) == [] <==> AllSpace(s)
  {
    if Strip(s) != [] {
      assert !IsSpace(s[LeadingSpaces(s)]);
    }
  }

  /** Python's `str.rstrip(chars)` for an explicit set of characters. */
  function StripRightOf(s: string, chars: set<char>): (r: string)
    ensures |r| <= |s| && r == s[..|r|]
    ensures forall k :: |r| <= k < |s| ==> s[k] in chars
    ensures r == [] || r[|r| - 1] !in chars
    decreases |s|
  {
    if |s| > 0 && s[|s| - 1] in chars then StripRightOf(s[..|s| - 1], chars) else s
  }

  // ---------------------------------------------------------------------------
  // Case mapping

  function LowerChar(c: char): char {
    if 'A' <= c <= 'Z' then (c as int + 32) as char else c
  }

  function UpperChar(c: char): char {
    if 'a' <= c <= 'z' then (c as int - 32) as char else c
  }

  /** Python's `str.lower()`, ASCII part. */
  function Lower(s: string): (r: string)
    ensures |r| == |s|
    ensures forall i :: 0 <= i < |s| ==> r[i] == LowerChar(s[i])
  {
    seq(|s|, i requires 0 <= i < |s| => LowerChar(s[i]))
  }

  /** Python's `str.upper()`, ASCII part. */
  function Upper(s: string): (r: string)
    ensures |r| == |s|
    ensures forall i :: 0 <= i < |s| ==> r[i] == UpperChar(s[i])
  {
    seq(|s|, i requires 0 <= i < |s| => UpperChar(s[i]))
  }

  lemma UpperAppend(a: string, b: string)
    ensures Upper(a + b) == Upper(a) + Upper(b)
  {
  }

  // ---------------------------------------------------------------------------
  // Slices

  /** Python's slice `s[:n]`; a negative `n` counts from the end. */
  function PyTake<T>(s: seq<T>, n: int): (r: seq<T>)
    ensures |r| <= |s| && r == s[..|r|]
    ensures 0 <= n ==> |r| == if n < |s| then n else |s|
    ensures n < 0 ==> |r| == if -n < |s| then |s| + n else 0
  {
    if 0 <= n then (if n < |s| then s[..n] else s)
    else (if -n < |s| then s[..|s| + n] else [])
  }

  /** Python's slice `s[k:]`; a negative `k` counts from the end. */
  function PyDrop<T>(s: seq<T>, k: int): (r: seq<T>)
    ensures |r| <= |s| && r == s[|s| - |r|..]
    ensures 0 <= k ==> |r| == if k < |s| then |s| - k else 0
    ensures k < 0 ==> |r| == if -k < |s| then -k else |s|
  {
    if 0 <= k then (if k < |s| then s[k..] else [])
    else (if -k < |s| then s[|s| + k..] else s)
  }

  /** `s[:n] + ("..." if len(s) > n else "")`, the shortening used for
      notification texts: at most `n + 3` characters, `s` itself when it
      fits, otherwise its first `n` characters and an ellipsis. */
  function Ellipsize(s: string, n: nat): (r: string)
    ensures |r| <= n + 3
    ensures |s| <= n ==> r == s
    ensures |s| > n ==> |r| == n + 3 && r[..n] == s[..n] && r[n..] == "..."
  {
    PyTake(s, n) + (if |s| > n then "..." else "")
  }

  // ---------------------------------------------------------------------------
  // Substrings, replacement, joining and splitting

  /** Python's `sub in s`. */
  predicate ContainsSub(s: string, sub: string)
    decreases |s|
  {
    sub <= s || (|s| > 0 && ContainsSub(s[1..], sub))
  }

  lemma {:induction false} ContainsSubInMiddle(a: string, b: string, c: string)
    ensures ContainsSub(a + b + c, b)
    decreases |a|
  {
    if |a| == 0 {
      assert a + b + c == b + c;
      assert b <= b + c;
    } else {
      assert (a + b + c)[1..] == a[1..] + b + c;
      ContainsSubInMiddle(a[1..], b, c);
    }
  }

  /** A text that contains `sub` contains its first character. */
  lemma {:induction false} ContainsSubFirstChar(s: string, sub: string)
    requires |sub| > 0 && sub[0] !in s
    ensures !ContainsSub(s, sub)
    decreases |s|
  {
    if |s| > 0 {
      assert forall k :: 0 <= k < |s[1..]| ==> s[1..][k] == s[k + 1];
      ContainsSubFirstChar(s[1..], sub);
    }
  }

  /** Python's `s.replace(pat, rep)` for a non-empty pattern: occurrences are
      replaced left to right without overlapping. */
  function Replace(s: string, pat: string, rep: string): (r: string)
    requires |pat| > 0
    ensures !ContainsSub(s, pat) ==> r == s
    decreases |s|
  {
    if |s| == 0 then s
    else if pat <= s then rep + Replace(s[|pat|..], pat, rep)
    else [s[0]] + Replace(s[1..], pat, rep)
  }

  /** Text before the first possible start of the pattern is copied as it is. */
  lemma {:induction false} ReplacePlainPrefix(a: string, rest: string, pat: string, rep: string)
    requires |pat| > 0 && pat[0] !in a
    ensures Replace(a + rest, pat, rep) == a + Replace(rest, pat, rep)
    decreases |a|
  {
    if |a| == 0 {
      assert a + rest == rest;
    } else {
      var s := a + rest;
      assert s[0] == a[0] && s[1..] == a[1..] + rest;
      assert !(pat <= s) by { assert a[0] in a && s[0] != pat[0]; }
      assert pat[0] !in a[1..] by { assert forall c :: c in a[1..] ==> c in a; }
      ReplacePlainPrefix(a[1..], rest, pat, rep);
      assert Replace(s, pat, rep) == [a[0]] + (a[1..] + Replace(rest, pat, rep));
      assert [a[0]] + a[1..] == a;
    }
  }

  /** A single occurrence of the pattern, with no other place it could
      start, is replaced and nothing else changes. */
  lemma ReplaceOneOccurrence(a: string, b: string, pat: string, rep: string)
    requires |pat| > 0 && pat[0] !in a && pat[0] !in b
    ensures Replace(a + pat + b, pat, rep) == a + rep + b
  {
    assert a + pat + b == a + (pat + b);
    ReplacePlainPrefix(a, pat + b, pat, rep);
    assert pat <= pat + b && (pat + b)[|pat|..] == b;
    ContainsSubFirstChar(b, pat);
  }

  /** A text whose only possible start of the pattern begins something
      else (`mark`, which parts from the pattern at its second character)
      holds no occurrence and is left alone. */
  lemma ReplaceOtherMark(a: string, mark: string, b: string, pat: string, rep: string)
    requires |pat| >= 2 && |mark| >= 2 && mark[0] == pat[0] && mark[1] != pat[1]
    requires pat[0] !in a && pat[0] !in mark[1..] && pat[0] !in b
    ensures Replace(a + mark + b, pat, rep) == a + mark + b
  {
    var s := mark + b;
    assert a + mark + b == a + s;
    ReplacePlainPrefix(a, s, pat, rep);
    assert s[1] == mark[1] && !(pat <= s);
    assert s[1..] == mark[1..] + b;
    assert pat[0] !in s[1..];
    ContainsSubFirstChar(s[1..], pat);
    assert [s[0]] + s[1..] == s;
  }

  /** Replacing a single character by text that does not contain it leaves
      no occurrence of that character behind. */
  lemma {:induction false} ReplaceCharRemovesIt(s: string, c: char, rep: string)
    requires c !in rep
    ensures c !in Replace(s, [c], rep)
    decreases |s|
  {
    if |s| > 0 {
      ReplaceCharRemovesIt(s[1..], c, rep);
      if [c] <= s {
        assert s[|[c]|..] == s[1..];
      } else {
        assert s[0] != c;
      }
    }
  }

  /** Python's `sep.join(parts)`. */
  function Join(parts: seq<string>, sep: string): (r: string)
    ensures |parts| == 0 ==> r == []
    ensures |parts| == 1 ==> r == parts[0]
  {
    if |parts| == 0 then []
    else if |parts| == 1 then parts[0]
    else parts[0] + sep + Join(parts[1..], sep)
  }

  /** Joining a part in front of at least one more. */
  lemma JoinCons(p: string, rest: seq<string>, sep: string)
    requires |rest| >= 1
    ensures Join([p] + rest, sep) == p + sep + Join(rest, sep)
  {
    assert ([p] + rest)[1..] == rest;
  }

  /** Index of the first occurrence of `c`. */
  function IndexOf(s: string, c: char): (i: nat)
    requires c in s
    ensures i < |s| && s[i] == c && c !in s[..i]
  {
    if s[0] == c then 0 else 1 + IndexOf(s[1..], c)
  }

  /** Python's `s.split(c)` for a one-character separator. */
  function SplitOnChar(s: string, c: char): (r: seq<string>)
    ensures |r| >= 1
    ensures forall k :: 0 <= k < |r| ==> c !in r[k]
    decreases |s|
  {
    if c !in s then [s]
    else
      var i := IndexOf(s, c);
      [s[..i]] + SplitOnChar(s[i + 1..], c)
  }

  /** Splitting on `c` and joining back with `c` gives the text back. */
  lemma {:induction false} JoinSplitOnChar(s: string, c: char)
    ensures Join(SplitOnChar(s, c), [c]) == s
    decreases |s|
  {
    if c in s {
      var i := IndexOf(s, c);
      var head, tail := s[..i], s[i + 1..];
      var rest := SplitOnChar(tail, c);
      var parts := [head] + rest;
      assert SplitOnChar(s, c) == parts;
      JoinSplitOnChar(tail, c);
      assert parts[0] == head && parts[1..] == rest;
      assert Join(parts, [c]) == head + [c] + Join(rest, [c]);
      assert s == head + [c] + tail;
    }
  }

  /** Joining pieces that do not contain `c` with `c`, then splitting on
      `c`, gives the pieces back. */
  lemma {:induction false} SplitJoinOnChar(parts: seq<string>, c: char)
    requires |parts| >= 1
    requires forall k :: 0 <= k < |parts| ==> c !in parts[k]
    ensures SplitOnChar(Join(parts, [c]), c) == parts
    decreases |parts|
  {
    if |parts| > 1 {
      var head, rest := parts[0], parts[1..];
      var tail := Join(rest, [c]);
      var s := head + [c] + tail;
      assert Join(parts, [c]) == s;
      IndexOfAfter(head, c, tail);
      assert s[..|head|] == head;
      assert s[|head| + 1..] == tail;
      assert SplitOnChar(s, c) == [head] + SplitOnChar(tail, c);
      SplitJoinOnChar(rest, c);
      assert parts == [head] + rest;
    }
  }

  /** The first `c` of `p + [c] + t` is the one after `p` when `p` has none. */
  lemma {:induction false} IndexOfAfter(p: string, c: char, t: string)
    requires c !in p
    ensures c in p + [c] + t && IndexOf(p + [c] + t, c) == |p|
    ensures (p + [c] + t)[..|p|] == p && (p + [c] + t)[|p| + 1..] == t
    decreases |p|
  {
    var s := p + [c] + t;
    assert s[|p|] == c;
    assert s[..|p|] == p && s[|p| + 1..] == t;
    if p != [] {
      assert s[1..] == p[1..] + [c] + t;
      IndexOfAfter(p[1..], c, t);
    }
  }

  // ---------------------------------------------------------------------------
  // Decimal numbers

  function DigitValue(c: char): nat
    requires IsDigit(c)
  {
    c as int - '0' as int
  }

  function DigitChar(n: nat): (c: char)
    requires n < 10
    ensures IsDigit(c) && DigitValue(c) == n
  {
    ('0' as int + n) as char
  }

  /** The value of a run of decimal digits, as Python's `int()` reads it. */
  function DigitsValue(d: string): nat
    requires AllDigits(d)
    decreases |d|
  {
    if |d| == 0 then 0 else 10 * DigitsValue(d[..|d| - 1]) + DigitValue(d[|d| - 1])
  }

  /** Reading two digit runs written one after the other. */
  lemma {:induction false} DigitsValueAppend(a: string, b: string)
    requires AllDigits(a) && AllDigits(b)
    ensures AllDigits(a + b)
    ensures DigitsValue(a + b) == DigitsValue(a) * Pow10(|b|) + DigitsValue(b)
    decreases |b|
  {
    if |b| == 0 {
      assert a + b == a;
    } else {
      var b' := b[..|b| - 1];
      var d := DigitValue(b[|b| - 1]);
      assert (a + b)[..|a + b| - 1] == a + b';
      assert (a + b)[|a + b| - 1] == b[|b| - 1];
      DigitsValueAppend(a, b');
      var va, p := DigitsValue(a), Pow10(|b'|);
      var x, y := DigitsValue(a + b'), DigitsValue(b');
      assert DigitsValue(a + b) == 10 * x + d;
      assert x == va * p + y;
      assert DigitsValue(b) == 10 * y + d;
      assert Pow10(|b|) == 10 * p;
      Scale10(va, p);
    }
  }

  lemma Scale10(x: int, y: int)
    ensures x * (10 * y) == 10 * (x * y)
  {
  }

  /** A digit run's value is below 10 to the power of its length. */
  function Pow10(k: nat): (r: nat)
    ensures r >= 1
  {
    if k == 0 then 1 else 10 * Pow10(k - 1)
  }

  predicate DigitsOrUnderscores(d: string) {
    forall k :: 0 <= k < |d| ==> IsDigit(d[k]) || d[k] == '_'
  }

  /** Digits, with single underscores allowed between two digits, as
      Python's integer literals write them (`10_000`). */
  predicate DigitRun(d: string) {
    && |d| > 0 && IsDigit(d[0]) && IsDigit(d[|d| - 1])
    && DigitsOrUnderscores(d)
    && (forall k :: 0 <= k < |d| - 1 && d[k] == '_' ==> d[k + 1] != '_')
  }

  /** Python's default cap on the number of digits `int()` converts from a
      decimal text (`sys.get_int_max_str_digits()`, Python 3.11 onwards);
      a longer text raises `ValueError`. */
  const IntMaxStrDigits: nat := 4300

  /** The text with its underscores left out. */
  function DropUnderscores(d: string): (r: string)
    ensures |r| <= |d|
    decreases |d|
  {
    if |d| == 0 then []
    else (if d[0] == '_' then [] else [d[0]]) + DropUnderscores(d[1..])
  }

  /** Leaving the underscores out of digits and underscores leaves digits,
      and leaves a digit string as it is. */
  lemma {:induction false} DropUnderscoresDigits(d: string)
    requires DigitsOrUnderscores(d)
    ensures AllDigits(DropUnderscores(d))
    ensures AllDigits(d) ==> DropUnderscores(d) == d
    decreases |d|
  {
    if |d| > 0 {
      assert DigitsOrUnderscores(d[1..]) by {
        forall k | 0 <= k < |d| - 1 ensures IsDigit(d[1..][k]) || d[1..][k] == '_' {
          assert d[1..][k] == d[k + 1];
        }
      }
      DropUnderscoresDigits(d[1..]);
      var r := DropUnderscores(d);
      var rest := DropUnderscores(d[1..]);
      assert AllDigits(r) by {
        forall k | 0 <= k < |r| ensures IsDigit(r[k]) {
          if d[0] == '_' { assert r[k] == rest[k]; }
          else if k > 0 { assert r[k] == rest[k - 1]; }
        }
      }
      if AllDigits(d) {
        assert AllDigits(d[1..]) by {
          forall k | 0 <= k < |d| - 1 ensures IsDigit(d[1..][k]) {
            assert d[1..][k] == d[k + 1];
          }
        }
        assert d[0] != '_';
        assert [d[0]] + d[1..] == d;
      }
    }
  }

  lemma {:induction false} DropUnderscoresAppend(a: string, b: string)
    ensures DropUnderscores(a + b) == DropUnderscores(a) + DropUnderscores(b)
    decreases |a|
  {
    if |a| == 0 {
      assert a + b == b;
    } else {
      assert (a + b)[1..] == a[1..] + b;
      DropUnderscoresAppend(a[1..], b);
    }
  }

  /** Two digit groups joined by an underscore form a digit run whose
      digits are the two groups together. */
  lemma DigitGroupsJoin(a: string, b: string)
    requires |a| > 0 && AllDigits(a) && |b| > 0 && AllDigits(b)
    ensures DigitRun(a + "_" + b)
    ensures DropUnderscores(a + "_" + b) == a + b
  {
    var u := ['_'] + b;
    var t := a + u;
    assert t == a + "_" + b;
    assert DigitRun(t) by {
      assert forall k :: 0 <= k < |a| ==> t[k] == a[k];
      assert forall k :: |a| < k < |t| ==> t[k] == b[k - |a| - 1];
      assert t[|a|] == '_';
      assert forall k :: 0 <= k < |t| - 1 && t[k] == '_' ==> t[k + 1] != '_';
      assert t[0] == a[0] && t[|t| - 1] == b[|b| - 1];
    }
    assert DropUnderscores(t) == a + b by {
      DropUnderscoresAppend(a, u);
      assert u[1..] == b;
      assert DropUnderscores(u) == DropUnderscores(b);
      DropUnderscoresDigits(a);
      DropUnderscoresDigits(b);
    }
  }

  lemma {:induction false} DigitsValueBound(d: string)
    requires AllDigits(d)
    ensures DigitsValue(d) < Pow10(|d|)
    decreases |d|
  {
    if |d| > 0 {
      DigitsValueBound(d[..|d| - 1]);
    }
  }

  /** Python's `str(n)` for a natural number: no leading zero, and reading
      it back gives `n`. */
  function NatToString(n: nat): (r: string)
    ensures |r| >= 1 && AllDigits(r)
    ensures |r| > 1 ==> r[0] != '0'
    ensures DigitsValue(r) == n
  {
    if n < 10 then [DigitChar(n)]
    else
      var p := NatToString(n / 10);
      var r := p + [DigitChar(n % 10)];
      assert r[..|r| - 1] == p;
      r
  }

  /** Python's `str(i)` for an integer. */
  function IntToString(i: int): (r: string)
    ensures |r| >= 1
    ensures i >= 0 ==> AllDigits(r) && DigitsValue(r) == i
    ensures i < 0 ==> r[0] == '-' && AllDigits(r[1..]) && DigitsValue(r[1..]) == -i
  {
    if i < 0 then "-" + NatToString(-i) else NatToString(i)
  }

  // ---------------------------------------------------------------------------
  // Scanning, the building blocks of the hand-written regular expressions

  /** The end of the longest run of characters satisfying `p` from `i`
      (a greedy `[...]*`). */
  function RunEnd(s: string, i: nat, p: char -> bool): (k: nat)
    requires i <= |s|
    ensures i <= k <= |s|
    ensures forall j :: i <= j < k ==> p(s[j])
    ensures k == |s| || !p(s[k])
    decreases |s| - i
  {
    if i < |s| && p(s[i]) then RunEnd(s, i + 1, p) else i
  }

  /** A run that ends where `p` first fails is the longest one. */
  lemma {:induction false} RunEndUnique(s: string, i: nat, j: nat, p: char -> bool)
    requires i <= j <= |s|
    requires forall x :: i <= x < j ==> p(s[x])
    requires j == |s| || !p(s[j])
    ensures RunEnd(s, i, p) == j
    decreases j - i
  {
    if i < j {
      RunEndUnique(s, i + 1, j, p);
    }
  }

  /** Python's `re.search` over a pattern whose match at each start position
      is given by `at`: the leftmost position in `from..to` where it matches,
      with what it matched there. */
  function Leftmost<T>(at: nat -> Option<T>, lo: nat, hi: nat): (r: Option<(nat, T)>)
    ensures r.Some? ==> lo <= r.value.0 <= hi && at(r.value.0) == Some(r.value.1)
    ensures r.Some? ==> forall q :: lo <= q < r.value.0 ==> at(q).None?
    ensures r.None? ==> forall q :: lo <= q <= hi ==> at(q).None?
    decreases hi + 1 - lo
  {
    if lo > hi then None
    else match at(lo)
      case Some(v) => Some((lo, v))
      case None => Leftmost(at, lo + 1, hi)
  }

  /** A character missing from a text is missing from its head and tail. */
  lemma AbsentFromTail(a: string, c: char)
    requires |a| > 0 && c !in a
    ensures a[0] != c && c !in a[1..]
  {
    assert a[0] in a;
    assert forall x :: x in a[1..] ==> x in a;
  }
}

/**
 * `FacebookParser._parse_number`: the count normaliser. It searches the
 * lower-cased text for the regular expression `(\d+(?:[.,]\d+)?)(?:\s*([km]))?`,
 * reads the match as a decimal number (a comma is a decimal point), scales it
 * by the suffix and truncates.
 */
module NumberParsing {
  import opened Wrappers
  import opened Text

  /** The optional suffix `k` or `m` that follows the number. */
  datatype Scale = Unit | Thousand | Million

  /**
   * What the regular expression captured: the integer digits, the fractional
   * digits (empty when there is no `[.,]\d+` part) and the suffix.
   */
  datatype NumberMatch = NumberMatch(integral: string, fraction: string, scale: Scale)

  predicate WellFormed(m: NumberMatch) {
    m.integral != [] && AllDigits(m.integral) && AllDigits(m.fraction)
  }

  function Multiplier(scale: Scale): nat {
    match scale
    case Unit => 1
    case Thousand => 1_000
    case Million => 1_000_000
  }

  function Pow10(n: nat): (p: nat)
    ensures p >= 1
  {
    if n == 0 then 1 else 10 * Pow10(n - 1)
  }

  function DigitValue(c: char): nat
    requires IsDigit(c)
  {
    c as int - '0' as int
  }

  /** The number a string of decimal digits denotes (`int("…")`). */
  function DecimalValue(d: string): (v: nat)
    requires AllDigits(d)
    ensures v < Pow10(|d|)
  {
    if d == [] then 0 else 10 * DecimalValue(d[..|d| - 1]) + DigitValue(d[|d| - 1])
  }

  /** The longest prefix of `s` made of digits: what a greedy `\d*` consumes. */
  function DigitPrefix(s: string): (d: string)
    ensures d <= s && AllDigits(d)
    ensures |d| == |s| || !IsDigit(s[|d|])
  {
    if |s| > 0 && IsDigit(s[0]) then [s[0]] + DigitPrefix(s[1..]) else []
  }

  predicate IsDecimalSeparator(c: char) {
    c == '.' || c == ','
  }

  /** `[.,]\d` can start at the head of `s`. */
  predicate StartsFraction(s: string) {
    |s| >= 2 && IsDecimalSeparator(s[0]) && IsDigit(s[1])
  }

  /** The suffix that `\s*([km])` reads at the head of `s`, if any. */
  function ScaleAt(s: string): Scale {
    var t := TrimStart(s);
    if |t| > 0 && t[0] == 'k' then Thousand
    else if |t| > 0 && t[0] == 'm' then Million
    else Unit
  }

  /** The match the regular expression makes when it starts on the digit at the head of `s`. */
  function ReadNumber(s: string): (m: NumberMatch)
    requires |s| > 0 && IsDigit(s[0])
    ensures WellFormed(m)
  {
    var integral := DigitPrefix(s);
    var rest := s[|integral|..];
    if StartsFraction(rest) then
      var fraction := DigitPrefix(rest[1..]);
      NumberMatch(integral, fraction, ScaleAt(rest[1 + |fraction|..]))
    else
      NumberMatch(integral, [], ScaleAt(rest))
  }

  /**
   * `re.search`: the pattern has to begin with a digit, so the leftmost match
   * starts at the first digit of `s`, and there is none when `s` has no digit.
   */
  function SearchNumber(s: string): (r: Option<NumberMatch>)
    ensures r.Some? ==> WellFormed(r.value)
  {
    if |s| == 0 then None
    else if IsDigit(s[0]) then Some(ReadNumber(s))
    else SearchNumber(s[1..])
  }

  /**
   * The value of a match: integer part plus decimal fraction, times the
   * multiplier, truncated toward zero (every quantity is non-negative).
   */
  function MatchValue(m: NumberMatch): nat
    requires WellFormed(m)
  {
    Truncated(DecimalValue(m.integral), DecimalValue(m.fraction), Pow10(|m.fraction|), Multiplier(m.scale))
  }

  /** `int((whole + part / q) * k)` computed exactly. */
  function Truncated(whole: nat, part: nat, q: nat, k: nat): nat
    requires q >= 1
  {
    (whole * q + part) * k / q
  }

  /** `_parse_number(text)`: `None` when no number is found, else the normalised count. */
  function ParseNumber(text: string): Option<nat> {
    match SearchNumber(Lower(text))
    case None => None
    case Some(m) => Some(MatchValue(m))
  }

  // ---------------------------------------------------------------------
  // Properties

  /** The search fails exactly when there is no digit at all. */
  lemma {:induction false} SearchNoneIffNoDigit(s: string)
    ensures SearchNumber(s).None? <==> !HasDigit(s)
  {
    if |s| > 0 && !IsDigit(s[0]) {
      SearchNoneIffNoDigit(s[1..]);
      if HasDigit(s) {
        var i :| 0 <= i < |s| && IsDigit(s[i]);
        assert IsDigit(s[1..][i - 1]);
      }
      if HasDigit(s[1..]) {
        var i :| 0 <= i < |s[1..]| && IsDigit(s[1..][i]);
        assert IsDigit(s[i + 1]);
      }
    }
  }

  /** `_parse_number` returns `None` exactly when the text holds no digit. */
  lemma ParseNumberNoneIffNoDigit(text: string)
    ensures ParseNumber(text).None? <==> !HasDigit(text)
  {
    LowerKeepsDigits(text);
    SearchNoneIffNoDigit(Lower(text));
  }

  /** Text that starts on a digit is matched from its first character. */
  lemma SearchAtDigit(s: string)
    requires |s| > 0 && IsDigit(s[0])
    ensures SearchNumber(s) == Some(ReadNumber(s))
  {
  }

  /** Text before the first digit plays no part in the result. */
  lemma {:induction false} SearchSkipsDigitFreePrefix(p: string, s: string)
    requires !HasDigit(p)
    ensures SearchNumber(p + s) == SearchNumber(s)
  {
    if p != [] {
      assert !IsDigit(p[0]);
      assert (p + s)[1..] == p[1..] + s;
      assert !HasDigit(p[1..]) by {
        forall i | 0 <= i < |p[1..]| ensures !IsDigit(p[1..][i]) {
          assert p[1..][i] == p[i + 1];
        }
      }
      SearchSkipsDigitFreePrefix(p[1..], s);
    } else {
      assert p + s == s;
    }
  }

  /** A digit string followed by a non-digit is read as exactly that digit string. */
  lemma {:induction false} DigitPrefixOf(d: string, t: string)
    requires AllDigits(d)
    requires t == [] || !IsDigit(t[0])
    ensures DigitPrefix(d + t) == d
  {
    if d != [] {
      assert (d + t)[1..] == d[1..] + t;
      DigitPrefixOf(d[1..], t);
      assert d == [d[0]] + d[1..];
    } else {
      assert d + t == t;
    }
  }

  /** A suffix written as whitespace then `k`/`m` is read as that suffix. */
  lemma {:induction false} ScaleAtGap(gap: string, c: char, t: string)
    requires AllSpace(gap)
    requires c == 'k' || c == 'm'
    ensures ScaleAt(gap + [c] + t) == (if c == 'k' then Thousand else Million)
  {
    TrimStartSpaces(gap, [c] + t);
    assert gap + [c] + t == gap + ([c] + t);
  }

  /** How a suffix can be written: whitespace `gap`, then the letter. */
  function SuffixText(scale: Scale, gap: string): string {
    match scale
    case Unit => []
    case Thousand => gap + "k"
    case Million => gap + "m"
  }

  /** The text a match can be written as, with separator `sep` and whitespace `gap` before the suffix. */
  function Render(m: NumberMatch, sep: char, gap: string): string {
    m.integral + (if m.fraction == [] then [] else [sep] + m.fraction) + SuffixText(m.scale, gap)
  }

  /**
   * `tail` cannot extend the match `m` that precedes it: when the match has
   * no suffix, no more digits, no fractional part (if `m` has none) and no
   * suffix letter follow.
   */
  predicate Ends(m: NumberMatch, tail: string) {
    m.scale == Unit ==>
      (tail == [] || !IsDigit(tail[0]))
      && (m.fraction == [] ==> !StartsFraction(tail))
      && ScaleAt(tail) == Unit
  }

  /** What follows the digits of a rendered match reads as its suffix and nothing more. */
  lemma SuffixRead(m: NumberMatch, gap: string, tail: string)
    requires AllSpace(gap) && Ends(m, tail)
    ensures var after := SuffixText(m.scale, gap) + tail;
      && ScaleAt(after) == m.scale
      && (after == [] || !IsDigit(after[0]))
      && (m.fraction == [] ==> !StartsFraction(after))
  {
    var after := SuffixText(m.scale, gap) + tail;
    match m.scale {
      case Unit =>
        assert after == tail;
      case Thousand =>
        assert after == gap + ['k'] + tail;
        ScaleAtGap(gap, 'k', tail);
        assert after[0] == if gap == [] then 'k' else gap[0];
      case Million =>
        assert after == gap + ['m'] + tail;
        ScaleAtGap(gap, 'm', tail);
        assert after[0] == if gap == [] then 'm' else gap[0];
    }
  }

  /** Reading a rendered match back from its first digit gives the match. */
  lemma ReadRendered(m: NumberMatch, sep: char, gap: string, tail: string)
    requires WellFormed(m) && IsDecimalSeparator(sep) && AllSpace(gap)
    requires Ends(m, tail)
    ensures var s := Render(m, sep, gap) + tail; |s| > 0 && IsDigit(s[0]) && ReadNumber(s) == m
  {
    var after := SuffixText(m.scale, gap) + tail;
    var frac := if m.fraction == [] then [] else [sep] + m.fraction;
    var s := Render(m, sep, gap) + tail;
    SeqAssoc(m.integral, frac, SuffixText(m.scale, gap), tail);
    assert s == m.integral + (frac + after);
    assert s[0] == m.integral[0];
    SuffixRead(m, gap, tail);
    if m.fraction == [] {
      assert frac + after == after;
      ReadDigitsThen(m.integral, after);
    } else {
      ReadDigitsThenFraction(m.integral, sep, m.fraction, after);
    }
  }

  lemma SeqAssoc(a: string, b: string, c: string, d: string)
    ensures a + b + c + d == a + (b + (c + d))
  {
  }

  lemma ReadDigitsThen(d: string, after: string)
    requires d != [] && AllDigits(d)
    requires (after == [] || !IsDigit(after[0])) && !StartsFraction(after)
    ensures ReadNumber(d + after) == NumberMatch(d, [], ScaleAt(after))
  {
    DigitPrefixOf(d, after);
    assert (d + after)[|d|..] == after;
  }

  lemma ReadDigitsThenFraction(d: string, sep: char, f: string, after: string)
    requires d != [] && AllDigits(d) && f != [] && AllDigits(f) && IsDecimalSeparator(sep)
    requires after == [] || !IsDigit(after[0])
    ensures ReadNumber(d + ([sep] + f + after)) == NumberMatch(d, f, ScaleAt(after))
  {
    var rest := [sep] + f + after;
    DigitPrefixOf(d, rest);
    assert (d + rest)[|d|..] == rest;
    assert StartsFraction(rest);
    assert rest[1..] == f + after;
    DigitPrefixOf(f, after);
    assert rest[1 + |f|..] == after;
  }

  /**
   * Reference reading of the search: digit-free text, then a number written
   * out as `Render` does, then text that cannot extend it, is matched as
   * exactly that number.
   */
  lemma SearchRendered(p: string, m: NumberMatch, sep: char, gap: string, tail: string)
    requires !HasDigit(p)
    requires WellFormed(m) && IsDecimalSeparator(sep) && AllSpace(gap)
    requires Ends(m, tail)
    ensures SearchNumber(p + Render(m, sep, gap) + tail) == Some(m)
  {
    var r := Render(m, sep, gap);
    var t := r + tail;
    ReadRendered(m, sep, gap, tail);
    SearchAtDigit(t);
    assert p + r + tail == p + t;
    SearchSkipsDigitFreePrefix(p, t);
  }

  /** `_parse_number` on text that lower-cases to digit-free text, a written-out number and a tail that cannot extend it. */
  lemma ParseRendered(text: string, p: string, m: NumberMatch, sep: char, gap: string, tail: string)
    requires !HasDigit(p)
    requires WellFormed(m) && IsDecimalSeparator(sep) && AllSpace(gap)
    requires Ends(m, tail)
    requires Lower(text) == p + Render(m, sep, gap) + tail
    ensures ParseNumber(text) == Some(MatchValue(m))
  {
    SearchRendered(p, m, sep, gap, tail);
  }

  /**
   * Only the leftmost number counts: once a number is followed by optional
   * whitespace and a word that cannot continue it, nothing in the rest of
   * the word (later numbers, later suffixes) changes the result; so
   * `"12 vues 5 k"` gives 12.
   */
  lemma ParseNumberLeftmost(text: string, p: string, m: NumberMatch, sep: char, gap: string, space: string, word: string)
    requires !HasDigit(p)
    requires WellFormed(m) && IsDecimalSeparator(sep) && AllSpace(gap) && AllSpace(space)
    requires word != [] && !IsDigit(word[0]) && !IsDecimalSeparator(word[0]) && !IsSpace(word[0])
    requires word[0] != 'k' && word[0] != 'm'
    requires Lower(text) == p + Render(m, sep, gap) + (space + word)
    ensures ParseNumber(text) == Some(MatchValue(m))
  {
    TrimStartSpaces(space, word);
    assert (space + word)[0] == if space == [] then word[0] else space[0];
    ParseRendered(text, p, m, sep, gap, space + word);
  }

  /** The documented example: a comma is a decimal point and `K` (any case) means thousands. */
  lemma ParseNumberCommaThousands()
    ensures ParseNumber("3,2 K commentaires") == Some(3200)
  {
    var m := NumberMatch("3", "2", Thousand);
    assert Lower("3,2 K commentaires") == "" + Render(m, ',', " ") + " commentaires";
    assert MatchValue(m) == 3200;
    ParseRendered("3,2 K commentaires", "", m, ',', " ", " commentaires");
  }

  /** A point is a decimal point too, and the value is truncated, not rounded. */
  lemma ParseNumberTruncates()
    ensures ParseNumber("1.9") == Some(1)
  {
    var m := NumberMatch("1", "9", Unit);
    assert Lower("1.9") == "" + Render(m, '.', "") + "";
    assert MatchValue(m) == 1;
    ParseRendered("1.9", "", m, '.', "", "");
  }

  /** `M` (any case) means millions. */
  lemma ParseNumberMillions()
    ensures ParseNumber("1 M vues") == Some(1_000_000)
  {
    var m := NumberMatch("1", "", Million);
    assert Lower("1 M vues") == "" + Render(m, '.', " ") + " vues";
    assert MatchValue(m) == 1_000_000;
    ParseRendered("1 M vues", "", m, '.', " ", " vues");
  }

  /** The pattern has no sign: a minus sign is text before the number. */
  lemma ParseNumberIgnoresSign()
    ensures ParseNumber("-5") == Some(5)
  {
    var m := NumberMatch("5", "", Unit);
    assert Lower("-5") == "-" + Render(m, '.', "") + "";
    assert !HasDigit("-");
    ParseRendered("-5", "-", m, '.', "", "");
  }

  /**
   * The suffix letter needs no word boundary after it: the `m` that starts
   * a following word still multiplies by a million.
   */
  lemma ParseNumberSuffixInWord()
    ensures ParseNumber("2 mois") == Some(2_000_000)
  {
    var m := NumberMatch("2", "", Million);
    assert Lower("2 mois") == "" + Render(m, '.', " ") + "ois";
    assert MatchValue(m) == 2_000_000;
    ParseRendered("2 mois", "", m, '.', " ", "ois");
  }

  /** Text without digits gives `None`. */
  lemma ParseNumberNoDigits()
    ensures ParseNumber("no digits here") == None
  {
    assert !HasDigit("no digits here");
    ParseNumberNoneIffNoDigit("no digits here");
  }

  /**
   * Truncation, not rounding: the value lies between the integer part scaled
   * and the next integer scaled, and equals the scaled integer part when
   * there is no fraction.
   */
  lemma ValueBounds(m: NumberMatch)
    requires WellFormed(m)
    ensures DecimalValue(m.integral) * Multiplier(m.scale) <= MatchValue(m)
    ensures MatchValue(m) < (DecimalValue(m.integral) + 1) * Multiplier(m.scale)
    ensures m.fraction == [] ==> MatchValue(m) == DecimalValue(m.integral) * Multiplier(m.scale)
  {
    TruncatedBounds(DecimalValue(m.integral), DecimalValue(m.fraction), Pow10(|m.fraction|), Multiplier(m.scale));
  }

  lemma TruncatedBounds(whole: nat, part: nat, q: nat, k: nat)
    requires 1 <= q && part < q && 1 <= k
    ensures whole * k <= Truncated(whole, part, q, k) < (whole + 1) * k
    ensures part == 0 ==> Truncated(whole, part, q, k) == whole * k
  {
    var wk := whole * k;
    var n := (whole * q + part) * k;
    Regroup(whole, part, q, k);
    MulMono(part, q, k);
    DivLower(n, q, wk);
    DivUpper(n, q, wk + k);
    if part == 0 {
      DivUpper(n, q, wk + 1);
    }
  }

  /** `(whole * q + part) * k` regrouped around the scaled integer part. */
  lemma Regroup(whole: nat, part: nat, q: nat, k: nat)
    ensures (whole * q + part) * k == (whole * k) * q + part * k
    ensures (whole * k + k) * q == (whole * k) * q + k * q
    ensures (whole + 1) * k == whole * k + k
    ensures (whole * k + 1) * q == (whole * k) * q + q
  {
  }

  lemma MulMono(x: nat, y: nat, k: nat)
    requires x < y && 1 <= k
    ensures x * k < y * k
  {
    assert y * k == x * k + (y - x) * k;
  }

  lemma DivLower(n: nat, q: nat, a: nat)
    requires 1 <= q && a * q <= n
    ensures a <= n / q
  {
    var d := n / q;
    assert n == d * q + n % q;
    if d < a {
      MulMono(d, a, q);
      assert (d + 1) * q <= a * q by {
        if d + 1 < a { MulMono(d + 1, a, q); }
      }
    }
  }

  lemma DivUpper(n: nat, q: nat, b: nat)
    requires 1 <= q && n < b * q
    ensures n / q < b
  {
    assert n == (n / q) * q + n % q;
  }
}

/**
 * Character classes and string operations of Python's `str`, restricted to
 * ASCII text: `isdigit`/`\d`, `isspace`/`\s`, `lower`, `strip`, `startswith`
 * and the `in` substring test.
 */
module Text {

  /** An ASCII decimal digit: what `\d` and `str.isdigit` accept among ASCII characters. */
  predicate IsDigit(c: char) {
    '0' <= c <= '9'
  }

  /**
   * ASCII whitespace as Python's `str.strip` and the regex class `\s` see it:
   * space, tab, line feed, vertical tab, form feed, carriage return and the
   * four information separators 0x1C-0x1F.
   */
  predicate IsSpace(c: char) {
    c == ' ' || '\t' <= c <= '\r' || '\U{1C}' <= c <= '\U{1F}'
  }

  predicate HasDigit(s: string) {
    exists i :: 0 <= i < |s| && IsDigit(s[i])
  }

  predicate AllDigits(s: string) {
    forall i :: 0 <= i < |s| ==> IsDigit(s[i])
  }

  predicate AllSpace(s: string) {
    forall i :: 0 <= i < |s| ==> IsSpace(s[i])
  }

  /** `str.startswith`. */
  predicate StartsWith(s: string, prefix: string) {
    prefix <= s
  }

  /** Python's `sub in s`. */
  predicate Contains(s: string, sub: string) {
    exists i :: 0 <= i <= |s| && sub <= s[i..]
  }

  function LowerChar(c: char): char {
    if IsUpper(c) then (c as int + 32) as char else c
  }

  /** `str.lower` on ASCII text: upper-case letters become lower-case, nothing else changes. */
  function Lower(s: string): (r: string)
    ensures |r| == |s|
    ensures forall i :: 0 <= i < |s| ==> r[i] == LowerChar(s[i])
  {
    seq(|s|, i requires 0 <= i < |s| => LowerChar(s[i]))
  }

  predicate IsUpper(c: char) {
    'A' <= c <= 'Z'
  }

  /** The end of the run of whitespace that starts at position `i`. */
  function SpacesFrom(s: string, i: nat): (j: nat)
    requires i <= |s|
    ensures i <= j <= |s|
    ensures forall k :: i <= k < j ==> IsSpace(s[k])
    ensures j == |s| || !IsSpace(s[j])
    decreases |s| - i
  {
    if i < |s| && IsSpace(s[i]) then SpacesFrom(s, i + 1) else i
  }

  /** The start of the run of whitespace that ends just before position `j`. */
  function SpacesBefore(s: string, j: nat): (i: nat)
    requires j <= |s|
    ensures i <= j
    ensures forall k :: i <= k < j ==> IsSpace(s[k])
    ensures i == 0 || !IsSpace(s[i - 1])
  {
    if j > 0 && IsSpace(s[j - 1]) then SpacesBefore(s, j - 1) else j
  }

  /** `str.lstrip()`: drop leading whitespace. */
  function TrimStart(s: string): string {
    s[SpacesFrom(s, 0)..]
  }

  /** `str.strip()`: drop leading and trailing whitespace. */
  function Strip(s: string): string {
    var i := SpacesFrom(s, 0);
    var j := SpacesBefore(s, |s|);
    if i < j then s[i..j] else []
  }

  /**
   * What `strip` returns: a contiguous piece of the input, with only
   * whitespace cut away on either side, that neither starts nor ends with
   * whitespace.
   */
  lemma StripShape(s: string)
    ensures exists i, j ::
              0 <= i <= j <= |s| && Strip(s) == s[i..j] && AllSpace(s[..i]) && AllSpace(s[j..])
    ensures Strip(s) == [] || (!IsSpace(Strip(s)[0]) && !IsSpace(Strip(s)[|Strip(s)| - 1]))
  {
    var i := SpacesFrom(s, 0);
    var j := SpacesBefore(s, |s|);
    if i < j {
      SpacesAround(s, i, j);
      var r := s[i..j];
      assert r[0] == s[i] && r[|r| - 1] == s[j - 1];
    } else {
      SpacesAround(s, i, i);
      assert Strip(s) == s[i..i];
    }
  }

  lemma SpacesAround(s: string, i: nat, j: nat)
    requires i <= j <= |s|
    requires forall k :: 0 <= k < i ==> IsSpace(s[k])
    requires forall k :: j <= k < |s| ==> IsSpace(s[k])
    ensures AllSpace(s[..i]) && AllSpace(s[j..])
  {
    assert forall k :: 0 <= k < i ==> s[..i][k] == s[k];
    assert forall k :: 0 <= k < |s| - j ==> s[j..][k] == s[j + k];
  }

  /** A string is stripped to nothing exactly when it is all whitespace. */
  lemma StripEmptyIffAllSpace(s: string)
    ensures Strip(s) == [] <==> AllSpace(s)
  {
    var i := SpacesFrom(s, 0);
    var j := SpacesBefore(s, |s|);
    if i < j {
      assert !IsSpace(s[i]);
    }
  }

  /** Stripping twice is stripping once. */
  lemma StripIdempotent(s: string)
    ensures Strip(Strip(s)) == Strip(s)
  {
    var r := Strip(s);
    StripShape(s);
    if r != [] {
      assert SpacesFrom(r, 0) == 0;
      assert SpacesBefore(r, |r|) == |r|;
      assert r[0..|r|] == r;
    }
  }

  /** Leading whitespace followed by a non-space is what `lstrip` removes. */
  lemma TrimStartSpaces(gap: string, t: string)
    requires AllSpace(gap)
    requires t == [] || !IsSpace(t[0])
    ensures TrimStart(gap + t) == t
  {
    var s := gap + t;
    var i := SpacesFrom(s, 0);
    assert forall k :: 0 <= k < |gap| ==> s[k] == gap[k];
    assert |gap| < |s| ==> s[|gap|] == t[0];
    assert s[|gap|..] == t;
  }

  /** Lower-casing keeps every digit and every non-digit where it is. */
  lemma LowerKeepsDigits(s: string)
    ensures forall i :: 0 <= i < |s| ==> (IsDigit(Lower(s)[i]) <==> IsDigit(s[i]))
    ensures HasDigit(Lower(s)) <==> HasDigit(s)
  {
    assert forall i :: 0 <= i < |s| ==> Lower(s)[i] == LowerChar(s[i]);
    if HasDigit(s) {
      var i :| 0 <= i < |s| && IsDigit(s[i]);
      assert IsDigit(Lower(s)[i]);
    }
  }

  /** A string that contains `k + "s"` contains `k`. */
  lemma ContainsPlural(s: string, k: string)
    requires Contains(s, k + "s")
    ensures Contains(s, k)
  {
    var i :| 0 <= i <= |s| && k + "s" <= s[i..];
    assert k <= s[i..];
  }

  const Nbsp: string := "&nbsp;"

  /** `str.replace("&nbsp;", " ")`: every occurrence, scanned left to right without overlap, becomes one space. */
  function ReplaceNbsp(s: string): (r: string)
    ensures |r| <= |s|
    decreases |s|
  {
    if s == [] then []
    else if Nbsp <= s then " " + ReplaceNbsp(s[|Nbsp|..])
    else [s[0]] + ReplaceNbsp(s[1..])
  }

  /** Text without `&` has nothing to replace. */
  lemma {:induction false} ReplaceNbspPlain(s: string)
    requires forall i :: 0 <= i < |s| ==> s[i] != '&'
    ensures ReplaceNbsp(s) == s
    decreases |s|
  {
    if s != [] {
      assert !(Nbsp <= s) by { assert Nbsp[0] == '&'; }
      ReplaceNbspPlain(s[1..]);
    }
  }

  /** Text read from the result without crossing a produced space was in the input, at the same place. */
  lemma {:induction false} ReplaceNbspKeepsWords(s: string, w: string)
    requires forall i :: 0 <= i < |w| ==> w[i] != ' '
    requires w <= ReplaceNbsp(s)
    ensures w <= s
    decreases |s|
  {
    if w != [] {
      var r := ReplaceNbsp(s);
      assert r[0] == w[0];
      assert s != [] && !(Nbsp <= s);
      assert r == [s[0]] + ReplaceNbsp(s[1..]);
      assert w[1..] <= ReplaceNbsp(s[1..]);
      ReplaceNbspKeepsWords(s[1..], w[1..]);
    }
  }

  /** After the replacement no `&nbsp;` is left, not even one formed by the replacement itself. */
  lemma {:induction false} ReplaceNbspRemovesAll(s: string)
    ensures !Contains(ReplaceNbsp(s), Nbsp)
    decreases |s|
  {
    var r := ReplaceNbsp(s);
    if s != [] {
      var rest := if Nbsp <= s then s[|Nbsp|..] else s[1..];
      ReplaceNbspRemovesAll(rest);
      var head := if Nbsp <= s then ' ' else s[0];
      assert r == [head] + ReplaceNbsp(rest);
      forall i | 0 <= i <= |r| ensures !(Nbsp <= r[i..]) {
        if i == 0 {
          if Nbsp <= s {
            assert r[0] == ' ' && Nbsp[0] == '&';
          } else if Nbsp <= r {
            var t := ReplaceNbsp(s[1..]);
            assert r[1..|Nbsp|] == t[..|Nbsp| - 1];
            assert Nbsp[1..] <= t;
            ReplaceNbspKeepsWords(s[1..], Nbsp[1..]);
          }
        } else {
          assert r[i..] == ReplaceNbsp(rest)[i - 1..];
          assert !(Nbsp <= ReplaceNbsp(rest)[i - 1..]);
        }
      }
    }
  }
}

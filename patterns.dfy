/**
 * The regular expressions of the profiler and the rule generators, written
 * as explicit predicates over ASCII characters.
 */
module Patterns {
  import opened Text

  /** `re.fullmatch(r'\d+', v)` */
  predicate AllDigits(v: string) {
    v != [] && forall i :: 0 <= i < |v| ==> IsDigit(v[i])
  }

  /** `re.fullmatch(r'[A-Za-z ]+', v)` */
  predicate AlphaOrSpace(v: string) {
    v != [] && forall i :: 0 <= i < |v| ==> IsAsciiLetter(v[i]) || v[i] == ' '
  }

  /** `re.search(r'@', v)` */
  predicate HasAt(v: string) {
    '@' in v
  }

  /** `n` digits start at index `i`. */
  predicate DigitsAt(v: string, i: nat, n: nat) {
    i + n <= |v| && forall k :: i <= k < i + n ==> IsDigit(v[k])
  }

  /** A `-` or `/` at index `i`. */
  predicate SeparatorAt(v: string, i: nat) {
    i < |v| && (v[i] == '-' || v[i] == '/')
  }

  /** `a` digits, a separator, `b` digits, a separator and `c` digits start at `i`. */
  predicate DateShapeAt(v: string, i: nat, a: nat, b: nat, c: nat) {
    DigitsAt(v, i, a) && SeparatorAt(v, i + a) &&
    DigitsAt(v, i + a + 1, b) && SeparatorAt(v, i + a + 1 + b) &&
    DigitsAt(v, i + a + b + 2, c)
  }

  /** `re.search(r'\d{2,4}[-/]\d{1,2}[-/]\d{1,2}', v)` */
  predicate HasDate(v: string) {
    exists i: nat, a: nat, b: nat, c: nat | i < |v| && 2 <= a <= 4 && 1 <= b <= 2 && 1 <= c <= 2 ::
      DateShapeAt(v, i, a, b, c)
  }

  /** The class `[\d\-\s]`. */
  predicate PhoneChar(c: char) {
    IsDigit(c) || c == '-' || IsSpace(c)
  }

  /** `\d[\d\-\s]{6,}`: a digit and six or more phone characters. */
  predicate PhoneTail(t: string) {
    |t| >= 7 && IsDigit(t[0]) && forall k :: 1 <= k < |t| ==> PhoneChar(t[k])
  }

  /** `re.fullmatch(r'\+?\d[\d\-\s]{6,}', v)` */
  predicate PhoneLike(v: string) {
    PhoneTail(if v != [] && v[0] == '+' then v[1..] else v)
  }

  // ---------------------------------------------------------------------
  // What the patterns accept
  // ---------------------------------------------------------------------

  /** A string of digits is neither alphabetic, nor an address, nor a date. */
  lemma DigitsExcludeOthers(v: string)
    requires AllDigits(v)
    ensures !AlphaOrSpace(v) && !HasAt(v) && !HasDate(v)
  {
    assert IsDigit(v[0]);
    assert forall k :: 0 <= k < |v| ==> v[k] != '@';
    forall i: nat, a: nat, b: nat, c: nat | i < |v| && 2 <= a <= 4 && 1 <= b <= 2 && 1 <= c <= 2
      ensures !DateShapeAt(v, i, a, b, c)
    {
      if i + a < |v| {
        assert IsDigit(v[i + a]);
      }
    }
  }

  /** Seven or more digits have the phone shape; the phone shape needs seven characters after an optional `+`. */
  lemma PhoneLikeLength(v: string)
    ensures AllDigits(v) && |v| >= 7 ==> PhoneLike(v)
    ensures PhoneLike(v) ==> |v| >= 7 && !AlphaOrSpace(v) && !HasAt(v)
  {
    if AllDigits(v) && |v| >= 7 {
      assert IsDigit(v[0]) && v[0] != '+';
      assert PhoneTail(v);
      assert forall k :: 1 <= k < |v| ==> PhoneChar(v[k]);
    }
    if PhoneLike(v) {
      var t := if v != [] && v[0] == '+' then v[1..] else v;
      assert PhoneTail(t);
      assert v[0] == '+' || v[0] == t[0];
      forall k | 0 <= k < |v|
        ensures v[k] != '@'
      {
        if v[0] == '+' {
          if k > 0 { assert v[k] == t[k - 1]; }
        } else {
          assert v[k] == t[k];
        }
      }
    }
  }

  /** The searches find their pattern anywhere: text around a match keeps it a match. */
  lemma SearchInContext(before: string, v: string, after: string)
    ensures HasAt(v) ==> HasAt(before + v + after)
    ensures HasDate(v) ==> HasDate(before + v + after)
  {
    var w := before + v + after;
    assert forall k :: 0 <= k < |v| ==> w[|before| + k] == v[k];
    if HasDate(v) {
      var i: nat, a: nat, b: nat, c: nat :| i < |v| && 2 <= a <= 4 && 1 <= b <= 2 && 1 <= c <= 2 &&
        DateShapeAt(v, i, a, b, c);
      assert DateShapeAt(w, |before| + i, a, b, c);
    }
    if HasAt(v) {
      var k :| 0 <= k < |v| && v[k] == '@';
      assert w[|before| + k] == '@';
    }
  }

  /** A date needs at least six characters, one of them a separator. */
  lemma DateNeedsSeparator(v: string)
    requires HasDate(v)
    ensures |v| >= 6 && ('-' in v || '/' in v)
  {
    var i: nat, a: nat, b: nat, c: nat :| i < |v| && 2 <= a <= 4 && 1 <= b <= 2 && 1 <= c <= 2 &&
      DateShapeAt(v, i, a, b, c);
    assert SeparatorAt(v, i + a);
  }

  /** The shapes on a few values of the kinds the profiler sees. */
  lemma DateExamples()
    ensures HasDate("2024-01-15") && HasDate("on 12/31/99") && !HasDate("1/2/3")
  {
    assert DateShapeAt("2024-01-15", 0, 4, 2, 2);
    assert DateShapeAt("on 12/31/99", 3, 2, 2, 2);
    var s := "1/2/3";
    forall i: nat, a: nat, b: nat, c: nat | i < |s| && 2 <= a <= 4 && 1 <= b <= 2 && 1 <= c <= 2
      ensures !DateShapeAt(s, i, a, b, c)
    {
      if i + 1 < |s| {
        assert !IsDigit(s[i]) || !IsDigit(s[i + 1]);
      }
    }
  }

  /** The other shapes on a few values. */
  lemma ShapeExamples()
    ensures PhoneLike("+1 555-0100") && !PhoneLike("555-01") && !PhoneLike("+")
    ensures AllDigits("0042") && !AllDigits("") && !AllDigits("4 2")
    ensures AlphaOrSpace("New York") && !AlphaOrSpace("O'Brien")
  {
    var phone := "+1 555-0100";
    assert phone[0] == '+' && phone[1..] == "1 555-0100";
    assert forall k :: 1 <= k < |phone[1..]| ==> PhoneChar(phone[1..][k]);
    assert !IsDigit("4 2"[1]);
    assert "O'Brien"[1] == '\'';
  }
}

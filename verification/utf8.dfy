/**
 * Well-formed UTF-8, as Rust's `str::from_utf8` checks it for quoted
 * strings and as the regex crate's `.` requires it in Unicode mode when it
 * matches comment text: the byte sequences of Table 3-7 of the Unicode
 * Standard (section 3.9), which exclude overlong forms, surrogates and code
 * points above U+10FFFF.
 */
module Utf8 {
  import opened Parsing

  predicate IsContinuation(b: byte) { 0x80 <= b as int <= 0xBF }

  predicate Within(b: byte, lo: int, hi: int) { lo <= b as int <= hi }

  /** Length of the well-formed code unit sequence at the front of s, or 0
      when s is empty or starts with an ill-formed one. */
  function Leading(s: Bytes): (n: nat)
    ensures n <= |s| && n <= 4
    ensures n > 0 ==> |s| > 0
  {
    if |s| == 0 then 0
    else
      var b := s[0] as int;
      if b <= 0x7F then 1
      else if 0xC2 <= b <= 0xDF then
        if |s| >= 2 && IsContinuation(s[1]) then 2 else 0
      else if 0xE0 <= b <= 0xEF then
        var lo := if b == 0xE0 then 0xA0 else 0x80;
        var hi := if b == 0xED then 0x9F else 0xBF;
        if |s| >= 3 && Within(s[1], lo, hi) && IsContinuation(s[2]) then 3 else 0
      else if 0xF0 <= b <= 0xF4 then
        var lo := if b == 0xF0 then 0x90 else 0x80;
        var hi := if b == 0xF4 then 0x8F else 0xBF;
        if |s| >= 4 && Within(s[1], lo, hi) && IsContinuation(s[2]) && IsContinuation(s[3]) then 4 else 0
      else 0
  }

  /** s is a sequence of well-formed UTF-8 code unit sequences. */
  predicate Valid(s: Bytes)
    decreases |s|
  {
    |s| == 0 || (Leading(s) > 0 && Valid(s[Leading(s)..]))
  }

  /** The first sequence is decided by its own bytes only. */
  lemma LeadingPrefix(a: Bytes, b: Bytes)
    requires Leading(a) > 0
    ensures Leading(a + b) == Leading(a)
  {
    var s := a + b;
    assert s[0] == a[0];
    if |a| >= 2 { assert s[1] == a[1]; }
    if |a| >= 3 { assert s[2] == a[2]; }
    if |a| >= 4 { assert s[3] == a[3]; }
  }

  /** Well-formed UTF-8 is closed under concatenation. */
  lemma {:induction false} ValidConcat(a: Bytes, b: Bytes)
    requires Valid(a) && Valid(b)
    ensures Valid(a + b)
    decreases |a|
  {
    if |a| == 0 {
      assert a + b == b;
    } else {
      var n := Leading(a);
      LeadingPrefix(a, b);
      assert (a + b)[n..] == a[n..] + b;
      ValidConcat(a[n..], b);
    }
  }

  /** Text of ASCII bytes only is well-formed UTF-8. */
  lemma {:induction false} AsciiValid(s: Bytes)
    requires forall i | 0 <= i < |s| :: s[i] as int < 0x80
    ensures Valid(s)
    decreases |s|
  {
    if |s| > 0 {
      assert Leading(s) == 1;
      AsciiValid(s[1..]);
    }
  }
}

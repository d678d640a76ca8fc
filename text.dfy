/** String helpers: decimal printing, ASCII upper case, joining, filtering and substring search. */
module Text {

  predicate IsDigit(c: char) {
    '0' <= c <= '9'
  }

  /** The decimal digit character for 0 <= d < 10. */
  function DigitChar(d: int): (c: char)
    requires 0 <= d < 10
    ensures IsDigit(c) && c as int - '0' as int == d
  {
    (d + '0' as int) as char
  }

  /** How JavaScript prints a non-negative integer in a template literal. */
  function NatToString(n: nat): (s: string)
    ensures |s| >= 1
    ensures forall i :: 0 <= i < |s| ==> IsDigit(s[i])
    ensures |s| > 1 ==> s[0] != '0'
  {
    if n < 10 then [DigitChar(n)] else NatToString(n / 10) + [DigitChar(n % 10)]
  }

  /** How JavaScript prints an integer in a template literal. */
  function IntToString(n: int): (s: string)
    ensures |s| >= 1
    ensures (n < 0) == (s[0] == '-')
    ensures forall i :: 0 <= i < |s| ==> IsDigit(s[i]) || s[i] == '-'
  {
    if n < 0 then "-" + NatToString(-n) else NatToString(n)
  }

  /** The value of one decimal digit character. */
  function DigitValue(c: char): (d: nat)
    requires IsDigit(c)
    ensures d < 10 && DigitChar(d) == c
  {
    c as int - '0' as int
  }

  /** The value of a string of decimal digits. */
  function ParseDigits(s: string): (n: nat)
    requires forall i :: 0 <= i < |s| ==> IsDigit(s[i])
  {
    if s == [] then 0 else 10 * ParseDigits(s[..|s| - 1]) + DigitValue(s[|s| - 1])
  }

  /** The value printed by IntToString. */
  function ParseInt(s: string): int
    requires |s| >= 1
    requires forall i :: (if s[0] == '-' then 1 else 0) <= i < |s| ==> IsDigit(s[i])
  {
    if s[0] == '-' then -(ParseDigits(s[1..]) as int) else ParseDigits(s)
  }

  /** Printing an integer loses nothing: reading the digits back gives the number. */
  lemma {:induction false} NatToStringRoundTrip(n: nat)
    ensures ParseDigits(NatToString(n)) == n
  {
    if n >= 10 {
      NatToStringRoundTrip(n / 10);
      var s := NatToString(n);
      assert s[..|s| - 1] == NatToString(n / 10);
    }
  }

  lemma IntToStringRoundTrip(n: int)
    ensures ParseInt(IntToString(n)) == n
  {
    if n < 0 {
      NatToStringRoundTrip(-n);
      assert IntToString(n)[1..] == NatToString(-n);
    } else {
      NatToStringRoundTrip(n);
    }
  }

  /** Two integers print the same only if they are equal. */
  lemma IntToStringInjective(m: int, n: int)
    requires IntToString(m) == IntToString(n)
    ensures m == n
  {
    IntToStringRoundTrip(m);
    IntToStringRoundTrip(n);
  }

  /** `String.prototype.toUpperCase` on one character, for the ASCII letters. */
  function UpperChar(c: char): (u: char)
    ensures !('a' <= u <= 'z')
    ensures 'a' <= c <= 'z' ==> u as int == c as int - 32
    ensures !('a' <= c <= 'z') ==> u == c
  {
    if 'a' <= c <= 'z' then (c as int - 32) as char else c
  }

  /** `s.toUpperCase()` for ASCII letters; every other character is kept. */
  function ToUpper(s: string): (u: string)
    ensures |u| == |s|
    ensures forall i :: 0 <= i < |s| ==> u[i] == UpperChar(s[i])
  {
    if s == [] then [] else [UpperChar(s[0])] + ToUpper(s[1..])
  }

  /** `parts.join(sep)`. */
  function Join(parts: seq<string>, sep: string): (r: string)
  {
    if parts == [] then ""
    else if |parts| == 1 then parts[0]
    else parts[0] + sep + Join(parts[1..], sep)
  }

  /** Every character of `s` that satisfies `keep`, in order: a regular-expression replace by "". */
  function Keep(s: string, keep: char -> bool): (r: string)
    ensures |r| <= |s|
    ensures forall i :: 0 <= i < |r| ==> keep(r[i])
  {
    if s == [] then []
    else if keep(s[0]) then [s[0]] + Keep(s[1..], keep)
    else Keep(s[1..], keep)
  }

  /** Keep drops exactly the characters that fail `keep`. */
  lemma {:induction false} KeepMembers(s: string, keep: char -> bool)
    ensures forall c :: c in Keep(s, keep) <==> c in s && keep(c)
  {
    if s != [] {
      KeepMembers(s[1..], keep);
      assert s == [s[0]] + s[1..];
    }
  }

  lemma {:induction false} KeepAppend(a: string, b: string, keep: char -> bool)
    ensures Keep(a + b, keep) == Keep(a, keep) + Keep(b, keep)
  {
    if a != [] {
      assert (a + b)[1..] == a[1..] + b;
      KeepAppend(a[1..], b, keep);
    } else {
      assert a + b == b;
    }
  }

  /** Filtering keeps a string whose characters all pass. */
  lemma {:induction false} KeepAll(s: string, keep: char -> bool)
    requires forall i :: 0 <= i < |s| ==> keep(s[i])
    ensures Keep(s, keep) == s
  {
    if s != [] {
      KeepAll(s[1..], keep);
    }
  }

  /** Filtering out every character leaves the empty string. */
  lemma {:induction false} KeepNone(s: string, keep: char -> bool)
    requires forall i :: 0 <= i < |s| ==> !keep(s[i])
    ensures Keep(s, keep) == []
  {
    if s != [] {
      KeepNone(s[1..], keep);
    }
  }

  /** `p` occurs in `s` at some offset: what SQL's `s LIKE '%p%'` tests when `p` has no wildcards. */
  ghost predicate OccursIn(p: string, s: string) {
    exists i :: OccursAt(p, s, i)
  }

  /** `p` occurs in `s` starting at offset `i`. */
  ghost predicate OccursAt(p: string, s: string, i: int) {
    0 <= i <= |s| - |p| && s[i..i + |p|] == p
  }

  /** Substring search, one offset at a time. */
  function Contains(s: string, p: string): (b: bool)
    ensures b <==> OccursIn(p, s)
    decreases |s|
  {
    if |p| > |s| then false
    else if p == s[..|p|] then (assert OccursAt(p, s, 0); true)
    else
      var rest := Contains(s[1..], p);
      assert rest <==> OccursIn(p, s[1..]);
      assert OccursIn(p, s[1..]) ==> OccursIn(p, s) by {
        if OccursIn(p, s[1..]) {
          var i :| OccursAt(p, s[1..], i);
          assert s[i + 1..i + 1 + |p|] == p;
          assert OccursAt(p, s, i + 1);
        }
      }
      assert OccursIn(p, s) ==> OccursIn(p, s[1..]) by {
        if OccursIn(p, s) {
          var i :| OccursAt(p, s, i);
          assert i != 0;
          assert s[1..][i - 1..i - 1 + |p|] == p;
          assert OccursAt(p, s[1..], i - 1);
        }
      }
      rest
  }

  /** A string occurs in any string built around it. */
  lemma OccursInMiddle(a: string, p: string, b: string)
    ensures Contains(a + p + b, p)
  {
    assert OccursAt(p, a + p + b, |a|);
  }
}

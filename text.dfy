/** The string operations the application relies on: String.prototype.toLowerCase,
    includes and padStart, Array.prototype.join, and the decimal text of a
    non-negative integer (String(n)), together with the digit parser that
    inverts it. */
module Text {

  /** toLowerCase on one character, for the ASCII letters A-Z. */
  function LowerChar(c: char): char
  {
    if 'A' <= c <= 'Z' then (c as int + 32) as char else c
  }

  function Lower(s: string): (r: string)
    ensures |r| == |s|
    ensures forall i :: 0 <= i < |s| ==> r[i] == LowerChar(s[i])
  {
    if s == [] then [] else [LowerChar(s[0])] + Lower(s[1..])
  }

  /** Lower-casing distributes over concatenation. */
  lemma LowerAppend(a: string, b: string)
    ensures Lower(a + b) == Lower(a) + Lower(b)
  {
    assert forall i :: 0 <= i < |a + b| ==> Lower(a + b)[i] == (Lower(a) + Lower(b))[i];
  }

  /** `q` occurs in `s` starting at position `i`. */
  predicate OccursAt(s: string, q: string, i: int)
  {
    0 <= i && i + |q| <= |s| && s[i..i + |q|] == q
  }

  /** String.prototype.includes: `q` is a prefix of `s` or of one of its suffixes. */
  predicate Contains(s: string, q: string)
  {
    q <= s || (s != [] && Contains(s[1..], q))
  }

  /** includes holds exactly when the query occurs at some position. */
  lemma {:induction false} ContainsIff(s: string, q: string)
    ensures Contains(s, q) <==> exists i :: OccursAt(s, q, i)
  {
    if s == [] {
      if exists i :: OccursAt(s, q, i) {
        var i :| OccursAt(s, q, i);
        assert q == [];
      }
      if q == [] {
        assert OccursAt(s, q, 0);
      }
    } else {
      ContainsIff(s[1..], q);
      if Contains(s[1..], q) {
        var i :| OccursAt(s[1..], q, i);
        assert s[i + 1..i + 1 + |q|] == s[1..][i..i + |q|];
        assert OccursAt(s, q, i + 1);
      }
      if q <= s {
        assert OccursAt(s, q, 0);
      }
      if exists i :: OccursAt(s, q, i) {
        var i :| OccursAt(s, q, i);
        if i == 0 {
          assert q <= s;
        } else {
          assert s[1..][i - 1..i - 1 + |q|] == s[i..i + |q|];
          assert OccursAt(s[1..], q, i - 1);
        }
      }
    }
  }

  /** Every string includes the empty query. */
  lemma ContainsEmpty(s: string)
    ensures Contains(s, "")
  {
  }

  /** A query found in a piece is found in any string built around that piece. */
  lemma ContainsInfix(a: string, f: string, b: string, q: string)
    requires Contains(f, q)
    ensures Contains(a + f + b, q)
  {
    ContainsIff(f, q);
    var i :| OccursAt(f, q, i);
    assert (a + f + b)[|a| + i..|a| + i + |q|] == f[i..i + |q|];
    assert OccursAt(a + f + b, q, |a| + i);
    ContainsIff(a + f + b, q);
  }

  /** Array.prototype.join(sep). */
  function Join(parts: seq<string>, sep: string): string
  {
    if parts == [] then ""
    else if |parts| == 1 then parts[0]
    else parts[0] + sep + Join(parts[1..], sep)
  }

  /** A query found in a string is found in any extension of it to the right. */
  lemma ContainsExtendRight(x: string, y: string, q: string)
    requires Contains(x, q)
    ensures Contains(x + y, q)
  {
    ContainsInfix([], x, y, q);
    assert [] + x + y == x + y;
  }

  /** A query found in a string is found in any extension of it to the left. */
  lemma ContainsExtendLeft(x: string, y: string, q: string)
    requires Contains(y, q)
    ensures Contains(x + y, q)
  {
    ContainsInfix(x, y, [], q);
    assert x + y + [] == x + y;
  }

  /** Lower-casing a join of two or more parts splits at the first separator. */
  lemma LowerJoinCons(parts: seq<string>, sep: string)
    requires |parts| > 1
    ensures Lower(Join(parts, sep)) == Lower(parts[0]) + Lower(sep + Join(parts[1..], sep))
    ensures Lower(sep + Join(parts[1..], sep)) == Lower(sep) + Lower(Join(parts[1..], sep))
  {
    var rest := Join(parts[1..], sep);
    assert Join(parts, sep) == parts[0] + (sep + rest);
    LowerAppend(parts[0], sep + rest);
    LowerAppend(sep, rest);
  }

  /** Whatever a part of a join contains (after lower-casing), the lower-cased
      join contains too. */
  lemma {:induction false} JoinContainsPart(parts: seq<string>, sep: string, k: nat, q: string)
    requires k < |parts|
    requires Contains(Lower(parts[k]), q)
    ensures Contains(Lower(Join(parts, sep)), q)
  {
    if |parts| > 1 {
      LowerJoinCons(parts, sep);
      var head, tail := Lower(parts[0]), Lower(sep + Join(parts[1..], sep));
      if k == 0 {
        ContainsExtendRight(head, tail, q);
      } else {
        assert parts[1..][k - 1] == parts[k];
        JoinContainsPart(parts[1..], sep, k - 1, q);
        ContainsExtendLeft(Lower(sep), Lower(Join(parts[1..], sep)), q);
        ContainsExtendLeft(head, tail, q);
      }
    }
  }

  predicate IsDigit(c: char)
  {
    '0' <= c <= '9'
  }

  predicate AllDigits(s: string)
  {
    forall i :: 0 <= i < |s| ==> IsDigit(s[i])
  }

  function DigitChar(d: nat): (c: char)
    requires d < 10
    ensures IsDigit(c)
  {
    ('0' as int + d) as char
  }

  function DigitValue(c: char): (d: nat)
    requires IsDigit(c)
    ensures d < 10 && DigitChar(d) == c
  {
    c as int - '0' as int
  }

  /** String(n) for a non-negative integer: its decimal digits, without leading zeros. */
  function NatText(n: nat): (r: string)
    ensures |r| >= 1 && AllDigits(r)
    ensures n >= 10 ==> r[0] != '0'
  {
    if n < 10 then [DigitChar(n)] else NatText(n / 10) + [DigitChar(n % 10)]
  }

  /** The value of a string of decimal digits. */
  function ParseNat(s: string): nat
    requires AllDigits(s)
  {
    if s == [] then 0 else 10 * ParseNat(s[..|s| - 1]) + DigitValue(s[|s| - 1])
  }

  /** Reading the decimal text of `n` back gives `n`. */
  lemma {:induction false} ParseNatText(n: nat)
    ensures ParseNat(NatText(n)) == n
  {
    if n >= 10 {
      var t := NatText(n);
      assert t[..|t| - 1] == NatText(n / 10);
      ParseNatText(n / 10);
    }
  }

  /** The number of digits of String(n), for the ranges a calendar date uses. */
  lemma NatTextLength(n: nat)
    ensures n < 10 ==> |NatText(n)| == 1
    ensures 10 <= n < 100 ==> |NatText(n)| == 2
    ensures 1000 <= n < 10000 ==> |NatText(n)| == 4
  {
    if 1000 <= n < 10000 {
      var a, b, c := n / 10, n / 10 / 10, n / 10 / 10 / 10;
      assert 100 <= a < 1000 && 10 <= b < 100 && 1 <= c < 10;
      assert |NatText(c)| == 1;
      assert |NatText(b)| == |NatText(c)| + 1;
      assert |NatText(a)| == |NatText(b)| + 1;
      assert |NatText(n)| == |NatText(a)| + 1;
    }
  }

  /** String(n).padStart(2, '0'). */
  function Pad2(n: nat): string
  {
    var t := NatText(n);
    if |t| < 2 then "0" + t else t
  }

  /** For the values 0..99 the padded text has exactly two digits and reads back as `n`. */
  lemma Pad2RoundTrip(n: nat)
    requires n < 100
    ensures |Pad2(n)| == 2 && AllDigits(Pad2(n)) && ParseNat(Pad2(n)) == n
  {
    NatTextLength(n);
    ParseNatText(n);
    if n < 10 {
      assert Pad2(n) == ['0', DigitChar(n)];
      assert Pad2(n)[..1] == ['0'];
    }
  }
}

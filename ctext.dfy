// The C library text routines the daemon relies on: strtok with a
// one-character delimiter set, atoi, and the %d conversion of sprintf.

module CText {

  /** isspace in the "C" locale. */
  predicate IsSpace(c: char)
  {
    c == ' ' || c == '\t' || c == '\n' || c == '\U{0B}' || c == '\U{0C}' || c == '\r'
  }

  predicate IsDigit(c: char) { '0' <= c <= '9' }

  predicate AllDigits(s: string) { forall i :: 0 <= i < |s| ==> IsDigit(s[i]) }

  // ---------------------------------------------------------------- strtok

  /** The token strtok cuts at the front of s: everything up to the first d. */
  function TokenPrefix(s: string, d: char): (t: string)
    ensures t <= s && d !in t
    ensures |t| < |s| ==> s[|t|] == d
  {
    if s == [] || s[0] == d then [] else [s[0]] + TokenPrefix(s[1..], d)
  }

  /**
   * The strings that successive calls strtok(s, "d"), strtok(NULL, "d"), ...
   * return before the first NULL: the maximal non-empty runs without d.
   */
  function Tokens(s: string, d: char): (ts: seq<string>)
    ensures forall i :: 0 <= i < |ts| ==> |ts[i]| > 0 && d !in ts[i]
    decreases |s|
  {
    if s == [] then []
    else if s[0] == d then Tokens(s[1..], d)
    else
      var t := TokenPrefix(s, d);
      [t] + Tokens(s[|t|..], d)
  }

  /** A token cut from x is not lengthened by what follows a delimiter after x. */
  lemma {:induction false} TokenPrefixAppend(x: string, z: string, d: char)
    requires |z| > 0 && z[0] == d
    ensures TokenPrefix(x + z, d) == TokenPrefix(x, d)
  {
    if x != [] && x[0] != d {
      assert (x + z)[1..] == x[1..] + z;
      TokenPrefixAppend(x[1..], z, d);
    }
  }

  /** One step of Tokens on text that starts inside a token. */
  lemma TokensCons(s: string, d: char)
    requires s != [] && s[0] != d
    ensures Tokens(s, d) == [TokenPrefix(s, d)] + Tokens(s[|TokenPrefix(s, d)|..], d)
  {
  }

  /** A delimiter separates: the tokens of x d y are those of x followed by those of y. */
  lemma {:induction false} TokensJoin(x: string, y: string, d: char)
    ensures Tokens(x + [d] + y, d) == Tokens(x, d) + Tokens(y, d)
    decreases |x|
  {
    var s := x + [d] + y;
    if x == [] {
      assert s[1..] == y;
    } else if x[0] == d {
      assert s[1..] == x[1..] + [d] + y;
      TokensJoin(x[1..], y, d);
    } else {
      var t := TokenPrefix(x, d);
      TokenPrefixAppend(x, [d] + y, d);
      assert s == x + ([d] + y);
      assert s[0] == x[0];
      TokensCons(s, d);
      TokensCons(x, d);
      assert s[|t|..] == x[|t|..] + [d] + y;
      TokensJoin(x[|t|..], y, d);
      assert Tokens(s, d) == [t] + (Tokens(x[|t|..], d) + Tokens(y, d));
    }
  }

  /** A non-empty string without the delimiter is a single token. */
  lemma {:induction false} TokensSingle(s: string, d: char)
    requires |s| > 0 && d !in s
    ensures Tokens(s, d) == [s]
  {
    TokenPrefixWhole(s, d);
    assert s[|s|..] == [];
  }

  lemma {:induction false} TokenPrefixWhole(s: string, d: char)
    requires d !in s
    ensures TokenPrefix(s, d) == s
  {
    if s != [] {
      assert d !in s[1..] by { assert forall i :: 0 <= i < |s| - 1 ==> s[1..][i] == s[i + 1]; }
      TokenPrefixWhole(s[1..], d);
    }
  }

  /** strtok finds no token exactly when the string holds nothing but delimiters. */
  lemma {:induction false} TokensEmpty(s: string, d: char)
    ensures Tokens(s, d) == [] <==> forall i :: 0 <= i < |s| ==> s[i] == d
    decreases |s|
  {
    if s != [] && s[0] == d {
      TokensEmpty(s[1..], d);
      assert forall i :: 1 <= i < |s| ==> s[i] == s[1..][i - 1];
    }
  }

  /**
   * The string a caller sees after a first strtok(s, "d"): strtok writes a NUL
   * over the delimiter that ends the first token, so the C string stops there.
   */
  function StrtokLeaves(s: string, d: char): (r: string)
    ensures r <= s
  {
    if s == [] then []
    else if s[0] == d then [d] + StrtokLeaves(s[1..], d)
    else TokenPrefix(s, d)
  }

  /** Of the tokens of s, only the first survives in the string strtok leaves behind. */
  lemma {:induction false} StrtokLeavesFirstToken(s: string, d: char)
    ensures Tokens(StrtokLeaves(s, d), d) == Tokens(s, d)[..if Tokens(s, d) == [] then 0 else 1]
  {
    if s == [] {
    } else if s[0] == d {
      assert ([d] + StrtokLeaves(s[1..], d))[1..] == StrtokLeaves(s[1..], d);
      StrtokLeavesFirstToken(s[1..], d);
    } else {
      var t := TokenPrefix(s, d);
      TokensSingle(t, d);
    }
  }

  // ------------------------------------------------------------------ atoi

  function DigitValue(c: char): (v: nat)
    requires IsDigit(c)
    ensures v < 10
  {
    c as int - '0' as int
  }

  /** The number a string of decimal digits denotes. */
  function DigitsValue(s: string): nat
    requires AllDigits(s)
  {
    if s == [] then 0 else DigitsValue(s[..|s| - 1]) * 10 + DigitValue(s[|s| - 1])
  }

  /** The longest prefix of s made of digits. */
  function LeadingDigits(s: string): (r: string)
    ensures AllDigits(r)
    ensures |r| < |s| ==> !IsDigit(s[|r|])
  {
    if s != [] && IsDigit(s[0]) then [s[0]] + LeadingDigits(s[1..]) else []
  }

  /** s without its leading white space. */
  function SkipSpace(s: string): (r: string)
    ensures |r| <= |s| && r == s[|s| - |r|..]
    ensures r == [] || !IsSpace(r[0])
  {
    if s != [] && IsSpace(s[0]) then SkipSpace(s[1..]) else s
  }

  /**
   * atoi: white space, an optional sign, then the longest run of digits; no
   * digits gives 0. The C function's behaviour on values outside int is
   * undefined; here the value is the exact integer.
   */
  function Atoi(s: string): (r: int)
    ensures SkipSpace(s) == [] ==> r == 0
    ensures r < 0 ==> SkipSpace(s)[0] == '-'
  {
    var t := SkipSpace(s);
    if t != [] && t[0] == '-' then -(DigitsValue(LeadingDigits(t[1..])) as int)
    else if t != [] && t[0] == '+' then DigitsValue(LeadingDigits(t[1..]))
    else DigitsValue(LeadingDigits(t))
  }

  // -------------------------------------------------------------------- %d

  function DigitChar(v: nat): (c: char)
    requires v < 10
    ensures IsDigit(c) && DigitValue(c) == v
  {
    ['0', '1', '2', '3', '4', '5', '6', '7', '8', '9'][v]
  }

  /** The decimal digits of n with no leading zero. */
  function NatDecimal(n: nat): (s: string)
    ensures |s| > 0 && AllDigits(s)
    decreases n
  {
    if n < 10 then [DigitChar(n)] else NatDecimal(n / 10) + [DigitChar(n % 10)]
  }

  /** sprintf's %d of n. */
  function Decimal(n: int): (s: string)
    ensures |s| > 0 && !IsSpace(s[0]) && s[0] != '+'
  {
    if n < 0 then "-" + NatDecimal(-n) else NatDecimal(n)
  }

  /** %d writes digits and at most a minus sign, so no other character occurs in it. */
  lemma DecimalHasNo(n: int, c: char)
    requires !IsDigit(c) && c != '-'
    ensures c !in Decimal(n)
  {
    var m := NatDecimal(if n < 0 then -n else n);
    assert forall i :: 0 <= i < |m| ==> m[i] != c;
    if n < 0 {
      assert Decimal(n) == "-" + m;
    }
  }

  function Pow10(k: nat): (r: nat)
    ensures r >= 1
  {
    if k == 0 then 1 else 10 * Pow10(k - 1)
  }

  /** A number below 10^k has at most k decimal digits. */
  lemma {:induction false} NatDecimalBound(n: nat, k: nat)
    requires 1 <= k && n < Pow10(k)
    ensures |NatDecimal(n)| <= k
    decreases k
  {
    if n >= 10 {
      assert n / 10 < Pow10(k - 1);
      NatDecimalBound(n / 10, k - 1);
    }
  }

  /** The %d of a 32-bit int takes at most 11 characters (sign and ten digits). */
  lemma DecimalInt32Length(n: int)
    requires -0x8000_0000 <= n < 0x8000_0000
    ensures |Decimal(n)| <= 11
  {
    assert Pow10(10) == 10_000_000_000;
    NatDecimalBound(if n < 0 then -n else n, 10);
  }

  /** The digits of NatDecimal(n) denote n. */
  lemma {:induction false} NatDecimalValue(n: nat)
    ensures DigitsValue(NatDecimal(n)) == n
    decreases n
  {
    if n >= 10 {
      var s := NatDecimal(n);
      assert s[..|s| - 1] == NatDecimal(n / 10);
      NatDecimalValue(n / 10);
    }
  }

  /** A run of digits followed by a non-digit is the leading digit run. */
  lemma {:induction false} LeadingDigitsOf(s: string, rest: string)
    requires AllDigits(s)
    requires rest == [] || !IsDigit(rest[0])
    ensures LeadingDigits(s + rest) == s
  {
    if s != [] {
      assert (s + rest)[1..] == s[1..] + rest;
      LeadingDigitsOf(s[1..], rest);
    } else {
      assert s + rest == rest;
    }
  }

  /** Text that does not start with white space is not changed by skipping it. */
  lemma SkipSpaceNone(s: string)
    requires s != [] && !IsSpace(s[0])
    ensures SkipSpace(s) == s
  {
  }

  /** atoi of a run of digits ended by a non-digit. */
  lemma AtoiOfDigits(m: string, rest: string)
    requires |m| > 0 && AllDigits(m)
    requires rest == [] || !IsDigit(rest[0])
    ensures Atoi(m + rest) == DigitsValue(m)
  {
    var s := m + rest;
    assert s[0] == m[0] && IsDigit(s[0]);
    SkipSpaceNone(s);
    LeadingDigitsOf(m, rest);
  }

  /** atoi of a minus sign and a run of digits ended by a non-digit. */
  lemma AtoiOfNegDigits(m: string, rest: string)
    requires |m| > 0 && AllDigits(m)
    requires rest == [] || !IsDigit(rest[0])
    ensures Atoi("-" + m + rest) == -(DigitsValue(m) as int)
  {
    var s := "-" + m + rest;
    var u := m + rest;
    assert s == ['-'] + u;
    assert s[0] == '-' && s[1..] == u;
    SkipSpaceNone(s);
    LeadingDigitsOf(m, rest);
    assert LeadingDigits(s[1..]) == m;
  }

  /** atoi reads back what %d wrote, whatever non-digit text follows. */
  lemma AtoiDecimal(n: int, rest: string)
    requires rest == [] || !IsDigit(rest[0])
    ensures Atoi(Decimal(n) + rest) == n
  {
    var k: nat := if n < 0 then -n else n;
    var m := NatDecimal(k);
    NatDecimalValue(k);
    if n < 0 {
      assert Decimal(n) + rest == "-" + m + rest;
      AtoiOfNegDigits(m, rest);
    } else {
      assert Decimal(n) + rest == m + rest;
      AtoiOfDigits(m, rest);
    }
  }

  /** Text with no digit after the white space and sign reads as 0, as atoi("abc") == 0. */
  lemma AtoiNoDigits(s: string)
    requires !exists i :: 0 <= i < |s| && IsDigit(s[i])
    ensures Atoi(s) == 0
  {
    var t := SkipSpace(s);
    if t != [] {
      var k := |s| - |t|;
      assert t[0] == s[k] && !IsDigit(t[0]);
      if |t| > 1 {
        assert t[1..][0] == s[k + 1] && !IsDigit(t[1..][0]);
      }
      assert LeadingDigits(t) == [];
      assert LeadingDigits(t[1..]) == [];
    }
  }
}

/** The C library text routines the parsers of batadv-vis rely on, on
    NUL-free strings: strtok_r tokenisation, strncmp equality, and strtol
    in base 10 followed by the conversion of its `long` result to `int`. */
module CText {

  /** isspace() in the C locale. */
  predicate IsSpace(c: char) {
    c == ' ' || (9 <= c as int <= 13)
  }

  predicate IsDigit(c: char) {
    '0' <= c <= '9'
  }

  /** Length of the longest prefix of `s` containing no delimiter. */
  function RunLength(s: string, delims: set<char>): (n: nat)
    ensures n <= |s|
    ensures forall i :: 0 <= i < n ==> s[i] !in delims
    ensures n < |s| ==> s[n] in delims
  {
    if s == [] || s[0] in delims then 0 else 1 + RunLength(s[1..], delims)
  }

  /** The tokens successive strtok_r calls return: the maximal non-empty
      runs of non-delimiter characters, in order. */
  function Tokens(s: string, delims: set<char>): (ts: seq<string>)
    ensures forall i :: 0 <= i < |ts| ==> ts[i] != []
    decreases |s|
  {
    if s == [] then []
    else if s[0] in delims then Tokens(s[1..], delims)
    else
      var n := RunLength(s, delims);
      [s[..n]] + Tokens(s[n..], delims)
  }

  /** A non-empty string without delimiters is a single token. */
  lemma TokensOfRun(s: string, delims: set<char>)
    requires s != [] && forall i :: 0 <= i < |s| ==> s[i] !in delims
    ensures Tokens(s, delims) == [s]
  {
    assert RunLength(s, delims) == |s|;
    assert s[..|s|] == s && s[|s|..] == [];
  }

  /** The run of non-delimiters at the front of `a` is not extended past a
      delimiter that follows `a`. */
  lemma RunLengthBeforeDelimiter(a: string, x: string, delims: set<char>)
    requires x != [] && x[0] in delims
    ensures RunLength(a + x, delims) == RunLength(a, delims)
  {
    var m := RunLength(a, delims);
    var n := RunLength(a + x, delims);
    assert (a + x)[m] in delims by {
      if m < |a| { assert (a + x)[m] == a[m]; } else { assert (a + x)[m] == x[0]; }
    }
  }

  /** A delimiter separates tokens: the tokens of `a`, a delimiter, then
      `b` are those of `a` followed by those of `b`. */
  lemma {:induction false} TokensSplit(a: string, c: char, b: string, delims: set<char>)
    requires c in delims
    ensures Tokens(a + [c] + b, delims) == Tokens(a, delims) + Tokens(b, delims)
    decreases |a|
  {
    var s := a + [c] + b;
    if a == [] {
      assert s[1..] == b;
    } else if a[0] in delims {
      assert s[1..] == a[1..] + [c] + b;
      TokensSplit(a[1..], c, b, delims);
    } else {
      var m := RunLength(a, delims);
      assert a + [c] + b == a + ([c] + b);
      RunLengthBeforeDelimiter(a, [c] + b, delims);
      assert s[..m] == a[..m];
      assert s[m..] == a[m..] + [c] + b;
      TokensSplit(a[m..], c, b, delims);
    }
  }

  lemma {:induction false} TokensHaveNoDelimiters(s: string, delims: set<char>, i: nat, j: nat)
    requires i < |Tokens(s, delims)| && j < |Tokens(s, delims)[i]|
    ensures Tokens(s, delims)[i][j] !in delims
    decreases |s|
  {
    if s[0] in delims {
      TokensHaveNoDelimiters(s[1..], delims, i, j);
    } else if i > 0 {
      var n := RunLength(s, delims);
      assert Tokens(s, delims)[i] == Tokens(s[n..], delims)[i - 1];
      TokensHaveNoDelimiters(s[n..], delims, i - 1, j);
    }
  }

  /** strncmp(a, b, n) == 0 for NUL-free strings: the end of a string acts
      as its terminating NUL, and comparison stops after n characters. */
  predicate StrNEq(a: string, b: string, n: nat)
    ensures a == b ==> StrNEq(a, b, n)
    decreases n
  {
    n == 0 || (a == [] && b == []) ||
    (a != [] && b != [] && a[0] == b[0] && StrNEq(a[1..], b[1..], n - 1))
  }

  lemma {:induction false} StrNEqIsBoundedEquality(a: string, b: string, n: nat)
    ensures StrNEq(a, b, n) <==>
      (if |a| < n || |b| < n then a == b else a[..n] == b[..n])
    decreases n
  {
    if n > 0 && a != [] && b != [] {
      StrNEqIsBoundedEquality(a[1..], b[1..], n - 1);
      if |a| < n || |b| < n {
        if a[1..] == b[1..] && a[0] == b[0] { assert a == [a[0]] + a[1..]; assert b == [b[0]] + b[1..]; }
      } else {
        if a[1..][..n - 1] == b[1..][..n - 1] && a[0] == b[0] {
          assert a[..n] == [a[0]] + a[1..][..n - 1];
          assert b[..n] == [b[0]] + b[1..][..n - 1];
        }
        if a[..n] == b[..n] {
          assert a[0] == a[..n][0] && b[0] == b[..n][0];
          assert a[1..][..n - 1] == a[..n][1..];
          assert b[1..][..n - 1] == b[..n][1..];
        }
      }
    }
  }

  /** strncmp equality does not depend on the order of its arguments. */
  lemma {:induction false} StrNEqSymmetric(a: string, b: string, n: nat)
    ensures StrNEq(a, b, n) == StrNEq(b, a, n)
    decreases n
  {
    if n > 0 && a != [] && b != [] {
      StrNEqSymmetric(a[1..], b[1..], n - 1);
    }
  }

  /** The prefix test `strncmp(s, p, |p|) == 0` used by option parsing. */
  lemma StrNEqPrefix(s: string, p: string)
    ensures StrNEq(s, p, |p|) <==> (|s| >= |p| && s[..|p|] == p)
  {
    StrNEqIsBoundedEquality(s, p, |p|);
  }

  const LongMax: int := 0x7fff_ffff_ffff_ffff
  const LongMin: int := -0x8000_0000_0000_0000

  /** Value of a decimal digit (0 for any other character). */
  function DigitValue(c: char): nat
  {
    if IsDigit(c) then c as int - '0' as int else 0
  }

  /** Number of leading decimal digits of `s`. */
  function DigitRun(s: string): (n: nat)
    ensures n <= |s|
  {
    if s == [] || !IsDigit(s[0]) then 0 else 1 + DigitRun(s[1..])
  }

  /** Value of a string of decimal digits, most significant first. */
  function DecimalValue(d: string): nat
  {
    if d == [] then 0 else DecimalValue(d[..|d| - 1]) * 10 + DigitValue(d[|d| - 1])
  }

  function SpaceRun(s: string): (n: nat)
    ensures n <= |s|
  {
    if s == [] || !IsSpace(s[0]) then 0 else 1 + SpaceRun(s[1..])
  }

  /** strtol(s, NULL, 10) with a 64-bit `long`: leading white space, an
      optional sign, the longest run of digits; no digits gives 0; a value
      outside the range of `long` saturates. */
  function StrToLong(s: string): (v: int)
    ensures LongMin <= v <= LongMax
  {
    var t := s[SpaceRun(s)..];
    var neg := t != [] && t[0] == '-';
    var u := if t != [] && (t[0] == '-' || t[0] == '+') then t[1..] else t;
    var mag: int := DecimalValue(u[..DigitRun(u)]);
    if neg then (if -mag < LongMin then LongMin else -mag)
    else (if mag > LongMax then LongMax else mag)
  }

  lemma {:induction false} SpaceRunPrefix(w: string, x: string)
    requires forall i :: 0 <= i < |w| ==> IsSpace(w[i])
    requires x == [] || !IsSpace(x[0])
    ensures SpaceRun(w + x) == |w|
    decreases |w|
  {
    if w == [] {
      assert w + x == x;
    } else {
      assert (w + x)[1..] == w[1..] + x;
      SpaceRunPrefix(w[1..], x);
    }
  }

  lemma {:induction false} DigitRunPrefix(d: string, x: string)
    requires forall i :: 0 <= i < |d| ==> IsDigit(d[i])
    requires x == [] || !IsDigit(x[0])
    ensures DigitRun(d + x) == |d|
    decreases |d|
  {
    if d == [] {
      assert d + x == x;
    } else {
      assert (d + x)[1..] == d[1..] + x;
      DigitRunPrefix(d[1..], x);
    }
  }

  /** Blanks in front of the number are skipped. */
  lemma StrToLongAfterBlanks(w: string, t: string)
    requires forall i :: 0 <= i < |w| ==> IsSpace(w[i])
    requires t == [] || !IsSpace(t[0])
    ensures StrToLong(w + t) == StrToLong(t)
  {
    SpaceRunPrefix(w, t);
    assert (w + t)[|w|..] == t;
    assert SpaceRun(t) == 0;
    assert t[0..] == t;
  }

  /** An optional sign, then the digit run `d`. */
  lemma StrToLongSigned(sign: string, d: string, rest: string)
    requires sign == [] || sign == ['-'] || sign == ['+']
    requires forall i :: 0 <= i < |d| ==> IsDigit(d[i])
    requires rest == [] || !IsDigit(rest[0])
    requires sign == [] && d + rest != [] ==> !IsSpace((d + rest)[0]) && (d + rest)[0] != '-' && (d + rest)[0] != '+'
    ensures var m: int := DecimalValue(d);
      StrToLong(sign + (d + rest)) ==
        if sign == ['-'] then (if m > -LongMin then LongMin else -m)
        else (if m > LongMax then LongMax else m)
  {
    var t := sign + (d + rest);
    if sign == [] {
      assert t == d + rest;
      if d != [] { assert t[0] == d[0]; }
    } else {
      assert t[0] == sign[0] && t[1..] == d + rest;
    }
    assert SpaceRun(t) == 0;
    assert t[0..] == t;
    DigitRunPrefix(d, rest);
    assert (d + rest)[..|d|] == d;
  }

  lemma ConcatAssoc(w: string, a: string, b: string, c: string)
    ensures w + a + b + c == w + (a + (b + c))
  {
  }

  /** The value strtol computes for blanks `w`, an optional sign, the digit
      run `d` and any `rest` that does not continue the digits: the decimal
      value of `d`, negated after a minus, saturated at the bounds of
      `long`. With no digits the value is 0. */
  lemma StrToLongValue(w: string, sign: string, d: string, rest: string)
    requires forall i :: 0 <= i < |w| ==> IsSpace(w[i])
    requires sign == [] || sign == ['-'] || sign == ['+']
    requires forall i :: 0 <= i < |d| ==> IsDigit(d[i])
    requires rest == [] || !IsDigit(rest[0])
    requires sign == [] && d + rest != [] ==> !IsSpace((d + rest)[0]) && (d + rest)[0] != '-' && (d + rest)[0] != '+'
    ensures var m: int := DecimalValue(d);
      StrToLong(w + sign + d + rest) ==
        if sign == ['-'] then (if m > -LongMin then LongMin else -m)
        else (if m > LongMax then LongMax else m)
  {
    var t := sign + (d + rest);
    ConcatAssoc(w, sign, d, rest);
    assert t == [] || !IsSpace(t[0]) by {
      if sign != [] { assert t[0] == sign[0]; } else { assert t == d + rest; }
    }
    StrToLongAfterBlanks(w, t);
    StrToLongSigned(sign, d, rest);
  }

  /** Assignment of a `long` to an `int`: two's-complement wrap to 32 bits. */
  function ToInt32(v: int): (r: int)
    ensures -0x8000_0000 <= r < 0x8000_0000
    ensures (r - v) % 0x1_0000_0000 == 0
  {
    var w := v % 0x1_0000_0000;
    if w >= 0x8000_0000 then w - 0x1_0000_0000 else w
  }
}

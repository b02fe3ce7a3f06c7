/** Text form of hardware addresses: `mac_to_str` prints six lowercase
    two-digit hex fields separated by colons; `str_to_mac` reads them back
    with `sscanf("%02hhX:%02hhX:%02hhX:%02hhX:%02hhX:%02hhX")` and succeeds
    only when all six conversions match. */
module MacText {
  import opened VisTypes
  import opened CText

  predicate IsHexDigit(c: char) {
    ('0' <= c <= '9') || ('a' <= c <= 'f') || ('A' <= c <= 'F')
  }

  predicate IsLowerHexDigit(c: char) {
    ('0' <= c <= '9') || ('a' <= c <= 'f')
  }

  /** Value of a hex digit of either case (0 for any other character). */
  function HexValue(c: char): (v: nat)
    ensures v < 16
  {
    if '0' <= c <= '9' then c as int - '0' as int
    else if 'a' <= c <= 'f' then c as int - 'a' as int + 10
    else if 'A' <= c <= 'F' then c as int - 'A' as int + 10
    else 0
  }

  /** The lowercase digit `%x` prints for a value below 16. */
  function HexDigit(v: nat): (c: char)
    requires v < 16
    ensures IsLowerHexDigit(c) && IsHexDigit(c) && HexValue(c) == v
  {
    if v < 10 then ('0' as int + v) as char else ('a' as int + v - 10) as char
  }

  /** `%02x` of one byte. */
  function Hex2(b: Byte): (s: string)
    ensures |s| == 2 && IsLowerHexDigit(s[0]) && IsLowerHexDigit(s[1])
    ensures HexValue(s[0]) * 16 + HexValue(s[1]) == b
  {
    [HexDigit(b / 16), HexDigit(b % 16)]
  }

  /** `":%02x"` repeated over the bytes of `bs`. */
  function ColonHex(bs: seq<Byte>): (s: string)
    ensures |s| == 3 * |bs|
  {
    if bs == [] then [] else [':'] + Hex2(bs[0]) + ColonHex(bs[1..])
  }

  /** mac_to_str. */
  function MacToStr(m: Mac): (s: string)
    ensures |s| == 17
  {
    Hex2(m[0]) + ColonHex(m[1..])
  }

  lemma {:induction false} ColonHexLayout(bs: seq<Byte>, k: nat)
    requires k < |bs|
    ensures ColonHex(bs)[3 * k] == ':'
    ensures ColonHex(bs)[3 * k + 1..3 * k + 3] == Hex2(bs[k])
  {
    if k > 0 {
      ColonHexLayout(bs[1..], k - 1);
      assert ColonHex(bs)[3..] == ColonHex(bs[1..]);
    }
  }

  /** What mac_to_str prints: field k (k < 6) is the two lowercase hex
      digits of byte k, and a colon follows every field but the last. */
  lemma MacToStrLayout(m: Mac, k: nat)
    requires k < 6
    ensures MacToStr(m)[3 * k..3 * k + 2] == Hex2(m[k])
    ensures k < 5 ==> MacToStr(m)[3 * k + 2] == ':'
    ensures IsLowerHexDigit(MacToStr(m)[3 * k]) && IsLowerHexDigit(MacToStr(m)[3 * k + 1])
  {
    var s := MacToStr(m);
    assert s[2..] == ColonHex(m[1..]);
    if k > 0 {
      ColonHexLayout(m[1..], k - 1);
    }
    if k < 5 {
      ColonHexLayout(m[1..], k);
    }
  }

  /** Number of leading hex digits of `s`, at most `width`. */
  function HexRun(s: string, width: nat): (n: nat)
    ensures n <= width && n <= |s|
  {
    if width == 0 || s == [] || !IsHexDigit(s[0]) then 0 else 1 + HexRun(s[1..], width - 1)
  }

  function HexDigitsValue(d: string): nat
  {
    if d == [] then 0 else HexDigitsValue(d[..|d| - 1]) * 16 + HexValue(d[|d| - 1])
  }

  /** One `%02hhX` conversion: white space is skipped, then at most two
      characters are read, an optional sign and hex digits of either case;
      at least one digit must follow. The result is stored modulo 256,
      negated for a minus sign. Returns the byte and the number of
      characters consumed. */
  function ScanHexField(s: string): (r: Option<(Byte, nat)>)
    ensures r.Some? ==> 0 < r.value.1 <= |s|
  {
    var ws := SpaceRun(s);
    var t := s[ws..];
    var signed := t != [] && (t[0] == '+' || t[0] == '-');
    var u := if signed then t[1..] else t;
    var n := HexRun(u, if signed then 1 else 2);
    if n == 0 then None
    else
      var v: int := HexDigitsValue(u[..n]);
      var b := if t[0] == '-' then (-v) % 256 else v % 256;
      Some((b, ws + (if signed then 1 else 0) + n))
  }

  /** `k` further conversions, each preceded by a literal ':' that must be
      the very next character. */
  function ScanColonFields(s: string, k: nat): (r: Option<seq<Byte>>)
    ensures r.Some? ==> |r.value| == k
    decreases k
  {
    if k == 0 then Some([])
    else if s == [] || s[0] != ':' then None
    else
      var field := ScanHexField(s[1..]);
      if field.None? then None
      else
        var more := ScanColonFields(s[1 + field.value.1..], k - 1);
        if more.None? then None else Some([field.value.0] + more.value)
  }

  /** str_to_mac: None for a null string or when fewer than six fields
      convert; characters after the sixth field are ignored. */
  function StrToMac(str: Option<string>): (r: Option<Mac>)
    ensures str.None? ==> r.None?
  {
    if str.None? then None
    else
      var first := ScanHexField(str.value);
      if first.None? then None
      else
        var more := ScanColonFields(str.value[first.value.1..], MacLen - 1);
        if more.None? then None
        else var m: Mac := [first.value.0] + more.value; Some(m)
  }

  lemma ScanHex2(b: Byte, rest: string)
    ensures ScanHexField(Hex2(b) + rest) == Some((b, 2))
  {
    var s := Hex2(b) + rest;
    assert !IsSpace(s[0]);
    assert SpaceRun(s) == 0;
    assert s[0..] == s;
    assert HexRun(s, 2) == 2 by {
      assert HexRun(s[1..], 1) == 1;
    }
    var d := s[..2];
    assert d[..1] == [s[0]] && d[..1][..0] == [] && d[1] == s[1];
    assert HexDigitsValue(d[..1]) == HexValue(s[0]);
    assert HexDigitsValue(d) == HexValue(s[0]) * 16 + HexValue(s[1]);
  }

  lemma {:induction false} ScanColonHex(bs: seq<Byte>)
    ensures ScanColonFields(ColonHex(bs), |bs|) == Some(bs)
  {
    if bs != [] {
      var s := ColonHex(bs);
      var rest := ColonHex(bs[1..]);
      assert s == [':'] + Hex2(bs[0]) + rest;
      assert s[1..] == Hex2(bs[0]) + rest;
      ScanHex2(bs[0], rest);
      assert ScanHexField(s[1..]) == Some((bs[0], 2));
      assert s[1 + 2..] == rest;
      ScanColonHex(bs[1..]);
      assert ScanColonFields(rest, |bs| - 1) == Some(bs[1..]);
      assert [bs[0]] + bs[1..] == bs;
    }
  }

  lemma StrToMacOfFields(s: string, m: Mac)
    requires ScanHexField(s) == Some((m[0], 2))
    requires ScanColonFields(s[2..], MacLen - 1) == Some(m[1..])
    ensures StrToMac(Some(s)) == Some(m)
  {
    assert [m[0]] + m[1..] == m;
  }

  /** Round trip: str_to_mac reads back every address mac_to_str prints. */
  lemma MacRoundTrip(m: Mac)
    ensures StrToMac(Some(MacToStr(m))) == Some(m)
  {
    var s := MacToStr(m);
    var rest := ColonHex(m[1..]);
    assert s == Hex2(m[0]) + rest;
    ScanHex2(m[0], rest);
    assert s[2..] == rest;
    ScanColonHex(m[1..]);
    assert |m[1..]| == 5;
    StrToMacOfFields(s, m);
  }

  lemma {:induction false} ScanColonFieldsNeedsLength(s: string, k: nat)
    requires ScanColonFields(s, k).Some?
    ensures |s| >= 2 * k
    decreases k
  {
    if k > 0 {
      var field := ScanHexField(s[1..]);
      assert field.Some?;
      var n := field.value.1;
      assert 0 < n <= |s| - 1;
      assert ScanColonFields(s[1 + n..], k - 1).Some?;
      ScanColonFieldsNeedsLength(s[1 + n..], k - 1);
      assert |s| == 1 + n + |s[1 + n..]|;
    }
  }

  /** Reject condition: six fields and five separators need at least
      eleven characters, so any shorter string is refused. */
  lemma StrToMacRejectsShort(s: string)
    requires |s| < 11
    ensures StrToMac(Some(s)) == None
  {
    var first := ScanHexField(s);
    if first.Some? && ScanColonFields(s[first.value.1..], MacLen - 1).Some? {
      ScanColonFieldsNeedsLength(s[first.value.1..], MacLen - 1);
    }
  }

  /** A string whose first non-blank character is neither a sign nor a hex
      digit converts no field at all. */
  lemma StrToMacRejectsNonHex(s: string)
    requires SpaceRun(s) < |s|
    requires var c := s[SpaceRun(s)]; !IsHexDigit(c) && c != '+' && c != '-'
    ensures StrToMac(Some(s)) == None
  {
  }
}

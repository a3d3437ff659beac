/** Bytes, the UTF-8 encoding behind `str::as_bytes`, and the upper-case
    hexadecimal rendering of `format!("{:X}", n)`. */
module Encoding {

  newtype byte = x: int | 0 <= x < 256

  /** UTF-8 encoding of one Unicode scalar value. */
  function CharUtf8(c: char): (r: seq<byte>)
    ensures 1 <= |r| <= 4
    ensures |r| == 1 <==> c as int < 0x80
    ensures |r| == 1 ==> r[0] as int == c as int
    ensures |r| > 1 ==> r[0] >= 0xC0 && forall i :: 1 <= i < |r| ==> 0x80 <= r[i] < 0xC0
  {
    var n := c as int;
    if n < 0x80 then [n as byte]
    else if n < 0x800 then [(0xC0 + n / 64) as byte, (0x80 + n % 64) as byte]
    else if n < 0x10000 then
      [(0xE0 + n / 4096) as byte, (0x80 + (n / 64) % 64) as byte, (0x80 + n % 64) as byte]
    else
      [(0xF0 + n / 262144) as byte, (0x80 + (n / 4096) % 64) as byte,
       (0x80 + (n / 64) % 64) as byte, (0x80 + n % 64) as byte]
  }

  /** `str::as_bytes`: the UTF-8 encoding of a string. */
  function Utf8(s: string): seq<byte>
  {
    if s == [] then [] else CharUtf8(s[0]) + Utf8(s[1..])
  }

  lemma {:induction false} Utf8Append(a: string, b: string)
    ensures Utf8(a + b) == Utf8(a) + Utf8(b)
  {
    if a != [] {
      assert (a + b)[1..] == a[1..] + b;
      Utf8Append(a[1..], b);
    } else {
      assert a + b == b;
    }
  }

  predicate IsAscii(s: string)
  {
    forall i :: 0 <= i < |s| ==> s[i] as int < 0x80
  }

  /** An ASCII string is encoded one byte per character, byte equal to code point. */
  lemma {:induction false} Utf8Ascii(s: string)
    requires IsAscii(s)
    ensures |Utf8(s)| == |s|
    ensures forall i :: 0 <= i < |s| ==> Utf8(s)[i] as int == s[i] as int
  {
    if s != [] {
      Utf8Ascii(s[1..]);
    }
  }

  // ---------------------------------------------------------------------
  // Hexadecimal

  /** Upper-case hexadecimal digit of a value below 16. */
  function HexDigit(d: nat): (c: char)
    requires d < 16
  {
    if d < 10 then ('0' as int + d) as char else ('A' as int + d - 10) as char
  }

  predicate IsUpperHexDigit(c: char)
  {
    ('0' <= c <= '9') || ('A' <= c <= 'F')
  }

  /** `format!("{:X}", n)`: upper-case hexadecimal, no leading zeros, "0" for zero. */
  function Hex(n: nat): (s: string)
    ensures |s| >= 1 && IsAscii(s)
    ensures forall i :: 0 <= i < |s| ==> IsUpperHexDigit(s[i])
    ensures s[0] == '0' <==> n == 0
    ensures n == 0 <==> s == "0"
  {
    if n < 16 then [HexDigit(n)] else Hex(n / 16) + [HexDigit(n % 16)]
  }

  /** Value of an ASCII hexadecimal digit byte (either case, as a decoder
      accepts), or -1 for any other byte. */
  function HexDigitValue(b: byte): (v: int)
    ensures -1 <= v < 16
  {
    if '0' as byte <= b <= '9' as byte then (b - '0' as byte) as int
    else if 'A' as byte <= b <= 'F' as byte then (b - 'A' as byte) as int + 10
    else if 'a' as byte <= b <= 'f' as byte then (b - 'a' as byte) as int + 10
    else -1
  }

  /** Number of hexadecimal digit bytes at the front of `w`. */
  function HexRun(w: seq<byte>): (k: nat)
    ensures k <= |w|
  {
    if w == [] || HexDigitValue(w[0]) < 0 then 0 else 1 + HexRun(w[1..])
  }

  /** The run is the longest prefix of digit bytes: every byte in it is a
      digit, and the byte after it, if any, is not. */
  lemma {:induction false} HexRunSpec(w: seq<byte>)
    ensures forall i :: 0 <= i < HexRun(w) ==> HexDigitValue(w[i]) >= 0
    ensures HexRun(w) < |w| ==> HexDigitValue(w[HexRun(w)]) < 0
    decreases |w|
  {
    if w != [] && HexDigitValue(w[0]) >= 0 {
      HexRunSpec(w[1..]);
      assert forall i :: 1 <= i <= HexRun(w[1..]) && i < |w| ==> w[i] == w[1..][i - 1];
    }
  }

  /** Value of a sequence of hexadecimal digit bytes, most significant first
      (a byte that is no digit counts as zero). */
  function HexNumber(ds: seq<byte>): nat
  {
    if ds == [] then 0
    else
      var d := HexDigitValue(ds[|ds| - 1]);
      HexNumber(ds[..|ds| - 1]) * 16 + (if d < 0 then 0 else d)
  }

  /** The bytes of `format!("{:X}", n)` are hexadecimal digits whose value is `n`. */
  lemma {:induction false} HexBytesValue(n: nat)
    ensures forall i :: 0 <= i < |Utf8(Hex(n))| ==> HexDigitValue(Utf8(Hex(n))[i]) >= 0
    ensures HexNumber(Utf8(Hex(n))) == n
    decreases n
  {
    var s := Hex(n);
    Utf8Ascii(s);
    var bs := Utf8(s);
    forall i | 0 <= i < |bs|
      ensures HexDigitValue(bs[i]) >= 0
    {
      assert IsUpperHexDigit(s[i]);
    }
    if n < 16 {
      assert bs == [bs[0]];
      assert bs[0] as int == HexDigit(n) as int;
    } else {
      var hi := Hex(n / 16);
      var d := HexDigit(n % 16);
      assert s == hi + [d];
      Utf8Append(hi, [d]);
      assert Utf8([d]) == CharUtf8(d);
      HexBytesValue(n / 16);
      assert bs[..|bs| - 1] == Utf8(hi);
      assert bs[|bs| - 1] as int == d as int;
      assert HexDigitValue(bs[|bs| - 1]) == n % 16;
    }
  }
}

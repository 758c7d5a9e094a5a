/** Byte-level building blocks of the wire format: Rust's `i64::to_be_bytes` /
    `i64::from_be_bytes`, the `usize`/`i64` casts, the `{:x}` rendering of a
    digest, `str::as_bytes` (UTF-8 encoding) and the UTF-8 check that
    `read_line` applies to what it reads. */
module Bytes {

  /** A Rust `u8`. */
  type byte = x: int | 0 <= x < 0x100

  /** A Rust `i64`. */
  type i64 = x: int | -0x8000_0000_0000_0000 <= x < 0x8000_0000_0000_0000

  const TWO_63: nat := 0x8000_0000_0000_0000
  const TWO_64: nat := 0x1_0000_0000_0000_0000
  /** `isize::MAX` on a 64-bit target: the largest capacity `vec!` accepts. */
  const ISIZE_MAX: nat := 0x7FFF_FFFF_FFFF_FFFF

  const NEWLINE: byte := 0x0A

  function Pow256(n: nat): (r: nat)
    ensures r > 0
  {
    if n == 0 then 1 else 256 * Pow256(n - 1)
  }

  lemma Pow256Eight()
    ensures Pow256(8) == TWO_64
  {
    assert Pow256(4) == 0x1_0000_0000;
  }

  // ---------------------------------------------------------------------
  // Big-endian unsigned numbers of a fixed width

  /** The `n` big-endian bytes of `u`. */
  function EncodeBE(u: nat, n: nat): (r: seq<byte>)
    requires u < Pow256(n)
    ensures |r| == n
  {
    if n == 0 then [] else EncodeBE(u / 256, n - 1) + [u % 256]
  }

  /** The unsigned number whose big-endian bytes are `bs`. */
  function DecodeBE(bs: seq<byte>): (r: nat)
    ensures r < Pow256(|bs|)
  {
    if bs == [] then 0
    else
      var d := DecodeBE(bs[..|bs| - 1]);
      assert d <= Pow256(|bs| - 1) - 1;
      d * 256 + bs[|bs| - 1]
  }

  lemma {:induction false} DecodeEncodeBE(u: nat, n: nat)
    requires u < Pow256(n)
    ensures DecodeBE(EncodeBE(u, n)) == u
  {
    if n > 0 {
      var bs := EncodeBE(u, n);
      assert bs[..n - 1] == EncodeBE(u / 256, n - 1);
      DecodeEncodeBE(u / 256, n - 1);
    }
  }

  lemma {:induction false} EncodeDecodeBE(bs: seq<byte>)
    ensures EncodeBE(DecodeBE(bs), |bs|) == bs
  {
    if bs != [] {
      var init := bs[..|bs| - 1];
      var d := DecodeBE(init);
      var u := d * 256 + bs[|bs| - 1];
      assert u / 256 == d && u % 256 == bs[|bs| - 1];
      EncodeDecodeBE(init);
      assert bs == init + [bs[|bs| - 1]];
    }
  }

  // ---------------------------------------------------------------------
  // i64 in eight big-endian bytes, two's complement

  /** `x.to_be_bytes()` for an `i64`. */
  function ToBeBytes(x: i64): (r: seq<byte>)
    ensures |r| == 8
    ensures DecodeBE(r) == (if x < 0 then x + TWO_64 else x)
  {
    Pow256Eight();
    var u := if x < 0 then x + TWO_64 else x;
    DecodeEncodeBE(u, 8);
    EncodeBE(u, 8)
  }

  /** `i64::from_be_bytes(bs)`. */
  function FromBeBytes(bs: seq<byte>): (x: i64)
    requires |bs| == 8
    ensures DecodeBE(bs) == (if x < 0 then x + TWO_64 else x)
    ensures ToBeBytes(x) == bs
  {
    Pow256Eight();
    EncodeDecodeBE(bs);
    var u := DecodeBE(bs);
    if u < TWO_63 then u else u - TWO_64
  }

  lemma FromToBeBytes(x: i64)
    ensures FromBeBytes(ToBeBytes(x)) == x
  {
    Pow256Eight();
    DecodeEncodeBE(if x < 0 then x + TWO_64 else x, 8);
  }

  /** `n as i64` for a `usize` `n`: the low 64 bits, read as two's complement. */
  function LenAsI64(n: nat): (x: i64)
    ensures n < TWO_63 ==> x == n
    ensures (x - n) % TWO_64 == 0
  {
    var low := n % TWO_64;
    if low < TWO_63 then low else low - TWO_64
  }

  /** `x as usize` for an `i64` `x` on a 64-bit target: the same bits, read
      unsigned. This is the cast `read_message` applies to the length it
      reads, with no sign check before it. */
  function AsUsize(x: i64): (n: nat)
    ensures n < TWO_64
    ensures x >= 0 ==> n == x
    ensures (n - x) % TWO_64 == 0
  {
    if x < 0 then x + TWO_64 else x
  }

  /** As written, a negative declared length becomes a capacity above
      `isize::MAX`, which `vec![0u8; n]` refuses by panicking ("capacity
      overflow") instead of returning an I/O error. */
  lemma NegativeLengthOverflowsCapacity(x: i64)
    requires x < 0
    ensures AsUsize(x) > ISIZE_MAX
  {
  }

  /** The eight bytes `ff ff ff ff ff ff ff ff` declare length -1, which the
      cast turns into `usize::MAX`, above `isize::MAX`. */
  lemma AllOnesHeaderCastsToUsizeMax()
    ensures FromBeBytes([0xFF, 0xFF, 0xFF, 0xFF, 0xFF, 0xFF, 0xFF, 0xFF]) == -1
    ensures AsUsize(-1) == TWO_64 - 1 > ISIZE_MAX
  {
    var bs: seq<byte> := [0xFF, 0xFF, 0xFF, 0xFF, 0xFF, 0xFF, 0xFF, 0xFF];
    DecodeAllOnes(bs);
    Pow256Eight();
  }

  lemma {:induction false} DecodeAllOnes(bs: seq<byte>)
    requires forall i :: 0 <= i < |bs| ==> bs[i] == 0xFF
    ensures DecodeBE(bs) == Pow256(|bs|) - 1
  {
    if bs != [] {
      DecodeAllOnes(bs[..|bs| - 1]);
    }
  }

  // ---------------------------------------------------------------------
  // Lower-case hexadecimal, as `format!("{:x}", digest)` renders a digest

  function HexDigit(d: nat): (c: byte)
    requires d < 16
  {
    if d < 10 then 0x30 + d else 0x61 + (d - 10)
  }

  /** Two lower-case hex digits per byte, most significant first. */
  function LowerHex(bs: seq<byte>): (r: seq<byte>)
    ensures |r| == 2 * |bs|
    ensures forall i :: 0 <= i < |r| ==> IsHexDigit(r[i])
  {
    if bs == [] then [] else [HexDigit(bs[0] / 16), HexDigit(bs[0] % 16)] + LowerHex(bs[1..])
  }

  predicate IsHexDigit(c: byte) {
    0x30 <= c <= 0x39 || 0x61 <= c <= 0x66
  }

  /** Different digests never render to the same text. */
  lemma {:induction false} LowerHexInjective(a: seq<byte>, b: seq<byte>)
    requires LowerHex(a) == LowerHex(b)
    ensures a == b
  {
    if a != [] {
      var ha, hb := LowerHex(a), LowerHex(b);
      assert ha[0] == hb[0] && ha[1] == hb[1];
      assert a[0] / 16 == b[0] / 16 && a[0] % 16 == b[0] % 16;
      assert ha[2..] == LowerHex(a[1..]) && hb[2..] == LowerHex(b[1..]);
      LowerHexInjective(a[1..], b[1..]);
    }
  }

  // ---------------------------------------------------------------------
  // UTF-8

  /** The UTF-8 encoding of one Unicode scalar value. */
  function EncodeChar(c: char): (r: seq<byte>)
    ensures 1 <= |r| <= 4
  {
    var n := c as int;
    if n < 0x80 then [n]
    else if n < 0x800 then [0xC0 + n / 0x40, 0x80 + n % 0x40]
    else if n < 0x1_0000 then [0xE0 + n / 0x1000, 0x80 + n / 0x40 % 0x40, 0x80 + n % 0x40]
    else [0xF0 + n / 0x4_0000, 0x80 + n / 0x1000 % 0x40, 0x80 + n / 0x40 % 0x40, 0x80 + n % 0x40]
  }

  /** `s.as_bytes()`: the UTF-8 encoding of a string. */
  function EncodeUtf8(s: string): (r: seq<byte>)
    ensures |s| <= |r| <= 4 * |s|
  {
    if s == [] then [] else EncodeChar(s[0]) + EncodeUtf8(s[1..])
  }

  predicate IsContinuation(b: byte) {
    0x80 <= b <= 0xBF
  }

  /** The length of the well-formed UTF-8 sequence `s` starts with (table 3-7
      of the Unicode Standard), or 0 when it does not start with one. */
  function SequenceLength(s: seq<byte>): (n: nat)
    requires s != []
    ensures n <= |s| && n <= 4
  {
    var b := s[0];
    if b <= 0x7F then 1
    else if 0xC2 <= b <= 0xDF then
      if |s| >= 2 && IsContinuation(s[1]) then 2 else 0
    else if 0xE0 <= b <= 0xEF then
      var lo := if b == 0xE0 then 0xA0 else 0x80;
      var hi := if b == 0xED then 0x9F else 0xBF;
      if |s| >= 3 && lo <= s[1] <= hi && IsContinuation(s[2]) then 3 else 0
    else if 0xF0 <= b <= 0xF4 then
      var lo := if b == 0xF0 then 0x90 else 0x80;
      var hi := if b == 0xF4 then 0x8F else 0xBF;
      if |s| >= 4 && lo <= s[1] <= hi && IsContinuation(s[2]) && IsContinuation(s[3]) then 4 else 0
    else 0
  }

  /** `s` is a sequence of well-formed UTF-8 sequences (what `str::from_utf8`
      accepts). The bytes 0xC0, 0xC1 and 0xF5 to 0xFF never occur in it. */
  predicate ValidUtf8(s: seq<byte>)
    ensures ValidUtf8(s) ==> forall i :: 0 <= i < |s| ==> s[i] != 0xC0 && s[i] != 0xC1 && s[i] < 0xF5
    decreases |s|
  {
    s == [] || (SequenceLength(s) > 0 && ValidUtf8(s[SequenceLength(s)..]))
  }

  lemma EncodeCharWellFormed(c: char, rest: seq<byte>)
    ensures SequenceLength(EncodeChar(c) + rest) == |EncodeChar(c)|
  {
  }

  /** `str::as_bytes` always yields valid UTF-8. */
  lemma {:induction false} EncodeUtf8Valid(s: string)
    ensures ValidUtf8(EncodeUtf8(s))
  {
    if s != [] {
      var head, tail := EncodeChar(s[0]), EncodeUtf8(s[1..]);
      EncodeCharWellFormed(s[0], tail);
      assert (head + tail)[|head|..] == tail;
      EncodeUtf8Valid(s[1..]);
    }
  }

  /** Only the character '\n' encodes to a byte 0x0A: a string without one is
      free of newline bytes, so a command name is delimited by the newline
      that follows it. */
  lemma {:induction false} EncodeUtf8NoNewline(s: string)
    requires forall i :: 0 <= i < |s| ==> s[i] != '\n'
    ensures forall i :: 0 <= i < |EncodeUtf8(s)| ==> EncodeUtf8(s)[i] != NEWLINE
  {
    if s != [] {
      EncodeUtf8NoNewline(s[1..]);
      var head, tail := EncodeChar(s[0]), EncodeUtf8(s[1..]);
      forall i | 0 <= i < |head + tail| ensures (head + tail)[i] != NEWLINE {
        if i >= |head| {
          assert (head + tail)[i] == tail[i - |head|];
        }
      }
    }
  }

  /** Bytes below 0x80 are each a one-byte sequence. */
  lemma {:induction false} AsciiIsValidUtf8(s: seq<byte>)
    requires forall i :: 0 <= i < |s| ==> s[i] < 0x80
    ensures ValidUtf8(s)
  {
    if s != [] {
      AsciiIsValidUtf8(s[1..]);
    }
  }
}

/**
 * UTF-8 as defined in section 3 of RFC 3629, as used by `bytes.decode('utf-8')`
 * in its strict mode: every ill-formed sequence (an overlong form, an encoded
 * surrogate, a value above U+10FFFF, a truncated sequence) is an error.
 * A Dafny `char` is a Unicode scalar value, exactly the set UTF-8 can encode.
 */
module Utf8 {
  import opened Wrappers
  import opened Bytes

  predicate IsContinuation(b: byte) {
    0x80 <= b < 0xC0
  }

  /** The one to four octets that encode `c`. */
  function EncodeScalar(c: char): (r: seq<byte>)
    ensures 1 <= |r| <= 4
  {
    var cp := c as int;
    if cp < 0x80 then [cp]
    else if cp < 0x800 then [0xC0 + cp / 64, 0x80 + cp % 64]
    else if cp < 0x1_0000 then [0xE0 + cp / 4096, 0x80 + (cp / 64) % 64, 0x80 + cp % 64]
    else [0xF0 + cp / 262144, 0x80 + (cp / 4096) % 64, 0x80 + (cp / 64) % 64, 0x80 + cp % 64]
  }

  /** `s.encode('utf-8')`. */
  function Encode(s: string): (r: seq<byte>)
    ensures |s| <= |r| <= 4 * |s|
  {
    if s == [] then [] else EncodeScalar(s[0]) + Encode(s[1..])
  }

  /**
   * The scalar that the well-formed sequence at the start of `b` encodes and
   * that sequence's length, following the table of well-formed byte sequences
   * in section 4 of RFC 3629; None when `b` does not start with one.
   */
  function DecodeFirst(b: seq<byte>): (r: Option<(char, nat)>)
    requires |b| > 0
    ensures r.Some? ==> 1 <= r.value.1 <= |b| && r.value.1 <= 4
  {
    var b0: int := b[0];
    if b0 < 0x80 then Some((b0 as char, 1))
    else if 0xC2 <= b0 <= 0xDF then
      if |b| >= 2 && IsContinuation(b[1])
      then Some((((b0 - 0xC0) * 64 + (b[1] as int - 0x80)) as char, 2))
      else None
    else if 0xE0 <= b0 <= 0xEF then
      var lo := if b0 == 0xE0 then 0xA0 else 0x80;
      var hi := if b0 == 0xED then 0x9F else 0xBF;
      if |b| >= 3 && lo <= b[1] <= hi && IsContinuation(b[2])
      then Some((((b0 - 0xE0) * 4096 + (b[1] as int - 0x80) * 64 + (b[2] as int - 0x80)) as char, 3))
      else None
    else if 0xF0 <= b0 <= 0xF4 then
      var lo := if b0 == 0xF0 then 0x90 else 0x80;
      var hi := if b0 == 0xF4 then 0x8F else 0xBF;
      if |b| >= 4 && lo <= b[1] <= hi && IsContinuation(b[2]) && IsContinuation(b[3])
      then Some((((b0 - 0xF0) * 262144 + (b[1] as int - 0x80) * 4096 + (b[2] as int - 0x80) * 64 + (b[3] as int - 0x80)) as char, 4))
      else None
    else None
  }

  /**
   * `b.decode('utf-8')`, with None for the UnicodeDecodeError it raises.  The
   * decoder accepts only canonical input: whatever it decodes re-encodes to
   * the very same octets.
   */
  function Decode(b: seq<byte>): (r: Option<string>)
    ensures r.Some? ==> Encode(r.value) == b
    decreases |b|
  {
    if b == [] then Some("")
    else
      match DecodeFirst(b)
      case None => None
      case Some((c, n)) =>
        match Decode(b[n..])
        case None => None
        case Some(rest) =>
          DecodeFirstIsEncoding(b);
          assert ([c] + rest)[0] == c && ([c] + rest)[1..] == rest;
          assert b == b[..n] + b[n..];
          Some([c] + rest)
  }

  /** Splitting a three- or four-octet scalar into payload bits and joining them again. */
  lemma Bits3(cp: int)
    requires 0x800 <= cp < 0x1_0000
    ensures 0 <= cp / 4096 < 16 && (cp / 4096) * 4096 + ((cp / 64) % 64) * 64 + cp % 64 == cp
    ensures cp / 4096 == 0 ==> 0x20 <= (cp / 64) % 64
    ensures cp / 4096 == 0xD ==> ((cp / 64) % 64 < 0x20 <==> cp < 0xD800)
  {
    var q := cp / 64;
    assert q == (cp / 4096) * 64 + q % 64;
  }

  lemma Bits4(cp: int)
    requires 0x1_0000 <= cp < 0x11_0000
    ensures 0 <= cp / 262144 <= 4
    ensures (cp / 262144) * 262144 + ((cp / 4096) % 64) * 4096 + ((cp / 64) % 64) * 64 + cp % 64 == cp
    ensures cp / 262144 == 0 ==> 0x10 <= (cp / 4096) % 64
    ensures cp / 262144 == 4 ==> (cp / 4096) % 64 < 0x10
  {
    var q := cp / 64;
    var p := cp / 4096;
    assert q == p * 64 + q % 64;
    assert p == (cp / 262144) * 64 + p % 64;
  }

  /** Joining payload bits and splitting them again gives the same bits back. */
  lemma Unbits3(x0: int, x1: int, x2: int)
    requires 0 <= x0 < 16 && 0 <= x1 < 64 && 0 <= x2 < 64
    ensures var cp := x0 * 4096 + x1 * 64 + x2;
      cp / 4096 == x0 && (cp / 64) % 64 == x1 && cp % 64 == x2
  {
    var cp := x0 * 4096 + x1 * 64 + x2;
    assert cp / 64 == x0 * 64 + x1;
  }

  lemma Unbits4(x0: int, x1: int, x2: int, x3: int)
    requires 0 <= x0 < 8 && 0 <= x1 < 64 && 0 <= x2 < 64 && 0 <= x3 < 64
    ensures var cp := x0 * 262144 + x1 * 4096 + x2 * 64 + x3;
      cp / 262144 == x0 && (cp / 4096) % 64 == x1 && (cp / 64) % 64 == x2 && cp % 64 == x3
  {
    var cp := x0 * 262144 + x1 * 4096 + x2 * 64 + x3;
    assert cp / 64 == x0 * 4096 + x1 * 64 + x2;
    assert cp / 4096 == x0 * 64 + x1;
  }

  /** The decoder reads back exactly the encoding of one scalar, whatever follows it. */
  lemma DecodeFirstEncodeScalar(c: char, rest: seq<byte>)
    ensures DecodeFirst(EncodeScalar(c) + rest) == Some((c, |EncodeScalar(c)|))
  {
    var cp := c as int;
    var b := EncodeScalar(c) + rest;
    if cp < 0x80 {
    } else if cp < 0x800 {
      assert b[0] == 0xC0 + cp / 64 && b[1] == 0x80 + cp % 64;
      assert (b[0] as int - 0xC0) * 64 + (b[1] as int - 0x80) == cp;
    } else if cp < 0x1_0000 {
      Bits3(cp);
      assert b[0] == 0xE0 + cp / 4096 && b[1] == 0x80 + (cp / 64) % 64 && b[2] == 0x80 + cp % 64;
      assert (b[0] as int - 0xE0) * 4096 + (b[1] as int - 0x80) * 64 + (b[2] as int - 0x80) == cp;
    } else {
      Bits4(cp);
      assert b[0] == 0xF0 + cp / 262144 && b[1] == 0x80 + (cp / 4096) % 64;
      assert b[2] == 0x80 + (cp / 64) % 64 && b[3] == 0x80 + cp % 64;
      assert (b[0] as int - 0xF0) * 262144 + (b[1] as int - 0x80) * 4096
        + (b[2] as int - 0x80) * 64 + (b[3] as int - 0x80) == cp;
    }
  }

  /** What the decoder accepts at the start of `b` is exactly the encoding of the scalar it returns. */
  lemma DecodeFirstIsEncoding(b: seq<byte>)
    requires |b| > 0 && DecodeFirst(b).Some?
    ensures b[..DecodeFirst(b).value.1] == EncodeScalar(DecodeFirst(b).value.0)
  {
    var b0: int := b[0];
    var r := DecodeFirst(b).value;
    var cp := r.0 as int;
    if b0 < 0x80 {
      assert b[..1] == [b[0]];
    } else if b0 <= 0xDF {
      assert cp == (b0 - 0xC0) * 64 + (b[1] as int - 0x80);
      assert b[..2] == [b[0], b[1]];
    } else if b0 <= 0xEF {
      assert cp == (b0 - 0xE0) * 4096 + (b[1] as int - 0x80) * 64 + (b[2] as int - 0x80);
      Unbits3(b0 - 0xE0, b[1] as int - 0x80, b[2] as int - 0x80);
      assert b[..3] == [b[0], b[1], b[2]];
    } else {
      assert cp == (b0 - 0xF0) * 262144 + (b[1] as int - 0x80) * 4096
        + (b[2] as int - 0x80) * 64 + (b[3] as int - 0x80);
      Unbits4(b0 - 0xF0, b[1] as int - 0x80, b[2] as int - 0x80, b[3] as int - 0x80);
      assert b[..4] == [b[0], b[1], b[2], b[3]];
    }
  }

  /** Round trip: decoding the UTF-8 form of any string gives the string back. */
  lemma {:induction false} DecodeEncode(s: string)
    ensures Decode(Encode(s)) == Some(s)
  {
    if s != [] {
      var e := EncodeScalar(s[0]);
      var tail := Encode(s[1..]);
      DecodeFirstEncodeScalar(s[0], tail);
      assert (e + tail)[|e|..] == tail;
      DecodeEncode(s[1..]);
      assert [s[0]] + s[1..] == s;
    }
  }

  /** The two directions together: `b` decodes to `s` exactly when `b` is the encoding of `s`. */
  lemma DecodeIffEncode(b: seq<byte>, s: string)
    ensures Decode(b) == Some(s) <==> b == Encode(s)
  {
    if b == Encode(s) {
      DecodeEncode(s);
    }
  }

  /** Strictness: an overlong form, an encoded surrogate and a truncated sequence are all rejected. */
  lemma RejectsIllFormed()
    ensures Decode([0xC0, 0x80]) == None
    ensures Decode([0xED, 0xA0, 0x80]) == None
    ensures Decode([0xE2, 0x82]) == None
    ensures Decode([0xF4, 0x90, 0x80, 0x80]) == None
  {
  }
}

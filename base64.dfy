/**
 * Base64 as in section 4 of RFC 4648, and Python's `base64.b64decode(s)` with
 * its default `validate=False`.  On a `str` argument that call first encodes
 * it as ASCII (a non-ASCII character raises ValueError) and then runs
 * CPython's non-strict `binascii.a2b_base64` (the algorithm of CPython 3.11
 * and later): characters outside the alphabet are skipped, a `=` that cannot
 * be padding is skipped, the first padding that completes a quantum ends the
 * input, and running out of input in the middle of a quantum is an error.
 */
module Base64 {
  import opened Wrappers
  import opened Bytes

  predicate IsAscii(c: char) {
    c as int < 128
  }

  predicate AllAscii(s: string) {
    forall i :: 0 <= i < |s| ==> IsAscii(s[i])
  }

  /** The value of `c` in the alphabet of Table 1 of RFC 4648, or -1 outside it. */
  function SextetOf(c: char): (v: int)
    ensures -1 <= v < 64
  {
    if 'A' <= c <= 'Z' then c as int - 'A' as int
    else if 'a' <= c <= 'z' then c as int - 'a' as int + 26
    else if '0' <= c <= '9' then c as int - '0' as int + 52
    else if c == '+' then 62
    else if c == '/' then 63
    else -1
  }

  /** The alphabet character of value `v`. */
  function CharOf(v: int): (c: char)
    requires 0 <= v < 64
    ensures IsAscii(c) && SextetOf(c) == v
  {
    if v < 26 then ('A' as int + v) as char
    else if v < 52 then ('a' as int + v - 26) as char
    else if v < 62 then ('0' as int + v - 52) as char
    else if v == 62 then '+'
    else '/'
  }

  /** `base64.b64encode`: each three octets become four characters, a short last group is padded with `=`. */
  function Encode(b: seq<byte>): (r: string)
    ensures |r| == 4 * ((|b| + 2) / 3)
  {
    if |b| == 0 then ""
    else if |b| == 1 then
      [CharOf(b[0] / 4), CharOf((b[0] % 4) * 16), '=', '=']
    else if |b| == 2 then
      [CharOf(b[0] / 4), CharOf((b[0] % 4) * 16 + b[1] / 16), CharOf((b[1] % 16) * 4), '=']
    else
      [CharOf(b[0] / 4), CharOf((b[0] % 4) * 16 + b[1] / 16), CharOf((b[1] % 16) * 4 + b[2] / 64), CharOf(b[2] % 64)]
      + Encode(b[3..])
  }

  /**
   * The decoder's registers: how many characters of the current quantum have
   * been read, the bits of the last one not yet written out, the `=` seen
   * since then, and the octets produced so far.
   */
  datatype State = State(quad: nat, left: int, pads: nat, out: seq<byte>)

  const Start := State(0, 0, 0, [])

  /** How many bits of the last character are still pending in each position of a quantum. */
  predicate ValidState(st: State) {
    st.quad < 4 && 0 <= st.left
    && (st.quad == 1 ==> st.left < 64)
    && (st.quad == 2 ==> st.left < 16)
    && (st.quad == 3 ==> st.left < 4)
  }

  /** Reading one alphabet character of value `v`. */
  function Step(st: State, v: int): (r: State)
    requires ValidState(st) && 0 <= v < 64
    ensures ValidState(r) && r.quad == (st.quad + 1) % 4 && r.pads == 0
  {
    match st.quad
    case 0 => State(1, v, 0, st.out)
    case 1 => State(2, v % 16, 0, st.out + [st.left * 4 + v / 16])
    case 2 => State(3, v % 4, 0, st.out + [st.left * 16 + v / 4])
    case 3 => State(0, 0, 0, st.out + [st.left * 64 + v])
  }

  /** The scanning loop of `a2b_base64` in non-strict mode, over the rest of the input `s`. */
  function Scan(s: string, st: State): (r: Option<seq<byte>>)
    requires ValidState(st)
    ensures r.Some? ==> |st.out| <= |r.value| && r.value[..|st.out|] == st.out
    decreases |s|
  {
    if s == [] then
      if st.quad == 0 then Some(st.out) else None
    else if s[0] == '=' then
      if st.quad >= 2 && st.quad + st.pads + 1 >= 4 then Some(st.out)
      else if st.quad >= 2 then Scan(s[1..], st.(pads := st.pads + 1))
      else Scan(s[1..], st)
    else if SextetOf(s[0]) < 0 then Scan(s[1..], st)
    else Scan(s[1..], Step(st, SextetOf(s[0])))
  }

  /** `b64decode(s)` on a `str`, with None for the exception it raises. */
  function Decode(s: string): (r: Option<seq<byte>>)
    ensures !AllAscii(s) ==> r.None?
  {
    if AllAscii(s) then Scan(s, Start) else None
  }

  /** What the decoder does not skip: alphabet characters, `=`, and non-ASCII characters. */
  function Significant(s: string): (r: string)
    ensures |r| <= |s|
  {
    if s == [] then []
    else if s[0] == '=' || SextetOf(s[0]) >= 0 || !IsAscii(s[0]) then [s[0]] + Significant(s[1..])
    else Significant(s[1..])
  }

  lemma {:induction false} ScanSignificant(s: string, st: State)
    requires ValidState(st)
    ensures Scan(s, st) == Scan(Significant(s), st)
    decreases |s|
  {
    if s != [] {
      var t := Significant(s[1..]);
      if s[0] == '=' || SextetOf(s[0]) >= 0 {
        assert Significant(s) == [s[0]] + t && ([s[0]] + t)[1..] == t;
        if s[0] == '=' {
          if !(st.quad >= 2 && st.quad + st.pads + 1 >= 4) {
            ScanSignificant(s[1..], if st.quad >= 2 then st.(pads := st.pads + 1) else st);
          }
        } else {
          ScanSignificant(s[1..], Step(st, SextetOf(s[0])));
        }
      } else if !IsAscii(s[0]) {
        assert Significant(s) == [s[0]] + t && ([s[0]] + t)[1..] == t;
        ScanSignificant(s[1..], st);
      } else {
        ScanSignificant(s[1..], st);
      }
    }
  }

  lemma {:induction false} AllAsciiSignificant(s: string)
    ensures AllAscii(s) <==> AllAscii(Significant(s))
    decreases |s|
  {
    if s != [] {
      AllAsciiSignificant(s[1..]);
      var t := Significant(s[1..]);
      if s[0] == '=' || SextetOf(s[0]) >= 0 || !IsAscii(s[0]) {
        assert Significant(s) == [s[0]] + t;
        assert ([s[0]] + t)[0] == s[0] && ([s[0]] + t)[1..] == t;
      }
      assert s == [s[0]] + s[1..];
    }
  }

  /** Without `validate=True`, ASCII characters outside the alphabet (other than `=`) are simply ignored. */
  lemma DecodeIgnoresNonAlphabet(s: string)
    ensures Decode(s) == Decode(Significant(s))
  {
    AllAsciiSignificant(s);
    ScanSignificant(s, Start);
  }

  lemma {:induction false} EncodeAscii(b: seq<byte>)
    ensures AllAscii(Encode(b))
    decreases |b|
  {
    if |b| >= 3 {
      EncodeAscii(b[3..]);
    }
  }

  /** Reading one alphabet character is one step of the state machine. */
  lemma ScanAlphabet(c: char, rest: string, st: State)
    requires ValidState(st) && SextetOf(c) >= 0
    ensures Scan([c] + rest, st) == Scan(rest, Step(st, SextetOf(c)))
  {
  }

  /** The sextets `Encode` makes of three octets carry those octets. */
  lemma QuantumBits(b0: byte, b1: byte, b2: byte)
    ensures var v0, v1, v2, v3 := b0 / 4, (b0 % 4) * 16 + b1 / 16, (b1 % 16) * 4 + b2 / 64, b2 % 64;
      v0 * 4 + v1 / 16 == b0 && (v1 % 16) * 16 + v2 / 4 == b1 && (v2 % 4) * 64 + v3 == b2
  {
  }

  /** One full quantum: four characters carry three octets into the output. */
  lemma ScanQuantum(b0: byte, b1: byte, b2: byte, rest: string, out: seq<byte>)
    ensures Scan([CharOf(b0 / 4), CharOf((b0 % 4) * 16 + b1 / 16), CharOf((b1 % 16) * 4 + b2 / 64), CharOf(b2 % 64)] + rest, State(0, 0, 0, out))
      == Scan(rest, State(0, 0, 0, out + [b0, b1, b2]))
  {
    var v0, v1, v2, v3 := b0 / 4, (b0 % 4) * 16 + b1 / 16, (b1 % 16) * 4 + b2 / 64, b2 % 64;
    var c0, c1, c2, c3 := CharOf(v0), CharOf(v1), CharOf(v2), CharOf(v3);
    QuantumBits(b0, b1, b2);
    var st1 := Step(State(0, 0, 0, out), v0);
    var st2 := Step(st1, v1);
    var st3 := Step(st2, v2);
    var st4 := Step(st3, v3);
    assert st4 == State(0, 0, 0, out + [b0, b1, b2]);
    assert [c0, c1, c2, c3] + rest == [c0] + ([c1] + ([c2] + ([c3] + rest)));
    ScanAlphabet(c0, [c1] + ([c2] + ([c3] + rest)), State(0, 0, 0, out));
    ScanAlphabet(c1, [c2] + ([c3] + rest), st1);
    ScanAlphabet(c2, [c3] + rest, st2);
    ScanAlphabet(c3, rest, st3);
  }

  /** Scanning the padded final group of one octet. */
  lemma ScanEncodeOne(b0: byte, out: seq<byte>)
    ensures Scan(Encode([b0]), State(0, 0, 0, out)) == Some(out + [b0])
  {
    var v0, v1 := b0 / 4, (b0 % 4) * 16;
    var c0, c1 := CharOf(v0), CharOf(v1);
    var st1 := Step(State(0, 0, 0, out), v0);
    var st2 := Step(st1, v1);
    assert st2.out == out + [b0];
    assert Encode([b0]) == [c0] + ([c1] + "==");
    ScanAlphabet(c0, [c1] + "==", State(0, 0, 0, out));
    ScanAlphabet(c1, "==", st1);
    assert "=="[1..] == "=";
  }

  /** Scanning the padded final group of two octets. */
  lemma ScanEncodeTwo(b0: byte, b1: byte, out: seq<byte>)
    ensures Scan(Encode([b0, b1]), State(0, 0, 0, out)) == Some(out + [b0, b1])
  {
    var v0, v1, v2 := b0 / 4, (b0 % 4) * 16 + b1 / 16, (b1 % 16) * 4;
    QuantumBits(b0, b1, 0);
    var c0, c1, c2 := CharOf(v0), CharOf(v1), CharOf(v2);
    var st1 := Step(State(0, 0, 0, out), v0);
    var st2 := Step(st1, v1);
    var st3 := Step(st2, v2);
    assert st3.out == out + [b0, b1];
    assert Encode([b0, b1]) == [c0] + ([c1] + ([c2] + "="));
    ScanAlphabet(c0, [c1] + ([c2] + "="), State(0, 0, 0, out));
    ScanAlphabet(c1, [c2] + "=", st1);
    ScanAlphabet(c2, "=", st2);
  }

  lemma {:induction false} ScanEncode(b: seq<byte>, out: seq<byte>)
    ensures Scan(Encode(b), State(0, 0, 0, out)) == Some(out + b)
    decreases |b|
  {
    if |b| == 0 {
      assert out + b == out;
    } else if |b| == 1 {
      assert b == [b[0]];
      ScanEncodeOne(b[0], out);
    } else if |b| == 2 {
      assert b == [b[0], b[1]];
      ScanEncodeTwo(b[0], b[1], out);
    } else {
      ScanQuantum(b[0], b[1], b[2], Encode(b[3..]), out);
      ScanEncode(b[3..], out + [b[0], b[1], b[2]]);
      assert out + [b[0], b[1], b[2]] + b[3..] == out + b;
    }
  }

  /** Round trip: `b64decode(b64encode(b)) == b` for every octet string. */
  lemma DecodeEncode(b: seq<byte>)
    ensures Decode(Encode(b)) == Some(b)
  {
    EncodeAscii(b);
    ScanEncode(b, []);
    assert [] + b == b;
  }

  /** `eHl6` is the encoding of `xyz`. */
  lemma DecodeXyz()
    ensures Decode("eHl6") == Some([120, 121, 122])
  {
    assert Encode([120, 121, 122]) == "eHl6";
    DecodeEncode([120, 121, 122]);
  }

  lemma {:induction false} SignificantAppend(a: string, b: string)
    ensures Significant(a + b) == Significant(a) + Significant(b)
    decreases |a|
  {
    if a != [] {
      assert (a + b)[0] == a[0] && (a + b)[1..] == a[1..] + b;
      SignificantAppend(a[1..], b);
    } else {
      assert a + b == b;
    }
  }

  /** An alphabet character moves the state machine one position further in the quantum. */
  lemma {:induction false} ScanAlphabetOnly(s: string, st: State)
    requires ValidState(st)
    requires forall i :: 0 <= i < |s| ==> SextetOf(s[i]) >= 0
    requires (st.quad + |s|) % 4 != 0
    ensures Scan(s, st) == None
    decreases |s|
  {
    if s != [] {
      assert s[0] != '=';
      ScanAlphabetOnly(s[1..], Step(st, SextetOf(s[0])));
    }
  }

  lemma {:induction false} SignificantAlphabetOnly(s: string)
    requires AllAscii(s) && '=' !in s
    ensures forall i :: 0 <= i < |Significant(s)| ==> SextetOf(Significant(s)[i]) >= 0
    decreases |s|
  {
    if s != [] {
      assert AllAscii(s[1..]) && '=' !in s[1..] by {
        assert forall i :: 0 <= i < |s| - 1 ==> s[1..][i] == s[i + 1];
      }
      SignificantAlphabetOnly(s[1..]);
    }
  }

  /**
   * Without padding, a payload whose alphabet characters do not fill whole
   * quanta is an error (`!!!not-base64!!!` keeps nine of them).
   */
  lemma PartialQuantumRejected(s: string)
    requires '=' !in s && |Significant(s)| % 4 != 0
    ensures Decode(s) == None
  {
    if AllAscii(s) {
      SignificantAlphabetOnly(s);
      ScanSignificant(s, Start);
      ScanAlphabetOnly(Significant(s), Start);
    }
  }

  lemma NotBase64Pieces()
    ensures Significant("!!!") == "" && Significant("-") == ""
    ensures Significant("not") == "not" && Significant("base64") == "base64"
  {
  }

  /** `!!!not-base64!!!` keeps the nine alphabet characters of `notbase64`, so `PartialQuantumRejected` applies to it. */
  lemma NotBase64Significant()
    ensures |Significant("!!!not-base64!!!")| == 9
  {
    var bang, dash := "!!!", "-";
    var t3 := "base64" + bang;
    var t2 := dash + t3;
    var t1 := "not" + t2;
    assert "!!!not-base64!!!" == bang + t1;
    NotBase64Pieces();
    SignificantAppend("base64", bang);
    SignificantAppend(dash, t3);
    SignificantAppend("not", t2);
    SignificantAppend(bang, t1);
  }
}

// The base64 encoding of section 4 of RFC 4648, as g_base64_encode produces
// it for the configuration payloads sent by omp/omp.c: every three octets
// become four characters of the 64-character alphabet, and a final group of
// one or two octets is padded with '='.

module Base64 {
  import opened Options

  /** An octet of a C buffer. */
  type Byte = x: int | 0 <= x < 256

  /** The character for a 6-bit value, in the alphabet of RFC 4648 section 4 (Table 1). */
  function Symbol(v: int): (c: char)
    requires 0 <= v < 64
  {
    if v < 26 then ('A' as int + v) as char
    else if v < 52 then ('a' as int + (v - 26)) as char
    else if v < 62 then ('0' as int + (v - 52)) as char
    else if v == 62 then '+'
    else '/'
  }

  /** The 6-bit value of an alphabet character, or None for any other character. */
  function Value(c: char): (r: Option<int>)
    ensures r.Some? ==> 0 <= r.value < 64 && Symbol(r.value) == c
  {
    if 'A' <= c <= 'Z' then Some(c as int - 'A' as int)
    else if 'a' <= c <= 'z' then Some(c as int - 'a' as int + 26)
    else if '0' <= c <= '9' then Some(c as int - '0' as int + 52)
    else if c == '+' then Some(62)
    else if c == '/' then Some(63)
    else None
  }

  /** Every symbol is read back as the value it encodes; so the alphabet has 64 distinct characters. */
  lemma ValueOfSymbol(v: int)
    requires 0 <= v < 64
    ensures Value(Symbol(v)) == Some(v) && Symbol(v) != '='
  {
  }

  /** The four 6-bit groups of three octets, most significant first. */
  function Sextets(a: Byte, b: Byte, c: Byte): (v: seq<int>)
    ensures |v| == 4 && forall i :: 0 <= i < 4 ==> 0 <= v[i] < 64
  {
    [a / 4, a % 4 * 16 + b / 16, b % 16 * 4 + c / 64, c % 64]
  }

  /** Three octets as four symbols. */
  function Quad(a: Byte, b: Byte, c: Byte): (s: string)
    ensures |s| == 4
  {
    var v := Sextets(a, b, c);
    [Symbol(v[0]), Symbol(v[1]), Symbol(v[2]), Symbol(v[3])]
  }

  /** g_base64_encode: the encoding of a whole buffer, padded. */
  function Encode(bs: seq<Byte>): (s: string)
    ensures |s| == 4 * ((|bs| + 2) / 3)
    decreases |bs|
  {
    if |bs| >= 3 then Quad(bs[0], bs[1], bs[2]) + Encode(bs[3..])
    else if |bs| == 2 then Quad(bs[0], bs[1], 0)[..3] + "="
    else if |bs| == 1 then Quad(bs[0], 0, 0)[..2] + "=="
    else ""
  }

  /** The octets of one group of four characters, or None when it is not an encoding. */
  function DecodeQuad(q: string, last: bool): (r: Option<seq<Byte>>)
    requires |q| == 4
  {
    var v0 := Value(q[0]);
    var v1 := Value(q[1]);
    if v0.None? || v1.None? then None
    else if q[2] == '=' then
      if last && q[3] == '=' && v1.value % 16 == 0 then Some([v0.value * 4 + v1.value / 16]) else None
    else
      var v2 := Value(q[2]);
      if v2.None? then None
      else if q[3] == '=' then
        if last && v2.value % 4 == 0 then Some([v0.value * 4 + v1.value / 16, v1.value % 16 * 16 + v2.value / 4]) else None
      else
        var v3 := Value(q[3]);
        if v3.None? then None
        else Some([v0.value * 4 + v1.value / 16, v1.value % 16 * 16 + v2.value / 4, v2.value % 4 * 64 + v3.value])
  }

  /** The decoder for the same encoding: the octets of a canonical padded encoding, or None. */
  function Decode(s: string): (r: Option<seq<Byte>>)
    decreases |s|
  {
    if s == [] then Some([])
    else if |s| < 4 then None
    else
      match DecodeQuad(s[..4], |s| == 4)
      case None => None
      case Some(head) =>
        match Decode(s[4..])
        case None => None
        case Some(tail) => Some(head + tail)
  }

  /** The symbols of a group and the values they stand for. */
  lemma QuadValues(a: Byte, b: Byte, c: Byte)
    ensures var q := Quad(a, b, c); var v := Sextets(a, b, c);
      forall i :: 0 <= i < 4 ==> Value(q[i]) == Some(v[i]) && q[i] != '='
  {
    var v := Sextets(a, b, c);
    ValueOfSymbol(v[0]);
    ValueOfSymbol(v[1]);
    ValueOfSymbol(v[2]);
    ValueOfSymbol(v[3]);
  }

  lemma QuadRoundTrip(a: Byte, b: Byte, c: Byte)
    ensures DecodeQuad(Quad(a, b, c), false) == Some([a, b, c])
    ensures DecodeQuad(Quad(a, b, c), true) == Some([a, b, c])
  {
    QuadValues(a, b, c);
    var v := Sextets(a, b, c);
    assert v[0] * 4 + v[1] / 16 == a;
    assert v[1] % 16 * 16 + v[2] / 4 == b;
    assert v[2] % 4 * 64 + v[3] == c;
  }

  lemma PairRoundTrip(a: Byte, b: Byte)
    ensures DecodeQuad(Quad(a, b, 0)[..3] + "=", true) == Some([a, b])
  {
    QuadValues(a, b, 0);
    var q := Quad(a, b, 0)[..3] + "=";
    var v := Sextets(a, b, 0);
    assert q[0] == Quad(a, b, 0)[0] && q[1] == Quad(a, b, 0)[1] && q[2] == Quad(a, b, 0)[2];
    assert v[0] * 4 + v[1] / 16 == a;
    assert v[1] % 16 * 16 + v[2] / 4 == b;
    assert v[2] % 4 == 0;
  }

  lemma SingleRoundTrip(a: Byte)
    ensures DecodeQuad(Quad(a, 0, 0)[..2] + "==", true) == Some([a])
  {
    QuadValues(a, 0, 0);
    var q := Quad(a, 0, 0)[..2] + "==";
    var v := Sextets(a, 0, 0);
    assert q[0] == Quad(a, 0, 0)[0] && q[1] == Quad(a, 0, 0)[1];
    assert v[0] * 4 + v[1] / 16 == a;
    assert v[1] % 16 == 0;
  }

  /** A string decodes group by group. */
  lemma DecodeCons(s: string, head: seq<Byte>, tail: seq<Byte>)
    requires |s| >= 4 && DecodeQuad(s[..4], |s| == 4) == Some(head) && Decode(s[4..]) == Some(tail)
    ensures Decode(s) == Some(head + tail)
  {
  }

  /** The round trip of two octets: one group padded with one '='. */
  lemma RoundTripPair(bs: seq<Byte>)
    requires |bs| == 2
    ensures Decode(Encode(bs)) == Some(bs)
  {
    var s := Quad(bs[0], bs[1], 0)[..3] + "=";
    assert Encode(bs) == s;
    PairRoundTrip(bs[0], bs[1]);
    assert s[..4] == s && s[4..] == [];
    var pair: seq<Byte> := [bs[0], bs[1]];
    assert pair == bs;
    DecodeCons(s, pair, []);
    assert pair + [] == pair;
  }

  /** The round trip of one octet: one group padded with two '='. */
  lemma RoundTripSingle(bs: seq<Byte>)
    requires |bs| == 1
    ensures Decode(Encode(bs)) == Some(bs)
  {
    var s := Quad(bs[0], 0, 0)[..2] + "==";
    assert Encode(bs) == s;
    SingleRoundTrip(bs[0]);
    assert s[..4] == s && s[4..] == [];
    var single: seq<Byte> := [bs[0]];
    assert single == bs;
    DecodeCons(s, single, []);
    assert single + [] == single;
  }

  /** Decoding an encoding gives back the buffer. */
  lemma {:induction false} RoundTrip(bs: seq<Byte>)
    ensures Decode(Encode(bs)) == Some(bs)
    decreases |bs|
  {
    if |bs| >= 3 {
      var s := Encode(bs);
      QuadRoundTrip(bs[0], bs[1], bs[2]);
      RoundTrip(bs[3..]);
      assert s[..4] == Quad(bs[0], bs[1], bs[2]) && s[4..] == Encode(bs[3..]);
      var head: seq<Byte> := [bs[0], bs[1], bs[2]];
      DecodeCons(s, head, bs[3..]);
      assert bs == head + bs[3..];
    } else if |bs| == 2 {
      RoundTripPair(bs);
    } else if |bs| == 1 {
      RoundTripSingle(bs);
    }
  }

  /** The encoding uses only the alphabet, with '=' only as padding in the last two places. */
  lemma {:induction false} EncodeAlphabet(bs: seq<Byte>)
    ensures forall i :: 0 <= i < |Encode(bs)| ==>
              Value(Encode(bs)[i]).Some? || (Encode(bs)[i] == '=' && i >= |Encode(bs)| - 2)
    decreases |bs|
  {
    var s := Encode(bs);
    if |bs| >= 3 {
      EncodeAlphabet(bs[3..]);
      QuadValues(bs[0], bs[1], bs[2]);
      forall i | 0 <= i < |s| ensures Value(s[i]).Some? || (s[i] == '=' && i >= |s| - 2) {
        if i >= 4 {
          assert s[i] == Encode(bs[3..])[i - 4];
        }
      }
    } else if |bs| == 2 {
      QuadValues(bs[0], bs[1], 0);
    } else if |bs| == 1 {
      QuadValues(bs[0], 0, 0);
    }
  }
}

/**
 * Base64 with the standard alphabet of RFC 4648 section 4.
 *
 * `Encode` is `base64.b64encode`: three octets become four characters and
 * the last group is padded with `=`. `Decode` is `base64.b64decode` without
 * `validate`, which runs CPython's non-strict `binascii.a2b_base64` loop:
 * characters outside the alphabet are skipped, a `=` counts only once at
 * least two characters of a quantum have been read, a complete pad ends the
 * input, and the input is refused when it stops in the middle of a quantum.
 */
module Base64 {
  import opened Wrappers
  import opened Bytes

  /** The character for a six-bit value. */
  function Letter(i: int): (c: char)
    requires 0 <= i < 64
    ensures c != '='
  {
    if i < 26 then ('A' as int + i) as char
    else if i < 52 then ('a' as int + (i - 26)) as char
    else if i < 62 then ('0' as int + (i - 52)) as char
    else if i == 62 then '+'
    else '/'
  }

  /** The six-bit value of an alphabet character; `None` for every other
      character (the decoder skips those). */
  function Value(c: char): (r: Option<int>)
    ensures r.Some? ==> 0 <= r.value < 64 && Letter(r.value) == c
    ensures r.None? ==> forall i :: 0 <= i < 64 ==> Letter(i) != c
  {
    if 'A' <= c <= 'Z' then Some(c as int - 'A' as int)
    else if 'a' <= c <= 'z' then Some(c as int - 'a' as int + 26)
    else if '0' <= c <= '9' then Some(c as int - '0' as int + 52)
    else if c == '+' then Some(62)
    else if c == '/' then Some(63)
    else None
  }

  /** Every letter reads back as the value it was written for. */
  lemma ValueOfLetter(i: int)
    requires 0 <= i < 64
    ensures Value(Letter(i)) == Some(i)
  {
  }

  /** Four characters for three octets. */
  function EncodeGroup(b0: byte, b1: byte, b2: byte): string {
    [Letter(b0 / 4), Letter((b0 % 4) * 16 + b1 / 16), Letter((b1 % 16) * 4 + b2 / 64), Letter(b2 % 64)]
  }

  /** `base64.b64encode(b)`. */
  function Encode(b: seq<byte>): string {
    if |b| == 0 then ""
    else if |b| == 1 then [Letter(b[0] / 4), Letter((b[0] % 4) * 16), '=', '=']
    else if |b| == 2 then [Letter(b[0] / 4), Letter((b[0] % 4) * 16 + b[1] / 16), Letter((b[1] % 16) * 4), '=']
    else EncodeGroup(b[0], b[1], b[2]) + Encode(b[3..])
  }

  /** Four characters for every started group of three octets. */
  lemma {:induction false} EncodedLength(b: seq<byte>)
    ensures |Encode(b)| == 4 * ((|b| + 2) / 3)
    decreases |b|
  {
    if |b| >= 3 {
      EncodedLength(b[3..]);
      assert |Encode(b)| == 4 + |Encode(b[3..])|;
      assert (|b| + 2) / 3 == (|b[3..]| + 2) / 3 + 1;
    }
  }

  /** The decoding loop's variables: the position within the current
      quantum, the bits carried to the next octet, the run of `=` seen,
      and the octets produced so far. */
  datatype Decoder = Decoder(quad: int, left: int, pads: nat, out: seq<byte>)

  /** The carried bits fit what the next octet has room for. */
  predicate WellFormed(d: Decoder) {
    && 0 <= d.quad < 4
    && 0 <= d.left
    && (d.quad == 1 ==> d.left < 64)
    && (d.quad == 2 ==> d.left < 16)
    && (d.quad == 3 ==> d.left < 4)
  }

  /** One alphabet character of value `v` read into the current quantum. */
  function Feed(d: Decoder, v: int): (e: Decoder)
    requires WellFormed(d) && 0 <= v < 64
    ensures WellFormed(e)
  {
    if d.quad == 0 then Decoder(1, v, 0, d.out)
    else if d.quad == 1 then Decoder(2, v % 16, 0, d.out + [d.left * 4 + v / 16])
    else if d.quad == 2 then Decoder(3, v % 4, 0, d.out + [d.left * 16 + v / 4])
    else Decoder(0, 0, 0, d.out + [d.left * 64 + v])
  }

  /** The decoding loop over the remaining characters `s`. */
  function Run(s: string, d: Decoder): Option<seq<byte>>
    requires WellFormed(d)
  {
    if s == [] then
      if d.quad == 0 then Some(d.out) else None
    else if s[0] == '=' then
      if d.quad >= 2 && d.quad + d.pads + 1 >= 4 then Some(d.out)
      else if d.quad >= 2 then Run(s[1..], d.(pads := d.pads + 1))
      else Run(s[1..], d)
    else match Value(s[0])
      case None => Run(s[1..], d)
      case Some(v) => Run(s[1..], Feed(d, v))
  }

  /** `base64.b64decode(s)`, or `None` where it raises `binascii.Error`. */
  function Decode(s: string): Option<seq<byte>> {
    Run(s, Decoder(0, 0, 0, []))
  }

  /** One alphabet character at the front of the input is read by `Feed`. */
  lemma RunLetter(i: int, rest: string, d: Decoder)
    requires 0 <= i < 64 && WellFormed(d)
    ensures Run([Letter(i)] + rest, d) == Run(rest, Feed(d, i))
  {
    ValueOfLetter(i);
    assert ([Letter(i)] + rest)[1..] == rest;
  }

  /** Reading one full group from the start of a quantum appends its three
      octets and returns to the start of a quantum. */
  lemma RunGroup(b0: byte, b1: byte, b2: byte, rest: string, out: seq<byte>)
    ensures Run(EncodeGroup(b0, b1, b2) + rest, Decoder(0, 0, 0, out))
         == Run(rest, Decoder(0, 0, 0, out + [b0, b1, b2]))
  {
    var v0, v1, v2, v3 := b0 / 4, (b0 % 4) * 16 + b1 / 16, (b1 % 16) * 4 + b2 / 64, b2 % 64;
    GroupBits(b0, b1, b2);
    var t3 := [Letter(v3)] + rest;
    var t2 := [Letter(v2)] + t3;
    var t1 := [Letter(v1)] + t2;
    assert EncodeGroup(b0, b1, b2) + rest == [Letter(v0)] + t1;
    FeedGroup(v0, v1, v2, v3, out);
    var d1 := Feed(Decoder(0, 0, 0, out), v0);
    var d2 := Feed(d1, v1);
    var d3 := Feed(d2, v2);
    RunLetter(v0, t1, Decoder(0, 0, 0, out));
    RunLetter(v1, t2, d1);
    RunLetter(v2, t3, d2);
    RunLetter(v3, rest, d3);
  }

  /** The four six-bit values of a group put its three octets back
      together. */
  lemma GroupBits(b0: byte, b1: byte, b2: byte)
    ensures var v0, v1, v2, v3 := b0 / 4, (b0 % 4) * 16 + b1 / 16, (b1 % 16) * 4 + b2 / 64, b2 % 64;
      && 0 <= v0 < 64 && 0 <= v1 < 64 && 0 <= v2 < 64 && 0 <= v3 < 64
      && v0 * 4 + v1 / 16 == b0 && (v1 % 16) * 16 + v2 / 4 == b1 && (v2 % 4) * 64 + v3 == b2
  {
  }

  /** Feeding four values from the start of a quantum appends three
      octets. */
  lemma FeedGroup(v0: int, v1: int, v2: int, v3: int, out: seq<byte>)
    requires 0 <= v0 < 64 && 0 <= v1 < 64 && 0 <= v2 < 64 && 0 <= v3 < 64
    requires 0 <= v0 * 4 + v1 / 16 < 256 && 0 <= (v1 % 16) * 16 + v2 / 4 < 256
    requires 0 <= (v2 % 4) * 64 + v3 < 256
    ensures Feed(Feed(Feed(Feed(Decoder(0, 0, 0, out), v0), v1), v2), v3)
         == Decoder(0, 0, 0, out + [v0 * 4 + v1 / 16, (v1 % 16) * 16 + v2 / 4, (v2 % 4) * 64 + v3])
  {
    var o := [v0 * 4 + v1 / 16, (v1 % 16) * 16 + v2 / 4, (v2 % 4) * 64 + v3];
    assert out + [o[0]] + [o[1]] + [o[2]] == out + o;
  }

  /** Decoding what `Encode` wrote, from the start of a quantum, appends
      exactly the encoded octets. */
  lemma {:induction false} RunEncoded(b: seq<byte>, out: seq<byte>)
    ensures Run(Encode(b), Decoder(0, 0, 0, out)) == Some(out + b)
    decreases |b|
  {
    if |b| == 0 {
      assert out + b == out;
    } else if |b| == 1 {
      RunLastOne(b[0], out);
      assert b == [b[0]];
    } else if |b| == 2 {
      RunLastTwo(b[0], b[1], out);
      assert b == [b[0], b[1]];
    } else {
      var head, rest := [b[0], b[1], b[2]], b[3..];
      assert head + rest == b;
      assert Encode(b) == EncodeGroup(b[0], b[1], b[2]) + Encode(rest);
      RunGroup(b[0], b[1], b[2], Encode(rest), out);
      RunEncoded(rest, out + head);
      assert out + head + rest == out + (head + rest);
    }
  }

  /** A final single octet: two letters and two pads. */
  lemma RunLastOne(b0: byte, out: seq<byte>)
    ensures Run(Encode([b0]), Decoder(0, 0, 0, out)) == Some(out + [b0])
  {
    var v0, v1 := b0 / 4, (b0 % 4) * 16;
    assert v0 * 4 + v1 / 16 == b0;
    var d1 := Decoder(1, v0, 0, out);
    var d2 := Decoder(2, v1 % 16, 0, out + [b0]);
    assert Encode([b0]) == [Letter(v0)] + ([Letter(v1)] + "==");
    RunLetter(v0, [Letter(v1)] + "==", Decoder(0, 0, 0, out));
    RunLetter(v1, "==", d1);
    assert Run("==", d2) == Run("=", d2.(pads := 1));
  }

  /** A final pair of octets: three letters and one pad. */
  lemma RunLastTwo(b0: byte, b1: byte, out: seq<byte>)
    ensures Run(Encode([b0, b1]), Decoder(0, 0, 0, out)) == Some(out + [b0, b1])
  {
    var v0, v1, v2 := b0 / 4, (b0 % 4) * 16 + b1 / 16, (b1 % 16) * 4;
    assert v0 * 4 + v1 / 16 == b0;
    assert (v1 % 16) * 16 + v2 / 4 == b1;
    var d1 := Decoder(1, v0, 0, out);
    var d2 := Decoder(2, v1 % 16, 0, out + [b0]);
    var d3 := Decoder(3, v2 % 4, 0, out + [b0, b1]);
    assert Encode([b0, b1]) == [Letter(v0)] + ([Letter(v1)] + ([Letter(v2)] + "="));
    RunLetter(v0, [Letter(v1)] + ([Letter(v2)] + "="), Decoder(0, 0, 0, out));
    RunLetter(v1, [Letter(v2)] + "=", d1);
    RunLetter(v2, "=", d2);
    assert out + [b0] + [b1] == out + [b0, b1];
  }

  /** Round trip: `b64decode(b64encode(b)) == b` for every byte string. */
  lemma DecodeEncode(b: seq<byte>)
    ensures Decode(Encode(b)) == Some(b)
  {
    RunEncoded(b, []);
    assert [] + b == b;
  }

  /** Decoding the encoding of whole groups, followed by more input, reads
      the groups' octets and continues at the start of a quantum. */
  lemma {:induction false} RunEncodedGroups(b: seq<byte>, rest: string, out: seq<byte>, groups: nat)
    requires |b| == 3 * groups
    ensures Run(Encode(b) + rest, Decoder(0, 0, 0, out)) == Run(rest, Decoder(0, 0, 0, out + b))
    decreases |b|
  {
    if |b| == 0 {
      assert Encode(b) + rest == rest && out + b == out;
    } else {
      var head, tail := [b[0], b[1], b[2]], b[3..];
      assert head + tail == b;
      assert Encode(b) + rest == EncodeGroup(b[0], b[1], b[2]) + (Encode(tail) + rest);
      RunGroup(b[0], b[1], b[2], Encode(tail) + rest, out);
      RunEncodedGroups(tail, rest, out + head, groups - 1);
      assert out + head + tail == out + (head + tail);
    }
  }

  /** A lone data character after complete quanta cannot be decoded: the
      input stops in the middle of a quantum. */
  lemma DecodeRejectsLoneCharacter(b: seq<byte>, i: int)
    requires |b| % 3 == 0 && 0 <= i < 64
    ensures Decode(Encode(b) + [Letter(i)]) == None
  {
    RunEncodedGroups(b, [Letter(i)], [], |b| / 3);
    RunLetter(i, "", Decoder(0, 0, 0, [] + b));
  }

  /** An instance: `QUJD` encodes `ABC`, and the `Q` after it is refused. */
  lemma LoneCharacterExample()
    ensures Decode("QUJDQ") == None
  {
    var b: seq<byte> := [65, 66, 67];
    assert b[3..] == [];
    assert Encode(b) == "QUJD";
    assert "QUJDQ" == Encode(b) + [Letter(16)];
    DecodeRejectsLoneCharacter(b, 16);
  }

  /** The decoder is lenient: a pad that comes before two characters of a
      quantum have been read is skipped. */
  lemma EarlyPadSkipped(s: string, d: Decoder)
    requires WellFormed(d) && d.quad < 2
    ensures Run("=" + s, d) == Run(s, d)
  {
    assert ("=" + s)[1..] == s;
  }

  /** An instance: `====` holds no quantum and decodes to nothing. */
  lemma DecodeSkipsEarlyPad()
    ensures Decode("====") == Some([])
  {
    var d := Decoder(0, 0, 0, []);
    EarlyPadSkipped("===", d);
    EarlyPadSkipped("==", d);
    EarlyPadSkipped("=", d);
    EarlyPadSkipped("", d);
  }
}

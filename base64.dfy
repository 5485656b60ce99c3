/** Base64 with the standard alphabet and '=' padding, as in section 4 of
    RFC 4648; the client encodes "user:password" with it for the
    Authorization header. The decoder is the encoder's partner. */
module Base64 {
  import opened Basics

  /** The character for a 6-bit value. */
  function Digit(v: nat): (c: char)
    requires v < 64
    ensures c != '='
  {
    if v < 26 then ('A' as int + v) as char
    else if v < 52 then ('a' as int + (v - 26)) as char
    else if v < 62 then ('0' as int + (v - 52)) as char
    else if v == 62 then '+'
    else '/'
  }

  /** The 6-bit value of an alphabet character. */
  function Value(c: char): (r: Option<nat>)
    ensures r.Some? ==> r.value < 64 && Digit(r.value) == c
  {
    if 'A' <= c <= 'Z' then Some(c as int - 'A' as int)
    else if 'a' <= c <= 'z' then Some(c as int - 'a' as int + 26)
    else if '0' <= c <= '9' then Some(c as int - '0' as int + 52)
    else if c == '+' then Some(62)
    else if c == '/' then Some(63)
    else None
  }

  lemma ValueOfDigit(v: nat)
    requires v < 64
    ensures Value(Digit(v)) == Some(v)
  {
  }

  /** Three bytes as four characters. */
  function EncodeGroup(a: byte, b: byte, c: byte): string
  {
    [Digit(a as nat / 4), Digit(a as nat % 4 * 16 + b as nat / 16),
     Digit(b as nat % 16 * 4 + c as nat / 64), Digit(c as nat % 64)]
  }

  /** One final byte as two characters and two '='. */
  function EncodeOne(a: byte): string
  {
    [Digit(a as nat / 4), Digit(a as nat % 4 * 16), '=', '=']
  }

  /** Two final bytes as three characters and one '='. */
  function EncodeTwo(a: byte, b: byte): string
  {
    [Digit(a as nat / 4), Digit(a as nat % 4 * 16 + b as nat / 16), Digit(b as nat % 16 * 4), '=']
  }

  /** The encoding of `bs`: four characters per three bytes, the last group
      padded with '='. */
  function Encode(bs: seq<byte>): (r: string)
    ensures |r| % 4 == 0 && (|bs| == 0 <==> |r| == 0)
    decreases |bs|
  {
    if |bs| == 0 then []
    else if |bs| == 1 then EncodeOne(bs[0])
    else if |bs| == 2 then EncodeTwo(bs[0], bs[1])
    else EncodeGroup(bs[0], bs[1], bs[2]) + Encode(bs[3..])
  }

  /** Four characters without padding as three bytes. */
  function DecodeGroup(s: string): Option<seq<byte>>
    requires |s| == 4
  {
    match (Value(s[0]), Value(s[1]), Value(s[2]), Value(s[3]))
    case (Some(v0), Some(v1), Some(v2), Some(v3)) =>
      Some([(v0 * 4 + v1 / 16) as byte, (v1 % 16 * 16 + v2 / 4) as byte, (v2 % 4 * 64 + v3) as byte])
    case _ => None
  }

  /** The last four characters, which may end in one or two '='. */
  function DecodeLast(s: string): Option<seq<byte>>
    requires |s| == 4
  {
    if s[2] == '=' && s[3] == '=' then
      match (Value(s[0]), Value(s[1]))
      case (Some(v0), Some(v1)) => Some([(v0 * 4 + v1 / 16) as byte])
      case _ => None
    else if s[3] == '=' then
      match (Value(s[0]), Value(s[1]), Value(s[2]))
      case (Some(v0), Some(v1), Some(v2)) =>
        Some([(v0 * 4 + v1 / 16) as byte, (v1 % 16 * 16 + v2 / 4) as byte])
      case _ => None
    else DecodeGroup(s)
  }

  /** The bytes a padded encoding stands for, or `None` for malformed text. */
  function Decode(s: string): Option<seq<byte>>
    decreases |s|
  {
    if |s| == 0 then Some([])
    else if |s| < 4 then None
    else if |s| == 4 then DecodeLast(s)
    else match DecodeGroup(s[..4])
      case None => None
      case Some(g) =>
        match Decode(s[4..])
        case None => None
        case Some(rest) => Some(g + rest)
  }

  lemma DivMod16(q: nat, r: nat)
    requires r < 16
    ensures (q * 16 + r) / 16 == q && (q * 16 + r) % 16 == r
  {
  }

  lemma DivMod4(q: nat, r: nat)
    requires r < 4
    ensures (q * 4 + r) / 4 == q && (q * 4 + r) % 4 == r
  {
  }

  /** The byte `x` rebuilt from its top six bits and the next two. */
  lemma HighBits(x: nat, low: nat)
    requires x < 256 && low < 16
    ensures (x / 4) * 4 + (x % 4 * 16 + low) / 16 == x
    ensures (x % 4 * 16 + low) % 16 == low
  {
    DivMod16(x % 4, low);
  }

  /** The byte `y` rebuilt from its top four bits and the next four. */
  lemma MiddleBits(y: nat, low: nat)
    requires y < 256 && low < 4
    ensures (y / 16) * 16 + (y % 16 * 4 + low) / 4 == y
    ensures (y % 16 * 4 + low) % 4 == low
  {
    DivMod4(y % 16, low);
  }

  lemma GroupRoundTrip(a: byte, b: byte, c: byte)
    ensures DecodeGroup(EncodeGroup(a, b, c)) == Some([a, b, c])
  {
    var x, y, z := a as nat, b as nat, c as nat;
    var v0, v1, v2, v3 := x / 4, x % 4 * 16 + y / 16, y % 16 * 4 + z / 64, z % 64;
    ValueOfDigit(v0);
    ValueOfDigit(v1);
    ValueOfDigit(v2);
    ValueOfDigit(v3);
    HighBits(x, y / 16);
    MiddleBits(y, z / 64);
    assert v0 * 4 + v1 / 16 == x;
    assert v1 % 16 * 16 + v2 / 4 == y;
    assert v2 % 4 * 64 + v3 == z;
  }

  /** The six-bit values of one final byte, and the byte rebuilt from them. */
  lemma OneByteBits(x: nat)
    requires x < 256
    ensures x / 4 < 64 && x % 4 * 16 < 64
    ensures x / 4 * 4 + x % 4 * 16 / 16 == x
  {
    HighBits(x, 0);
  }

  /** The six-bit values of two final bytes, and the bytes rebuilt from them. */
  lemma TwoByteBits(x: nat, y: nat)
    requires x < 256 && y < 256
    ensures x / 4 < 64 && x % 4 * 16 + y / 16 < 64 && y % 16 * 4 < 64
    ensures x / 4 * 4 + (x % 4 * 16 + y / 16) / 16 == x
    ensures (x % 4 * 16 + y / 16) % 16 * 16 + y % 16 * 4 / 4 == y
  {
    HighBits(x, y / 16);
    MiddleBits(y, 0);
  }

  /** Two digits and "==" decode to the one byte they carry. */
  lemma DecodeLastOne(v0: nat, v1: nat, x: byte)
    requires v0 < 64 && v1 < 64 && v0 * 4 + v1 / 16 == x as nat
    ensures DecodeLast([Digit(v0), Digit(v1), '=', '=']) == Some([x])
  {
    ValueOfDigit(v0);
    ValueOfDigit(v1);
  }

  /** Three digits and "=" decode to the two bytes they carry. */
  lemma DecodeLastTwo(v0: nat, v1: nat, v2: nat, x: byte, y: byte)
    requires v0 < 64 && v1 < 64 && v2 < 64
    requires v0 * 4 + v1 / 16 == x as nat && v1 % 16 * 16 + v2 / 4 == y as nat
    ensures DecodeLast([Digit(v0), Digit(v1), Digit(v2), '=']) == Some([x, y])
  {
    ValueOfDigit(v0);
    ValueOfDigit(v1);
    ValueOfDigit(v2);
  }

  lemma OneByteRoundTrip(bs: seq<byte>)
    requires |bs| == 1
    ensures Decode(Encode(bs)) == Some(bs)
  {
    var x := bs[0] as nat;
    OneByteBits(x);
    var v0, v1 := x / 4, x % 4 * 16;
    var e := Encode(bs);
    assert e == [Digit(v0), Digit(v1), '=', '='];
    assert Decode(e) == DecodeLast(e);
    DecodeLastOne(v0, v1, bs[0]);
    assert bs == [bs[0]];
  }

  lemma TwoByteRoundTrip(bs: seq<byte>)
    requires |bs| == 2
    ensures Decode(Encode(bs)) == Some(bs)
  {
    var x, y := bs[0] as nat, bs[1] as nat;
    TwoByteBits(x, y);
    var v0, v1, v2 := x / 4, x % 4 * 16 + y / 16, y % 16 * 4;
    var e := Encode(bs);
    assert e == [Digit(v0), Digit(v1), Digit(v2), '='];
    assert Decode(e) == DecodeLast(e);
    DecodeLastTwo(v0, v1, v2, bs[0], bs[1]);
    assert bs == [bs[0], bs[1]];
  }

  lemma EncodeStep(bs: seq<byte>)
    requires |bs| >= 3
    ensures Encode(bs) == EncodeGroup(bs[0], bs[1], bs[2]) + Encode(bs[3..])
  {
  }

  lemma DecodeStep(g: string, rest: string, x: seq<byte>, y: seq<byte>)
    requires |g| == 4 && |rest| >= 4
    requires DecodeGroup(g) == Some(x) && Decode(rest) == Some(y)
    ensures Decode(g + rest) == Some(x + y)
  {
    assert (g + rest)[..4] == g;
    assert (g + rest)[4..] == rest;
  }

  lemma LastGroupRoundTrip(bs: seq<byte>)
    requires |bs| == 3
    ensures Decode(Encode(bs)) == Some(bs)
  {
    EncodeStep(bs);
    var g := EncodeGroup(bs[0], bs[1], bs[2]);
    assert Encode(bs[3..]) == [];
    assert Encode(bs) == g;
    GroupRoundTrip(bs[0], bs[1], bs[2]);
    assert g[2] != '=' && g[3] != '=';
    assert DecodeLast(g) == DecodeGroup(g);
    assert bs == [bs[0], bs[1], bs[2]];
  }

  /** Decoding an encoding gives the bytes back. */
  lemma {:induction false} RoundTrip(bs: seq<byte>)
    ensures Decode(Encode(bs)) == Some(bs)
    decreases |bs|
  {
    if |bs| == 0 {
    } else if |bs| == 1 {
      OneByteRoundTrip(bs);
    } else if |bs| == 2 {
      TwoByteRoundTrip(bs);
    } else if |bs| == 3 {
      LastGroupRoundTrip(bs);
    } else {
      RoundTrip(bs[3..]);
      GroupThenRest(bs);
    }
  }

  /** A full first group decodes back in front of the decoded rest. */
  lemma GroupThenRest(bs: seq<byte>)
    requires |bs| >= 4 && Decode(Encode(bs[3..])) == Some(bs[3..])
    ensures Decode(Encode(bs)) == Some(bs)
  {
    var g, rest := EncodeGroup(bs[0], bs[1], bs[2]), Encode(bs[3..]);
    EncodeStep(bs);
    assert Encode(bs) == g + rest;
    GroupRoundTrip(bs[0], bs[1], bs[2]);
    DecodeStep(g, rest, [bs[0], bs[1], bs[2]], bs[3..]);
    FirstThree(bs);
  }

  lemma FirstThree<T>(s: seq<T>)
    requires |s| >= 3
    ensures s == [s[0], s[1], s[2]] + s[3..]
  {
  }
}

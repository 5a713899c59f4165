/** The base64 encoding of section 4 of RFC 4648 (alphabet "A-Z a-z 0-9 +
    /", '=' padding), which Python's `base64.b64encode` produces, together
    with a decoder and the round trip between them; and `int.to_bytes`
    in little-endian order, with its inverse. */
module Base64 {
  import opened Wrappers

  type byte = x: int | 0 <= x < 256

  type sextet = x: int | 0 <= x < 64

  /** Table 1 of section 4 of RFC 4648: the character for a 6-bit value. */
  function CharOf(v: sextet): (c: char)
    ensures c != '=' && '+' <= c <= 'z'
  {
    if v < 26 then ('A' as int + v) as char
    else if v < 52 then ('a' as int + v - 26) as char
    else if v < 62 then ('0' as int + v - 52) as char
    else if v == 62 then '+'
    else '/'
  }

  /** The inverse of Table 1: `None` for a character outside the alphabet. */
  function ValueOf(c: char): Option<sextet> {
    if 'A' <= c <= 'Z' then Some(c as int - 'A' as int)
    else if 'a' <= c <= 'z' then Some(c as int - 'a' as int + 26)
    else if '0' <= c <= '9' then Some(c as int - '0' as int + 52)
    else if c == '+' then Some(62)
    else if c == '/' then Some(63)
    else None
  }

  lemma ValueOfCharOf(v: sextet)
    ensures ValueOf(CharOf(v)) == Some(v)
  {
  }

  /** Three bytes become four characters, most significant bits first. */
  function EncodeGroup(a: byte, b: byte, c: byte): string {
    [CharOf(a / 4), CharOf((a % 4) * 16 + b / 16), CharOf((b % 16) * 4 + c / 64), CharOf(c % 64)]
  }

  /** `base64.b64encode(bs)`: whole groups of three bytes, then a final
      group of one or two bytes padded with '='. */
  function Encode(bs: seq<byte>): (r: string)
    ensures |r| == 4 * ((|bs| + 2) / 3)
  {
    if |bs| == 0 then []
    else if |bs| == 1 then [CharOf(bs[0] / 4), CharOf((bs[0] % 4) * 16), '=', '=']
    else if |bs| == 2 then
      [CharOf(bs[0] / 4), CharOf((bs[0] % 4) * 16 + bs[1] / 16), CharOf((bs[1] % 16) * 4), '=']
    else EncodeGroup(bs[0], bs[1], bs[2]) + Encode(bs[3..])
  }

  /** The three bytes whose bits four 6-bit values carry. */
  function Bytes3(v0: sextet, v1: sextet, v2: sextet, v3: sextet): seq<byte> {
    [v0 * 4 + v1 / 16, (v1 % 16) * 16 + v2 / 4, (v2 % 4) * 64 + v3]
  }

  lemma Split16(x: int, y: int)
    requires 0 <= y < 16
    ensures (x * 16 + y) / 16 == x && (x * 16 + y) % 16 == y
  {
  }

  lemma Split4(x: int, y: int)
    requires 0 <= y < 4
    ensures (x * 4 + y) / 4 == x && (x * 4 + y) % 4 == y
  {
  }

  lemma GroupBits(a: byte, b: byte, c: byte)
    ensures Bytes3(a / 4, (a % 4) * 16 + b / 16, (b % 16) * 4 + c / 64, c % 64) == [a, b, c]
  {
    Split16(a % 4, b / 16);
    Split4(b % 16, c / 64);
  }

  /** Four alphabet characters back to three bytes. */
  function DecodeGroup(q: string): Option<seq<byte>>
    requires |q| == 4
  {
    match (ValueOf(q[0]), ValueOf(q[1]), ValueOf(q[2]), ValueOf(q[3]))
    case (Some(v0), Some(v1), Some(v2), Some(v3)) =>
      Some(Bytes3(v0, v1, v2, v3))
    case _ => None
  }

  /** The last group of the text, which may end in "==" (one byte) or
      "=" (two bytes). */
  function DecodeFinalGroup(q: string): Option<seq<byte>>
    requires |q| == 4
  {
    if q[2] == '=' && q[3] == '=' then
      match (ValueOf(q[0]), ValueOf(q[1]))
      case (Some(v0), Some(v1)) => Some(Bytes3(v0, v1, 0, 0)[..1])
      case _ => None
    else if q[3] == '=' then
      match (ValueOf(q[0]), ValueOf(q[1]), ValueOf(q[2]))
      case (Some(v0), Some(v1), Some(v2)) => Some(Bytes3(v0, v1, v2, 0)[..2])
      case _ => None
    else DecodeGroup(q)
  }

  /** Decodes a padded base64 text; `None` when its length is not a
      multiple of four or a character is out of place. */
  function Decode(s: string): Option<seq<byte>>
    decreases |s|
  {
    if s == [] then Some([])
    else if |s| < 4 then None
    else if |s| == 4 then DecodeFinalGroup(s)
    else
      match (DecodeGroup(s[..4]), Decode(s[4..]))
      case (Some(head), Some(tail)) => Some(head + tail)
      case _ => None
  }

  lemma GroupRoundTrip(a: byte, b: byte, c: byte)
    ensures DecodeGroup(EncodeGroup(a, b, c)) == Some([a, b, c])
    ensures DecodeFinalGroup(EncodeGroup(a, b, c)) == Some([a, b, c])
  {
    ValueOfCharOf(a / 4);
    ValueOfCharOf((a % 4) * 16 + b / 16);
    ValueOfCharOf((b % 16) * 4 + c / 64);
    ValueOfCharOf(c % 64);
    GroupBits(a, b, c);
  }

  lemma OneByteRoundTrip(a: byte)
    ensures Decode(Encode([a])) == Some([a])
  {
    ValueOfCharOf(a / 4);
    ValueOfCharOf((a % 4) * 16);
    GroupBits(a, 0, 0);
    var s := Encode([a]);
    assert |s| == 4 && s[2] == '=' && s[3] == '=';
    assert ValueOf(s[0]) == Some(a / 4);
    assert ValueOf(s[1]) == Some((a % 4) * 16);
    var t := Bytes3(a / 4, (a % 4) * 16, 0, 0);
    assert t == [a, 0, 0];
    assert t[..1] == [a];
    assert DecodeFinalGroup(s) == Some(t[..1]);
  }

  lemma TwoBytesRoundTrip(a: byte, b: byte)
    ensures Decode(Encode([a, b])) == Some([a, b])
  {
    ValueOfCharOf(a / 4);
    ValueOfCharOf((a % 4) * 16 + b / 16);
    ValueOfCharOf((b % 16) * 4);
    GroupBits(a, b, 0);
    var s := Encode([a, b]);
    var t := Bytes3(a / 4, (a % 4) * 16 + b / 16, (b % 16) * 4, 0);
    assert t == [a, b, 0];
    assert t[..2] == [a, b];
    assert DecodeFinalGroup(s) == Some(t[..2]);
  }

  lemma DecodeAppend(g: string, rest: string, h: seq<byte>, t: seq<byte>)
    requires |g| == 4 && rest != []
    requires DecodeGroup(g) == Some(h) && Decode(rest) == Some(t)
    ensures Decode(g + rest) == Some(h + t)
  {
    var s := g + rest;
    assert s[..4] == g && s[4..] == rest;
  }

  lemma EncodeCons(bs: seq<byte>)
    requires |bs| >= 3
    ensures Encode(bs) == EncodeGroup(bs[0], bs[1], bs[2]) + Encode(bs[3..])
  {
  }

  lemma SplitThree<T>(s: seq<T>)
    requires |s| >= 3
    ensures s == [s[0], s[1], s[2]] + s[3..]
  {
  }

  lemma ThreeBytesRoundTrip(a: byte, b: byte, c: byte)
    ensures Decode(Encode([a, b, c])) == Some([a, b, c])
  {
    GroupRoundTrip(a, b, c);
    EncodeCons([a, b, c]);
    assert [a, b, c][3..] == [];
    assert Encode([a, b, c]) == EncodeGroup(a, b, c);
  }

  lemma LongerRoundTrip(bs: seq<byte>)
    requires |bs| > 3
    requires Decode(Encode(bs[3..])) == Some(bs[3..])
    ensures Decode(Encode(bs)) == Some(bs)
  {
    var g := EncodeGroup(bs[0], bs[1], bs[2]);
    GroupRoundTrip(bs[0], bs[1], bs[2]);
    EncodeCons(bs);
    SplitThree(bs);
    DecodeAppend(g, Encode(bs[3..]), [bs[0], bs[1], bs[2]], bs[3..]);
  }

  /** Decoding what `Encode` wrote gives back the bytes. */
  lemma {:induction false} DecodeEncode(bs: seq<byte>)
    ensures Decode(Encode(bs)) == Some(bs)
    decreases |bs|
  {
    if |bs| == 1 {
      OneByteRoundTrip(bs[0]);
      assert bs == [bs[0]];
    } else if |bs| == 2 {
      TwoBytesRoundTrip(bs[0], bs[1]);
      assert bs == [bs[0], bs[1]];
    } else if |bs| == 3 {
      ThreeBytesRoundTrip(bs[0], bs[1], bs[2]);
      assert bs == [bs[0], bs[1], bs[2]];
    } else if |bs| > 3 {
      DecodeEncode(bs[3..]);
      LongerRoundTrip(bs);
    }
  }

  // ---------------------------------------------------------------------------
  // `int.to_bytes(length, 'little')`

  function Pow256(k: nat): (r: nat)
    ensures r > 0
  {
    if k == 0 then 1 else 256 * Pow256(k - 1)
  }

  /** `n.to_bytes(length, 'little')`: least significant byte first. Python
      raises OverflowError when `n` does not fit, so callers keep `n` small. */
  function ToBytesLittle(n: nat, length: nat): (r: seq<byte>)
    requires n < Pow256(length)
    ensures |r| == length
  {
    if length == 0 then [] else [n % 256] + ToBytesLittle(n / 256, length - 1)
  }

  /** `int.from_bytes(bs, 'little')`. */
  function FromBytesLittle(bs: seq<byte>): nat {
    if bs == [] then 0 else bs[0] + 256 * FromBytesLittle(bs[1..])
  }

  lemma {:induction false} FromToBytesLittle(n: nat, length: nat)
    requires n < Pow256(length)
    ensures FromBytesLittle(ToBytesLittle(n, length)) == n
  {
    if length > 0 {
      FromToBytesLittle(n / 256, length - 1);
      assert ToBytesLittle(n, length)[1..] == ToBytesLittle(n / 256, length - 1);
    }
  }

  /** A byte value written in `length` bytes is itself followed by zeros. */
  lemma {:induction false} SmallToBytesLittle(b: byte, length: nat)
    requires length > 0
    ensures Pow256(length) > b
    ensures ToBytesLittle(b, length) == [b] + seq(length - 1, _ => 0)
  {
    if length > 1 {
      SmallToBytesLittle(0, length - 1);
    }
  }
}

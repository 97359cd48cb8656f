/** Percent-encoding of a path component, as `urllib.parse.quote` does it with
    its default `safe='/'`: the text is encoded as UTF-8, every byte that is an
    ASCII letter, digit, one of `_.-~`, or `/` is kept as that character, and
    every other byte becomes `%` followed by two upper-case hex digits. */
module UrlQuote {
  import opened Wrappers
  import Decimal

  type Byte = x: int | 0 <= x < 256

  // ---------------------------------------------------------------- UTF-8

  /** The UTF-8 encoding of one Unicode scalar value. */
  function Utf8Char(c: char): (bs: seq<Byte>)
    ensures 1 <= |bs| <= 4
  {
    var cp := c as int;
    if cp < 0x80 then [cp]
    else if cp < 0x800 then [0xC0 + cp / 64, 0x80 + cp % 64]
    else if cp < 0x10000 then [0xE0 + cp / 4096, 0x80 + (cp / 64) % 64, 0x80 + cp % 64]
    else [0xF0 + cp / 262144, 0x80 + (cp / 4096) % 64, 0x80 + (cp / 64) % 64, 0x80 + cp % 64]
  }

  function Utf8Encode(s: string): seq<Byte> {
    if |s| == 0 then [] else Utf8Char(s[0]) + Utf8Encode(s[1..])
  }

  /** How many bytes a sequence starting with lead byte `b` occupies; 0 for a
      byte that cannot start a sequence. */
  function LeadLength(b: Byte): nat {
    if b < 0x80 then 1
    else if 0xC0 <= b < 0xE0 then 2
    else if 0xE0 <= b < 0xF0 then 3
    else if 0xF0 <= b < 0xF8 then 4
    else 0
  }

  predicate IsContinuation(b: Byte) {
    0x80 <= b < 0xC0
  }

  /** The number spelled by the payload bits of a 1- to 4-byte sequence. */
  function ScalarValue(bs: seq<Byte>): int
    requires 1 <= |bs| <= 4
  {
    var b: seq<int> := bs;
    if |b| == 1 then b[0]
    else if |b| == 2 then (b[0] - 0xC0) * 64 + (b[1] - 0x80)
    else if |b| == 3 then (b[0] - 0xE0) * 4096 + (b[1] - 0x80) * 64 + (b[2] - 0x80)
    else (b[0] - 0xF0) * 262144 + (b[1] - 0x80) * 4096 + (b[2] - 0x80) * 64 + (b[3] - 0x80)
  }

  /** The scalar value spelled by one well-formed sequence, if it is one. */
  function DecodeScalar(bs: seq<Byte>): Option<char>
    requires 1 <= |bs| <= 4
  {
    var cp := ScalarValue(bs);
    if 0 <= cp < 0xD800 || 0xE000 <= cp < 0x11_0000 then Some(cp as char) else None
  }

  function Utf8Decode(bs: seq<Byte>): Option<string>
    decreases |bs|
  {
    if |bs| == 0 then Some([])
    else
      var n := LeadLength(bs[0]);
      if n == 0 || |bs| < n || exists k :: 1 <= k < n && !IsContinuation(bs[k]) then None
      else match DecodeScalar(bs[..n])
        case None => None
        case Some(c) =>
          match Utf8Decode(bs[n..])
          case None => None
          case Some(rest) => Some([c] + rest)
  }

  lemma SixBitGroups(cp: int)
    requires cp >= 0
    ensures cp / 64 / 64 == cp / 4096
    ensures cp / 4096 / 64 == cp / 262144
    ensures cp == (cp / 64) * 64 + cp % 64
    ensures cp / 64 == (cp / 4096) * 64 + (cp / 64) % 64
    ensures cp / 4096 == (cp / 262144) * 64 + (cp / 4096) % 64
  {
  }

  lemma Utf8CharValue(c: char)
    ensures ScalarValue(Utf8Char(c)) == c as int
  {
    var cp := c as int;
    SixBitGroups(cp);
    var bs := Utf8Char(c);
    if cp >= 0x10000 {
      assert ScalarValue(bs) == (cp / 262144) * 262144 + ((cp / 4096) % 64) * 4096 + ((cp / 64) % 64) * 64 + cp % 64;
    } else if cp >= 0x800 {
      assert ScalarValue(bs) == (cp / 4096) * 4096 + ((cp / 64) % 64) * 64 + cp % 64;
    } else if cp >= 0x80 {
      assert ScalarValue(bs) == (cp / 64) * 64 + cp % 64;
    }
  }

  lemma Utf8CharDecodes(c: char)
    ensures LeadLength(Utf8Char(c)[0]) == |Utf8Char(c)|
    ensures forall k :: 1 <= k < |Utf8Char(c)| ==> IsContinuation(Utf8Char(c)[k])
    ensures DecodeScalar(Utf8Char(c)) == Some(c)
  {
    Utf8CharValue(c);
  }

  /** Decoding undoes encoding. */
  lemma {:induction false} Utf8RoundTrip(s: string)
    ensures Utf8Decode(Utf8Encode(s)) == Some(s)
  {
    if |s| > 0 {
      var head := Utf8Char(s[0]);
      var bs := Utf8Encode(s);
      Utf8CharDecodes(s[0]);
      Utf8RoundTrip(s[1..]);
      assert bs[..|head|] == head;
      assert bs[|head|..] == Utf8Encode(s[1..]);
      assert forall k :: 1 <= k < |head| ==> bs[k] == head[k];
      assert [s[0]] + s[1..] == s;
    }
  }

  lemma {:induction false} Utf8EncodeAppend(a: string, b: string)
    ensures Utf8Encode(a + b) == Utf8Encode(a) + Utf8Encode(b)
  {
    if |a| == 0 {
      assert a + b == b;
    } else {
      assert (a + b)[0] == a[0];
      assert (a + b)[1..] == a[1..] + b;
      Utf8EncodeAppend(a[1..], b);
    }
  }

  // ------------------------------------------------------- percent-encoding

  /** Bytes that `quote` leaves alone: its always-safe set plus `/`. */
  predicate IsSafe(b: Byte) {
    || 'A' as int <= b <= 'Z' as int
    || 'a' as int <= b <= 'z' as int
    || '0' as int <= b <= '9' as int
    || b == '_' as int || b == '.' as int || b == '-' as int || b == '~' as int
    || b == '/' as int
  }

  /** Upper-case hex digit, as `%02X` writes it. */
  function HexDigit(d: int): char
    requires 0 <= d < 16
  {
    if d < 10 then Decimal.DigitChar(d) else (d - 10 + 'A' as int) as char
  }

  function HexValue(c: char): Option<int> {
    if '0' <= c <= '9' then Some(c as int - '0' as int)
    else if 'A' <= c <= 'F' then Some(c as int - 'A' as int + 10)
    else if 'a' <= c <= 'f' then Some(c as int - 'a' as int + 10)
    else None
  }

  function QuoteByte(b: Byte): string {
    if IsSafe(b) then [b as char] else ['%', HexDigit(b / 16), HexDigit(b % 16)]
  }

  function QuoteBytes(bs: seq<Byte>): string {
    if |bs| == 0 then [] else QuoteByte(bs[0]) + QuoteBytes(bs[1..])
  }

  /** `urllib.parse.quote(s)`. */
  function Quote(s: string): string {
    QuoteBytes(Utf8Encode(s))
  }

  function PercentDecode(q: string): Option<seq<Byte>>
    decreases |q|
  {
    if |q| == 0 then Some([])
    else if q[0] == '%' then
      if |q| < 3 then None
      else match (HexValue(q[1]), HexValue(q[2]), PercentDecode(q[3..]))
        case (Some(hi), Some(lo), Some(rest)) => Some([hi * 16 + lo] + rest)
        case _ => None
    else if q[0] as int < 0x80 then
      match PercentDecode(q[1..])
      case Some(rest) => Some([q[0] as int] + rest)
      case None => None
    else None
  }

  /** The inverse of `Quote`: percent-decoding followed by UTF-8 decoding. */
  function Unquote(q: string): Option<string> {
    match PercentDecode(q)
    case None => None
    case Some(bs) => Utf8Decode(bs)
  }

  lemma HexRoundTrip(d: int)
    requires 0 <= d < 16
    ensures HexValue(HexDigit(d)) == Some(d)
  {
  }

  /** Decoding the quoting of one byte in front of a decodable text. */
  lemma PercentDecodeByte(b: Byte, q: string, rest: seq<Byte>)
    requires PercentDecode(q) == Some(rest)
    ensures PercentDecode(QuoteByte(b) + q) == Some([b] + rest)
  {
    var t := QuoteByte(b) + q;
    if IsSafe(b) {
      assert t[0] == b as char && t[1..] == q;
    } else {
      HexRoundTrip(b / 16);
      HexRoundTrip(b % 16);
      assert t[0] == '%' && t[1] == HexDigit(b / 16) && t[2] == HexDigit(b % 16);
      assert t[3..] == q;
    }
  }

  lemma {:induction false} PercentRoundTrip(bs: seq<Byte>)
    ensures PercentDecode(QuoteBytes(bs)) == Some(bs)
  {
    if |bs| > 0 {
      PercentRoundTrip(bs[1..]);
      PercentDecodeByte(bs[0], QuoteBytes(bs[1..]), bs[1..]);
      assert [bs[0]] + bs[1..] == bs;
    }
  }

  lemma {:induction false} QuoteBytesAppend(a: seq<Byte>, b: seq<Byte>)
    ensures QuoteBytes(a + b) == QuoteBytes(a) + QuoteBytes(b)
  {
    if |a| == 0 {
      assert a + b == b;
    } else {
      assert (a + b)[0] == a[0];
      assert (a + b)[1..] == a[1..] + b;
      QuoteBytesAppend(a[1..], b);
    }
  }

  /** `Unquote` recovers what was quoted. */
  lemma UnquoteQuote(s: string)
    ensures Unquote(Quote(s)) == Some(s)
  {
    PercentRoundTrip(Utf8Encode(s));
    Utf8RoundTrip(s);
  }

  /** Distinct labels quote to distinct texts. */
  lemma QuoteInjective(s: string, t: string)
    ensures Quote(s) == Quote(t) <==> s == t
  {
    UnquoteQuote(s);
    UnquoteQuote(t);
  }

  /** Quoting commutes with concatenation. */
  lemma QuoteAppend(a: string, b: string)
    ensures Quote(a + b) == Quote(a) + Quote(b)
  {
    Utf8EncodeAppend(a, b);
    QuoteBytesAppend(Utf8Encode(a), Utf8Encode(b));
  }

  predicate IsSafeChar(c: char) {
    c as int < 0x80 && IsSafe(c as int)
  }

  /** Text made only of safe ASCII characters is left unchanged. */
  lemma {:induction false} QuoteSafeText(s: string)
    requires forall k :: 0 <= k < |s| ==> IsSafeChar(s[k])
    ensures Quote(s) == s
  {
    if |s| > 0 {
      QuoteSafeText(s[1..]);
      assert Utf8Char(s[0]) == [s[0] as int];
      assert QuoteByte(s[0] as int) == [s[0]];
      assert Utf8Encode(s) == [s[0] as int] + Utf8Encode(s[1..]);
      assert [s[0]] + s[1..] == s;
    }
  }
}

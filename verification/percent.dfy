/** Percent-encoding of text as UTF-8 bytes, shared by the file URLs of
    the linkifier and the mailto arguments of the mail drafts. */
module Percent {
  import opened Wrappers

  newtype byte = x: int | 0 <= x < 256

  /** The UTF-8 encoding of one code point. Every byte of a multi-byte
      sequence has its top bit set, so it never reads as ASCII. */
  function EncodeChar(c: char): (bs: seq<byte>)
    ensures 1 <= |bs| <= 4
    ensures |bs| == 1 <==> c as int < 0x80
    ensures |bs| == 1 ==> bs[0] as int == c as int
    ensures |bs| > 1 ==> forall k :: 0 <= k < |bs| ==> bs[k] >= 0x80
  {
    var n := c as int;
    if n < 0x80 then [n as byte]
    else if n < 0x800 then [(0xC0 + n / 64) as byte, (0x80 + n % 64) as byte]
    else if n < 0x10000 then [(0xE0 + n / 4096) as byte, (0x80 + (n / 64) % 64) as byte, (0x80 + n % 64) as byte]
    else [(0xF0 + n / 262144) as byte, (0x80 + (n / 4096) % 64) as byte, (0x80 + (n / 64) % 64) as byte,
          (0x80 + n % 64) as byte]
  }

  function Utf8(s: string): (bs: seq<byte>)
    ensures |bs| >= |s|
  {
    if s == [] then [] else EncodeChar(s[0]) + Utf8(s[1..])
  }

  lemma {:induction false} Utf8Append(a: string, b: string)
    ensures Utf8(a + b) == Utf8(a) + Utf8(b)
  {
    if a != [] {
      assert (a + b)[0] == a[0] && (a + b)[1..] == a[1..] + b;
      Utf8Append(a[1..], b);
      calc {
        Utf8(a + b);
        EncodeChar(a[0]) + Utf8(a[1..] + b);
        EncodeChar(a[0]) + (Utf8(a[1..]) + Utf8(b));
        (EncodeChar(a[0]) + Utf8(a[1..])) + Utf8(b);
      }
    } else {
      assert a + b == b;
    }
  }

  /** The bytes every encoder here leaves alone: ASCII letters, digits
      and `_.-~`. */
  predicate Unreserved(b: byte) {
    || 'A' as byte <= b <= 'Z' as byte
    || 'a' as byte <= b <= 'z' as byte
    || '0' as byte <= b <= '9' as byte
    || b == '_' as byte || b == '.' as byte || b == '-' as byte || b == '~' as byte
  }

  /** A byte that stays as it is: unreserved, or an ASCII character the
      caller lists as safe. */
  predicate SafeByte(b: byte, keep: set<char>) {
    Unreserved(b) || (b < 0x80 && (b as int as char) in keep)
  }

  /** Extra safe characters must be ASCII and must not be '%' for the
      encoding to be decodable. */
  predicate ValidKeep(keep: set<char>) {
    forall c :: c in keep ==> c as int < 0x80 && c != '%'
  }

  const HexDigits := "0123456789ABCDEF"

  /** The characters a quoted string is made of. */
  predicate UrlChar(c: char, keep: set<char>) {
    (c as int < 256 && SafeByte(c as int as byte, keep)) || c == '%' || c in HexDigits
  }

  /** One byte as it appears in the URL: itself when safe, `%XX` (upper
      case hex) otherwise. */
  function QuoteByte(b: byte, keep: set<char>): (s: string)
    ensures SafeByte(b, keep) ==> s == [b as int as char]
    ensures !SafeByte(b, keep) ==> |s| == 3 && s[0] == '%' && s[1] in HexDigits && s[2] in HexDigits
    ensures forall k :: 0 <= k < |s| ==> UrlChar(s[k], keep)
  {
    if SafeByte(b, keep) then [b as int as char]
    else ['%', HexDigits[b as int / 16], HexDigits[b as int % 16]]
  }

  function QuoteBytes(bs: seq<byte>, keep: set<char>): (s: string)
    ensures forall k :: 0 <= k < |s| ==> UrlChar(s[k], keep)
    ensures |s| >= |bs|
  {
    if bs == [] then "" else QuoteByte(bs[0], keep) + QuoteBytes(bs[1..], keep)
  }

  lemma {:induction false} QuoteBytesAppend(a: seq<byte>, b: seq<byte>, keep: set<char>)
    ensures QuoteBytes(a + b, keep) == QuoteBytes(a, keep) + QuoteBytes(b, keep)
  {
    if a != [] {
      assert (a + b)[0] == a[0] && (a + b)[1..] == a[1..] + b;
      QuoteBytesAppend(a[1..], b, keep);
      calc {
        QuoteBytes(a + b, keep);
        QuoteByte(a[0], keep) + QuoteBytes(a[1..] + b, keep);
        QuoteByte(a[0], keep) + (QuoteBytes(a[1..], keep) + QuoteBytes(b, keep));
        (QuoteByte(a[0], keep) + QuoteBytes(a[1..], keep)) + QuoteBytes(b, keep);
      }
    } else {
      assert a + b == b;
    }
  }

  /** Percent-encoding of the UTF-8 bytes of `s`, keeping the safe bytes:
      Python's `quote(s, safe=keep)` and, with nothing extra kept, Rust's
      `urlencoding::encode(s)`. */
  function Encode(s: string, keep: set<char>): (q: string)
    ensures forall k :: 0 <= k < |q| ==> UrlChar(q[k], keep)
  {
    QuoteBytes(Utf8(s), keep)
  }

  lemma EncodeAppend(a: string, b: string, keep: set<char>)
    ensures Encode(a + b, keep) == Encode(a, keep) + Encode(b, keep)
  {
    Utf8Append(a, b);
    QuoteBytesAppend(Utf8(a), Utf8(b), keep);
  }

  /** A string made only of characters that are their own safe byte comes
      through unchanged. */
  lemma {:induction false} EncodeSafe(s: string, keep: set<char>)
    requires forall k :: 0 <= k < |s| ==> s[k] as int < 0x80 && SafeByte(s[k] as int as byte, keep)
    ensures Encode(s, keep) == s
  {
    if s != [] {
      EncodeSafe(s[1..], keep);
      QuoteBytesAppend(EncodeChar(s[0]), Utf8(s[1..]), keep);
      assert s == [s[0]] + s[1..];
    }
  }

  // -------------------------------------------------------------------
  // decoding, the reference the encoder is checked against
  // -------------------------------------------------------------------

  function HexValue(c: char): (v: nat)
    requires c in HexDigits
    ensures v < 16 && HexDigits[v] == c
  {
    if '0' <= c <= '9' then c as int - '0' as int else c as int - 'A' as int + 10
  }

  /** Strict percent-decoding to bytes: `%XX` gives one byte, any other
      ASCII character gives itself, anything else fails. */
  function PercentDecode(s: string): (r: Option<seq<byte>>)
    decreases |s|
  {
    if s == [] then Some([])
    else if s[0] == '%' then
      if |s| >= 3 && s[1] in HexDigits && s[2] in HexDigits then
        match PercentDecode(s[3..])
        case Some(rest) => Some([(HexValue(s[1]) * 16 + HexValue(s[2])) as byte] + rest)
        case None => None
      else None
    else if s[0] as int < 0x80 then
      match PercentDecode(s[1..])
      case Some(rest) => Some([s[0] as int as byte] + rest)
      case None => None
    else None
  }

  lemma HexDigitsDistinct(i: nat, j: nat)
    requires i < 16 && j < 16 && HexDigits[i] == HexDigits[j]
    ensures i == j
  {
  }

  lemma DecodeQuoteByte(b: byte, keep: set<char>, rest: string)
    requires ValidKeep(keep)
    ensures PercentDecode(QuoteByte(b, keep) + rest)
            == (match PercentDecode(rest) case Some(r) => Some([b] + r) case None => None)
  {
    var s := QuoteByte(b, keep) + rest;
    if SafeByte(b, keep) {
      assert s[1..] == rest;
    } else {
      assert s[3..] == rest;
      var hi, lo := b as int / 16, b as int % 16;
      assert s[1] == HexDigits[hi] && s[2] == HexDigits[lo];
      HexDigitsDistinct(HexValue(s[1]), hi);
      HexDigitsDistinct(HexValue(s[2]), lo);
    }
  }

  /** Percent-decoding undoes the quoting of any byte string. */
  lemma {:induction false} DecodeQuoteBytes(bs: seq<byte>, keep: set<char>)
    requires ValidKeep(keep)
    ensures PercentDecode(QuoteBytes(bs, keep)) == Some(bs)
  {
    if bs != [] {
      DecodeQuoteBytes(bs[1..], keep);
      DecodeQuoteByte(bs[0], keep, QuoteBytes(bs[1..], keep));
      assert bs == [bs[0]] + bs[1..];
    }
  }

  /** Decoding an encoded string gives back its UTF-8 bytes. */
  lemma DecodeEncode(s: string, keep: set<char>)
    requires ValidKeep(keep)
    ensures PercentDecode(Encode(s, keep)) == Some(Utf8(s))
  {
    DecodeQuoteBytes(Utf8(s), keep);
  }
}

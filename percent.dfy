/**
 * Python's `urllib.parse.quote(s)` with its default `safe='/'`: the text
 * is encoded as UTF-8 and every byte outside the unreserved set of
 * section 2.3 of RFC 3986 (letters, digits, `_.-~`) and `/` becomes a
 * `%XX` triple with upper-case hexadecimal digits (section 2.1 of
 * RFC 3986). `Unquote` is the matching decoder.
 */
module Percent {
  import opened Wrappers

  type byte = x: int | 0 <= x < 256

  /** The characters `quote` leaves as they are. */
  predicate SafeChar(c: char) {
    ('A' <= c <= 'Z') || ('a' <= c <= 'z') || ('0' <= c <= '9')
    || c == '_' || c == '.' || c == '-' || c == '~' || c == '/'
  }

  /** The bytes `quote` leaves as they are: those of the safe ASCII characters. */
  predicate SafeByte(b: int) {
    0 <= b < 0x80 && SafeChar(b as char)
  }

  /** The UTF-8 encoding of one Unicode scalar value. */
  function Utf8(c: char): (r: seq<byte>)
    ensures 1 <= |r| <= 4
    ensures (c as int) < 0x80 ==> r == [c as int]
    ensures (c as int) >= 0x80 ==> forall i :: 0 <= i < |r| ==> r[i] >= 0x80
  {
    var v := c as int;
    if v < 0x80 then [v]
    else if v < 0x800 then [0xC0 + v / 0x40, 0x80 + v % 0x40]
    else if v < 0x1_0000 then [0xE0 + v / 0x1000, 0x80 + (v / 0x40) % 0x40, 0x80 + v % 0x40]
    else [0xF0 + v / 0x4_0000, 0x80 + (v / 0x1000) % 0x40, 0x80 + (v / 0x40) % 0x40, 0x80 + v % 0x40]
  }

  /** `s.encode("utf-8")`. */
  function Utf8Encode(s: string): seq<byte>
    decreases |s|
  {
    if s == [] then [] else Utf8(s[0]) + Utf8Encode(s[1..])
  }

  function HexDigit(d: int): (c: char)
    requires 0 <= d < 16
    ensures IsHex(c) && HexValue(c) == d
  {
    "0123456789ABCDEF"[d]
  }

  predicate IsHex(c: char) {
    ('0' <= c <= '9') || ('A' <= c <= 'F') || ('a' <= c <= 'f')
  }

  function HexValue(c: char): (d: int)
    requires IsHex(c)
    ensures 0 <= d < 16
  {
    if '0' <= c <= '9' then (c as int) - ('0' as int)
    else if 'A' <= c <= 'F' then (c as int) - ('A' as int) + 10
    else (c as int) - ('a' as int) + 10
  }

  /** One byte as `quote` writes it. */
  function EncodeByte(b: byte): string {
    if SafeByte(b) then [b as char] else ['%', HexDigit(b / 16), HexDigit(b % 16)]
  }

  function QuoteBytes(bs: seq<byte>): string
    decreases |bs|
  {
    if bs == [] then "" else EncodeByte(bs[0]) + QuoteBytes(bs[1..])
  }

  /** One character as `quote` writes it: itself if safe, else its UTF-8 bytes as `%XX`. */
  function QuoteChar(c: char): string {
    if SafeChar(c) then [c] else QuoteBytes(Utf8(c))
  }

  /**
   * `urllib.parse.quote(s)`, character by character; `QuoteIsBytewise`
   * proves it equal to encoding `s` as UTF-8 and quoting each byte, which
   * is how Python computes it.
   */
  function Quote(s: string): (r: string)
    ensures |r| >= |s|
    decreases |s|
  {
    if s == [] then "" else QuoteChar(s[0]) + Quote(s[1..])
  }

  /** Percent-decoding to bytes; fails on a character `quote` never emits. */
  function Unquote(s: string): Option<seq<byte>>
    decreases |s|
  {
    if s == [] then Some([])
    else if s[0] == '%' then
      if |s| >= 3 && IsHex(s[1]) && IsHex(s[2]) then
        match Unquote(s[3..])
        case None => None
        case Some(rest) => Some([HexValue(s[1]) * 16 + HexValue(s[2])] + rest)
      else None
    else if SafeChar(s[0]) then
      match Unquote(s[1..])
      case None => None
      case Some(rest) => Some([s[0] as int] + rest)
    else None
  }

  lemma {:induction false} QuoteBytesAppend(a: seq<byte>, b: seq<byte>)
    ensures QuoteBytes(a + b) == QuoteBytes(a) + QuoteBytes(b)
    decreases |a|
  {
    if a == [] {
      assert a + b == b;
    } else {
      assert (a + b)[0] == a[0] && (a + b)[1..] == a[1..] + b;
      QuoteBytesAppend(a[1..], b);
    }
  }

  /** Quoting character by character is quoting the UTF-8 bytes one by one. */
  lemma {:induction false} QuoteIsBytewise(s: string)
    ensures Quote(s) == QuoteBytes(Utf8Encode(s))
    decreases |s|
  {
    if s != [] {
      QuoteIsBytewise(s[1..]);
      QuoteBytesAppend(Utf8(s[0]), Utf8Encode(s[1..]));
      var c := s[0];
      if SafeChar(c) {
        assert (c as int) < 0x80;
        assert Utf8(c) == [c as int];
        assert QuoteBytes([c as int]) == EncodeByte(c as int) + QuoteBytes([]);
      }
    }
  }

  /** Quoting distributes over concatenation. */
  lemma {:induction false} QuoteAppend(a: string, b: string)
    ensures Quote(a + b) == Quote(a) + Quote(b)
    decreases |a|
  {
    if a == [] {
      assert a + b == b;
    } else {
      assert (a + b)[0] == a[0] && (a + b)[1..] == a[1..] + b;
      QuoteAppend(a[1..], b);
    }
  }

  /** A string of unreserved ASCII characters is left unchanged. */
  lemma {:induction false} QuoteOfSafe(s: string)
    requires forall i :: 0 <= i < |s| ==> SafeChar(s[i])
    ensures Quote(s) == s
    decreases |s|
  {
    if s != [] {
      QuoteOfSafe(s[1..]);
      assert s == [s[0]] + s[1..];
    }
  }

  /** A space becomes `%20`. */
  lemma QuoteSpace()
    ensures Quote(" ") == "%20"
  {
    assert Quote(" ") == QuoteChar(' ');
    assert Utf8(' ') == [32];
    assert QuoteBytes([32]) == EncodeByte(32) + QuoteBytes([]);
  }

  /** The pipe separator becomes `%7C`. */
  lemma QuotePipe()
    ensures Quote("|") == "%7C"
  {
    assert Quote("|") == QuoteChar('|');
    assert Utf8('|') == [124];
    assert QuoteBytes([124]) == EncodeByte(124) + QuoteBytes([]);
  }

  /** Decoding what `quote` produced gives back the bytes it encoded. */
  lemma {:induction false} UnquoteQuoteBytes(bs: seq<byte>)
    ensures Unquote(QuoteBytes(bs)) == Some(bs)
    decreases |bs|
  {
    if bs != [] {
      var b := bs[0];
      var rest := QuoteBytes(bs[1..]);
      UnquoteQuoteBytes(bs[1..]);
      var s := EncodeByte(b) + rest;
      assert QuoteBytes(bs) == s;
      assert bs == [b] + bs[1..];
      if SafeByte(b) {
        assert s[0] == b as char && s[1..] == rest;
        assert (s[0] as int) == b && s[0] != '%' && SafeChar(s[0]);
        assert Unquote(s) == Some([b] + bs[1..]);
      } else {
        assert s[0] == '%' && s[3..] == rest;
        assert HexValue(s[1]) * 16 + HexValue(s[2]) == b;
      }
    }
  }

  /** Percent-decoding `quote(s)` returns the UTF-8 bytes of `s`. */
  lemma UnquoteQuote(s: string)
    ensures Unquote(Quote(s)) == Some(Utf8Encode(s))
  {
    QuoteIsBytewise(s);
    UnquoteQuoteBytes(Utf8Encode(s));
  }

  /**
   * The output of `quote` is made of unreserved characters and `%XX`
   * triples only: every character is unreserved or `%`, and every `%`
   * is followed by two upper-case hexadecimal digits.
   */
  predicate PercentEncoded(s: string) {
    (forall i :: 0 <= i < |s| ==> SafeChar(s[i]) || s[i] == '%')
    && (forall i :: 0 <= i < |s| && s[i] == '%' ==>
          i + 2 < |s| && IsHex(s[i + 1]) && IsHex(s[i + 2]))
  }

  lemma EncodeByteEncoded(b: byte)
    ensures PercentEncoded(EncodeByte(b))
  {
  }

  lemma PercentEncodedAppend(a: string, b: string)
    requires PercentEncoded(a) && PercentEncoded(b)
    ensures PercentEncoded(a + b)
  {
    var s := a + b;
    forall i | 0 <= i < |s|
      ensures SafeChar(s[i]) || s[i] == '%'
      ensures s[i] == '%' ==> i + 2 < |s| && IsHex(s[i + 1]) && IsHex(s[i + 2])
    {
      if i < |a| {
        assert s[i] == a[i];
        if a[i] == '%' {
          assert s[i + 1] == a[i + 1] && s[i + 2] == a[i + 2];
        }
      } else {
        assert s[i] == b[i - |a|];
        if b[i - |a|] == '%' {
          assert s[i + 1] == b[i - |a| + 1] && s[i + 2] == b[i - |a| + 2];
        }
      }
    }
  }

  lemma {:induction false} QuoteBytesEncoded(bs: seq<byte>)
    ensures PercentEncoded(QuoteBytes(bs))
    decreases |bs|
  {
    if bs != [] {
      QuoteBytesEncoded(bs[1..]);
      EncodeByteEncoded(bs[0]);
      PercentEncodedAppend(EncodeByte(bs[0]), QuoteBytes(bs[1..]));
    }
  }

  lemma QuoteEncoded(s: string)
    ensures PercentEncoded(Quote(s))
  {
    QuoteIsBytewise(s);
    QuoteBytesEncoded(Utf8Encode(s));
  }
}

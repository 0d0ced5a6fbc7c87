/**
  urllib.parse.quote with its default arguments, as main.py uses it: the
  text is encoded as UTF-8 (RFC 3629) and every byte outside the unreserved
  set of RFC 3986 section 2.3 and the safe character '/' is written as '%'
  followed by two upper-case hexadecimal digits (RFC 3986 section 2.1).

  Each decoder undoes its encoder.
 */
module PercentEncoding {
  import opened Basics

  // ----- UTF-8 -----

  /** The UTF-8 encoding of one Unicode scalar value. */
  function EncodeScalar(c: char): (bs: seq<byte>)
    ensures 1 <= |bs| <= 4
    ensures (c as int < 0x80) <==> |bs| == 1
    ensures |bs| == (if c as int < 0x80 then 1 else if c as int < 0x800 then 2 else if c as int < 0x10000 then 3 else 4)
    ensures forall i :: 1 <= i < |bs| ==> 0x80 <= bs[i] < 0xC0
  {
    var n := c as int;
    if n < 0x80 then [n]
    else if n < 0x800 then [0xC0 + n / 64, 0x80 + n % 64]
    else if n < 0x10000 then [0xE0 + n / 4096, 0x80 + (n / 64) % 64, 0x80 + n % 64]
    else [0xF0 + n / 262144, 0x80 + (n / 4096) % 64, 0x80 + (n / 64) % 64, 0x80 + n % 64]
  }

  function Utf8(s: string): seq<byte>
  {
    if |s| == 0 then [] else EncodeScalar(s[0]) + Utf8(s[1..])
  }

  /** The code points of a string. */
  function CodePoints(s: string): (cs: seq<int>)
    ensures |cs| == |s|
  {
    if |s| == 0 then [] else [s[0] as int] + CodePoints(s[1..])
  }

  /** How many bytes the sequence introduced by a lead byte has. */
  function SequenceLength(lead: byte): nat
  {
    if lead < 0x80 then 1 else if lead < 0xE0 then 2 else if lead < 0xF0 then 3 else 4
  }

  /** The code point of one encoded sequence of one to four bytes. */
  function ScalarValue(bs: seq<byte>): int
    requires 1 <= |bs| <= 4
  {
    var b: seq<int> := bs;
    if |b| == 1 then b[0]
    else if |b| == 2 then (b[0] - 0xC0) * 64 + (b[1] - 0x80)
    else if |b| == 3 then (b[0] - 0xE0) * 4096 + (b[1] - 0x80) * 64 + (b[2] - 0x80)
    else (b[0] - 0xF0) * 262144 + (b[1] - 0x80) * 4096 + (b[2] - 0x80) * 64 + (b[3] - 0x80)
  }

  /** Decodes UTF-8; None when a sequence is cut short. */
  function DecodeUtf8(bs: seq<byte>): Option<seq<int>>
    decreases |bs|
  {
    if |bs| == 0 then Some([])
    else
      var n := SequenceLength(bs[0]);
      if n > |bs| then None
      else match DecodeUtf8(bs[n..])
        case None => None
        case Some(rest) => Some([ScalarValue(bs[..n])] + rest)
  }

  /** One scalar value: its lead byte announces its length and the bytes give it back. */
  lemma EncodeScalarDecodes(c: char)
    ensures var bs := EncodeScalar(c);
      SequenceLength(bs[0]) == |bs| && ScalarValue(bs) == c as int
  {
    var n := c as int;
    if 0x80 <= n < 0x800 {
      DigitsBase64(n, 2);
    } else if 0x800 <= n < 0x10000 {
      DigitsBase64(n, 3);
    } else if 0x10000 <= n {
      DigitsBase64(n, 4);
    }
  }

  /** The base-64 digits the two-, three- and four-byte forms carry put n back together. */
  lemma DigitsBase64(n: nat, k: nat)
    requires 2 <= k <= 4
    ensures k == 2 ==> (n / 64) * 64 + n % 64 == n
    ensures k == 3 ==> (n / 4096) * 4096 + ((n / 64) % 64) * 64 + n % 64 == n
    ensures k == 4 ==> (n / 262144) * 262144 + ((n / 4096) % 64) * 4096 + ((n / 64) % 64) * 64 + n % 64 == n
  {
    var m := n / 64;
    assert n == m * 64 + n % 64;
    if k >= 3 {
      var p := m / 64;
      assert m == p * 64 + m % 64;
      assert p == n / 4096;
      if k == 4 {
        assert p == (p / 64) * 64 + p % 64;
        assert p / 64 == n / 262144;
      }
    }
  }

  /** Decoding the UTF-8 of a string gives back its code points. */
  lemma {:induction false} Utf8RoundTrip(s: string)
    ensures DecodeUtf8(Utf8(s)) == Some(CodePoints(s))
  {
    if |s| > 0 {
      var head, tail := EncodeScalar(s[0]), Utf8(s[1..]);
      EncodeScalarDecodes(s[0]);
      Utf8RoundTrip(s[1..]);
      var bs := head + tail;
      assert bs[0] == head[0];
      assert bs[..|head|] == head;
      assert bs[|head|..] == tail;
    }
  }

  lemma {:induction false} Utf8Append(a: string, b: string)
    ensures Utf8(a + b) == Utf8(a) + Utf8(b)
  {
    if |a| > 0 {
      assert (a + b)[1..] == a[1..] + b;
      Utf8Append(a[1..], b);
    } else {
      assert a + b == b;
    }
  }

  // ----- percent-encoding -----

  /** The unreserved characters of RFC 3986 section 2.3. */
  predicate Unreserved(c: char)
  {
    ('A' <= c <= 'Z') || ('a' <= c <= 'z') || ('0' <= c <= '9') || c == '-' || c == '.' || c == '_' || c == '~'
  }

  /** Characters quote writes as themselves: the unreserved ones and '/'. */
  predicate Safe(c: char)
  {
    Unreserved(c) || c == '/'
  }

  const HEX_DIGITS: string := "0123456789ABCDEF"

  function EncodeByte(b: byte): (t: string)
    ensures Safe(b as char) ==> t == [b as char]
    ensures !Safe(b as char) ==> |t| == 3 && t[0] == '%'
  {
    if Safe(b as char) then [b as char] else ['%', HEX_DIGITS[b / 16], HEX_DIGITS[b % 16]]
  }

  function PercentEncode(bs: seq<byte>): string
  {
    if |bs| == 0 then "" else EncodeByte(bs[0]) + PercentEncode(bs[1..])
  }

  /** urllib.parse.quote(s). */
  function Quote(s: string): string
  {
    PercentEncode(Utf8(s))
  }

  /** The value of an upper-case hexadecimal digit. */
  function HexValue(c: char): Option<nat>
  {
    if '0' <= c <= '9' then Some(c as int - '0' as int)
    else if 'A' <= c <= 'F' then Some(c as int - 'A' as int + 10)
    else None
  }

  /** Undoes percent-encoding; None on a malformed escape or a character that is not a byte. */
  function PercentDecode(t: string): Option<seq<byte>>
    decreases |t|
  {
    if |t| == 0 then Some([])
    else if t[0] == '%' then
      if |t| < 3 then None
      else match (HexValue(t[1]), HexValue(t[2]), PercentDecode(t[3..]))
        case (Some(hi), Some(lo), Some(rest)) => if hi < 16 && lo < 16 then Some([hi * 16 + lo] + rest) else None
        case _ => None
    else if (t[0] as int) < 256 then
      match PercentDecode(t[1..])
      case None => None
      case Some(rest) => Some([t[0] as int] + rest)
    else None
  }

  lemma HexDigitValue(d: nat)
    requires d < 16
    ensures HexValue(HEX_DIGITS[d]) == Some(d)
  {
  }

  /** Decoding one encoded byte in front of decodable text. */
  lemma DecodeEncodedByte(b: byte, tail: string, rest: seq<byte>)
    requires PercentDecode(tail) == Some(rest)
    ensures PercentDecode(EncodeByte(b) + tail) == Some([b] + rest)
  {
    var t := EncodeByte(b) + tail;
    if Safe(b as char) {
      assert t[0] == b as char && t[1..] == tail;
    } else {
      HexDigitValue(b / 16);
      HexDigitValue(b % 16);
      assert t[0] == '%' && t[1] == HEX_DIGITS[b / 16] && t[2] == HEX_DIGITS[b % 16];
      assert t[3..] == tail;
      assert (b / 16) * 16 + b % 16 == b;
    }
  }

  /** Decoding the percent-encoding of bytes gives them back. */
  lemma {:induction false} PercentRoundTrip(bs: seq<byte>)
    ensures PercentDecode(PercentEncode(bs)) == Some(bs)
  {
    if |bs| > 0 {
      PercentRoundTrip(bs[1..]);
      DecodeEncodedByte(bs[0], PercentEncode(bs[1..]), bs[1..]);
      assert bs == [bs[0]] + bs[1..];
    }
  }

  /** quote is undone by percent-decoding followed by UTF-8 decoding. */
  lemma QuoteRoundTrip(s: string)
    ensures PercentDecode(Quote(s)) == Some(Utf8(s))
    ensures DecodeUtf8(PercentDecode(Quote(s)).value) == Some(CodePoints(s))
  {
    PercentRoundTrip(Utf8(s));
    Utf8RoundTrip(s);
  }

  /** Every character of the encoding is safe or '%'. */
  lemma {:induction false} PercentEncodeAlphabet(bs: seq<byte>)
    ensures forall i :: 0 <= i < |PercentEncode(bs)| ==> Safe(PercentEncode(bs)[i]) || PercentEncode(bs)[i] == '%'
  {
    if |bs| > 0 {
      PercentEncodeAlphabet(bs[1..]);
      var head, tail := EncodeByte(bs[0]), PercentEncode(bs[1..]);
      assert PercentEncode(bs) == head + tail;
      forall i | 0 <= i < |head + tail|
        ensures Safe((head + tail)[i]) || (head + tail)[i] == '%'
      {
        if i >= |head| {
          assert (head + tail)[i] == tail[i - |head|];
        }
      }
    }
  }

  lemma {:induction false} PercentEncodeAppend(a: seq<byte>, b: seq<byte>)
    ensures PercentEncode(a + b) == PercentEncode(a) + PercentEncode(b)
  {
    if |a| > 0 {
      assert (a + b)[1..] == a[1..] + b;
      PercentEncodeAppend(a[1..], b);
    } else {
      assert a + b == b;
    }
  }

  /** quote distributes over concatenation. */
  lemma QuoteAppend(a: string, b: string)
    ensures Quote(a + b) == Quote(a) + Quote(b)
  {
    Utf8Append(a, b);
    PercentEncodeAppend(Utf8(a), Utf8(b));
  }

  /** The escape quote writes for a byte outside the safe set. */
  function Escape(b: byte): string
  {
    ['%', HEX_DIGITS[b / 16], HEX_DIGITS[b % 16]]
  }

  /** A character from U+0800 to U+FFFF is quoted as the escapes of its three UTF-8 bytes. */
  lemma QuoteThreeByteScalar(s: string)
    requires |s| == 1 && 0x800 <= s[0] as int < 0x10000
    ensures var n := s[0] as int;
      Quote(s) == Escape(0xE0 + n / 4096) + Escape(0x80 + (n / 64) % 64) + Escape(0x80 + n % 64)
  {
    var c := s[0];
    assert s == [c];
    var bs := EncodeScalar(c);
    assert [c][1..] == [];
    assert Utf8([c]) == bs;
    assert |bs| == 3 && bs[0] >= 0x80 && bs[1] >= 0x80 && bs[2] >= 0x80;
    assert !Safe(bs[0] as char) && !Safe(bs[1] as char) && !Safe(bs[2] as char);
    assert bs[1..][1..] == [bs[2]] && bs[1..][1..][1..] == [];
    calc {
      PercentEncode(bs);
      EncodeByte(bs[0]) + PercentEncode(bs[1..]);
      EncodeByte(bs[0]) + (EncodeByte(bs[1]) + PercentEncode([bs[2]]));
      EncodeByte(bs[0]) + (EncodeByte(bs[1]) + (EncodeByte(bs[2]) + PercentEncode([])));
      Escape(bs[0]) + Escape(bs[1]) + Escape(bs[2]);
    }
  }

  /** A string of safe characters is left as it is. */
  lemma {:induction false} QuoteKeepsSafeText(s: string)
    requires forall i :: 0 <= i < |s| ==> Safe(s[i])
    ensures Quote(s) == s
  {
    if |s| > 0 {
      QuoteKeepsSafeText(s[1..]);
      assert s[0] as int < 0x80;
      assert Utf8(s) == [s[0] as int] + Utf8(s[1..]);
      assert Quote(s) == [s[0]] + Quote(s[1..]);
    }
  }
}

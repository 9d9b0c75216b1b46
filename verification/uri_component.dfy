/**
 * `decodeURIComponent` (ECMAScript's Decode with an empty reserved set): each
 * `%XX` escape gives an octet, and the octets of each escape run must form one
 * well-formed UTF-8 sequence (RFC 3629), else the call throws a URIError, here
 * `None`. Characters other than '%' are copied.
 *
 * Beside it, the encoder a server uses for the `filename*` value of RFC 5987
 * section 3.2: attr-chars stay, every other character becomes the
 * percent-escaped octets of its UTF-8 form. Decoding undoes it.
 *
 * Strings are sequences of Unicode scalar values, so a decoded four-octet
 * sequence is one character here where JavaScript holds a surrogate pair.
 */
module UriComponent {
  import opened Wrappers

  predicate IsHexDigit(c: char) {
    '0' <= c <= '9' || 'a' <= c <= 'f' || 'A' <= c <= 'F'
  }

  function HexValue(c: char): (v: nat)
    requires IsHexDigit(c)
    ensures v < 16
  {
    if '0' <= c <= '9' then c as int - '0' as int
    else if 'a' <= c <= 'f' then c as int - 'a' as int + 10
    else c as int - 'A' as int + 10
  }

  /** A `%` followed by two hexadecimal digits at position `i`. */
  predicate IsEscapeAt(s: string, i: nat) {
    i + 3 <= |s| && s[i] == '%' && IsHexDigit(s[i + 1]) && IsHexDigit(s[i + 2])
  }

  /** The octet of the escape that starts `s`, if `s` starts with one. */
  function EscapedOctet(s: string): (r: Option<int>)
    ensures r.Some? <==> IsEscapeAt(s, 0)
    ensures r.Some? ==> 0 <= r.value < 256
  {
    if IsEscapeAt(s, 0) then Some(16 * HexValue(s[1]) + HexValue(s[2])) else None
  }

  /** The octets of `n` escapes in a row at the start of `s`. */
  function EscapedOctets(s: string, n: nat): (r: Option<seq<int>>)
    ensures r.Some? ==> |r.value| == n && 3 * n <= |s|
    ensures r.Some? ==> forall j :: 0 <= j < n ==> 0 <= r.value[j] < 256
    decreases n
  {
    if n == 0 then Some([])
    else
      match EscapedOctet(s)
      case None => None
      case Some(b) =>
        match EscapedOctets(s[3..], n - 1)
        case None => None
        case Some(bs) => Some([b] + bs)
  }

  /**
   * The length of the UTF-8 sequence a leading octet announces (RFC 3629
   * section 3), or 0 for an octet that cannot lead one (10xxxxxx, or five
   * or more leading one bits).
   */
  function SequenceLength(b: int): nat {
    if b < 0x80 then 1
    else if b < 0xC0 then 0
    else if b < 0xE0 then 2
    else if b < 0xF0 then 3
    else if b < 0xF8 then 4
    else 0
  }

  predicate IsContinuation(b: int) {
    0x80 <= b < 0xC0
  }

  /**
   * The scalar value a UTF-8 sequence encodes, or None when a continuation
   * octet is wrong, the form is overlong, or the value is a surrogate or
   * above U+10FFFF.
   */
  function ScalarFromUtf8(bs: seq<int>): (r: Option<char>)
    requires 1 <= |bs| <= 4 && SequenceLength(bs[0]) == |bs|
    requires forall j :: 0 <= j < |bs| ==> 0 <= bs[j] < 256
  {
    if |bs| == 1 then Some(bs[0] as char)
    else if exists j :: 1 <= j < |bs| && !IsContinuation(bs[j]) then None
    else
      var cp :=
        if |bs| == 2 then (bs[0] - 0xC0) * 64 + (bs[1] - 0x80)
        else if |bs| == 3 then ((bs[0] - 0xE0) * 64 + (bs[1] - 0x80)) * 64 + (bs[2] - 0x80)
        else (((bs[0] - 0xF0) * 64 + (bs[1] - 0x80)) * 64 + (bs[2] - 0x80)) * 64 + (bs[3] - 0x80);
      var least := if |bs| == 2 then 0x80 else if |bs| == 3 then 0x800 else 0x10000;
      if cp < least || cp > 0x10FFFF || 0xD800 <= cp < 0xE000 then None
      else Some(cp as char)
  }

  /** `decodeURIComponent(s)`, with `None` for the URIError it throws. */
  function Decode(s: string): (r: Option<string>)
    ensures r.Some? ==> |r.value| <= |s|
    decreases |s|
  {
    if s == [] then Some([])
    else if s[0] != '%' then
      match Decode(s[1..])
      case None => None
      case Some(t) => Some([s[0]] + t)
    else
      match EscapedOctet(s)
      case None => None
      case Some(b) =>
        var n := SequenceLength(b);
        if n == 0 then None
        else
          match EscapedOctets(s, n)
          case None => None
          case Some(bs) =>
            match ScalarFromUtf8(bs)
            case None => None
            case Some(c) =>
              match Decode(s[3 * n..])
              case None => None
              case Some(t) => Some([c] + t)
  }

  /** A string without '%' decodes to itself. */
  lemma {:induction false} DecodeWithoutPercent(s: string)
    requires '%' !in s
    ensures Decode(s) == Some(s)
    decreases |s|
  {
    if s != [] {
      assert '%' !in s[1..] by {
        assert forall k :: 0 <= k < |s| - 1 ==> s[1..][k] == s[k + 1];
      }
      DecodeWithoutPercent(s[1..]);
      assert [s[0]] + s[1..] == s;
    }
  }

  /** Decoding succeeds only when every '%' opens a `%XX` escape. */
  lemma {:induction false} DecodedEscapesAreWellFormed(s: string)
    requires Decode(s).Some?
    ensures forall i :: 0 <= i < |s| && s[i] == '%' ==> IsEscapeAt(s, i)
    decreases |s|
  {
    if s == [] {
    } else if s[0] != '%' {
      DecodedEscapesAreWellFormed(s[1..]);
      forall i | 0 <= i < |s| && s[i] == '%'
        ensures IsEscapeAt(s, i)
      {
        assert i > 0 && s[1..][i - 1] == s[i];
        assert IsEscapeAt(s[1..], i - 1);
      }
    } else {
      var b := EscapedOctet(s).value;
      var n := SequenceLength(b);
      var bs := EscapedOctets(s, n).value;
      var rest := s[3 * n..];
      assert Decode(rest).Some?;
      DecodedEscapesAreWellFormed(rest);
      EscapeRunIsWellFormed(s, n);
      forall i | 0 <= i < |s| && s[i] == '%'
        ensures IsEscapeAt(s, i)
      {
        if i >= 3 * n {
          assert rest[i - 3 * n] == s[i];
          assert IsEscapeAt(rest, i - 3 * n);
        }
      }
    }
  }

  /** Inside a run of `n` escapes, every '%' opens one. */
  lemma {:induction false} EscapeRunIsWellFormed(s: string, n: nat)
    requires EscapedOctets(s, n).Some?
    ensures forall i :: 0 <= i < 3 * n && s[i] == '%' ==> IsEscapeAt(s, i)
    decreases n
  {
    if n > 0 {
      assert IsEscapeAt(s, 0);
      EscapeRunIsWellFormed(s[3..], n - 1);
      forall i | 3 <= i < 3 * n && s[i] == '%' ensures IsEscapeAt(s, i) {
        assert s[3..][i - 3] == s[i];
        assert IsEscapeAt(s[3..], i - 3);
      }
    }
  }

  // ---------------------------------------------------------------------------
  // The RFC 5987 encoding of a filename, the inverse of Decode.

  /** attr-char of RFC 5987 section 3.2.1: ALPHA, DIGIT and "!#$&+-.^_`|~". */
  predicate IsAttrChar(c: char) {
    'A' <= c <= 'Z' || 'a' <= c <= 'z' || '0' <= c <= '9'
    || c == '!' || c == '#' || c == '$' || c == '&' || c == '+' || c == '-'
    || c == '.' || c == '^' || c == '_' || c == '`' || c == '|' || c == '~'
  }

  function HexDigitChar(v: nat): (c: char)
    requires v < 16
    ensures IsHexDigit(c) && HexValue(c) == v && IsAttrChar(c)
  {
    if v < 10 then ('0' as int + v) as char else ('A' as int + v - 10) as char
  }

  /** The UTF-8 octets of one scalar value (RFC 3629 section 3). */
  function Utf8Encode(c: char): (bs: seq<int>)
    ensures 1 <= |bs| <= 4 && SequenceLength(bs[0]) == |bs|
    ensures forall j :: 0 <= j < |bs| ==> 0 <= bs[j] < 256
  {
    var v := c as int;
    if v < 0x80 then [v]
    else if v < 0x800 then [0xC0 + v / 64, 0x80 + v % 64]
    else if v < 0x10000 then
      var t := v / 64;
      [0xE0 + t / 64, 0x80 + t % 64, 0x80 + v % 64]
    else
      var t := v / 64;
      var u := t / 64;
      [0xF0 + u / 64, 0x80 + u % 64, 0x80 + t % 64, 0x80 + v % 64]
  }

  function EscapeOctets(bs: seq<int>): (r: string)
    requires forall j :: 0 <= j < |bs| ==> 0 <= bs[j] < 256
    ensures |r| == 3 * |bs|
    ensures forall i :: 0 <= i < |r| ==> r[i] == '%' || IsAttrChar(r[i])
  {
    if bs == [] then []
    else ['%', HexDigitChar(bs[0] / 16), HexDigitChar(bs[0] % 16)] + EscapeOctets(bs[1..])
  }

  /** Every character is an attr-char or the '%' of an escape: the alphabet of RFC 5987 value-chars. */
  predicate IsValueChars(s: string) {
    forall i :: 0 <= i < |s| ==> s[i] == '%' || IsAttrChar(s[i])
  }

  lemma ValueCharsConcat(x: string, y: string)
    requires IsValueChars(x) && IsValueChars(y)
    ensures IsValueChars(x + y)
  {
    forall i | |x| <= i < |x + y| ensures (x + y)[i] == y[i - |x|] { }
  }

  /** One character as RFC 5987 value-chars: an attr-char as it is, anything else as pct-encoded UTF-8. */
  function EncodeChar(c: char): (r: string)
    ensures r != [] && IsValueChars(r)
  {
    if IsAttrChar(c) then [c] else EscapeOctets(Utf8Encode(c))
  }

  /** The RFC 5987 value-chars of a string, character by character. */
  function Encode(s: string): (r: string)
    ensures |r| >= |s| && IsValueChars(r)
    decreases |s|
  {
    if s == [] then []
    else
      ValueCharsConcat(EncodeChar(s[0]), Encode(s[1..]));
      EncodeChar(s[0]) + Encode(s[1..])
  }

  /** Decoding the UTF-8 form of a character gives the character back. */
  lemma Utf8RoundTrip(c: char)
    ensures ScalarFromUtf8(Utf8Encode(c)) == Some(c)
  {
    var v := c as int;
    var bs := Utf8Encode(c);
    if v < 0x80 {
    } else if v < 0x800 {
      assert (bs[0] - 0xC0) * 64 + (bs[1] - 0x80) == v;
    } else if v < 0x10000 {
      var t := v / 64;
      assert (bs[0] - 0xE0) * 64 + (bs[1] - 0x80) == t;
      assert ((bs[0] - 0xE0) * 64 + (bs[1] - 0x80)) * 64 + (bs[2] - 0x80) == v;
    } else {
      var t := v / 64;
      var u := t / 64;
      assert (bs[0] - 0xF0) * 64 + (bs[1] - 0x80) == u;
      assert ((bs[0] - 0xF0) * 64 + (bs[1] - 0x80)) * 64 + (bs[2] - 0x80) == t;
      assert (((bs[0] - 0xF0) * 64 + (bs[1] - 0x80)) * 64 + (bs[2] - 0x80)) * 64 + (bs[3] - 0x80) == v;
    }
  }

  /**
   * Only UTF-8 encodings are accepted: whatever `ScalarFromUtf8` reads a
   * character from is that character's encoding. With Utf8RoundTrip this makes
   * `ScalarFromUtf8` exactly the inverse of `Utf8Encode`, so every sequence that
   * is not some character's encoding (a bad continuation octet, an overlong form,
   * a surrogate, a value past U+10FFFF) is rejected.
   */
  lemma Utf8Canonical(bs: seq<int>, c: char)
    requires 1 <= |bs| <= 4 && SequenceLength(bs[0]) == |bs|
    requires forall j :: 0 <= j < |bs| ==> 0 <= bs[j] < 256
    requires ScalarFromUtf8(bs) == Some(c)
    ensures Utf8Encode(c) == bs
  {
    if |bs| == 2 {
      Utf8CanonicalTwo(bs, c);
    } else if |bs| == 3 {
      Utf8CanonicalThree(bs, c);
    } else if |bs| == 4 {
      Utf8CanonicalFour(bs, c);
    }
  }

  /** Six more low bits: `(q * 64 + r) / 64 == q` and `(q * 64 + r) % 64 == r`. */
  lemma SixBits(q: int, r: int)
    requires 0 <= q && 0 <= r < 64
    ensures (q * 64 + r) / 64 == q && (q * 64 + r) % 64 == r
  {
  }

  lemma Utf8CanonicalTwo(bs: seq<int>, c: char)
    requires |bs| == 2 && SequenceLength(bs[0]) == 2 && 0 <= bs[1] < 256
    requires ScalarFromUtf8(bs) == Some(c)
    ensures Utf8Encode(c) == bs
  {
    assert IsContinuation(bs[1]);
    var v := c as int;
    assert v == (bs[0] - 0xC0) * 64 + (bs[1] - 0x80);
    SixBits(bs[0] - 0xC0, bs[1] - 0x80);
  }

  lemma Utf8CanonicalThree(bs: seq<int>, c: char)
    requires |bs| == 3 && SequenceLength(bs[0]) == 3 && 0 <= bs[1] < 256 && 0 <= bs[2] < 256
    requires ScalarFromUtf8(bs) == Some(c)
    ensures Utf8Encode(c) == bs
  {
    assert IsContinuation(bs[1]) && IsContinuation(bs[2]);
    var v := c as int;
    var t := (bs[0] - 0xE0) * 64 + (bs[1] - 0x80);
    assert v == t * 64 + (bs[2] - 0x80);
    SixBits(t, bs[2] - 0x80);
    SixBits(bs[0] - 0xE0, bs[1] - 0x80);
  }

  lemma Utf8CanonicalFour(bs: seq<int>, c: char)
    requires |bs| == 4 && SequenceLength(bs[0]) == 4
    requires 0 <= bs[1] < 256 && 0 <= bs[2] < 256 && 0 <= bs[3] < 256
    requires ScalarFromUtf8(bs) == Some(c)
    ensures Utf8Encode(c) == bs
  {
    assert IsContinuation(bs[1]) && IsContinuation(bs[2]) && IsContinuation(bs[3]);
    var v := c as int;
    var u := (bs[0] - 0xF0) * 64 + (bs[1] - 0x80);
    var t := u * 64 + (bs[2] - 0x80);
    assert v == t * 64 + (bs[3] - 0x80);
    SixBits(t, bs[3] - 0x80);
    SixBits(u, bs[2] - 0x80);
    SixBits(bs[0] - 0xF0, bs[1] - 0x80);
  }

  /** Escaped octets read back as the same octets. */
  lemma {:induction false} EscapedOctetsRoundTrip(bs: seq<int>, rest: string)
    requires forall j :: 0 <= j < |bs| ==> 0 <= bs[j] < 256
    ensures EscapedOctets(EscapeOctets(bs) + rest, |bs|) == Some(bs)
    decreases |bs|
  {
    if bs != [] {
      var s := EscapeOctets(bs) + rest;
      var b := bs[0];
      FirstEscape(bs, rest);
      assert EscapedOctet(s) == Some(b);
      EscapedOctetsRoundTrip(bs[1..], rest);
      assert [b] + bs[1..] == bs;
    }
  }

  /** The escaped form of a nonempty octet sequence starts with the escape of its first octet. */
  lemma FirstEscape(bs: seq<int>, rest: string)
    requires bs != [] && forall j :: 0 <= j < |bs| ==> 0 <= bs[j] < 256
    ensures var s := EscapeOctets(bs) + rest;
      && |s| >= 3 && s[0] == '%'
      && s[1] == HexDigitChar(bs[0] / 16) && s[2] == HexDigitChar(bs[0] % 16)
      && s[3..] == EscapeOctets(bs[1..]) + rest
  {
    var h := ['%', HexDigitChar(bs[0] / 16), HexDigitChar(bs[0] % 16)];
    var e := EscapeOctets(bs[1..]);
    assert EscapeOctets(bs) == h + e;
    Reassociate(h, e, rest);
    FrontThree(h, e + rest);
  }

  /** Regrouping and slicing facts, stated once so that FirstEscape stays cheap. */
  lemma Reassociate(a: string, b: string, c: string)
    ensures a + b + c == a + (b + c)
  {
  }

  lemma FrontThree(h: string, u: string)
    requires |h| == 3
    ensures |h + u| >= 3 && (h + u)[0] == h[0] && (h + u)[1] == h[1] && (h + u)[2] == h[2]
    ensures (h + u)[3..] == u
  {
  }

  /** One encoded character in front of any string decodes to that character in front of its decoding. */
  lemma EncodedCharDecodes(c: char, rest: string)
    ensures Decode(EncodeChar(c) + rest) == (match Decode(rest) case None => None case Some(t) => Some([c] + t))
  {
    if IsAttrChar(c) {
      var s := [c] + rest;
      assert s[1..] == rest;
    } else {
      var bs := Utf8Encode(c);
      var s := EscapeOctets(bs) + rest;
      EscapedOctetsRoundTrip(bs, rest);
      FirstEscape(bs, rest);
      assert EscapedOctet(s) == Some(bs[0]);
      Utf8RoundTrip(c);
      assert s[3 * |bs|..] == rest;
    }
  }

  /** Decoding undoes the RFC 5987 encoding. */
  lemma {:induction false} DecodeEncode(s: string)
    ensures Decode(Encode(s)) == Some(s)
    decreases |s|
  {
    if s != [] {
      EncodedCharDecodes(s[0], Encode(s[1..]));
      DecodeEncode(s[1..]);
      assert [s[0]] + s[1..] == s;
    }
  }

  // ---------------------------------------------------------------------------
  // Examples.

  /** A lone '%' and a '%' without two hexadecimal digits are errors. */
  lemma MalformedEscapesRejected()
    ensures Decode("%") == None && Decode("a%zz") == None
  {
  }

  /** A three-octet sequence cut short after two octets is an error. */
  lemma TruncatedSequenceRejected()
    ensures Decode("%E6%96") == None
  {
  }

  /** The overlong two-octet form of '/' is an error. */
  lemma OverlongFormRejected()
    ensures Decode("%C0%AF") == None
  {
  }

  /** The UTF-8 form of the surrogate U+D800 is an error. */
  lemma EncodedSurrogateRejected()
    ensures Decode("%ED%A0%80") == None
  {
  }

  lemma EncodeWen()
    ensures EncodeChar('文') == "%E6%96%87"
  {
    var v := '文' as int;
    assert v == 0x6587 && v / 64 == 0x196 && v % 64 == 0x07 && 0x196 / 64 == 6 && 0x196 % 64 == 0x16;
    assert Utf8Encode('文') == [0xE6, 0x96, 0x87];
    assert EscapeOctets([0x87]) == ['%', '8', '7'] + EscapeOctets([]);
    assert EscapeOctets([0x96, 0x87]) == ['%', '9', '6'] + EscapeOctets([0x87]);
  }

  lemma EncodeDang()
    ensures EncodeChar('档') == "%E6%A1%A3"
  {
    var v := '档' as int;
    assert v == 0x6863 && v / 64 == 0x1A1 && v % 64 == 0x23 && 0x1A1 / 64 == 6 && 0x1A1 % 64 == 0x21;
    assert Utf8Encode('档') == [0xE6, 0xA1, 0xA3];
    assert EscapeOctets([0xA3]) == ['%', 'A', '3'] + EscapeOctets([]);
    assert EscapeOctets([0xA1, 0xA3]) == ['%', 'A', '1'] + EscapeOctets([0xA3]);
  }

  lemma DecodeTwoEncoded(c1: char, c2: char, p: string)
    requires '%' !in p
    ensures Decode(EncodeChar(c1) + (EncodeChar(c2) + p)) == Some([c1] + ([c2] + p))
  {
    DecodeWithoutPercent(p);
    EncodedCharDecodes(c2, p);
    EncodedCharDecodes(c1, EncodeChar(c2) + p);
  }

  // The example. Each fact about a literal string is a lemma of its own, and
  // DecodeChineseName takes the encoded text as a parameter fixed by its
  // precondition: the verifier evaluates functions on literals eagerly, and doing
  // all of it in one proof is too costly.

  lemma PdfExtensionIsValueChars()
    ensures IsValueChars(".pdf")
  {
  }

  lemma SpellDecoded()
    ensures ['文'] + (['档'] + ".pdf") == "文档.pdf"
  {
  }

  lemma SpellEncoded()
    ensures "%E6%96%87" + ("%E6%A1%A3" + ".pdf") == "%E6%96%87%E6%A1%A3.pdf"
  {
  }

  /** The percent-encoded UTF-8 of a Chinese filename decodes to that filename. */
  lemma DecodeChineseName(v: string)
    requires v == "%E6%96%87%E6%A1%A3.pdf"
    ensures Decode(v) == Some("文档.pdf")
  {
    DecodeTwoEncoded('文', '档', ".pdf");
    EncodeWen();
    EncodeDang();
    SpellDecoded();
    SpellEncoded();
  }
}

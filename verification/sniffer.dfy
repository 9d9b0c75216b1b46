/**
 * `detectFileTypeByHeader`: the first eight bytes of a payload are written as
 * lower-case hexadecimal, two digits per byte, and the text is tested against
 * five magic-number prefixes in turn.
 *
 * The model starts from the byte sequence itself; turning an `ArrayBuffer` or
 * a `Buffer` into bytes is not part of it.
 */
module Sniffer {
  import opened Wrappers
  import Text

  type Byte = b: int | 0 <= b < 256

  /** The number of leading bytes the detector reads. */
  const HeaderLength := 8

  function HexDigit(v: nat): (c: char)
    requires v < 16
  {
    if v < 10 then ('0' as int + v) as char else ('a' as int + v - 10) as char
  }

  lemma HexDigitInjective(v: nat, w: nat)
    requires v < 16 && w < 16 && HexDigit(v) == HexDigit(w)
    ensures v == w
  {
  }

  /** `n.toString(16)`: lower-case hexadecimal, no leading zeros. */
  function ToHex(n: nat): (r: string)
    ensures r != [] && (n < 16 <==> |r| == 1)
    decreases n
  {
    if n < 16 then [HexDigit(n)] else ToHex(n / 16) + [HexDigit(n % 16)]
  }

  /** A byte as two lower-case hexadecimal digits. */
  function HexPair(b: Byte): (r: string)
    ensures |r| == 2
  {
    [HexDigit(b / 16), HexDigit(b % 16)]
  }

  /** `b.toString(16).padStart(2, '0')` is the byte's two hexadecimal digits. */
  lemma HexPairIsPaddedToString(b: Byte)
    ensures Text.PadStart(ToHex(b), 2, '0') == HexPair(b)
  {
    if b < 16 {
      assert ToHex(b) == [HexDigit(b)];
      assert HexDigit(b / 16) == '0';
    } else {
      assert ToHex(b / 16) == [HexDigit(b / 16)];
    }
  }

  /** Different bytes are written differently. */
  lemma HexPairInjective(x: Byte, y: Byte)
    requires HexPair(x) == HexPair(y)
    ensures x == y
  {
    assert HexPair(x)[0] == HexPair(y)[0] && HexPair(x)[1] == HexPair(y)[1];
    HexDigitInjective(x / 16, y / 16);
    HexDigitInjective(x % 16, y % 16);
  }

  /** The bytes written out and joined, as `map` then `join('')` does. */
  function HexOf(bs: seq<Byte>): (r: string)
    ensures |r| == 2 * |bs|
  {
    if bs == [] then [] else HexPair(bs[0]) + HexOf(bs[1..])
  }

  /** `subarray(0, 8)`: the first eight bytes, or all of them when there are fewer. */
  function HeaderBytes(data: seq<Byte>): (r: seq<Byte>)
    ensures r <= data
    ensures |r| == if |data| < HeaderLength then |data| else HeaderLength
  {
    if |data| <= HeaderLength then data else data[..HeaderLength]
  }

  function HeaderHex(data: seq<Byte>): string {
    HexOf(HeaderBytes(data))
  }

  /** `detectFileTypeByHeader`, with None for null. */
  function DetectFileType(data: seq<Byte>): Option<string> {
    var header := HeaderHex(data);
    if "25504446" <= header then Some("pdf")
    else if "504b0304" <= header then Some("xlsx")
    else if "89504e47" <= header then Some("png")
    else if "ffd8ff" <= header then Some("jpg")
    else if "47494638" <= header then Some("gif")
    else None
  }

  // ---------------------------------------------------------------------------
  // The same detector as a table of byte signatures.

  datatype Signature = Signature(magic: seq<Byte>, extension: string)

  /** The magic numbers, as bytes, in the order they are tested. */
  const Signatures: seq<Signature> := [
    Signature([0x25, 0x50, 0x44, 0x46], "pdf"),   // %PDF
    Signature([0x50, 0x4B, 0x03, 0x04], "xlsx"),  // ZIP local file header
    Signature([0x89, 0x50, 0x4E, 0x47], "png"),
    Signature([0xFF, 0xD8, 0xFF], "jpg"),
    Signature([0x47, 0x49, 0x46, 0x38], "gif")    // GIF8
  ]

  /** The extension of the first signature that is a prefix of `data`. */
  function FirstSignature(sigs: seq<Signature>, data: seq<Byte>): (r: Option<string>)
    ensures r.Some? <==> exists i :: 0 <= i < |sigs| && sigs[i].magic <= data
  {
    if sigs == [] then None
    else if sigs[0].magic <= data then Some(sigs[0].extension)
    else
      var r := FirstSignature(sigs[1..], data);
      assert forall i :: 1 <= i < |sigs| ==> sigs[i] == sigs[1..][i - 1];
      r
  }

  /** Writing bytes in hexadecimal keeps prefixes: one text is a prefix of another exactly when the bytes are. */
  lemma {:induction false} HexPrefixIffBytePrefix(a: seq<Byte>, b: seq<Byte>)
    ensures HexOf(a) <= HexOf(b) <==> a <= b
    decreases |a|
  {
    if a != [] && b != [] {
      var ha, hb := HexPair(a[0]), HexPair(b[0]);
      var ta, tb := HexOf(a[1..]), HexOf(b[1..]);
      assert HexOf(a) == ha + ta && HexOf(b) == hb + tb;
      HexPrefixIffBytePrefix(a[1..], b[1..]);
      if ha + ta <= hb + tb {
        assert ha == (hb + tb)[..2] == hb;
        assert ta == (ha + ta)[2..] <= (hb + tb)[2..] == tb;
        HexPairInjective(a[0], b[0]);
        assert a == [a[0]] + a[1..] && b == [b[0]] + b[1..];
      }
      if a <= b {
        assert a[0] == b[0] && a[1..] <= b[1..];
      }
    }
  }

  /** A signature of at most eight bytes is in the header exactly when it is at the start of the data. */
  lemma SignatureInHeader(magic: seq<Byte>, data: seq<Byte>)
    requires |magic| <= HeaderLength
    ensures HexOf(magic) <= HeaderHex(data) <==> magic <= data
  {
    HexPrefixIffBytePrefix(magic, HeaderBytes(data));
    if magic <= data {
      assert magic == data[..|magic|];
    }
  }

  // Each magic number, written out as the detector writes the header.

  lemma PdfText() ensures HexOf(Signatures[0].magic) == "25504446" {
    assert HexOf([0x25, 0x50, 0x44, 0x46]) == "25504446";
  }

  lemma ZipText() ensures HexOf(Signatures[1].magic) == "504b0304" {
    assert HexOf([0x50, 0x4B, 0x03, 0x04]) == "504b0304";
  }

  lemma PngText() ensures HexOf(Signatures[2].magic) == "89504e47" {
    assert HexOf([0x89, 0x50, 0x4E, 0x47]) == "89504e47";
  }

  lemma JpegText() ensures HexOf(Signatures[3].magic) == "ffd8ff" {
    assert HexOf([0xFF, 0xD8, 0xFF]) == "ffd8ff";
  }

  lemma GifText() ensures HexOf(Signatures[4].magic) == "47494638" {
    assert HexOf([0x47, 0x49, 0x46, 0x38]) == "47494638";
  }

  /** One test of the chain is one signature of the table. */
  lemma SignatureTest(i: nat, text: string, data: seq<Byte>)
    requires i < |Signatures| && HexOf(Signatures[i].magic) == text
    ensures text <= HeaderHex(data) <==> Signatures[i].magic <= data
  {
    SignatureInHeader(Signatures[i].magic, data);
  }

  /** Looking up the table from entry `k` tries entry `k` first. */
  lemma FirstSignatureStep(k: nat, data: seq<Byte>)
    requires k < |Signatures|
    ensures FirstSignature(Signatures[k..], data)
         == if Signatures[k].magic <= data then Some(Signatures[k].extension)
            else FirstSignature(Signatures[k + 1..], data)
  {
    assert Signatures[k..][1..] == Signatures[k + 1..];
  }

  /** The detector is the signature table: the chain of hexadecimal tests finds the first matching magic number. */
  lemma DetectIsFirstSignature(data: seq<Byte>)
    ensures DetectFileType(data) == FirstSignature(Signatures, data)
  {
    PdfText();
    ZipText();
    PngText();
    JpegText();
    GifText();
    SignatureTest(0, "25504446", data);
    SignatureTest(1, "504b0304", data);
    SignatureTest(2, "89504e47", data);
    SignatureTest(3, "ffd8ff", data);
    SignatureTest(4, "47494638", data);
    FirstSignatureStep(0, data);
    FirstSignatureStep(1, data);
    FirstSignatureStep(2, data);
    FirstSignatureStep(3, data);
    FirstSignatureStep(4, data);
    assert Signatures[0..] == Signatures;
    assert Signatures[5..] == [];
  }

  /** A payload is recognised exactly when one of the magic numbers starts it. */
  lemma DetectIffSignature(data: seq<Byte>)
    ensures DetectFileType(data).Some? <==> exists i :: 0 <= i < |Signatures| && Signatures[i].magic <= data
  {
    DetectIsFirstSignature(data);
  }

  /** The magic numbers begin with different bytes, so at most one of them starts any payload. */
  lemma SignaturesExclusive(data: seq<Byte>, i: nat, j: nat)
    requires i < |Signatures| && j < |Signatures|
    requires Signatures[i].magic <= data && Signatures[j].magic <= data
    ensures i == j
  {
    assert Signatures[i].magic[0] == data[0] == Signatures[j].magic[0];
  }

  /** The table answers with the first entry that matches. */
  lemma {:induction false} FirstSignatureIs(sigs: seq<Signature>, data: seq<Byte>, i: nat)
    requires i < |sigs| && sigs[i].magic <= data
    requires forall j :: 0 <= j < i ==> !(sigs[j].magic <= data)
    ensures FirstSignature(sigs, data) == Some(sigs[i].extension)
  {
    if i > 0 {
      assert !(sigs[0].magic <= data);
      assert forall j :: 0 <= j < |sigs[1..]| ==> sigs[1..][j] == sigs[j + 1];
      FirstSignatureIs(sigs[1..], data, i - 1);
    }
  }

  /** Whichever magic number starts the payload decides the extension; the order of the tests does not matter. */
  lemma DetectFindsSignature(data: seq<Byte>, i: nat)
    requires i < |Signatures| && Signatures[i].magic <= data
    ensures DetectFileType(data) == Some(Signatures[i].extension)
  {
    forall j | 0 <= j < i
      ensures !(Signatures[j].magic <= data)
    {
      if Signatures[j].magic <= data {
        SignaturesExclusive(data, j, i);
      }
    }
    FirstSignatureIs(Signatures, data, i);
    DetectIsFirstSignature(data);
  }

  /** Every magic number has three or four bytes. */
  lemma SignatureLengths(i: nat)
    requires i < |Signatures|
    ensures 3 <= |Signatures[i].magic| <= 4
  {
  }

  /** Fewer than three bytes are never recognised, the empty payload included. */
  lemma ShortPayloadUnknown(data: seq<Byte>)
    requires |data| < 3
    ensures DetectFileType(data) == None
  {
    DetectIffSignature(data);
    forall i | 0 <= i < |Signatures|
      ensures !(Signatures[i].magic <= data)
    {
      SignatureLengths(i);
    }
  }

  /** Bytes appended after a magic number's length do not change whether it starts the payload. */
  lemma PrefixStable(m: seq<Byte>, data: seq<Byte>, more: seq<Byte>)
    requires |m| <= |data|
    ensures m <= data + more <==> m <= data
  {
    assert (data + more)[..|m|] == data[..|m|];
  }

  /** Only the first four bytes decide: what follows them is never looked at. */
  lemma TrailingBytesIgnored(data: seq<Byte>, more: seq<Byte>)
    requires |data| >= 4
    ensures DetectFileType(data + more) == DetectFileType(data)
  {
    forall i | 0 <= i < |Signatures|
      ensures Signatures[i].magic <= data + more <==> Signatures[i].magic <= data
    {
      SignatureLengths(i);
      PrefixStable(Signatures[i].magic, data, more);
    }
    PrefixChoiceAgrees(Signatures, data, data + more);
    DetectIsFirstSignature(data);
    DetectIsFirstSignature(data + more);
  }

  /** Two payloads that agree on which magic numbers start them get the same answer from the table. */
  lemma {:induction false} PrefixChoiceAgrees(sigs: seq<Signature>, a: seq<Byte>, b: seq<Byte>)
    requires forall i :: 0 <= i < |sigs| ==> (sigs[i].magic <= a <==> sigs[i].magic <= b)
    ensures FirstSignature(sigs, a) == FirstSignature(sigs, b)
  {
    if sigs != [] {
      assert sigs[0].magic <= a <==> sigs[0].magic <= b;
      assert forall i :: 0 <= i < |sigs[1..]| ==> sigs[1..][i] == sigs[i + 1];
      PrefixChoiceAgrees(sigs[1..], a, b);
    }
  }

  /** A PDF payload, `%PDF-1.7`, is recognised as "pdf". */
  lemma PdfExample(data: seq<Byte>)
    requires data == [0x25, 0x50, 0x44, 0x46, 0x2D, 0x31, 0x2E, 0x37]
    ensures DetectFileType(data) == Some("pdf")
  {
    assert Signatures[0].magic <= data;
    DetectFindsSignature(data, 0);
  }
}

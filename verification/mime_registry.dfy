/**
 * The MIME registry of src/index.js: the constant table `MIME_MAP` and
 * `getExtensionFromMime`, which normalises a Content-Type value and looks it up.
 */
module MimeRegistry {
  import opened Wrappers
  import Text

  /** `MIME_MAP`: normalised MIME type to file extension. */
  const MimeMap: map<string, string> := map[
    // documents
    "application/pdf" := "pdf",
    "application/msword" := "doc",
    "application/vnd.openxmlformats-officedocument.wordprocessingml.document" := "docx",
    "application/vnd.ms-excel" := "xls",
    "application/vnd.openxmlformats-officedocument.spreadsheetml.sheet" := "xlsx",
    "application/vnd.ms-powerpoint" := "ppt",
    "application/vnd.openxmlformats-officedocument.presentationml.presentation" := "pptx",
    // archives
    "application/zip" := "zip",
    "application/x-rar-compressed" := "rar",
    "application/x-7z-compressed" := "7z",
    "application/gzip" := "gz",
    "application/x-tar" := "tar",
    // images
    "image/jpeg" := "jpg",
    "image/png" := "png",
    "image/gif" := "gif",
    "image/bmp" := "bmp",
    "image/webp" := "webp",
    "image/svg+xml" := "svg",
    "image/tiff" := "tiff",
    // text
    "text/plain" := "txt",
    "text/html" := "html",
    "text/css" := "css",
    "text/javascript" := "js",
    "application/javascript" := "js",
    "application/json" := "json",
    "text/xml" := "xml",
    "application/xml" := "xml",
    "text/csv" := "csv",
    // audio and video
    "audio/mpeg" := "mp3",
    "audio/wav" := "wav",
    "video/mp4" := "mp4",
    "video/mpeg" := "mpeg",
    "video/quicktime" := "mov",
    "video/x-msvideo" := "avi",
    // other
    "application/octet-stream" := "bin"
  ]

  /** The extension used when the type is absent or unknown. */
  const Fallback := "bin"

  /**
   * `toLowerCase` on one character, as far as it can matter for a lookup in an
   * all-ASCII table: ASCII letters, and KELVIN SIGN (U+212A), the one non-ASCII
   * character whose lower-case form is ASCII ('k'). Every other character keeps
   * a non-ASCII form, so it can never complete a table key either way.
   */
  function LowerChar(c: char): char {
    if c == '\U{212A}' then 'k' else Text.AsciiLowerChar(c)
  }

  function Lower(s: string): (r: string)
    ensures |r| == |s|
    ensures forall i :: 0 <= i < |s| ==> r[i] == LowerChar(s[i])
  {
    seq(|s|, i requires 0 <= i < |s| => LowerChar(s[i]))
  }

  /** `mimeType.split(';')[0].trim().toLowerCase()` */
  function Normalize(mime: string): string {
    Lower(Text.Trim(Text.BeforeFirst(mime, ';')))
  }

  /**
   * `getExtensionFromMime` with the table read as a dictionary of its own
   * entries: an absent (null, undefined) or empty type and an unknown type give
   * "bin", a known type its table value.
   */
  function ExtensionFromMime(mime: Option<string>): (r: string)
    ensures r in MimeMap.Values
    ensures mime.Some? && Normalize(mime.value) in MimeMap ==> r == MimeMap[Normalize(mime.value)]
    ensures mime.None? || Normalize(mime.value) !in MimeMap ==> r == Fallback
  {
    TableFacts();
    if mime.None? || mime.value == [] then Fallback
    else
      var key := Normalize(mime.value);
      if key in MimeMap then MimeMap[key] else Fallback
  }

  /** Lower-casing does not touch ';' or whitespace and does nothing to a lower-cased character. */
  lemma LowerCharFacts(c: char)
    ensures LowerChar(c) == ';' <==> c == ';'
    ensures Text.IsJsWhitespace(LowerChar(c)) <==> Text.IsJsWhitespace(c)
    ensures LowerChar(LowerChar(c)) == LowerChar(c)
  {
  }

  lemma LowerFacts(t: string)
    ensures ';' in Lower(t) <==> ';' in t
    ensures Text.IsTrimmed(Lower(t)) <==> Text.IsTrimmed(t)
    ensures Lower(Lower(t)) == Lower(t)
  {
    var n := Lower(t);
    forall k | 0 <= k < |t|
      ensures (n[k] == ';') == (t[k] == ';') && LowerChar(n[k]) == n[k]
    {
      LowerCharFacts(t[k]);
    }
    if t != [] {
      LowerCharFacts(t[0]);
      LowerCharFacts(t[|t| - 1]);
    }
  }

  /** Trimming never brings in a ';'. */
  lemma TrimKeepsOutSemicolon(b: string)
    requires ';' !in b
    ensures ';' !in Text.Trim(b)
  {
    var s := Text.TrimStart(b);
    SliceKeepsOutSemicolon(b, |b| - |s|, |b|);
    SliceKeepsOutSemicolon(s, 0, |Text.TrimEnd(s)|);
  }

  lemma SliceKeepsOutSemicolon(b: string, i: nat, j: nat)
    requires ';' !in b && i <= j <= |b|
    ensures ';' !in b[i..j]
  {
    forall k | i <= k < j ensures b[k] != ';' {
    }
  }

  /** A type without ';', without surrounding whitespace and already in lower case is its own normal form. */
  lemma CleanTypeIsNormal(k: string)
    requires ';' !in k && Text.IsTrimmed(k) && Lower(k) == k
    ensures Normalize(k) == k
  {
    assert Text.BeforeFirst(k, ';') == k;
    assert Text.Trim(k) == k;
  }

  /** Every normal form is free of ';', trimmed and lower case. */
  lemma NormalFormIsClean(mime: string)
    ensures var n := Normalize(mime); ';' !in n && Text.IsTrimmed(n) && Lower(n) == n
  {
    var b := Text.BeforeFirst(mime, ';');
    TrimKeepsOutSemicolon(b);
    LowerFacts(Text.Trim(b));
  }

  /**
   * A type is its own normal form exactly when it has no ';', no whitespace at
   * either end and no character that lower-casing changes.
   */
  lemma NormalFormCharacterized(k: string)
    ensures Normalize(k) == k <==> ';' !in k && Text.IsTrimmed(k) && Lower(k) == k
  {
    NormalFormIsClean(k);
    if ';' !in k && Text.IsTrimmed(k) && Lower(k) == k {
      CleanTypeIsNormal(k);
    }
  }

  /** Normalising twice is normalising once. */
  lemma NormalizeIdempotent(mime: string)
    ensures Normalize(Normalize(mime)) == Normalize(mime)
  {
    var b := Text.BeforeFirst(mime, ';');
    var t := Text.Trim(b);
    NormalFormIsClean(mime);
    CleanTypeIsNormal(Lower(t));
  }

  /**
   * The extension depends only on the normalised type: the text before the
   * first ';', trimmed and lower-cased.
   */
  lemma ExtensionDependsOnNormalizedType(mime: string)
    ensures ExtensionFromMime(Some(mime)) == ExtensionFromMime(Some(Normalize(mime)))
  {
    NormalizeIdempotent(mime);
    TableFacts();
  }

  /** Appending `;` and any parameters to a type does not change its extension. */
  lemma ParametersIgnored(mime: string, params: string)
    ensures ExtensionFromMime(Some(mime + ";" + params)) == ExtensionFromMime(Some(mime))
  {
    ParametersNormalizedAway(mime, params);
    TableFacts();
  }

  /** Appending `;` and any parameters to a type does not change its normal form. */
  lemma ParametersNormalizedAway(mime: string, params: string)
    ensures Normalize(mime + ";" + params) == Normalize(mime)
  {
    var s := mime + ";" + params;
    var b := Text.BeforeFirst(mime, ';');
    var b' := Text.BeforeFirst(s, ';');
    if |b| < |mime| {
      assert b' <= s && b <= s && s[|b|] == ';';
    } else {
      assert b == mime;
      assert s[|mime|] == ';';
    }
    assert b' == b;
  }

  /** Two types with the same normalised form get the same extension. */
  lemma SameNormalFormSameExtension(m1: string, m2: string)
    requires Normalize(m1) == Normalize(m2)
    ensures ExtensionFromMime(Some(m1)) == ExtensionFromMime(Some(m2))
  {
    ExtensionDependsOnNormalizedType(m1);
    ExtensionDependsOnNormalizedType(m2);
  }

  lemma JsonTypeNormalizes()
    ensures Normalize("Application/JSON") == "application/json"
  {
    assert ';' !in "Application/JSON";
    assert Text.IsTrimmed("Application/JSON");
    assert Lower("Application/JSON") == "application/json";
    assert Text.BeforeFirst("Application/JSON", ';') == "Application/JSON";
    assert Text.Trim("Application/JSON") == "Application/JSON";
  }

  lemma JsonKeyNormalizes()
    ensures Normalize("application/json") == "application/json"
  {
    assert ';' !in "application/json";
    assert Text.IsTrimmed("application/json");
    assert Lower("application/json") == "application/json";
    assert Text.BeforeFirst("application/json", ';') == "application/json";
    assert Text.Trim("application/json") == "application/json";
  }


  /** Facts about the table that the examples rely on. */
  lemma TableFacts()
    ensures "" !in MimeMap && "constructor" !in MimeMap && "__proto__" !in MimeMap
    ensures "application/json" in MimeMap && MimeMap["application/json"] == "json"
    ensures forall k :: k in MimeMap ==> MimeMap[k] != []
    ensures Fallback in MimeMap.Values
  {
    MissingKeys();
    JsonEntry();
    ExtensionsNonEmpty();
    FallbackIsAnExtension();
  }

  lemma MissingKeys()
    ensures "" !in MimeMap && "constructor" !in MimeMap && "__proto__" !in MimeMap
  {
    EmptyKeyMissing();
    ConstructorKeyMissing();
    ProtoKeyMissing();
  }

  lemma EmptyKeyMissing() ensures "" !in MimeMap { }
  lemma ConstructorKeyMissing() ensures "constructor" !in MimeMap { }
  lemma ProtoKeyMissing() ensures "__proto__" !in MimeMap { }

  lemma JsonEntry()
    ensures "application/json" in MimeMap && MimeMap["application/json"] == "json"
  {
  }

  lemma ExtensionsNonEmpty()
    ensures forall k :: k in MimeMap ==> MimeMap[k] != []
  {
  }

  lemma FallbackIsAnExtension()
    ensures Fallback in MimeMap.Values
  {
    assert MimeMap["application/octet-stream"] == Fallback;
  }

  // ---------------------------------------------------------------------------
  // Every key of the table is already in normal form, so every entry is reachable.
  //
  // The keys are checked character by character. Each literal gets its own small
  // lemma, and the three long Office Open XML keys are put together from a shared
  // prefix and a tail, because the verifier reasons about a long literal string
  // only when the pieces are proved one at a time.

  /** The characters the table's keys are made of. */
  predicate KeyChar(c: char) {
    'a' <= c <= 'z' || '0' <= c <= '9' || c == '/' || c == '.' || c == '+' || c == '-'
  }

  predicate KeyText(s: string) {
    forall i :: 0 <= i < |s| ==> KeyChar(s[i])
  }

  /** A text of key characters is its own normal form. */
  lemma KeyTextIsNormal(k: string)
    requires KeyText(k)
    ensures Normalize(k) == k
  {
    assert Lower(k) == k;
    CleanTypeIsNormal(k);
  }

  lemma KeyTextJoin(a: string, b: string, k: string)
    requires KeyText(a) && KeyText(b) && k == a + b
    ensures KeyText(k)
  {
  }

  lemma OfficePrefixHead() ensures KeyText("application/vnd.openxmlformats") { }
  lemma OfficePrefixTail() ensures KeyText("-officedocument.") { }
  lemma OfficePrefixSplit()
    ensures "application/vnd.openxmlformats-officedocument." == "application/vnd.openxmlformats" + "-officedocument."
  {
  }

  /** The prefix the three Office Open XML types share. */
  lemma OfficePrefix() ensures KeyText("application/vnd.openxmlformats-officedocument.")
  {
    OfficePrefixHead();
    OfficePrefixTail();
    OfficePrefixSplit();
    KeyTextJoin("application/vnd.openxmlformats", "-officedocument.", "application/vnd.openxmlformats-officedocument.");
  }

  lemma WordTail() ensures KeyText("wordprocessingml.document") { }
  lemma WordSplit()
    ensures "application/vnd.openxmlformats-officedocument.wordprocessingml.document" == "application/vnd.openxmlformats-officedocument." + "wordprocessingml.document"
  {
  }

  lemma WordKey() ensures KeyText("application/vnd.openxmlformats-officedocument.wordprocessingml.document")
  {
    OfficePrefix();
    WordTail();
    WordSplit();
    KeyTextJoin("application/vnd.openxmlformats-officedocument.", "wordprocessingml.document", "application/vnd.openxmlformats-officedocument.wordprocessingml.document");
  }

  lemma SheetTail() ensures KeyText("spreadsheetml.sheet") { }
  lemma SheetSplit()
    ensures "application/vnd.openxmlformats-officedocument.spreadsheetml.sheet" == "application/vnd.openxmlformats-officedocument." + "spreadsheetml.sheet"
  {
  }

  lemma SheetKey() ensures KeyText("application/vnd.openxmlformats-officedocument.spreadsheetml.sheet")
  {
    OfficePrefix();
    SheetTail();
    SheetSplit();
    KeyTextJoin("application/vnd.openxmlformats-officedocument.", "spreadsheetml.sheet", "application/vnd.openxmlformats-officedocument.spreadsheetml.sheet");
  }

  lemma PresentationTail() ensures KeyText("presentationml.presentation") { }
  lemma PresentationSplit()
    ensures "application/vnd.openxmlformats-officedocument.presentationml.presentation" == "application/vnd.openxmlformats-officedocument." + "presentationml.presentation"
  {
  }

  lemma PresentationKey() ensures KeyText("application/vnd.openxmlformats-officedocument.presentationml.presentation")
  {
    OfficePrefix();
    PresentationTail();
    PresentationSplit();
    KeyTextJoin("application/vnd.openxmlformats-officedocument.", "presentationml.presentation", "application/vnd.openxmlformats-officedocument.presentationml.presentation");
  }

  lemma DocumentKeys()
    ensures KeyText("application/pdf")
    ensures KeyText("application/msword")
    ensures KeyText("application/vnd.ms-excel")
  {
  }

  lemma PowerPointKey()
    ensures KeyText("application/vnd.ms-powerpoint")
  {
  }

  lemma ArchiveKeys()
    ensures KeyText("application/zip")
    ensures KeyText("application/gzip")
    ensures KeyText("application/x-tar")
  {
  }

  lemma CompressedKeys()
    ensures KeyText("application/x-rar-compressed")
    ensures KeyText("application/x-7z-compressed")
  {
  }

  lemma ImageKeys()
    ensures KeyText("image/jpeg")
    ensures KeyText("image/png")
    ensures KeyText("image/gif")
    ensures KeyText("image/bmp")
    ensures KeyText("image/webp")
    ensures KeyText("image/svg+xml")
    ensures KeyText("image/tiff")
  {
  }

  lemma TextKeys()
    ensures KeyText("text/plain")
    ensures KeyText("text/html")
    ensures KeyText("text/css")
    ensures KeyText("text/javascript")
    ensures KeyText("text/xml")
    ensures KeyText("text/csv")
  {
  }

  lemma ApplicationTextKeys()
    ensures KeyText("application/javascript")
    ensures KeyText("application/json")
    ensures KeyText("application/xml")
  {
  }

  lemma MediaKeys()
    ensures KeyText("audio/mpeg")
    ensures KeyText("audio/wav")
    ensures KeyText("video/mp4")
    ensures KeyText("video/mpeg")
    ensures KeyText("video/quicktime")
    ensures KeyText("video/x-msvideo")
  {
  }

  lemma OctetStreamKey()
    ensures KeyText("application/octet-stream")
  {
  }

  /** Every key of `MIME_MAP` is written in key characters only. */
  lemma KeysAreKeyText()
    ensures forall k :: k in MimeMap ==> KeyText(k)
  {
    WordKey();
    SheetKey();
    PresentationKey();
    DocumentKeys();
    PowerPointKey();
    ArchiveKeys();
    CompressedKeys();
    ImageKeys();
    TextKeys();
    ApplicationTextKeys();
    MediaKeys();
    OctetStreamKey();
  }

  /** Every key of `MIME_MAP` is already lower case, trimmed and free of parameters. */
  lemma KeysAreNormal()
    ensures forall k :: k in MimeMap ==> Normalize(k) == k
  {
    KeysAreKeyText();
    forall k | k in MimeMap
      ensures Normalize(k) == k
    {
      KeyTextIsNormal(k);
    }
  }

  /** Every entry of the table is reachable: looking up a key gives its own extension. */
  lemma EveryEntryReachable()
    ensures forall k :: k in MimeMap ==> ExtensionFromMime(Some(k)) == MimeMap[k]
  {
    KeysAreNormal();
  }

  /** `getExtensionFromMime('Application/JSON; charset=utf-8')` is "json", as for 'application/json'. */
  lemma ParameterisedJsonExample()
    ensures ExtensionFromMime(Some("Application/JSON" + ";" + " charset=utf-8")) == "json"
    ensures ExtensionFromMime(Some("application/json")) == "json"
  {
    ParametersNormalizedAway("Application/JSON", " charset=utf-8");
    JsonTypeNormalizes();
    JsonKeyNormalizes();
    TableFacts();
  }

  // ---------------------------------------------------------------------------
  // The lookup as written: `MIME_MAP[cleanMime] || 'bin'` on a plain object.

  /** The JavaScript values a property read on `MIME_MAP` can produce. */
  datatype JsValue = Undefined | JsString(s: string) | JsObject(description: string)

  /**
   * `MIME_MAP[key]`: an own property, or else a property inherited from
   * `Object.prototype` (its only property names without upper-case letters are
   * "constructor" and "__proto__"), or else `undefined`.
   */
  function PropertyRead(key: string): JsValue {
    if key in MimeMap then JsString(MimeMap[key])
    else if key == "constructor" then JsObject("the Object constructor")
    else if key == "__proto__" then JsObject("Object.prototype")
    else Undefined
  }

  predicate Truthy(v: JsValue) {
    match v
    case Undefined => false
    case JsString(s) => s != []
    case JsObject(_) => true
  }

  /** `getExtensionFromMime` exactly as written, result as a JavaScript value. */
  function ExtensionFromMimeAsWritten(mime: Option<string>): JsValue {
    if mime.None? || mime.value == [] then JsString(Fallback)
    else
      var v := PropertyRead(Normalize(mime.value));
      if Truthy(v) then v else JsString(Fallback)
  }

  lemma ConstructorNormalizes()
    ensures Normalize("Constructor") == "constructor"
  {
    assert ';' !in "Constructor";
    assert Text.IsTrimmed("Constructor");
    assert Lower("Constructor") == "constructor";
    assert Text.BeforeFirst("Constructor", ';') == "Constructor";
    assert Text.Trim("Constructor") == "Constructor";
  }

  /**
   * A Content-Type whose normal form is "constructor" (for instance
   * "Constructor", see ConstructorNormalizes) makes the function as written
   * return the Object constructor, a function and not a string, where the table
   * has no entry and "bin" is meant.
   */
  lemma AsWrittenReturnsNonString(mime: string)
    requires Normalize(mime) == "constructor"
    ensures ExtensionFromMimeAsWritten(Some(mime)) == JsObject("the Object constructor")
    ensures ExtensionFromMime(Some(mime)) == Fallback
  {
    TableFacts();
    assert mime != [];
  }

  /**
   * Off the two inherited property names the function as written and the
   * corrected one agree: the table holds no empty extension, so `||` falls back
   * exactly when the type is not a key.
   */
  lemma AsWrittenAgreesElsewhere(mime: Option<string>)
    requires mime.Some? ==> Normalize(mime.value) != "constructor" && Normalize(mime.value) != "__proto__"
    ensures ExtensionFromMimeAsWritten(mime) == JsString(ExtensionFromMime(mime))
  {
    TableFacts();
  }
}

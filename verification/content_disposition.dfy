/**
 * The filename hint of a `Content-Disposition` header value, as
 * `extractFilenameFromHeader` finds it with two case-insensitive regular
 * expressions: first the extended parameter `filename*=UTF-8''<value>`
 * (RFC 6266 section 4.3, value syntax from RFC 5987 section 3.2), whose value
 * is percent-decoded; if it is absent or does not decode, the plain
 * `filename=<value>` parameter, decoded when it decodes and returned raw
 * otherwise.
 *
 * A regular expression is searched for at positions 0, 1, 2, ... and the
 * first position where it matches wins; `ValueAt` is what group 1 captures
 * when the match starts at a given position.
 */
module ContentDisposition {
  import opened Wrappers
  import UriComponent

  /** The extended parameter's literal text, lower-cased. */
  const ExtendedParameter := "filename*=utf-8''"
  /** The plain parameter's literal text. */
  const PlainParameter := "filename="

  /**
   * A text character matches a lower-case pattern character under the `i`
   * flag. Without the `u` flag a non-ASCII character never folds to an ASCII
   * one, so only ASCII upper-case letters fold here.
   */
  predicate FoldsTo(c: char, p: char) {
    c == p || ('A' <= c <= 'Z' && c as int + 32 == p as int)
  }

  /** `key` spells the lower-case literal `lit`, ignoring ASCII case. */
  predicate Spells(key: string, lit: string) {
    |key| == |lit| && forall k :: 0 <= k < |lit| ==> FoldsTo(key[k], lit[k])
  }

  predicate MatchesAt(s: string, i: nat, lit: string) {
    i + |lit| <= |s| && Spells(s[i..i + |lit|], lit)
  }

  /** The characters a regular-expression `.` does not match. */
  predicate IsLineTerminator(c: char) {
    c == '\n' || c == '\r' || c == '\U{2028}' || c == '\U{2029}'
  }

  predicate HasLineTerminator(w: string) {
    exists k :: 0 <= k < |w| && IsLineTerminator(w[k])
  }

  predicate IsQuote(c: char) {
    c == '"' || c == '\''
  }

  /** A character of the class `[^"';]`. */
  predicate IsPlainValueChar(c: char) {
    !IsQuote(c) && c != ';'
  }

  /** The first position at or after `i` holding ';', or the end of `s`. */
  function NextStop(s: string, i: nat): (j: nat)
    requires i <= |s|
    ensures i <= j <= |s|
    ensures j < |s| ==> s[j] == ';'
    ensures forall k :: i <= k < j ==> s[k] != ';'
    decreases |s| - i
  {
    if i == |s| || s[i] == ';' then i else NextStop(s, i + 1)
  }

  /** The end of the longest run of `[^"';]` characters starting at `i`. */
  function PlainRunEnd(s: string, i: nat): (j: nat)
    requires i <= |s|
    ensures i <= j <= |s|
    ensures j < |s| ==> !IsPlainValueChar(s[j])
    ensures forall k :: i <= k < j ==> IsPlainValueChar(s[k])
    decreases |s| - i
  {
    if i == |s| || !IsPlainValueChar(s[i]) then i else PlainRunEnd(s, i + 1)
  }

  /** The two filename parameters, each searched for by its own regular expression. */
  datatype Parameter = Extended | Plain

  function Keyword(param: Parameter): string {
    match param
    case Extended => ExtendedParameter
    case Plain => PlainParameter
  }

  /**
   * What group 1 of `filename\*=UTF-8''(.+?)(?:;|$)` captures when tried at
   * position `i`: at least one character, stopping at the first later ';'
   * or at the end; no match if a line terminator comes first.
   */
  function ExtendedValueAt(s: string, i: nat): (r: Option<string>)
    ensures r.Some? ==> MatchesAt(s, i, ExtendedParameter) && r.value != []
  {
    var q := i + |ExtendedParameter|;
    if !MatchesAt(s, i, ExtendedParameter) || q == |s| then None
    else
      var j := NextStop(s, q + 1);
      if HasLineTerminator(s[q..j]) then None else Some(s[q..j])
  }

  /**
   * An extended capture is the text right after the keyword, ends at a ';'
   * or at the end of the header, holds no ';' after its first character and
   * no line terminator.
   */
  lemma ExtendedCaptureShape(s: string, i: nat)
    requires ExtendedValueAt(s, i).Some?
    ensures var v := ExtendedValueAt(s, i).value; var q := i + |ExtendedParameter|;
      && q + |v| <= |s| && s[q..q + |v|] == v
      && (q + |v| == |s| || s[q + |v|] == ';')
      && (forall k :: 1 <= k < |v| ==> v[k] != ';')
      && (forall k :: 0 <= k < |v| ==> !IsLineTerminator(v[k]))
  {
    var q := i + |ExtendedParameter|;
    var j := NextStop(s, q + 1);
    assert forall k :: 0 <= k < j - q ==> s[q..j][k] == s[q + k];
  }

  /**
   * What group 1 of `filename=["']?([^"';]+)["']?` captures when tried at
   * position `i`: one opening quote is skipped if there is one, then the
   * longest non-empty run of characters other than quotes and ';'.
   */
  function PlainValueAt(s: string, i: nat): (r: Option<string>)
    ensures r.Some? ==> MatchesAt(s, i, PlainParameter) && r.value != []
  {
    var q := i + |PlainParameter|;
    if !MatchesAt(s, i, PlainParameter) then None
    else
      var start := if q < |s| && IsQuote(s[q]) then q + 1 else q;
      var j := PlainRunEnd(s, start);
      if j == start then None
      else Some(s[start..j])
  }

  /**
   * A plain capture starts right after the keyword, or one past it when a
   * quote is there, holds no quote or ';', and is followed by a quote, a ';'
   * or the end of the header.
   */
  lemma PlainCaptureShape(s: string, i: nat)
    requires PlainValueAt(s, i).Some?
    ensures var v := PlainValueAt(s, i).value;
      var q := i + |PlainParameter|;
      var start := if q < |s| && IsQuote(s[q]) then q + 1 else q;
      && start + |v| <= |s| && s[start..start + |v|] == v
      && (start + |v| == |s| || !IsPlainValueChar(s[start + |v|]))
      && (forall k :: 0 <= k < |v| ==> IsPlainValueChar(v[k]))
  {
    var q := i + |PlainParameter|;
    var start := if q < |s| && IsQuote(s[q]) then q + 1 else q;
    var j := PlainRunEnd(s, start);
    assert forall k :: 0 <= k < j - start ==> s[start..j][k] == s[start + k];
  }

  /** The capture of the expression for `param` tried at position `i`. */
  function ValueAt(param: Parameter, s: string, i: nat): (r: Option<string>)
    ensures r.Some? ==> MatchesAt(s, i, Keyword(param))
  {
    match param
    case Extended => ExtendedValueAt(s, i)
    case Plain => PlainValueAt(s, i)
  }

  /** The first position at or after `from` where the expression for `param` matches. */
  function FirstMatch(param: Parameter, s: string, from: nat): (r: Option<nat>)
    ensures r.Some? ==>
      && from <= r.value && ValueAt(param, s, r.value).Some?
      && forall k :: from <= k < r.value ==> ValueAt(param, s, k).None?
    ensures r.None? ==> forall k :: from <= k ==> ValueAt(param, s, k).None?
    decreases |s| - from
  {
    if from + |Keyword(param)| > |s| then None
    else if ValueAt(param, s, from).Some? then Some(from)
    else FirstMatch(param, s, from + 1)
  }

  /** Group 1 of `s.match(...)` for `param`: the value at the first matching position. */
  function Capture(param: Parameter, s: string): (r: Option<string>)
  {
    match FirstMatch(param, s, 0)
    case None => None
    case Some(i) => ValueAt(param, s, i)
  }

  /** The first step: the decoded extended value, or None when it is absent or does not decode. */
  function ExtendedFilename(s: string): (r: Option<string>)
    ensures r.Some? ==> Capture(Extended, s).Some?
    ensures r.Some? <==> Capture(Extended, s).Some? && UriComponent.Decode(Capture(Extended, s).value).Some?
  {
    match Capture(Extended, s)
    case None => None
    case Some(v) => UriComponent.Decode(v)
  }

  /** The second step: the plain value, decoded if it decodes and raw otherwise. */
  function PlainFilename(s: string): (r: Option<string>)
    ensures r.Some? <==> Capture(Plain, s).Some?
    ensures r.Some? && UriComponent.Decode(Capture(Plain, s).value).None? ==> r.value == Capture(Plain, s).value
    ensures r.Some? && UriComponent.Decode(Capture(Plain, s).value).Some? ==> r == UriComponent.Decode(Capture(Plain, s).value)
  {
    match Capture(Plain, s)
    case None => None
    case Some(v) =>
      match UriComponent.Decode(v)
      case None => Some(v)
      case Some(name) => Some(name)
  }

  /** `extractFilenameFromHeader`, with None for null. */
  function ExtractFilename(header: Option<string>): (r: Option<string>)
    ensures header.None? || header.value == [] ==> r.None?
    ensures header.Some? && ExtendedFilename(header.value).Some? ==> r == ExtendedFilename(header.value)
    ensures header.Some? && header.value != [] && ExtendedFilename(header.value).None? ==>
      r == PlainFilename(header.value)
  {
    if header.None? || header.value == [] then None
    else
      match ExtendedFilename(header.value)
      case Some(name) => Some(name)
      case None => PlainFilename(header.value)
  }

  // ---------------------------------------------------------------------------
  // Where the search lands.

  /** A header without either parameter name gives no filename. */
  lemma NoParameterNoFilename(s: string)
    requires forall i :: !MatchesAt(s, i, ExtendedParameter) && !MatchesAt(s, i, PlainParameter)
    ensures ExtractFilename(Some(s)) == None
  {
    forall i ensures ValueAt(Extended, s, i).None? && ValueAt(Plain, s, i).None? {
      assert !MatchesAt(s, i, ExtendedParameter) && !MatchesAt(s, i, PlainParameter);
    }
  }

  /** A null result means no plain `filename=` value can be captured anywhere in the header. */
  lemma NullMeansNoPlainValue(s: string)
    requires ExtractFilename(Some(s)) == None
    ensures forall i :: ValueAt(Plain, s, i).None?
  {
    if s != [] {
      assert PlainFilename(s) == None;
      assert FirstMatch(Plain, s, 0) == None;
    }
  }

  /** No character of `s` can start either parameter name. */
  predicate HasNoF(s: string) {
    'f' !in s && 'F' !in s
  }

  /** A match found at `i` with nothing before it is the capture. */
  lemma CaptureAt(param: Parameter, s: string, i: nat)
    requires ValueAt(param, s, i).Some?
    requires forall k :: 0 <= k < i ==> ValueAt(param, s, k).None?
    ensures Capture(param, s) == ValueAt(param, s, i)
  {
  }

  /** With no match anywhere there is nothing to capture. */
  lemma NoCapture(param: Parameter, s: string)
    requires forall k :: ValueAt(param, s, k).None?
    ensures Capture(param, s) == None
  {
  }

  /** Nothing matches at a position holding neither 'f' nor 'F'. */
  lemma NoMatchWithoutF(param: Parameter, s: string, lo: nat, hi: nat)
    requires lo <= hi <= |s| && HasNoF(s[lo..hi])
    ensures forall i :: lo <= i < hi ==> ValueAt(param, s, i).None?
  {
    forall i | lo <= i < hi
      ensures !MatchesAt(s, i, Keyword(param))
    {
      assert s[lo..hi][i - lo] == s[i];
      if i + |Keyword(param)| <= |s| {
        assert s[i..i + |Keyword(param)|][0] == s[i];
        assert !FoldsTo(s[i], Keyword(param)[0]);
      }
    }
  }

  /** Nothing matches inside a prefix with no 'f' or 'F'. */
  lemma NoMatchInPrefix(param: Parameter, s: string, pre: string)
    requires |pre| <= |s| && s[..|pre|] == pre && HasNoF(pre)
    ensures forall i :: 0 <= i < |pre| ==> ValueAt(param, s, i).None?
  {
    assert s[0..|pre|] == pre;
    NoMatchWithoutF(param, s, 0, |pre|);
  }

  // ---------------------------------------------------------------------------
  // Matching looks only forward, so text in front shifts a match and changes nothing else.

  lemma ShiftSlice(x: string, t: string, a: nat, b: nat)
    requires a <= b <= |t|
    ensures (x + t)[|x| + a..|x| + b] == t[a..b]
  {
    assert forall k :: 0 <= k < b - a ==> (x + t)[|x| + a..|x| + b][k] == t[a..b][k];
  }

  lemma ShiftMatchesAt(x: string, t: string, i: nat, lit: string)
    ensures MatchesAt(x + t, |x| + i, lit) == MatchesAt(t, i, lit)
  {
    if i + |lit| <= |t| {
      ShiftSlice(x, t, i, i + |lit|);
    }
  }

  lemma ShiftNextStop(x: string, t: string, i: nat)
    requires i <= |t|
    ensures NextStop(x + t, |x| + i) == |x| + NextStop(t, i)
  {
    var s := x + t;
    var j := NextStop(t, i);
    forall k | |x| + i <= k < |x| + j ensures s[k] != ';' {
      assert s[k] == t[k - |x|];
    }
    assert |x| + j < |s| ==> s[|x| + j] == t[j];
  }

  lemma ShiftPlainRunEnd(x: string, t: string, i: nat)
    requires i <= |t|
    ensures PlainRunEnd(x + t, |x| + i) == |x| + PlainRunEnd(t, i)
  {
    var s := x + t;
    var j := PlainRunEnd(t, i);
    forall k | |x| + i <= k < |x| + j ensures IsPlainValueChar(s[k]) {
      assert s[k] == t[k - |x|];
    }
    assert |x| + j < |s| ==> s[|x| + j] == t[j];
  }

  lemma ShiftExtendedValueAt(x: string, t: string, i: nat)
    ensures ExtendedValueAt(x + t, |x| + i) == ExtendedValueAt(t, i)
  {
    ShiftMatchesAt(x, t, i, ExtendedParameter);
    var q := i + |ExtendedParameter|;
    if MatchesAt(t, i, ExtendedParameter) && q < |t| {
      ShiftNextStop(x, t, q + 1);
      ShiftSlice(x, t, q, NextStop(t, q + 1));
    }
  }

  lemma ShiftPlainValueAt(x: string, t: string, i: nat)
    ensures PlainValueAt(x + t, |x| + i) == PlainValueAt(t, i)
  {
    var s := x + t;
    ShiftMatchesAt(x, t, i, PlainParameter);
    var q := i + |PlainParameter|;
    if MatchesAt(t, i, PlainParameter) {
      assert q < |t| ==> s[|x| + q] == t[q];
      var start := if q < |t| && IsQuote(t[q]) then q + 1 else q;
      ShiftPlainRunEnd(x, t, start);
      ShiftSlice(x, t, start, PlainRunEnd(t, start));
    }
  }

  lemma ShiftValueAt(param: Parameter, x: string, t: string, i: nat)
    ensures ValueAt(param, x + t, |x| + i) == ValueAt(param, t, i)
  {
    match param
    case Extended => ShiftExtendedValueAt(x, t, i);
    case Plain => ShiftPlainValueAt(x, t, i);
  }

  /** Text in which no match starts can be put in front without changing the capture. */
  lemma SkipPrefix(param: Parameter, x: string, t: string)
    requires forall i :: 0 <= i < |x| ==> ValueAt(param, x + t, i).None?
    ensures Capture(param, x + t) == Capture(param, t)
  {
    var s := x + t;
    forall k | |x| <= k ensures ValueAt(param, s, k) == ValueAt(param, t, k - |x|) {
      ShiftValueAt(param, x, t, k - |x|);
    }
    match FirstMatch(param, t, 0)
    case None =>
      NoCapture(param, s);
    case Some(i) =>
      CaptureAt(param, s, |x| + i);
  }

  /** Neither capture changes when text without 'f' or 'F' is put in front. */
  lemma CapturesIgnorePrefix(pre: string, t: string)
    requires HasNoF(pre)
    ensures Capture(Extended, pre + t) == Capture(Extended, t)
    ensures Capture(Plain, pre + t) == Capture(Plain, t)
  {
    assert (pre + t)[..|pre|] == pre;
    NoMatchInPrefix(Extended, pre + t, pre);
    NoMatchInPrefix(Plain, pre + t, pre);
    SkipPrefix(Extended, pre, t);
    SkipPrefix(Plain, pre, t);
  }

  /** The empty header has no captures. */
  lemma EmptyHasNoCapture()
    ensures Capture(Extended, []) == None && Capture(Plain, []) == None
  {
    NoCapture(Extended, []);
    NoCapture(Plain, []);
  }

  /** The result is a function of the two captures. */
  lemma SameCapturesSameFilename(s: string, t: string)
    requires s != [] && t != []
    requires Capture(Extended, s) == Capture(Extended, t) && Capture(Plain, s) == Capture(Plain, t)
    ensures ExtractFilename(Some(s)) == ExtractFilename(Some(t))
  {
  }

  /**
   * Text without 'f' or 'F' in front of a header changes nothing: the result
   * for `"attachment; " + t` is the result for `t`.
   */
  lemma PrefixWithoutF(pre: string, t: string)
    requires HasNoF(pre)
    ensures ExtractFilename(Some(pre + t)) == ExtractFilename(Some(t))
  {
    CapturesIgnorePrefix(pre, t);
    if t == [] {
      EmptyHasNoCapture();
      assert ExtendedFilename(pre) == None && PlainFilename(pre) == None;
    } else if pre != [] {
      SameCapturesSameFilename(pre + t, t);
    }
  }

  // ---------------------------------------------------------------------------
  // The three outcomes.

  /** The extended value sitting at `p`: the keyword `key`, then `v` up to a ';' or the end. */
  lemma ExtendedValueFound(s: string, p: nat, key: string, v: string)
    requires Spells(key, ExtendedParameter)
    requires p + |key| + |v| <= |s| && s[p..p + |key|] == key && s[p + |key|..p + |key| + |v|] == v
    requires v != [] && ';' !in v && forall k :: 0 <= k < |v| ==> !IsLineTerminator(v[k])
    requires p + |key| + |v| == |s| || s[p + |key| + |v|] == ';'
    ensures ValueAt(Extended, s, p) == Some(v)
  {
    assert MatchesAt(s, p, ExtendedParameter);
    var q := p + |key|;
    var e := q + |v|;
    forall k | q < k < e ensures s[k] != ';' {
      assert s[k] == v[k - q];
    }
    var j := NextStop(s, q + 1);
    assert j == e;
    forall k | q <= k < j ensures !IsLineTerminator(s[k]) {
      assert s[k] == v[k - q];
    }
  }

  /** The plain value at `p`: the keyword `key`, an optional quote, then the run `v`. */
  lemma PlainValueFound(s: string, p: nat, key: string, open: string, v: string)
    requires Spells(key, PlainParameter)
    requires open == [] || open == ['"'] || open == ['\'']
    requires p + |key| + |open| + |v| <= |s|
    requires s[p..p + |key|] == key && s[p + |key|..p + |key| + |open|] == open
    requires s[p + |key| + |open|..p + |key| + |open| + |v|] == v
    requires v != [] && forall k :: 0 <= k < |v| ==> IsPlainValueChar(v[k])
    requires p + |key| + |open| + |v| == |s| || !IsPlainValueChar(s[p + |key| + |open| + |v|])
    ensures ValueAt(Plain, s, p) == Some(v)
  {
    assert MatchesAt(s, p, PlainParameter);
    var q := p + |key|;
    var start := q + |open|;
    if open == [] {
      assert s[q] == v[0];
    } else {
      assert s[q] == open[0];
    }
    forall k | start <= k < start + |v| ensures IsPlainValueChar(s[k]) {
      assert s[k] == v[k - start];
    }
    var j := PlainRunEnd(s, start);
    assert j == start + |v|;
  }

  // Regrouping and slicing facts about concatenations, stated once so that the
  // proofs below do not make the verifier rediscover them at every use.

  lemma Regroup3(a: string, b: string, c: string, d: string)
    ensures a + b + c + d == a + (b + c + d)
  {
  }

  lemma Regroup4(a: string, b: string, c: string, d: string, e: string)
    ensures a + b + c + d + e == a + (b + c + d + e)
  {
  }

  lemma Pieces3(a: string, b: string, c: string)
    ensures (a + b + c)[..|a|] == a
    ensures (a + b + c)[|a|..|a| + |b|] == b
    ensures (a + b + c)[|a| + |b|..] == c
  {
  }

  lemma Pieces4(a: string, b: string, c: string, d: string)
    ensures (a + b + c + d)[..|a|] == a
    ensures (a + b + c + d)[|a|..|a| + |b|] == b
    ensures (a + b + c + d)[|a| + |b|..|a| + |b| + |c|] == c
    ensures (a + b + c + d)[|a| + |b| + |c|..] == d
  {
  }

  /** The extended capture of a header that starts with an extended parameter. */
  lemma ExtendedCaptureAtStart(s: string, key: string, v: string)
    requires Spells(key, ExtendedParameter)
    requires |key| + |v| <= |s| && s[..|key|] == key && s[|key|..|key| + |v|] == v
    requires v != [] && ';' !in v && forall k :: 0 <= k < |v| ==> !IsLineTerminator(v[k])
    requires |key| + |v| == |s| || s[|key| + |v|] == ';'
    ensures Capture(Extended, s) == Some(v)
  {
    assert s[0..|key|] == s[..|key|];
    ExtendedValueFound(s, 0, key, v);
    CaptureAt(Extended, s, 0);
  }

  /** A header whose extended value decodes gives the decoded value. */
  lemma ExtendedDecodes(s: string, v: string, name: string)
    requires s != [] && Capture(Extended, s) == Some(v) && UriComponent.Decode(v) == Some(name)
    ensures ExtractFilename(Some(s)) == Some(name)
  {
  }

  /**
   * An extended parameter whose value decodes wins, whatever follows it: a
   * later plain `filename=` is ignored.
   */
  lemma ExtendedWins(pre: string, key: string, v: string, rest: string, name: string)
    requires HasNoF(pre) && Spells(key, ExtendedParameter)
    requires v != [] && ';' !in v && forall k :: 0 <= k < |v| ==> !IsLineTerminator(v[k])
    requires rest == [] || rest[0] == ';'
    requires UriComponent.Decode(v) == Some(name)
    ensures ExtractFilename(Some(pre + key + v + rest)) == Some(name)
  {
    var t := key + v + rest;
    Regroup3(pre, key, v, rest);
    Pieces3(key, v, rest);
    assert |key| + |v| < |t| ==> t[|key| + |v|] == rest[0];
    ExtendedCaptureAtStart(t, key, v);
    CapturesIgnorePrefix(pre, t);
    ExtendedDecodes(pre + t, v, name);
  }

  /** Percent-encoding a name into the extended parameter gives the name back. */
  lemma ExtendedRoundTrip(pre: string, key: string, name: string, rest: string)
    requires HasNoF(pre) && Spells(key, ExtendedParameter)
    requires name != [] && (rest == [] || rest[0] == ';')
    ensures ExtractFilename(Some(pre + key + UriComponent.Encode(name) + rest)) == Some(name)
  {
    var v := UriComponent.Encode(name);
    ValueCharsFitExtended(v);
    UriComponent.DecodeEncode(name);
    ExtendedWins(pre, key, v, rest, name);
  }

  /** Value-chars hold no ';' and no line terminator, so an encoded value is captured whole. */
  lemma ValueCharsFitExtended(v: string)
    requires UriComponent.IsValueChars(v)
    ensures ';' !in v && forall k :: 0 <= k < |v| ==> !IsLineTerminator(v[k])
  {
    forall k | 0 <= k < |v| ensures v[k] != ';' && !IsLineTerminator(v[k]) {
      assert v[k] == '%' || UriComponent.IsAttrChar(v[k]);
    }
  }

  // The examples. Facts about a literal string (its spelling as a concatenation,
  // its characters) are each proved in a lemma of their own: the verifier
  // evaluates functions on literals eagerly, and several such facts in one proof
  // make it too costly. For the same reason the examples take the header as a
  // parameter fixed by their precondition instead of writing the literal inline.

  lemma AttachmentHasNoF()
    ensures HasNoF("attachment; ")
  {
  }

  lemma UpperCaseExtendedKeyword()
    ensures Spells("filename*=UTF-8''", ExtendedParameter)
  {
  }

  lemma SpellChineseHeader()
    ensures "attachment; " + "filename*=UTF-8''" + "%E6%96%87%E6%A1%A3.pdf" + [] ==
      "attachment; filename*=UTF-8''%E6%96%87%E6%A1%A3.pdf"
  {
  }

  /** `attachment; filename*=UTF-8''%E6%96%87%E6%A1%A3.pdf` names the file 文档.pdf. */
  lemma ChineseFilenameExample(h: string)
    requires h == "attachment; filename*=UTF-8''%E6%96%87%E6%A1%A3.pdf"
    ensures ExtractFilename(Some(h)) == Some("文档.pdf")
  {
    var v := "%E6%96%87%E6%A1%A3.pdf";
    UriComponent.DecodeChineseName(v);
    UriComponent.EncodeWen();
    UriComponent.EncodeDang();
    UriComponent.SpellEncoded();
    UriComponent.PdfExtensionIsValueChars();
    UriComponent.ValueCharsConcat(UriComponent.EncodeChar('档'), ".pdf");
    UriComponent.ValueCharsConcat(UriComponent.EncodeChar('文'), UriComponent.EncodeChar('档') + ".pdf");
    ValueCharsFitExtended(v);
    AttachmentHasNoF();
    UpperCaseExtendedKeyword();
    ExtendedWins("attachment; ", "filename*=UTF-8''", v, [], "文档.pdf");
    SpellChineseHeader();
  }

  /** The captures of a header that starts with a plain parameter and holds no '*'. */
  lemma PlainCaptureAtStart(s: string, key: string, open: string, v: string)
    requires Spells(key, PlainParameter)
    requires open == [] || open == ['"'] || open == ['\'']
    requires |key| + |open| + |v| <= |s|
    requires s[..|key|] == key && s[|key|..|key| + |open|] == open
    requires s[|key| + |open|..|key| + |open| + |v|] == v
    requires v != [] && forall k :: 0 <= k < |v| ==> IsPlainValueChar(v[k])
    requires |key| + |open| + |v| == |s| || !IsPlainValueChar(s[|key| + |open| + |v|])
    requires '*' !in s
    ensures Capture(Plain, s) == Some(v) && Capture(Extended, s) == None
  {
    assert s[0..|key|] == s[..|key|];
    PlainValueFound(s, 0, key, open, v);
    CaptureAt(Plain, s, 0);
    forall i: nat ensures ValueAt(Extended, s, i).None? {
      if i + |ExtendedParameter| <= |s| {
        assert s[i..i + |ExtendedParameter|][8] == s[i + 8];
      }
    }
    NoCapture(Extended, s);
  }

  /** Without an extended value, the plain value decides: decoded if it decodes, raw otherwise. */
  lemma PlainDecides(s: string, v: string)
    requires s != [] && Capture(Extended, s) == None && Capture(Plain, s) == Some(v)
    ensures ExtractFilename(Some(s)) ==
      Some(match UriComponent.Decode(v) case None => v case Some(name) => name)
  {
  }

  /**
   * A header whose filename parameter is a plain one: the value, with an
   * optional opening quote skipped, decoded when it decodes and raw
   * otherwise.
   */
  lemma PlainValue(pre: string, key: string, open: string, v: string, rest: string)
    requires HasNoF(pre) && Spells(key, PlainParameter)
    requires open == [] || open == ['"'] || open == ['\'']
    requires v != [] && forall k :: 0 <= k < |v| ==> IsPlainValueChar(v[k])
    requires rest == [] || !IsPlainValueChar(rest[0])
    requires '*' !in v && '*' !in rest
    ensures ExtractFilename(Some(pre + key + open + v + rest)) ==
      Some(match UriComponent.Decode(v) case None => v case Some(name) => name)
  {
    var t := key + open + v + rest;
    Regroup4(pre, key, open, v, rest);
    Pieces4(key, open, v, rest);
    assert |key| + |open| + |v| < |t| ==> t[|key| + |open| + |v|] == rest[0];
    assert '*' !in key by {
      forall k | 0 <= k < |key| ensures key[k] != '*' {
        assert FoldsTo(key[k], PlainParameter[k]);
      }
    }
    PlainCaptureAtStart(t, key, open, v);
    CapturesIgnorePrefix(pre, t);
    PlainDecides(pre + t, v);
  }

  /** A plain value without '%' is returned exactly as it appears. */
  lemma PlainWithoutPercent(pre: string, key: string, open: string, v: string, rest: string)
    requires HasNoF(pre) && Spells(key, PlainParameter)
    requires open == [] || open == ['"'] || open == ['\'']
    requires v != [] && forall k :: 0 <= k < |v| ==> IsPlainValueChar(v[k])
    requires rest == [] || !IsPlainValueChar(rest[0])
    requires '*' !in v && '*' !in rest && '%' !in v
    ensures ExtractFilename(Some(pre + key + open + v + rest)) == Some(v)
  {
    PlainValue(pre, key, open, v, rest);
    UriComponent.DecodeWithoutPercent(v);
  }

  lemma SpellReportHeader()
    ensures "attachment; " + "filename=" + "\"" + "report.pdf" + "\"" == "attachment; filename=\"report.pdf\""
  {
  }

  /** `attachment; filename="report.pdf"` names the file report.pdf. */
  lemma QuotedFilenameExample(h: string)
    requires h == "attachment; filename=\"report.pdf\""
    ensures ExtractFilename(Some(h)) == Some("report.pdf")
  {
    PlainWithoutPercent("attachment; ", "filename=", "\"", "report.pdf", "\"");
    SpellReportHeader();
  }

  /** No plain match starts inside an extended keyword. */
  lemma NoPlainMatchInExtendedKeyword(s: string, key: string)
    requires Spells(key, ExtendedParameter) && |key| <= |s| && s[..|key|] == key
    ensures forall i :: 0 <= i < |key| ==> ValueAt(Plain, s, i).None?
  {
    forall i | 0 <= i < |key| ensures !MatchesAt(s, i, PlainParameter) {
      if i + |PlainParameter| <= |s| {
        var w := s[i..i + |PlainParameter|];
        assert w[0] == key[i];
        assert FoldsTo(key[i], ExtendedParameter[i]);
        if i == 0 {
          assert w[8] == key[8] && FoldsTo(key[8], '*');
        } else if i == 12 {
          assert w[1] == key[13] && FoldsTo(key[13], '-');
        }
      }
    }
  }

  lemma GapAfterKeyword(key: string, bad: string, t: string)
    requires HasNoF(bad)
    ensures HasNoF((key + bad + ";" + t)[|key|..|key| + |bad| + 1])
  {
    assert (key + bad + ";" + t)[|key|..|key| + |bad| + 1] == bad + ";";
  }

  /** The captures of a header that starts with an extended parameter that fails to decode. */
  lemma FailedExtendedCaptures(key: string, bad: string, t: string)
    requires Spells(key, ExtendedParameter) && HasNoF(bad)
    requires bad != [] && ';' !in bad && forall k :: 0 <= k < |bad| ==> !IsLineTerminator(bad[k])
    ensures Capture(Extended, key + bad + ";" + t) == Some(bad)
    ensures Capture(Plain, key + bad + ";" + t) == Capture(Plain, t)
  {
    var x := key + bad + ";";
    var s := x + t;
    Pieces4(key, bad, ";", t);
    ExtendedCaptureAtStart(s, key, bad);
    NoPlainMatchInExtendedKeyword(s, key);
    GapAfterKeyword(key, bad, t);
    NoMatchWithoutF(Plain, s, |key|, |x|);
    SkipPrefix(Plain, x, t);
  }

  /** When the extended value does not decode, the plain value decides. */
  lemma ExtendedFailureDefers(s: string, bad: string)
    requires s != [] && Capture(Extended, s) == Some(bad) && UriComponent.Decode(bad).None?
    ensures ExtractFilename(Some(s)) == PlainFilename(s)
  {
  }

  /**
   * When the first extended parameter does not decode, the result is that of
   * the plain parameter search over the rest of the header; a later extended
   * parameter is never looked at.
   */
  lemma ExtendedFailureFallsThrough(key: string, bad: string, t: string)
    requires Spells(key, ExtendedParameter) && HasNoF(bad)
    requires bad != [] && ';' !in bad && forall k :: 0 <= k < |bad| ==> !IsLineTerminator(bad[k])
    requires UriComponent.Decode(bad).None?
    ensures ExtractFilename(Some(key + bad + ";" + t)) == PlainFilename(t)
  {
    FailedExtendedCaptures(key, bad, t);
    ExtendedFailureDefers(key + bad + ";" + t, bad);
  }
}

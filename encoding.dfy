/** Character-encoding detection for uploaded text files: the byte order mark, binary
    sniffing, the Shift-JIS lead/trail pair heuristic, the confidence scores of the UTF-8 and
    Shift-JIS readings, and the choice between them. Confidences are whole hundredths
    (80 stands for 0.8); the decoders themselves are parameters. */
module Encoding {
  import opened Wrappers

  newtype byte = b: int | 0 <= b < 256

  datatype SupportedEncoding = Utf8 | ShiftJis

  /** One reading of the file: which encoding, how confident, the decoded text, whether it
      is acceptable, and whether a UTF-8 byte order mark was seen. */
  datatype Detection = Detection(encoding: SupportedEncoding, confidence: int, text: string,
                                 isValid: bool, hasBom: bool)

  /** A decoder: the decoded text, or None when decoding throws. */
  type Decoder = seq<byte> -> Option<string>

  const SampleSize := 8000
  const Utf8Threshold := 70
  const ShiftJisThreshold := 60
  const AcceptUtf8 := 80
  const FallbackConfidence := 10
  const PairScoreCap := 30

  // ---------------------------------------------------------------------------------------
  // Byte order mark

  function HasUtf8Bom(bytes: seq<byte>): (r: bool)
    ensures r <==> |bytes| >= 3 && bytes[..3] == [0xEF, 0xBB, 0xBF]
  {
    |bytes| >= 3 && bytes[0] == 0xEF && bytes[1] == 0xBB && bytes[2] == 0xBF
  }

  /** The bytes after the first n, or none when there are no more than n (a slice past the
      end is empty). */
  function Drop(bytes: seq<byte>, n: nat): (r: seq<byte>)
    ensures |r| == if |bytes| <= n then 0 else |bytes| - n
    ensures forall k :: 0 <= k < |r| ==> r[k] == bytes[n + k]
  {
    if |bytes| <= n then [] else bytes[n..]
  }

  // ---------------------------------------------------------------------------------------
  // Binary sniffing

  function Min(a: int, b: int): int { if a <= b then a else b }

  /** A file is binary when more than one in a hundred of its first 8000 bytes are zero; an
      empty file is not (the ratio 0/0 is not greater than anything). */
  predicate Binary(bytes: seq<byte>)
  {
    var sample := Min(SampleSize, |bytes|);
    sample > 0 && multiset(bytes[..sample])[0] * 100 > sample
  }

  method IsBinaryFile(bytes: seq<byte>) returns (binary: bool)
    ensures binary == Binary(bytes)
  {
    var sampleSize := Min(SampleSize, |bytes|);
    var nullBytes := 0;
    for i := 0 to sampleSize
      invariant nullBytes == multiset(bytes[..i])[0]
    {
      assert bytes[..i + 1] == bytes[..i] + [bytes[i]];
      if bytes[i] == 0 {
        nullBytes := nullBytes + 1;
      }
    }
    binary := sampleSize > 0 && nullBytes * 100 > sampleSize;
  }

  lemma EmptyIsNotBinary()
    ensures !Binary([])
  {
  }

  /** Only the sample decides: bytes after the first 8000 never change the verdict. */
  lemma {:induction false} SampleDecides(a: seq<byte>, b: seq<byte>)
    requires |a| >= SampleSize
    ensures Binary(a + b) <==> Binary(a)
  {
    assert (a + b)[..SampleSize] == a[..SampleSize];
  }

  /** A file without zero bytes in its sample is text. */
  lemma {:induction false} NoZerosIsText(bytes: seq<byte>)
    requires forall k :: 0 <= k < Min(SampleSize, |bytes|) ==> bytes[k] != 0
    ensures !Binary(bytes)
  {
    var sample := bytes[..Min(SampleSize, |bytes|)];
    assert 0 !in sample;
  }

  /** A file whose first z bytes are zero is binary once z exceeds a hundredth of the
      sample: 600 leading zeros in 1000 bytes, for instance. */
  lemma {:induction false} LeadingZerosAreBinary(bytes: seq<byte>, z: nat)
    requires z <= |bytes| && z <= SampleSize
    requires forall k :: 0 <= k < z ==> bytes[k] == 0
    requires z * 100 > Min(SampleSize, |bytes|)
    ensures Binary(bytes)
  {
    var sample := bytes[..Min(SampleSize, |bytes|)];
    assert sample == bytes[..z] + sample[z..];
    ZerosCount(bytes[..z]);
  }

  lemma {:induction false} ZerosCount(s: seq<byte>)
    requires forall k :: 0 <= k < |s| ==> s[k] == 0
    ensures multiset(s)[0] == |s|
    decreases |s|
  {
    if |s| > 0 {
      assert s == s[..|s| - 1] + [s[|s| - 1]];
      ZerosCount(s[..|s| - 1]);
    }
  }

  // ---------------------------------------------------------------------------------------
  // Shift-JIS byte pairs

  predicate IsLead(b: byte) { (0x81 <= b <= 0x9F) || (0xE0 <= b <= 0xFC) }

  predicate IsTrail(b: byte) { (0x40 <= b <= 0x7E) || (0x80 <= b <= 0xFC) }

  /** The number of pairs a left-to-right scan from position i finds: a lead byte followed
      by a trail byte counts once and the trail byte is not looked at again. */
  function PairCount(bytes: seq<byte>, i: nat): nat
    decreases |bytes| - i
  {
    if i >= |bytes| then 0
    else if IsLead(bytes[i]) && i + 1 < |bytes| && IsTrail(bytes[i + 1]) then 1 + PairCount(bytes, i + 2)
    else PairCount(bytes, i + 1)
  }

  /** A hundredth per pair, capped at 0.3. */
  function PairScore(bytes: seq<byte>): (s: int)
    ensures 0 <= s <= PairScoreCap
    ensures s == PairCount(bytes, 0) || s == PairScoreCap
  {
    Min(PairScoreCap, PairCount(bytes, 0))
  }

  method CheckShiftJisBytePatterns(bytes: seq<byte>) returns (score: int)
    ensures score == PairScore(bytes)
  {
    var pairs := 0;
    var i := 0;
    while i < |bytes|
      invariant 0 <= i <= |bytes|
      invariant pairs + PairCount(bytes, i) == PairCount(bytes, 0)
      decreases |bytes| - i
    {
      var b := bytes[i];
      if IsLead(b) && i + 1 < |bytes| && IsTrail(bytes[i + 1]) {
        pairs := pairs + 1;
        i := i + 1;
      }
      i := i + 1;
    }
    score := Min(PairScoreCap, pairs);
  }

  /** Pairs never overlap, so a scan finds at most one pair per two bytes. */
  lemma {:induction false} PairsDisjoint(bytes: seq<byte>, i: nat)
    requires i <= |bytes|
    ensures PairCount(bytes, i) * 2 <= |bytes| - i
    decreases |bytes| - i
  {
    if i < |bytes| {
      if IsLead(bytes[i]) && i + 1 < |bytes| && IsTrail(bytes[i + 1]) {
        PairsDisjoint(bytes, i + 2);
      } else {
        PairsDisjoint(bytes, i + 1);
      }
    }
  }

  /** Plain ASCII contains no lead byte and scores nothing. */
  lemma {:induction false} AsciiHasNoPairs(bytes: seq<byte>, i: nat)
    requires forall k :: 0 <= k < |bytes| ==> bytes[k] < 0x80
    ensures PairCount(bytes, i) == 0
    decreases |bytes| - i
  {
    if i < |bytes| {
      AsciiHasNoPairs(bytes, i + 1);
    }
  }

  /** A run of bytes that are each both a lead and a trail byte (0x81 to 0x9F) is read as
      consecutive pairs: an even run of 2m bytes gives m pairs, not 2m - 1. */
  lemma {:induction false} DoubleRoleRun(bytes: seq<byte>, i: nat)
    requires i <= |bytes| && (|bytes| - i) % 2 == 0
    requires forall k :: i <= k < |bytes| ==> 0x81 <= bytes[k] <= 0x9F
    ensures PairCount(bytes, i) == (|bytes| - i) / 2
    decreases |bytes| - i
  {
    if i < |bytes| {
      DoubleRoleRun(bytes, i + 2);
    }
  }

  // ---------------------------------------------------------------------------------------
  // Text signals

  predicate IsAscii(c: char) { c <= '\U{007F}' }

  predicate IsJapanese(c: char)
  {
    ('\U{3040}' <= c <= '\U{309F}') || ('\U{30A0}' <= c <= '\U{30FF}') || ('\U{4E00}' <= c <= '\U{9FAF}')
  }

  const Replacement: char := '\U{FFFD}'

  predicate HasJapanese(text: string) { exists k :: 0 <= k < |text| && IsJapanese(text[k]) }

  predicate HasReplacement(text: string) { Replacement in text }

  /** The number of ASCII characters: what remains once every other character is removed. */
  function AsciiCount(text: string): (n: nat)
    ensures n <= |text|
    ensures n == |text| <==> forall k :: 0 <= k < |text| ==> IsAscii(text[k])
  {
    if |text| == 0 then 0
    else
      assert forall k :: 0 < k < |text| ==> text[k] == text[1..][k - 1];
      (if IsAscii(text[0]) then 1 else 0) + AsciiCount(text[1..])
  }

  /** The clamp into [0, 1]. */
  function Clamp(c: int): (r: int)
    ensures 0 <= r <= 100
    ensures 0 <= c <= 100 ==> r == c
    ensures c < 0 ==> r == 0
    ensures c > 100 ==> r == 100
  {
    if c < 0 then 0 else if c > 100 then 100 else c
  }

  // ---------------------------------------------------------------------------------------
  // Confidences

  /** UTF-8 confidence: an empty text scores 0.8; otherwise 0.5, or 0.8 when every character
      is ASCII, then +0.3 with Japanese characters, -0.4 with a replacement character and
      +0.2 when more than a tenth of the characters are not ASCII, clamped into [0, 1]. */
  function Utf8Confidence(text: string): (c: int)
    ensures 0 <= c <= 100
    ensures |text| == 0 ==> c == AcceptUtf8
  {
    if |text| == 0 then AcceptUtf8
    else
      var ascii := AsciiCount(text);
      var base := if ascii == |text| then 80 else 50;
      var japanese := if HasJapanese(text) then 30 else 0;
      var invalid := if HasReplacement(text) then 40 else 0;
      var foreign := if (|text| - ascii) * 10 > |text| then 20 else 0;
      Clamp(base + japanese - invalid + foreign)
  }

  /** ASCII-only text is read as UTF-8 with exactly 0.8: it has no other signal. */
  lemma AsciiTextScores(text: string)
    requires forall k :: 0 <= k < |text| ==> IsAscii(text[k])
    ensures Utf8Confidence(text) == AcceptUtf8
  {
    if |text| > 0 {
      assert !IsAscii(Replacement);
      assert !HasJapanese(text);
    }
  }

  /** Japanese text without replacement characters is accepted as UTF-8 outright. */
  lemma JapaneseUtf8Accepted(text: string)
    requires HasJapanese(text) && !HasReplacement(text)
    ensures Utf8Confidence(text) >= AcceptUtf8
  {
    var k :| 0 <= k < |text| && IsJapanese(text[k]);
    assert !IsAscii(text[k]);
  }

  /** A replacement character always makes the UTF-8 reading unacceptable. */
  lemma ReplacementRejectsUtf8(text: string)
    requires HasReplacement(text)
    ensures Utf8Confidence(text) < Utf8Threshold
  {
    var k :| 0 <= k < |text| && text[k] == Replacement;
    assert !IsAscii(text[k]);
  }

  /** Non-ASCII text without Japanese characters scores at most 0.7, so it never wins
      outright and the Shift-JIS reading is tried. */
  lemma NonJapaneseUtf8Deferred(text: string)
    requires !HasJapanese(text)
    requires exists k :: 0 <= k < |text| && !IsAscii(text[k])
    ensures Utf8Confidence(text) <= Utf8Threshold
  {
  }

  /** Shift-JIS confidence: 0.4, +0.4 with Japanese characters, -0.3 with a replacement
      character, plus the pair score, clamped into [0, 1]. */
  function ShiftJisConfidence(text: string, bytes: seq<byte>): (c: int)
    ensures 0 <= c <= 100
  {
    var japanese := if HasJapanese(text) then 40 else 0;
    var invalid := if HasReplacement(text) then 30 else 0;
    Clamp(40 + japanese - invalid + PairScore(bytes))
  }

  /** When the Shift-JIS reading is acceptable: Japanese text without replacement characters
      always is, Japanese text with them needs ten pairs, other text without them twenty,
      and other text with them never is. */
  lemma ShiftJisAcceptance(text: string, bytes: seq<byte>)
    ensures ShiftJisConfidence(text, bytes) >= ShiftJisThreshold <==>
      (HasJapanese(text) && !HasReplacement(text)) ||
      (HasJapanese(text) && HasReplacement(text) && PairScore(bytes) >= 10) ||
      (!HasJapanese(text) && !HasReplacement(text) && PairScore(bytes) >= 20)
  {
  }

  // ---------------------------------------------------------------------------------------
  // Readings and the decision

  /** The UTF-8 reading: strict decoding of the bytes after any byte order mark. */
  function TryDecodeAsUtf8(bytes: seq<byte>, hasBom: bool, decode: Decoder): (d: Detection)
    ensures d.encoding == Utf8 && d.hasBom == hasBom
    ensures d.isValid <==> d.confidence >= Utf8Threshold
    ensures decode(if hasBom then Drop(bytes, 3) else bytes).None? ==>
      d.confidence == 0 && d.text == [] && !d.isValid
    ensures decode(if hasBom then Drop(bytes, 3) else bytes).Some? ==>
      d.text == decode(if hasBom then Drop(bytes, 3) else bytes).value &&
      d.confidence == Utf8Confidence(d.text)
  {
    var data := if hasBom then Drop(bytes, 3) else bytes;
    match decode(data)
    case None => Detection(Utf8, 0, [], false, hasBom)
    case Some(text) =>
      var confidence := Utf8Confidence(text);
      Detection(Utf8, confidence, text, confidence >= Utf8Threshold, hasBom)
  }

  /** The Shift-JIS reading: lenient decoding of all the bytes, never with a byte order
      mark. */
  function TryDecodeAsShiftJis(bytes: seq<byte>, decode: Decoder): (d: Detection)
    ensures d.encoding == ShiftJis && !d.hasBom
    ensures d.isValid <==> d.confidence >= ShiftJisThreshold
    ensures decode(bytes).None? ==> d.confidence == 0 && d.text == [] && !d.isValid
    ensures decode(bytes).Some? ==>
      d.text == decode(bytes).value && d.confidence == ShiftJisConfidence(d.text, bytes)
  {
    match decode(bytes)
    case None => Detection(ShiftJis, 0, [], false, false)
    case Some(text) =>
      var confidence := ShiftJisConfidence(text, bytes);
      Detection(ShiftJis, confidence, text, confidence >= ShiftJisThreshold, false)
  }

  /** The detector's choice: the UTF-8 reading when it is acceptable with at least 0.8, else
      the Shift-JIS reading when it is acceptable, else the UTF-8 reading marked unacceptable
      with confidence 0.1. */
  function DetectAndDecode(bytes: seq<byte>, utf8: Decoder, sjis: Decoder): (d: Detection)
    ensures var u := TryDecodeAsUtf8(bytes, HasUtf8Bom(bytes), utf8);
            var s := TryDecodeAsShiftJis(bytes, sjis);
            (u.isValid && u.confidence >= AcceptUtf8 ==> d == u) &&
            (!(u.isValid && u.confidence >= AcceptUtf8) && s.isValid ==> d == s) &&
            (!(u.isValid && u.confidence >= AcceptUtf8) && !s.isValid ==>
               d == u.(confidence := FallbackConfidence, isValid := false))
  {
    var hasBom := HasUtf8Bom(bytes);
    var utf8Result := TryDecodeAsUtf8(bytes, hasBom, utf8);
    if utf8Result.isValid && utf8Result.confidence >= AcceptUtf8 then utf8Result
    else
      var sjisResult := TryDecodeAsShiftJis(bytes, sjis);
      if sjisResult.isValid then sjisResult
      else utf8Result.(confidence := FallbackConfidence, isValid := false)
  }

  /** What any detection promises: an accepted reading is UTF-8 with at least 0.8 or
      Shift-JIS with at least 0.6; otherwise it is the UTF-8 text with confidence 0.1. The
      byte order mark is reported only on UTF-8 readings and only when present. */
  lemma DetectionOutcome(bytes: seq<byte>, utf8: Decoder, sjis: Decoder)
    ensures var d := DetectAndDecode(bytes, utf8, sjis);
      (d.isValid ==> (d.encoding == Utf8 && d.confidence >= AcceptUtf8) ||
                     (d.encoding == ShiftJis && d.confidence >= ShiftJisThreshold)) &&
      (!d.isValid ==> d.encoding == Utf8 && d.confidence == FallbackConfidence &&
                      d.text == TryDecodeAsUtf8(bytes, HasUtf8Bom(bytes), utf8).text) &&
      (d.hasBom <==> d.encoding == Utf8 && HasUtf8Bom(bytes)) &&
      0 <= d.confidence <= 100
  {
  }

  /** A file the strict decoder reads as ASCII text (an empty file included) is accepted as
      UTF-8 with confidence 0.8, whatever the Shift-JIS reading. */
  lemma AsciiFileIsUtf8(bytes: seq<byte>, utf8: Decoder, sjis: Decoder)
    requires var data := if HasUtf8Bom(bytes) then Drop(bytes, 3) else bytes;
      utf8(data).Some? && forall k :: 0 <= k < |utf8(data).value| ==> IsAscii(utf8(data).value[k])
    ensures var d := DetectAndDecode(bytes, utf8, sjis);
      d.encoding == Utf8 && d.isValid && d.confidence == AcceptUtf8
  {
    var data := if HasUtf8Bom(bytes) then Drop(bytes, 3) else bytes;
    AsciiTextScores(utf8(data).value);
  }

  /** A file the strict decoder rejects is read as Shift-JIS when that reading is
      acceptable and otherwise comes back empty and unacceptable. */
  lemma InvalidUtf8Falls(bytes: seq<byte>, utf8: Decoder, sjis: Decoder)
    requires utf8(if HasUtf8Bom(bytes) then Drop(bytes, 3) else bytes).None?
    ensures var d := DetectAndDecode(bytes, utf8, sjis);
      var s := TryDecodeAsShiftJis(bytes, sjis);
      (s.isValid ==> d == s) &&
      (!s.isValid ==> d.encoding == Utf8 && d.text == [] && !d.isValid && d.confidence == FallbackConfidence)
  {
  }
}

/**
  The upload handler of main.py: the size ceiling, the envelope check, the
  crop-box assembly, the mapping of processing errors to HTTP statuses and
  the download file name with its RFC 5987 Content-Disposition value.
 */
module Upload {
  import opened Basics
  import opened Imaging
  import opened Pipeline
  import opened PercentEncoding

  const MAX_UPLOAD_SIZE_MB: real := 10.0
  const MAX_UPLOAD_BYTES: int := MbToBytes(MAX_UPLOAD_SIZE_MB)

  const PAYLOAD_TOO_LARGE: nat := 413
  const BAD_REQUEST: nat := 400
  const INTERNAL_SERVER_ERROR: nat := 500

  const DISPOSITION_PREFIX: string := "attachment; filename*=UTF-8''"

  /** The fields of an upload request; an absent crop field is None. */
  datatype UploadForm = UploadForm(
    content: seq<byte>,
    filename: string,
    targetSizeMb: real,
    minSizeMb: real,
    x: Option<int>,
    y: Option<int>,
    width: Option<int>,
    height: Option<int>,
    targetRatio: real)

  /** An HTTP error status, or the processed JPEG as an attachment. */
  datatype Response = Reject(status: nat) | Attachment(contentDisposition: string, body: Jpeg)

  lemma MaxUploadBytesValue()
    ensures MAX_UPLOAD_BYTES == 10485760
  {
  }

  /** A crop box exists exactly when all four fields were sent. */
  function BuildCropBox(x: Option<int>, y: Option<int>, width: Option<int>, height: Option<int>): (box: Option<CropBox>)
    ensures box.Some? <==> x.Some? && y.Some? && width.Some? && height.Some?
    ensures box.Some? ==> box.value == CropBox(x.value, y.value, width.value, height.value)
  {
    if x.Some? && y.Some? && width.Some? && height.Some? then Some(CropBox(x.value, y.value, width.value, height.value))
    else None
  }

  /** Index of the last occurrence of `c` among the first `n` characters of `s`, or -1. */
  function LastIndexBelow(s: string, c: char, n: nat): (i: int)
    requires n <= |s|
    ensures -1 <= i < n
    ensures i == -1 <==> c !in s[..n]
    ensures 0 <= i ==> s[i] == c && forall j :: i < j < n ==> s[j] != c
    decreases n
  {
    if n == 0 then -1
    else if s[n - 1] == c then n - 1
    else
      assert s[..n] == s[..n - 1] + [s[n - 1]];
      LastIndexBelow(s, c, n - 1)
  }

  /** name.rsplit('.', 1)[0] if '.' in name else name: the name without its last extension. */
  function Stem(name: string): (stem: string)
    ensures '.' !in name ==> stem == name
    ensures '.' in name ==>
      |stem| < |name| && name[..|stem|] == stem && name[|stem|] == '.' && '.' !in name[|stem| + 1..]
  {
    if '.' in name then name[..LastIndexBelow(name, '.', |name|)] else name
  }

  /** Only the last extension is dropped, whatever dots come before it. */
  lemma StemDropsLastExtension(base: string, ext: string)
    requires '.' !in ext
    ensures Stem(base + "." + ext) == base
  {
    var name := base + "." + ext;
    assert name[|base|] == '.';
    var i := LastIndexBelow(name, '.', |name|);
    assert forall j :: |base| < j < |name| ==> name[j] == ext[j - |base| - 1];
    assert i == |base|;
    assert name[..|base|] == base;
  }

  /** The name offered for download. */
  function DownloadName(filename: string): string
  {
    "processed_" + Stem(filename) + ".jpg"
  }

  /** The Content-Disposition value: an RFC 5987 extended file name. */
  function ContentDisposition(filename: string): string
  {
    DISPOSITION_PREFIX + Quote(DownloadName(filename))
  }

  /** upload_image. */
  function UploadImage(decode: Decoder, enc: Encoder, form: UploadForm): Response
  {
    if |form.content| > MAX_UPLOAD_BYTES then Reject(PAYLOAD_TOO_LARGE)
    else if form.minSizeMb >= form.targetSizeMb then Reject(BAD_REQUEST)
    else
      var cropBox := BuildCropBox(form.x, form.y, form.width, form.height);
      match ProcessImage(decode, enc, form.content, form.targetSizeMb, cropBox, form.targetRatio, form.minSizeMb)
      case Err(InvalidImage) => Reject(BAD_REQUEST)
      case Err(ProcessingFailure) => Reject(INTERNAL_SERVER_ERROR)
      case Ok(out) => Attachment(ContentDisposition(form.filename), out)
  }

  /** The request passes the two checks made before processing. */
  predicate PassesGuards(form: UploadForm)
  {
    |form.content| <= MAX_UPLOAD_BYTES && form.minSizeMb < form.targetSizeMb
  }

  /** An oversized upload is a 413 whatever else it holds, and only an oversized one is. */
  lemma OversizeRejectedFirst(decode: Decoder, enc: Encoder, form: UploadForm)
    ensures UploadImage(decode, enc, form) == Reject(PAYLOAD_TOO_LARGE) <==> |form.content| > MAX_UPLOAD_BYTES
  {
  }

  /** Within the ceiling, a minimum not below the maximum is a 400, also when both are zero or less. */
  lemma EnvelopeRejected(decode: Decoder, enc: Encoder, form: UploadForm)
    requires |form.content| <= MAX_UPLOAD_BYTES && form.minSizeMb >= form.targetSizeMb
    ensures UploadImage(decode, enc, form) == Reject(BAD_REQUEST)
  {
  }

  /** After the checks the byte envelope is ordered, though truncation can make its ends equal. */
  lemma EnvelopeOrdered(form: UploadForm)
    requires PassesGuards(form)
    ensures MbToBytes(form.minSizeMb) <= MbToBytes(form.targetSizeMb)
  {
    MbToBytesMonotone(form.minSizeMb, form.targetSizeMb);
  }

  /**
    Past the checks: an undecodable upload is a 400, any other processing
    failure a 500, and a success sends the processed JPEG under the
    extended file name.
   */
  lemma ProcessingOutcome(decode: Decoder, enc: Encoder, form: UploadForm)
    requires PassesGuards(form)
    ensures var resp := UploadImage(decode, enc, form);
      var box := BuildCropBox(form.x, form.y, form.width, form.height);
      var processed := ProcessImage(decode, enc, form.content, form.targetSizeMb, box, form.targetRatio, form.minSizeMb);
      (resp == Reject(BAD_REQUEST) <==> decode(form.content).None?)
      && (resp == Reject(INTERNAL_SERVER_ERROR) <==> processed == Err(ProcessingFailure))
      && (resp.Attachment? <==> processed.Ok?)
      && (resp.Attachment? ==> resp.body == processed.value && resp.contentDisposition == ContentDisposition(form.filename))
  {
    var box := BuildCropBox(form.x, form.y, form.width, form.height);
    InvalidImageIffUndecodable(decode, enc, form.content, form.targetSizeMb, box, form.targetRatio, form.minSizeMb);
  }

  /** A form missing any crop field gets, on every path from 413 to the attachment, the response of the same form with no crop fields at all. */
  lemma PartialBoxSameResponse(decode: Decoder, enc: Encoder, form: UploadForm)
    requires form.x.None? || form.y.None? || form.width.None? || form.height.None?
    ensures UploadImage(decode, enc, form) == UploadImage(decode, enc, form.(x := None, y := None, width := None, height := None))
  {
  }

  /** Without all four crop fields the automatic crop runs. */
  lemma PartialBoxMeansAutoCrop(decode: Decoder, enc: Encoder, form: UploadForm)
    requires PassesGuards(form)
    requires form.x.None? || form.y.None? || form.width.None? || form.height.None?
    ensures var resp := UploadImage(decode, enc, form);
      var processed := ProcessImage(decode, enc, form.content, form.targetSizeMb, None, form.targetRatio, form.minSizeMb);
      (resp.Attachment? <==> processed.Ok?)
      && (resp.Attachment? ==> resp.body == processed.value)
  {
  }

  /**
    The header value is the RFC 5987 prefix followed by a percent-encoded
    name made only of safe characters and '%', which decodes back to the
    UTF-8 of "processed_" + stem + ".jpg".
   */
  lemma ContentDispositionDecodes(filename: string)
    ensures var h := ContentDisposition(filename);
      var p := |DISPOSITION_PREFIX|;
      |h| >= p && h[..p] == DISPOSITION_PREFIX
      && (forall i :: p <= i < |h| ==> Safe(h[i]) || h[i] == '%')
      && PercentDecode(h[p..]) == Some(Utf8("processed_" + Stem(filename) + ".jpg"))
  {
    var h := ContentDisposition(filename);
    var q := Quote(DownloadName(filename));
    var p := |DISPOSITION_PREFIX|;
    assert h[p..] == q;
    QuoteRoundTrip(DownloadName(filename));
    PercentEncodeAlphabet(Utf8(DownloadName(filename)));
    forall i | p <= i < |h|
      ensures Safe(h[i]) || h[i] == '%'
    {
      assert h[i] == q[i - p];
    }
  }

  /** Only the last extension goes: "a.b.png" has the stem "a.b". */
  lemma StemExample()
    ensures Stem("a.b.png") == "a.b" && Stem("photo") == "photo"
  {
    assert LastIndexBelow("a.b.png", '.', 7) == 3;
  }

  lemma Quote6E2C(s: string)
    requires s == "\U{6E2C}"
    ensures Quote(s) == "%E6%B8%AC"
  {
    var n := s[0] as int;
    assert n == 0x6E2C;
    assert 0xE0 + n / 4096 == 0xE6 && 0x80 + (n / 64) % 64 == 0xB8 && 0x80 + n % 64 == 0xAC;
    QuoteThreeByteScalar(s);
    assert Escape(0xE6) == "%E6";
    assert Escape(0xB8) == "%B8";
    assert Escape(0xAC) == "%AC";
  }

  lemma Quote8A66(s: string)
    requires s == "\U{8A66}"
    ensures Quote(s) == "%E8%A9%A6"
  {
    var n := s[0] as int;
    assert n == 0x8A66;
    assert 0xE0 + n / 4096 == 0xE8 && 0x80 + (n / 64) % 64 == 0xA9 && 0x80 + n % 64 == 0xA6;
    QuoteThreeByteScalar(s);
    assert Escape(0xE8) == "%E8";
    assert Escape(0xA9) == "%A9";
    assert Escape(0xA6) == "%A6";
  }

  lemma Quote5716(s: string)
    requires s == "\U{5716}"
    ensures Quote(s) == "%E5%9C%96"
  {
    var n := s[0] as int;
    assert n == 0x5716;
    assert 0xE0 + n / 4096 == 0xE5 && 0x80 + (n / 64) % 64 == 0x9C && 0x80 + n % 64 == 0x96;
    QuoteThreeByteScalar(s);
    assert Escape(0xE5) == "%E5";
    assert Escape(0x9C) == "%9C";
    assert Escape(0x96) == "%96";
  }

  lemma Quote7247(s: string)
    requires s == "\U{7247}"
    ensures Quote(s) == "%E7%89%87"
  {
    var n := s[0] as int;
    assert n == 0x7247;
    assert 0xE0 + n / 4096 == 0xE7 && 0x80 + (n / 64) % 64 == 0x89 && 0x80 + n % 64 == 0x87;
    QuoteThreeByteScalar(s);
    assert Escape(0xE7) == "%E7";
    assert Escape(0x89) == "%89";
    assert Escape(0x87) == "%87";
  }

  /** The four characters of the example name, quoted. */
  lemma QuoteExampleStem(a: string, b: string, c: string, d: string)
    requires a == "\U{6E2C}" && b == "\U{8A66}" && c == "\U{5716}" && d == "\U{7247}"
    ensures Quote(a + b + c + d) == "%E6%B8%AC" + "%E8%A9%A6" + "%E5%9C%96" + "%E7%89%87"
  {
    Quote6E2C(a);
    Quote8A66(b);
    Quote5716(c);
    Quote7247(d);
    QuoteAppend(a + b + c, d);
    QuoteAppend(a + b, c);
    QuoteAppend(a, b);
  }

  /** Text of safe characters around a quoted part is kept as it is. */
  lemma QuoteBetweenSafe(prefix: string, middle: string, suffix: string)
    requires forall i :: 0 <= i < |prefix| ==> Safe(prefix[i])
    requires forall i :: 0 <= i < |suffix| ==> Safe(suffix[i])
    ensures Quote(prefix + middle + suffix) == prefix + Quote(middle) + suffix
  {
    QuoteAppend(prefix + middle, suffix);
    QuoteAppend(prefix, middle);
    QuoteKeepsSafeText(prefix);
    QuoteKeepsSafeText(suffix);
  }

  /** The fixed parts of the download name are quoted as themselves. */
  lemma QuoteDownloadName(filename: string)
    ensures Quote(DownloadName(filename)) == "processed_" + Quote(Stem(filename)) + ".jpg"
  {
    var prefix, suffix := "processed_", ".jpg";
    assert forall i :: 0 <= i < |prefix| ==> Safe(prefix[i]);
    assert forall i :: 0 <= i < |suffix| ==> Safe(suffix[i]);
    QuoteBetweenSafe(prefix, Stem(filename), suffix);
  }

  /** The file name of four Chinese characters with ".jpg" gets its UTF-8 bytes percent-encoded. */
  lemma UnicodeFilenameExample(a: string, b: string, c: string, d: string)
    requires a == "\U{6E2C}" && b == "\U{8A66}" && c == "\U{5716}" && d == "\U{7247}"
    ensures ContentDisposition(a + b + c + d + ".jpg")
      == "attachment; filename*=UTF-8''" + ("processed_" + ("%E6%B8%AC" + "%E8%A9%A6" + "%E5%9C%96" + "%E7%89%87") + ".jpg")
  {
    var stem := a + b + c + d;
    var filename := stem + ".jpg";
    assert filename == stem + "." + "jpg";
    StemDropsLastExtension(stem, "jpg");
    QuoteExampleStem(a, b, c, d);
    QuoteDownloadName(filename);
  }
}

/** `doOCR` of server/src/services/ocrService.js: the policy that turns an
    uploaded PDF or image into text. The engines it calls (reading the file
    and pdf-parse, pdf-poppler's conversion with the directory listing that
    follows it, tesseract's `recognize`) are opaque functions passed in an
    `Engines` value; a ghost trace of `Call`s records which of them ran, in
    order. */
module OcrService {
  import opened Wrappers
  import opened JsStrings

  /** The error value a collaborator threw; `doOCR` re-throws it unchanged. */
  datatype Thrown = Thrown(message: string)

  datatype Engines = Engines(
    /** `pdfParse(fs.readFileSync(path))`: the PDF's text layer, `None`
        when `parsed.text` is missing. */
    textLayer: string -> Result<Option<string>, Thrown>,
    /** `pdfToImages` up to its filter: create the image directory, let
        poppler write one JPEG per page into it, and list the directory. */
    rasterize: string -> Result<seq<string>, Thrown>,
    /** `recognize(path, "eng")` of tesseract: `result.data.text`. */
    recognize: string -> Result<string, Thrown>)

  /** A collaborator invocation, as recorded in the trace. */
  datatype Call = ReadTextLayer(file: string) | Rasterize(file: string) | Recognize(image: string)

  const PdfMime := "application/pdf"
  /** The directory poppler writes page images to (`../../tmp_pdf_images`
      relative to the services directory). */
  const ImageDir := "tmp_pdf_images"
  /** A text layer counts only when its trimmed length exceeds this. */
  const MinTextLength := 5

  /** The PDF branch: the declared type is PDF, or the name ends in `.pdf`. */
  predicate IsPdf(filePath: string, mime: string) {
    mime == PdfMime || EndsWith(filePath, ".pdf")
  }

  /** The filter of `pdfToImages`: a page image of the file whose name (no
      directory, no extension) is `prefix`. */
  predicate IsPageImage(prefix: string, name: string) {
    StartsWith(name, prefix) && EndsWith(name, ".jpg")
  }

  function ImagePath(name: string): string {
    ImageDir + "/" + name
  }

  /** The page images of `pdfToImages`: the listed names that pass the
      filter for `prefix`, in listing order, joined onto the image
      directory. */
  function PageImages(prefix: string, listing: seq<string>): (images: seq<string>)
    ensures |images| <= |listing|
  {
    if |listing| == 0 then []
    else
      (if IsPageImage(prefix, listing[0]) then [ImagePath(listing[0])] else [])
      + PageImages(prefix, listing[1..])
  }

  /** `ocrImage`: the recognised text of one image, trimmed. */
  function OcrImage(e: Engines, image: string): (r: Result<string, Thrown>)
    ensures r.Ok? ==> IsTrimmed(r.value)
    ensures r.Err? <==> e.recognize(image).Err?
    ensures r.Err? ==> r.error == e.recognize(image).error
  {
    match e.recognize(image)
    case Ok(t) => Ok(Trim(t))
    case Err(x) => Err(x)
  }

  /** What `ocrImage` yields for each page image, in order: the outcome the
      page loop meets if it gets that far. */
  function PageOutcomes(e: Engines, images: seq<string>): (rs: seq<Result<string, Thrown>>)
    ensures |rs| == |images|
    ensures forall k :: 0 <= k < |images| ==> rs[k] == OcrImage(e, images[k])
  {
    if |images| == 0 then [] else [OcrImage(e, images[0])] + PageOutcomes(e, images[1..])
  }

  /** What the page loop makes of the pages' outcomes: each text followed by
      `"\n"`, in order; the first failure ends it with its error. */
  function Accumulate(rs: seq<Result<string, Thrown>>): Result<string, Thrown> {
    if |rs| == 0 then Ok("")
    else
      match rs[0]
      case Err(x) => Err(x)
      case Ok(t) =>
        match Accumulate(rs[1..])
        case Err(x) => Err(x)
        case Ok(rest) => Ok(t + "\n" + rest)
  }

  /** The recognitions the page loop starts, given the pages' outcomes: one
      per page, in order, up to and including the first that fails. */
  ghost function LoopCalls(images: seq<string>, rs: seq<Result<string, Thrown>>): seq<Call>
    requires |rs| == |images|
  {
    if |images| == 0 then []
    else [Recognize(images[0])] + (if rs[0].Err? then [] else LoopCalls(images[1..], rs[1..]))
  }

  /** The page loop's text, or the error that ended it. */
  function PagesText(e: Engines, images: seq<string>): Result<string, Thrown> {
    Accumulate(PageOutcomes(e, images))
  }

  ghost function PageCalls(e: Engines, images: seq<string>): seq<Call> {
    LoopCalls(images, PageOutcomes(e, images))
  }

  /** `parsed.text && parsed.text.trim().length > 5`, the length counted in
      UTF-16 code units as JavaScript does. */
  predicate HasSelectableText(text: Option<string>) {
    text.Some? && text.value != "" && Utf16Length(Trim(text.value)) > MinTextLength
  }

  /** The text `doOCR` returns, or the error it throws. */
  function Extract(filePath: string, mime: string, e: Engines): (r: Result<string, Thrown>)
    ensures r.Ok? ==> IsTrimmed(r.value)
  {
    if IsPdf(filePath, mime) then
      match e.textLayer(filePath)
      case Err(x) => Err(x)
      case Ok(text) =>
        if HasSelectableText(text) then Ok(Trim(text.value))
        else
          match e.rasterize(filePath)
          case Err(x) => Err(x)
          case Ok(listing) =>
            match PagesText(e, PageImages(Stem(filePath), listing))
            case Err(x) => Err(x)
            case Ok(s) => Ok(Trim(s))
    else
      OcrImage(e, filePath)
  }

  /** The collaborators `doOCR` invokes, in order. */
  ghost function ExtractCalls(filePath: string, mime: string, e: Engines): seq<Call> {
    if IsPdf(filePath, mime) then
      match e.textLayer(filePath)
      case Err(_) => [ReadTextLayer(filePath)]
      case Ok(text) =>
        if HasSelectableText(text) then [ReadTextLayer(filePath)]
        else
          match e.rasterize(filePath)
          case Err(_) => [ReadTextLayer(filePath), Rasterize(filePath)]
          case Ok(listing) =>
            [ReadTextLayer(filePath), Rasterize(filePath)] + PageCalls(e, PageImages(Stem(filePath), listing))
    else
      [Recognize(filePath)]
  }

  /** `doOCR(filePath, mime)`. */
  method DoOcr(filePath: string, mime: string, e: Engines) returns (r: Result<string, Thrown>, ghost calls: seq<Call>)
    ensures r == Extract(filePath, mime, e)
    ensures calls == ExtractCalls(filePath, mime, e)
  {
    if IsPdf(filePath, mime) {
      calls := [ReadTextLayer(filePath)];
      var parsed := e.textLayer(filePath);
      if parsed.Err? {
        return Err(parsed.error), calls;
      }
      var text := parsed.value;
      if HasSelectableText(text) {
        return Ok(Trim(text.value)), calls;
      }
      calls := [ReadTextLayer(filePath), Rasterize(filePath)];
      var listed := e.rasterize(filePath);
      if listed.Err? {
        return Err(listed.error), calls;
      }
      var images := PageImages(Stem(filePath), listed.value);
      var pages, pageCalls := OcrPages(e, images);
      calls := calls + pageCalls;
      if pages.Err? {
        return Err(pages.error), calls;
      }
      r := Ok(Trim(pages.value));
    } else {
      calls := [Recognize(filePath)];
      var res := e.recognize(filePath);
      if res.Err? {
        return Err(res.error), calls;
      }
      r := Ok(Trim(res.value));
    }
  }

  /** The page loop of `doOCR`: recognise each page image in order and
      append its text and a `"\n"` to `finalText`; a failing recognition
      ends the loop by throwing. */
  method OcrPages(e: Engines, images: seq<string>) returns (r: Result<string, Thrown>, ghost calls: seq<Call>)
    ensures r == PagesText(e, images)
    ensures calls == PageCalls(e, images)
  {
    ghost var rs := PageOutcomes(e, images);
    calls := [];
    var finalText := "";
    for i := 0 to |images|
      invariant Accumulate(rs[..i]) == Ok(finalText)
      invariant calls == LoopCalls(images[..i], rs[..i])
    {
      calls := calls + [Recognize(images[i])];
      var txt := OcrImage(e, images[i]);
      assert txt == rs[i];
      if txt.Err? {
        AccumulateStopAt(rs, i);
        LoopCallsStopAt(images, rs, i);
        return Err(txt.error), calls;
      }
      AccumulateStep(rs, i);
      LoopCallsStep(images, rs, i);
      finalText := finalText + txt.value + "\n";
    }
    assert images[..|images|] == images && rs[..|rs|] == rs;
    r := Ok(finalText);
  }

  /** The loop over `a + b` is the loop over `a`, then, unless that threw,
      the loop over `b`. */
  lemma {:induction false} AccumulateAppend(a: seq<Result<string, Thrown>>, b: seq<Result<string, Thrown>>)
    ensures Accumulate(a + b) ==
      match Accumulate(a)
      case Err(x) => Err(x)
      case Ok(s) =>
        match Accumulate(b)
        case Err(x) => Err(x)
        case Ok(t) => Ok(s + t)
  {
    if |a| == 0 {
      assert a + b == b;
      if Accumulate(b).Ok? {
        assert "" + Accumulate(b).value == Accumulate(b).value;
      }
    } else {
      assert (a + b)[0] == a[0];
      assert (a + b)[1..] == a[1..] + b;
      AccumulateAppend(a[1..], b);
      match a[0]
      case Err(_) =>
      case Ok(t) =>
        match Accumulate(a[1..])
        case Err(_) =>
        case Ok(s) =>
          match Accumulate(b)
          case Err(_) =>
          case Ok(u) =>
            assert t + "\n" + (s + u) == (t + "\n" + s) + u;
    }
  }

  /** The recognitions over `a + b` are those over `a`, then, unless the
      loop threw in `a`, those over `b`. */
  lemma {:induction false} LoopCallsAppend(ia: seq<string>, ra: seq<Result<string, Thrown>>,
                                           ib: seq<string>, rb: seq<Result<string, Thrown>>)
    requires |ra| == |ia| && |rb| == |ib|
    ensures LoopCalls(ia + ib, ra + rb) == LoopCalls(ia, ra) + (if Accumulate(ra).Ok? then LoopCalls(ib, rb) else [])
  {
    if |ia| == 0 {
      assert ia + ib == ib && ra + rb == rb;
    } else {
      assert (ia + ib)[0] == ia[0] && (ra + rb)[0] == ra[0];
      assert (ia + ib)[1..] == ia[1..] + ib && (ra + rb)[1..] == ra[1..] + rb;
      LoopCallsAppend(ia[1..], ra[1..], ib, rb);
    }
  }

  /** One more recognised page appends its text and a `"\n"`. */
  lemma AccumulateStep(rs: seq<Result<string, Thrown>>, i: nat)
    requires i < |rs| && Accumulate(rs[..i]).Ok? && rs[i].Ok?
    ensures Accumulate(rs[..i + 1]) == Ok(Accumulate(rs[..i]).value + rs[i].value + "\n")
  {
    var one := [rs[i]];
    assert one[1..] == [];
    assert Accumulate(one) == Ok(rs[i].value + "\n" + "");
    AccumulateAppend(rs[..i], one);
    assert rs[..i] + one == rs[..i + 1];
    var s := Accumulate(rs[..i]).value;
    assert s + (rs[i].value + "\n" + "") == s + rs[i].value + "\n";
  }

  /** One more recognised page adds its recognition to the trace. */
  lemma LoopCallsStep(images: seq<string>, rs: seq<Result<string, Thrown>>, i: nat)
    requires |rs| == |images| && i < |images| && Accumulate(rs[..i]).Ok?
    ensures LoopCalls(images[..i + 1], rs[..i + 1]) == LoopCalls(images[..i], rs[..i]) + [Recognize(images[i])]
  {
    var one, img := [rs[i]], [images[i]];
    assert one[1..] == [] && img[1..] == [];
    assert LoopCalls(img, one) == [Recognize(images[i])];
    LoopCallsAppend(images[..i], rs[..i], img, one);
    assert rs[..i] + one == rs[..i + 1];
    assert images[..i] + img == images[..i + 1];
  }

  /** A page whose recognition fails ends the loop with its error. */
  lemma AccumulateStopAt(rs: seq<Result<string, Thrown>>, i: nat)
    requires i < |rs| && Accumulate(rs[..i]).Ok? && rs[i].Err?
    ensures Accumulate(rs) == Err(rs[i].error)
  {
    var rest := rs[i..];
    assert rest[0] == rs[i];
    assert Accumulate(rest) == Err(rs[i].error);
    AccumulateAppend(rs[..i], rest);
    assert rs[..i] + rest == rs;
  }

  /** A page whose recognition fails is the last one recognised. */
  lemma LoopCallsStopAt(images: seq<string>, rs: seq<Result<string, Thrown>>, i: nat)
    requires |rs| == |images| && i < |images| && Accumulate(rs[..i]).Ok? && rs[i].Err?
    ensures LoopCalls(images, rs) == LoopCalls(images[..i], rs[..i]) + [Recognize(images[i])]
  {
    var rest, restImages := rs[i..], images[i..];
    assert rest[0] == rs[i] && restImages[0] == images[i];
    assert LoopCalls(restImages, rest) == [Recognize(images[i])];
    LoopCallsAppend(images[..i], rs[..i], restImages, rest);
    assert rs[..i] + rest == rs;
    assert images[..i] + restImages == images;
  }

  /** The loop finishes without throwing exactly when no page fails. */
  lemma {:induction false} AccumulateOkIff(rs: seq<Result<string, Thrown>>)
    ensures Accumulate(rs).Ok? <==> forall k :: 0 <= k < |rs| ==> rs[k].Ok?
  {
    if |rs| > 0 {
      AccumulateOkIff(rs[1..]);
      assert forall k :: 0 < k < |rs| ==> rs[1..][k - 1] == rs[k];
    }
  }

  /** When every page is recognised, the loop's text is the pages' texts
      joined with `"\n"`, plus a final `"\n"`. */
  lemma {:induction false} AccumulateAllOk(rs: seq<Result<string, Thrown>>, texts: seq<string>)
    requires |texts| == |rs|
    requires forall k :: 0 <= k < |rs| ==> rs[k] == Ok(texts[k])
    ensures Accumulate(rs) == Ok(if |rs| == 0 then "" else Join(texts, '\n') + "\n")
  {
    if |rs| > 0 {
      var t0 := texts[0];
      assert rs[0] == Ok(t0);
      forall k | 0 <= k < |rs[1..]| ensures rs[1..][k] == Ok(texts[1..][k]) {
        assert rs[1..][k] == rs[k + 1];
      }
      AccumulateAllOk(rs[1..], texts[1..]);
      if |rs| == 1 {
        assert Accumulate(rs[1..]) == Ok("");
        assert t0 + "\n" + "" == Join(texts, '\n') + "\n";
      } else {
        var tail := Join(texts[1..], '\n');
        assert Accumulate(rs[1..]) == Ok(tail + "\n");
        assert Join(texts, '\n') == t0 + "\n" + tail;
        assert t0 + "\n" + (tail + "\n") == (t0 + "\n" + tail) + "\n";
      }
    }
  }

  /** The loop's recognitions: page by page from the first, none skipped;
      all before the last succeeded; all pages when the loop did not throw,
      and otherwise the last one is the failure the loop threw. */
  lemma {:induction false} LoopCallsShape(images: seq<string>, rs: seq<Result<string, Thrown>>)
    requires |rs| == |images|
    ensures |LoopCalls(images, rs)| <= |images|
    ensures forall k :: 0 <= k < |LoopCalls(images, rs)| ==> LoopCalls(images, rs)[k] == Recognize(images[k])
    ensures forall k :: 0 <= k < |LoopCalls(images, rs)| - 1 ==> rs[k].Ok?
    ensures Accumulate(rs).Ok? ==> |LoopCalls(images, rs)| == |rs|
    ensures Accumulate(rs).Err? ==>
      |LoopCalls(images, rs)| > 0 && rs[|LoopCalls(images, rs)| - 1] == Err(Accumulate(rs).error)
  {
    if |images| > 0 {
      LoopCallsShape(images[1..], rs[1..]);
      if rs[0].Ok? {
        var calls := LoopCalls(images, rs);
        var tail := LoopCalls(images[1..], rs[1..]);
        assert calls == [Recognize(images[0])] + tail;
        forall k | 0 < k < |calls| ensures calls[k] == Recognize(images[k]) && (k < |calls| - 1 ==> rs[k].Ok?) {
          assert calls[k] == tail[k - 1];
          assert images[1..][k - 1] == images[k];
          assert rs[1..][k - 1] == rs[k];
        }
        if Accumulate(rs[1..]).Err? {
          assert rs[1..][|tail| - 1] == rs[|calls| - 1];
        }
      }
    }
  }

  /** The error a call threw, if it threw. */
  ghost function CallError(e: Engines, c: Call): Option<Thrown> {
    match c
    case ReadTextLayer(f) => if e.textLayer(f).Err? then Some(e.textLayer(f).error) else None
    case Rasterize(f) => if e.rasterize(f).Err? then Some(e.rasterize(f).error) else None
    case Recognize(i) => if e.recognize(i).Err? then Some(e.recognize(i).error) else None
  }

  /** A page's recognition threw exactly when its outcome is a failure, with
      that error. */
  lemma PageCallError(e: Engines, images: seq<string>, k: nat)
    requires k < |images|
    ensures var o := PageOutcomes(e, images)[k];
      CallError(e, Recognize(images[k])) == if o.Err? then Some(o.error) else None
  {
  }

  /** In the page loop, every recognition but the last succeeded, and the
      last threw exactly when the loop did, with the loop's error. */
  lemma PageCallsFailLast(e: Engines, images: seq<string>)
    ensures forall k :: 0 <= k < |PageCalls(e, images)| - 1 ==> CallError(e, PageCalls(e, images)[k]) == None
    ensures PagesText(e, images).Ok? ==>
      forall k :: 0 <= k < |PageCalls(e, images)| ==> CallError(e, PageCalls(e, images)[k]) == None
    ensures PagesText(e, images).Err? ==>
      |PageCalls(e, images)| > 0 && CallError(e, PageCalls(e, images)[|PageCalls(e, images)| - 1]) == Some(PagesText(e, images).error)
  {
    var rs := PageOutcomes(e, images);
    var calls := PageCalls(e, images);
    LoopCallsShape(images, rs);
    AccumulateOkIff(rs);
    forall k | 0 <= k < |calls| ensures CallError(e, calls[k]) == if rs[k].Err? then Some(rs[k].error) else None {
      PageCallError(e, images, k);
    }
  }

  /** Every call of the trace but the last succeeded, and the last threw
      exactly when `r` is a failure, with `r`'s error. */
  ghost predicate OnlyLastThrows(e: Engines, calls: seq<Call>, r: Result<string, Thrown>) {
    && |calls| > 0
    && (forall k :: 0 <= k < |calls| - 1 ==> CallError(e, calls[k]) == None)
    && CallError(e, calls[|calls| - 1]) == (if r.Err? then Some(r.error) else None)
  }

  /** Failures are re-thrown, never swallowed: every collaborator call but
      the last succeeded, and the last threw exactly when `doOCR` throws,
      with the same error. */
  lemma ErrorsRethrown(filePath: string, mime: string, e: Engines)
    ensures OnlyLastThrows(e, ExtractCalls(filePath, mime, e), Extract(filePath, mime, e))
  {
    if IsPdf(filePath, mime) && e.textLayer(filePath).Ok? && !HasSelectableText(e.textLayer(filePath).value)
      && e.rasterize(filePath).Ok?
    {
      var images := PageImages(Stem(filePath), e.rasterize(filePath).value);
      ScannedRethrows(e, filePath, images, ExtractCalls(filePath, mime, e), Extract(filePath, mime, e));
    }
  }

  /** The scanned-PDF branch of ErrorsRethrown: after a successful text-layer
      read and rasterisation, only the page loop can throw, and `doOCR`
      throws what it throws. */
  lemma ScannedRethrows(e: Engines, filePath: string, images: seq<string>, calls: seq<Call>, r: Result<string, Thrown>)
    requires e.textLayer(filePath).Ok? && e.rasterize(filePath).Ok?
    requires calls == [ReadTextLayer(filePath), Rasterize(filePath)] + PageCalls(e, images)
    requires PagesText(e, images).Err? ==> r == Err(PagesText(e, images).error)
    requires PagesText(e, images).Ok? ==> r.Ok?
    ensures OnlyLastThrows(e, calls, r)
  {
    var pages := PageCalls(e, images);
    PageCallsFailLast(e, images);
    var pre := [ReadTextLayer(filePath), Rasterize(filePath)];
    forall k | 0 <= k < |pre| ensures CallError(e, pre[k]) == None {
      if k == 0 {} else { assert pre[k] == Rasterize(filePath); }
    }
    CallsAfterSuccesses(e, pre, pages);
  }

  /** Calls that all succeeded, followed by calls of which only the last may
      have failed: only the last of the whole may have failed, and it is the
      last of the second part. */
  lemma CallsAfterSuccesses(e: Engines, pre: seq<Call>, post: seq<Call>)
    requires forall k :: 0 <= k < |pre| ==> CallError(e, pre[k]) == None
    requires forall k :: 0 <= k < |post| - 1 ==> CallError(e, post[k]) == None
    ensures forall k :: 0 <= k < |pre + post| - 1 ==> CallError(e, (pre + post)[k]) == None
    ensures |post| > 0 ==> (pre + post)[|pre + post| - 1] == post[|post| - 1]
  {
    forall k | 0 <= k < |pre + post| - 1 ensures CallError(e, (pre + post)[k]) == None {
      if k >= |pre| {
        assert (pre + post)[k] == post[k - |pre|];
      }
    }
  }

  /** The PDF branch, whose first act is reading the text layer, is taken
      exactly when the type is PDF or the name ends in `.pdf`; an image
      type with a `.pdf` name still takes it. */
  lemma PdfBranchIff(filePath: string, mime: string, e: Engines)
    ensures ExtractCalls(filePath, mime, e)[0].ReadTextLayer? <==> (mime == PdfMime || EndsWith(filePath, ".pdf"))
    ensures IsPdf("scan.pdf", "image/png")
  {
    assert "scan.pdf"[|"scan.pdf"| - 4..] == ".pdf";
  }

  /** Fast path: a text layer longer than five characters once trimmed is
      returned trimmed, and nothing is rasterised or recognised. */
  lemma FastPath(filePath: string, mime: string, e: Engines, text: string)
    requires IsPdf(filePath, mime)
    requires e.textLayer(filePath) == Ok(Some(text))
    requires Utf16Length(Trim(text)) > MinTextLength
    ensures Extract(filePath, mime, e) == Ok(Trim(text))
    ensures ExtractCalls(filePath, mime, e) == [ReadTextLayer(filePath)]
  {
    assert text != "";
  }

  /** At five trimmed characters or fewer, or with no text layer, the file is
      rasterised. */
  lemma ShortTextRasterises(filePath: string, mime: string, e: Engines, text: Option<string>)
    requires IsPdf(filePath, mime)
    requires e.textLayer(filePath) == Ok(text)
    requires text.None? || Utf16Length(Trim(text.value)) <= MinTextLength
    ensures |ExtractCalls(filePath, mime, e)| >= 2 && ExtractCalls(filePath, mime, e)[1] == Rasterize(filePath)
  {
  }

  /** `s + "\n"` trims like `s`. */
  lemma TrimNewlineEnd(s: string)
    ensures Trim(s + "\n") == Trim(s)
  {
    var k := LeadingWhitespace(s);
    var r := Trim(s);
    TrimDecompose(s);
    var post := s[k + |r|..];
    assert AllWhitespace(post + "\n");
    assert s + "\n" == s[..k] + r + (post + "\n");
    TrimUnique(s[..k], r, post + "\n");
  }

  /** Scanned PDF: with every page recognised, the result is the trimmed
      join, in listing order, of the pages' trimmed texts with `"\n"`
      between them. */
  lemma ScannedPdfText(filePath: string, mime: string, e: Engines, listing: seq<string>, images: seq<string>, texts: seq<string>)
    requires IsPdf(filePath, mime)
    requires e.textLayer(filePath).Ok? && !HasSelectableText(e.textLayer(filePath).value)
    requires e.rasterize(filePath) == Ok(listing) && images == PageImages(Stem(filePath), listing)
    requires |texts| == |images| && forall k :: 0 <= k < |images| ==> OcrImage(e, images[k]) == Ok(texts[k])
    ensures Extract(filePath, mime, e) == Ok(Trim(Join(texts, '\n')))
  {
    var rs := PageOutcomes(e, images);
    forall k | 0 <= k < |rs| ensures rs[k] == Ok(texts[k]) {
      assert rs[k] == OcrImage(e, images[k]);
    }
    AccumulateAllOk(rs, texts);
    if |images| > 0 {
      TrimNewlineEnd(Join(texts, '\n'));
    }
  }

  /** Scanned PDF: each page image is recognised once, in listing order,
      after the text layer was read and the file rasterised. */
  lemma ScannedPdfCalls(filePath: string, mime: string, e: Engines, listing: seq<string>, images: seq<string>)
    requires IsPdf(filePath, mime)
    requires e.textLayer(filePath).Ok? && !HasSelectableText(e.textLayer(filePath).value)
    requires e.rasterize(filePath) == Ok(listing) && images == PageImages(Stem(filePath), listing)
    requires forall k :: 0 <= k < |images| ==> e.recognize(images[k]).Ok?
    ensures |ExtractCalls(filePath, mime, e)| == 2 + |images|
    ensures ExtractCalls(filePath, mime, e)[0] == ReadTextLayer(filePath)
    ensures ExtractCalls(filePath, mime, e)[1] == Rasterize(filePath)
    ensures forall k :: 0 <= k < |images| ==> ExtractCalls(filePath, mime, e)[2 + k] == Recognize(images[k])
  {
    ReadRasterizeThenPages(e, filePath, images, ExtractCalls(filePath, mime, e));
  }

  /** A trace made of the text-layer read, the rasterisation and a page loop
      in which no recognition fails: the two, then every page once, in
      order. */
  lemma ReadRasterizeThenPages(e: Engines, filePath: string, images: seq<string>, calls: seq<Call>)
    requires forall k :: 0 <= k < |images| ==> e.recognize(images[k]).Ok?
    requires calls == [ReadTextLayer(filePath), Rasterize(filePath)] + PageCalls(e, images)
    ensures |calls| == 2 + |images|
    ensures calls[0] == ReadTextLayer(filePath) && calls[1] == Rasterize(filePath)
    ensures forall k :: 0 <= k < |images| ==> calls[2 + k] == Recognize(images[k])
  {
    var pages := PageCalls(e, images);
    PageCallsAllRecognised(e, images);
    forall k | 0 <= k < |images| ensures calls[2 + k] == Recognize(images[k]) {
      assert calls[2 + k] == pages[k];
    }
  }

  /** When no recognition fails, each page is recognised once, in order. */
  lemma PageCallsAllRecognised(e: Engines, images: seq<string>)
    requires forall k :: 0 <= k < |images| ==> e.recognize(images[k]).Ok?
    ensures |PageCalls(e, images)| == |images|
    ensures forall k :: 0 <= k < |images| ==> PageCalls(e, images)[k] == Recognize(images[k])
  {
    var rs := PageOutcomes(e, images);
    forall k | 0 <= k < |rs| ensures rs[k].Ok? {
      assert rs[k] == OcrImage(e, images[k]);
    }
    AccumulateOkIff(rs);
    LoopCallsShape(images, rs);
  }

  /** Image input: the trimmed recognised text of the file itself, after one
      recognition. */
  lemma ImageInput(filePath: string, mime: string, e: Engines)
    requires !IsPdf(filePath, mime)
    ensures Extract(filePath, mime, e) ==
      match e.recognize(filePath)
      case Ok(t) => Ok(Trim(t))
      case Err(x) => Err(x)
    ensures ExtractCalls(filePath, mime, e) == [Recognize(filePath)]
  {
  }

  /** The page images keep the listing's order. */
  lemma {:induction false} PageImagesAppend(prefix: string, a: seq<string>, b: seq<string>)
    ensures PageImages(prefix, a + b) == PageImages(prefix, a) + PageImages(prefix, b)
  {
    if |a| == 0 {
      assert a + b == b;
    } else {
      var h := if IsPageImage(prefix, a[0]) then [ImagePath(a[0])] else [];
      assert (a + b)[0] == a[0];
      assert (a + b)[1..] == a[1..] + b;
      assert PageImages(prefix, a + b) == h + PageImages(prefix, a[1..] + b);
      PageImagesAppend(prefix, a[1..], b);
      assert h + (PageImages(prefix, a[1..]) + PageImages(prefix, b))
        == (h + PageImages(prefix, a[1..])) + PageImages(prefix, b);
    }
  }

  /** The page images are exactly the listed names that start with the
      prefix and end with `.jpg`. */
  lemma {:induction false} PageImagesExactly(prefix: string, listing: seq<string>, name: string)
    ensures ImagePath(name) in PageImages(prefix, listing)
      <==> name in listing && IsPageImage(prefix, name)
  {
    if |listing| > 0 {
      PageImagesExactly(prefix, listing[1..], name);
      var d := ImageDir + "/";
      assert ImagePath(listing[0]) == ImagePath(name) ==> listing[0] == name by {
        if ImagePath(listing[0]) == ImagePath(name) {
          assert listing[0] == ImagePath(listing[0])[|d|..];
        }
      }
      assert listing == [listing[0]] + listing[1..];
    }
  }
}

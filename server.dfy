/** The `/api/brief` handler of server/index.ts. The whole file sits inside a block
    comment, so this is the sequence it spells out: scrub the job description,
    generate the brief, render the PDF, store it under a slug-derived path, sign a
    share URL, and answer with the PDF and four headers; any failure becomes a 500
    with one fixed message. Storage and signing are the stubs of
    server/storage.ts, taken here as collaborators that may succeed or fail. */
module Server {
  import opened Common
  import opened Regex
  import Scrub
  import BriefTypes
  import Gemini
  import Pdf

  // ---------------------------------------------------------------------------
  // Names derived from the request

  /** The text the slug is made from: the timestamp, a hyphen and the company,
      or `brief` when no company was given. */
  function SlugSource(now: nat, company: Option<string>): string
  {
    NatToDecimal(now) + "-" + OrDefault(company, "brief")
  }

  /** Every whitespace run becomes one hyphen, then the text is lower-cased. */
  function Slug(now: nat, company: Option<string>): string
  {
    LowerAscii(ReplaceAll(Plus(Space), SlugSource(now, company), "-"))
  }

  const PathPrefix := "briefs/"
  const PdfSuffix := ".pdf"

  /** The storage path of a brief. */
  function GcsPath(slug: string): (path: string)
    ensures |path| == |PathPrefix| + |slug| + |PdfSuffix|
  {
    PathPrefix + slug + PdfSuffix
  }

  /** The slug a storage path was made from; `None` for any other text. */
  function SlugOfPath(path: string): (r: Option<string>)
    ensures r.Some? ==> GcsPath(r.value) == path
  {
    if |path| >= |PathPrefix| + |PdfSuffix|
       && path[..|PathPrefix|] == PathPrefix
       && path[|path| - |PdfSuffix|..] == PdfSuffix
    then
      var slug := path[|PathPrefix|..|path| - |PdfSuffix|];
      assert path == path[..|PathPrefix|] + slug + path[|path| - |PdfSuffix|..];
      Some(slug)
    else None
  }

  /** The date part of an ISO timestamp: the text before the first `T`, or the
      whole text when there is none. */
  function DatePart(iso: string): (r: string)
    ensures |r| <= |iso| && r == iso[..|r|]
    ensures forall k :: 0 <= k < |r| ==> r[k] != 'T'
    ensures |r| < |iso| ==> iso[|r|] == 'T'
  {
    if iso == [] || iso[0] == 'T' then []
    else [iso[0]] + DatePart(iso[1..])
  }

  const FilenamePrefix := "whyjosh-"

  /** The download name; unlike the slug it is neither whitespace-normalised nor
      lower-cased. */
  function Filename(company: Option<string>, role: Option<string>, iso: string): string
  {
    FilenameOf(OrDefault(company, "company"), OrDefault(role, "role"), DatePart(iso))
  }

  /** The download name for a company, a role and a date. */
  function FilenameOf(company: string, role: string, date: string): string
  {
    FilenamePrefix + company + ("-" + role + ("-" + date + PdfSuffix))
  }

  function ContentDisposition(filename: string): string
  {
    "attachment; filename=\"" + filename + "\""
  }

  // ---------------------------------------------------------------------------
  // What the derived names guarantee

  /** Lower-casing keeps a character that is not whitespace free of whitespace. */
  lemma LowerCharKeepsNonSpace(c: char)
    requires !IsSpace(c)
    ensures !IsSpace(LowerChar(c))
  {
  }

  /** The slug has no whitespace and no upper-case ASCII letter. */
  lemma SlugIsNormalised(now: nat, company: Option<string>)
    ensures forall k :: 0 <= k < |Slug(now, company)| ==> !IsSpace(Slug(now, company)[k])
    ensures forall k :: 0 <= k < |Slug(now, company)| ==> !IsAsciiUpper(Slug(now, company)[k])
  {
    var src := SlugSource(now, company);
    forall n | 0 <= n < |src| && InClass(Space, src[n])
      ensures Match(Plus(Space), src, n).Some? && Match(Plus(Space), src, n).value > n
    {
      PlusMatchesClassChar(Space, src, n);
    }
    assert !HasClassChar(Space, "-");
    ReplaceRemovesClass(Plus(Space), Space, src, 0, "-");
    var replaced := ReplaceAll(Plus(Space), src, "-");
    forall k | 0 <= k < |replaced| ensures !IsSpace(Slug(now, company)[k]) {
      assert !InClass(Space, replaced[k]);
      LowerCharKeepsNonSpace(replaced[k]);
    }
  }

  /** Lower-casing keeps a prefix that has no upper-case letter. */
  lemma LowerAsciiKeepsPrefix(x: string, p: string)
    requires |p| <= |x| && x[..|p|] == p
    requires forall k :: 0 <= k < |p| ==> !IsAsciiUpper(p[k])
    ensures LowerAscii(x)[..|p|] == p
  {
    forall k | 0 <= k < |p| ensures LowerAscii(x)[k] == p[k] {
      assert x[k] == p[k];
    }
  }

  /** The slug begins with the timestamp's digits and a hyphen. */
  lemma SlugStartsWithTimestamp(now: nat, company: Option<string>)
    ensures |NatToDecimal(now)| < |Slug(now, company)|
    ensures Slug(now, company)[..|NatToDecimal(now)| + 1] == NatToDecimal(now) + "-"
  {
    var src := SlugSource(now, company);
    var stamp := NatToDecimal(now) + "-";
    NatToDecimalDigits(now);
    assert src[..|stamp|] == stamp;
    KeepClassFreePrefix(Space, src, |stamp|, "-");
    LowerAsciiKeepsPrefix(ReplaceAll(Plus(Space), src, "-"), stamp);
  }

  /** A company name without whitespace reaches the slug only lower-cased; every
      other character, `/` included, stays where it was. */
  lemma SlugKeepsSpaceFreeCompany(now: nat, company: string)
    requires company != [] && !HasClassChar(Space, company)
    ensures Slug(now, Some(company)) == LowerAscii(NatToDecimal(now) + "-" + company)
  {
    var src := SlugSource(now, Some(company));
    NatToDecimalDigits(now);
    assert !HasClassChar(Space, src) by {
      forall n | 0 <= n < |src| ensures !InClass(Space, src[n]) {
        var p := |NatToDecimal(now)| + 1;
        if n >= p {
          assert src[n] == company[n - p];
        }
      }
    }
    KeepWithoutClass(Space, src, "-");
  }

  /** A run of whitespace inside the company name becomes a single hyphen. */
  lemma SlugCollapsesWhitespaceRun(now: nat, a: string, w: string, c: string)
    requires !HasClassChar(Space, a) && !HasClassChar(Space, c)
    requires w != [] && AllIn(Space, w)
    ensures Slug(now, Some(a + w + c)) == LowerAscii(NatToDecimal(now) + "-" + a + "-" + c)
  {
    var stamp := NatToDecimal(now) + "-";
    NatToDecimalDigits(now);
    assert !HasClassChar(Space, stamp + a) by {
      forall n | 0 <= n < |stamp + a| ensures !InClass(Space, (stamp + a)[n]) {
        if n >= |stamp| {
          assert (stamp + a)[n] == a[n - |stamp|];
        }
      }
    }
    assert SlugSource(now, Some(a + w + c)) == (stamp + a) + w + c;
    CollapseRun(Space, stamp + a, w, c, "-");
  }

  /** The slug can be read back from the storage path. */
  lemma PathRoundTrip(slug: string)
    ensures SlugOfPath(GcsPath(slug)) == Some(slug)
  {
    var path := GcsPath(slug);
    assert path[..|PathPrefix|] == PathPrefix;
    assert path[|path| - |PdfSuffix|..] == PdfSuffix;
    assert path[|PathPrefix|..|path| - |PdfSuffix|] == slug;
  }

  /** The storage path of a slug without whitespace has none either. */
  lemma GcsPathKeepsNoWhitespace(slug: string)
    requires forall k :: 0 <= k < |slug| ==> !IsSpace(slug[k])
    ensures forall k :: 0 <= k < |GcsPath(slug)| ==> !IsSpace(GcsPath(slug)[k])
  {
    forall k | 0 <= k < |GcsPath(slug)| ensures !IsSpace(GcsPath(slug)[k]) {
      if |PathPrefix| <= k < |PathPrefix| + |slug| {
        assert GcsPath(slug)[k] == slug[k - |PathPrefix|];
      }
    }
  }

  /** The storage path has no whitespace, since neither the slug nor its frame has any. */
  lemma PathHasNoWhitespace(now: nat, company: Option<string>)
    ensures forall k :: 0 <= k < |GcsPath(Slug(now, company))| ==> !IsSpace(GcsPath(Slug(now, company))[k])
  {
    SlugIsNormalised(now, company);
    GcsPathKeepsNoWhitespace(Slug(now, company));
  }

  /** The company and role appear in the download name verbatim, after
      `whyjosh-`, and the name ends with the date and `.pdf`. */
  lemma FilenameOfLayout(company: string, role: string, date: string)
    ensures OccursAt(FilenameOf(company, role, date), FilenamePrefix, 0)
    ensures OccursAt(FilenameOf(company, role, date), company, |FilenamePrefix|)
    ensures OccursAt(FilenameOf(company, role, date), role, |FilenamePrefix| + |company| + 1)
    ensures OccursAt(FilenameOf(company, role, date), date + PdfSuffix,
                     |FilenameOf(company, role, date)| - |date| - |PdfSuffix|)
  {
    var tail := "-" + date + PdfSuffix;
    var middle := "-" + role + tail;
    OccursBefore(FilenamePrefix, company + middle, FilenamePrefix, 0);
    OccursBetween(FilenamePrefix, company, middle);
    OccursBetween("-", role, tail);
    OccursAfter(FilenamePrefix + company, middle, role, 1);
    OccursBetween("-", date + PdfSuffix, []);
    assert "-" + (date + PdfSuffix) + [] == tail;
    OccursAfter("-" + role, tail, date + PdfSuffix, 1);
    OccursAfter(FilenamePrefix + company, middle, date + PdfSuffix, |"-" + role| + 1);
  }

  /** `Filename` in terms of the defaults it applies. */
  lemma FilenameLayout(company: Option<string>, role: Option<string>, iso: string)
    ensures OccursAt(Filename(company, role, iso), OrDefault(company, "company"), |FilenamePrefix|)
    ensures OccursAt(Filename(company, role, iso), OrDefault(role, "role"), |FilenamePrefix| + |OrDefault(company, "company")| + 1)
    ensures OccursAt(Filename(company, role, iso), DatePart(iso) + PdfSuffix,
                     |Filename(company, role, iso)| - |DatePart(iso)| - |PdfSuffix|)
  {
    FilenameOfLayout(OrDefault(company, "company"), OrDefault(role, "role"), DatePart(iso));
  }

  // ---------------------------------------------------------------------------
  // The response

  datatype Body = NoBody | PdfBytes(bytes: seq<Byte>) | JsonError(error: string)

  const FailureMessage := "Failed to generate brief."

  datatype Header = Header(name: string, value: string)

  /** A character Node's `setHeader` accepts in a value: a tab, printable ASCII,
      or a code unit from 0x80 to 0xff. */
  predicate HeaderChar(c: char)
  {
    c == '\t' || 0x20 <= c as int <= 0x7e || 0x80 <= c as int <= 0xff
  }

  /** A header value `setHeader` accepts; for any other it throws
      `ERR_INVALID_CHAR`. */
  predicate HeaderValueOk(v: string)
  {
    forall i :: 0 <= i < |v| ==> HeaderChar(v[i])
  }

  /** Every value in `hs` passes the header check. */
  predicate HeadersOk(hs: seq<Header>)
  {
    forall i :: 0 <= i < |hs| ==> HeaderValueOk(hs[i].value)
  }

  /** The headers in place when `hs` are set in order and the first refused value
      throws: the longest prefix of `hs` whose values all pass the check. */
  function AcceptedHeaders(hs: seq<Header>): (r: seq<Header>)
    ensures |r| <= |hs| && r == hs[..|r|]
    ensures HeadersOk(r)
    ensures |r| < |hs| ==> !HeaderValueOk(hs[|r|].value)
  {
    if hs == [] || !HeaderValueOk(hs[0].value) then []
    else [hs[0]] + AcceptedHeaders(hs[1..])
  }

  /** No prefix of `hs` that passes the check is longer than the accepted headers. */
  lemma {:induction false} AcceptedAtLeast(hs: seq<Header>, r: seq<Header>)
    requires |r| <= |hs| && r == hs[..|r|] && HeadersOk(r)
    ensures |r| <= |AcceptedHeaders(hs)|
  {
    if r != [] {
      assert r[0] == hs[0] && HeaderValueOk(r[0].value);
      assert HeadersOk(r[1..]) by {
        forall i | 0 <= i < |r| - 1 ensures HeaderValueOk(r[1..][i].value) {
          assert r[1..][i] == r[i + 1];
        }
      }
      AcceptedAtLeast(hs[1..], r[1..]);
    }
  }

  /** A prefix of `hs` that stops at a refused value, or at the end, is no shorter
      than the accepted headers. */
  lemma {:induction false} AcceptedAtMost(hs: seq<Header>, r: seq<Header>)
    requires |r| <= |hs| && r == hs[..|r|]
    requires |r| < |hs| ==> !HeaderValueOk(hs[|r|].value)
    ensures |AcceptedHeaders(hs)| <= |r|
  {
    if r != [] && HeaderValueOk(hs[0].value) {
      assert r[0] == hs[0];
      assert |r| - 1 < |hs| - 1 ==> hs[1..][|r| - 1] == hs[|r|];
      AcceptedAtMost(hs[1..], r[1..]);
    }
  }

  /** A prefix of `hs` that passes the check and stops at a refused value, or at
      the end, is the one `AcceptedHeaders` gives. */
  lemma AcceptedHeadersUnique(hs: seq<Header>, r: seq<Header>)
    requires |r| <= |hs| && r == hs[..|r|] && HeadersOk(r)
    requires |r| < |hs| ==> !HeaderValueOk(hs[|r|].value)
    ensures AcceptedHeaders(hs) == r
  {
    AcceptedAtLeast(hs, r);
    AcceptedAtMost(hs, r);
  }

  /** A concatenation passes the check exactly when both parts do. */
  lemma HeaderValueOkConcat(a: string, b: string)
    ensures HeaderValueOk(a + b) <==> HeaderValueOk(a) && HeaderValueOk(b)
  {
    if HeaderValueOk(a + b) {
      forall i | 0 <= i < |a| ensures HeaderChar(a[i]) {
        assert a[i] == (a + b)[i];
      }
      forall i | 0 <= i < |b| ensures HeaderChar(b[i]) {
        assert b[i] == (a + b)[|a| + i];
      }
    }
    if HeaderValueOk(a) && HeaderValueOk(b) {
      forall i | 0 <= i < |a + b| ensures HeaderChar((a + b)[i]) {
        if i < |a| {
          assert (a + b)[i] == a[i];
        } else {
          assert (a + b)[i] == b[i - |a|];
        }
      }
    }
  }

  /** The Content-Disposition value passes the check exactly when the filename does. */
  lemma DispositionOkIffFilenameOk(filename: string)
    ensures HeaderValueOk(ContentDisposition(filename)) <==> HeaderValueOk(filename)
  {
    var head := "attachment; filename=\"";
    assert HeaderValueOk(head) by {
      forall i | 0 <= i < |head| ensures HeaderChar(head[i]) { }
    }
    assert HeaderValueOk("\"") by {
      assert HeaderChar("\""[0]);
    }
    HeaderValueOkConcat(head, filename);
    HeaderValueOkConcat(head + filename, "\"");
  }

  /** The four headers of a successful answer all pass the check exactly when the
      filename and the share URL do; the two fixed values always pass. */
  lemma SuccessHeadersOk(filename: string, shareUrl: string)
    ensures HeaderValueOk("application/pdf") && HeaderValueOk("no-store")
    ensures HeadersOk(SuccessHeaders(filename, shareUrl)) <==> HeaderValueOk(filename) && HeaderValueOk(shareUrl)
  {
    var pdf := "application/pdf";
    forall i | 0 <= i < |pdf| ensures HeaderChar(pdf[i]) { }
    var store := "no-store";
    forall i | 0 <= i < |store| ensures HeaderChar(store[i]) { }
    DispositionOkIffFilenameOk(filename);
    var hs := SuccessHeaders(filename, shareUrl);
    if HeadersOk(hs) {
      assert HeaderValueOk(hs[1].value) && HeaderValueOk(hs[2].value);
    }
  }

  /** A company name with a character beyond 0xff, such as the apostrophe U+2019,
      puts that character in the filename, so the header check refuses it. */
  lemma WideCompanyCharRefused(company: string, role: Option<string>, iso: string, i: nat)
    requires i < |company| && company[i] as int > 0xff
    ensures !HeaderValueOk(Filename(Some(company), role, iso))
  {
    var rest := "-" + OrDefault(role, "role") + ("-" + DatePart(iso) + PdfSuffix);
    assert !HeaderChar(company[i]);
    assert Filename(Some(company), role, iso) == (FilenamePrefix + company) + rest;
    HeaderValueOkConcat(FilenamePrefix + company, rest);
    HeaderValueOkConcat(FilenamePrefix, company);
  }

  /** The part of an Express response the handler touches. */
  class Response {
    var status: int
    var headers: seq<Header>
    var body: Body

    /** A fresh response: status 200, no headers, nothing sent. */
    constructor ()
      ensures status == 200 && headers == [] && body == NoBody
    {
      status := 200;
      headers := [];
      body := NoBody;
    }

    /** Sets a header; `ok` is false where Node throws for a refused value, and
        the headers then stay as they were. */
    method SetHeader(name: string, value: string) returns (ok: bool)
      modifies this
      ensures ok == HeaderValueOk(value)
      ensures headers == if ok then old(headers) + [Header(name, value)] else old(headers)
      ensures status == old(status) && body == old(body)
    {
      ok := HeaderValueOk(value);
      if ok {
        headers := headers + [Header(name, value)];
      }
    }

    method Status(code: int)
      modifies this
      ensures status == code
      ensures headers == old(headers) && body == old(body)
    {
      status := code;
    }

    method Send(bytes: seq<Byte>)
      modifies this
      ensures body == PdfBytes(bytes)
      ensures status == old(status) && headers == old(headers)
    {
      body := PdfBytes(bytes);
    }

    method Json(error: string)
      modifies this
      ensures body == JsonError(error)
      ensures status == old(status) && headers == old(headers)
    {
      body := JsonError(error);
    }
  }

  // ---------------------------------------------------------------------------
  // The handler

  /** The fields of the request body; any of them may be missing. */
  datatype Request = Request(jdText: Option<string>, role: Option<string>, company: Option<string>, botToken: Option<string>)

  /** The steps the handler begins, in the order it begins them. */
  datatype Step = ScrubStep | GenerateStep(input: string) | RenderStep | UploadStep(path: string) | SignStep(path: string)

  /** What the handler leaves behind: the response and the steps it began. */
  datatype Outcome = Outcome(status: int, headers: seq<Header>, body: Body, trace: seq<Step>)

  /** The failure answer, sent after the headers `sent` were already set. */
  function FailedWith(sent: seq<Header>, trace: seq<Step>): Outcome
  {
    Outcome(500, sent, JsonError(FailureMessage), trace)
  }

  /** The failure answer of a step that throws before any header is set. */
  function Failed(trace: seq<Step>): Outcome
  {
    FailedWith([], trace)
  }

  /** The four headers of a successful answer. */
  function SuccessHeaders(filename: string, shareUrl: string): seq<Header>
  {
    [Header("Content-Type", "application/pdf"),
     Header("Content-Disposition", ContentDisposition(filename)),
     Header("X-Share-URL", shareUrl),
     Header("Cache-Control", "no-store")]
  }

  /** All five steps, in order, for the scrubbed text and the storage path. */
  function AllSteps(scrubbed: string, path: string): seq<Step>
  {
    [ScrubStep, GenerateStep(scrubbed), RenderStep, UploadStep(path), SignStep(path)]
  }

  /** The handler's effect. `model` is the generator, `upload` answers whether
      storing succeeded and `sign` yields the share URL or fails; `now` is
      `Date.now()` and `iso` is the current time as an ISO string. A missing job
      description makes the scrubber throw. */
  function Handle(
    req: Request,
    model: Gemini.UserContent -> Option<BriefTypes.Brief>,
    upload: (seq<Byte>, string) -> bool,
    sign: string -> Option<string>,
    now: nat,
    iso: string): Outcome
  {
    if req.jdText.None? then Failed([ScrubStep])
    else
      var scrubbed := Scrub.ScrubPII(req.jdText.value);
      AfterGenerate(scrubbed, Gemini.Generate(model, scrubbed, req.role, req.company), req.role, req.company,
                    upload, sign, now, iso)
  }

  /** The rest of the handler, once the generator has answered for `scrubbed`. */
  function AfterGenerate(
    scrubbed: string,
    generated: Result<BriefTypes.Brief, Gemini.GenerateError>,
    role: Option<string>,
    company: Option<string>,
    upload: (seq<Byte>, string) -> bool,
    sign: string -> Option<string>,
    now: nat,
    iso: string): Outcome
  {
    match generated
    case Err(_) => Failed([ScrubStep, GenerateStep(scrubbed)])
    case Ok(brief) =>
      var pdf := Pdf.CreatePdfFromBrief(brief);
      var path := GcsPath(Slug(now, company));
      if !upload(pdf, path) then Failed(AllSteps(scrubbed, path)[..4])
      else match sign(path)
        case None => Failed(AllSteps(scrubbed, path))
        case Some(url) =>
          var headers := SuccessHeaders(Filename(company, role, iso), url);
          if !HeadersOk(headers) then FailedWith(AcceptedHeaders(headers), AllSteps(scrubbed, path))
          else Outcome(200, headers, PdfBytes(pdf), AllSteps(scrubbed, path))
  }

  /** The handler as the source writes it: each awaited step in turn, with the
      catch block answering every failure. `res` is the fresh response Express
      hands in. */
  method HandleBrief(
    res: Response,
    req: Request,
    model: Gemini.UserContent -> Option<BriefTypes.Brief>,
    upload: (seq<Byte>, string) -> bool,
    sign: string -> Option<string>,
    now: nat,
    iso: string) returns (trace: seq<Step>)
    requires res.status == 200 && res.headers == [] && res.body == NoBody
    modifies res
    ensures var out := Handle(req, model, upload, sign, now, iso);
      res.status == out.status && res.headers == out.headers && res.body == out.body && trace == out.trace
  {
    if req.jdText.None? {
      trace := [ScrubStep];
      res.Status(500);
      res.Json(FailureMessage);
      return;
    }
    var scrubbed := Scrub.ScrubPII(req.jdText.value);
    var generated := Gemini.Generate(model, scrubbed, req.role, req.company);
    trace := Respond(res, scrubbed, generated, req.role, req.company, upload, sign, now, iso);
  }

  /** The handler from the generator's answer on: render, store, sign, and answer. */
  method Respond(
    res: Response,
    scrubbed: string,
    generated: Result<BriefTypes.Brief, Gemini.GenerateError>,
    role: Option<string>,
    company: Option<string>,
    upload: (seq<Byte>, string) -> bool,
    sign: string -> Option<string>,
    now: nat,
    iso: string) returns (trace: seq<Step>)
    requires res.status == 200 && res.headers == [] && res.body == NoBody
    modifies res
    ensures var out := AfterGenerate(scrubbed, generated, role, company, upload, sign, now, iso);
      res.status == out.status && res.headers == out.headers && res.body == out.body && trace == out.trace
  {
    trace := [ScrubStep, GenerateStep(scrubbed)];
    if generated.Err? {
      res.Status(500);
      res.Json(FailureMessage);
      return;
    }

    trace := trace + [RenderStep];
    var pdf := Pdf.CreatePdfFromBrief(generated.value);

    var slug := Slug(now, company);
    var path := GcsPath(slug);
    trace := trace + [UploadStep(path)];
    if !upload(pdf, path) {
      res.Status(500);
      res.Json(FailureMessage);
      return;
    }

    trace := trace + [SignStep(path)];
    var shareUrl := sign(path);
    if shareUrl.None? {
      res.Status(500);
      res.Json(FailureMessage);
      return;
    }

    // The first refused header value throws, and the catch block answers.
    var ok := SetSuccessHeaders(res, Filename(company, role, iso), shareUrl.value);
    if !ok {
      res.Status(500);
      res.Json(FailureMessage);
      return;
    }
    res.Send(pdf);
  }

  /** The four `setHeader` calls of a successful answer, in order; the first
      refused value throws, so `ok` is false and only the headers before it are set. */
  method SetSuccessHeaders(res: Response, filename: string, shareUrl: string) returns (ok: bool)
    modifies res
    ensures ok == HeadersOk(SuccessHeaders(filename, shareUrl))
    ensures res.headers == old(res.headers) + AcceptedHeaders(SuccessHeaders(filename, shareUrl))
    ensures res.status == old(res.status) && res.body == old(res.body)
  {
    ghost var headers := SuccessHeaders(filename, shareUrl);
    ghost var before := res.headers;
    ok := res.SetHeader("Content-Type", "application/pdf");
    ghost var k := if ok then 1 else 0;
    if ok {
      ok := res.SetHeader("Content-Disposition", ContentDisposition(filename));
      if ok { k := 2; }
    }
    if ok {
      ok := res.SetHeader("X-Share-URL", shareUrl);
      if ok { k := 3; }
    }
    if ok {
      ok := res.SetHeader("Cache-Control", "no-store");
      if ok { k := 4; }
    }
    assert res.headers == before + headers[..k];
    AcceptedHeadersUnique(headers, headers[..k]);
  }

  // ---------------------------------------------------------------------------
  // What the handler guarantees

  /** `b` is a prefix of `a`. */
  predicate IsPrefix(b: seq<Step>, a: seq<Step>)
  {
    |b| <= |a| && a[..|b|] == b
  }

  /** After generation: the answer is the success answer or the failure answer;
      the steps begun are a prefix of the five, the first two always among them;
      success means that generation, storing and signing all succeeded and the
      header check passed the filename and the share URL, with the PDF of the
      generated brief and the four headers; and a failure carries the headers set
      before the first refused value, none when a step failed. */
  lemma {:induction false} AfterGenerateAnswer(
    scrubbed: string, generated: Result<BriefTypes.Brief, Gemini.GenerateError>,
    role: Option<string>, company: Option<string>,
    upload: (seq<Byte>, string) -> bool, sign: string -> Option<string>, now: nat, iso: string)
    ensures var out := AfterGenerate(scrubbed, generated, role, company, upload, sign, now, iso);
      var path := GcsPath(Slug(now, company));
      var stepsOk := generated.Ok? && upload(Pdf.CreatePdfFromBrief(generated.value), path) && sign(path).Some?;
      && (out.status == 200 || out == FailedWith(out.headers, out.trace))
      && 2 <= |out.trace| && IsPrefix(out.trace, AllSteps(scrubbed, path))
      && (out.status == 200 <==>
            stepsOk && HeaderValueOk(Filename(company, role, iso)) && HeaderValueOk(sign(path).value))
      && (out.status == 200 ==>
            && out.headers == SuccessHeaders(Filename(company, role, iso), sign(path).value)
            && out.body == PdfBytes(Pdf.CreatePdfFromBrief(generated.value))
            && out.trace == AllSteps(scrubbed, path))
      && (out.status != 200 ==>
            out.headers == if stepsOk then AcceptedHeaders(SuccessHeaders(Filename(company, role, iso), sign(path).value)) else [])
  {
    var path := GcsPath(Slug(now, company));
    var all := AllSteps(scrubbed, path);
    assert all[..2] == [ScrubStep, GenerateStep(scrubbed)];
    assert all[..4][..4] == all[..4];
    assert all[..|all|] == all;
    if sign(path).Some? {
      SuccessHeadersOk(Filename(company, role, iso), sign(path).value);
    }
  }

  /** When the header check refuses the filename or the share URL, the headers
      already set are Content-Type, and Content-Disposition as well when it is
      the share URL that is refused. */
  lemma RefusedHeaders(filename: string, shareUrl: string)
    requires !(HeaderValueOk(filename) && HeaderValueOk(shareUrl))
    ensures AcceptedHeaders(SuccessHeaders(filename, shareUrl)) ==
      [Header("Content-Type", "application/pdf")] +
      (if HeaderValueOk(filename) then [Header("Content-Disposition", ContentDisposition(filename))] else [])
  {
    SuccessHeadersOk(filename, shareUrl);
    DispositionOkIffFilenameOk(filename);
    var hs := SuccessHeaders(filename, shareUrl);
    if HeaderValueOk(filename) {
      AcceptedHeadersUnique(hs, hs[..2]);
    } else {
      AcceptedHeadersUnique(hs, hs[..1]);
    }
  }

  /** Every answer is either the success answer or the failure answer, which
      carries at most the Content-Type and Content-Disposition headers a refused
      later header value left behind. */
  lemma AnswerIsSuccessOrFailure(
    req: Request, model: Gemini.UserContent -> Option<BriefTypes.Brief>,
    upload: (seq<Byte>, string) -> bool, sign: string -> Option<string>, now: nat, iso: string)
    ensures var out := Handle(req, model, upload, sign, now, iso);
      out.status == 200 ||
        (out == FailedWith(out.headers, out.trace) && |out.headers| <= 2 &&
         (out.headers != [] ==> out.headers[0] == Header("Content-Type", "application/pdf")))
  {
    if req.jdText.Some? {
      var scrubbed := Scrub.ScrubPII(req.jdText.value);
      var generated := Gemini.Generate(model, scrubbed, req.role, req.company);
      AfterGenerateAnswer(scrubbed, generated, req.role, req.company, upload, sign, now, iso);
      var path := GcsPath(Slug(now, req.company));
      var filename := Filename(req.company, req.role, iso);
      if generated.Ok? && upload(Pdf.CreatePdfFromBrief(generated.value), path) && sign(path).Some?
        && !(HeaderValueOk(filename) && HeaderValueOk(sign(path).value))
      {
        RefusedHeaders(filename, sign(path).value);
      }
    }
  }

  /** The handler succeeds exactly when there is a job description, the brief
      generated from its scrubbed text passes the schema check, both storage
      steps succeed, and the header check passes the filename and the share URL. */
  lemma SucceedsIffEveryStepSucceeds(
    req: Request, model: Gemini.UserContent -> Option<BriefTypes.Brief>,
    upload: (seq<Byte>, string) -> bool, sign: string -> Option<string>, now: nat, iso: string)
    ensures var out := Handle(req, model, upload, sign, now, iso);
      out.status == 200 <==>
        && req.jdText.Some?
        && var generated := Gemini.Generate(model, Scrub.ScrubPII(req.jdText.value), req.role, req.company);
           var path := GcsPath(Slug(now, req.company));
           && generated.Ok? && upload(Pdf.CreatePdfFromBrief(generated.value), path) && sign(path).Some?
           && HeaderValueOk(Filename(req.company, req.role, iso)) && HeaderValueOk(sign(path).value)
  {
    if req.jdText.Some? {
      var scrubbed := Scrub.ScrubPII(req.jdText.value);
      AfterGenerateAnswer(scrubbed, Gemini.Generate(model, scrubbed, req.role, req.company), req.role, req.company,
                          upload, sign, now, iso);
    }
  }

  /** On success the answer carries the PDF of a well-formed brief that the
      generator produced from the scrubbed text, the four headers in order, and
      the signed URL of the path the PDF was stored under; the filename and that
      URL passed the header check. */
  lemma SuccessAnswer(
    req: Request, model: Gemini.UserContent -> Option<BriefTypes.Brief>,
    upload: (seq<Byte>, string) -> bool, sign: string -> Option<string>, now: nat, iso: string)
    requires Handle(req, model, upload, sign, now, iso).status == 200
    ensures req.jdText.Some?
    ensures var out := Handle(req, model, upload, sign, now, iso);
      var brief := model(Gemini.BuildUserContent(Scrub.ScrubPII(req.jdText.value), req.role, req.company));
      var path := GcsPath(Slug(now, req.company));
      && brief.Some? && BriefTypes.WellFormed(brief.value)
      && sign(path).Some?
      && HeaderValueOk(Filename(req.company, req.role, iso)) && HeaderValueOk(sign(path).value)
      && out.headers == SuccessHeaders(Filename(req.company, req.role, iso), sign(path).value)
      && out.body == PdfBytes(Pdf.CreatePdfFromBrief(brief.value))
  {
    var scrubbed := Scrub.ScrubPII(req.jdText.value);
    AfterGenerateAnswer(scrubbed, Gemini.Generate(model, scrubbed, req.role, req.company), req.role, req.company,
                        upload, sign, now, iso);
  }

  /** The steps run in the fixed order scrub, generate, render, upload, sign, each
      only after the one before it succeeded, and the generator is only ever given
      the scrubbed text. Without a job description only the scrub is begun. */
  lemma StepsRunInOrder(
    req: Request, model: Gemini.UserContent -> Option<BriefTypes.Brief>,
    upload: (seq<Byte>, string) -> bool, sign: string -> Option<string>, now: nat, iso: string)
    ensures req.jdText.None? ==> Handle(req, model, upload, sign, now, iso).trace == [ScrubStep]
    ensures req.jdText.Some? ==>
      var out := Handle(req, model, upload, sign, now, iso);
      && 2 <= |out.trace|
      && IsPrefix(out.trace, AllSteps(Scrub.ScrubPII(req.jdText.value), GcsPath(Slug(now, req.company))))
  {
    if req.jdText.Some? {
      var scrubbed := Scrub.ScrubPII(req.jdText.value);
      AfterGenerateAnswer(scrubbed, Gemini.Generate(model, scrubbed, req.role, req.company), req.role, req.company,
                          upload, sign, now, iso);
    }
  }
}

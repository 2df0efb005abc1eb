/** The serverless PDF function (functions/generatePDF.js): the substitution of mermaid
    fences by rendered diagrams, and the request handler's status codes. */
module GeneratePdf {
  import opened Wrappers
  import opened Text

  // ---------------------------------------------------------------------------------------
  // Fences: `/```mermaid\n([\s\S]*?)\n```/g`

  const Open: string := "```mermaid\n"
  const Close: string := "\n```"

  /** One match of the fence pattern: the text `s[start..end]`. */
  datatype Fence = Fence(start: nat, end: nat)

  /** Where a fence opened at `p` ends: the lazy body stops at the first `Close` after the
      opening line, and any character (line terminators included) may occur in between. */
  function FenceEnd(s: string, p: nat): (r: Option<nat>)
    ensures r.Some? ==> StartsAt(s, p, Open) && p + |Open| + |Close| <= r.value <= |s|
    ensures r.Some? ==> StartsAt(s, r.value - |Close|, Close)
    ensures r.Some? ==> forall q | p + |Open| <= q < r.value - |Close| :: !StartsAt(s, q, Close)
    ensures r.None? <==> !StartsAt(s, p, Open) || forall q | p + |Open| <= q :: !StartsAt(s, q, Close)
  {
    if StartsAt(s, p, Open) then
      match IndexOfFrom(s, Close, p + |Open|)
      case Some(q) => Some(q + |Close|)
      case None => None
    else None
  }

  predicate IsFence(s: string, f: Fence) {
    FenceEnd(s, f.start) == Some(f.end)
  }

  /** `exec` from `lastIndex` = `from`: the leftmost fence starting there or later. */
  function NextFence(s: string, from: nat): (r: Option<Fence>)
    ensures r.Some? ==> from <= r.value.start && IsFence(s, r.value)
    ensures r.Some? ==> forall q | from <= q < r.value.start :: FenceEnd(s, q).None?
    ensures r.None? ==> forall q | from <= q :: FenceEnd(s, q).None?
    decreases |s| - from
  {
    if from >= |s| then None
    else match FenceEnd(s, from)
      case Some(e) => Some(Fence(from, e))
      case None => NextFence(s, from + 1)
  }

  /** All matches from `from` on, left to right, each search resuming at the previous end. */
  function Fences(s: string, from: nat): seq<Fence>
    decreases |s| - from
  {
    match NextFence(s, from)
    case None => []
    case Some(f) => [f] + Fences(s, f.end)
  }

  /** `match[0]`, the whole fence. */
  function MatchText(s: string, f: Fence): string
    requires IsFence(s, f)
  {
    s[f.start..f.end]
  }

  /** `match[1]`, the diagram source between the opening line and the closing marker. */
  function DiagramCode(s: string, f: Fence): string
    requires IsFence(s, f)
  {
    s[f.start + |Open|..f.end - |Close|]
  }

  /** A match is the opening line, the source, and the closing marker, and the source holds
      no closing marker: the shortest body is taken. */
  lemma FenceShape(s: string, f: Fence)
    requires IsFence(s, f)
    ensures MatchText(s, f) == Open + DiagramCode(s, f) + Close
    ensures forall q | 0 <= q :: !StartsAt(DiagramCode(s, f), q, Close)
  {
    var a, b := f.start + |Open|, f.end - |Close|;
    var code := s[a..b];
    assert code == DiagramCode(s, f);
    forall q | 0 <= q
      ensures !StartsAt(code, q, Close)
    {
      if StartsAt(code, q, Close) {
        StartsAtInSlice(s, a, b, q, Close);
      }
    }
    assert s[f.start..a] == Open;
    assert s[b..f.end] == Close;
    assert s[f.start..f.end] == s[f.start..a] + s[a..b] + s[b..f.end];
  }

  predicate AllFences(s: string, fs: seq<Fence>) {
    forall i | 0 <= i < |fs| :: IsFence(s, fs[i])
  }

  /** Each fence starts at or after `from` and after the end of the one before. */
  predicate InOrderFrom(fs: seq<Fence>, from: nat) {
    && (forall i | 0 <= i < |fs| :: from <= fs[i].start)
    && (forall i | 0 <= i < |fs| - 1 :: fs[i].end <= fs[i + 1].start)
  }

  predicate FencesInOrder(s: string, fs: seq<Fence>, from: nat) {
    AllFences(s, fs) && InOrderFrom(fs, from)
  }

  lemma ConsAllFences(s: string, f: Fence, rest: seq<Fence>)
    requires IsFence(s, f) && AllFences(s, rest)
    ensures AllFences(s, [f] + rest)
  {
    var fs := [f] + rest;
    forall i | 0 < i < |fs|
      ensures IsFence(s, fs[i])
    {
      assert fs[i] == rest[i - 1];
    }
  }

  lemma ConsInOrderFrom(f: Fence, rest: seq<Fence>, from: nat)
    requires from <= f.start <= f.end && InOrderFrom(rest, f.end)
    ensures InOrderFrom([f] + rest, from)
  {
    var fs := [f] + rest;
    forall i | 0 < i < |fs|
      ensures fs[i] == rest[i - 1]
    {
    }
  }

  /** The matches are fences, found left to right and without overlap. */
  lemma {:induction false} FencesOrdered(s: string, from: nat)
    ensures FencesInOrder(s, Fences(s, from), from)
    decreases |s| - from
  {
    var next := NextFence(s, from);
    if next.Some? {
      var f := next.value;
      FencesOrdered(s, f.end);
      assert Fences(s, from) == [f] + Fences(s, f.end);
      ConsAllFences(s, f, Fences(s, f.end));
      ConsInOrderFrom(f, Fences(s, f.end), from);
    }
  }

  // ---------------------------------------------------------------------------------------
  // The substitution loop

  const DiagramOpen: string := "<div class=\"mermaid-diagram\">"
  const DiagramClose: string := "</div>"
  const RenderError: string := "<p>Error rendering diagram</p>"

  /** How the `try` block went for one fence: the svg was read and substituted and the
      temporary directory removed; the svg was substituted but `fs.rmdir` then threw; or
      an earlier step (`mkdtemp`, `writeFile`, `mmdc`, `readFile`) threw. */
  datatype RenderOutcome = Rendered(svg: string) | CleanupFailed(svg: string) | RenderFailed

  function DiagramDiv(svg: string): string {
    DiagramOpen + svg + DiagramClose
  }

  /** One turn of the loop on the markdown rewritten so far, where `t` is `match[0]`: the
      svg replace of the `try` block when it was reached, then the error replace of the
      `catch` block when anything threw, each of the first occurrence of `t`. */
  function Substitute(processed: string, t: string, outcome: RenderOutcome): (r: string)
    ensures outcome.Rendered? ==> r == ReplaceFirst(processed, t, DiagramDiv(outcome.svg))
    ensures outcome.CleanupFailed? ==>
              r == ReplaceFirst(ReplaceFirst(processed, t, DiagramDiv(outcome.svg)), t, RenderError)
    ensures outcome.RenderFailed? ==> r == ReplaceFirst(processed, t, RenderError)
  {
    var tried := if outcome.RenderFailed? then processed else ReplaceFirst(processed, t, DiagramDiv(outcome.svg));
    if outcome.Rendered? then tried else ReplaceFirst(tried, t, RenderError)
  }

  /** The replacements for the fences from `from` on, one after the other, each of the
      first occurrence of the fence's text in the markdown as rewritten so far. */
  function ApplyFrom(processed: string, s: string, from: nat, render: string -> RenderOutcome): string
    decreases |s| - from
  {
    match NextFence(s, from)
    case None => processed
    case Some(f) =>
      var step := Substitute(processed, MatchText(s, f), render(DiagramCode(s, f)));
      ApplyFrom(step, s, f.end, render)
  }

  /** `processMermaidDiagrams(markdown)` with the external renderer `render`. */
  function ProcessAll(markdown: string, render: string -> RenderOutcome): string {
    ApplyFrom(markdown, markdown, 0, render)
  }

  /** The `while` loop over `exec`, with the renderer's answer for each fence's source. */
  method ProcessMermaidDiagrams(markdown: string, render: string -> RenderOutcome) returns (processed: string)
    ensures processed == ProcessAll(markdown, render)
  {
    processed := markdown;
    var lastIndex: nat := 0;
    var match_ := NextFence(markdown, lastIndex);
    while match_.Some?
      invariant lastIndex <= |markdown|
      invariant match_ == NextFence(markdown, lastIndex)
      invariant ApplyFrom(processed, markdown, lastIndex, render) == ProcessAll(markdown, render)
      decreases |markdown| - lastIndex
    {
      var f := match_.value;
      var mermaidCode := DiagramCode(markdown, f);
      var outcome := render(mermaidCode);
      var t := MatchText(markdown, f);
      ghost var before := processed;
      if !outcome.RenderFailed? {
        processed := ReplaceFirst(processed, t, DiagramOpen + outcome.svg + DiagramClose);
      }
      if !outcome.Rendered? {
        processed := ReplaceFirst(processed, t, RenderError);
      }
      assert processed == Substitute(before, t, outcome);
      lastIndex := f.end;
      match_ := NextFence(markdown, lastIndex);
    }
  }

  /** Markdown without a mermaid fence is returned unchanged. */
  lemma NoFenceUnchanged(markdown: string, render: string -> RenderOutcome)
    requires NextFence(markdown, 0).None?
    ensures ProcessAll(markdown, render) == markdown
  {
  }

  /** In particular markdown without an opening line "```mermaid\n" is returned unchanged. */
  lemma NoOpeningUnchanged(markdown: string, render: string -> RenderOutcome)
    requires forall q | 0 <= q :: !StartsAt(markdown, q, Open)
    ensures ProcessAll(markdown, render) == markdown
  {
    NoFenceUnchanged(markdown, render);
  }

  /** Every copy of a fence's text is itself the start of a fence, so the first occurrence
      of the first fence's text is that fence: the first replacement lands on it. */
  lemma FirstReplacementInPlace(s: string, rep: string)
    requires NextFence(s, 0).Some?
    ensures var f := NextFence(s, 0).value;
            ReplaceFirst(s, MatchText(s, f), rep) == s[..f.start] + rep + s[f.end..]
  {
    var f := NextFence(s, 0).value;
    var t := MatchText(s, f);
    forall q | 0 <= q < f.start
      ensures !StartsAt(s, q, t)
    {
      if StartsAt(s, q, t) {
        CopyOfFenceIsFence(s, f, q);
      }
    }
    ReplaceFirstAt(s, t, rep, f.start);
  }

  /** A copy of a fence's text at `q` opens a fence at `q`. */
  lemma CopyOfFenceIsFence(s: string, f: Fence, q: nat)
    requires IsFence(s, f) && StartsAt(s, q, MatchText(s, f))
    ensures FenceEnd(s, q).Some?
  {
    var t := MatchText(s, f);
    var n := |t|;
    FenceShape(s, f);
    assert n >= |Open| + |Close|;
    assert t[..|Open|] == Open && t[n - |Close|..] == Close;
    assert StartsAt(t, 0, Open) && StartsAt(t, n - |Close|, Close);
    StartsAtWithin(s, q, t, 0, Open);
    StartsAtWithin(s, q, t, n - |Close|, Close);
  }

  /** A document with one fence: the fence is replaced where it stands, by the svg or by the
      error paragraph, and the text around it is kept. */
  lemma SingleFence(s: string, f: Fence, render: string -> RenderOutcome)
    requires NextFence(s, 0) == Some(f) && NextFence(s, f.end).None?
    ensures var o := render(DiagramCode(s, f));
            var first := s[..f.start] + (if o.RenderFailed? then RenderError else DiagramDiv(o.svg)) + s[f.end..];
            ProcessAll(s, render) == (if o.CleanupFailed? then ReplaceFirst(first, MatchText(s, f), RenderError) else first)
  {
    var o := render(DiagramCode(s, f));
    var t := MatchText(s, f);
    var rep := if o.RenderFailed? then RenderError else DiagramDiv(o.svg);
    var step := Substitute(s, t, o);
    assert ProcessAll(s, render) == ApplyFrom(step, s, f.end, render);
    assert ApplyFrom(step, s, f.end, render) == step;
    FirstReplacementInPlace(s, rep);
  }


  // ---------------------------------------------------------------------------------------
  // The handler

  /** `JSON.stringify` of a string's characters: quote, backslash and the control
      characters escaped, the short forms where JSON has one. */
  function EscapeChar(c: char): string {
    if c == '"' then ['\\', '"']
    else if c == '\\' then ['\\', '\\']
    else if c == '\n' then ['\\', 'n']
    else if c == '\r' then ['\\', 'r']
    else if c == '\t' then ['\\', 't']
    else if c as int == 8 then ['\\', 'b']
    else if c as int == 12 then ['\\', 'f']
    else if c as int < 32 then ['\\', 'u', '0', '0', HexDigit(c as int / 16), HexDigit(c as int % 16)]
    else [c]
  }

  function HexDigit(d: nat): (c: char)
    requires d < 16
  {
    if d < 10 then (48 + d) as char else (87 + d) as char
  }

  function HexValue(c: char): Option<nat> {
    if '0' <= c <= '9' then Some(c as int - 48)
    else if 'a' <= c <= 'f' then Some(c as int - 87)
    else None
  }

  function Escape(s: string): string {
    if s == [] then [] else EscapeChar(s[0]) + Escape(s[1..])
  }

  /** Reading escaped text back: the inverse of `Escape`. */
  function Unescape(t: string): Option<string>
    decreases |t|
  {
    if t == [] then Some([])
    else if t[0] != '\\' then
      if t[0] == '"' || t[0] as int < 32 then None
      else match Unescape(t[1..]) case Some(r) => Some([t[0]] + r) case None => None
    else if |t| < 2 then None
    else
      var c := t[1];
      if c == 'u' then
        if |t| < 6 || t[2] != '0' || t[3] != '0' then None
        else if HexValue(t[4]).None? || HexValue(t[5]).None? || HexValue(t[4]).value >= 2 then None
        else
          var code := HexValue(t[4]).value * 16 + HexValue(t[5]).value;
          match Unescape(t[6..]) case Some(r) => Some([code as char] + r) case None => None
      else
        var d := if c == '"' then Some('"') else if c == '\\' then Some('\\')
                 else if c == 'n' then Some('\n') else if c == 'r' then Some('\r')
                 else if c == 't' then Some('\t') else if c == 'b' then Some(8 as char)
                 else if c == 'f' then Some(12 as char) else None;
        match d
        case None => None
        case Some(ch) => match Unescape(t[2..]) case Some(r) => Some([ch] + r) case None => None
  }

  lemma UnescapeChar(c: char, rest: string)
    ensures Unescape(EscapeChar(c) + rest) == match Unescape(rest) case Some(r) => Some([c] + r) case None => None
  {
    var t := EscapeChar(c) + rest;
    if c as int < 32 && c != '\n' && c != '\r' && c != '\t' && c as int != 8 && c as int != 12 {
      assert t[6..] == rest;
      assert HexValue(HexDigit(c as int / 16)) == Some(c as int / 16);
      assert HexValue(HexDigit(c as int % 16)) == Some(c as int % 16);
    } else if |EscapeChar(c)| == 2 {
      assert t[2..] == rest;
    } else {
      assert t[1..] == rest;
    }
  }

  /** Escaped text reads back as the original. */
  lemma {:induction false} EscapeRoundTrip(s: string)
    ensures Unescape(Escape(s)) == Some(s)
  {
    if s != [] {
      EscapeRoundTrip(s[1..]);
      UnescapeChar(s[0], Escape(s[1..]));
      assert [s[0]] + s[1..] == s;
    }
  }

  const ErrorMember: string := "{\"error\":\"PDF generation failed\""
  const DetailsKey: string := ",\"details\":\""

  /** The 500 body `JSON.stringify({error: 'PDF generation failed', details})`; a missing
      message (`undefined`) drops the `details` member. */
  function ErrorBody(details: Option<string>): string {
    ErrorMember + (match details case Some(d) => DetailsKey + Escape(d) + "\"" case None => "") + "}"
  }

  const ErrorBodyHead: string := ErrorMember + DetailsKey

  /** The details member carries the message so that it reads back exactly. */
  lemma ErrorBodyCarriesMessage(d: string)
    ensures |ErrorBody(Some(d))| >= |ErrorBodyHead| + 2
    ensures var b := ErrorBody(Some(d));
            b[..|ErrorBodyHead|] == ErrorBodyHead && b[|b| - 2..] == "\"}" &&
            Unescape(b[|ErrorBodyHead|..|b| - 2]) == Some(d)
  {
    var e := Escape(d);
    var b := ErrorBody(Some(d));
    assert b == ErrorBodyHead + e + ("\"" + "}");
    assert b[|ErrorBodyHead|..|b| - 2] == e;
    EscapeRoundTrip(d);
  }

  datatype Response = Response(statusCode: nat, headers: seq<(string, string)>, body: string, isBase64Encoded: bool)

  const PdfHeaders: seq<(string, string)> :=
    [("Content-Type", "application/pdf"), ("Content-Disposition", "attachment; filename=document.pdf")]

  /** How the steps after the diagram substitution went: `marked`, launching the browser,
      then the page work and `page.pdf()`; a failure carries `error.message`. */
  datatype Pipeline =
    | MarkedFailed(message: Option<string>)
    | LaunchFailed(message: Option<string>)
    | PageFailed(message: Option<string>)
    | Produced(pdfBase64: string)

  /** How the handler's promise settles: with a response, or rejected with the message of
      an exception thrown by `browser.close()` in the `finally` block, which replaces
      whatever the `try` or the `catch` returned. */
  datatype Reply = Resolved(response: Response) | Rejected(message: Option<string>)

  /** The settled reply, the markdown handed to `marked` (if it got that far), whether a
      browser was launched, and whether `browser.close()` was called. */
  datatype Outcome = Outcome(reply: Reply, converted: Option<string>, launched: bool, closeCalled: bool)

  function Failure(message: Option<string>): Response {
    Response(500, [], ErrorBody(message), false)
  }

  /** `handler(event)`. `body` is the markdown of the parsed request body, or the error
      message when `JSON.parse` throws; `closeError` is `None` when `browser.close()`
      succeeds and `Some(m)` when it throws with message `m`. */
  function Handler(httpMethod: string, body: Result, render: string -> RenderOutcome, pipeline: Pipeline,
                   closeError: Option<Option<string>>): (r: Outcome)
    ensures httpMethod != "POST" ==> r.reply == Resolved(Response(405, [], "Method Not Allowed", false)) && !r.launched
    ensures r.closeCalled == r.launched
    ensures r.reply.Rejected? <==> r.launched && closeError.Some?
    ensures r.reply.Rejected? ==> r.reply.message == closeError.value
    ensures httpMethod == "POST" && body.ParseFailed? ==> r.reply == Resolved(Failure(body.message))
    ensures httpMethod == "POST" && body.Parsed? && !pipeline.Produced? && !(r.launched && closeError.Some?) ==>
              r.reply == Resolved(Failure(pipeline.message))
    ensures httpMethod == "POST" && body.Parsed? && pipeline.Produced? && closeError.None? ==>
              r.reply == Resolved(Response(200, PdfHeaders, pipeline.pdfBase64, true))
    ensures httpMethod == "POST" ==>
              (r.reply.Resolved? && r.reply.response.statusCode == 200 <==>
                 body.Parsed? && pipeline.Produced? && closeError.None?)
    ensures r.reply.Resolved? && r.reply.response.statusCode != 200 ==> !r.reply.response.isBase64Encoded
    ensures r.converted.Some? <==> httpMethod == "POST" && body.Parsed?
    ensures r.converted.Some? ==> r.converted.value == ProcessAll(body.markdown, render)
    ensures r.launched <==> httpMethod == "POST" && body.Parsed? && (pipeline.PageFailed? || pipeline.Produced?)
  {
    if httpMethod != "POST" then Outcome(Resolved(Response(405, [], "Method Not Allowed", false)), None, false, false)
    else match body
      case ParseFailed(m) => Outcome(Resolved(Failure(m)), None, false, false)
      case Parsed(markdown) =>
        var converted := Some(ProcessAll(markdown, render));
        match pipeline
        case MarkedFailed(m) => Outcome(Resolved(Failure(m)), converted, false, false)
        case LaunchFailed(m) => Outcome(Resolved(Failure(m)), converted, false, false)
        case PageFailed(m) => Outcome(Closing(Failure(m), closeError), converted, true, true)
        case Produced(pdf) => Outcome(Closing(Response(200, PdfHeaders, pdf, true), closeError), converted, true, true)
  }

  /** The `finally` block with a launched browser: the reply stands unless `close` throws. */
  function Closing(response: Response, closeError: Option<Option<string>>): (r: Reply)
    ensures r.Rejected? <==> closeError.Some?
    ensures r.Resolved? ==> r.response == response
    ensures r.Rejected? ==> r.message == closeError.value
  {
    match closeError
    case None => Resolved(response)
    case Some(m) => Rejected(m)
  }

  /** A POST that fails at any step, and whose browser (if any) closes cleanly, is answered
      500 with the fixed error member, and a `details` member that reads back as the
      failing step's own message (omitted, as `JSON.stringify` omits `undefined`, when the
      exception had none). */
  lemma FailedPostReported(body: Result, render: string -> RenderOutcome, pipeline: Pipeline,
                           closeError: Option<Option<string>>)
    requires body.ParseFailed? || !pipeline.Produced?
    requires !(body.Parsed? && pipeline.PageFailed? && closeError.Some?)
    ensures var r := Handler("POST", body, render, pipeline, closeError);
            var m := if body.ParseFailed? then body.message else pipeline.message;
            && r.reply.Resolved? && r.reply.response.statusCode == 500
            && (m.None? ==> r.reply.response.body == ErrorMember + "}")
            && (m.Some? ==> var b := r.reply.response.body;
                  |b| >= |ErrorBodyHead| + 2 && b[..|ErrorBodyHead|] == ErrorBodyHead &&
                  Unescape(b[|ErrorBodyHead|..|b| - 2]) == Some(m.value))
  {
    var m := if body.ParseFailed? then body.message else pipeline.message;
    if m.Some? {
      ErrorBodyCarriesMessage(m.value);
    }
  }

  datatype Result = Parsed(markdown: string) | ParseFailed(message: Option<string>)
}

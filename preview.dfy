/** The preview pane (src/components/Preview.js): the markdown it renders, the component
    chosen for paragraphs and code blocks, and the state of a diagram container. */
module Preview {
  import opened Wrappers
  import opened Text
  import MarkdownUtils

  /** The markdown handed to the renderer: the input after the blank-line rewrite, so no
      line of it is blank. */
  function PreviewSource(markdown: string): (r: string)
    ensures MarkdownUtils.NoBlankLine(Split(r, '\n'))
    ensures MarkdownUtils.NoBlankLine(Split(markdown, '\n')) ==> r == markdown
  {
    MarkdownUtils.NoBlankOutputLine(markdown);
    assert MarkdownUtils.NoBlankLine(Split(markdown, '\n')) ==> MarkdownUtils.ProcessMarkdown(markdown) == markdown by {
      if MarkdownUtils.NoBlankLine(Split(markdown, '\n')) {
        MarkdownUtils.NoBlankLineUnchanged(markdown);
      }
    }
    MarkdownUtils.ProcessMarkdown(markdown)
  }

  // ---------------------------------------------------------------------------------------
  // The `p` component

  /** A child node handed to a component: a text node or any other element. */
  datatype Child = TextNode(text: string) | OtherNode

  datatype Element =
    | Paragraph(className: string, content: seq<Child>)
    | DiagramElement(code: string)
    | CodeElement(codeClass: Option<string>, children: string)

  const ParagraphClass: string := "preview-paragraph"
  const EmptyParagraphClass: string := "preview-paragraph empty-paragraph"

  predicate StartsWithPlaceholder(children: seq<Child>) {
    |children| > 0 && children[0] == TextNode(MarkdownUtils.Placeholder)
  }

  /** The `p` component: a paragraph whose first child is the text "&nbsp;" is drawn as an
      empty paragraph holding only that text; any other keeps its children. */
  function RenderParagraph(children: seq<Child>): (e: Element)
    ensures e.Paragraph?
    ensures StartsWithPlaceholder(children) ==>
              e.className == EmptyParagraphClass && e.content == [TextNode(MarkdownUtils.Placeholder)]
    ensures !StartsWithPlaceholder(children) ==> e.className == ParagraphClass && e.content == children
  {
    if |children| > 0 && children[0] == TextNode("&nbsp;") then
      Paragraph("preview-paragraph empty-paragraph", [TextNode("&nbsp;")])
    else
      Paragraph("preview-paragraph", children)
  }

  /** Whatever follows the placeholder in a paragraph is dropped. */
  lemma EmptyParagraphDropsRest(rest: seq<Child>)
    ensures RenderParagraph([TextNode(MarkdownUtils.Placeholder)] + rest)
         == RenderParagraph([TextNode(MarkdownUtils.Placeholder)])
  {
  }

  // ---------------------------------------------------------------------------------------
  // The `code` component

  /** `\w`: an ASCII letter, a digit or the underscore. */
  predicate IsWordChar(c: char) {
    ('a' <= c <= 'z') || ('A' <= c <= 'Z') || ('0' <= c <= '9') || c == '_'
  }

  const LanguagePrefix: string := "language-"

  /** The length of the longest run of word characters starting at `i` (what the greedy
      `\w+` takes). */
  function WordRun(s: string, i: nat): (n: nat)
    requires i <= |s|
    ensures i + n <= |s|
    ensures forall k | i <= k < i + n :: IsWordChar(s[k])
    ensures i + n == |s| || !IsWordChar(s[i + n])
    decreases |s| - i
  {
    if i < |s| && IsWordChar(s[i]) then 1 + WordRun(s, i + 1) else 0
  }

  /** `/language-(\w+)/` can match at position `p`. */
  predicate LanguageAt(s: string, p: nat) {
    StartsAt(s, p, LanguagePrefix) && p + |LanguagePrefix| < |s| && IsWordChar(s[p + |LanguagePrefix|])
  }

  /** The leftmost position at or after `from` where the pattern matches. */
  function FirstLanguageAt(s: string, from: nat): (r: Option<nat>)
    ensures r.Some? ==> from <= r.value && LanguageAt(s, r.value)
    ensures r.Some? ==> forall q | from <= q < r.value :: !LanguageAt(s, q)
    ensures r.None? ==> forall q | from <= q :: !LanguageAt(s, q)
    decreases |s| - from
  {
    if from + |LanguagePrefix| >= |s| then None
    else if LanguageAt(s, from) then Some(from)
    else FirstLanguageAt(s, from + 1)
  }

  /** `w` is what the group of the leftmost match captures when that match is at `p`: the
      pattern matches at `p` and nowhere before it, and `w` is the whole run of word
      characters after the prefix. */
  predicate CaptureAt(s: string, p: nat, w: string) {
    && LanguageAt(s, p)
    && (forall q | 0 <= q < p :: !LanguageAt(s, q))
    && p + |LanguagePrefix| + |w| <= |s|
    && w == s[p + |LanguagePrefix|..p + |LanguagePrefix| + |w|]
    && (p + |LanguagePrefix| + |w| == |s| || !IsWordChar(s[p + |LanguagePrefix| + |w|]))
  }

  /** `match[1]` of `/language-(\w+)/.exec(className || '')`, `None` when there is no match
      (a missing class name is searched as ""). */
  function LanguageCapture(className: Option<string>): (r: Option<string>)
    ensures r.Some? ==> |r.value| > 0 && forall k | 0 <= k < |r.value| :: IsWordChar(r.value[k])
    ensures r.Some? ==> exists p: nat :: CaptureAt(className.GetOr(""), p, r.value)
    ensures r.None? <==> forall q | 0 <= q :: !LanguageAt(className.GetOr(""), q)
  {
    var s := className.GetOr("");
    match FirstLanguageAt(s, 0)
    case None => None
    case Some(p) =>
      var n := WordRun(s, p + |LanguagePrefix|);
      var w := s[p + |LanguagePrefix|..p + |LanguagePrefix| + n];
      assert |w| == n;
      assert CaptureAt(s, p, w);
      Some(w)
  }

  /** The `code` component: a diagram of the trimmed text when the language is exactly
      "mermaid"; otherwise a code element keeping its class name and children. */
  function RenderCode(className: Option<string>, children: string): (e: Element)
    ensures e.DiagramElement? <==> LanguageCapture(className) == Some("mermaid")
    ensures e.DiagramElement? ==> e.code == Trim(children)
    ensures e.CodeElement? <==> !e.DiagramElement?
    ensures e.CodeElement? ==> e.codeClass == className && e.children == children
  {
    var capture := LanguageCapture(className);
    if capture.Some? && capture.value == "mermaid" then DiagramElement(Trim(children))
    else CodeElement(className, children)
  }

  /** The code of a diagram starts and ends with a non-whitespace character. */
  lemma DiagramCodeTrimmed(className: Option<string>, children: string)
    requires RenderCode(className, children).DiagramElement?
    ensures var code := RenderCode(className, children).code;
            code == [] || (!IsJsWhitespace(code[0]) && !IsJsWhitespace(code[|code| - 1]))
  {
    var t := TrimStart(children);
    var code := TrimEnd(t);
    assert code == Trim(children);
    if code != [] {
      assert code[0] == t[0];
    }
  }

  /** A class name that starts with "language-" and a word reports that whole word, so
      "language-mermaid" makes a diagram while "language-mermaidjs" does not; a missing
      class name reports none. */
  lemma LeadingLanguage(w: string, rest: string)
    requires |w| > 0 && forall k | 0 <= k < |w| :: IsWordChar(w[k])
    requires rest == [] || !IsWordChar(rest[0])
    ensures LanguageCapture(Some(LanguagePrefix + w + rest)) == Some(w)
    ensures LanguageCapture(None) == None
  {
    var s := LanguagePrefix + w + rest;
    assert s[..|LanguagePrefix|] == LanguagePrefix;
    assert s[|LanguagePrefix|] == w[0];
    assert LanguageAt(s, 0);
    assert s[|LanguagePrefix|..|LanguagePrefix| + |w|] == w;
  }

  // ---------------------------------------------------------------------------------------
  // A diagram container

  /** The placeholder written before rendering: an empty div with the diagram id, which is
      "mermaid-" followed by a fresh uuid. */
  function PlaceholderHtml(uuid: string): (r: string)
    ensures |r| == |uuid| + 25
    ensures r[..17] == "<div id=\"mermaid-" && r[17 + |uuid|..] == "\"></div>"
    ensures r[17..17 + |uuid|] == uuid
  {
    "<div id=\"" + ("mermaid-" + uuid) + "\"></div>"
  }

  /** Different uuids give different placeholders, so each render writes its own id. */
  lemma PlaceholderInjective(u1: string, u2: string)
    ensures PlaceholderHtml(u1) == PlaceholderHtml(u2) <==> u1 == u2
  {
    if PlaceholderHtml(u1) == PlaceholderHtml(u2) {
      var r := PlaceholderHtml(u1);
      assert |u1| == |u2|;
      assert u1 == r[17..17 + |u1|] == u2;
    }
  }

  /** The text shown when rendering fails: the diagram source inside `pre`, not escaped. */
  function FallbackHtml(code: string): (r: string)
    ensures |r| == |code| + 11
    ensures r[..5] == "<pre>" && r[5..5 + |code|] == code && r[5 + |code|..] == "</pre>"
  {
    "<pre>" + code + "</pre>"
  }

  /** The container element of a `MermaidDiagram`: whether its ref is still set, and its
      `innerHTML`. */
  class DiagramContainer {
    var attached: bool
    var innerHtml: string

    /** The rendered empty div. */
    constructor()
      ensures attached && innerHtml == []
    {
      attached, innerHtml := true, [];
    }

    /** The component unmounts: the ref becomes null. */
    method Detach()
      modifies this
      ensures !attached && innerHtml == old(innerHtml)
    {
      attached := false;
    }

    /** The synchronous part of `renderDiagram`: with the ref set, the placeholder is
        written and rendering starts. */
    method BeginRender(uuid: string) returns (started: bool)
      modifies this
      ensures started == attached && attached == old(attached)
      ensures started ==> innerHtml == PlaceholderHtml(uuid)
      ensures !started ==> innerHtml == old(innerHtml)
    {
      started := attached;
      if attached {
        innerHtml := PlaceholderHtml(uuid);
      }
    }

    /** The rest once the renderer has answered (`Some(svg)`, or `None` when it threw): the
        svg, or the fallback, written only while the ref is still set. */
    method CompleteRender(code: string, outcome: Option<string>)
      modifies this
      ensures attached == old(attached)
      ensures !attached ==> innerHtml == old(innerHtml)
      ensures attached && outcome.Some? ==> innerHtml == outcome.value
      ensures attached && outcome.None? ==> innerHtml == FallbackHtml(code)
    {
      if attached {
        match outcome
        case Some(svg) => innerHtml := svg;
        case None => innerHtml := FallbackHtml(code);
      }
    }
  }

  /** One run of the effect, with the unmount (if any) happening while the renderer works:
      a detached container keeps its content, an unmount during rendering leaves the
      placeholder, and otherwise the svg or the fallback is shown. */
  method RenderDiagram(c: DiagramContainer, uuid: string, code: string, outcome: Option<string>, unmountMeanwhile: bool)
    modifies c
    ensures !old(c.attached) ==> c.innerHtml == old(c.innerHtml)
    ensures old(c.attached) && unmountMeanwhile ==> c.innerHtml == PlaceholderHtml(uuid)
    ensures old(c.attached) && !unmountMeanwhile ==>
              c.innerHtml == (if outcome.Some? then outcome.value else FallbackHtml(code))
  {
    var started := c.BeginRender(uuid);
    if started {
      if unmountMeanwhile {
        c.Detach();
      }
      c.CompleteRender(code, outcome);
    }
  }

  /** Two runs of the effect on one `MermaidDiagram` instance whose `code` prop changes
      while the first render is in flight: that container keeps the result that arrives
      last, here the one for the superseded code, because the only guard is the ref. In the
      application this case does not arise, since `Preview` remounts the diagram on every
      render (`Remount`). */
  method OutOfOrderRenders(c: DiagramContainer, oldUuid: string, oldCode: string, oldSvg: string,
                           newUuid: string, newCode: string, newSvg: string)
    requires c.attached
    modifies c
    ensures c.attached && c.innerHtml == oldSvg
  {
    var first := c.BeginRender(oldUuid);
    var second := c.BeginRender(newUuid);
    c.CompleteRender(newCode, Some(newSvg));
    c.CompleteRender(oldCode, Some(oldSvg));
  }

  /** `Preview` renders again while a diagram's render is in flight. The `components`
      object, and with it the `code` component, is built afresh on every render, so React
      unmounts the old `MermaidDiagram` (nulling its ref) and mounts a new one with a new
      container, whose effect starts its own render. Whichever render answers last, the old
      one writes nothing and the new container ends with the new result. */
  method Remount(c: DiagramContainer, oldUuid: string, oldCode: string, oldOutcome: Option<string>,
                 newUuid: string, newCode: string, newOutcome: Option<string>, staleLast: bool)
    returns (d: DiagramContainer)
    requires c.attached
    modifies c
    ensures fresh(d)
    ensures !c.attached && c.innerHtml == PlaceholderHtml(oldUuid)
    ensures d.attached && d.innerHtml == (if newOutcome.Some? then newOutcome.value else FallbackHtml(newCode))
  {
    var first := c.BeginRender(oldUuid);
    c.Detach();
    d := new DiagramContainer();
    var second := d.BeginRender(newUuid);
    if staleLast {
      d.CompleteRender(newCode, newOutcome);
      c.CompleteRender(oldCode, oldOutcome);
    } else {
      c.CompleteRender(oldCode, oldOutcome);
      d.CompleteRender(newCode, newOutcome);
    }
  }
}

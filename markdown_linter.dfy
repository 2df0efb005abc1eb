/** The markdown lint scanner (src/utils/markdownLinter.js): two heading rules and two link
    rules applied line by line, each finding reported with its 1-based line and column. */
module MarkdownLinter {
  import opened Wrappers
  import opened Text

  /** The four rules; `Message` gives the `reason` text the source reports. */
  datatype Reason = SpaceAfterHash | HeadingWithoutContent | EmptyLinkText | EmptyLinkUrl {
    function Message(): string {
      match this
      case SpaceAfterHash => "Heading should have a space after #"
      case HeadingWithoutContent => "Heading should have content"
      case EmptyLinkText => "Link text should not be empty"
      case EmptyLinkUrl => "Link URL should not be empty"
    }

    predicate IsHeadingRule() { SpaceAfterHash? || HeadingWithoutContent? }
  }

  /** One `{line, column, reason}` record; line and column are 1-based. */
  datatype LintError = LintError(line: nat, column: nat, reason: Reason)

  // ---------------------------------------------------------------------------------------
  // Headings: `/^#+/.test(line)` and `line.match(/^(#+)(.*)$/)`

  /** The length of the run of '#' that starts the line. */
  function HashRun(line: string): (n: nat)
    ensures n <= |line|
    ensures forall i | 0 <= i < n :: line[i] == '#'
    ensures n == |line| || line[n] != '#'
  {
    if line != [] && line[0] == '#' then 1 + HashRun(line[1..]) else 0
  }

  predicate HasLineTerminator(s: string) {
    exists i | 0 <= i < |s| :: IsLineTerminator(s[i])
  }

  /** The two groups of a successful match of `/^(#+)(.*)$/`. */
  datatype HeadingMatch = HeadingMatch(hashes: string, content: string)

  /** `line.match(/^(#+)(.*)$/)`. Without the `m` flag the anchors are the ends of the
      string, and `.` matches no line terminator, so the match exists exactly when the line
      starts with '#' and has no line terminator; the greedy `#+` then takes the whole run. */
  function MatchHeading(line: string): (m: Option<HeadingMatch>)
    ensures m.Some? <==> line != [] && line[0] == '#' && !HasLineTerminator(line)
    ensures m.Some? ==> m.value.hashes + m.value.content == line
    ensures m.Some? ==> m.value.hashes != [] && forall i | 0 <= i < |m.value.hashes| :: m.value.hashes[i] == '#'
    ensures m.Some? ==> m.value.content == [] || m.value.content[0] != '#'
  {
    if line != [] && line[0] == '#' && !HasLineTerminator(line) then
      var n := HashRun(line);
      assert line[..n] + line[n..] == line;
      Some(HeadingMatch(line[..n], line[n..]))
    else
      None
  }

  /** The heading finding of a line numbered `lineNo`, if any: the if / else-if pair of the
      source, so at most one. The source's test `content.trim() === ''` is written
      `IsBlank(content)` here and in the rules below (`Text.TrimEmptyIffBlank`). */
  function HeadingError(line: string, lineNo: nat): Option<LintError> {
    if line != [] && line[0] == '#' then
      match MatchHeading(line)
      case None => None
      case Some(m) =>
        if !(m.content != [] && m.content[0] == ' ') then
          Some(LintError(lineNo, |m.hashes| + 1, SpaceAfterHash))
        else if IsBlank(m.content) then
          Some(LintError(lineNo, |m.hashes| + 2, HeadingWithoutContent))
        else
          None
    else
      None
  }

  // ---------------------------------------------------------------------------------------
  // Links: `/\[([^\]]+)\]\(([^)]+)\)/g`

  /** A match of the link pattern: its start index and its two groups. */
  datatype LinkMatch = LinkMatch(index: nat, text: string, url: string) {
    /** The index just past the match, where `lastIndex` moves to. */
    function End(): nat { index + |text| + |url| + 4 }
  }

  /** The first index at or after `i` holding `c`, or `|s|` when there is none. */
  function FirstFrom(s: string, i: nat, c: char): (j: nat)
    requires i <= |s|
    ensures i <= j <= |s|
    ensures forall k | i <= k < j :: s[k] != c
    ensures j < |s| ==> s[j] == c
    decreases |s| - i
  {
    if i == |s| || s[i] == c then i else FirstFrom(s, i + 1, c)
  }

  /** The text `[text](url)` as the pattern sees it. */
  function LinkText(text: string, url: string): string {
    "[" + text + "](" + url + ")"
  }

  /** The groups the pattern accepts: at least one character, and no closing bracket in
      the text, no closing parenthesis in the url. */
  predicate LinkGroups(text: string, url: string) {
    text != [] && ']' !in text && url != [] && ')' !in url
  }

  /** A character absent from `s[i..j]` position by position is absent from the slice. */
  lemma FreeOf(s: string, i: nat, j: nat, c: char)
    requires i <= j <= |s| && forall k | i <= k < j :: s[k] != c
    ensures c !in s[i..j]
  {
    forall k | 0 <= k < j - i
      ensures s[i..j][k] != c
    {
      assert s[i..j][k] == s[i + k];
    }
  }

  /** The characters of `[text](url)`. */
  lemma LinkTextChars(text: string, url: string)
    ensures var link := LinkText(text, url);
            && |link| == |text| + |url| + 4
            && link[0] == '[' && link[1 + |text|] == ']' && link[2 + |text|] == '('
            && link[3 + |text| + |url|] == ')'
            && (forall k | 0 <= k < |text| :: link[1 + k] == text[k])
            && (forall k | 0 <= k < |url| :: link[3 + |text| + k] == url[k])
  {
  }

  /** The text from an opening bracket to a closing parenthesis, with the bracket and the
      parenthesis between, reads `[text](url)`. */
  lemma LinkSlice(line: string, p: nat, q: nat, r: nat)
    requires p < q && q + 2 <= r < |line|
    requires line[p] == '[' && line[q] == ']' && line[q + 1] == '(' && line[r] == ')'
    ensures line[p..r + 1] == LinkText(line[p + 1..q], line[q + 2..r])
  {
    var text, url := line[p + 1..q], line[q + 2..r];
    LinkTextChars(text, url);
    var link := LinkText(text, url);
    forall k | 0 <= k < |link|
      ensures line[p..r + 1][k] == link[k]
    {
      if 1 <= k < 1 + |text| {
        assert link[k] == text[k - 1];
      } else if 3 + |text| <= k < 3 + |text| + |url| {
        assert link[k] == url[k - 3 - |text|];
      }
    }
  }

  /** The match of the link pattern that starts exactly at `p`, if any. `[^\]]+` can only
      stop at the first ']' and `[^)]+` only at the first ')', so backtracking never finds
      another split. */
  function LinkAt(line: string, p: nat): (m: Option<LinkMatch>)
    requires p <= |line|
    ensures m.Some? ==> m.value.index == p && m.value.End() <= |line|
    ensures m.Some? ==> LinkGroups(m.value.text, m.value.url)
    ensures m.Some? ==> line[p..m.value.End()] == LinkText(m.value.text, m.value.url)
  {
    if p < |line| && line[p] == '[' then
      var q := FirstFrom(line, p + 1, ']');
      if q > p + 1 && q + 1 < |line| && line[q + 1] == '(' then
        var r := FirstFrom(line, q + 2, ')');
        if r > q + 2 && r < |line| then
          FreeOf(line, p + 1, q, ']');
          FreeOf(line, q + 2, r, ')');
          LinkSlice(line, p, q, r);
          Some(LinkMatch(p, line[p + 1..q], line[q + 2..r]))
        else
          None
      else
        None
    else
      None
  }

  /** `FirstFrom` stops at the first occurrence. */
  lemma {:induction false} FirstFromIs(s: string, i: nat, j: nat, c: char)
    requires i <= j < |s| && s[j] == c && forall k | i <= k < j :: s[k] != c
    ensures FirstFrom(s, i, c) == j
    decreases j - i
  {
    if i < j {
      FirstFromIs(s, i + 1, j, c);
    }
  }

  /** Where the scan of `LinkAt` stops on an occurrence of `[text](url)`: on the bracket
      at `q` and the parenthesis at `r`. */
  lemma LinkScan(line: string, p: nat, text: string, url: string, q: nat, r: nat)
    requires LinkGroups(text, url)
    requires StartsAt(line, p, LinkText(text, url))
    requires q == p + 1 + |text| && r == q + 2 + |url|
    ensures p < |line| && line[p] == '['
    ensures FirstFrom(line, p + 1, ']') == q && q > p + 1
    ensures q + 1 < |line| && line[q + 1] == '('
    ensures FirstFrom(line, q + 2, ')') == r && r > q + 2 && r < |line|
    ensures line[p + 1..q] == text && line[q + 2..r] == url
  {
    var link := LinkText(text, url);
    LinkTextChars(text, url);
    forall k | 0 <= k < |link|
      ensures line[p + k] == link[k]
    {
      assert line[p..p + |link|][k] == link[k];
    }
    assert line[p] == '[' && line[q] == ']' && line[q + 1] == '(' && line[r] == ')' by {
      assert line[p + (1 + |text|)] == link[1 + |text|];
      assert line[p + (2 + |text|)] == link[2 + |text|];
      assert line[p + (3 + |text| + |url|)] == link[3 + |text| + |url|];
    }
    forall k | 0 <= k < |text|
      ensures line[p + 1 + k] == text[k]
    {
      assert line[p + (1 + k)] == link[1 + k];
    }
    forall k | 0 <= k < |url|
      ensures line[q + 2 + k] == url[k]
    {
      assert line[p + (3 + |text| + k)] == link[3 + |text| + k];
    }
    forall k | p + 1 <= k < q
      ensures line[k] != ']'
    {
      assert line[p + 1 + (k - p - 1)] == text[k - p - 1];
      assert text[k - p - 1] in text;
    }
    forall k | q + 2 <= k < r
      ensures line[k] != ')'
    {
      assert line[q + 2 + (k - q - 2)] == url[k - q - 2];
      assert url[k - q - 2] in url;
    }
    FirstFromIs(line, p + 1, q, ']');
    FirstFromIs(line, q + 2, r, ')');
    assert line[p + 1..q] == text;
    assert line[q + 2..r] == url;
  }

  /** Conversely, every occurrence of `[text](url)` with acceptable groups is the match
      that starts there. */
  lemma LinkAtComplete(line: string, p: nat, text: string, url: string)
    requires LinkGroups(text, url)
    requires StartsAt(line, p, LinkText(text, url))
    ensures LinkAt(line, p) == Some(LinkMatch(p, text, url))
  {
    var q := p + 1 + |text|;
    var r := q + 2 + |url|;
    LinkScan(line, p, text, url, q, r);
    LinkAtOf(line, p, q, r);
  }

  /** The match `LinkAt` returns once the two searches have stopped at `q` and `r`. */
  lemma LinkAtOf(line: string, p: nat, q: nat, r: nat)
    requires p < |line| && line[p] == '['
    requires FirstFrom(line, p + 1, ']') == q && q > p + 1
    requires q + 1 < |line| && line[q + 1] == '('
    requires FirstFrom(line, q + 2, ')') == r && r > q + 2 && r < |line|
    ensures LinkAt(line, p) == Some(LinkMatch(p, line[p + 1..q], line[q + 2..r]))
  {
  }

  /** `linkRegex.exec(line)` with `lastIndex == from`: the leftmost match at or after `from`. */
  function Exec(line: string, from: nat): (m: Option<LinkMatch>)
    requires from <= |line|
    ensures m.Some? ==> from <= m.value.index <= |line| && LinkAt(line, m.value.index) == m
    ensures m.Some? ==> forall p | from <= p < m.value.index :: LinkAt(line, p).None?
    ensures m.None? ==> forall p | from <= p <= |line| :: LinkAt(line, p).None?
    decreases |line| - from
  {
    var here := LinkAt(line, from);
    if here.Some? then here
    else if from == |line| then None
    else Exec(line, from + 1)
  }

  /** The matches the `while (exec)` loop visits from `from` on: left to right, each search
      resuming where the previous match ended. */
  function Links(line: string, from: nat): seq<LinkMatch>
    requires from <= |line|
    decreases |line| - from
  {
    match Exec(line, from)
    case None => []
    case Some(m) => [m] + Links(line, m.End())
  }

  /** The findings of one match: the text rule first, then the url rule. */
  function MatchErrors(m: LinkMatch, lineNo: nat): seq<LintError> {
    (if IsBlank(m.text) then [LintError(lineNo, m.index + 1, EmptyLinkText)] else [])
    + (if IsBlank(m.url) then [LintError(lineNo, m.index + |m.text| + 3, EmptyLinkUrl)] else [])
  }

  /** The findings of a run of matches, in match order. */
  function LinkErrors(ms: seq<LinkMatch>, lineNo: nat): seq<LintError> {
    if ms == [] then [] else MatchErrors(ms[0], lineNo) + LinkErrors(ms[1..], lineNo)
  }

  // ---------------------------------------------------------------------------------------
  // The whole scan

  function OptionToSeq(e: Option<LintError>): seq<LintError> {
    if e.Some? then [e.value] else []
  }

  /** The findings of line number `lineNo` (1-based): its heading finding, then the
      findings of its links. */
  function LineErrors(line: string, lineNo: nat): seq<LintError> {
    OptionToSeq(HeadingError(line, lineNo)) + LinkErrors(Links(line, 0), lineNo)
  }

  /** The findings of the first `n` lines. */
  function LintPrefix(lines: seq<string>, n: nat): seq<LintError>
    requires n <= |lines|
  {
    if n == 0 then [] else LintPrefix(lines, n - 1) + LineErrors(lines[n - 1], n)
  }

  /** What `lintMarkdown` resolves to. */
  function Lint(markdown: string): seq<LintError> {
    var lines := Split(markdown, '\n');
    LintPrefix(lines, |lines|)
  }

  /** `lintMarkdown`: the lines of the split, each handed to the `forEach` callback. */
  method LintMarkdown(markdown: string) returns (errors: seq<LintError>)
    ensures errors == Lint(markdown)
  {
    errors := [];
    var lines := Split(markdown, '\n');
    for index := 0 to |lines|
      invariant errors == LintPrefix(lines, index)
    {
      errors := CheckLine(errors, lines[index], index);
    }
  }

  /** The `forEach` callback for the line at 0-based `index`: the heading check, then the
      link check, each pushing to `errors`. */
  method CheckLine(errors: seq<LintError>, line: string, index: nat) returns (pushed: seq<LintError>)
    ensures pushed == errors + LineErrors(line, index + 1)
  {
    ghost var heading := OptionToSeq(HeadingError(line, index + 1));
    ghost var links := LinkErrors(Links(line, 0), index + 1);
    pushed := CheckHeading(errors, line, index);
    pushed := CheckLinks(pushed, line, index);
    AppendAssoc(errors, heading, links);
  }

  /** The heading check: `/^#+/.test(line)`, then the match and its if / else-if pair. */
  method CheckHeading(errors: seq<LintError>, line: string, index: nat) returns (pushed: seq<LintError>)
    ensures pushed == errors + OptionToSeq(HeadingError(line, index + 1))
  {
    pushed := errors;
    if line != [] && line[0] == '#' {
      var headingMatch := MatchHeading(line);
      if headingMatch.Some? {
        var hashes, content := headingMatch.value.hashes, headingMatch.value.content;
        if !(content != [] && content[0] == ' ') {
          pushed := pushed + [LintError(index + 1, |hashes| + 1, SpaceAfterHash)];
        } else if IsBlank(content) {
          pushed := pushed + [LintError(index + 1, |hashes| + 2, HeadingWithoutContent)];
        }
      }
    }
  }

  /** The link check: the `while` loop over `linkRegex.exec(line)`, whose `lastIndex`
      moves past each match, pushing each match's findings. */
  method CheckLinks(errors: seq<LintError>, line: string, index: nat) returns (pushed: seq<LintError>)
    ensures pushed == errors + LinkErrors(Links(line, 0), index + 1)
  {
    pushed := errors;
    var lastIndex := 0;
    var match_ := Exec(line, lastIndex);
    while match_.Some?
      invariant lastIndex <= |line|
      invariant match_ == Exec(line, lastIndex)
      invariant errors + LinkErrors(Links(line, 0), index + 1)
                == pushed + LinkErrors(Links(line, lastIndex), index + 1)
      decreases |line| - lastIndex
    {
      var m := match_.value;
      ghost var before := pushed;
      if IsBlank(m.text) {
        pushed := pushed + [LintError(index + 1, m.index + 1, EmptyLinkText)];
      }
      ghost var afterText := pushed;
      if IsBlank(m.url) {
        pushed := pushed + [LintError(index + 1, m.index + |m.text| + 3, EmptyLinkUrl)];
      }
      PushedMatchErrors(before, afterText, pushed, m, index + 1);
      Advance(line, lastIndex, index + 1);
      AppendAssoc(before, MatchErrors(m, index + 1), LinkErrors(Links(line, m.End()), index + 1));
      lastIndex := m.End();
      match_ := Exec(line, lastIndex);
    }
    assert Links(line, lastIndex) == [];
  }

  /** One turn of the `exec` loop: the match found contributes the next findings, and
      `lastIndex` strictly grows. */
  lemma Advance(line: string, from: nat, lineNo: nat)
    requires from <= |line| && Exec(line, from).Some?
    ensures from < Exec(line, from).value.End() <= |line|
    ensures LinkErrors(Links(line, from), lineNo)
            == MatchErrors(Exec(line, from).value, lineNo) + LinkErrors(Links(line, Exec(line, from).value.End()), lineNo)
  {
    LinksStep(line, from);
    var m := Exec(line, from).value;
    assert ([m] + Links(line, m.End()))[1..] == Links(line, m.End());
  }

  /** The two `if`s of the loop body push exactly the match's findings. */
  lemma PushedMatchErrors(before: seq<LintError>, afterText: seq<LintError>, after: seq<LintError>,
                          m: LinkMatch, lineNo: nat)
    requires afterText == before + (if IsBlank(m.text) then [LintError(lineNo, m.index + 1, EmptyLinkText)] else [])
    requires after == afterText + (if IsBlank(m.url) then [LintError(lineNo, m.index + |m.text| + 3, EmptyLinkUrl)] else [])
    ensures after == before + MatchErrors(m, lineNo)
  {
  }

  lemma AppendAssoc<T>(a: seq<T>, b: seq<T>, c: seq<T>)
    ensures (a + b) + c == a + (b + c)
  {
  }

  lemma LinksStep(line: string, from: nat)
    requires from <= |line| && Exec(line, from).Some?
    ensures from < Exec(line, from).value.End() <= |line|
    ensures Links(line, from) == [Exec(line, from).value] + Links(line, Exec(line, from).value.End())
  {
    var m := Exec(line, from).value;
    assert LinkAt(line, m.index) == Some(m);
  }

  // ---------------------------------------------------------------------------------------
  // Properties of the scan

  /** Every finding names one of the lines 1..n. */
  predicate LinesWithin(errs: seq<LintError>, n: nat) {
    forall i | 0 <= i < |errs| :: 1 <= errs[i].line <= n
  }

  /** The findings are ordered by line. */
  predicate OrderedByLine(errs: seq<LintError>) {
    forall i, j | 0 <= i < j < |errs| :: errs[i].line <= errs[j].line
  }

  /** Every finding is on line `n`. */
  predicate OnLine(errs: seq<LintError>, n: nat) {
    forall i | 0 <= i < |errs| :: errs[i].line == n
  }

  /** Findings of the lines 1..n, ordered by line. */
  predicate NumberedInOrder(errs: seq<LintError>, n: nat) {
    LinesWithin(errs, n) && OrderedByLine(errs)
  }

  /** Appending the findings of line `n` to findings of earlier lines keeps both. */
  lemma AppendLineFindings(errs: seq<LintError>, before: seq<LintError>, here: seq<LintError>, n: nat)
    requires 1 <= n
    ensures errs == before + here && NumberedInOrder(before, n - 1) && OnLine(here, n) ==> NumberedInOrder(errs, n)
  {
    if errs == before + here && NumberedInOrder(before, n - 1) && OnLine(here, n) {
      forall i | 0 <= i < |errs|
        ensures errs[i].line == (if i < |before| then before[i].line else n)
      {
        if i >= |before| {
          assert errs[i] == here[i - |before|];
        }
      }
    }
  }

  /** The findings of line `n` extend ordered findings of the lines before it. */
  lemma LintPrefixStep(lines: seq<string>, n: nat, before: seq<LintError>, errs: seq<LintError>)
    requires 1 <= n <= |lines|
    requires before == LintPrefix(lines, n - 1) && errs == LintPrefix(lines, n)
    ensures NumberedInOrder(before, n - 1) ==> NumberedInOrder(errs, n)
  {
    LineErrorsOnLine(lines[n - 1], n);
    AppendLineFindings(errs, before, LineErrors(lines[n - 1], n), n);
  }

  lemma {:induction false} LintPrefixNumbered(lines: seq<string>, n: nat, errs: seq<LintError>)
    requires n <= |lines| && errs == LintPrefix(lines, n)
    ensures NumberedInOrder(errs, n)
  {
    if n > 0 {
      var before := LintPrefix(lines, n - 1);
      LintPrefixNumbered(lines, n - 1, before);
      LintPrefixStep(lines, n, before, errs);
    }
  }

  /** Every finding carries the 1-based number of a line of the input, and the findings
      are ordered by line. */
  lemma LintPrefixLines(lines: seq<string>, n: nat)
    requires n <= |lines|
    ensures LinesWithin(LintPrefix(lines, n), n)
    ensures OrderedByLine(LintPrefix(lines, n))
  {
    LintPrefixNumbered(lines, n, LintPrefix(lines, n));
  }

  lemma {:induction false} LinkErrorsOnLine(ms: seq<LinkMatch>, lineNo: nat)
    ensures forall e | e in LinkErrors(ms, lineNo) :: e.line == lineNo && !e.reason.IsHeadingRule()
  {
    if ms != [] {
      LinkErrorsOnLine(ms[1..], lineNo);
      MatchErrorsOnLine(ms[0], lineNo);
    }
  }

  lemma MatchErrorsOnLine(m: LinkMatch, lineNo: nat)
    ensures forall e | e in MatchErrors(m, lineNo) :: e.line == lineNo && !e.reason.IsHeadingRule()
  {
    var t := if IsBlank(m.text) then [LintError(lineNo, m.index + 1, EmptyLinkText)] else [];
    var u := if IsBlank(m.url) then [LintError(lineNo, m.index + |m.text| + 3, EmptyLinkUrl)] else [];
    assert MatchErrors(m, lineNo) == t + u;
  }

  lemma LineErrorsOnLine(line: string, lineNo: nat)
    ensures OnLine(LineErrors(line, lineNo), lineNo)
  {
    var h: seq<LintError> := OptionToSeq(HeadingError(line, lineNo));
    var links := LinkErrors(Links(line, 0), lineNo);
    LinkErrorsOnLine(Links(line, 0), lineNo);
    assert OnLine(links, lineNo) by {
      forall i | 0 <= i < |links|
        ensures links[i].line == lineNo
      {
        assert links[i] in links;
      }
    }
    OnLineAppend(h, links, lineNo);
  }

  lemma OnLineAppend(a: seq<LintError>, b: seq<LintError>, n: nat)
    ensures OnLine(a, n) && OnLine(b, n) ==> OnLine(a + b, n)
  {
    if OnLine(a, n) && OnLine(b, n) {
      forall i | 0 <= i < |a + b|
        ensures (a + b)[i].line == n
      {
        if i >= |a| {
          assert (a + b)[i] == b[i - |a|];
        }
      }
    }
  }

  lemma LintLinesAndOrder(markdown: string)
    ensures LinesWithin(Lint(markdown), |Split(markdown, '\n')|)
    ensures OrderedByLine(Lint(markdown))
  {
    var lines := Split(markdown, '\n');
    LintPrefixLines(lines, |lines|);
  }

  /** Only the first finding can come from a heading rule, and then it is the heading
      finding. */
  predicate HeadingFindingFirst(errs: seq<LintError>, heading: Option<LintError>) {
    forall i | 0 <= i < |errs| && errs[i].reason.IsHeadingRule() ::
      i == 0 && heading == Some(errs[0])
  }

  /** A line yields at most one heading finding, and it comes before the link findings. */
  lemma HeadingErrorFirst(line: string, lineNo: nat)
    ensures HeadingFindingFirst(LineErrors(line, lineNo), HeadingError(line, lineNo))
  {
    var h: seq<LintError> := OptionToSeq(HeadingError(line, lineNo));
    var links := LinkErrors(Links(line, 0), lineNo);
    var errs := h + links;
    LinkErrorsOnLine(Links(line, 0), lineNo);
    forall i | 0 <= i < |errs| && errs[i].reason.IsHeadingRule()
      ensures i == 0 && HeadingError(line, lineNo) == Some(errs[0])
    {
    }
  }

  /** A heading whose text after the '#' run does not start with a space (a bare "#"
      included) is reported at the column just after the run. */
  lemma HeadingNeedsSpace(line: string, lineNo: nat)
    requires line != [] && line[0] == '#' && !HasLineTerminator(line)
    requires HashRun(line) == |line| || line[HashRun(line)] != ' '
    ensures LineErrors(line, lineNo)[0] == LintError(lineNo, HashRun(line) + 1, SpaceAfterHash)
  {
    var m := MatchHeading(line).value;
    assert m.hashes == line[..|m.hashes|];
    assert |m.hashes| == HashRun(line) by {
      HashRunOfMatch(line, m.hashes, m.content);
    }
    if m.content != [] {
      assert m.content[0] == line[|m.hashes|];
    }
  }

  /** A heading whose text after the '#' run is a space followed only by whitespace is
      reported two columns after the run. */
  lemma HeadingNeedsContent(line: string, lineNo: nat)
    requires line != [] && line[0] == '#' && !HasLineTerminator(line)
    requires HashRun(line) < |line| && line[HashRun(line)] == ' '
    requires IsBlank(line[HashRun(line)..])
    ensures LineErrors(line, lineNo)[0] == LintError(lineNo, HashRun(line) + 2, HeadingWithoutContent)
  {
    var m := MatchHeading(line).value;
    HashRunOfMatch(line, m.hashes, m.content);
    assert m.content == line[HashRun(line)..];
  }

  /** A heading with a space and then some non-whitespace text has no heading finding. */
  lemma WellFormedHeading(line: string, lineNo: nat)
    requires line != [] && line[0] == '#'
    requires HashRun(line) < |line| && line[HashRun(line)] == ' '
    requires !IsBlank(line[HashRun(line)..])
    ensures HeadingError(line, lineNo).None?
  {
    if MatchHeading(line).Some? {
      var m := MatchHeading(line).value;
      HashRunOfMatch(line, m.hashes, m.content);
      assert m.content == line[HashRun(line)..];
    }
  }

  lemma {:induction false} HashRunOfMatch(line: string, hashes: string, content: string)
    requires hashes + content == line
    requires forall i | 0 <= i < |hashes| :: hashes[i] == '#'
    requires content == [] || content[0] != '#'
    ensures HashRun(line) == |hashes|
  {
    if hashes != [] {
      assert line[1..] == hashes[1..] + content;
      HashRunOfMatch(line[1..], hashes[1..], content);
    } else if line != [] {
      assert line[0] == content[0];
    }
  }

  /** `.` does not match CR, LINE SEPARATOR or PARAGRAPH SEPARATOR, so a line holding one
      of them (a CRLF document's lines, say) never gets a heading finding. */
  lemma NoHeadingErrorWithTerminator(line: string, lineNo: nat)
    requires HasLineTerminator(line)
    ensures HeadingError(line, lineNo).None?
    ensures forall e | e in LineErrors(line, lineNo) :: !e.reason.IsHeadingRule()
  {
    LinkErrorsOnLine(Links(line, 0), lineNo);
  }

  /** Every match starts at or after `from` and ends inside the line, and each starts at
      or after the end of the one before. */
  predicate InOrder(ms: seq<LinkMatch>, from: nat, len: nat) {
    && (forall i | 0 <= i < |ms| :: from <= ms[i].index && ms[i].End() <= len)
    && (forall i | 0 <= i < |ms| - 1 :: ms[i].End() <= ms[i + 1].index)
  }

  /** A match before matches in order after its end gives matches in order. */
  lemma ConsInOrder(m: LinkMatch, rest: seq<LinkMatch>, from: nat, len: nat)
    requires from <= m.index && m.End() <= len && InOrder(rest, m.End(), len)
    ensures InOrder([m] + rest, from, len)
  {
    var ms := [m] + rest;
    forall i | 0 < i < |ms|
      ensures ms[i] == rest[i - 1]
    {
    }
  }

  /** Matches are found left to right and do not overlap. */
  lemma {:induction false} LinksOrdered(line: string, from: nat)
    requires from <= |line|
    ensures InOrder(Links(line, from), from, |line|)
    decreases |line| - from
  {
    if Exec(line, from).Some? {
      var m := Exec(line, from).value;
      LinksStep(line, from);
      LinksOrdered(line, m.End());
      ConsInOrder(m, Links(line, m.End()), from, |line|);
    }
  }

  /** The findings of one match: a whitespace-only text is reported at the 1-based column
      `index + 1`, a whitespace-only url at `index + |text| + 3`, text rule first. */
  lemma MatchErrorsColumns(m: LinkMatch, lineNo: nat)
    ensures var errs := MatchErrors(m, lineNo);
            && (LintError(lineNo, m.index + 1, EmptyLinkText) in errs <==> IsBlank(m.text))
            && (LintError(lineNo, m.index + |m.text| + 3, EmptyLinkUrl) in errs <==> IsBlank(m.url))
            && |errs| == (if IsBlank(m.text) then 1 else 0) + (if IsBlank(m.url) then 1 else 0)
            && (IsBlank(m.text) && IsBlank(m.url) ==> errs[0].reason == EmptyLinkText)
  {
  }
  /** On the line, the text column is that of the `[` and the url column is that of the
      `(`, one before the url's first character. */
  lemma ColumnsOnLine(line: string, p: nat)
    requires p <= |line| && LinkAt(line, p).Some?
    ensures var m := LinkAt(line, p).value;
            && line[(m.index + 1) - 1] == '['
            && line[(m.index + |m.text| + 3) - 1] == '('
            && (m.index + |m.text| + 3) - 1 + 1 < |line|
            && line[(m.index + |m.text| + 3) - 1 + 1] == m.url[0]
  {
    var m := LinkAt(line, p).value;
    var link := LinkText(m.text, m.url);
    LinkTextChars(m.text, m.url);
    assert line[p..m.End()] == link;
    assert line[p] == link[0];
    assert line[p + (2 + |m.text|)] == link[2 + |m.text|];
    assert line[p + (3 + |m.text| + 0)] == link[3 + |m.text| + 0];
  }


  /** The empty link the toolbar inserts, "[](url)", is not a match at all: the text group
      needs a character. */
  lemma ToolbarEmptyLinkNotReported()
    ensures Links("[](url)", 0) == []
  {
    var s := "[](url)";
    assert LinkAt(s, 0).None? by {
      assert FirstFrom(s, 1, ']') == 1;
    }
    assert LinkAt(s, 1).None?;
    assert FirstFrom(s, 4, ')') == 6;
    assert LinkAt(s, 2).None?;
    assert LinkAt(s, 3).None?;
    assert LinkAt(s, 4).None?;
    assert LinkAt(s, 5).None?;
    assert LinkAt(s, 6).None?;
    assert LinkAt(s, 7).None?;
    assert Exec(s, 0).None?;
  }

  /** A whitespace-only link text at the start of a line: one finding at column 1. */
  lemma BlankLinkText()
    ensures LineErrors("[ ](u)", 1) == [LintError(1, 1, EmptyLinkText)]
  {
    var s := "[ ](u)";
    LinkAtComplete(s, 0, " ", "u");
    assert Exec(s, 0) == Some(LinkMatch(0, " ", "u"));
    assert Exec(s, 6).None?;
    assert Links(s, 0) == [LinkMatch(0, " ", "u")];
    assert !IsBlank("u");
  }
}

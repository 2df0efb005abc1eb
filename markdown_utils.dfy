/** The blank-line placeholder rewriter run on the markdown before it is previewed
    (src/utils/markdownUtils.js). */
module MarkdownUtils {
  import opened Text

  /** The text that stands in for a blank line, so that the renderer keeps the line. */
  const Placeholder: string := "&nbsp;"

  /** One line after rewriting: a line whose `trim()` is empty becomes the placeholder. */
  function RewriteLine(line: string): string {
    if Trim(line) == "" then Placeholder else line
  }

  /** `processMarkdown`: split on '\n', rewrite each line, join with '\n'. */
  function ProcessMarkdown(markdown: string): string {
    var lines := Split(markdown, '\n');
    Join(seq(|lines|, i requires 0 <= i < |lines| => RewriteLine(lines[i])), '\n')
  }

  lemma PlaceholderIsNotBlank()
    ensures !IsBlank(Placeholder) && '\n' !in Placeholder
  {
    assert !IsJsWhitespace(Placeholder[0]);
  }

  /** The output, split again, is the input's lines rewritten one by one: as many lines as
      the input, in the same order, each blank one replaced by the placeholder and every
      other one kept exactly (leading and trailing whitespace included). */
  lemma {:induction false} ProcessedLines(markdown: string)
    ensures var lines := Split(markdown, '\n');
            var out := Split(ProcessMarkdown(markdown), '\n');
            && |out| == |lines|
            && forall i | 0 <= i < |lines| ::
                 out[i] == (if IsBlank(lines[i]) then Placeholder else lines[i])
  {
    var lines := Split(markdown, '\n');
    var rewritten := seq(|lines|, i requires 0 <= i < |lines| => RewriteLine(lines[i]));
    PlaceholderIsNotBlank();
    assert forall i | 0 <= i < |rewritten| :: '\n' !in rewritten[i];
    SplitJoin(rewritten, '\n');
    forall i | 0 <= i < |lines|
      ensures rewritten[i] == (if IsBlank(lines[i]) then Placeholder else lines[i])
    {
      TrimEmptyIffBlank(lines[i]);
    }
  }

  predicate NoBlankLine(lines: seq<string>) {
    forall i | 0 <= i < |lines| :: !IsBlank(lines[i])
  }

  /** No line of the output is whitespace-only. */
  lemma NoBlankOutputLine(markdown: string)
    ensures NoBlankLine(Split(ProcessMarkdown(markdown), '\n'))
  {
    ProcessedLines(markdown);
    PlaceholderIsNotBlank();
  }

  /** Splitting "" gives one blank line, so the empty document becomes one placeholder. */
  lemma EmptyDocument()
    ensures ProcessMarkdown("") == Placeholder
  {
    assert Split("", '\n') == [""];
    TrimEmptyIffBlank("");
  }

  /** A document without blank lines is returned unchanged. */
  lemma {:induction false} NoBlankLineUnchanged(markdown: string)
    requires NoBlankLine(Split(markdown, '\n'))
    ensures ProcessMarkdown(markdown) == markdown
  {
    var lines := Split(markdown, '\n');
    var rewritten := seq(|lines|, i requires 0 <= i < |lines| => RewriteLine(lines[i]));
    forall i | 0 <= i < |lines| ensures rewritten[i] == lines[i] {
      TrimEmptyIffBlank(lines[i]);
    }
    assert rewritten == lines;
    JoinSplit(markdown, '\n');
  }

  /** Rewriting twice is rewriting once: the placeholder is not blank. */
  lemma Idempotent(markdown: string)
    ensures ProcessMarkdown(ProcessMarkdown(markdown)) == ProcessMarkdown(markdown)
  {
    NoBlankOutputLine(markdown);
    NoBlankLineUnchanged(ProcessMarkdown(markdown));
  }
}

/**
 * The whole converter: `tokenize`, then `parse`, then `render`, as the end
 * of md.ts chains them.
 */
module Pipeline {
  import opened Text
  import Tokenizer
  import opened BlockParser
  import BlockRenderer

  /** The HTML the converter produces for a markdown text. */
  function ConvertSpec(markdown: string): string {
    BlockRenderer.Render(ParseSpec(Tokenizer.TokenizeSpec(markdown)))
  }

  /** Runs the three stages in order on one markdown text. */
  method Convert(markdown: string) returns (html: string)
    ensures html == ConvertSpec(markdown)
  {
    var tokens := Tokenizer.Tokenize(markdown);
    var root := Parse(tokens);
    html := BlockRenderer.Render(Abs(root));
  }

  /** No markdown text gives a table node: every separator line is taken as a table row first. */
  lemma NoTableNodes(markdown: string)
    ensures var cs := ParseSpec(Tokenizer.TokenizeSpec(markdown)).children;
      forall i :: 0 <= i < |cs| ==> !cs[i].kind.Table?
  {
    var tokens := Tokenizer.TokenizeSpec(markdown);
    var lines := Split(markdown, '\n');
    forall i | 0 <= i < |tokens| ensures tokens[i].kind != Tokenizer.TableSeparator {
      assert tokens[i] == Tokenizer.Classify(Tokenizer.InCodeBefore(lines, i), lines[i]).1;
    }
    ParseWithoutSeparators(tokens);
  }

  /** The `<p>` element of each line. */
  function ParagraphsHtml(lines: seq<string>): (ps: seq<string>)
    ensures |ps| == |lines|
    ensures forall i :: 0 <= i < |lines| ==> ps[i] == "<p>" + lines[i] + "</p>"
  {
    seq(|lines|, i requires 0 <= i < |lines| => "<p>" + lines[i] + "</p>")
  }

  /** A line none of whose patterns apply and which holds no inline markup. */
  predicate PlainLine(line: string) {
    && '\n' !in line && Tokenizer.PlainStart(line) && !Tokenizer.IsRule(line)
    && '`' !in line && '*' !in line && ']' !in line
  }

  /** Plain lines are tokenized as paragraphs, each holding its whole line. */
  lemma TokenizePlain(lines: seq<string>)
    requires |lines| > 0
    requires forall i :: 0 <= i < |lines| ==> PlainLine(lines[i])
    ensures var tokens := Tokenizer.TokenizeSpec(Join(lines, "\n"));
      && |tokens| == |lines|
      && forall i :: 0 <= i < |lines| ==> tokens[i] == Tokenizer.Token(Tokenizer.Paragraph, lines[i])
  {
    SplitJoin(lines, '\n');
    forall i | 0 <= i < |lines|
      ensures Tokenizer.MatchFence(lines[i]).None?
      ensures Tokenizer.ClassifyNormal(lines[i]) == Tokenizer.Token(Tokenizer.Paragraph, lines[i])
    {
      Tokenizer.ParagraphLine(lines[i]);
    }
    Tokenizer.TokenizeWithoutFences(lines);
  }

  /** Paragraph nodes of plain text render to their `<p>` elements. */
  lemma RenderPlainParagraphs(lines: seq<string>, cs: seq<Node>)
    requires |cs| == |lines|
    requires forall i :: 0 <= i < |lines| ==> PlainLine(lines[i]) && cs[i] == Node(Paragraph, lines[i], [])
    ensures BlockRenderer.RenderAll(cs) == ParagraphsHtml(lines)
  {
    forall i | 0 <= i < |cs| ensures BlockRenderer.RenderAll(cs)[i] == ParagraphsHtml(lines)[i] {
      BlockRenderer.PlainParagraph(lines[i]);
    }
  }

  /** A paragraph node per line. */
  function ParagraphsOf(lines: seq<string>): (cs: seq<Node>)
    ensures |cs| == |lines|
    ensures forall i :: 0 <= i < |lines| ==> cs[i] == Node(Paragraph, lines[i], [])
  {
    seq(|lines|, i requires 0 <= i < |lines| => Node(Paragraph, lines[i], []))
  }

  /** Paragraph tokens holding the lines parse to one paragraph node per line. */
  lemma ParseParagraphTokens(tokens: seq<Tokenizer.Token>, lines: seq<string>)
    requires |tokens| == |lines|
    requires forall i :: 0 <= i < |lines| ==> tokens[i] == Tokenizer.Token(Tokenizer.Paragraph, lines[i])
    ensures ParseSpec(tokens) == Node(Root, "", ParagraphsOf(lines))
  {
    ParseParagraphs(tokens);
    var cs, ps := ParagraphNodes(tokens), ParagraphsOf(lines);
    forall i | 0 <= i < |cs| ensures cs[i] == ps[i] {
    }
    assert cs == ps;
  }

  /** A document of plain lines parses to one paragraph per line, directly under the root. */
  lemma ParsePlain(lines: seq<string>)
    requires |lines| > 0
    requires forall i :: 0 <= i < |lines| ==> PlainLine(lines[i])
    ensures ParseSpec(Tokenizer.TokenizeSpec(Join(lines, "\n"))) == Node(Root, "", ParagraphsOf(lines))
  {
    TokenizePlain(lines);
    ParseParagraphTokens(Tokenizer.TokenizeSpec(Join(lines, "\n")), lines);
  }

  /** A document of plain lines becomes one paragraph per line, each line's text kept, one per output line. */
  lemma PlainDocument(lines: seq<string>)
    requires |lines| > 0
    requires forall i :: 0 <= i < |lines| ==> PlainLine(lines[i])
    ensures ConvertSpec(Join(lines, "\n")) == Join(ParagraphsHtml(lines), "\n")
  {
    ParsePlain(lines);
    RenderPlainParagraphs(lines, ParagraphsOf(lines));
  }

  /** A document of table lines renders to nothing: rows are buffered and never flushed. */
  lemma TableLinesVanish(lines: seq<string>)
    requires |lines| > 0
    requires forall i :: 0 <= i < |lines| ==> '\n' !in lines[i] && Tokenizer.IsTableRow(lines[i])
    ensures ConvertSpec(Join(lines, "\n")) == ""
  {
    SplitJoin(lines, '\n');
    forall i | 0 <= i < |lines| ensures Tokenizer.MatchFence(lines[i]).None? {
      Tokenizer.TableLine(lines[i]);
    }
    Tokenizer.TokenizeWithoutFences(lines);
    var tokens := Tokenizer.TokenizeSpec(Join(lines, "\n"));
    forall i | 0 <= i < |tokens| ensures tokens[i].kind == Tokenizer.TableRow {
      Tokenizer.TableLine(lines[i]);
    }
    RunTableRows(tokens);
  }
}

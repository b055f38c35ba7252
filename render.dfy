/**
 * The block renderer of the markdown converter (`render` in md.ts): one
 * fixed template per node kind. Only paragraph and list-item text passes
 * through the inline renderer; header, blockquote and code text is emitted
 * as it is, and a table node is handed to the table renderer. No text is
 * HTML-escaped.
 */
module BlockRenderer {
  import opened Text
  import Tokenizer
  import opened BlockParser
  import InlineRenderer
  import TableRenderer

  /** The digit of a header level, as in `h1` to `h6`. */
  function LevelDigit(level: Tokenizer.Level): (c: char)
    ensures IsDigit(c) && c as int - '0' as int == level
  {
    ('0' as int + level) as char
  }

  /** The HTML of one node. */
  function Render(n: Node): string
    decreases n, 1
  {
    match n.kind
    case Root => Join(RenderAll(n.children), "\n")
    case Header(l) => "<h" + [LevelDigit(l)] + ">" + n.value + "</h" + [LevelDigit(l)] + ">"
    case Paragraph => "<p>" + InlineRenderer.RenderInline(n.value) + "</p>"
    case Blockquote => "<blockquote>" + n.value + "</blockquote>"
    case Hr => "<hr />"
    case List => "<ul>" + Concat(RenderAll(n.children)) + "</ul>"
    case ListItem => "<li>" + InlineRenderer.RenderInline(n.value) + "</li>"
    case CodeBlock => "<pre><code class=\"" + n.value + "\">" + Join(RenderAll(n.children), "\n") + "</code></pre>"
    case CodeLine => n.value
    case Table => TableRenderer.RenderTable(n.value)
  }

  /** `children.map(render)`: the HTML of each node, in order. */
  function RenderAll(cs: seq<Node>): (r: seq<string>)
    ensures |r| == |cs|
    ensures forall i :: 0 <= i < |cs| ==> r[i] == Render(cs[i])
    decreases cs, 0
  {
    if cs == [] then [] else [Render(cs[0])] + RenderAll(cs[1..])
  }

  // ---------------------------------------------------------------------------
  // What the templates guarantee
  // ---------------------------------------------------------------------------

  /** The code lines of a block, one node per line. */
  function CodeLines(lines: seq<string>): (cs: seq<Node>)
    ensures |cs| == |lines|
    ensures forall i :: 0 <= i < |lines| ==> cs[i] == Node(CodeLine, lines[i], [])
  {
    seq(|lines|, i requires 0 <= i < |lines| => Node(CodeLine, lines[i], []))
  }

  /** A code block shows its lines verbatim, one per line, none inline-rendered. */
  lemma CodeBlockVerbatim(lang: string, lines: seq<string>)
    ensures Render(Node(CodeBlock, lang, CodeLines(lines))) ==
      "<pre><code class=\"" + lang + "\">" + Join(lines, "\n") + "</code></pre>"
  {
    assert RenderAll(CodeLines(lines)) == lines;
  }

  /** A paragraph without backticks, asterisks or closing brackets keeps its text. */
  lemma PlainParagraph(text: string)
    requires '`' !in text && '*' !in text && ']' !in text
    ensures Render(Node(Paragraph, text, [])) == "<p>" + text + "</p>"
  {
    ParagraphInlined(text);
    InlineRenderer.RenderInlinePlain(text);
  }

  /** Blockquote text is emitted as written, markup characters included. */
  lemma BlockquoteVerbatim(text: string)
    ensures Render(Node(Blockquote, text, [])) == "<blockquote>" + text + "</blockquote>"
  {
  }

  /** Paragraph text goes through the inline renderer. */
  lemma ParagraphInlined(text: string)
    ensures Render(Node(Paragraph, text, [])) == "<p>" + InlineRenderer.RenderInline(text) + "</p>"
  {
  }

  /** Emphasis in a blockquote is kept as written; in a paragraph it becomes markup. */
  lemma OnlyParagraphsAreInlined(x: string)
    requires x != [] && NoLineTerminator(x) && '*' !in x && '`' !in x && ']' !in x
    ensures Render(Node(Blockquote, "*" + x + "*", [])) == "<blockquote>" + ("*" + x + "*") + "</blockquote>"
    ensures Render(Node(Paragraph, "*" + x + "*", [])) == "<p>" + ("<em>" + x + "</em>") + "</p>"
  {
    BlockquoteVerbatim("*" + x + "*");
    ParagraphInlined("*" + x + "*");
    InlineRenderer.OnlyItalic(x);
  }

  /** The root's children are rendered in order, one per line. */
  lemma {:induction false} RootLines(cs: seq<Node>, c: Node)
    requires cs != []
    ensures Render(Node(Root, "", cs + [c])) == Render(Node(Root, "", cs)) + "\n" + Render(c)
  {
    calc {
      Render(Node(Root, "", cs + [c]));
      Join(RenderAll(cs + [c]), "\n");
      { assert RenderAll(cs + [c]) == RenderAll(cs) + [Render(c)]; }
      Join(RenderAll(cs) + [Render(c)], "\n");
      { JoinSnoc(RenderAll(cs), Render(c), "\n"); }
      Join(RenderAll(cs), "\n") + "\n" + Render(c);
    }
  }

  /** A header emits its value unchanged, whatever markup it holds, between `<hN>` tags of its level. */
  lemma HeaderVerbatim(l: Tokenizer.Level, v: string)
    ensures var r := Render(Node(Header(l), v, []));
      && (l == 1 ==> r == "<h1>" + v + "</h1>")
      && (l == 2 ==> r == "<h2>" + v + "</h2>")
      && (l == 3 ==> r == "<h3>" + v + "</h3>")
      && (l == 4 ==> r == "<h4>" + v + "</h4>")
      && (l == 5 ==> r == "<h5>" + v + "</h5>")
      && (l == 6 ==> r == "<h6>" + v + "</h6>")
  {
    var d := LevelDigit(l);
    assert "<h" + [d] + ">" == ['<', 'h', d, '>'];
    assert "</h" + [d] + ">" == ['<', '/', 'h', d, '>'];
  }

  /** List-item text goes through the inline renderer. */
  lemma ListItemInlined(text: string)
    ensures Render(Node(ListItem, text, [])) == "<li>" + InlineRenderer.RenderInline(text) + "</li>"
  {
  }

  /** A list item without backticks, asterisks or closing brackets keeps its text. */
  lemma PlainListItem(text: string)
    requires '`' !in text && '*' !in text && ']' !in text
    ensures Render(Node(ListItem, text, [])) == "<li>" + text + "</li>"
  {
    ListItemInlined(text);
    InlineRenderer.RenderInlinePlain(text);
  }

  /** Bold in a list item becomes a `strong` element. */
  lemma BoldListItem(x: string)
    requires NoLineTerminator(x) && '*' !in x && '`' !in x && ']' !in x
    ensures Render(Node(ListItem, "**" + x + "**", [])) == "<li>" + ("<strong>" + x + "</strong>") + "</li>"
  {
    ListItemInlined("**" + x + "**");
    InlineRenderer.OnlyBold(x);
  }

  /** A list's items follow each other with nothing in between: one more item appends its HTML. */
  lemma ListAppends(v: string, cs: seq<Node>, c: Node)
    ensures Render(Node(List, v, cs + [c])) == "<ul>" + (Concat(RenderAll(cs)) + Render(c)) + "</ul>"
  {
    var parts, h := RenderAll(cs), Render(c);
    calc {
      Render(Node(List, v, cs + [c]));
      "<ul>" + Concat(RenderAll(cs + [c])) + "</ul>";
      { assert RenderAll(cs + [c]) == parts + [h]; }
      "<ul>" + Concat(parts + [h]) + "</ul>";
      { ConcatSnoc(parts, h); }
      "<ul>" + (Concat(parts) + h) + "</ul>";
    }
  }

  /** One more part appends it, with no separator. */
  lemma ConcatSnoc(parts: seq<string>, last: string)
    ensures Concat(parts + [last]) == Concat(parts) + last
  {
    if parts == [] {
      assert parts + [last] == [last];
    } else {
      JoinSnoc(parts, last, "");
    }
  }

  /** The list items holding `texts`, in order. */
  function Items(texts: seq<string>): (cs: seq<Node>)
    ensures |cs| == |texts|
    ensures forall i :: 0 <= i < |texts| ==> cs[i] == Node(ListItem, texts[i], [])
  {
    seq(|texts|, i requires 0 <= i < |texts| => Node(ListItem, texts[i], []))
  }

  /** A list of plain items is each text in its `li` element, concatenated inside `ul`. */
  lemma PlainList(texts: seq<string>)
    requires forall i :: 0 <= i < |texts| ==> '`' !in texts[i] && '*' !in texts[i] && ']' !in texts[i]
    ensures Render(Node(List, "", Items(texts))) ==
      "<ul>" + Concat(seq(|texts|, i requires 0 <= i < |texts| => "<li>" + texts[i] + "</li>")) + "</ul>"
  {
    var li := seq(|texts|, i requires 0 <= i < |texts| => "<li>" + texts[i] + "</li>");
    forall i | 0 <= i < |texts| ensures RenderAll(Items(texts))[i] == li[i] {
      PlainListItem(texts[i]);
    }
    assert RenderAll(Items(texts)) == li;
  }
}

/**
 * The line classifier of the markdown converter (`tokenize` in md.ts).
 *
 * The input is split on '\n' and each line becomes exactly one token. The
 * only state carried from line to line is whether a fenced code block is
 * open. Each regular expression of the classifier is modelled by a matcher
 * written for that one pattern, together with the line shapes it accepts.
 */
module Tokenizer {
  import opened Wrappers
  import opened Text

  /** The level of an ATX header: one to six '#'. */
  type Level = n: nat | 1 <= n <= 6 witness 1

  datatype TokenKind =
    | Header(level: Level)
    | Hr
    | ListItem
    | Blockquote
    | CodeBlockStart
    | CodeLine
    | CodeBlockEnd
    | TableRow
    | TableSeparator
    | Paragraph

  datatype Token = Token(kind: TokenKind, value: string)

  // ---------------------------------------------------------------------------
  // Matchers, one per pattern
  // ---------------------------------------------------------------------------

  /** The line starts with three backticks. */
  predicate FenceStart(line: string) {
    |line| >= 3 && line[0] == '`' && line[1] == '`' && line[2] == '`'
  }

  /** `^```(\w*)$`: three backticks and a possibly empty label of word characters. */
  function MatchFence(line: string): Option<string> {
    if FenceStart(line) && AllWordChars(line[3..]) then Some(line[3..]) else None
  }

  /** A fence line is three backticks followed by its label, all word characters. */
  lemma FenceSound(line: string)
    requires MatchFence(line).Some?
    ensures line == "```" + MatchFence(line).value && AllWordChars(MatchFence(line).value)
  {
    assert line[..3] == "```";
    assert line == line[..3] + line[3..];
  }

  lemma FenceComplete(tag: string)
    requires AllWordChars(tag)
    ensures MatchFence("```" + tag) == Some(tag)
  {
    assert ("```" + tag)[3..] == tag;
  }

  /** Length of the run of `c` that `s` starts with. */
  function LeadingRun(s: string, c: char): (n: nat)
    ensures n <= |s| && AllEqual(s[..n], c)
    ensures n < |s| ==> s[n] != c
  {
    if s == [] || s[0] != c then 0
    else
      var n := 1 + LeadingRun(s[1..], c);
      assert s[..n] == [s[0]] + s[1..][..n - 1];
      n
  }

  lemma {:induction false} LeadingRunIs(s: string, c: char, n: nat)
    requires n <= |s| && AllEqual(s[..n], c) && (n < |s| ==> s[n] != c)
    ensures LeadingRun(s, c) == n
  {
    if n > 0 {
      assert s[..n][0] == s[0];
      assert s[1..][..n - 1] == s[..n][1..];
      LeadingRunIs(s[1..], c, n - 1);
    }
  }

  /** Length of the run of digits that `s` starts with. */
  function LeadingDigits(s: string): (n: nat)
    ensures n <= |s| && AllDigits(s[..n])
    ensures n < |s| ==> !IsDigit(s[n])
  {
    if s == [] || !IsDigit(s[0]) then 0
    else
      var n := 1 + LeadingDigits(s[1..]);
      assert s[..n] == [s[0]] + s[1..][..n - 1];
      n
  }

  lemma {:induction false} LeadingDigitsIs(s: string, n: nat)
    requires n <= |s| && AllDigits(s[..n]) && (n < |s| ==> !IsDigit(s[n]))
    ensures LeadingDigits(s) == n
  {
    if n > 0 {
      assert s[..n][0] == s[0];
      assert s[1..][..n - 1] == s[..n][1..];
      LeadingDigitsIs(s[1..], n - 1);
    }
  }

  /**
   * The tail `\s+(.*)$` shared by the header, list and blockquote patterns,
   * matched at the start of `t`. The greedy `\s+` takes the longest
   * whitespace run; the capture is everything after it and must be free of
   * line terminators. On success `t` is a non-empty run of whitespace
   * followed by the capture, which does not itself start with whitespace.
   */
  function SpacedText(t: string): (x: Option<string>)
    ensures x.Some? ==> |x.value| < |t| && t == t[..|t| - |x.value|] + x.value
    ensures x.Some? ==> AllSpace(t[..|t| - |x.value|])
    ensures x.Some? ==> (x.value == [] || !IsSpace(x.value[0])) && NoLineTerminator(x.value)
  {
    var n := LeadingSpaces(t);
    if n > 0 && NoLineTerminator(t[n..]) then
      assert t == t[..n] + t[n..];
      Some(t[n..])
    else None
  }

  /** Every string of the shape SpacedText describes is matched, with the right capture. */
  lemma SpacedTextComplete(w: string, x: string)
    requires |w| > 0 && AllSpace(w)
    requires (x == [] || !IsSpace(x[0])) && NoLineTerminator(x)
    ensures SpacedText(w + x) == Some(x)
  {
    var t := w + x;
    assert t[..|w|] == w;
    LeadingSpacesIs(t, |w|);
    assert t[|w|..] == x;
  }

  /** `^(#{1,6})\s+(.*)$`: a header of the given level and its text. */
  function MatchHeader(line: string): (r: Option<(Level, string)>)
    ensures r.Some? ==> var (n, x) := r.value;
      && n <= |line|
      && line[..n] == seq(n, _ => '#')
      && SpacedText(line[n..]) == Some(x)
  {
    var n := LeadingRun(line, '#');
    if 1 <= n <= 6 then
      match SpacedText(line[n..])
      case Some(x) => Some((n, x))
      case None => None
    else None
  }

  /** A run of 1 to 6 '#', whitespace and a text is a header with exactly that level and text. */
  lemma HeaderComplete(n: Level, w: string, x: string)
    requires |w| > 0 && AllSpace(w)
    requires (x == [] || !IsSpace(x[0])) && NoLineTerminator(x)
    ensures MatchHeader(seq(n, _ => '#') + w + x) == Some((n, x))
  {
    var line := seq(n, _ => '#') + w + x;
    assert line[n] == w[0];
    assert line[..n] == seq(n, _ => '#');
    LeadingRunIs(line, '#', n);
    assert line[n..] == w + x;
    SpacedTextComplete(w, x);
  }

  /** `^-{3,}$`: a horizontal rule. */
  predicate IsRule(line: string) {
    |line| >= 3 && AllEqual(line, '-')
  }

  /**
   * The marker `(\*|\d+\.)` at the start of a list line: its length, or 0 if
   * the line starts with neither. '-' is not a marker.
   */
  function ListMarker(line: string): (m: nat)
    ensures m <= |line|
    ensures m > 0 ==> line[..m] == "*" || (AllDigits(line[..m - 1]) && m > 1 && line[m - 1] == '.')
  {
    if |line| > 0 && line[0] == '*' then 1
    else
      var d := LeadingDigits(line);
      if 0 < d < |line| && line[d] == '.' then d + 1 else 0
  }

  /** `^(\*|\d+\.)\s+(.*)$`: a list item and its text. */
  function MatchListItem(line: string): (x: Option<string>)
    ensures x.Some? ==> ListMarker(line) > 0 && SpacedText(line[ListMarker(line)..]) == x
  {
    var m := ListMarker(line);
    if m > 0 then SpacedText(line[m..]) else None
  }

  /** A numbered item `<digits>. text` is a list item carrying its text. */
  lemma NumberedItemComplete(d: string, w: string, x: string)
    requires |d| > 0 && AllDigits(d)
    requires |w| > 0 && AllSpace(w)
    requires (x == [] || !IsSpace(x[0])) && NoLineTerminator(x)
    ensures MatchListItem(d + "." + w + x) == Some(x)
  {
    var line := d + "." + w + x;
    assert line[|d|] == '.';
    assert line[..|d|] == d;
    LeadingDigitsIs(line, |d|);
    assert line[|d| + 1..] == w + x;
    SpacedTextComplete(w, x);
  }

  /** A starred item `* text` is a list item carrying its text. */
  lemma StarredItemComplete(w: string, x: string)
    requires |w| > 0 && AllSpace(w)
    requires (x == [] || !IsSpace(x[0])) && NoLineTerminator(x)
    ensures MatchListItem("*" + w + x) == Some(x)
  {
    assert ("*" + w + x)[1..] == w + x;
    SpacedTextComplete(w, x);
  }

  /** `^>\s+(.*)$`: a blockquote and its text. */
  function MatchBlockquote(line: string): (x: Option<string>)
    ensures x.Some? ==> |line| > 0 && line[0] == '>' && SpacedText(line[1..]) == x
  {
    if |line| > 0 && line[0] == '>' then SpacedText(line[1..]) else None
  }

  /** `^\|.*\|$`: a line that starts and ends with '|'. */
  predicate IsTableRow(line: string) {
    |line| >= 2 && line[0] == '|' && line[|line| - 1] == '|'
    && NoLineTerminator(line[1..|line| - 1])
  }

  /** `^\|-{3,}-*\|$`: '|', at least three '-', nothing else, '|'. */
  predicate IsTableSeparator(line: string) {
    |line| >= 5 && line[0] == '|' && line[|line| - 1] == '|'
    && AllEqual(line[1..|line| - 1], '-')
  }

  /** Every separator line is also a table row, so the separator test is dead. */
  lemma SeparatorIsRow(line: string)
    ensures IsTableSeparator(line) ==> IsTableRow(line)
  {
    if IsTableSeparator(line) {
      var mid := line[1..|line| - 1];
      forall i | 0 <= i < |mid| ensures !IsLineTerminator(mid[i]) {
        assert mid[i] == '-';
      }
    }
  }

  // ---------------------------------------------------------------------------
  // The per-line step and the whole pass
  // ---------------------------------------------------------------------------

  lemma SpacedTextSuffix(line: string, m: nat)
    requires m <= |line| && SpacedText(line[m..]).Some?
    ensures IsSuffix(SpacedText(line[m..]).value, line)
  {
    var t := line[m..];
    var x := SpacedText(t).value;
    assert line[|line| - |x|..] == t[|t| - |x|..];
  }

  /** The token of one line in normal state, testing the patterns in their fixed order. */
  function ClassifyNormal(line: string): Token {
    if MatchFence(line).Some? then Token(CodeBlockStart, MatchFence(line).value)
    else if MatchHeader(line).Some? then Token(Header(MatchHeader(line).value.0), MatchHeader(line).value.1)
    else if IsRule(line) then Token(Hr, "")
    else if MatchListItem(line).Some? then Token(ListItem, MatchListItem(line).value)
    else if MatchBlockquote(line).Some? then Token(Blockquote, MatchBlockquote(line).value)
    else if IsTableRow(line) then Token(TableRow, line)
    else if IsTableSeparator(line) then Token(TableSeparator, "")
    else Token(Paragraph, line)
  }

  /** A line whose first character can start no pattern except a rule. */
  predicate PlainStart(line: string) {
    line == [] || (line[0] !in "`#*>|" && !IsDigit(line[0]))
  }

  /** A line that starts plainly and is not a rule is a paragraph holding the whole line. */
  lemma ParagraphLine(line: string)
    requires PlainStart(line) && !IsRule(line)
    ensures MatchFence(line).None?
    ensures ClassifyNormal(line) == Token(Paragraph, line)
  {
    if line != [] {
      assert line[0] != '`' && line[0] != '#' && line[0] != '*' && line[0] != '>' && line[0] != '|';
    }
  }

  /** '-' followed by a space starts a paragraph, not a list item. */
  lemma DashIsNotListMarker(x: string)
    ensures ClassifyNormal("- " + x) == Token(Paragraph, "- " + x)
  {
    var line := "- " + x;
    assert line[0] == '-' && line[1] == ' ';
    ParagraphLine(line);
  }

  /** A table line, outside a code block, is a table row holding the whole line. */
  lemma TableLine(line: string)
    requires IsTableRow(line)
    ensures MatchFence(line).None?
    ensures ClassifyNormal(line) == Token(TableRow, line)
  {
    assert line[0] == '|';
  }

  /** A fence line, outside a code block, opens one labelled with its tag. */
  lemma FenceLine(tag: string)
    requires AllWordChars(tag)
    ensures ClassifyNormal("```" + tag) == Token(CodeBlockStart, tag)
  {
    FenceComplete(tag);
  }

  /** `#` to `######`, whitespace and a text make a header of that level carrying the text. */
  lemma HeaderLine(n: Level, w: string, x: string)
    requires |w| > 0 && AllSpace(w)
    requires (x == [] || !IsSpace(x[0])) && NoLineTerminator(x)
    ensures ClassifyNormal(seq(n, _ => '#') + w + x) == Token(Header(n), x)
  {
    var line := seq(n, _ => '#') + w + x;
    assert line[0] == '#';
    HeaderComplete(n, w, x);
  }

  /** Three or more '-' alone make a rule, with no value. */
  lemma RuleLine(line: string)
    requires IsRule(line)
    ensures ClassifyNormal(line) == Token(Hr, "")
  {
    assert line[0] == '-';
    LeadingRunIs(line, '#', 0);
  }

  /** `*`, whitespace and a text make a list item carrying the text. */
  lemma StarredItemLine(w: string, x: string)
    requires |w| > 0 && AllSpace(w)
    requires (x == [] || !IsSpace(x[0])) && NoLineTerminator(x)
    ensures ClassifyNormal("*" + w + x) == Token(ListItem, x)
  {
    var line := "*" + w + x;
    assert line[0] == '*';
    LeadingRunIs(line, '#', 0);
    StarredItemComplete(w, x);
  }

  /** Digits, '.', whitespace and a text make a list item carrying the text. */
  lemma NumberedItemLine(d: string, w: string, x: string)
    requires |d| > 0 && AllDigits(d)
    requires |w| > 0 && AllSpace(w)
    requires (x == [] || !IsSpace(x[0])) && NoLineTerminator(x)
    ensures ClassifyNormal(d + "." + w + x) == Token(ListItem, x)
  {
    var line := d + "." + w + x;
    assert line[0] == d[0] && IsDigit(line[0]);
    LeadingRunIs(line, '#', 0);
    NumberedItemComplete(d, w, x);
  }

  /** `>`, whitespace and a text make a blockquote carrying the text. */
  lemma BlockquoteLine(w: string, x: string)
    requires |w| > 0 && AllSpace(w)
    requires (x == [] || !IsSpace(x[0])) && NoLineTerminator(x)
    ensures ClassifyNormal(">" + w + x) == Token(Blockquote, x)
  {
    var line := ">" + w + x;
    assert line[0] == '>';
    LeadingRunIs(line, '#', 0);
    LeadingDigitsIs(line, 0);
    assert line[1..] == w + x;
    SpacedTextComplete(w, x);
  }

  /** In normal state a line's token is never a separator, a code line or the end of a code block. */
  lemma ClassifyNormalKind(line: string)
    ensures ClassifyNormal(line).kind != TableSeparator
    ensures ClassifyNormal(line).kind != CodeLine && ClassifyNormal(line).kind != CodeBlockEnd
  {
    SeparatorIsRow(line);
  }

  /** In normal state a line's token carries a suffix of the line. */
  lemma ClassifyNormalSuffix(line: string)
    ensures IsSuffix(ClassifyNormal(line).value, line)
  {
    if MatchFence(line).Some? {
      assert line[|line| - |line[3..]|..] == line[3..];
    } else if MatchHeader(line).Some? {
      SpacedTextSuffix(line, MatchHeader(line).value.0);
    } else if IsRule(line) {
    } else if MatchListItem(line).Some? {
      SpacedTextSuffix(line, ListMarker(line));
    } else if MatchBlockquote(line).Some? {
      SpacedTextSuffix(line, 1);
    } else {
      assert line[|line| - |line|..] == line;
    }
  }

  /**
   * One iteration of the line loop: the token for `line` and whether a code
   * block is open afterwards. A fence line flips the state and every other
   * line keeps it; inside a code block the line is kept verbatim unless it
   * is a fence; no line gives a table separator; and every token's value is
   * a suffix of its line.
   */
  function Classify(inCodeBlock: bool, line: string): (r: (bool, Token))
    ensures r.0 == (inCodeBlock != MatchFence(line).Some?)
    ensures inCodeBlock ==> r.1.kind == CodeBlockEnd || r.1 == Token(CodeLine, line)
    ensures inCodeBlock <==> r.1.kind in {CodeLine, CodeBlockEnd}
    ensures r.1.kind != TableSeparator
    ensures IsSuffix(r.1.value, line)
  {
    if inCodeBlock then
      if MatchFence(line).Some? then (false, Token(CodeBlockEnd, "")) else (true, Token(CodeLine, line))
    else
      ClassifyNormalKind(line);
      ClassifyNormalSuffix(line);
      (MatchFence(line).Some?, ClassifyNormal(line))
  }

  // ---------------------------------------------------------------------------
  // The line loop, for any loop body
  // ---------------------------------------------------------------------------

  /** A loop body: from the state before a line and the line, the state after it and the line's token. */
  type LineStep = (bool, string) -> (bool, Token)

  /** The state the loop is in when line `i` is reached, starting from `false`. */
  function StateBefore(step: LineStep, lines: seq<string>, i: nat): bool
    requires i <= |lines|
  {
    if i == 0 then false else step(StateBefore(step, lines, i - 1), lines[i - 1]).0
  }

  /** The state before a line depends only on the lines before it. */
  lemma {:induction false} StatePrefix(step: LineStep, lines: seq<string>, k: nat, i: nat)
    requires i <= k <= |lines|
    ensures StateBefore(step, lines[..k], i) == StateBefore(step, lines, i)
  {
    if i > 0 {
      StatePrefix(step, lines, k, i - 1);
      assert lines[..k][i - 1] == lines[i - 1];
    }
  }

  /** The tokens the loop pushes: one per line, in order, each from the state the lines before left. */
  function Scan(step: LineStep, lines: seq<string>): (tokens: seq<Token>)
    ensures |tokens| == |lines|
    ensures forall i :: 0 <= i < |lines| ==> tokens[i] == step(StateBefore(step, lines, i), lines[i]).1
  {
    if lines == [] then []
    else
      var init := lines[..|lines| - 1];
      var front := Scan(step, init);
      var r := front + [step(StateBefore(step, lines, |lines| - 1), lines[|lines| - 1]).1];
      forall i | 0 <= i < |init| ensures r[i] == step(StateBefore(step, lines, i), lines[i]).1 {
        StatePrefix(step, lines, |init|, i);
        assert init[i] == lines[i];
        assert r[i] == front[i];
      }
      r
  }

  /** One more line: its token is pushed after those of the lines before, and the state moves on. */
  lemma ScanStep(step: LineStep, lines: seq<string>, i: nat)
    requires i < |lines|
    ensures Scan(step, lines[..i + 1]) == Scan(step, lines[..i]) + [step(StateBefore(step, lines, i), lines[i]).1]
    ensures StateBefore(step, lines, i + 1) == step(StateBefore(step, lines, i), lines[i]).0
  {
    assert lines[..i + 1][..i] == lines[..i];
    StatePrefix(step, lines, i + 1, i);
  }

  /** A state that every line in `lines[k..m]` keeps, once reached at `k`, holds up to `m`. */
  lemma {:induction false} StateKept(step: LineStep, lines: seq<string>, b: bool, k: nat, m: nat, i: nat)
    requires k <= i <= m <= |lines| && StateBefore(step, lines, k) == b
    requires forall j :: k <= j < m ==> step(b, lines[j]).0 == b
    ensures StateBefore(step, lines, i) == b
  {
    if i > k {
      StateKept(step, lines, b, k, m, i - 1);
    }
  }

  /** The state after line `k` is the one line `k` moves to. */
  lemma StateAfter(step: LineStep, lines: seq<string>, k: nat)
    requires k < |lines|
    ensures StateBefore(step, lines, k + 1) == step(StateBefore(step, lines, k), lines[k]).0
  {
  }

  /** A state that line `k` moves to and every line in `lines[k + 1..m]` keeps holds up to `m`. */
  lemma StateSet(step: LineStep, lines: seq<string>, b: bool, k: nat, m: nat, i: nat)
    requires k < i <= m <= |lines| && step(StateBefore(step, lines, k), lines[k]).0 == b
    requires forall j :: k < j < m ==> step(b, lines[j]).0 == b
    ensures StateBefore(step, lines, i) == b
  {
    StateAfter(step, lines, k);
    StateKept(step, lines, b, k + 1, m, i);
  }

  // ---------------------------------------------------------------------------
  // The tokenizer's loop
  // ---------------------------------------------------------------------------

  /** Whether a code block is open when line `i` is reached: every fence line so far flips it. */
  function InCodeBefore(lines: seq<string>, i: nat): bool
    requires i <= |lines|
  {
    StateBefore(Classify, lines, i)
  }

  /** The tokens of a list of lines: line `i` classified in the state left by lines `0..i`. */
  function TokenizeLines(lines: seq<string>): (tokens: seq<Token>)
    ensures |tokens| == |lines|
    ensures forall i :: 0 <= i < |lines| ==> tokens[i] == Classify(InCodeBefore(lines, i), lines[i]).1
  {
    Scan(Classify, lines)
  }

  /** `tokenize` as a value, for stating properties of the whole pipeline. */
  function TokenizeSpec(markdown: string): (tokens: seq<Token>)
    ensures |tokens| == Count(markdown, '\n') + 1
  {
    TokenizeLines(Split(markdown, '\n'))
  }

  /** Each fence line flips the state; any other line keeps it. */
  lemma FenceFlips(lines: seq<string>, i: nat)
    requires i < |lines|
    ensures InCodeBefore(lines, i + 1) == (InCodeBefore(lines, i) != MatchFence(lines[i]).Some?)
  {
  }

  /** With no fence line, no code block is ever open. */
  lemma NeverInCode(lines: seq<string>, i: nat)
    requires i <= |lines|
    requires forall j :: 0 <= j < |lines| ==> MatchFence(lines[j]).None?
    ensures !InCodeBefore(lines, i)
  {
    forall j | 0 <= j < |lines| ensures !Classify(false, lines[j]).0 {
    }
    StateKept(Classify, lines, false, 0, |lines|, i);
  }

  /** Without fence lines every line is classified in normal state. */
  lemma TokenizeWithoutFences(lines: seq<string>)
    requires forall j :: 0 <= j < |lines| ==> MatchFence(lines[j]).None?
    ensures forall i :: 0 <= i < |lines| ==> TokenizeLines(lines)[i] == ClassifyNormal(lines[i])
  {
    forall i | 0 <= i < |lines| ensures TokenizeLines(lines)[i] == ClassifyNormal(lines[i]) {
      NeverInCode(lines, i);
    }
  }

  /**
   * A fence at line `k` reached with no block open opens one, and it stays
   * open up to the next fence line.
   */
  lemma InsideBlock(lines: seq<string>, k: nat, m: nat, i: nat)
    requires k < i <= m <= |lines| && !InCodeBefore(lines, k) && MatchFence(lines[k]).Some?
    requires forall j :: k < j < m ==> MatchFence(lines[j]).None?
    ensures InCodeBefore(lines, i)
  {
    assert Classify(InCodeBefore(lines, k), lines[k]).0;
    KeepsOpen(lines, k + 1, m);
    StateSet(Classify, lines, true, k, m, i);
  }

  /** Inside a block, lines that are not fences keep it open. */
  lemma KeepsOpen(lines: seq<string>, k: nat, m: nat)
    requires k <= m <= |lines|
    requires forall j :: k <= j < m ==> MatchFence(lines[j]).None?
    ensures forall j :: k <= j < m ==> Classify(true, lines[j]).0
  {
  }

  /**
   * A fenced block at lines `k..m`, reached with no block open: the opening
   * fence gives its label, every line before the closing fence is a code
   * line kept verbatim whatever it looks like, the closing fence gives an
   * end token with no value, and no block is open after it.
   */
  lemma FencedBlock(lines: seq<string>, k: nat, m: nat)
    requires k < m < |lines| && !InCodeBefore(lines, k)
    requires MatchFence(lines[k]).Some? && MatchFence(lines[m]).Some?
    requires forall j :: k < j < m ==> MatchFence(lines[j]).None?
    ensures TokenizeLines(lines)[k] == Token(CodeBlockStart, MatchFence(lines[k]).value)
    ensures forall i :: k < i < m ==> TokenizeLines(lines)[i] == Token(CodeLine, lines[i])
    ensures TokenizeLines(lines)[m] == Token(CodeBlockEnd, "")
    ensures !InCodeBefore(lines, m + 1)
  {
    forall i | k < i < m ensures TokenizeLines(lines)[i] == Token(CodeLine, lines[i]) {
      InsideBlock(lines, k, m, i);
    }
    InsideBlock(lines, k, m, m);
    FenceFlips(lines, m);
  }

  /** The tokens of a text: one per '\n'-separated line, none a table separator. */
  lemma TokenizeSpecShape(markdown: string)
    ensures |TokenizeSpec(markdown)| == Count(markdown, '\n') + 1
    ensures forall i :: 0 <= i < |TokenizeSpec(markdown)| ==> TokenizeSpec(markdown)[i].kind != TableSeparator
  {
  }

  /**
   * The line loop of `tokenize`, for any loop body `step`: the state starts
   * `false`, and each line in turn gives the next state and one token.
   */
  method ScanLines(step: LineStep, lines: seq<string>) returns (tokens: seq<Token>)
    ensures tokens == Scan(step, lines)
  {
    var inCodeBlock := false;
    tokens := [];
    var i := 0;
    while i < |lines|
      invariant 0 <= i <= |lines|
      invariant inCodeBlock == StateBefore(step, lines, i)
      invariant tokens == Scan(step, lines[..i])
    {
      var r := step(inCodeBlock, lines[i]);
      ScanStep(step, lines, i);
      inCodeBlock := r.0;
      tokens := tokens + [r.1];
      i := i + 1;
    }
    assert lines[..i] == lines;
  }

  /**
   * `tokenize`: one token per '\n'-separated line, in line order, each the
   * classification of its line in the state the earlier lines left; none is
   * a table separator.
   */
  method Tokenize(markdown: string) returns (tokens: seq<Token>)
    ensures tokens == TokenizeSpec(markdown)
    ensures |tokens| == Count(markdown, '\n') + 1
    ensures forall i :: 0 <= i < |tokens| ==> tokens[i].kind != TableSeparator
  {
    var lines := Split(markdown, '\n');
    tokens := ScanLines(Classify, lines);
    TokenizeSpecShape(markdown);
  }
}

/**
 * The inline pass of the markdown converter (`renderInline` in md.ts): five
 * regular-expression replacements applied one after the other to the text of
 * a paragraph or list item.
 *
 * Each regular expression is modelled by a matcher written for that one
 * pattern, together with an independent description (`Matches`) of what the
 * regular expression accepts at a given position under JavaScript's
 * backtracking semantics, and a proof that the two agree. `ReplaceAll` is
 * `String.prototype.replace` with a global pattern (leftmost match first,
 * scanning resumes after it) and `ReplaceFirst` the same without the `g`
 * flag.
 */
module InlineRenderer {
  import opened Wrappers
  import opened Text

  /** The five patterns, in the order the converter applies them. */
  datatype Pattern = Image | Link | Bold | Italic | Code

  /** A match at the start of a string: its length and the one or two captured groups. */
  datatype Match = Match(len: nat, g1: string, g2: string)

  // ---------------------------------------------------------------------------
  // Scanning helpers
  // ---------------------------------------------------------------------------

  /**
   * A greedy run of characters other than `stop` that must be followed by
   * `stop` (`[^x]*x`): the run's length, which is the index of the first `stop`.
   */
  function Span(t: string, stop: char): (r: Option<nat>)
    ensures r.Some? ==> r.value < |t| && t[r.value] == stop && stop !in t[..r.value]
    ensures r.None? ==> stop !in t
  {
    if t == [] then None
    else if t[0] == stop then Some(0)
    else match Span(t[1..], stop)
      case None => None
      case Some(n) =>
        assert t[..n + 1] == [t[0]] + t[1..][..n];
        Some(n + 1)
  }

  /** The run before a `stop` is determined by where the first `stop` stands. */
  lemma {:induction false} SpanIs(t: string, stop: char, n: nat)
    requires n < |t| && t[n] == stop && stop !in t[..n]
    ensures Span(t, stop) == Some(n)
    decreases n
  {
    if n > 0 {
      assert t[..n][0] == t[0];
      assert t[1..][..n - 1] == t[..n][1..];
      SpanIs(t[1..], stop, n - 1);
    }
  }

  /** `close` occurs in `u` starting at index `k`. */
  predicate OccursAt(u: string, k: nat, close: string) {
    k + |close| <= |u| && u[k..k + |close|] == close
  }

  lemma OccursOne(u: string, k: nat)
    ensures OccursAt(u, k, "*") <==> k < |u| && u[k] == '*'
  {
    if k < |u| {
      assert u[k..k + 1] == [u[k]];
    }
  }

  lemma OccursTwo(u: string, k: nat)
    ensures OccursAt(u, k, "**") <==> k + 2 <= |u| && u[k] == '*' && u[k + 1] == '*'
  {
    if k + 2 <= |u| {
      assert u[k..k + 2] == [u[k], u[k + 1]];
    }
  }

  /**
   * The search behind a lazy `.*?` followed by `close`, resumed at `i`: no
   * line terminator and no `close` occurs before `i`.
   */
  function LazyFrom(u: string, close: string, i: nat): (r: Option<nat>)
    requires i <= |u| && NoLineTerminator(u[..i])
    requires forall k :: 0 <= k < i ==> !OccursAt(u, k, close)
    ensures r.Some? ==>
      && i <= r.value <= |u| && OccursAt(u, r.value, close) && NoLineTerminator(u[..r.value])
      && forall k :: 0 <= k < r.value ==> !OccursAt(u, k, close)
    ensures r.None? ==> forall k :: 0 <= k <= |u| && NoLineTerminator(u[..k]) ==> !OccursAt(u, k, close)
    decreases |u| - i
  {
    if OccursAt(u, i, close) then Some(i)
    else if i == |u| || IsLineTerminator(u[i]) then
      assert forall k :: i < k <= |u| ==> u[..k][i] == u[i];
      None
    else
      assert u[..i + 1] == u[..i] + [u[i]];
      LazyFrom(u, close, i + 1)
  }

  /**
   * Lazy `.*?` followed by `close`: the smallest `m` such that `close` starts
   * at `m` and no line terminator comes before it.
   */
  function LazyClose(u: string, close: string): (r: Option<nat>)
    ensures r.Some? ==>
      && OccursAt(u, r.value, close) && NoLineTerminator(u[..r.value])
      && forall k :: 0 <= k < r.value ==> !OccursAt(u, k, close)
    ensures r.None? ==> forall k :: 0 <= k <= |u| && NoLineTerminator(u[..k]) ==> !OccursAt(u, k, close)
  {
    LazyFrom(u, close, 0)
  }

  /** The lazy closing position is determined by the earliest admissible `close`. */
  lemma LazyCloseIs(u: string, close: string, m: nat)
    requires OccursAt(u, m, close) && NoLineTerminator(u[..m])
    requires forall k :: 0 <= k < m ==> !OccursAt(u, k, close)
    ensures LazyClose(u, close) == Some(m)
  {
    var r := LazyClose(u, close);
    assert r.Some?;
    var v := r.value;
    assert m < v ==> !OccursAt(u, m, close);
  }

  // ---------------------------------------------------------------------------
  // What each regular expression accepts
  // ---------------------------------------------------------------------------

  /**
   * `m` is the match the pattern's regular expression finds at the start of
   * `t`, read off the regular expression itself:
   *  - image `!\[([^\]]*)\]\(([^)]+)\)` and link `\[([^\]]+)\]\(([^)]+)\)`:
   *    greedy runs free of the closing bracket, so each group reaches the
   *    first closing bracket;
   *  - bold `\*\*(.*?)\*\*` and italic `\*(.*?)\*`: the group stays on one
   *    line and ends at the first closing `**` or `*`;
   *  - inline code `` `([^`]+)` ``: one or more non-backticks between two backticks.
   */
  predicate Matches(p: Pattern, t: string, m: Match) {
    match p
    case Image =>
      var a, b := |m.g1|, |m.g2|;
      && m.len == a + b + 5 && m.len <= |t|
      && t[0] == '!' && t[1] == '[' && t[2..2 + a] == m.g1 && t[2 + a] == ']'
      && t[3 + a] == '(' && t[4 + a..4 + a + b] == m.g2 && t[4 + a + b] == ')'
      && ']' !in m.g1 && ')' !in m.g2 && b > 0
    case Link =>
      var a, b := |m.g1|, |m.g2|;
      && m.len == a + b + 4 && m.len <= |t|
      && t[0] == '[' && t[1..1 + a] == m.g1 && t[1 + a] == ']'
      && t[2 + a] == '(' && t[3 + a..3 + a + b] == m.g2 && t[3 + a + b] == ')'
      && ']' !in m.g1 && ')' !in m.g2 && a > 0 && b > 0
    case Bold =>
      var a := |m.g1|;
      && m.len == a + 4 && m.len <= |t| && m.g2 == ""
      && t[0] == '*' && t[1] == '*' && t[2..2 + a] == m.g1 && t[2 + a] == '*' && t[3 + a] == '*'
      && NoLineTerminator(m.g1)
      && forall i :: 2 <= i < 2 + a ==> !(t[i] == '*' && t[i + 1] == '*')
    case Italic =>
      var a := |m.g1|;
      && m.len == a + 2 && m.len <= |t| && m.g2 == ""
      && t[0] == '*' && t[1..1 + a] == m.g1 && t[1 + a] == '*'
      && NoLineTerminator(m.g1) && '*' !in m.g1
    case Code =>
      var a := |m.g1|;
      && m.len == a + 2 && m.len <= |t| && m.g2 == ""
      && t[0] == '`' && t[1..1 + a] == m.g1 && t[1 + a] == '`'
      && '`' !in m.g1 && a > 0
  }

  // ---------------------------------------------------------------------------
  // The matchers
  // ---------------------------------------------------------------------------

  /** `](url)` with a non-empty url free of `)`, at the start of `u`: the url's length. */
  function UrlTail(u: string): (r: Option<nat>)
    ensures r.Some? ==>
      && r.value > 0 && r.value + 3 <= |u| && u[0] == ']' && u[1] == '('
      && ')' !in u[2..2 + r.value] && u[2 + r.value] == ')'
  {
    if |u| < 2 || u[0] != ']' || u[1] != '(' then None
    else match Span(u[2..], ')')
      case None => None
      case Some(n) =>
        assert u[2..][..n] == u[2..2 + n];
        if n == 0 then None else Some(n)
  }

  function MatchImage(t: string): (r: Option<Match>)
    ensures r.Some? ==> 0 < r.value.len <= |t|
  {
    if |t| < 2 || t[0] != '!' || t[1] != '[' then None
    else match Span(t[2..], ']')
      case None => None
      case Some(a) =>
        match UrlTail(t[2 + a..])
        case None => None
        case Some(b) => Some(Match(a + b + 5, t[2..2 + a], t[4 + a..4 + a + b]))
  }

  function MatchLink(t: string): (r: Option<Match>)
    ensures r.Some? ==> 0 < r.value.len <= |t|
  {
    if |t| < 1 || t[0] != '[' then None
    else match Span(t[1..], ']')
      case None => None
      case Some(a) =>
        if a == 0 then None
        else match UrlTail(t[1 + a..])
          case None => None
          case Some(b) => Some(Match(a + b + 4, t[1..1 + a], t[3 + a..3 + a + b]))
  }

  function MatchBold(t: string): (r: Option<Match>)
    ensures r.Some? ==> 0 < r.value.len <= |t|
  {
    if |t| < 2 || t[0] != '*' || t[1] != '*' then None
    else match LazyClose(t[2..], "**")
      case None => None
      case Some(a) => Some(Match(a + 4, t[2..2 + a], ""))
  }

  function MatchItalic(t: string): (r: Option<Match>)
    ensures r.Some? ==> 0 < r.value.len <= |t|
  {
    if |t| < 1 || t[0] != '*' then None
    else match LazyClose(t[1..], "*")
      case None => None
      case Some(a) => Some(Match(a + 2, t[1..1 + a], ""))
  }

  function MatchCode(t: string): (r: Option<Match>)
    ensures r.Some? ==> 0 < r.value.len <= |t|
  {
    if |t| < 1 || t[0] != '`' then None
    else match Span(t[1..], '`')
      case None => None
      case Some(a) => if a == 0 then None else Some(Match(a + 2, t[1..1 + a], ""))
  }

  /** The match of pattern `p` at the start of `t`, if there is one; it is never empty. */
  function MatchAt(p: Pattern, t: string): (r: Option<Match>)
    ensures r.Some? ==> 0 < r.value.len <= |t|
  {
    match p
    case Image => MatchImage(t)
    case Link => MatchLink(t)
    case Bold => MatchBold(t)
    case Italic => MatchItalic(t)
    case Code => MatchCode(t)
  }

  lemma ImageSound(t: string)
    requires MatchImage(t).Some?
    ensures Matches(Image, t, MatchImage(t).value)
  {
    var a := Span(t[2..], ']').value;
    assert t[2..][..a] == t[2..2 + a];
    var b := UrlTail(t[2 + a..]).value;
    assert t[2 + a..][2..2 + b] == t[4 + a..4 + a + b];
  }

  lemma LinkSound(t: string)
    requires MatchLink(t).Some?
    ensures Matches(Link, t, MatchLink(t).value)
  {
    var a := Span(t[1..], ']').value;
    assert t[1..][..a] == t[1..1 + a];
    var b := UrlTail(t[1 + a..]).value;
    assert t[1 + a..][2..2 + b] == t[3 + a..3 + a + b];
  }

  lemma BoldSound(t: string)
    requires MatchBold(t).Some?
    ensures Matches(Bold, t, MatchBold(t).value)
  {
    var u := t[2..];
    var a := LazyClose(u, "**").value;
    OccursTwo(u, a);
    forall i | 2 <= i < 2 + a ensures !(t[i] == '*' && t[i + 1] == '*') {
      OccursTwo(u, i - 2);
    }
    assert u[..a] == t[2..2 + a];
  }

  lemma ItalicSound(t: string)
    requires MatchItalic(t).Some?
    ensures Matches(Italic, t, MatchItalic(t).value)
  {
    var u := t[1..];
    var a := LazyClose(u, "*").value;
    OccursOne(u, a);
    var g := t[1..1 + a];
    assert u[..a] == g;
    forall i | 0 <= i < a ensures g[i] != '*' {
      OccursOne(u, i);
    }
  }

  lemma CodeSound(t: string)
    requires MatchCode(t).Some?
    ensures Matches(Code, t, MatchCode(t).value)
  {
    var a := Span(t[1..], '`').value;
    assert t[1..][..a] == t[1..1 + a];
  }

  /** Every match the matchers report is one the regular expression accepts. */
  lemma MatchAtSound(p: Pattern, t: string)
    requires MatchAt(p, t).Some?
    ensures Matches(p, t, MatchAt(p, t).value)
  {
    match p
    case Image => ImageSound(t);
    case Link => LinkSound(t);
    case Bold => BoldSound(t);
    case Italic => ItalicSound(t);
    case Code => CodeSound(t);
  }

  lemma UrlTailIs(u: string, b: nat)
    requires b > 0 && b + 3 <= |u| && u[0] == ']' && u[1] == '('
    requires ')' !in u[2..2 + b] && u[2 + b] == ')'
    ensures UrlTail(u) == Some(b)
  {
    assert u[2..][..b] == u[2..2 + b];
    SpanIs(u[2..], ')', b);
  }

  lemma ImageFound(t: string, a: nat, b: nat)
    requires |t| >= 2 && t[0] == '!' && t[1] == '['
    requires Span(t[2..], ']') == Some(a) && UrlTail(t[2 + a..]) == Some(b)
    ensures MatchImage(t) == Some(Match(a + b + 5, t[2..2 + a], t[4 + a..4 + a + b]))
  {
  }

  lemma LinkFound(t: string, a: nat, b: nat)
    requires |t| >= 1 && t[0] == '[' && a > 0
    requires Span(t[1..], ']') == Some(a) && UrlTail(t[1 + a..]) == Some(b)
    ensures MatchLink(t) == Some(Match(a + b + 4, t[1..1 + a], t[3 + a..3 + a + b]))
  {
  }

  lemma ImageComplete(t: string, m: Match)
    requires Matches(Image, t, m)
    ensures MatchImage(t) == Some(m)
  {
    var a, b := |m.g1|, |m.g2|;
    assert t[2..][..a] == m.g1;
    assert t[2..][a] == ']';
    SpanIs(t[2..], ']', a);
    var u := t[2 + a..];
    assert u[2..2 + b] == m.g2;
    UrlTailIs(u, b);
    ImageFound(t, a, b);
    assert m == Match(a + b + 5, t[2..2 + a], t[4 + a..4 + a + b]);
  }

  lemma LinkComplete(t: string, m: Match)
    requires Matches(Link, t, m)
    ensures MatchLink(t) == Some(m)
  {
    var a, b := |m.g1|, |m.g2|;
    assert t[1..][..a] == m.g1;
    assert t[1..][a] == ']';
    SpanIs(t[1..], ']', a);
    var u := t[1 + a..];
    assert u[2..2 + b] == m.g2;
    UrlTailIs(u, b);
    LinkFound(t, a, b);
    assert m == Match(a + b + 4, t[1..1 + a], t[3 + a..3 + a + b]);
  }

  lemma BoldComplete(t: string, m: Match)
    requires Matches(Bold, t, m)
    ensures MatchBold(t) == Some(m)
  {
    var a, u := |m.g1|, t[2..];
    assert u[..a] == m.g1;
    OccursTwo(u, a);
    forall k | 0 <= k < a ensures !OccursAt(u, k, "**") {
      OccursTwo(u, k);
      assert u[k] == t[2 + k] && u[k + 1] == t[2 + k + 1];
    }
    LazyCloseIs(u, "**", a);
  }

  lemma ItalicComplete(t: string, m: Match)
    requires Matches(Italic, t, m)
    ensures MatchItalic(t) == Some(m)
  {
    var a, u := |m.g1|, t[1..];
    assert u[..a] == m.g1;
    OccursOne(u, a);
    forall k | 0 <= k < a ensures !OccursAt(u, k, "*") {
      OccursOne(u, k);
      assert u[k] == m.g1[k];
    }
    LazyCloseIs(u, "*", a);
  }

  lemma CodeComplete(t: string, m: Match)
    requires Matches(Code, t, m)
    ensures MatchCode(t) == Some(m)
  {
    var a := |m.g1|;
    assert t[1..][..a] == m.g1;
    assert t[1..][a] == '`';
    SpanIs(t[1..], '`', a);
  }

  /**
   * The matchers find every match the regular expressions accept; with
   * `MatchAt`'s own postcondition, the two agree exactly.
   */
  lemma MatchAtComplete(p: Pattern, t: string, m: Match)
    requires Matches(p, t, m)
    ensures MatchAt(p, t) == Some(m)
  {
    match p
    case Image => ImageComplete(t, m);
    case Link => LinkComplete(t, m);
    case Bold => BoldComplete(t, m);
    case Italic => ItalicComplete(t, m);
    case Code => CodeComplete(t, m);
  }

  /** The character without which pattern `p` cannot match. */
  function Trigger(p: Pattern): char {
    match p
    case Image => ']'
    case Link => ']'
    case Bold => '*'
    case Italic => '*'
    case Code => '`'
  }

  lemma MatchNeedsTrigger(p: Pattern, t: string)
    requires MatchAt(p, t).Some?
    ensures Trigger(p) in t
  {
    MatchAtSound(p, t);
    var m := MatchAt(p, t).value;
    match p
    case Image => assert t[2 + |m.g1|] == ']';
    case Link => assert t[1 + |m.g1|] == ']';
    case Bold => assert t[0] == '*';
    case Italic => assert t[0] == '*';
    case Code => assert t[0] == '`';
  }

  /** A text whose suffix at `j` lacks the trigger character has no match there. */
  lemma MatchNeedsTriggerNot(p: Pattern, t: string, j: nat)
    requires j <= |t| && Trigger(p) !in t
    ensures MatchAt(p, t[j..]).None?
  {
    assert forall c :: c in t[j..] ==> c in t;
    if MatchAt(p, t[j..]).Some? {
      MatchNeedsTrigger(p, t[j..]);
    }
  }

  // ---------------------------------------------------------------------------
  // replace
  // ---------------------------------------------------------------------------

  /**
   * The replacement template of each pattern, with `$1` and `$2` filled in:
   * an element that starts with `<` and ends with `>`, shows every character
   * of the first capture, and adds no backtick, `*` or `]` of its own.
   */
  function Replacement(p: Pattern, m: Match): (r: string)
    ensures |r| > 0 && r[0] == '<' && r[|r| - 1] == '>'
    ensures forall c :: c in m.g1 ==> c in r
    ensures '`' in r ==> '`' in m.g1 + m.g2
    ensures '*' in r ==> '*' in m.g1 + m.g2
    ensures ']' in r ==> ']' in m.g1 + m.g2
  {
    TemplateParts();
    match p
    case Image =>
      Element2("<img src=\"", m.g2, "\" alt=\"", m.g1, "\" />");
      "<img src=\"" + m.g2 + "\" alt=\"" + m.g1 + "\" />"
    case Link =>
      Element2("<a href=\"", m.g2, "\">", m.g1, "</a>");
      "<a href=\"" + m.g2 + "\">" + m.g1 + "</a>"
    case Bold =>
      Element1("<strong>", m.g1, "</strong>", m.g2);
      "<strong>" + m.g1 + "</strong>"
    case Italic =>
      Element1("<em>", m.g1, "</em>", m.g2);
      "<em>" + m.g1 + "</em>"
    case Code =>
      Element1("<code>", m.g1, "</code>", m.g2);
      "<code>" + m.g1 + "</code>"
  }

  /** The fixed parts of the templates: each opening tag starts with `<`, each closing one ends with `>`, none holds markup. */
  lemma TemplateParts()
    ensures Opens("<img src=\"") && NoMarkup("\" alt=\"") && Closes("\" />")
    ensures Opens("<a href=\"") && NoMarkup("\">") && Closes("</a>")
    ensures Opens("<strong>") && Closes("</strong>")
    ensures Opens("<em>") && Closes("</em>")
    ensures Opens("<code>") && Closes("</code>")
  {
  }

  predicate Opens(o: string) {
    |o| > 0 && o[0] == '<' && NoMarkup(o)
  }

  predicate Closes(c: string) {
    |c| > 0 && c[|c| - 1] == '>' && NoMarkup(c)
  }

  /** No backtick, `*` or `]`: a text no later inline pass can start on. */
  predicate NoMarkup(s: string) {
    '`' !in s && '*' !in s && ']' !in s
  }

  /** An element `o + y + c` around one capture `y`, the other capture `x` unused. */
  lemma Element1(o: string, y: string, c: string, x: string)
    requires Opens(o) && Closes(c)
    ensures var r := o + y + c;
      && |r| > 0 && r[0] == '<' && r[|r| - 1] == '>' && (forall ch :: ch in y ==> ch in r)
      && ('`' in r ==> '`' in y + x) && ('*' in r ==> '*' in y + x) && (']' in r ==> ']' in y + x)
  {
    var r := o + y + c;
    assert r[|r| - 1] == c[|c| - 1];
  }

  /** An element `o + x + q + y + c` around two captures. */
  lemma Element2(o: string, x: string, q: string, y: string, c: string)
    requires Opens(o) && NoMarkup(q) && Closes(c)
    ensures var r := o + x + q + y + c;
      && |r| > 0 && r[0] == '<' && r[|r| - 1] == '>' && (forall ch :: ch in y ==> ch in r)
      && ('`' in r ==> '`' in y + x) && ('*' in r ==> '*' in y + x) && (']' in r ==> ']' in y + x)
  {
    var r := o + x + q + y + c;
    assert r[|r| - 1] == c[|c| - 1];
  }

  /** A matcher that never reports an empty match or one longer than the text. */
  ghost predicate Advances(f: string -> Option<Match>) {
    forall u :: f(u).Some? ==> 0 < f(u).value.len <= |u|
  }

  /** The regular expression of pattern `p`, as a matcher at the start of a string. */
  function Matcher(p: Pattern): (f: string -> Option<Match>)
    ensures Advances(f) && forall u :: f(u) == MatchAt(p, u)
  {
    u => MatchAt(p, u)
  }

  /** The replacement template of pattern `p`. */
  function Template(p: Pattern): Match -> string {
    m => Replacement(p, m)
  }

  /** `replace` with a global pattern, scanning from index `i`: every leftmost match, resuming after each one. */
  function ScanAll(f: string -> Option<Match>, rep: Match -> string, t: string, i: nat): string
    requires Advances(f) && i <= |t|
    decreases |t| - i
  {
    if i == |t| then []
    else match f(t[i..])
      case Some(m) => rep(m) + ScanAll(f, rep, t, i + m.len)
      case None => [t[i]] + ScanAll(f, rep, t, i + 1)
  }

  /** `replace` with a pattern without the `g` flag, scanning from index `i`: the leftmost match only. */
  function ScanFirst(f: string -> Option<Match>, rep: Match -> string, t: string, i: nat): string
    requires Advances(f) && i <= |t|
    decreases |t| - i
  {
    if i == |t| then []
    else match f(t[i..])
      case Some(m) => rep(m) + t[i + m.len..]
      case None => [t[i]] + ScanFirst(f, rep, t, i + 1)
  }

  function ReplaceAll(f: string -> Option<Match>, rep: Match -> string, t: string): string
    requires Advances(f)
  {
    ScanAll(f, rep, t, 0)
  }

  function ReplaceFirst(f: string -> Option<Match>, rep: Match -> string, t: string): string
    requires Advances(f)
  {
    ScanFirst(f, rep, t, 0)
  }

  /** `text.replace(regex.p, template)`, with the `g` flag except for inline code. */
  function Rewrite(p: Pattern, t: string): string {
    if p == Code then ReplaceFirst(Matcher(p), Template(p), t)
    else ReplaceAll(Matcher(p), Template(p), t)
  }

  /** `renderInline`: images, then links, bold, italic, and the first inline code span. */
  function RenderInline(text: string): string {
    Rewrite(Code, Rewrite(Italic, Rewrite(Bold, Rewrite(Link, Rewrite(Image, text)))))
  }

  /** Where the pattern matches nowhere in `i..k`, that stretch is copied unchanged. */
  lemma {:induction false} ScanAllSkips(f: string -> Option<Match>, rep: Match -> string, t: string, i: nat, k: nat)
    requires Advances(f) && i <= k <= |t|
    requires forall j :: i <= j < k ==> f(t[j..]).None?
    ensures ScanAll(f, rep, t, i) == t[i..k] + ScanAll(f, rep, t, k)
    decreases k - i
  {
    if i < k {
      calc {
        ScanAll(f, rep, t, i);
        [t[i]] + ScanAll(f, rep, t, i + 1);
        { ScanAllSkips(f, rep, t, i + 1, k); }
        [t[i]] + (t[i + 1..k] + ScanAll(f, rep, t, k));
        { assert t[i..k] == [t[i]] + t[i + 1..k]; }
        t[i..k] + ScanAll(f, rep, t, k);
      }
    }
  }

  lemma {:induction false} ScanFirstSkips(f: string -> Option<Match>, rep: Match -> string, t: string, i: nat, k: nat)
    requires Advances(f) && i <= k <= |t|
    requires forall j :: i <= j < k ==> f(t[j..]).None?
    ensures ScanFirst(f, rep, t, i) == t[i..k] + ScanFirst(f, rep, t, k)
    decreases k - i
  {
    if i < k {
      calc {
        ScanFirst(f, rep, t, i);
        [t[i]] + ScanFirst(f, rep, t, i + 1);
        { ScanFirstSkips(f, rep, t, i + 1, k); }
        [t[i]] + (t[i + 1..k] + ScanFirst(f, rep, t, k));
        { assert t[i..k] == [t[i]] + t[i + 1..k]; }
        t[i..k] + ScanFirst(f, rep, t, k);
      }
    }
  }

  /**
   * Leftmost-first: when the first match of a global replace starts at `i`,
   * the text before it is kept, the match is replaced, and scanning resumes
   * right after it.
   */
  lemma ReplaceAllLeftmost(f: string -> Option<Match>, rep: Match -> string, t: string, i: nat)
    requires Advances(f) && i < |t| && f(t[i..]).Some?
    requires forall j :: 0 <= j < i ==> f(t[j..]).None?
    ensures var m := f(t[i..]).value;
      ReplaceAll(f, rep, t) == t[..i] + (rep(m) + ScanAll(f, rep, t, i + m.len))
  {
    var m := f(t[i..]).value;
    calc {
      ReplaceAll(f, rep, t);
      ScanAll(f, rep, t, 0);
      { ScanAllSkips(f, rep, t, 0, i); }
      t[0..i] + ScanAll(f, rep, t, i);
      t[0..i] + (rep(m) + ScanAll(f, rep, t, i + m.len));
      { assert t[0..i] == t[..i]; }
      t[..i] + (rep(m) + ScanAll(f, rep, t, i + m.len));
    }
  }

  /**
   * Without the `g` flag only the leftmost match is replaced: everything
   * after it is kept verbatim, later matches included.
   */
  lemma ReplaceFirstLeftmost(f: string -> Option<Match>, rep: Match -> string, t: string, i: nat)
    requires Advances(f) && i < |t| && f(t[i..]).Some?
    requires forall j :: 0 <= j < i ==> f(t[j..]).None?
    ensures var m := f(t[i..]).value;
      ReplaceFirst(f, rep, t) == t[..i] + (rep(m) + t[i + m.len..])
  {
    var m := f(t[i..]).value;
    calc {
      ReplaceFirst(f, rep, t);
      ScanFirst(f, rep, t, 0);
      { ScanFirstSkips(f, rep, t, 0, i); }
      t[0..i] + ScanFirst(f, rep, t, i);
      t[0..i] + (rep(m) + t[i + m.len..]);
      { assert t[0..i] == t[..i]; }
      t[..i] + (rep(m) + t[i + m.len..]);
    }
  }

  /** A rewrite finds nothing to do in a text that lacks the pattern's trigger character. */
  lemma RewriteWithoutTrigger(p: Pattern, t: string)
    requires Trigger(p) !in t
    ensures Rewrite(p, t) == t
  {
    var f := Matcher(p);
    forall j | 0 <= j < |t| ensures f(t[j..]).None? {
      MatchNeedsTriggerNot(p, t, j);
    }
    ScanAllSkips(f, Template(p), t, 0, |t|);
    ScanFirstSkips(f, Template(p), t, 0, |t|);
  }

  /** Text with no backtick, asterisk or closing bracket passes through `renderInline` unchanged. */
  lemma RenderInlinePlain(text: string)
    requires '`' !in text && '*' !in text && ']' !in text
    ensures RenderInline(text) == text
  {
    RenderInlineOnlyCode(text);
    RewriteWithoutTrigger(Code, text);
  }

  /** Without `*` and `]`, only the inline-code rewrite can change the text. */
  lemma RenderInlineOnlyCode(text: string)
    requires '*' !in text && ']' !in text
    ensures RenderInline(text) == Rewrite(Code, text)
  {
    calc {
      RenderInline(text);
      Rewrite(Code, Rewrite(Italic, Rewrite(Bold, Rewrite(Link, Rewrite(Image, text)))));
      { RewriteWithoutTrigger(Image, text); }
      Rewrite(Code, Rewrite(Italic, Rewrite(Bold, Rewrite(Link, text))));
      { RewriteWithoutTrigger(Link, text); }
      Rewrite(Code, Rewrite(Italic, Rewrite(Bold, text)));
      { RewriteWithoutTrigger(Bold, text); }
      Rewrite(Code, Rewrite(Italic, text));
      { RewriteWithoutTrigger(Italic, text); }
      Rewrite(Code, text);
    }
  }

  /** When the image rewrite leaves no other markup behind, the later rewrites change nothing. */
  lemma RenderInlineOnlyImages(text: string)
    requires var h := Rewrite(Image, text); '`' !in h && '*' !in h && ']' !in h
    ensures RenderInline(text) == Rewrite(Image, text)
  {
    var h := Rewrite(Image, text);
    calc {
      RenderInline(text);
      Rewrite(Code, Rewrite(Italic, Rewrite(Bold, Rewrite(Link, h))));
      { RewriteWithoutTrigger(Link, h); }
      Rewrite(Code, Rewrite(Italic, Rewrite(Bold, h)));
      { RewriteWithoutTrigger(Bold, h); }
      Rewrite(Code, Rewrite(Italic, h));
      { RewriteWithoutTrigger(Italic, h); }
      Rewrite(Code, h);
      { RewriteWithoutTrigger(Code, h); }
      h;
    }
  }

  /**
   * A text that opens with an inline code span: the span becomes a `code`
   * element and everything after it is kept verbatim, backticks included.
   */
  lemma LeadingCodeSpan(code: string, rest: string)
    requires |code| > 0 && '`' !in code
    ensures Rewrite(Code, "`" + code + "`" + rest) == "<code>" + code + "</code>" + rest
  {
    var t := "`" + code + "`" + rest;
    var m := Match(|code| + 2, code, "");
    var f, g := Matcher(Code), Template(Code);
    assert t[1..1 + |code|] == code;
    assert Matches(Code, t, m);
    MatchAtComplete(Code, t, m);
    assert t[0..] == t;
    calc {
      Rewrite(Code, t);
      ReplaceFirst(f, g, t);
      { ReplaceFirstLeftmost(f, g, t, 0); }
      t[..0] + (g(m) + t[m.len..]);
      { assert t[..0] == [] && t[m.len..] == rest; }
      g(m) + rest;
    }
  }

  /**
   * Through the whole of `renderInline`: a leading code span is converted and
   * the rest, other code spans included, is kept.
   */
  lemma OnlyFirstCodeSpan(code: string, rest: string)
    requires |code| > 0 && '`' !in code
    requires '*' !in code + rest && ']' !in code + rest
    ensures RenderInline("`" + code + "`" + rest) == "<code>" + code + "</code>" + rest
  {
    var t := "`" + code + "`" + rest;
    forall c | c in t && c != '`' ensures c in code + rest { }
    RenderInlineOnlyCode(t);
    LeadingCodeSpan(code, rest);
  }

  /** The image pattern matches a text that is exactly one image, all of it. */
  lemma WholeImageMatch(alt: string, url: string)
    requires ']' !in alt && ')' !in url && |url| > 0
    ensures MatchAt(Image, "![" + alt + "](" + url + ")") == Some(Match(|alt| + |url| + 5, alt, url))
  {
    var t := "![" + alt + "](" + url + ")";
    assert t[2..2 + |alt|] == alt;
    assert t[4 + |alt|..4 + |alt| + |url|] == url;
    MatchAtComplete(Image, t, Match(|alt| + |url| + 5, alt, url));
  }

  /** A text that is exactly one image becomes one `img` element. */
  lemma WholeImage(alt: string, url: string)
    requires ']' !in alt && ')' !in url && |url| > 0
    ensures Rewrite(Image, "![" + alt + "](" + url + ")") == Replacement(Image, Match(|alt| + |url| + 5, alt, url))
  {
    var t := "![" + alt + "](" + url + ")";
    var f, g := Matcher(Image), Template(Image);
    WholeImageMatch(alt, url);
    assert f(t[0..]) == MatchAt(Image, t);
    ReplaceAllLeftmost(f, g, t, 0);
    assert t[..0] == [] && ScanAll(f, g, t, |t|) == [];
  }

  /** The `img` markup adds no backtick, asterisk or closing bracket of its own. */
  lemma ImageMarkupClean(alt: string, url: string)
    requires '`' !in alt + url && '*' !in alt + url && ']' !in url && ']' !in alt
    ensures var h := Replacement(Image, Match(|alt| + |url| + 5, alt, url));
      '`' !in h && '*' !in h && ']' !in h
  {
    var a, b, c := "<img src=\"", "\" alt=\"", "\" />";
    assert ']' !in a && ']' !in b && ']' !in c;
    assert '*' !in a && '*' !in b && '*' !in c;
    assert '`' !in a && '`' !in b && '`' !in c;
  }

  /**
   * Images are rewritten before links, so the `[alt](url)` inside an image
   * never becomes a link: an image followed by text without markup renders
   * to one `img` element followed by that text. `LinkInsideImageUrl` shows
   * that this needs the url to be free of `]`.
   */
  lemma ImageBeforeLink(alt: string, url: string, rest: string)
    requires ']' !in alt && ')' !in url && |url| > 0 && ']' !in url && ']' !in rest
    requires '`' !in alt + url + rest && '*' !in alt + url + rest
    ensures RenderInline("![" + alt + "](" + url + ")" + rest)
      == "<img src=\"" + url + "\" alt=\"" + alt + "\" />" + rest
  {
    var t := "![" + alt + "](" + url + ")" + rest;
    var m := Match(|alt| + |url| + 5, alt, url);
    assert forall c :: c in alt + url || c in rest ==> c in alt + url + rest;
    ImageFirst(alt, url, rest);
    ImageMarkupClean(alt, url);
    var h := Replacement(Image, m) + rest;
    assert '`' !in h && '*' !in h && ']' !in h;
    RenderInlineOnlyImages(t);
  }

  /** The character a match of pattern `p` starts with. */
  function Lead(p: Pattern): char {
    match p
    case Image => '!'
    case Link => '['
    case Bold => '*'
    case Italic => '*'
    case Code => '`'
  }

  /** Every match starts with its pattern's leading character. */
  lemma MatchNeedsLead(p: Pattern, t: string)
    requires MatchAt(p, t).Some?
    ensures t[0] == Lead(p)
  {
    MatchAtSound(p, t);
  }

  /** No match starts inside a prefix that lacks the pattern's leading character. */
  lemma NoMatchIn(p: Pattern, pre: string, t: string)
    requires |pre| <= |t| && t[..|pre|] == pre && Lead(p) !in pre
    ensures forall j :: 0 <= j < |pre| ==> MatchAt(p, t[j..]).None?
  {
    forall j | 0 <= j < |pre| ensures MatchAt(p, t[j..]).None? {
      assert t[j] == pre[j];
      if MatchAt(p, t[j..]).Some? {
        MatchNeedsLead(p, t[j..]);
      }
    }
  }

  /** What a pattern accepts depends only on the characters of the match. */
  lemma MatchesPrefix(p: Pattern, s: string, rest: string, m: Match)
    requires Matches(p, s, m)
    ensures Matches(p, s + rest, m)
  {
    var t := s + rest;
    forall i, j | 0 <= i <= j <= |s| ensures t[i..j] == s[i..j] {
      assert t[..|s|] == s;
    }
  }

  /** No match starts inside a suffix that lacks the pattern's trigger character. */
  lemma NoMatchAfter(p: Pattern, head: string, rest: string)
    requires Trigger(p) !in rest
    ensures forall j :: |head| <= j < |head + rest| ==> MatchAt(p, (head + rest)[j..]).None?
  {
    var t := head + rest;
    forall j | |head| <= j < |t| ensures MatchAt(p, t[j..]).None? {
      assert t[j..] == rest[j - |head|..];
      MatchNeedsTriggerNot(p, rest, j - |head|);
    }
  }

  /** A global replace of `pre + s + rest`, where `s` is the leftmost match and no match follows it. */
  lemma ReplaceAllOne(f: string -> Option<Match>, rep: Match -> string, pre: string, s: string, rest: string, m: Match)
    requires Advances(f) && f(s + rest) == Some(m) && m.len == |s|
    requires forall j :: 0 <= j < |pre| ==> f((pre + s + rest)[j..]).None?
    requires forall j :: |pre + s| <= j < |pre + s + rest| ==> f((pre + s + rest)[j..]).None?
    ensures ReplaceAll(f, rep, pre + s + rest) == pre + rep(m) + rest
  {
    var t := pre + s + rest;
    var k := |pre| + |s|;
    assert t[|pre|..] == s + rest;
    ReplaceAllLeftmost(f, rep, t, |pre|);
    ScanAllSkips(f, rep, t, k, |t|);
    assert t[k..|t|] == rest && t[..|pre|] == pre;
    assert ScanAll(f, rep, t, |t|) == [];
  }

  /** A global rewrite of `pre + s + rest`, where `s` is one match and neither side holds another. */
  lemma RewriteOne(p: Pattern, pre: string, s: string, rest: string, m: Match)
    requires p != Code && Matches(p, s, m) && m.len == |s|
    requires Lead(p) !in pre && Trigger(p) !in rest
    ensures Rewrite(p, pre + s + rest) == pre + Replacement(p, m) + rest
  {
    var t := pre + s + rest;
    assert t[..|pre|] == pre;
    NoMatchIn(p, pre, t);
    MatchesPrefix(p, s, rest, m);
    MatchAtComplete(p, s + rest, m);
    assert t == (pre + s) + rest;
    NoMatchAfter(p, pre + s, rest);
    ReplaceAllOne(Matcher(p), Template(p), pre, s, rest, m);
  }

  /** An image pass over one image followed by text that cannot hold another. */
  lemma ImageBefore(a: string, url: string, rest: string)
    requires ']' !in a && url != [] && ')' !in url && ']' !in rest
    ensures Rewrite(Image, ("![" + a + "](" + url + ")") + rest) == ("<img src=\"" + ImgTail(url, a)) + rest
  {
    ImageFirst(a, url, rest);
    RegroupImg("<img src=\"", url, "\" alt=\"", a, "\" />");
  }

  lemma ImageFirst(a: string, url: string, rest: string)
    requires ']' !in a && url != [] && ')' !in url && ']' !in rest
    ensures Rewrite(Image, ("![" + a + "](" + url + ")") + rest)
      == Replacement(Image, Match(|a| + |url| + 5, a, url)) + rest
  {
    var s := "![" + a + "](" + url + ")";
    ImageShape(a, url);
    assert "" + s + rest == s + rest;
    RewriteOne(Image, "", s, rest, Match(|a| + |url| + 5, a, url));
  }

  /** Moving the brackets of a concatenation: the `img` element. */
  lemma RegroupImg(open: string, url: string, q1: string, a: string, q2: string)
    ensures open + url + q1 + a + q2 == open + (url + q1 + a + q2)
  {
  }

  lemma ImageShape(a: string, url: string)
    requires ']' !in a && url != [] && ')' !in url
    ensures Matches(Image, "![" + a + "](" + url + ")", Match(|a| + |url| + 5, a, url))
  {
    var s := "![" + a + "](" + url + ")";
    assert s[2..2 + |a|] == a && s[4 + |a|..4 + |a| + |url|] == url;
  }

  /** Moving the brackets of a concatenation: an image whose url holds a link. */
  lemma RegroupSrc(o: string, a: string, c: string, x: string, ob: string, y: string, cb: string,
                   z: string, cp: string, w: string)
    ensures o + a + c + x + ob + y + cb + z + cp + w + cp
      == (o + a + c + (x + ob + y + cb + z) + cp) + (w + cp)
  {
  }

  /** The image pass on `![a](x[y](z)w)`: the url runs up to the first `)`, brackets and all. */
  lemma ImagePassKeepsBracket(a: string, x: string, y: string, z: string, w: string)
    requires ']' !in a && ')' !in x + y + z && ']' !in w
    ensures Rewrite(Image, "![" + a + "](" + x + "[" + y + "](" + z + ")" + w + ")")
      == "<img src=\"" + ImgTail(x + "[" + y + "](" + z, a) + w + ")"
  {
    var url := x + "[" + y + "](" + z;
    assert ')' !in url by {
      assert forall c :: c in url ==> c in x + y + z || c in "[](";
    }
    RegroupSrc("![", a, "](", x, "[", y, "](", z, ")", w);
    ImageBefore(a, url, w + ")");
  }

  /** The `img` element around a url and alt text, without its `src` opening. */
  function ImgTail(url: string, alt: string): string {
    url + "\" alt=\"" + alt + "\" />"
  }

  lemma ImgTailWithout(url: string, alt: string, c: char)
    requires c !in url + alt && c !in "\" alt=/>"
    ensures c !in ImgTail(url, alt)
  {
  }

  /** A link pass over `pre` followed by one link, where `pre` cannot start a link. */
  lemma LinkAfter(pre: string, y: string, url: string)
    requires '[' !in pre && y != [] && ']' !in y && url != [] && ')' !in url
    ensures Rewrite(Link, pre + ("[" + y + "](" + url + ")")) == pre + ("<a href=\"" + url + "\">" + y + "</a>")
  {
    var s := "[" + y + "](" + url + ")";
    var m := Match(|y| + |url| + 4, y, url);
    LinkShape(y, url);
    RewriteOne(Link, pre, s, "", m);
    assert pre + s + "" == pre + s;
  }

  /** Moving the brackets of a concatenation: the image output around a link. */
  lemma RegroupImage(open: string, x: string, ob: string, y: string, cb: string, z: string,
                     q1: string, a: string, q2: string, w: string, cp: string)
    ensures open + (x + ob + y + cb + z + q1 + a + q2) + w + cp
      == (open + x) + (ob + y + cb + (z + q1 + a + q2 + w) + cp)
  {
  }

  /** Moving the brackets of a concatenation: the link element after its prefix. */
  lemma RegroupLink(pre: string, oa: string, url: string, q: string, y: string, ca: string)
    ensures pre + (oa + url + q + y + ca) == pre + oa + url + q + y + ca
  {
  }

  /** The link pass on the image pass's output: it matches from the `[` inside the url. */
  lemma LinkPassInsideImage(a: string, x: string, y: string, z: string, w: string)
    requires '[' !in x && y != [] && ']' !in y && ')' !in z + a + w
    ensures Rewrite(Link, "<img src=\"" + ImgTail(x + "[" + y + "](" + z, a) + w + ")")
      == "<img src=\"" + x + "<a href=\"" + (ImgTail(z, a) + w) + "\">" + y + "</a>"
  {
    var pre := "<img src=\"" + x;
    var url := ImgTail(z, a) + w;
    assert ')' !in z + a && ')' !in w;
    ImgTailWithout(z, a, ')');
    assert '[' !in pre;
    LinkAfter(pre, y, url);
    RegroupImage("<img src=\"", x, "[", y, "](", z, "\" alt=\"", a, "\" />", w, ")");
    RegroupLink(pre, "<a href=\"", url, "\">", y, "</a>");
  }

  lemma LinkShape(y: string, url: string)
    requires y != [] && ']' !in y && url != [] && ')' !in url
    ensures Matches(Link, "[" + y + "](" + url + ")", Match(|y| + |url| + 4, y, url))
  {
    var s := "[" + y + "](" + url + ")";
    assert s[1..1 + |y|] == y && s[3 + |y|..3 + |y| + |url|] == url;
  }

  /**
   * The image rewrite does not protect its output from the link rewrite: in
   * `![a](x[y](z)w)` the image's url is `x[y](z`, and the link pass then
   * matches from that `[` to the `)` after the element, nesting a link
   * inside the `img` tag. `![a](x[y](z) )` is one such text.
   */
  lemma LinkInsideImageUrl(a: string, x: string, y: string, z: string, w: string)
    requires ']' !in a && '[' !in x && y != [] && ']' !in y && ']' !in w
    requires ')' !in x + y + z + a + w
    requires '*' !in x + y + z + a + w && '`' !in x + y + z + a + w
    ensures RenderInline("![" + a + "](" + x + "[" + y + "](" + z + ")" + w + ")")
      == "<img src=\"" + x + "<a href=\"" + z + "\" alt=\"" + a + "\" />" + w + "\">" + y + "</a>"
  {
    var t := "![" + a + "](" + x + "[" + y + "](" + z + ")" + w + ")";
    var h1 := "<img src=\"" + ImgTail(x + "[" + y + "](" + z, a) + w + ")";
    var h := "<img src=\"" + x + "<a href=\"" + (ImgTail(z, a) + w) + "\">" + y + "</a>";
    NestedLinkClean(a, x, y, z, w);
    calc {
      RenderInline(t);
      Rewrite(Code, Rewrite(Italic, Rewrite(Bold, Rewrite(Link, Rewrite(Image, t)))));
      { ImagePassKeepsBracket(a, x, y, z, w); }
      Rewrite(Code, Rewrite(Italic, Rewrite(Bold, Rewrite(Link, h1))));
      { LinkPassInsideImage(a, x, y, z, w); }
      Rewrite(Code, Rewrite(Italic, Rewrite(Bold, h)));
      { LaterPassesInert(h); }
      h;
      { RegroupLinkIn("<img src=\"" + x + "<a href=\"", z, "\" alt=\"", a, "\" />", w, "\">" + y + "</a>"); }
      "<img src=\"" + x + "<a href=\"" + z + "\" alt=\"" + a + "\" />" + w + "\">" + y + "</a>";
    }
  }

  /** The side conditions of the two passes, and a result free of `*` and backticks. */
  lemma NestedLinkClean(a: string, x: string, y: string, z: string, w: string)
    requires ')' !in x + y + z + a + w
    requires '*' !in x + y + z + a + w && '`' !in x + y + z + a + w
    ensures ')' !in x + y + z && ')' !in z + a + w
    ensures var h := "<img src=\"" + x + "<a href=\"" + (ImgTail(z, a) + w) + "\">" + y + "</a>";
      '*' !in h && '`' !in h
  {
    var all := x + y + z + a + w;
    assert forall c :: c in x || c in y || c in z || c in a || c in w ==> c in all;
    var parts := ["<img src=\"", "<a href=\"", "\" alt=\"", "\" />", "\">", "</a>"];
    assert forall i :: 0 <= i < |parts| ==> '*' !in parts[i] && '`' !in parts[i];
  }

  /** Moving the brackets of a concatenation: the url of the nested link. */
  lemma RegroupLinkIn(open: string, z: string, q1: string, a: string, q2: string, w: string, close: string)
    ensures open + (z + q1 + a + q2 + w) + close == open + z + q1 + a + q2 + w + close
  {
  }

  /** The bold, italic and code passes leave a text without `*` and backticks alone. */
  lemma LaterPassesInert(h: string)
    requires '*' !in h && '`' !in h
    ensures Rewrite(Code, Rewrite(Italic, Rewrite(Bold, h))) == h
  {
    calc {
      Rewrite(Code, Rewrite(Italic, Rewrite(Bold, h)));
      { RewriteWithoutTrigger(Bold, h); }
      Rewrite(Code, Rewrite(Italic, h));
      { RewriteWithoutTrigger(Italic, h); }
      Rewrite(Code, h);
      { RewriteWithoutTrigger(Code, h); }
      h;
    }
  }


  /** Bold can only start at a doubled asterisk. */
  lemma BoldNeedsPair(t: string, j: nat)
    requires j < |t|
    ensures MatchAt(Bold, t[j..]).Some? ==> j + 1 < |t| && t[j] == '*' && t[j + 1] == '*'
  {
    if MatchAt(Bold, t[j..]).Some? {
      MatchAtSound(Bold, t[j..]);
    }
  }

  /** Text without two adjacent asterisks passes the bold rewrite unchanged. */
  lemma RewriteWithoutPair(t: string)
    requires forall i :: 0 <= i < |t| - 1 ==> !(t[i] == '*' && t[i + 1] == '*')
    ensures Rewrite(Bold, t) == t
  {
    var f := Matcher(Bold);
    forall j | 0 <= j < |t| ensures f(t[j..]).None? {
      BoldNeedsPair(t, j);
    }
    ScanAllSkips(f, Template(Bold), t, 0, |t|);
  }

  /** A text that is exactly one bold span becomes one `strong` element. */
  lemma WholeBold(x: string)
    requires NoLineTerminator(x) && forall i :: 0 <= i < |x| - 1 ==> !(x[i] == '*' && x[i + 1] == '*')
    requires x == [] || x[|x| - 1] != '*'
    ensures Rewrite(Bold, "**" + x + "**") == Replacement(Bold, Match(|x| + 4, x, ""))
  {
    var t := "**" + x + "**";
    var f, g := Matcher(Bold), Template(Bold);
    BoldShape(x);
    MatchAtComplete(Bold, t, Match(|x| + 4, x, ""));
    assert f(t[0..]) == MatchAt(Bold, t);
    ReplaceAllLeftmost(f, g, t, 0);
    assert t[..0] == [] && ScanAll(f, g, t, |t|) == [];
  }

  lemma BoldShape(x: string)
    requires NoLineTerminator(x) && forall i :: 0 <= i < |x| - 1 ==> !(x[i] == '*' && x[i + 1] == '*')
    requires x == [] || x[|x| - 1] != '*'
    ensures Matches(Bold, "**" + x + "**", Match(|x| + 4, x, ""))
  {
    var s := "**" + x + "**";
    assert s[2..2 + |x|] == x;
    forall i | 2 <= i < 2 + |x| ensures !(s[i] == '*' && s[i + 1] == '*') {
      assert s[i] == x[i - 2];
      if i + 1 < 2 + |x| {
        assert s[i + 1] == x[i - 1];
      }
    }
  }

  /** Through the whole of `renderInline`: a `**` span without other markup becomes a `strong` element. */
  lemma OnlyBold(x: string)
    requires NoLineTerminator(x) && '*' !in x && '`' !in x && ']' !in x
    ensures RenderInline("**" + x + "**") == "<strong>" + x + "</strong>"
  {
    var t := "**" + x + "**";
    var h := "<strong>" + x + "</strong>";
    assert ']' !in t;
    assert '*' !in h && '`' !in h;
    calc {
      RenderInline(t);
      Rewrite(Code, Rewrite(Italic, Rewrite(Bold, Rewrite(Link, Rewrite(Image, t)))));
      { RewriteWithoutTrigger(Image, t); RewriteWithoutTrigger(Link, t); }
      Rewrite(Code, Rewrite(Italic, Rewrite(Bold, t)));
      { WholeBold(x); }
      Rewrite(Code, Rewrite(Italic, h));
      { RewriteWithoutTrigger(Italic, h); }
      Rewrite(Code, h);
      { RewriteWithoutTrigger(Code, h); }
      h;
    }
  }

  /** A text that is exactly one italic span becomes one `em` element. */
  lemma WholeItalic(x: string)
    requires NoLineTerminator(x) && '*' !in x
    ensures Rewrite(Italic, "*" + x + "*") == Replacement(Italic, Match(|x| + 2, x, ""))
  {
    var t := "*" + x + "*";
    var f, g := Matcher(Italic), Template(Italic);
    assert t[1..1 + |x|] == x;
    MatchAtComplete(Italic, t, Match(|x| + 2, x, ""));
    assert f(t[0..]) == MatchAt(Italic, t);
    ReplaceAllLeftmost(f, g, t, 0);
    assert t[..0] == [] && ScanAll(f, g, t, |t|) == [];
  }

  /** Through the whole of `renderInline`: a single-asterisk span becomes an `em` element. */
  lemma OnlyItalic(x: string)
    requires x != [] && NoLineTerminator(x) && '*' !in x && '`' !in x && ']' !in x
    ensures RenderInline("*" + x + "*") == "<em>" + x + "</em>"
  {
    var t := "*" + x + "*";
    var h := "<em>" + x + "</em>";
    assert ']' !in t;
    forall i | 0 <= i < |t| - 1 ensures !(t[i] == '*' && t[i + 1] == '*') {
      if i == 0 {
        assert t[1] == x[0];
      } else {
        assert t[i] == x[i - 1];
      }
    }
    assert '`' !in h;
    calc {
      RenderInline(t);
      Rewrite(Code, Rewrite(Italic, Rewrite(Bold, Rewrite(Link, Rewrite(Image, t)))));
      { RewriteWithoutTrigger(Image, t); RewriteWithoutTrigger(Link, t); }
      Rewrite(Code, Rewrite(Italic, Rewrite(Bold, t)));
      { RewriteWithoutPair(t); }
      Rewrite(Code, Rewrite(Italic, t));
      { WholeItalic(x); }
      Rewrite(Code, h);
      { RewriteWithoutTrigger(Code, h); }
      h;
    }
  }
}

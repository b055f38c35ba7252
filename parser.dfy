/**
 * The block parser of the markdown converter (`parse` in md.ts).
 *
 * The parser walks the tokens once, appending nodes to whichever container
 * is current. The current container is the root, or a list or code block
 * that is itself a child of the root, so the tree never grows deeper than
 * two levels below the root. Table lines are buffered and only turned into
 * a table node when a separator token arrives.
 *
 * The source mutates a tree of objects; that is modelled by the class
 * MarkdownNode and the method Parse. The value `State` and the fold `Run`
 * say what that tree is, as a Node value, after any prefix of the tokens.
 */
module BlockParser {
  import opened Text
  import Tokenizer

  datatype NodeKind =
    | Root
    | Header(level: Tokenizer.Level)
    | Paragraph
    | Blockquote
    | Hr
    | List
    | ListItem
    | CodeBlock
    | CodeLine
    | Table

  /** Kinds that only ever hold text. */
  predicate IsLeafKind(k: NodeKind) {
    k.Header? || k.Paragraph? || k.Blockquote? || k.Hr? || k.ListItem? || k.CodeLine?
  }

  /** The two kinds that can become the current container besides the root. */
  predicate IsContainer(k: NodeKind) {
    k.List? || k.CodeBlock?
  }

  /** A parsed node as a value: what the renderer consumes. */
  datatype Node = Node(kind: NodeKind, value: string, children: seq<Node>)

  // ---------------------------------------------------------------------------
  // The parser's state as a value, and the fold over the tokens
  // ---------------------------------------------------------------------------

  /** Which node is current: the root, or the root's child with this index. */
  datatype Cursor = AtRoot | AtChild(index: nat)

  /** The root's children so far, the current container and the table buffer. */
  datatype State = State(children: seq<Node>, cursor: Cursor, buffer: seq<string>)

  /** A child of the root: a container of childless leaves, or itself childless; lists carry no text. */
  predicate WellFormedChild(c: Node) {
    && !c.kind.Root?
    && (c.kind.List? ==> c.value == "")
    && (!IsContainer(c.kind) ==> c.children == [])
    && (forall g :: g in c.children ==> IsLeafKind(g.kind) && g.children == [])
  }

  /**
   * The invariant every parser state keeps: the root's children are well
   * formed, and a current child is a list or code block after which only
   * tables have been added.
   */
  predicate ValidState(st: State) {
    && (forall j :: 0 <= j < |st.children| ==> WellFormedChild(st.children[j]))
    && (st.cursor.AtChild? ==>
          && st.cursor.index < |st.children|
          && IsContainer(st.children[st.cursor.index].kind)
          && (forall j :: st.cursor.index < j < |st.children| ==> st.children[j].kind.Table?))
  }

  const Start := State([], AtRoot, [])

  /** `currentNode.type === 'list'` */
  predicate InList(st: State) {
    st.cursor.AtChild? && st.cursor.index < |st.children| && st.children[st.cursor.index].kind.List?
  }

  /** Appends `n` to the current container. */
  function AppendAt(st: State, n: Node): (r: State)
    requires ValidState(st) && IsLeafKind(n.kind) && n.children == []
    ensures ValidState(r) && r.cursor == st.cursor && r.buffer == st.buffer
  {
    match st.cursor
    case AtRoot => st.(children := st.children + [n])
    case AtChild(k) =>
      var c := st.children[k];
      var c' := Node(c.kind, c.value, c.children + [n]);
      assert forall g :: g in c'.children ==> g in c.children || g == n;
      assert WellFormedChild(c');
      st.(children := st.children[k := c'])
  }

  /** The state with a list current: unchanged if one is, else with a new empty list opened under the root. */
  function WithList(st: State): (r: State)
    requires ValidState(st)
    ensures ValidState(r) && InList(r) && r.buffer == st.buffer
    ensures InList(st) ==> r == st
    ensures !InList(st) ==> r.children == st.children + [Node(List, "", [])] && r.cursor == AtChild(|st.children|)
  {
    if InList(st) then st
    else st.(children := st.children + [Node(List, "", [])], cursor := AtChild(|st.children|))
  }

  /**
   * One token of the parser's loop. Only a list item (when no list is
   * current), a code-block start and a code-block end move the cursor; a
   * list item outside a list and a code-block start each add one container
   * to the root and make it current; a code-block end returns to the root;
   * the root's existing children are never removed.
   */
  function Step(st: State, t: Tokenizer.Token): (r: State)
    requires ValidState(st)
    ensures ValidState(r)
    ensures |st.children| <= |r.children|
    ensures t.kind !in {Tokenizer.ListItem, Tokenizer.CodeBlockStart, Tokenizer.CodeBlockEnd} ==> r.cursor == st.cursor
    ensures t.kind == Tokenizer.ListItem && InList(st) ==> r.cursor == st.cursor && |r.children| == |st.children|
    ensures t.kind == Tokenizer.ListItem && !InList(st) ==>
      && |r.children| == |st.children| + 1 && r.cursor == AtChild(|st.children|) && r.children[|st.children|].kind.List?
    ensures t.kind == Tokenizer.CodeBlockStart ==>
      && |r.children| == |st.children| + 1 && r.cursor == AtChild(|st.children|) && r.children[|st.children|] == Node(CodeBlock, t.value, [])
    ensures t.kind == Tokenizer.CodeBlockEnd ==> r == st.(cursor := AtRoot)
  {
    match t.kind
    case Header(l) => AppendAt(st, Node(Header(l), t.value, []))
    case Paragraph => AppendAt(st, Node(Paragraph, t.value, []))
    case Blockquote => AppendAt(st, Node(Blockquote, t.value, []))
    case Hr => AppendAt(st, Node(Hr, t.value, []))
    case ListItem => AppendAt(WithList(st), Node(ListItem, t.value, []))
    case CodeBlockStart =>
      st.(children := st.children + [Node(CodeBlock, t.value, [])], cursor := AtChild(|st.children|))
    case CodeBlockEnd => st.(cursor := AtRoot)
    case CodeLine => AppendAt(st, Node(CodeLine, t.value, []))
    case TableRow => st.(buffer := st.buffer + [t.value])
    case TableSeparator =>
      var rows := st.buffer + [t.value];
      st.(children := st.children + [Node(Table, Join(rows, "\n"), [])], buffer := [])
  }

  /** The state after the parser's loop has consumed `tokens`. */
  function Run(tokens: seq<Tokenizer.Token>): (st: State)
    ensures ValidState(st)
  {
    if tokens == [] then Start
    else Step(Run(tokens[..|tokens| - 1]), tokens[|tokens| - 1])
  }

  /** `parse` as a value: the root holding the children the loop built. */
  function ParseSpec(tokens: seq<Tokenizer.Token>): Node {
    Node(Root, "", Run(tokens).children)
  }

  // ---------------------------------------------------------------------------
  // What the fold guarantees
  // ---------------------------------------------------------------------------

  /** The text-carrying nodes a child of the root contributes, in document order. */
  function Content(c: Node): seq<Node> {
    if IsContainer(c.kind) then c.children
    else if c.kind.Table? then []
    else [c]
  }

  /** The text-carrying nodes below the root, read top to bottom. */
  function Flatten(cs: seq<Node>): seq<Node> {
    if cs == [] then [] else Flatten(cs[..|cs| - 1]) + Content(cs[|cs| - 1])
  }

  /** The node a token contributes to the document text, if any. */
  function LeafOf(t: Tokenizer.Token): (r: seq<Node>)
    ensures IsLeafToken(t) <==> |r| == 1
    ensures |r| <= 1 && (|r| == 1 ==> IsLeafKind(r[0].kind) && r[0].value == t.value && r[0].children == [])
  {
    match t.kind
    case Header(l) => [Node(Header(l), t.value, [])]
    case Paragraph => [Node(Paragraph, t.value, [])]
    case Blockquote => [Node(Blockquote, t.value, [])]
    case Hr => [Node(Hr, t.value, [])]
    case ListItem => [Node(ListItem, t.value, [])]
    case CodeLine => [Node(CodeLine, t.value, [])]
    case _ => []
  }

  /** Tokens whose node carries text: all but the code-fence and table tokens. */
  predicate IsLeafToken(t: Tokenizer.Token) {
    !(t.kind.CodeBlockStart? || t.kind.CodeBlockEnd? || t.kind.TableRow? || t.kind.TableSeparator?)
  }

  /** The text-carrying nodes of a token sequence, in token order. */
  function Leaves(tokens: seq<Tokenizer.Token>): seq<Node> {
    if tokens == [] then [] else Leaves(tokens[..|tokens| - 1]) + LeafOf(tokens[|tokens| - 1])
  }

  lemma FlattenSnoc(cs: seq<Node>, c: Node)
    ensures Flatten(cs + [c]) == Flatten(cs) + Content(c)
  {
    assert (cs + [c])[..|cs|] == cs;
  }

  lemma {:induction false} FlattenAppend(a: seq<Node>, b: seq<Node>)
    ensures Flatten(a + b) == Flatten(a) + Flatten(b)
    decreases |b|
  {
    if b == [] {
      assert a + b == a;
    } else {
      var b', l := b[..|b| - 1], b[|b| - 1];
      assert b == b' + [l];
      assert a + b == (a + b') + [l];
      calc {
        Flatten(a + b);
        { FlattenSnoc(a + b', l); }
        Flatten(a + b') + Content(l);
        { FlattenAppend(a, b'); }
        Flatten(a) + Flatten(b') + Content(l);
        { FlattenSnoc(b', l); }
        Flatten(a) + Flatten(b);
      }
    }
  }

  lemma {:induction false} FlattenTables(cs: seq<Node>)
    requires forall j :: 0 <= j < |cs| ==> cs[j].kind.Table?
    ensures Flatten(cs) == []
    decreases |cs|
  {
    if cs != [] {
      FlattenTables(cs[..|cs| - 1]);
    }
  }

  /** Replacing the child at `k` replaces its contribution, in place. */
  lemma FlattenUpdate(cs: seq<Node>, k: nat, c: Node)
    requires k < |cs|
    ensures Flatten(cs[k := c]) == Flatten(cs[..k]) + Content(c) + Flatten(cs[k + 1..])
  {
    var ds := cs[k := c];
    assert ds == (cs[..k] + [c]) + cs[k + 1..];
    FlattenAppend(cs[..k] + [c], cs[k + 1..]);
    FlattenSnoc(cs[..k], c);
  }

  /** Growing the last container before a run of tables adds at the very end of the document order. */
  lemma FlattenGrowAt(cs: seq<Node>, k: nat, n: Node)
    requires k < |cs| && IsContainer(cs[k].kind)
    requires forall j :: k < j < |cs| ==> cs[j].kind.Table?
    ensures Flatten(cs[k := Node(cs[k].kind, cs[k].value, cs[k].children + [n])]) == Flatten(cs) + [n]
  {
    var c := cs[k];
    var c' := Node(c.kind, c.value, c.children + [n]);
    var post := cs[k + 1..];
    forall j | 0 <= j < |post| ensures post[j].kind.Table? {
      assert post[j] == cs[k + 1 + j];
    }
    FlattenTables(post);
    assert cs[k := c] == cs;
    calc {
      Flatten(cs[k := c']);
      { FlattenUpdate(cs, k, c'); }
      Flatten(cs[..k]) + c.children + [n];
      { FlattenUpdate(cs, k, c); }
      Flatten(cs) + [n];
    }
  }

  /** Appending a leaf at the current container puts it last in document order. */
  lemma AppendAtFlatten(st: State, n: Node)
    requires ValidState(st) && IsLeafKind(n.kind) && n.children == []
    ensures Flatten(AppendAt(st, n).children) == Flatten(st.children) + [n]
  {
    match st.cursor
    case AtRoot =>
      FlattenSnoc(st.children, n);
    case AtChild(k) =>
      var c := st.children[k];
      assert AppendAt(st, n).children == st.children[k := Node(c.kind, c.value, c.children + [n])];
      FlattenGrowAt(st.children, k, n);
  }

  /**
   * A list item is appended to the current list; when no list is current,
   * a new list holding just the item is added to the root.
   */
  lemma StepListItem(st: State, t: Tokenizer.Token)
    requires ValidState(st) && t.kind.ListItem?
    ensures InList(st) ==> Step(st, t) == AppendAt(st, Node(ListItem, t.value, []))
    ensures !InList(st) ==> Step(st, t).children == st.children + [Node(List, "", [Node(ListItem, t.value, [])])]
  {
    var n := Node(ListItem, t.value, []);
    if !InList(st) {
      var w := WithList(st);
      assert Step(st, t) == AppendAt(w, n);
      var l := Node(List, "", [n]);
      assert w.children[|st.children|] == Node(List, "", []);
      assert w.cursor == AtChild(|st.children|);
      assert [] + [n] == [n];
      assert AppendAt(w, n).children == w.children[|st.children| := l];
      assert w.children[|st.children| := l] == st.children + [l];
    }
  }

  /** A list item's node comes last in document order. */
  lemma StepFlattenListItem(st: State, t: Tokenizer.Token)
    requires ValidState(st) && t.kind.ListItem?
    ensures Flatten(Step(st, t).children) == Flatten(st.children) + LeafOf(t)
  {
    var n := Node(ListItem, t.value, []);
    assert LeafOf(t) == [n];
    StepListItem(st, t);
    if InList(st) {
      AppendAtFlatten(st, n);
    } else {
      FlattenSnoc(st.children, Node(List, "", [n]));
    }
  }

  /** A text-carrying token other than a list item is appended to the current container as its own node. */
  lemma StepAppends(st: State, t: Tokenizer.Token)
    requires ValidState(st) && IsLeafToken(t) && !t.kind.ListItem?
    ensures Step(st, t) == AppendAt(st, Node(LeafOf(t)[0].kind, t.value, []))
  {
  }

  /** Any other text-carrying token is appended to the current container. */
  lemma StepFlattenLeaf(st: State, t: Tokenizer.Token)
    requires ValidState(st) && IsLeafToken(t) && !t.kind.ListItem?
    ensures Flatten(Step(st, t).children) == Flatten(st.children) + LeafOf(t)
  {
    StepAppends(st, t);
    AppendAtFlatten(st, LeafOf(t)[0]);
  }

  /** One step adds exactly the token's own text-carrying node, at the end of the document order. */
  lemma StepFlatten(st: State, t: Tokenizer.Token)
    requires ValidState(st)
    ensures Flatten(Step(st, t).children) == Flatten(st.children) + LeafOf(t)
  {
    if t.kind.ListItem? {
      StepFlattenListItem(st, t);
    } else if IsLeafToken(t) {
      StepFlattenLeaf(st, t);
    } else if t.kind.CodeBlockStart? || t.kind.TableSeparator? {
      var r := Step(st, t);
      var c := r.children[|st.children|];
      assert r.children == st.children + [c];
      FlattenSnoc(st.children, c);
    } else {
      assert Step(st, t).children == st.children;
    }
  }

  /**
   * No text is lost, duplicated or reordered: reading the parsed tree top to
   * bottom gives the text-carrying tokens in their original order.
   */
  lemma {:induction false} ParseKeepsOrder(tokens: seq<Tokenizer.Token>)
    ensures Flatten(ParseSpec(tokens).children) == Leaves(tokens)
    decreases |tokens|
  {
    if tokens != [] {
      ParseKeepsOrder(tokens[..|tokens| - 1]);
      StepFlatten(Run(tokens[..|tokens| - 1]), tokens[|tokens| - 1]);
    }
  }

  /** Number of table nodes among the root's children. */
  function TableCount(cs: seq<Node>): nat {
    if cs == [] then 0 else TableCount(cs[..|cs| - 1]) + (if cs[|cs| - 1].kind.Table? then 1 else 0)
  }

  /** Number of table separator tokens. */
  function SeparatorCount(tokens: seq<Tokenizer.Token>): nat {
    if tokens == [] then 0
    else SeparatorCount(tokens[..|tokens| - 1]) + (if tokens[|tokens| - 1].kind.TableSeparator? then 1 else 0)
  }

  lemma TableCountSnoc(cs: seq<Node>, c: Node)
    ensures TableCount(cs + [c]) == TableCount(cs) + (if c.kind.Table? then 1 else 0)
  {
    assert (cs + [c])[..|cs|] == cs;
  }

  /** Replacing a child by one of the same kind keeps the number of tables. */
  lemma {:induction false} TableCountUpdate(cs: seq<Node>, k: nat, c: Node)
    requires k < |cs| && c.kind == cs[k].kind
    ensures TableCount(cs[k := c]) == TableCount(cs)
    decreases |cs|
  {
    var n := |cs| - 1;
    if k == n {
      assert cs[k := c][..n] == cs[..n];
    } else {
      assert cs[k := c][..n] == cs[..n][k := c];
      TableCountUpdate(cs[..n], k, c);
    }
  }

  lemma AppendAtTableCount(st: State, n: Node)
    requires ValidState(st) && IsLeafKind(n.kind) && n.children == []
    ensures TableCount(AppendAt(st, n).children) == TableCount(st.children)
  {
    match st.cursor
    case AtRoot =>
      TableCountSnoc(st.children, n);
    case AtChild(k) =>
      var c := st.children[k];
      TableCountUpdate(st.children, k, Node(c.kind, c.value, c.children + [n]));
  }

  /** Only a separator token adds a table, and no step removes one. */
  lemma StepTableCount(st: State, t: Tokenizer.Token)
    requires ValidState(st)
    ensures TableCount(Step(st, t).children) == TableCount(st.children) + (if t.kind.TableSeparator? then 1 else 0)
  {
    if t.kind.ListItem? {
      StepListItem(st, t);
      var n := Node(ListItem, t.value, []);
      if InList(st) {
        AppendAtTableCount(st, n);
      } else {
        TableCountSnoc(st.children, Node(List, "", [n]));
      }
    } else if IsLeafToken(t) {
      StepAppends(st, t);
      AppendAtTableCount(st, Node(LeafOf(t)[0].kind, t.value, []));
    } else if t.kind.CodeBlockStart? {
      TableCountSnoc(st.children, Node(CodeBlock, t.value, []));
    } else if t.kind.TableSeparator? {
      TableCountSnoc(st.children, Node(Table, Join(st.buffer + [t.value], "\n"), []));
    }
  }


  /** The root holds exactly one table per separator token. */
  lemma {:induction false} ParseTableCount(tokens: seq<Tokenizer.Token>)
    ensures TableCount(ParseSpec(tokens).children) == SeparatorCount(tokens)
    decreases |tokens|
  {
    if tokens != [] {
      ParseTableCount(tokens[..|tokens| - 1]);
      StepTableCount(Run(tokens[..|tokens| - 1]), tokens[|tokens| - 1]);
    }
  }

  /** No table is counted exactly when no child is a table. */
  lemma {:induction false} TableCountZero(cs: seq<Node>)
    ensures TableCount(cs) == 0 <==> forall i :: 0 <= i < |cs| ==> !cs[i].kind.Table?
    decreases |cs|
  {
    if cs != [] {
      var init := cs[..|cs| - 1];
      TableCountZero(init);
      assert forall i :: 0 <= i < |init| ==> init[i] == cs[i];
    }
  }

  /** Tokens without a separator count none. */
  lemma {:induction false} NoSeparators(tokens: seq<Tokenizer.Token>)
    requires forall i :: 0 <= i < |tokens| ==> tokens[i].kind != Tokenizer.TableSeparator
    ensures SeparatorCount(tokens) == 0
    decreases |tokens|
  {
    if tokens != [] {
      var init := tokens[..|tokens| - 1];
      assert forall i :: 0 <= i < |init| ==> init[i] == tokens[i];
      NoSeparators(init);
    }
  }

  /** Without separator tokens the root holds no table. */
  lemma ParseWithoutSeparators(tokens: seq<Tokenizer.Token>)
    requires forall i :: 0 <= i < |tokens| ==> tokens[i].kind != Tokenizer.TableSeparator
    ensures forall i :: 0 <= i < |ParseSpec(tokens).children| ==> !ParseSpec(tokens).children[i].kind.Table?
  {
    NoSeparators(tokens);
    ParseTableCount(tokens);
    TableCountZero(ParseSpec(tokens).children);
  }

  /** The paragraph nodes of a run of paragraph tokens, in order. */
  function ParagraphNodes(tokens: seq<Tokenizer.Token>): (cs: seq<Node>)
    ensures |cs| == |tokens|
    ensures forall i :: 0 <= i < |tokens| ==> cs[i] == Node(Paragraph, tokens[i].value, [])
  {
    seq(|tokens|, i requires 0 <= i < |tokens| => Node(Paragraph, tokens[i].value, []))
  }

  /** Paragraph tokens alone become the root's children, one each, in order, with the root current. */
  lemma {:induction false} RunParagraphs(tokens: seq<Tokenizer.Token>)
    requires forall i :: 0 <= i < |tokens| ==> tokens[i].kind == Tokenizer.Paragraph
    ensures Run(tokens) == State(ParagraphNodes(tokens), AtRoot, [])
    decreases |tokens|
  {
    if tokens != [] {
      var init := tokens[..|tokens| - 1];
      var t := tokens[|tokens| - 1];
      assert forall i :: 0 <= i < |init| ==> init[i] == tokens[i];
      RunParagraphs(init);
      calc {
        Run(tokens);
        Step(Run(init), t);
        AppendAt(State(ParagraphNodes(init), AtRoot, []), Node(Paragraph, t.value, []));
        State(ParagraphNodes(init) + [Node(Paragraph, t.value, [])], AtRoot, []);
        { assert ParagraphNodes(init) + [Node(Paragraph, t.value, [])] == ParagraphNodes(tokens); }
        State(ParagraphNodes(tokens), AtRoot, []);
      }
    }
  }

  /** A document of paragraph tokens parses to one paragraph per token under the root. */
  lemma ParseParagraphs(tokens: seq<Tokenizer.Token>)
    requires forall i :: 0 <= i < |tokens| ==> tokens[i].kind == Tokenizer.Paragraph
    ensures ParseSpec(tokens) == Node(Root, "", ParagraphNodes(tokens))
  {
    RunParagraphs(tokens);
  }

  /** Table rows without a separator are only buffered: the root gets no child. */
  lemma {:induction false} RunTableRows(tokens: seq<Tokenizer.Token>)
    requires forall i :: 0 <= i < |tokens| ==> tokens[i].kind == Tokenizer.TableRow
    ensures Run(tokens).children == [] && Run(tokens).cursor == AtRoot
    ensures Run(tokens).buffer == seq(|tokens|, i requires 0 <= i < |tokens| => tokens[i].value)
    decreases |tokens|
  {
    if tokens != [] {
      var init := tokens[..|tokens| - 1];
      assert forall i :: 0 <= i < |init| ==> init[i] == tokens[i];
      RunTableRows(init);
      assert Run(tokens).buffer == Run(init).buffer + [tokens[|tokens| - 1].value];
    }
  }

  /**
   * Once a list is current it stays current until a code fence: every
   * text-carrying token, whatever its kind, is appended to that list, and
   * table tokens leave it alone.
   */
  lemma ListStaysCurrent(st: State, t: Tokenizer.Token)
    requires ValidState(st) && InList(st)
    requires !t.kind.CodeBlockStart? && !t.kind.CodeBlockEnd?
    ensures Step(st, t).cursor == st.cursor && InList(Step(st, t))
    ensures IsLeafToken(t) ==>
      var k := st.cursor.index;
      Step(st, t).children == st.children[k := Node(List, "", st.children[k].children + LeafOf(t))]
  {
    var k := st.cursor.index;
    var r := Step(st, t);
    if IsLeafToken(t) {
      assert r == AppendAt(st, LeafOf(t)[0]);
      assert LeafOf(t) == [LeafOf(t)[0]];
    } else {
      assert r.children[k] == st.children[k];
    }
  }

  /**
   * A current list swallows what follows: a paragraph after a list item is
   * placed inside the list rather than after it.
   */
  lemma ParagraphJoinsList()
    ensures ParseSpec([Tokenizer.Token(Tokenizer.ListItem, "a"), Tokenizer.Token(Tokenizer.Paragraph, "p")])
      == Node(Root, "", [Node(List, "", [Node(ListItem, "a", []), Node(Paragraph, "p", [])])])
  {
    var t1, t2 := Tokenizer.Token(Tokenizer.ListItem, "a"), Tokenizer.Token(Tokenizer.Paragraph, "p");
    assert [t1, t2][..1] == [t1];
    assert [t1][..0] == [];
    var w := WithList(Start);
    assert w == State([Node(List, "", [])], AtChild(0), []);
    var s1 := Step(Start, t1);
    assert s1 == AppendAt(w, Node(ListItem, "a", []));
    var i1 := Node(ListItem, "a", []);
    assert [] + [i1] == [i1];
    assert w.children[0 := Node(List, "", [] + [i1])] == [Node(List, "", [i1])];
    assert s1.children == [Node(List, "", [i1])];
    assert InList(s1) && WithList(s1) == s1;
    var p1 := Node(Paragraph, "p", []);
    assert Step(s1, t2) == AppendAt(s1, p1);
    assert [i1] + [p1] == [i1, p1];
    assert s1.children[0 := Node(List, "", [i1] + [p1])] == [Node(List, "", [i1, p1])];
    assert Run([t1]) == s1;
    assert Run([t1, t2]) == Step(s1, t2);
  }

  // ---------------------------------------------------------------------------
  // The tree of objects the source builds
  // ---------------------------------------------------------------------------

  class MarkdownNode {
    const kind: NodeKind
    const value: string
    var children: seq<MarkdownNode>

    constructor (kind: NodeKind, value: string)
      ensures this.kind == kind && this.value == value && children == []
    {
      this.kind := kind;
      this.value := value;
      children := [];
    }
  }

  ghost function Kids(root: MarkdownNode): set<MarkdownNode>
    reads root
  {
    set c | c in root.children
  }

  ghost function Grandkids(root: MarkdownNode): set<MarkdownNode>
    reads root, Kids(root)
  {
    set c, g | c in root.children && g in c.children :: g
  }

  /**
   * The heap shape the parser keeps: the root's children are distinct
   * objects other than the root, and every grandchild is a childless object
   * that is neither the root nor one of its children. So the object tree is
   * at most two levels deep and no object is shared between positions that
   * the parser updates.
   */
  ghost predicate TwoLevel(root: MarkdownNode)
    reads root, Kids(root), Grandkids(root)
  {
    && root !in Kids(root)
    && (forall i, j :: 0 <= i < j < |root.children| ==> root.children[i] != root.children[j])
    && (forall g :: g in Grandkids(root) ==> g != root && g !in Kids(root) && g.children == [])
  }

  /** The value of a child of the root, whose own children are childless. */
  function AbsKid(c: MarkdownNode): Node
    reads c
  {
    var ch := c.children;
    Node(c.kind, c.value, seq(|ch|, k requires 0 <= k < |ch| => Node(ch[k].kind, ch[k].value, [])))
  }

  /** The values of the root's children. */
  function AbsKids(cs: seq<MarkdownNode>): (r: seq<Node>)
    reads set c | c in cs
    ensures |r| == |cs| && forall j :: 0 <= j < |cs| ==> r[j] == AbsKid(cs[j])
  {
    if cs == [] then [] else [AbsKid(cs[0])] + AbsKids(cs[1..])
  }

  /** The value of a two-level object tree. */
  function Abs(root: MarkdownNode): Node
    reads root, Kids(root)
  {
    Node(root.kind, root.value, AbsKids(root.children))
  }

  /** `current` is the object that `cursor` designates. */
  ghost predicate Designates(root: MarkdownNode, current: MarkdownNode, cursor: Cursor)
    reads root
  {
    match cursor
    case AtRoot => current == root
    case AtChild(k) => k < |root.children| && current == root.children[k]
  }

  /** Appends a fresh childless node to the root. */
  method AppendToRoot(root: MarkdownNode, kind: NodeKind, value: string) returns (n: MarkdownNode)
    requires TwoLevel(root)
    modifies root
    ensures fresh(n) && n.kind == kind && n.value == value && n.children == []
    ensures root.children == old(root.children) + [n]
    ensures TwoLevel(root)
    ensures Abs(root) == Node(root.kind, root.value, old(Abs(root).children) + [Node(kind, value, [])])
  {
    ghost var before := Abs(root).children;
    n := new MarkdownNode(kind, value);
    root.children := root.children + [n];
    forall g | g in Grandkids(root) ensures g in old(Grandkids(root)) {
      var c :| c in root.children && g in c.children;
      assert c != n;
    }
    forall j | 0 <= j < |before|
      ensures AbsKid(root.children[j]) == before[j]
    {
      assert root.children[j] in old(Kids(root));
    }
    assert AbsKid(n) == Node(kind, value, []);
    assert Abs(root).children == before + [Node(kind, value, [])];
  }

  /** Appends a fresh childless node to the root's child number `k`. */
  method AppendToKid(root: MarkdownNode, kid: MarkdownNode, ghost k: nat, kind: NodeKind, value: string)
    returns (n: MarkdownNode)
    requires TwoLevel(root) && k < |root.children| && kid == root.children[k]
    modifies kid
    ensures fresh(n) && root.children == old(root.children)
    ensures TwoLevel(root)
    ensures Abs(root) == Node(root.kind, root.value, old(Abs(root).children)[k := Node(kid.kind, kid.value, old(Abs(root).children[k].children) + [Node(kind, value, [])])])
  {
    ghost var before := Abs(root).children;
    assert kid in old(Kids(root));
    n := new MarkdownNode(kind, value);
    kid.children := kid.children + [n];
    forall g | g in Grandkids(root) ensures g != root && g !in Kids(root) && g.children == [] {
      var c :| c in root.children && g in c.children;
      if g != n {
        assert g in old(c.children);
        assert g in old(Grandkids(root));
      }
    }
    forall j | 0 <= j < |root.children| && j != k
      ensures AbsKid(root.children[j]) == before[j]
    {
      assert root.children[j] != kid;
    }
    assert AbsKid(kid) == Node(kid.kind, kid.value, before[k].children + [Node(kind, value, [])]);
  }

  /** `currentNode.children.push(new MarkdownNode(kind, value))` */
  method AppendLeaf(root: MarkdownNode, current: MarkdownNode, ghost st: State, kind: NodeKind, value: string)
    returns (n: MarkdownNode)
    requires TwoLevel(root) && ValidState(st) && Abs(root).children == st.children
    requires Designates(root, current, st.cursor)
    requires IsLeafKind(kind)
    modifies current
    ensures fresh(n)
    ensures root.children == if current == root then old(root.children) + [n] else old(root.children)
    ensures TwoLevel(root)
    ensures Abs(root) == Node(root.kind, root.value, AppendAt(st, Node(kind, value, [])).children)
  {
    if current == root {
      n := AppendToRoot(root, kind, value);
    } else {
      n := AppendToKid(root, current, st.cursor.index, kind, value);
    }
  }

  /** The connection between the object tree with its cursor and buffer and a value state. */
  ghost predicate Mirrors(root: MarkdownNode, current: MarkdownNode, tableBuffer: seq<string>, st: State)
    reads root, Kids(root)
  {
    && root.kind == Root && root.value == ""
    && Abs(root).children == st.children
    && Designates(root, current, st.cursor)
    && tableBuffer == st.buffer
  }

  /** `if (currentNode.type !== 'list')`: opens a list under the root and makes it current. */
  method OpenList(root: MarkdownNode, current: MarkdownNode, ghost st: State) returns (current': MarkdownNode)
    requires root.kind == Root
    requires TwoLevel(root) && ValidState(st) && Abs(root).children == st.children
    requires Designates(root, current, st.cursor)
    modifies root
    ensures TwoLevel(root)
    ensures Abs(root).children == WithList(st).children
    ensures Designates(root, current', WithList(st).cursor)
    ensures current' == current || fresh(current')
    ensures forall c :: c in root.children ==> c in old(root.children) || fresh(c)
  {
    current' := current;
    if st.cursor.AtChild? {
      assert st.children[st.cursor.index] == AbsKid(current);
    }
    if current.kind != List {
      assert !InList(st);
      current' := AppendToRoot(root, List, "");
    } else {
      assert InList(st);
    }
  }

  /** A list item: opens a list under the root unless one is current, then appends the item to it. */
  method AppendListItem(root: MarkdownNode, current: MarkdownNode, ghost st: State, value: string)
    returns (current': MarkdownNode)
    requires root.kind == Root
    requires TwoLevel(root) && ValidState(st) && Abs(root).children == st.children
    requires Designates(root, current, st.cursor)
    modifies current, root
    ensures TwoLevel(root)
    ensures Abs(root).children == AppendAt(WithList(st), Node(ListItem, value, [])).children
    ensures Designates(root, current', WithList(st).cursor)
    ensures forall c :: c in root.children ==> c in old(root.children) || fresh(c)
    ensures current' == current || fresh(current')
  {
    current' := OpenList(root, current, st);
    assert current' != root;
    var n := AppendLeaf(root, current', WithList(st), ListItem, value);
  }

  /** `currentNode.children.push(new MarkdownNode(token.type, token.value))` for a header, paragraph, blockquote, rule or code line. */
  method PushLeaf(root: MarkdownNode, current: MarkdownNode, tableBuffer: seq<string>, ghost st: State, token: Tokenizer.Token)
    requires TwoLevel(root) && ValidState(st) && Mirrors(root, current, tableBuffer, st)
    requires IsLeafToken(token) && !token.kind.ListItem?
    modifies current
    ensures TwoLevel(root) && Mirrors(root, current, tableBuffer, Step(st, token))
    ensures forall c :: c in root.children ==> c in old(root.children) || fresh(c)
  {
    StepAppends(st, token);
    var n := AppendLeaf(root, current, st, LeafOf(token)[0].kind, token.value);
  }

  /** The `listItem` case: the item goes into the current list, opened first if need be. */
  method PushListItem(root: MarkdownNode, current: MarkdownNode, tableBuffer: seq<string>, ghost st: State, token: Tokenizer.Token)
    returns (current': MarkdownNode)
    requires TwoLevel(root) && ValidState(st) && Mirrors(root, current, tableBuffer, st)
    requires token.kind.ListItem?
    modifies current, root
    ensures TwoLevel(root) && Mirrors(root, current', tableBuffer, Step(st, token))
    ensures forall c :: c in root.children ==> c in old(root.children) || fresh(c)
    ensures current' == current || fresh(current')
  {
    assert Step(st, token) == AppendAt(WithList(st), Node(ListItem, token.value, []));
    current' := AppendListItem(root, current, st, token.value);
  }

  /** The `codeBlockStart` case: a code block is added under the root and made current. */
  method PushCodeBlock(root: MarkdownNode, current: MarkdownNode, tableBuffer: seq<string>, ghost st: State, token: Tokenizer.Token)
    returns (current': MarkdownNode)
    requires TwoLevel(root) && ValidState(st) && Mirrors(root, current, tableBuffer, st)
    requires token.kind.CodeBlockStart?
    modifies root
    ensures TwoLevel(root) && Mirrors(root, current', tableBuffer, Step(st, token))
    ensures forall c :: c in root.children ==> c in old(root.children) || fresh(c)
    ensures fresh(current')
  {
    var codeBlock := AppendToRoot(root, CodeBlock, token.value);
    current' := codeBlock;
  }

  /** The `tableRow` and `tableSeparator` cases: the row is buffered, and a separator flushes the buffer into a table node. */
  method PushTableLine(root: MarkdownNode, current: MarkdownNode, tableBuffer: seq<string>, ghost st: State, token: Tokenizer.Token)
    returns (tableBuffer': seq<string>)
    requires TwoLevel(root) && ValidState(st) && Mirrors(root, current, tableBuffer, st)
    requires token.kind.TableRow? || token.kind.TableSeparator?
    modifies root
    ensures TwoLevel(root) && Mirrors(root, current, tableBuffer', Step(st, token))
    ensures forall c :: c in root.children ==> c in old(root.children) || fresh(c)
  {
    tableBuffer' := tableBuffer + [token.value];
    if token.kind.TableSeparator? {
      var table := AppendToRoot(root, Table, Join(tableBuffer', "\n"));
      tableBuffer' := [];
    }
  }

  /** The body of the token loop: the object tree follows one Step of the value state. */
  method Consume(root: MarkdownNode, current: MarkdownNode, tableBuffer: seq<string>, ghost st: State, token: Tokenizer.Token)
    returns (current': MarkdownNode, tableBuffer': seq<string>)
    requires TwoLevel(root) && ValidState(st) && Mirrors(root, current, tableBuffer, st)
    modifies current, root
    ensures TwoLevel(root) && Mirrors(root, current', tableBuffer', Step(st, token))
    ensures forall c :: c in root.children ==> c in old(root.children) || fresh(c)
    ensures current' == current || current' == root || fresh(current')
  {
    current', tableBuffer' := current, tableBuffer;
    match token.kind {
      case Header(_) | Paragraph | Blockquote | Hr => PushLeaf(root, current, tableBuffer, st, token);
      case ListItem => current' := PushListItem(root, current, tableBuffer, st, token);
      case CodeBlockStart => current' := PushCodeBlock(root, current, tableBuffer, st, token);
      case CodeBlockEnd => current' := root;
      case CodeLine => PushLeaf(root, current, tableBuffer, st, token);
      case TableRow | TableSeparator => tableBuffer' := PushTableLine(root, current, tableBuffer, st, token);
    }
  }

  /**
   * `parse`: builds the object tree of the tokens and returns its root. The
   * tree is two levels deep and its value is the one the fold computes.
   */
  method Parse(tokens: seq<Tokenizer.Token>) returns (root: MarkdownNode)
    ensures fresh(root) && TwoLevel(root)
    ensures Abs(root) == ParseSpec(tokens)
  {
    root := new MarkdownNode(Root, "");
    var current := root;
    var tableBuffer: seq<string> := [];
    var i := 0;
    while i < |tokens|
      invariant 0 <= i <= |tokens|
      invariant fresh(root) && fresh(current)
      invariant forall c :: c in root.children ==> fresh(c)
      invariant TwoLevel(root)
      invariant Mirrors(root, current, tableBuffer, Run(tokens[..i]))
    {
      assert tokens[..i + 1][..i] == tokens[..i];
      current, tableBuffer := Consume(root, current, tableBuffer, Run(tokens[..i]), tokens[i]);
      i := i + 1;
    }
    assert tokens[..i] == tokens;
  }
}

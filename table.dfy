/**
 * The table renderer of the markdown converter (`renderTable` in md.ts).
 *
 * The raw text of a table node is split into lines. The first line gives
 * the header cells, the second line is skipped by position, and every
 * later line gives one body row. A line's cells are its `|`-separated
 * pieces, including the empty pieces before a leading `|` and after a
 * trailing one, each trimmed. No cell text is escaped or inline-rendered.
 */
module TableRenderer {
  import opened Text

  /** One line's cells: the `|`-separated pieces, each trimmed. */
  function Cells(line: string): (cells: seq<string>)
    ensures |cells| == Count(line, '|') + 1
    ensures forall i :: 0 <= i < |cells| ==> cells[i] == Trim(Split(line, '|')[i])
    ensures forall i :: 0 <= i < |cells| ==> '|' !in cells[i] && Trim(cells[i]) == cells[i]
  {
    var parts := Split(line, '|');
    var cells := seq(|parts|, i requires 0 <= i < |parts| => Trim(parts[i]));
    forall i | 0 <= i < |cells| ensures '|' !in cells[i] && Trim(cells[i]) == cells[i] {
      TrimIdempotent(parts[i]);
      TrimInside(parts[i], '|');
    }
    cells
  }

  /** Trimming only removes characters. */
  lemma TrimInside(s: string, c: char)
    requires c !in s
    ensures c !in Trim(s)
  {
    var r := Trim(s);
    forall i | 0 <= i < |r| ensures r[i] != c {
      assert r[i] == s[LeadingSpaces(s) + i];
    }
  }

  /** Each cell wrapped in `<tag>` and `</tag>`, with nothing in between. */
  function Tagged(tag: string, cells: seq<string>): string {
    if cells == [] then ""
    else "<" + tag + ">" + cells[0] + "</" + tag + ">" + Tagged(tag, cells[1..])
  }

  /** Each row as a `<tr>` of `<td>` cells, with nothing in between. */
  function Rows(rows: seq<seq<string>>): string {
    if rows == [] then ""
    else "<tr>" + Tagged("td", rows[0]) + "</tr>" + Rows(rows[1..])
  }

  /** The cells of each line, in order. */
  function RowCells(lines: seq<string>): (rows: seq<seq<string>>)
    ensures |rows| == |lines|
    ensures forall i :: 0 <= i < |lines| ==> rows[i] == Cells(lines[i])
  {
    seq(|lines|, i requires 0 <= i < |lines| => Cells(lines[i]))
  }

  /** The body rows: the cells of every line from the third onward. */
  function BodyCells(tableText: string): (rows: seq<seq<string>>)
    ensures var lines := Split(tableText, '\n');
      && |rows| == (if |lines| < 2 then 0 else |lines| - 2)
      && forall i :: 0 <= i < |rows| ==> rows[i] == Cells(lines[i + 2])
  {
    var lines := Split(tableText, '\n');
    RowCells(if |lines| < 2 then [] else lines[2..])
  }

  /** The table layout around already split cells. */
  function TableHtml(header: seq<string>, body: seq<seq<string>>): string {
    "<table><thead><tr>" + Tagged("th", header) + "</tr></thead><tbody>" + Rows(body) + "</tbody></table>"
  }

  /**
   * `renderTable`: the header row holds the cells of the first line (which
   * `split` always yields), one more than it has pipes; the body holds one
   * row per line from the third on, none when there are fewer than three.
   */
  function RenderTable(tableText: string): (html: string)
    ensures var lines := Split(tableText, '\n'); var header, body := Cells(lines[0]), BodyCells(tableText);
      && html == TableHtml(header, body)
      && |header| == Count(lines[0], '|') + 1
      && |body| == (if |lines| < 2 then 0 else |lines| - 2)
      && forall i :: 0 <= i < |body| ==> body[i] == Cells(lines[i + 2])
  {
    var lines := Split(tableText, '\n');
    TableHtml(Cells(lines[0]), BodyCells(tableText))
  }

  // ---------------------------------------------------------------------------
  // What the renderer guarantees
  // ---------------------------------------------------------------------------

  /** With no body rows the body is an empty `tbody` element. */
  lemma EmptyBodyHtml(header: seq<string>)
    ensures TableHtml(header, []) ==
      "<table><thead><tr>" + Tagged("th", header) + "</tr></thead><tbody></tbody></table>"
  {
    assert "</tr></thead><tbody>" + "" + "</tbody></table>" == "</tr></thead><tbody></tbody></table>";
  }

  /** A table text of one or two lines renders an empty body. */
  lemma ShortTableHasEmptyBody(tableText: string)
    requires Count(tableText, '\n') <= 1
    ensures BodyCells(tableText) == []
    ensures RenderTable(tableText) ==
      "<table><thead><tr>" + Tagged("th", Cells(Split(tableText, '\n')[0])) + "</tr></thead><tbody></tbody></table>"
  {
    assert |BodyCells(tableText)| == 0;
    EmptyBodyHtml(Cells(Split(tableText, '\n')[0]));
  }

  /**
   * Cells that hold no `|` and no surrounding whitespace are read back
   * exactly from the line that joins them with `|`.
   */
  lemma CellsJoin(cells: seq<string>)
    requires |cells| > 0
    requires forall i :: 0 <= i < |cells| ==> '|' !in cells[i] && Trim(cells[i]) == cells[i]
    ensures Cells(Join(cells, "|")) == cells
  {
    SplitJoin(cells, '|');
  }

  /**
   * For a table node built from the lines `rows`, the header comes from the
   * first line and the body from the third line on; the second line is
   * never looked at.
   */
  lemma TableFromLines(rows: seq<string>)
    requires |rows| > 0
    requires forall i :: 0 <= i < |rows| ==> '\n' !in rows[i]
    ensures RenderTable(Join(rows, "\n")) == TableHtml(Cells(rows[0]), RowCells(if |rows| < 2 then [] else rows[2..]))
  {
    SplitJoin(rows, '\n');
  }

  /** Replacing the second line of a table changes nothing in its rendering. */
  lemma SeparatorIgnored(rows: seq<string>, sep: string)
    requires |rows| >= 2 && '\n' !in sep
    requires forall i :: 0 <= i < |rows| ==> '\n' !in rows[i]
    ensures RenderTable(Join(rows[1 := sep], "\n")) == RenderTable(Join(rows, "\n"))
  {
    var rows' := rows[1 := sep];
    assert forall i :: 0 <= i < |rows'| ==> '\n' !in rows'[i];
    TableFromLines(rows);
    TableFromLines(rows');
    assert rows'[2..] == rows[2..];
  }

  // ---------------------------------------------------------------------------
  // The markup can be read back
  // ---------------------------------------------------------------------------

  /**
   * In `p + x + q` with `q` starting with `<` and `x` free of `<`, the
   * position of `x`'s end is fixed by the text.
   */
  lemma CellEnd(p: string, x: string, q: string, y: string, r: string)
    requires '<' !in x && '<' !in y && |q| > 0 && |r| > 0 && q[0] == '<' && r[0] == '<'
    requires p + x + q == p + y + r
    ensures x == y && q == r
  {
    var s := p + x + q;
    assert forall j :: 0 <= j < |x| ==> s[|p| + j] == x[j];
    assert forall j :: 0 <= j < |y| ==> s[|p| + j] == y[j];
    assert s[|p| + |x|] == '<';
    assert (p + y + r)[|p| + |y|] == '<';
    assert |x| == |y|;
    assert x == s[|p|..|p| + |x|] == y;
  }

  /** Equal taggings of two non-empty cell lists agree on the first cell and on the rest. */
  lemma TaggedHead(tag: string, a: seq<string>, b: seq<string>)
    requires a != [] && b != [] && '<' !in a[0] && '<' !in b[0]
    requires Tagged(tag, a) == Tagged(tag, b)
    ensures a[0] == b[0] && Tagged(tag, a[1..]) == Tagged(tag, b[1..])
  {
    var c := "</" + tag + ">";
    var ra, rb := Tagged(tag, a[1..]), Tagged(tag, b[1..]);
    TaggedCons(tag, a);
    TaggedCons(tag, b);
    CellEnd("<" + tag + ">", a[0], c + ra, b[0], c + rb);
    assert ra == (c + ra)[|c|..];
    assert rb == (c + rb)[|c|..];
  }

  /** The first cell's element, then the rest. */
  lemma TaggedCons(tag: string, a: seq<string>)
    requires a != []
    ensures Tagged(tag, a) == ("<" + tag + ">") + a[0] + (("</" + tag + ">") + Tagged(tag, a[1..]))
  {
  }

  /**
   * Tagging is injective on cells without `<`: the markup determines the
   * cells, their number and their order.
   */
  lemma {:induction false} TaggedInjective(tag: string, a: seq<string>, b: seq<string>)
    requires forall i :: 0 <= i < |a| ==> '<' !in a[i]
    requires forall i :: 0 <= i < |b| ==> '<' !in b[i]
    requires Tagged(tag, a) == Tagged(tag, b)
    ensures a == b
    decreases |a|
  {
    if a != [] && b != [] {
      TaggedHead(tag, a, b);
      TaggedInjective(tag, a[1..], b[1..]);
      assert a == [a[0]] + a[1..] && b == [b[0]] + b[1..];
    } else {
      assert a != [] ==> |Tagged(tag, a)| > 0;
      assert b != [] ==> |Tagged(tag, b)| > 0;
    }
  }

  /** Empty outer parts put a separator at each end of the joined text. */
  lemma JoinWrapped(cells: seq<string>)
    requires |cells| > 0
    ensures Join([""] + cells + [""], "|") == "|" + Join(cells, "|") + "|"
  {
    assert [""] + cells + [""] == [""] + (cells + [""]);
    JoinCons("", cells + [""], "|");
    JoinSnoc(cells, "", "|");
    var j := Join(cells, "|");
    assert "" + "|" == "|";
    assert j + "|" + "" == j + "|";
    assert "|" + (j + "|") == "|" + j + "|";
  }

  /**
   * A header line wrapped in pipes, such as `| a | b |`, has one cell more at
   * each end than it has columns: the empty pieces outside the outer pipes.
   */
  lemma PipeWrappedCells(cells: seq<string>)
    requires |cells| > 0
    requires forall i :: 0 <= i < |cells| ==> '|' !in cells[i] && Trim(cells[i]) == cells[i]
    ensures Cells("|" + Join(cells, "|") + "|") == [""] + cells + [""]
  {
    var all := [""] + cells + [""];
    JoinWrapped(cells);
    assert Trim("") == "";
    forall i | 0 <= i < |all| ensures '|' !in all[i] && Trim(all[i]) == all[i] {
      if 0 < i < |all| - 1 {
        assert all[i] == cells[i - 1];
      }
    }
    CellsJoin(all);
  }
}

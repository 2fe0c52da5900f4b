/** The result formatter, `format_as_sql_table` in SQL_AGENT/backend/main.py:
    the rows a query returned are drawn as a box-drawn text table, one line
    per row between `+---+` separators, every column padded to its widest
    entry. A row is modelled as the sequence of its cells' texts in column
    order; the column names are those of the first row. */
module Table {
  import opened Text

  /** `c * n`. */
  function Repeat(c: char, n: nat): (s: string)
    ensures |s| == n && forall k :: 0 <= k < n ==> s[k] == c
  {
    seq(n, _ => c)
  }

  /** `text.ljust(width)`: space-padded on the right to `width`, unchanged
      when already that long. */
  function LJust(text: string, width: nat): (s: string)
    ensures |s| == if |text| < width then width else |text|
    ensures width <= |text| ==> s == text
    ensures s[..|text|] == text
    ensures forall k :: |text| <= k < |s| ==> s[k] == ' '
  {
    if |text| < width then text + Repeat(' ', width - |text|) else text
  }

  /** Every row has one cell per column. */
  predicate Rectangular(headers: seq<string>, rows: seq<seq<string>>) {
    forall i :: 0 <= i < |rows| ==> |rows[i]| == |headers|
  }

  /** The width of column `j`: its name's length, widened by every cell. */
  function ColWidth(headers: seq<string>, rows: seq<seq<string>>, j: nat): nat
    requires j < |headers| && Rectangular(headers, rows)
  {
    if |rows| == 0 then |headers[j]|
    else
      var w := ColWidth(headers, rows[..|rows| - 1], j);
      var c := |rows[|rows| - 1][j]|;
      if w < c then c else w
  }

  /** The widths of all columns, `widths` once both loops have run. */
  function Widths(headers: seq<string>, rows: seq<seq<string>>): (ws: seq<nat>)
    requires Rectangular(headers, rows)
    ensures |ws| == |headers|
    ensures forall j :: 0 <= j < |headers| ==> |headers[j]| <= ws[j]
    ensures forall i, j :: 0 <= i < |rows| && 0 <= j < |headers| ==> |rows[i][j]| <= ws[j]
  {
    ColumnsFit(headers, rows);
    seq(|headers|, j requires 0 <= j < |headers| => ColWidth(headers, rows, j))
  }

  /** `sep()`: a `+` rule with `width + 2` dashes per column. */
  function Sep(ws: seq<nat>): string {
    "+" + JoinWith("+", seq(|ws|, j requires 0 <= j < |ws| => Repeat('-', ws[j] + 2))) + "+"
  }

  /** One padded cell of `line(row)`. */
  function Cell(text: string, width: nat): string {
    " " + LJust(text, width) + " "
  }

  /** `line(row)`: each cell padded to its column's width, between bars. */
  function Line(cells: seq<string>, ws: seq<nat>): string
    requires |cells| == |ws|
  {
    "|" + JoinWith("|", seq(|ws|, j requires 0 <= j < |ws| => Cell(cells[j], ws[j]))) + "|"
  }

  /** The lines of `out` for a non-empty result. */
  function TableLines(headers: seq<string>, rows: seq<seq<string>>): seq<string>
    requires Rectangular(headers, rows)
  {
    var ws := Widths(headers, rows);
    [Sep(ws), Line(headers, ws), Sep(ws)]
      + seq(|rows|, i requires 0 <= i < |rows| => Line(rows[i], ws))
      + [Sep(ws)]
  }

  /** `format_as_sql_table`. */
  method FormatAsSqlTable(headers: seq<string>, rows: seq<seq<string>>) returns (table: string)
    requires Rectangular(headers, rows)
    ensures |rows| == 0 ==> table == "(no rows)"
    ensures |rows| > 0 ==> table == JoinWith("\n", TableLines(headers, rows))
  {
    if |rows| == 0 {
      return "(no rows)";
    }
    var widths := seq(|headers|, j requires 0 <= j < |headers| => |headers[j]|);
    assert rows[..0] == [];
    var i := 0;
    while i < |rows|
      invariant 0 <= i <= |rows|
      invariant widths == Widths(headers, rows[..i])
    {
      assert rows[..i + 1][..i] == rows[..i];
      var j := 0;
      while j < |headers|
        invariant 0 <= j <= |headers| && |widths| == |headers|
        invariant forall k :: 0 <= k < j ==> widths[k] == ColWidth(headers, rows[..i + 1], k)
        invariant forall k :: j <= k < |headers| ==> widths[k] == ColWidth(headers, rows[..i], k)
      {
        var len := |rows[i][j]|;
        if widths[j] < len {
          widths := widths[j := len];
        }
        j := j + 1;
      }
      i := i + 1;
    }
    assert rows[..|rows|] == rows;
    var sep := Sep(widths);
    var out := [sep, Line(headers, widths), sep];
    i := 0;
    while i < |rows|
      invariant 0 <= i <= |rows|
      invariant out == [sep, Line(headers, widths), sep]
        + seq(i, k requires 0 <= k < i => Line(rows[k], widths))
    {
      out := out + [Line(rows[i], widths)];
      i := i + 1;
    }
    out := out + [sep];
    return JoinWith("\n", out);
  }

  // ---------------------------------------------------------------------
  // Lemmas
  // ---------------------------------------------------------------------

  /** A column is exactly as wide as its widest entry, name included. */
  lemma {:induction false} ColWidthIsMax(headers: seq<string>, rows: seq<seq<string>>, j: nat)
    requires j < |headers| && Rectangular(headers, rows)
    ensures |headers[j]| <= ColWidth(headers, rows, j)
    ensures forall i :: 0 <= i < |rows| ==> |rows[i][j]| <= ColWidth(headers, rows, j)
    ensures ColWidth(headers, rows, j) == |headers[j]|
      || exists i :: 0 <= i < |rows| && ColWidth(headers, rows, j) == |rows[i][j]|
  {
    if |rows| > 0 {
      var front := rows[..|rows| - 1];
      ColWidthIsMax(headers, front, j);
      forall i | 0 <= i < |rows| - 1 ensures rows[i] == front[i] {}
      if ColWidth(headers, rows, j) != |headers[j]| && ColWidth(headers, rows, j) != |rows[|rows| - 1][j]| {
        var i :| 0 <= i < |front| && ColWidth(headers, front, j) == |front[i][j]|;
        assert rows[i] == front[i];
      }
    }
  }

  /** Joining two lists of parts whose lengths agree pairwise gives texts
      of the same length. */
  lemma {:induction false} JoinSameLength(sa: string, a: seq<string>, sb: string, b: seq<string>)
    requires |sa| == |sb| && |a| == |b| && forall k :: 0 <= k < |a| ==> |a[k]| == |b[k]|
    ensures |JoinWith(sa, a)| == |JoinWith(sb, b)|
    decreases |a|
  {
    if |a| > 1 {
      JoinSameLength(sa, a[1..], sb, b[1..]);
    }
  }

  /** A padded cell is two wider than its column. */
  lemma CellWidth(text: string, width: nat)
    requires |text| <= width
    ensures |Cell(text, width)| == width + 2
  {
  }

  /** A line whose cells fit their columns is exactly as long as a
      separator over the same columns. */
  lemma LineMatchesSep(cells: seq<string>, ws: seq<nat>)
    requires |cells| == |ws| && forall j :: 0 <= j < |ws| ==> |cells[j]| <= ws[j]
    ensures |Line(cells, ws)| == |Sep(ws)|
  {
    var a := seq(|ws|, j requires 0 <= j < |ws| => Cell(cells[j], ws[j]));
    var b := seq(|ws|, j requires 0 <= j < |ws| => Repeat('-', ws[j] + 2));
    forall k | 0 <= k < |ws| ensures |a[k]| == |b[k]| {
      CellWidth(cells[k], ws[k]);
    }
    JoinSameLength("|", a, "+", b);
  }

  /** Every column name and every cell fits its column's width. */
  lemma ColumnsFit(headers: seq<string>, rows: seq<seq<string>>)
    requires Rectangular(headers, rows)
    ensures forall j :: 0 <= j < |headers| ==> |headers[j]| <= ColWidth(headers, rows, j)
    ensures forall i, j :: 0 <= i < |rows| && 0 <= j < |headers| ==> |rows[i][j]| <= ColWidth(headers, rows, j)
  {
    forall j | 0 <= j < |headers| ensures |headers[j]| <= ColWidth(headers, rows, j)
      && forall i :: 0 <= i < |rows| ==> |rows[i][j]| <= ColWidth(headers, rows, j)
    {
      ColWidthIsMax(headers, rows, j);
    }
  }

  /** The table is a rectangle: a separator, the header line, a separator,
      one line per row and a closing separator, every line with the same
      length. */
  lemma LinesAligned(headers: seq<string>, rows: seq<seq<string>>)
    requires Rectangular(headers, rows)
    ensures var lines, ws := TableLines(headers, rows), Widths(headers, rows);
      |lines| == |rows| + 4
      && lines[0] == lines[2] == lines[|rows| + 3] == Sep(ws)
      && lines[1] == Line(headers, ws)
      && (forall i :: 0 <= i < |rows| ==> lines[i + 3] == Line(rows[i], ws))
      && forall k :: 0 <= k < |lines| ==> |lines[k]| == |Sep(ws)|
  {
    var ws := Widths(headers, rows);
    var lines := TableLines(headers, rows);
    LineMatchesSep(headers, ws);
    forall k | 0 <= k < |lines| ensures |lines[k]| == |Sep(ws)| {
      if 3 <= k < |rows| + 3 {
        assert lines[k] == Line(rows[k - 3], ws);
        LineMatchesSep(rows[k - 3], ws);
      }
    }
  }

  /** Each part of a join appears in the joined text. */
  lemma {:induction false} JoinedPartAt(sep: string, parts: seq<string>, k: nat) returns (at: nat)
    requires k < |parts|
    ensures at + |parts[k]| <= |JoinWith(sep, parts)|
    ensures JoinWith(sep, parts)[at..at + |parts[k]|] == parts[k]
    decreases |parts|
  {
    if |parts| == 1 {
      at := 0;
    } else if k == 0 {
      at := 0;
      assert JoinWith(sep, parts) == parts[0] + (sep + JoinWith(sep, parts[1..]));
    } else {
      var inner := JoinedPartAt(sep, parts[1..], k - 1);
      var head := parts[0] + sep;
      at := |head| + inner;
      var rest := JoinWith(sep, parts[1..]);
      assert JoinWith(sep, parts) == head + rest;
      assert (head + rest)[at..at + |parts[k]|] == rest[inner..inner + |parts[k]|];
    }
  }

  /** A padded cell holds its text right after the leading space. */
  lemma CellTextAt(text: string, width: nat)
    ensures 1 + |text| <= |Cell(text, width)| && Cell(text, width)[1..1 + |text|] == text
  {
    var s := LJust(text, width);
    assert Cell(text, width)[1..1 + |text|] == s[..|text|];
  }

  /** Each cell's text appears in its row's line: the header line names
      every column and a row's line shows every one of its cells. */
  lemma CellShown(cells: seq<string>, ws: seq<nat>, j: nat)
    requires |cells| == |ws| && j < |ws|
    ensures Contains(Line(cells, ws), cells[j])
  {
    var parts := seq(|ws|, k requires 0 <= k < |ws| => Cell(cells[k], ws[k]));
    var inner := JoinedPartAt("|", parts, j);
    var joined := JoinWith("|", parts);
    CellTextAt(cells[j], ws[j]);
    OccursPart(joined, inner, parts[j], 1, 1 + |cells[j]|);
    ContainsWithin("|", joined, "|", cells[j]);
  }
}

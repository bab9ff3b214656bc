/** The computations behind the settings dialog: laying widgets out on a grid, the
    checkbox captions, and the de-duplication of the punctuation characters. */
module SettingsDialog {
  import opened Notes
  import opened Strings

  /** The row of the `i`-th widget (from 0). With fewer than one column every widget
      starts a new row. */
  function GridRow(i: nat, columns: int): int {
    if columns >= 1 then 1 + i / columns else 1 + i
  }

  /** The column of the `i`-th widget (from 0). */
  function GridCol(i: nat, columns: int): int {
    if columns >= 1 then 1 + i % columns else 1
  }

  /** Multiplication facts the grid arithmetic needs, one at a time. */
  lemma MulSub(a: int, b: int, c: int)
    ensures a * c - b * c == (a - b) * c
  {
  }

  lemma {:induction false} MulAtLeast(a: int, c: int)
    requires a >= 1 && c >= 1
    ensures a * c >= c
    decreases a
  {
    if a > 1 {
      MulAtLeast(a - 1, c);
      MulSub(a, a - 1, c);
    }
  }

  /** The division that places `n` on the grid is the unique one. */
  lemma DivModUnique(n: nat, c: int, q: int, m: int)
    requires c >= 1 && 0 <= m < c && n == q * c + m
    ensures n / c == q && n % c == m
  {
    var q', m' := n / c, n % c;
    assert n == q' * c + m';
    MulSub(q', q, c);
    if q' > q {
      MulAtLeast(q' - q, c);
    } else if q' < q {
      MulSub(q, q', c);
      MulAtLeast(q - q', c);
    }
  }

  /** One step of widgets_to_grid: the next widget moves one column to the right while
      the row has room, and otherwise starts the next row at column 1. */
  lemma GridStep(i: nat, columns: int)
    ensures GridCol(i, columns) < columns ==>
      GridRow(i + 1, columns) == GridRow(i, columns) && GridCol(i + 1, columns) == GridCol(i, columns) + 1
    ensures GridCol(i, columns) >= columns ==>
      GridRow(i + 1, columns) == GridRow(i, columns) + 1 && GridCol(i + 1, columns) == 1
  {
    if columns >= 1 {
      var q, m := i / columns, i % columns;
      assert i == q * columns + m;
      if m + 1 < columns {
        DivModUnique(i + 1, columns, q, m + 1);
      } else {
        assert i + 1 == (q + 1) * columns + 0;
        DivModUnique(i + 1, columns, q + 1, 0);
      }
    }
  }

  /** widgets_to_grid: each widget with its row and column, in input order. */
  method WidgetsToGrid<W>(widgets: seq<W>, columns: int) returns (grid: seq<(W, int, int)>)
    ensures |grid| == |widgets|
    ensures forall i :: 0 <= i < |widgets| ==>
      grid[i] == (widgets[i], GridRow(i, columns), GridCol(i, columns))
  {
    grid := [];
    var row, col := 1, 1;
    for i := 0 to |widgets|
      invariant |grid| == i
      invariant forall k :: 0 <= k < i ==> grid[k] == (widgets[k], GridRow(k, columns), GridCol(k, columns))
      invariant row == GridRow(i, columns) && col == GridCol(i, columns)
    {
      grid := grid + [(widgets[i], row, col)];
      GridStep(i, columns);
      if col < columns {
        col := col + 1;
      } else {
        row := row + 1;
        col := 1;
      }
    }
  }

  /** Every position lies on the grid: row at least 1, column between 1 and the number of
      columns (1 when fewer than one column is asked for). */
  lemma GridBounds(i: nat, columns: int)
    ensures GridRow(i, columns) >= 1
    ensures 1 <= GridCol(i, columns) <= (if columns >= 1 then columns else 1)
  {
  }

  /** The widget's index is recovered from its position, so no two widgets share one. */
  lemma GridIndex(i: nat, columns: int)
    ensures columns >= 1 ==> i == (GridRow(i, columns) - 1) * columns + GridCol(i, columns) - 1
    ensures columns < 1 ==> i == GridRow(i, columns) - 1
  {
  }

  lemma GridDistinct(i: nat, j: nat, columns: int)
    requires i != j
    ensures (GridRow(i, columns), GridCol(i, columns)) != (GridRow(j, columns), GridCol(j, columns))
  {
    GridIndex(i, columns);
    GridIndex(j, columns);
  }

  /** Positions follow input order row by row: a later widget is in a later row, or in the
      same row further right. */
  lemma GridOrder(i: nat, j: nat, columns: int)
    requires i < j
    ensures GridRow(i, columns) < GridRow(j, columns)
      || (GridRow(i, columns) == GridRow(j, columns) && GridCol(i, columns) < GridCol(j, columns))
  {
    if columns >= 1 {
      var ri, rj := GridRow(i, columns), GridRow(j, columns);
      GridIndex(i, columns);
      GridIndex(j, columns);
      MulSub(ri - 1, rj - 1, columns);
      if rj < ri {
        MulAtLeast(ri - rj, columns);
      }
    }
  }

  /** Python's str.capitalize on ASCII letters: the first character upper case, the rest
      lower case. */
  function Capitalize(s: string): (r: string)
    ensures |r| == |s|
    ensures forall i :: 0 <= i < |s| ==> r[i] == (if i == 0 then Upper(s[i]) else Lower(s[i]))
  {
    if s == [] then [] else [Upper(s[0])] + seq(|s| - 1, i requires 0 <= i < |s| - 1 => Lower(s[i + 1]))
  }

  /** The caption of a toggle's checkbox: its config key with underscores read as spaces,
      capitalised. */
  function CheckboxLabel(key: string): (r: string)
    ensures |r| == |key|
    ensures forall i :: 0 <= i < |key| ==>
      r[i] == (if key[i] == '_' then ' ' else if i == 0 then Upper(key[i]) else Lower(key[i]))
  {
    ReplaceCharByChar(key, '_', ' ');
    Capitalize(ReplaceAll(key, "_", " "))
  }

  /** Changing case never yields an underscore and is idempotent. */
  lemma CaseChar(c: char)
    requires c != '_'
    ensures Upper(c) != '_' && Lower(c) != '_'
    ensures Upper(Upper(c)) == Upper(c) && Lower(Lower(c)) == Lower(c)
  {
  }

  /** A caption holds no underscore, and deriving a caption from a caption changes nothing. */
  lemma CheckboxLabelClean(key: string)
    ensures '_' !in CheckboxLabel(key)
    ensures CheckboxLabel(CheckboxLabel(key)) == CheckboxLabel(key)
  {
    var r := CheckboxLabel(key);
    forall i | 0 <= i < |r| ensures r[i] != '_' && CheckboxLabel(r)[i] == r[i] {
      if key[i] != '_' {
        CaseChar(key[i]);
      }
    }
  }

  /** uniq_char_str: ''.join(set(text)), every character of the text exactly once. The
      order in which a Python set yields its members is not fixed, so each step may take
      any character still to be emitted. */
  method UniqCharStr(text: string) returns (r: string)
    ensures forall c :: c in r <==> c in text
    ensures Distinct(r)
  {
    var pending := set c | c in text;
    r := [];
    while pending != {}
      invariant forall c :: c in text <==> c in pending || c in r
      invariant forall c :: c in pending ==> c !in r
      invariant Distinct(r)
      decreases |pending|
    {
      var c :| c in pending;
      pending := pending - {c};
      r := r + [c];
    }
  }

  /** A string whose characters are distinct holds each of them once. */
  lemma DistinctOnce(r: string, c: char)
    requires Distinct(r) && c in r
    ensures multiset(r)[c] == 1
    decreases |r|
  {
    if r[0] == c {
      assert c !in r[1..];
      assert r == [r[0]] + r[1..];
    } else {
      assert r == [r[0]] + r[1..];
      DistinctOnce(r[1..], c);
    }
  }
}

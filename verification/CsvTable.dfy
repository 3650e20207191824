/** What the CSV reader's tables are: their declarative selection, their exact
    image, their printers, and how files compose. */
module CsvTable {
  import opened Tokenizer
  import opened CsvParser

  /** The number of empty rows before the first non-empty one. */
  function LeadingBlank(rows: Table): (k: nat)
    ensures k <= |rows| && (k < |rows| ==> rows[k] != [])
    ensures forall i :: 0 <= i < k ==> rows[i] == []
  {
    if rows == [] || rows[0] != [] then 0 else 1 + LeadingBlank(rows[1..])
  }

  /** The table's width: that of its first non-empty row, 0 when there is none. */
  function TableWidth(rows: Table): nat {
    var k := LeadingBlank(rows);
    if k < |rows| then |rows[k]| else 0
  }

  // ---------- composition and resumption ----------

  lemma {:induction false} SelectedConcat(col: nat, a: Table, b: Table)
    ensures Selected(col, a + b) == Selected(col, a) + Selected(WidthAfter(col, a), b)
    ensures WidthAfter(col, a + b) == WidthAfter(WidthAfter(col, a), b)
    decreases |a|
  {
    if a == [] {
      assert a + b == b;
    } else {
      assert (a + b)[1..] == a[1..] + b;
      SelectedConcat(if col == 0 then |a[0]| else col, a[1..], b);
    }
  }

  /** The width state: once set it stays; started at 0 it becomes the table's width. */
  lemma {:induction false} WidthState(col: nat, rows: Table)
    ensures WidthAfter(col, rows) == if col != 0 then col else TableWidth(rows)
    ensures WidthAfter(col, rows) == 0 <==> col == 0 && forall i :: 0 <= i < |rows| ==> rows[i] == []
    decreases |rows|
  {
    if rows != [] {
      WidthState(if col == 0 then |rows[0]| else col, rows[1..]);
      assert forall i :: 1 <= i < |rows| ==> rows[i] == rows[1..][i - 1];
    }
  }

  lemma {:induction false} RowsConcat(a: string, b: string)
    requires a == "" || a[|a| - 1] == '\n'
    ensures Rows(a + b) == Rows(a) + Rows(b)
  {
    SplitConcat(a, b, '\n');
    hide Split, RowsOf;
    RowsOfConcat(Split(a, '\n'), Split(b, '\n'));
  }

  /** Reading can stop after any complete line and resume with the width reached. */
  lemma {:induction false} Resume(a: string, b: string)
    requires a == "" || a[|a| - 1] == '\n'
    ensures Parsed(a + b) == Parsed(a) + Selected(TableWidth(Rows(a)), Rows(b))
  {
    RowsConcat(a, b);
    SelectedConcat(0, Rows(a), Rows(b));
    WidthState(0, Rows(a));
  }

  /** The end-of-file newline is optional. */
  lemma {:induction false} FinalNewline(text: string)
    requires text != "" && text[|text| - 1] != '\n'
    ensures Parsed(text) == Parsed(text + ['\n'])
  {
    SplitKernel(text, text + ['\n'], '\n');
  }

  // ---------- declarative selection ----------

  /** Row `j` is kept: it comes before the first non-empty row, or has its width. */
  ghost predicate Kept(rows: Table, j: nat)
    requires j < |rows|
  {
    j < LeadingBlank(rows) || |rows[j]| == TableWidth(rows)
  }

  ghost predicate Increasing(picks: seq<nat>) {
    forall a, b :: 0 <= a < b < |picks| ==> picks[a] < picks[b]
  }

  lemma {:induction false} LeadingBlankSnoc(rows: Table, row: Row)
    ensures LeadingBlank(rows + [row]) ==
            if LeadingBlank(rows) == |rows| && row == [] then |rows| + 1 else LeadingBlank(rows)
    decreases |rows|
  {
    if rows == [] {
      assert ([row])[1..] == [];
    } else if rows[0] == [] {
      assert (rows + [row])[1..] == rows[1..] + [row];
      LeadingBlankSnoc(rows[1..], row);
    }
  }

  lemma {:induction false} KeptSnoc(rows: Table, row: Row, j: nat)
    requires j <= |rows|
    ensures j < |rows| ==> (Kept(rows + [row], j) <==> Kept(rows, j))
    ensures j == |rows| ==> (Kept(rows + [row], j) <==> |row| == TableWidth(rows) || TableWidth(rows) == 0)
  {
    LeadingBlankSnoc(rows, row);
    if j < |rows| {
      assert (rows + [row])[j] == rows[j];
    }
  }

  /** The streaming selection is the order-preserving choice of the kept rows. */
  lemma {:induction false} SelectionIsDeclarative(rows: Table) returns (picks: seq<nat>)
    ensures Increasing(picks)
    ensures forall j: nat :: j in picks <==> j < |rows| && Kept(rows, j)
    ensures |Selected(0, rows)| == |picks|
    ensures forall i :: 0 <= i < |picks| ==> picks[i] < |rows| && Selected(0, rows)[i] == rows[picks[i]]
    decreases |rows|
  {
    if rows == [] {
      picks := [];
    } else {
      var n := |rows| - 1;
      var init, row := rows[..n], rows[n];
      assert rows == init + [row];
      picks := SelectionIsDeclarative(init);
      SelectedConcat(0, init, [row]);
      WidthState(0, init);
      SelectedOne(TableWidth(init), row);
      forall j: nat | j <= n
        ensures j < n ==> (Kept(rows, j) <==> Kept(init, j))
        ensures j == n ==> (Kept(rows, j) <==> |row| == TableWidth(init) || TableWidth(init) == 0)
      {
        KeptSnoc(init, row, j);
      }
      if |row| == TableWidth(init) || TableWidth(init) == 0 {
        picks := picks + [n];
      }
    }
  }

  lemma {:induction false} SelectedOne(col: nat, row: Row)
    ensures Selected(col, [row]) == if col == 0 || |row| == col then [row] else []
  {
  }

  /** A file of blank lines reads as that many empty rows. */
  lemma {:induction false} AllBlank(rows: Table)
    requires forall i :: 0 <= i < |rows| ==> rows[i] == []
    ensures Selected(0, rows) == rows
    decreases |rows|
  {
    if rows != [] { AllBlank(rows[1..]); }
  }

  /** Once the width is c, a line is kept exactly when it holds c separators,
      its last cell counted as terminated. */
  lemma {:induction false} KeptByCommaCount(col: nat, line: string, rows: Table)
    requires col > 0
    ensures Selected(col, [Cells(line)] + rows)
         == (if Count(Norm(line, ','), ',') == col then [Cells(line)] else []) + Selected(col, rows)
  {
    PiecesAreSeparators(line, ',');
    SelectedConcat(col, [Cells(line)], rows);
    SelectedOne(col, Cells(line));
    WidthState(col, [Cells(line)]);
  }

  // ---------- the image, and the canonical form ----------

  ghost predicate CleanTable(t: Table) {
    forall i :: 0 <= i < |t| ==> Clean(t[i], ',') && Clean(t[i], '\n')
  }

  /** Empty rows, then rows of one positive width. */
  ghost predicate Rectangular(t: Table) {
    forall i :: LeadingBlank(t) <= i < |t| ==> |t[i]| == TableWidth(t)
  }

  /** Each line cell-terminated, each row line-terminated. */
  function Print(t: Table): string {
    Terminated(seq(|t|, i requires 0 <= i < |t| => Terminated(t[i], ',')), '\n')
  }

  /** The customary printer: commas between cells. */
  function PrintJoined(t: Table): string {
    Terminated(seq(|t|, i requires 0 <= i < |t| => Joined(t[i], ',')), '\n')
  }

  lemma {:induction false} RowsAreClean(text: string)
    ensures CleanTable(Rows(text))
  {
    SplitIsClean(text, '\n');
    forall i | 0 <= i < |Rows(text)|
      ensures Clean(Rows(text)[i], ',') && Clean(Rows(text)[i], '\n')
    {
      SplitIsClean(Split(text, '\n')[i], ',');
      SplitKeepsOut(Split(text, '\n')[i], ',', '\n');
    }
  }

  /** The reader undoes the terminating printer before the selection. */
  lemma {:induction false} RowsAfterPrint(t: Table)
    requires CleanTable(t)
    ensures Rows(Print(t)) == t
  {
    var lines := seq(|t|, i requires 0 <= i < |t| => Terminated(t[i], ','));
    forall i | 0 <= i < |t|
      ensures '\n' !in lines[i] && Cells(lines[i]) == t[i]
    {
      TerminatedKeepsOut(t[i], ',', '\n');
      SplitAfterPrint(t[i], ',');
    }
    SplitAfterPrint(lines, '\n');
  }

  lemma {:induction false} SelectedIsUniform(col: nat, rows: Table)
    ensures col > 0 ==> forall i :: 0 <= i < |Selected(col, rows)| ==> |Selected(col, rows)[i]| == col
    ensures col == 0 ==> Rectangular(Selected(col, rows))
    ensures forall row :: row in Selected(col, rows) ==> row in rows
    decreases |rows|
  {
    if rows != [] {
      var next := if col == 0 then |rows[0]| else col;
      SelectedIsUniform(next, rows[1..]);
      var rest := Selected(next, rows[1..]);
      if col == 0 {
        assert Selected(col, rows) == [rows[0]] + rest;
        RectangularCons(rows[0], rest);
      }
    }
  }

  lemma {:induction false} RectangularCons(row: Row, rest: Table)
    requires if row == [] then Rectangular(rest) else forall i :: 0 <= i < |rest| ==> |rest[i]| == |row|
    ensures Rectangular([row] + rest)
  {
  }

  lemma {:induction false} SelectedFixes(col: nat, t: Table)
    requires if col == 0 then Rectangular(t) else forall i :: 0 <= i < |t| ==> |t[i]| == col
    ensures Selected(col, t) == t
    decreases |t|
  {
    if t != [] {
      var rest := t[1..];
      assert forall i :: 1 <= i < |t| ==> t[i] == rest[i - 1];
      if col == 0 && t[0] == [] {
        assert LeadingBlank(t) == 1 + LeadingBlank(rest);
        assert TableWidth(t) == TableWidth(rest);
      }
      SelectedFixes(if col == 0 then |t[0]| else col, rest);
    }
  }

  /** The exact image of the reader. */
  lemma {:induction false} ParsedImage(t: Table)
    ensures (exists text :: Parsed(text) == t) <==> CleanTable(t) && Rectangular(t)
  {
    if text :| Parsed(text) == t { ParsedIsCanonical(text); }
    if CleanTable(t) && Rectangular(t) { ParsedAfterPrint(t); }
  }

  lemma {:induction false} ParsedIsCanonical(text: string)
    ensures CleanTable(Parsed(text)) && Rectangular(Parsed(text))
  {
    RowsAreClean(text);
    SelectedIsUniform(0, Rows(text));
    forall i | 0 <= i < |Parsed(text)|
      ensures Clean(Parsed(text)[i], ',') && Clean(Parsed(text)[i], '\n')
    {
      assert Parsed(text)[i] in Rows(text);
    }
  }

  /** Every canonical table survives printing and reading. */
  lemma {:induction false} ParsedAfterPrint(t: Table)
    requires CleanTable(t) && Rectangular(t)
    ensures Parsed(Print(t)) == t
  {
    RowsAfterPrint(t);
    SelectedFixes(0, t);
  }

  /** Printing what was read is a normal form of the file: it reads the same, and
      two files read the same exactly when their normal forms are equal. */
  lemma {:induction false} NormalForm(f: string, g: string)
    ensures Parsed(Print(Parsed(f))) == Parsed(f)
    ensures Parsed(f) == Parsed(g) <==> Print(Parsed(f)) == Print(Parsed(g))
  {
    ParsedIsCanonical(f);
    ParsedAfterPrint(Parsed(f));
    ParsedIsCanonical(g);
    ParsedAfterPrint(Parsed(g));
  }

  // ---------- comma-joined tables ----------

  /** A row as it comes back from a comma-joined line. */
  function Seen(row: Row): Row {
    if row == [] then [] else Trimmed(row)
  }

  function SeenRows(t: Table): Table {
    seq(|t|, i requires 0 <= i < |t| => Seen(t[i]))
  }

  lemma {:induction false} RowsAfterPrintJoined(t: Table)
    requires CleanTable(t)
    ensures Rows(PrintJoined(t)) == SeenRows(t)
  {
    var lines := seq(|t|, i requires 0 <= i < |t| => Joined(t[i], ','));
    forall i | 0 <= i < |t|
      ensures '\n' !in lines[i] && Cells(lines[i]) == Seen(t[i])
    {
      JoinedKeepsOut(t[i], ',', '\n');
      if t[i] != [] { SplitAfterJoin(t[i], ','); }
    }
    SplitAfterPrint(lines, '\n');
  }

  ghost predicate OfWidth(t: Table, c: nat) {
    forall i :: 0 <= i < |t| ==> |t[i]| == c
  }

  /** The rows whose last cell is empty, or those whose last cell is not. */
  function Ending(t: Table, blank: bool): Table
    requires forall i :: 0 <= i < |t| ==> t[i] != []
  {
    if t == [] then []
    else (if (Last(t[0]) == "") == blank then [t[0]] else []) + Ending(t[1..], blank)
  }

  lemma {:induction false} SeenCons(t: Table)
    requires t != []
    ensures SeenRows(t) == [Seen(t[0])] + SeenRows(t[1..])
  {
  }

  /** Under a set width, the joined rows that count are those of one ending. */
  lemma {:induction false} SelectedSeen(c: nat, t: Table, blank: bool)
    requires c > 0 && OfWidth(t, c) && (blank ==> c > 1)
    ensures Selected(if blank then c - 1 else c, SeenRows(t)) == SeenRows(Ending(t, blank))
    decreases |t|
  {
    if t != [] {
      SeenCons(t);
      SelectedSeen(c, t[1..], blank);
      var ending := Ending(t[1..], blank);
      SeenCons([t[0]] + ending);
      assert ([t[0]] + ending)[1..] == ending;
    }
  }

  lemma {:induction false} SeenIsIdentity(t: Table)
    requires forall i :: 0 <= i < |t| ==> t[i] != []
    ensures SeenRows(t) == t <==> forall i :: 0 <= i < |t| ==> Last(t[i]) != ""
  {
  }

  lemma {:induction false} EndingEnds(t: Table, blank: bool)
    requires forall i :: 0 <= i < |t| ==> t[i] != []
    ensures forall i :: 0 <= i < |Ending(t, blank)| ==> Ending(t, blank)[i] != []
    ensures forall i :: 0 <= i < |Ending(t, blank)| ==> (Last(Ending(t, blank)[i]) == "") == blank
    ensures Ending(t, blank) == t <==> forall i :: 0 <= i < |t| ==> (Last(t[i]) == "") == blank
    ensures |Ending(t, blank)| <= |t|
    decreases |t|
  {
    if t != [] {
      EndingEnds(t[1..], blank);
      if (Last(t[0]) == "") == blank {
        assert Ending(t, blank)[1..] == Ending(t[1..], blank);
        assert forall i :: 1 <= i < |t| ==> t[i] == t[1..][i - 1];
      }
    }
  }

  /** A joined table whose first row ends in text reads as its rows that do. */
  lemma {:induction false} JoinedFullFirst(t: Table, c: nat)
    requires c > 0 && OfWidth(t, c) && CleanTable(t)
    requires t != [] ==> Last(t[0]) != ""
    ensures Parsed(PrintJoined(t)) == Ending(t, false)
  {
    RowsAfterPrintJoined(t);
    if t != [] {
      SeenCons(t);
      SelectedSeen(c, t, false);
      EndingEnds(t, false);
      SeenIsIdentity(Ending(t, false));
      assert Selected(0, SeenRows(t)) == Selected(c, SeenRows(t));
    }
  }

  /** One whose first row ends in an empty cell loses its last column, and keeps
      exactly the rows where that column was empty. */
  lemma {:induction false} JoinedBlankFirst(t: Table, c: nat)
    requires c > 1 && OfWidth(t, c) && CleanTable(t)
    requires t != [] && Last(t[0]) == ""
    ensures Parsed(PrintJoined(t)) == SeenRows(Ending(t, true))
    ensures OfWidth(Parsed(PrintJoined(t)), c - 1)
  {
    RowsAfterPrintJoined(t);
    SeenCons(t);
    SelectedSeen(c, t, true);
    assert Selected(0, SeenRows(t)) == Selected(c - 1, SeenRows(t));
    SelectedIsUniform(c - 1, SeenRows(t));
  }

  /** The ordinary round trip holds exactly when no row ends in an empty cell. */
  lemma {:induction false} JoinedRoundTrip(t: Table, c: nat)
    requires c > 0 && OfWidth(t, c) && CleanTable(t)
    ensures Parsed(PrintJoined(t)) == t <==> forall i :: 0 <= i < |t| ==> Last(t[i]) != ""
  {
    if t == [] || Last(t[0]) != "" {
      JoinedFullFirst(t, c);
      EndingEnds(t, false);
    } else {
      RowsAfterPrintJoined(t);
      SeenCons(t);
      assert Parsed(PrintJoined(t))[0] == Seen(t[0]);
    }
  }

  lemma {:induction false} SeenBlanks(t: Table, k: nat)
    requires k <= |t| && forall i :: 0 <= i < k ==> t[i] == [""]
    ensures SeenRows(t) == seq(k, _ => []) + SeenRows(t[k..])
  {
    forall i | 0 <= i < |t| ensures SeenRows(t)[i] == (seq(k, _ => []) + SeenRows(t[k..]))[i] {
      if i >= k { assert t[k..][i - k] == t[i]; }
    }
  }

  /** In one column, empty first cells read as leading empty rows; after the first
      full row the empty ones are dropped. */
  lemma {:induction false} JoinedOneColumn(t: Table, k: nat)
    requires OfWidth(t, 1) && CleanTable(t) && k <= |t|
    requires forall i :: 0 <= i < k ==> t[i] == [""]
    requires k < |t| ==> t[k] != [""]
    ensures Parsed(PrintJoined(t)) == seq(k, _ => []) + Ending(t[k..], false)
  {
    var blanks, rest := t[..k], t[k..];
    RowsAfterPrintJoined(t);
    RowsAfterPrintJoined(rest);
    SeenBlanks(t, k);
    JoinedFullFirst(rest, 1);
    hide Rows, PrintJoined, SeenRows, Ending, Selected, WidthAfter;
    var empties: Table := seq(k, _ => []);
    SelectedConcat(0, empties, SeenRows(rest));
    WidthState(0, empties);
    AllBlank(empties);
  }
}

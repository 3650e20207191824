/** The CSV reader: the line loop with its width state, as code and as a function. */
module CsvParser {
  import opened Tokenizer

  type Row = seq<string>
  type Table = seq<Row>

  /** The cells of one line, and the rows of a whole file before any is dropped. */
  function Cells(line: string): Row {
    Split(line, ',')
  }

  function RowsOf(lines: seq<string>): Table {
    seq(|lines|, i requires 0 <= i < |lines| => Cells(lines[i]))
  }

  function Rows(text: string): Table {
    RowsOf(Split(text, '\n'))
  }

  // ---------- the machine, with the widths of its integers ----------

  const TWO_31: int := 0x8000_0000
  const TWO_32: int := 0x1_0000_0000
  const TWO_64: int := 0x1_0000_0000_0000_0000

  /** `size_t` to `int`: the low 32 bits, read as two's complement. */
  function ToInt(n: nat): (k: int)
    ensures -TWO_31 <= k < TWO_31 && (n - k) % TWO_32 == 0
  {
    var low := n % TWO_32;
    if low < TWO_31 then low else low - TWO_32
  }

  /** `int` to `size_t`, as the comparison with `row.size()` promotes it. */
  function ToSize(k: int): (n: int)
    ensures -TWO_64 <= k < TWO_64 ==> 0 <= n < TWO_64 && (n - k) % TWO_64 == 0
  {
    if k < 0 then k + TWO_64 else k
  }

  /** `col` after a row. */
  function NextCol(col: int, row: Row): int {
    if col == 0 then ToInt(|row|) else col
  }

  /** The rows the loop pushes from `rows` when it starts with `col`. */
  function Pushed(col: int, rows: Table): Table
    decreases |rows|
  {
    if rows == [] then []
    else
      var next := NextCol(col, rows[0]);
      (if |rows[0]| == ToSize(next) then [rows[0]] else []) + Pushed(next, rows[1..])
  }

  class CsvFile {
    const filename: string

    constructor (filename: string)
      ensures this.filename == filename
    {
      this.filename := filename;
    }

    /** The file system is a parameter: a name with no contents does not open. */
    method Parse(disk: map<string, string>) returns (data: Table)
      ensures filename !in disk ==> data == []
      ensures filename in disk ==> data == Pushed(0, Rows(disk[filename]))
      ensures filename in disk && Narrow(Rows(disk[filename])) ==> data == Parsed(disk[filename])
    {
      var col := 0;
      data := [];
      if filename !in disk {
        return;
      }
      var file := new CharStream(disk[filename]);
      ghost var rows := Rows(file.text);
      var ok, line := file.GetLine('\n');
      RowsAfterGetLine(file.text, ok, line, file.Unread());
      while ok
        invariant file.Valid()
        invariant rows == if ok then [Cells(line)] + Rows(file.Unread()) else []
        invariant Pushed(0, Rows(disk[filename])) == data + Pushed(col, rows)
        decreases ok, |file.Unread()|
      {
        var row := ParseLine(line);
        rows := Rows(file.Unread());
        PushedCons(data, col, row, rows);
        if col == 0 {
          col := ToInt(|row|);
        }
        if |row| == ToSize(col) {
          data := data + [row];
        }
        ghost var unread := file.Unread();
        ok, line := file.GetLine('\n');
        RowsAfterGetLine(unread, ok, line, file.Unread());
      }
      if Narrow(Rows(disk[filename])) { NarrowPushed(0, Rows(disk[filename])); }
    }

    method ParseLine(line: string) returns (tokens: Row)
      ensures tokens == Cells(line)
    {
      tokens := [];
      var ss := new CharStream(line);
      hide Cells, Peels;
      var ok, token := ss.GetLine(',');
      CellsStart(line, ok, token, ss.Unread());
      while ok
        invariant ss.Valid() && Tokenizing(line, tokens, ok, token, ss.Unread())
        decreases ok, |ss.Unread()|
      {
        ghost var before, last, unread := tokens, token, ss.Unread();
        tokens := tokens + [token];
        ok, token := ss.GetLine(',');
        CellsTurn(line, before, last, unread, ok, token, ss.Unread());
      }
      CellsEnd(line, tokens, token, ss.Unread());
    }
  }

  /** The tokens taken, the one just read, and those of the unread text make up the line's. */
  ghost predicate Tokenizing(line: string, tokens: Row, ok: bool, token: string, unread: string) {
    Cells(line) == tokens + if ok then [token] + Cells(unread) else []
  }

  lemma {:induction false} CellsAre(line: string)
    ensures Cells(line) == Split(line, ',')
  {
  }

  lemma {:induction false} CellsStart(line: string, ok: bool, token: string, unread: string)
    requires Peels(line, ',', ok, token, unread)
    ensures Tokenizing(line, [], ok, token, unread)
  {
    SplitAfterGetLine(line, ok, token, unread, ',');
    hide Split, Peels;
  }

  lemma {:induction false} CellsTurn(line: string, tokens: Row, last: string, unread: string,
                                     ok: bool, token: string, unread': string)
    requires Tokenizing(line, tokens, true, last, unread) && Peels(unread, ',', ok, token, unread')
    ensures Tokenizing(line, tokens + [last], ok, token, unread')
  {
    SplitAfterGetLine(unread, ok, token, unread', ',');
    CellsAre(unread);
    CellsAre(unread');
    hide Split, Peels, Cells;
    assert tokens + ([last] + Cells(unread)) == (tokens + [last]) + Cells(unread);
  }

  lemma {:induction false} CellsEnd(line: string, tokens: Row, token: string, unread: string)
    requires Tokenizing(line, tokens, false, token, unread)
    ensures tokens == Cells(line)
  {
    hide Cells;
  }

  lemma {:induction false} SplitAfterGetLine(x: string, ok: bool, token: string, rest: string, sep: char)
    requires Peels(x, sep, ok, token, rest)
    ensures Split(x, sep) == if ok then [token] + Split(rest, sep) else []
  {
    if ok { SplitStep(x, token, rest, sep); }
  }

  lemma {:induction false} RowsOfConcat(a: seq<string>, b: seq<string>)
    ensures RowsOf(a + b) == RowsOf(a) + RowsOf(b)
  {
    hide Cells;
  }

  lemma {:induction false} RowsAfterGetLine(x: string, ok: bool, line: string, rest: string)
    requires Peels(x, '\n', ok, line, rest)
    ensures Rows(x) == if ok then [Cells(line)] + Rows(rest) else []
  {
    SplitAfterGetLine(x, ok, line, rest, '\n');
    hide Split, Cells, Peels;
    if ok { RowsOfConcat([line], Split(rest, '\n')); }
  }

  lemma {:induction false} PushedCons(data: Table, col: int, row: Row, rows: Table)
    ensures data + Pushed(col, [row] + rows)
         == (if |row| == ToSize(NextCol(col, row)) then data + [row] else data) + Pushed(NextCol(col, row), rows)
  {
  }

  // ---------- the machine on the widths an `int` can hold ----------

  ghost predicate Narrow(rows: Table) {
    forall i :: 0 <= i < |rows| ==> |rows[i]| < TWO_31
  }

  /** `col` after `rows`, and the rows kept on the way. */
  function WidthAfter(col: nat, rows: Table): nat
    decreases |rows|
  {
    if rows == [] then col else WidthAfter(if col == 0 then |rows[0]| else col, rows[1..])
  }

  function Selected(col: nat, rows: Table): Table
    decreases |rows|
  {
    if rows == [] then []
    else
      var next := if col == 0 then |rows[0]| else col;
      (if |rows[0]| == next then [rows[0]] else []) + Selected(next, rows[1..])
  }

  /** The table read from a file. */
  function Parsed(text: string): Table {
    Selected(0, Rows(text))
  }

  lemma {:induction false} NarrowPushed(col: nat, rows: Table)
    requires col < TWO_31 && Narrow(rows)
    ensures Pushed(col, rows) == Selected(col, rows)
    decreases |rows|
  {
    if rows != [] {
      assert |rows[0]| < TWO_31;
      NarrowPushed(if col == 0 then |rows[0]| else col, rows[1..]);
    }
  }

  /** Before any width is set, a row that a `vector` can hold is kept exactly when its
      size fits the `int`; a wider one is dropped. */
  lemma {:induction false} FirstRowKept(row: Row, rows: Table)
    requires |row| < TWO_64 / 2
    ensures Pushed(0, [row] + rows)
         == (if |row| < TWO_31 then [row] else []) + Pushed(ToInt(|row|), rows)
  {
  }
}

/**
 * The text file AFD.java writes and reads: the number of states on the
 * first line, then one line per state with its 257 cells separated by ';'.
 * A file is given here as its lines, without the line terminators.
 */
module TableFile {
  import opened Wrappers
  import opened Text

  const CELLS: nat := 257

  /** IOExceptions guardarAFDenArchivo throws: nothing consistent to save, or a row of the wrong width. */
  datatype SaveError = Inconsistent | InvalidRow(row: nat)

  /** Exceptions leerAFDdeArchivo lets out. */
  datatype LoadError =
    | EmptyFile                 // no first line
    | BadNumber                 // NumberFormatException
    | NegativeCount(n: int)     // a negative number of states
    | IncompleteLine(row: nat)  // fewer than 257 fields on a line
    | MissingRows(found: nat)   // the file ends before numEdos rows

  function RowLine(row: seq<int>): (s: string)
    requires |row| >= 1
  {
    Join(Strings(row), ';')
  }

  function Strings(row: seq<int>): (r: seq<string>)
    ensures |r| == |row| && forall i :: 0 <= i < |row| ==> r[i] == IntToString(row[i])
  {
    if row == [] then [] else [IntToString(row[0])] + Strings(row[1..])
  }

  /**
   * The lines guardarAFDenArchivo writes: refused before writing anything
   * when there is no table, numEdos is not positive or differs from the
   * number of rows; refused at the first row whose width is not 257.
   */
  function Serialize(numEdos: int, table: Option<seq<seq<int>>>): (r: Result<seq<string>, SaveError>)
    ensures r.Success? ==> table.Some? && numEdos == |table.value| > 0 && |r.value| == numEdos + 1
    ensures r.Success? ==> forall i :: 0 <= i < numEdos ==> |table.value[i]| == CELLS
    ensures r == Failure(Inconsistent) <==> table.None? || numEdos <= 0 || |table.value| != numEdos
  {
    if table.None? || numEdos <= 0 || |table.value| != numEdos then Failure(Inconsistent)
    else
      match SerializeRows(table.value, 0)
      case Failure(e) => Failure(e)
      case Success(lines) => Success([IntToString(numEdos)] + lines)
  }

  function SerializeRows(rows: seq<seq<int>>, from: nat): (r: Result<seq<string>, SaveError>)
    requires from <= |rows|
    ensures r.Success? ==> |r.value| == |rows| - from && forall i :: from <= i < |rows| ==> |rows[i]| == CELLS
    ensures r.Success? ==> forall i :: from <= i < |rows| ==> r.value[i - from] == RowLine(rows[i])
    ensures r.Failure? ==> r.error.InvalidRow? && from <= r.error.row < |rows| && |rows[r.error.row]| != CELLS
    decreases |rows| - from
  {
    if from == |rows| then Success([])
    else if |rows[from]| != CELLS then Failure(InvalidRow(from))
    else
      match SerializeRows(rows, from + 1)
      case Failure(e) => Failure(e)
      case Success(rest) => Success([RowLine(rows[from])] + rest)
  }

  /** Rows that all have 257 cells are all written. */
  lemma {:induction false} SerializeRowsOk(rows: seq<seq<int>>, from: nat)
    requires from <= |rows| && forall i :: from <= i < |rows| ==> |rows[i]| == CELLS
    ensures SerializeRows(rows, from).Success?
    decreases |rows| - from
  {
    if from < |rows| {
      SerializeRowsOk(rows, from + 1);
    }
  }

  /** The 257 numbers of a line, or why it is refused. */
  function ParseRow(line: string, row: nat): (r: Result<seq<int>, LoadError>)
    ensures r.Success? ==> |r.value| == CELLS && forall k :: 0 <= k < CELLS ==> IsInt32(r.value[k])
  {
    var fields := Split(line, ';');
    if |fields| < CELLS then Failure(IncompleteLine(row))
    else ParseFields(fields[..CELLS])
  }

  function ParseFields(fields: seq<string>): (r: Result<seq<int>, LoadError>)
    ensures r.Success? ==> |r.value| == |fields| && forall k :: 0 <= k < |fields| ==> Some(r.value[k]) == ParseInt(fields[k])
    ensures r.Success? ==> forall k :: 0 <= k < |fields| ==> IsInt32(r.value[k])
    ensures r.Failure? ==> r.error == BadNumber
  {
    if fields == [] then Success([])
    else
      match ParseInt(fields[0])
      case None => Failure(BadNumber)
      case Some(v) =>
        match ParseFields(fields[1..])
        case Failure(e) => Failure(e)
        case Success(rest) => Success([v] + rest)
  }

  /**
   * What leerAFDdeArchivo reads: the trimmed first line is the number of
   * states, zero gives an empty table, and each of the next numEdos lines
   * must hold at least 257 fields, of which the first 257 are read; lines
   * after those are ignored.
   */
  function Deserialize(lines: seq<string>): (r: Result<(int, seq<seq<int>>), LoadError>)
    ensures r.Success? ==> r.value.0 == |r.value.1| && forall i :: 0 <= i < |r.value.1| ==> |r.value.1[i]| == CELLS
  {
    if lines == [] then Failure(EmptyFile)
    else
      match ParseInt(Trim(lines[0]))
      case None => Failure(BadNumber)
      case Some(n) =>
        if n < 0 then Failure(NegativeCount(n))
        else if n == 0 then Success((0, []))
        else
          match ParseRows(lines[1..], 0, n)
          case Failure(e) => Failure(e)
          case Success(rows) => Success((n, rows))
  }

  function ParseRows(rest: seq<string>, row: nat, n: nat): (r: Result<seq<seq<int>>, LoadError>)
    requires row <= n
    ensures r.Success? ==> |r.value| == n - row && forall i :: 0 <= i < |r.value| ==> |r.value[i]| == CELLS
    decreases n - row
  {
    if row == n then Success([])
    else if rest == [] then Failure(MissingRows(row))
    else
      match ParseRow(rest[0], row)
      case Failure(e) => Failure(e)
      case Success(values) =>
        match ParseRows(rest[1..], row + 1, n)
        case Failure(e) => Failure(e)
        case Success(more) => Success([values] + more)
  }

  predicate ValidTable(numEdos: int, rows: seq<seq<int>>) {
    && numEdos == |rows| > 0 && IsInt32(numEdos)
    && forall i :: 0 <= i < |rows| ==> |rows[i]| == CELLS && forall k :: 0 <= k < CELLS ==> IsInt32(rows[i][k])
  }

  lemma {:induction false} ParseFieldsOfStrings(row: seq<int>)
    requires forall k :: 0 <= k < |row| ==> IsInt32(row[k])
    ensures ParseFields(Strings(row)) == Success(row)
    decreases |row|
  {
    if row != [] {
      ParseIntToString(row[0]);
      assert Strings(row)[1..] == Strings(row[1..]);
      ParseFieldsOfStrings(row[1..]);
      assert [row[0]] + row[1..] == row;
    }
  }

  /** A line written for a row of 257 Java ints reads back as that row. */
  lemma ParseRowLine(row: seq<int>, i: nat)
    requires |row| == CELLS && forall k :: 0 <= k < CELLS ==> IsInt32(row[k])
    ensures ParseRow(RowLine(row), i) == Success(row)
  {
    var parts := Strings(row);
    forall k | 0 <= k < |parts|
      ensures ';' !in parts[k]
    {
    }
    SplitJoin(parts, ';');
    assert parts[..CELLS] == parts;
    ParseFieldsOfStrings(row);
  }

  /** A suffix of a sequence is its first element followed by the rest. */
  lemma SliceCons<T>(s: seq<T>, i: nat)
    requires i < |s|
    ensures s[i..] == [s[i]] + s[i + 1..]
  {
  }

  /** The lines written from row on read back as the rows from row on. */
  lemma {:induction false} ParseRowsOfLines(rows: seq<seq<int>>, lines: seq<string>, row: nat)
    requires ValidTable(|rows|, rows) && row <= |rows|
    requires SerializeRows(rows, row) == Success(lines)
    ensures ParseRows(lines, row, |rows|) == Success(rows[row..])
    decreases |rows| - row
  {
    if row < |rows| {
      var tail := SerializeRowsCons(rows, row, lines);
      ParseRowsOfLines(rows, tail, row + 1);
      ParseRowsCons(lines, row, |rows|, rows[row], rows[row + 1..]);
      SliceCons(rows, row);
    } else {
      assert rows[row..] == [];
    }
  }

  /** The lines written from row on: a line that reads back as that row, then the lines of the rows after it. */
  lemma SerializeRowsCons(rows: seq<seq<int>>, row: nat, lines: seq<string>) returns (tail: seq<string>)
    requires ValidTable(|rows|, rows) && row < |rows| && SerializeRows(rows, row) == Success(lines)
    ensures SerializeRows(rows, row + 1) == Success(tail)
    ensures lines != [] && lines[1..] == tail && ParseRow(lines[0], row) == Success(rows[row])
  {
    tail := SerializeRows(rows, row + 1).value;
    assert lines == [RowLine(rows[row])] + tail;
    ParseRowLine(rows[row], row);
  }

  /** Reading from row on: the row of the first line, then the rows of the lines after it. */
  lemma ParseRowsCons(lines: seq<string>, row: nat, n: nat, values: seq<int>, more: seq<seq<int>>)
    requires row < n && lines != []
    requires ParseRow(lines[0], row) == Success(values) && ParseRows(lines[1..], row + 1, n) == Success(more)
    ensures ParseRows(lines, row, n) == Success([values] + more)
  {
  }


  /** Reading the file written for a consistent table of Java ints gives back the table. */
  lemma RoundTrip(numEdos: int, rows: seq<seq<int>>)
    requires ValidTable(numEdos, rows)
    ensures Serialize(numEdos, Some(rows)).Success?
    ensures Deserialize(Serialize(numEdos, Some(rows)).value) == Success((numEdos, rows))
  {
    var lines := Serialize(numEdos, Some(rows)).value;
    var body := SerializeRows(rows, 0).value;
    assert lines[1..] == body;
    ParseIntToString(numEdos);
    var first := IntToString(numEdos);
    assert first[0] != '-' && !IsTrimmed(first[0]) && !IsTrimmed(first[|first| - 1]);
    TrimNoop(first);
    ParseRowsOfLines(rows, body, 0);
    assert rows[0..] == rows;
  }
}

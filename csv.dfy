/**
 * The `Collection::fromCsv` macro: the first CSV line is the header, and
 * every later line becomes a record that maps each header name to the field
 * in the same column (`array_combine`). Splitting the file into lines and
 * fields (`fgetcsv`) happens before this model starts: a file is given as
 * its parsed lines.
 */
module Csv {
  import opened Wrappers

  /** One parsed CSV line: its fields, left to right. */
  type Line = seq<string>

  /** One element of the collection: column name to field. */
  type Record = map<string, string>

  /** `array_combine` throws a ValueError when a line's width differs from the header's. */
  datatype CsvError = ColumnCountMismatch(row: nat)

  /** The keys of `m` are the names in `names`. */
  predicate KeysAre(m: Record, names: Line)
  {
    m.Keys == set name | name in names
  }

  /** Column `i` is the last column of `header` with that name. */
  predicate LastOfName(header: Line, i: nat)
    requires i < |header|
  {
    forall j :: i < j < |header| ==> header[j] != header[i]
  }

  /**
   * `array_combine($header, $row)`: None when the widths differ; otherwise
   * the map from every header name to its field, where a repeated name keeps
   * the field of its last column.
   */
  function Combine(header: Line, row: Line): (r: Option<Record>)
    ensures r.None? <==> |header| != |row|
    decreases |header|
  {
    if |header| != |row| then None
    else if |header| == 0 then Some(map[])
    else
      var n := |header| - 1;
      var p := Combine(header[..n], row[..n]);
      Some(p.value[header[n] := row[n]])
  }

  /** A combined record has exactly the header's names as keys. */
  lemma {:induction false} CombineKeys(header: Line, row: Line)
    requires |header| == |row|
    ensures KeysAre(Combine(header, row).value, header)
    decreases |header|
  {
    if |header| > 0 {
      var n := |header| - 1;
      CombineKeys(header[..n], row[..n]);
      var m := Combine(header, row).value;
      forall key ensures key in m.Keys <==> key in header {
        assert key in header[..n] ==> key in header;
        if key in header && key != header[n] {
          var k :| 0 <= k < |header| && header[k] == key;
          assert header[..n][k] == key;
        }
      }
    }
  }

  /** The field under a column's name is that column's field, unless a later column has the same name. */
  lemma {:induction false} CombineField(header: Line, row: Line, i: nat)
    requires |header| == |row| && i < |header| && LastOfName(header, i)
    ensures header[i] in Combine(header, row).value
    ensures Combine(header, row).value[header[i]] == row[i]
    decreases |header|
  {
    var n := |header| - 1;
    if i < n {
      assert header[..n][i] == header[i];
      assert LastOfName(header[..n], i);
      CombineField(header[..n], row[..n], i);
    }
  }

  /** With distinct header names every column's field is found under its name. */
  lemma CombineDistinct(header: Line, row: Line, i: nat)
    requires |header| == |row| && i < |header|
    requires forall a, b :: 0 <= a < b < |header| ==> header[a] != header[b]
    ensures header[i] in Combine(header, row).value && Combine(header, row).value[header[i]] == row[i]
  {
    CombineField(header, row, i);
  }

  /**
   * The records of the data lines under `header`, in line order; fails at the
   * first data line whose width differs from the header's.
   */
  function Records(header: Line, rows: seq<Line>): (r: Result<seq<Record>, CsvError>)
    ensures r.Success? <==> forall i :: 0 <= i < |rows| ==> |rows[i]| == |header|
    ensures r.Success? ==> |r.value| == |rows|
    ensures r.Failure? ==> r.error.row < |rows| && |rows[r.error.row]| != |header|
    ensures r.Failure? ==> forall i :: 0 <= i < r.error.row ==> |rows[i]| == |header|
    decreases |rows|
  {
    if |rows| == 0 then Success([])
    else
      var n := |rows| - 1;
      assert forall i :: 0 <= i < n ==> rows[..n][i] == rows[i];
      match Records(header, rows[..n])
      case Failure(e) => Failure(e)
      case Success(p) =>
        if |rows[n]| != |header| then Failure(ColumnCountMismatch(n))
        else Success(p + [Combine(header, rows[n]).value])
  }

  /** Record `i` is data line `i` combined with the header. */
  lemma {:induction false} RecordsCombine(header: Line, rows: seq<Line>, i: nat)
    requires Records(header, rows).Success? && i < |rows|
    ensures Combine(header, rows[i]) == Some(Records(header, rows).value[i])
    decreases |rows|
  {
    var n := |rows| - 1;
    if i < n {
      assert rows[..n][i] == rows[i];
      RecordsCombine(header, rows[..n], i);
    }
  }

  /** Every record carries exactly the header's names as keys. */
  lemma RecordKeys(header: Line, rows: seq<Line>, i: nat)
    requires Records(header, rows).Success? && i < |rows|
    ensures KeysAre(Records(header, rows).value[i], header)
  {
    RecordsCombine(header, rows, i);
    CombineKeys(header, rows[i]);
  }

  /** `Collection::fromCsv` over the lines of a file: no lines give no records. */
  function CsvRecords(lines: seq<Line>): (r: Result<seq<Record>, CsvError>)
    ensures |lines| <= 1 ==> r == Success([])
    ensures r.Success? ==> |r.value| == |lines| - 1 || |lines| == 0
  {
    if |lines| == 0 then Success([]) else Records(lines[0], lines[1..])
  }

  /**
   * Record `i` of a file is its line `i + 1` combined with the header line:
   * the header is never a record, and every record has the header's names.
   */
  lemma RecordOfLine(lines: seq<Line>, i: nat)
    requires CsvRecords(lines).Success? && i < |CsvRecords(lines).value|
    ensures |lines| >= 2 && i + 1 < |lines|
    ensures Combine(lines[0], lines[i + 1]) == Some(CsvRecords(lines).value[i])
    ensures KeysAre(CsvRecords(lines).value[i], lines[0])
  {
    RecordsCombine(lines[0], lines[1..], i);
    RecordKeys(lines[0], lines[1..], i);
  }

  /**
   * The `fromCsv` loop: reads the header, then combines every further line
   * with it, stopping at the first line `array_combine` rejects.
   */
  method FromCsv(lines: seq<Line>) returns (r: Result<seq<Record>, CsvError>)
    ensures r == CsvRecords(lines)
  {
    if |lines| == 0 {
      return Success([]);
    }
    var header := lines[0];
    var data: seq<Record> := [];
    var i := 1;
    while i < |lines|
      invariant 1 <= i <= |lines|
      invariant Records(header, lines[1..i]) == Success(data)
    {
      assert lines[1..i + 1][..i - 1] == lines[1..i];
      var m := Combine(header, lines[i]);
      if m.None? {
        assert lines[1..][i - 1] == lines[i];
        assert forall j :: 0 <= j < i - 1 ==> lines[1..][j] == lines[1..i][j];
        return Failure(ColumnCountMismatch(i - 1));
      }
      data := data + [m.value];
      i := i + 1;
    }
    assert lines[1..i] == lines[1..];
    return Success(data);
  }
}

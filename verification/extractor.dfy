/**
  The row extractor of the missile-data window: `storeExcelFileData` walks the sheet row by
  row, reads columns A..O of every row from index 148 on, keeps seven of them, and appends a
  `Row` to the window's `entireTable` when none of the seven is "Unknown".

  The spreadsheet reader is replaced by the rows it delivers (empty rows already skipped),
  each a sequence of cell texts. A cell text stands for its UTF-8 bytes, one `char` per
  byte, so the cuts below count bytes as `substr` and `erase` do. The floating-point step
  of `convertTime` (`static_cast<int>(atof(cell) * 86400)`) is the parameter `secondsOf`.
 */
module Extractor {
  import opened Wrappers
  import opened Text
  import opened Calendar

  /** 0-based index of the first data row. */
  const FirstDataRow: nat := 148
  /** The columns A..O read from every data row. */
  const ColumnCount: nat := 15
  const Unknown: string := "Unknown"

  /** One launch, as the table stores it. */
  datatype Row = Row(
    dateAndTimeInUtc: string,
    startingLocationCity: string,
    startingLocationCoordinates: string,
    landingLocation: string,
    distanceTraveledKm: string)

  /** The seven values the column loop leaves in its locals. */
  datatype Fields = Fields(
    date: string,
    timeInUtc: string,
    city: string,
    latitude: string,
    longitude: string,
    landingLocation: string,
    distance: string)

  /** The erase-remove of every apostrophe from the city name. */
  function StripApostrophes(s: string): string {
    if s == [] then []
    else
      (if s[0] == '\'' then [] else [s[0]]) + StripApostrophes(s[1..])
  }

  /** Stripping removes every apostrophe and nothing else: the other characters are kept as often as they occur. */
  lemma {:induction false} StripApostrophesCount(s: string)
    ensures multiset(StripApostrophes(s)) == multiset(s)['\'' := 0]
    decreases |s|
  {
    if s != [] {
      StripApostrophesCount(s[1..]);
      assert s == [s[0]] + s[1..];
      var head, rest := if s[0] == '\'' then [] else [s[0]], StripApostrophes(s[1..]);
      assert StripApostrophes(s) == head + rest;
      assert multiset(s) == multiset([s[0]]) + multiset(s[1..]);
      assert multiset(head + rest) == multiset(head) + multiset(rest);
    }
  }

  /** The stripped name holds exactly the characters of the name other than the apostrophe. */
  lemma StripApostrophesMembers(s: string)
    ensures forall c :: c in StripApostrophes(s) <==> c in s && c != '\''
  {
    StripApostrophesCount(s);
    forall c ensures c in StripApostrophes(s) <==> c in s && c != '\'' {
      assert c in StripApostrophes(s) <==> multiset(StripApostrophes(s))[c] > 0;
      assert c in s <==> multiset(s)[c] > 0;
    }
  }

  /** A name without apostrophes is left as it is. */
  lemma {:induction false} StripApostrophesNone(s: string)
    requires '\'' !in s
    ensures StripApostrophes(s) == s
    decreases |s|
  {
    if s != [] {
      assert s[1..] + [] == s[1..];
      assert '\'' !in s[1..] by {
        forall c | c in s[1..] ensures c in s {
          assert s == [s[0]] + s[1..];
        }
      }
      StripApostrophesNone(s[1..]);
      assert s == [s[0]] + s[1..];
    }
  }

  /** Stripping works piece by piece, so the kept characters stay in their order. */
  lemma {:induction false} StripApostrophesAppend(a: string, b: string)
    ensures StripApostrophes(a + b) == StripApostrophes(a) + StripApostrophes(b)
    decreases |a|
  {
    if a != [] {
      var head := if a[0] == '\'' then [] else [a[0]];
      assert (a + b)[0] == a[0] && (a + b)[1..] == a[1..] + b;
      StripApostrophesAppend(a[1..], b);
      assert StripApostrophes(a + b) == head + StripApostrophes(a[1..] + b);
    } else {
      assert a + b == b;
    }
  }

  /** `std::string::substr(0, n)`: at most the first n characters. */
  function Prefix(s: string, n: nat): (r: string)
    ensures |r| == if |s| < n then |s| else n
    ensures r <= s
  {
    if |s| < n then s else s[..n]
  }

  /** `erase(length() - 3)`: None is the out_of_range a text shorter than 3 throws. */
  function DropLast3(s: string): (r: Option<string>)
    ensures r.None? <==> |s| < 3
    ensures r.Some? ==> |r.value| + 3 == |s|
  {
    if |s| < 3 then None else Some(s[..|s| - 3])
  }

  /** The locals before the column loop: seven empty strings. */
  const NoFields := Fields("", "", "", "", "", "", "")

  /** The column loop from column `letter` on, with `acc` the values read so far. */
  function ReadColumns(cells: seq<string>, secondsOf: string -> int, letter: char, acc: Fields): Option<Fields>
    requires |cells| >= ColumnCount && 'A' <= letter <= 'P'
    decreases 'P' as int - letter as int, 2
  {
    if letter > 'O' then Some(acc) else ReadColumn(cells, secondsOf, letter, acc)
  }

  /**
    One pass of the column loop: B is the date serial, D the time, I the city, K and L the
    coordinates, M the landing location and O the distance; every other column is read and
    dropped.
   */
  function ReadColumn(cells: seq<string>, secondsOf: string -> int, letter: char, acc: Fields): Option<Fields>
    requires |cells| >= ColumnCount && 'A' <= letter <= 'O'
    decreases 'P' as int - letter as int, 1
  {
    var cellVal := cells[letter as int - 'A' as int];
    var next := (letter as int + 1) as char;
    if letter == 'B' then ReadDateColumn(cells, secondsOf, acc)
    else
      ReadColumns(cells, secondsOf, next,
        if letter == 'D' then acc.(timeInUtc := ConvertTime(secondsOf(cellVal)))
        else if letter == 'I' then acc.(city := StripApostrophes(cellVal))
        else if letter == 'K' then acc.(latitude := cellVal)
        else if letter == 'L' then acc.(longitude := cellVal)
        else if letter == 'M' then acc.(landingLocation := cellVal)
        else if letter == 'O' then acc.(distance := cellVal)
        else acc)
  }

  /** Column B: the loop goes on with the converted date, or stops when `convertDate` throws. */
  function ReadDateColumn(cells: seq<string>, secondsOf: string -> int, acc: Fields): Option<Fields>
    requires |cells| >= ColumnCount
    decreases 'P' as int - 'B' as int, 0
  {
    match DateText(cells[1])
    case None => None
    case Some(date) => ReadColumns(cells, secondsOf, 'C', acc.(date := date))
  }

  /** The values the column loop leaves for one row; None when `convertDate` throws. */
  function ReadFields(cells: seq<string>, secondsOf: string -> int): Option<Fields>
    requires |cells| >= ColumnCount
  {
    ReadColumns(cells, secondsOf, 'A', NoFields)
  }

  /** The acceptance test: none of the seven values is "Unknown". */
  predicate Complete(f: Fields) {
    && f.date != Unknown && f.timeInUtc != Unknown && f.city != Unknown
    && f.latitude != Unknown && f.longitude != Unknown
    && f.landingLocation != Unknown && f.distance != Unknown
  }

  /** The row built from accepted values; None when the distance is too short to cut. */
  function BuildRow(f: Fields): (r: Option<Row>)
    ensures r.None? <==> |f.distance| < 3
  {
    match DropLast3(f.distance)
    case None => None
    case Some(km) =>
      Some(Row(f.date + " " + f.timeInUtc, f.city,
               Prefix(f.latitude, 5) + ", " + Prefix(f.longitude, 6),
               f.landingLocation, km))
  }

  /** What one row does to the pass. */
  datatype Step = Skip | Throw | Reject | Append(row: Row)

  /** A data row throws (no date serial, or a distance too short to cut), is rejected, or is appended. */
  function RowStep(cells: seq<string>, secondsOf: string -> int): Step
    requires |cells| >= ColumnCount
  {
    match ReadFields(cells, secondsOf)
    case None => Throw
    case Some(f) =>
      if !Complete(f) then Reject
      else match BuildRow(f)
        case None => Throw
        case Some(row) => Append(row)
  }

  /** Every data row has the fifteen cells the column loop reads. */
  predicate WellFormedSheet(sheet: seq<seq<string>>) {
    forall i :: FirstDataRow <= i < |sheet| ==> |sheet[i]| >= ColumnCount
  }

  /** What row `i` of the sheet does: the rows before the first data row are skipped unread. */
  function StepAt(sheet: seq<seq<string>>, i: nat, secondsOf: string -> int): Step
    requires WellFormedSheet(sheet) && i < |sheet|
  {
    if i < FirstDataRow then Skip else RowStep(sheet[i], secondsOf)
  }

  /** What each row of the sheet does, in order. */
  function Steps(sheet: seq<seq<string>>, secondsOf: string -> int): (steps: seq<Step>)
    requires WellFormedSheet(sheet)
    ensures |steps| == |sheet|
  {
    seq(|sheet|, i requires 0 <= i < |sheet| => StepAt(sheet, i, secondsOf))
  }

  /**
    The state of the pass: the rows appended so far and, once an exception has escaped,
    the index of the row that threw it.
   */
  datatype Pass = Pass(table: seq<Row>, thrownAt: Option<nat>)

  /** The pass after the first `n` steps. */
  function Run(steps: seq<Step>, n: nat): Pass
    requires n <= |steps|
  {
    if n == 0 then Pass([], None)
    else
      var p := Run(steps, n - 1);
      if p.thrownAt.Some? then p
      else match steps[n - 1]
        case Skip => p
        case Throw => Pass(p.table, Some(n - 1))
        case Reject => p
        case Append(row) => Pass(p.table + [row], None)
  }

  /** The whole pass over a sheet. */
  function Extraction(sheet: seq<seq<string>>, secondsOf: string -> int): Pass
    requires WellFormedSheet(sheet)
  {
    Run(Steps(sheet, secondsOf), |sheet|)
  }

  /** The method with the column loop: the per-row part of `storeExcelFileData`. */
  method ReadCells(cells: seq<string>, secondsOf: string -> int) returns (f: Option<Fields>)
    requires |cells| >= ColumnCount
    ensures f == ReadFields(cells, secondsOf)
  {
    var date, timeInUtc, city, latitude, longitude, landing, distance := "", "", "", "", "", "", "";
    var letter := 'A';
    while letter <= 'O'
      invariant 'A' <= letter <= 'P'
      invariant ReadColumns(cells, secondsOf, letter, Fields(date, timeInUtc, city, latitude, longitude, landing, distance))
             == ReadFields(cells, secondsOf)
      decreases 'P' as int - letter as int
    {
      assert ReadColumns(cells, secondsOf, letter, Fields(date, timeInUtc, city, latitude, longitude, landing, distance))
          == ReadColumn(cells, secondsOf, letter, Fields(date, timeInUtc, city, latitude, longitude, landing, distance));
      var column := letter as int - 'A' as int;
      var cellVal := cells[column];
      if letter == 'B' {
        var converted := ConvertDate(cellVal);
        if converted.None? {
          return None;
        }
        date := converted.value;
      } else if letter == 'D' {
        timeInUtc := ConvertTime(secondsOf(cellVal));
      } else if letter == 'I' {
        city := StripApostrophes(cellVal);
      } else if letter == 'K' {
        latitude := cellVal;
      } else if letter == 'L' {
        longitude := cellVal;
      } else if letter == 'M' {
        landing := cellVal;
      } else if letter == 'O' {
        distance := cellVal;
      }
      letter := (letter as int + 1) as char;
    }
    f := Some(Fields(date, timeInUtc, city, latitude, longitude, landing, distance));
  }

  /** The per-row part of `storeExcelFileData`: the column loop, then the acceptance test. */
  method HandleRow(cells: seq<string>, secondsOf: string -> int) returns (step: Step)
    requires |cells| >= ColumnCount
    ensures step == RowStep(cells, secondsOf)
  {
    var fields := ReadCells(cells, secondsOf);
    if fields.None? {
      return Throw;
    }
    var f := fields.value;
    if !Complete(f) {
      return Reject;
    }
    var row := BuildRow(f);
    if row.None? {
      return Throw;
    }
    return Append(row.value);
  }

  /** The step of row `i`: rows before the first data row are not read. */
  method StepOfRow(sheet: seq<seq<string>>, i: nat, secondsOf: string -> int) returns (step: Step)
    requires WellFormedSheet(sheet) && i < |sheet|
    ensures step == StepAt(sheet, i, secondsOf)
  {
    step := Skip;
    if i >= FirstDataRow {
      step := HandleRow(sheet[i], secondsOf);
    }
  }

  /**
    The row loop of `storeExcelFileData`: the rows it appends, in order, and the index of the
    row whose exception ended the pass early (None when every row was handled).
   */
  method ExtractRows(sheet: seq<seq<string>>, secondsOf: string -> int) returns (table: seq<Row>, thrownAt: Option<nat>)
    requires WellFormedSheet(sheet)
    ensures table == Extraction(sheet, secondsOf).table
    ensures thrownAt == Extraction(sheet, secondsOf).thrownAt
  {
    table := [];
    ghost var steps := Steps(sheet, secondsOf);
    var currentRowNum := 0;
    while currentRowNum < |sheet|
      invariant 0 <= currentRowNum <= |sheet|
      invariant Run(steps, currentRowNum) == Pass(table, None)
    {
      var step := StepOfRow(sheet, currentRowNum, secondsOf);
      assert step == steps[currentRowNum];
      if step.Throw? {
        RunThrows(steps, currentRowNum, |sheet|);
        return table, Some(currentRowNum);
      }
      RunAdvance(steps, currentRowNum, step);
      if step.Append? {
        table := table + [step.row];
      }
      currentRowNum := currentRowNum + 1;
    }
    thrownAt := None;
  }

  /** The main window, reduced to the table the extraction fills. */
  class Window {
    var entireTable: seq<Row>

    constructor ()
      ensures entireTable == []
    {
      entireTable := [];
    }

    /**
      The row loop of `storeExcelFileData`. The result is the index of the row whose
      exception ended the pass early (None when every row was handled); whatever was
      appended before that row stays in the table.
     */
    method StoreExcelFileData(sheet: seq<seq<string>>, secondsOf: string -> int) returns (thrownAt: Option<nat>)
      requires WellFormedSheet(sheet)
      modifies this
      ensures entireTable == old(entireTable) + Extraction(sheet, secondsOf).table
      ensures thrownAt == Extraction(sheet, secondsOf).thrownAt
    {
      var table;
      table, thrownAt := ExtractRows(sheet, secondsOf);
      entireTable := entireTable + table;
    }
  }

  /** A step that does not throw appends its row, or nothing. */
  lemma RunAdvance(steps: seq<Step>, n: nat, step: Step)
    requires n < |steps| && steps[n] == step && !step.Throw?
    requires Run(steps, n).thrownAt == None
    ensures Run(steps, n + 1) == Pass(Run(steps, n).table + (if step.Append? then [step.row] else []), None)
  {
    if !step.Append? {
      assert Run(steps, n).table + [] == Run(steps, n).table;
    }
  }

  /** A step that throws ends the pass with what was appended before it. */
  lemma RunThrows(steps: seq<Step>, n: nat, m: nat)
    requires n < m <= |steps| && steps[n].Throw?
    requires Run(steps, n).thrownAt == None
    ensures Run(steps, m) == Pass(Run(steps, n).table, Some(n))
  {
    RunStaysThrown(steps, n + 1, m);
  }

  /** Once an exception has ended the pass, later rows change nothing. */
  lemma {:induction false} RunStaysThrown(steps: seq<Step>, n: nat, m: nat)
    requires n <= m <= |steps|
    requires Run(steps, n).thrownAt.Some?
    ensures Run(steps, m) == Run(steps, n)
    decreases m - n
  {
    if n < m {
      RunStaysThrown(steps, n, m - 1);
    }
  }

  /** Once a pass has handled `n` rows, later rows only add to its table. */
  lemma {:induction false} RunGrows(steps: seq<Step>, n: nat, m: nat)
    requires n <= m <= |steps|
    ensures Run(steps, n).table <= Run(steps, m).table
    ensures Run(steps, n).thrownAt.Some? ==> Run(steps, m) == Run(steps, n)
    decreases m - n
  {
    if n < m {
      RunGrows(steps, n, m - 1);
      var t := Run(steps, m - 1).table;
      assert t <= Run(steps, m).table by {
        if Run(steps, m).table != t {
          assert Run(steps, m).table == t + [steps[m - 1].row];
        }
      }
    }
  }

  /** The rows the first `n` steps append, in their order: the filter-map of the steps. */
  function Kept(steps: seq<Step>, n: nat): (rows: seq<Row>)
    requires n <= |steps|
    ensures |rows| <= n
  {
    if n == 0 then []
    else Kept(steps, n - 1) + (if steps[n - 1].Append? then [steps[n - 1].row] else [])
  }

  /** A row is kept exactly when one of the steps appends it. */
  lemma {:induction false} KeptRows(steps: seq<Step>, n: nat, r: Row)
    requires n <= |steps|
    ensures r in Kept(steps, n) <==> exists i :: 0 <= i < n && steps[i] == Append(r)
    decreases n
  {
    if n > 0 {
      KeptRows(steps, n - 1, r);
      if exists i :: 0 <= i < n && steps[i] == Append(r) {
        var i :| 0 <= i < n && steps[i] == Append(r);
        if i == n - 1 {
          assert r in Kept(steps, n);
        }
      }
    }
  }

  /** The index of the first of the first `n` steps that throws; `n` when none does. */
  function FirstThrow(steps: seq<Step>, n: nat): (k: nat)
    requires n <= |steps|
    ensures k <= n
    ensures forall j :: 0 <= j < k ==> !steps[j].Throw?
    ensures k < n ==> steps[k].Throw?
  {
    if n == 0 then 0
    else
      var k := FirstThrow(steps, n - 1);
      if k < n - 1 then k else if steps[n - 1].Throw? then n - 1 else n
  }

  /**
    The pass is the filter-map of its steps up to the first one that throws: its table holds
    the rows appended before that step, and it records that step's index.
   */
  lemma {:induction false} RunIsFilterMap(steps: seq<Step>, n: nat)
    requires n <= |steps|
    ensures var k := FirstThrow(steps, n);
      Run(steps, n) == Pass(Kept(steps, k), if k < n then Some(k) else None)
    decreases n
  {
    if n > 0 {
      RunIsFilterMap(steps, n - 1);
    }
  }

  /**
    `storeExcelFileData` as a filter-map of the sheet: the rows appended by the data rows
    before the first row that throws, in sheet order, and that row's index.
   */
  lemma ExtractionIsFilterMap(sheet: seq<seq<string>>, secondsOf: string -> int)
    requires WellFormedSheet(sheet)
    ensures var steps := Steps(sheet, secondsOf); var k := FirstThrow(steps, |sheet|);
      Extraction(sheet, secondsOf) == Pass(Kept(steps, k), if k < |sheet| then Some(k) else None)
  {
    RunIsFilterMap(Steps(sheet, secondsOf), |sheet|);
  }

  /** The rows before the first data row are never read: changing them changes nothing. */
  lemma HeaderIgnored(sheet: seq<seq<string>>, other: seq<seq<string>>, secondsOf: string -> int)
    requires WellFormedSheet(sheet) && WellFormedSheet(other)
    requires |sheet| == |other|
    requires forall i :: FirstDataRow <= i < |sheet| ==> sheet[i] == other[i]
    ensures Extraction(sheet, secondsOf) == Extraction(other, secondsOf)
  {
    assert Steps(sheet, secondsOf) == Steps(other, secondsOf);
  }

  /** The text cut from the distance is its last three characters. */
  lemma DropLast3Suffix(s: string)
    requires |s| >= 3
    ensures DropLast3(s).value + s[|s| - 3..] == s
  {
    assert s[..|s| - 3] + s[|s| - 3..] == s;
  }

  /** From column C on the loop cannot throw; it reads D, I, K, L, M and O if it has not passed them. */
  lemma {:induction false} ReadColumnsAfterDate(cells: seq<string>, secondsOf: string -> int, letter: char, acc: Fields)
    requires |cells| >= ColumnCount && 'C' <= letter <= 'P'
    ensures ReadColumns(cells, secondsOf, letter, acc) == Some(Fields(
      acc.date,
      if letter <= 'D' then ConvertTime(secondsOf(cells[3])) else acc.timeInUtc,
      if letter <= 'I' then StripApostrophes(cells[8]) else acc.city,
      if letter <= 'K' then cells[10] else acc.latitude,
      if letter <= 'L' then cells[11] else acc.longitude,
      if letter <= 'M' then cells[12] else acc.landingLocation,
      if letter <= 'O' then cells[14] else acc.distance))
    decreases 'P' as int - letter as int
  {
    if letter <= 'O' {
      var next := (letter as int + 1) as char;
      var acc' :=
        if letter == 'D' then acc.(timeInUtc := ConvertTime(secondsOf(cells[3])))
        else if letter == 'I' then acc.(city := StripApostrophes(cells[8]))
        else if letter == 'K' then acc.(latitude := cells[10])
        else if letter == 'L' then acc.(longitude := cells[11])
        else if letter == 'M' then acc.(landingLocation := cells[12])
        else if letter == 'O' then acc.(distance := cells[14])
        else acc;
      assert ReadColumns(cells, secondsOf, letter, acc) == ReadColumns(cells, secondsOf, next, acc');
      ReadColumnsAfterDate(cells, secondsOf, next, acc');
      assert next as int == letter as int + 1;
    }
  }

  /**
    Which column feeds which value: B the date (the loop throws when it is not a number),
    D the time, I the city without apostrophes, K, L, M and O as they are.
   */
  lemma ReadFieldsRule(cells: seq<string>, secondsOf: string -> int)
    requires |cells| >= ColumnCount
    ensures ReadFields(cells, secondsOf) ==
      match DateText(cells[1])
      case None => None
      case Some(date) =>
        Some(Fields(date, ConvertTime(secondsOf(cells[3])), StripApostrophes(cells[8]),
                    cells[10], cells[11], cells[12], cells[14]))
  {
    assert ReadFields(cells, secondsOf) == ReadColumns(cells, secondsOf, 'B', NoFields);
    assert ReadColumns(cells, secondsOf, 'B', NoFields) == ReadDateColumn(cells, secondsOf, NoFields);
    match DateText(cells[1])
    case None =>
    case Some(date) =>
      ReadColumnsAfterDate(cells, secondsOf, 'C', NoFields.(date := date));
  }

  /** The converted date and time are never "Unknown": they have ten and at least eight characters. */
  lemma ConvertedNeverUnknown(excelDate: string, totalSeconds: int)
    ensures DateText(excelDate).Some? ==> DateText(excelDate).value != Unknown
    ensures ConvertTime(totalSeconds) != Unknown
  {
  }

  /**
    The fate of a data row: it throws when its date is not a number, it is rejected when
    one of the five text values is "Unknown", it throws when the distance is too short to
    cut, and otherwise it appends the row built from its cells.
   */
  lemma RowStepRule(cells: seq<string>, secondsOf: string -> int)
    requires |cells| >= ColumnCount
    ensures
      var date := DateText(cells[1]);
      var city := StripApostrophes(cells[8]);
      var distance := cells[14];
      RowStep(cells, secondsOf) ==
        if date.None? then Throw
        else if city == Unknown || cells[10] == Unknown || cells[11] == Unknown
             || cells[12] == Unknown || distance == Unknown then Reject
        else if |distance| < 3 then Throw
        else Append(Row(
          date.value + " " + ConvertTime(secondsOf(cells[3])),
          city,
          Prefix(cells[10], 5) + ", " + Prefix(cells[11], 6),
          cells[12],
          distance[..|distance| - 3]))
  {
    ReadFieldsRule(cells, secondsOf);
    ConvertedNeverUnknown(cells[1], secondsOf(cells[3]));
  }
}

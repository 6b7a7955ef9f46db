/** The column list of a table request: filtering it in place, printing it as SQL, splitting it back,
    and pivoting the result rows into one array a column. */
module Columns {
  import opened Types
  import opened Seqs

  const DB_COLUMNS: seq<string> := [
    "id", "date", "WF_counter", "PP_capacity", "PP_capacity_avg", "TK_volume",
    "PP_ON_ACC", "PP_RUN_MAX", "PP_RUN_MIN", "PP_RUN_AT_PULSE", "alarms"]

  predicate IsInColumns(name: string) {
    name in DB_COLUMNS
  }

  /** A JSON array of strings, changed in place. */
  class JsonArray {
    var elems: seq<string>

    constructor (elems: seq<string>)
      ensures this.elems == elems
    {
      this.elems := elems;
    }

    method Remove(idx: nat)
      requires idx < |elems|
      modifies this
      ensures elems == old(elems[..idx] + elems[idx + 1..])
    {
      elems := elems[..idx] + elems[idx + 1..];
    }
  }

  /** The known names of a list, in order. */
  function Known(names: seq<string>): seq<string> {
    if names == [] then []
    else (if IsInColumns(names[0]) then [names[0]] else []) + Known(names[1..])
  }

  /** Names with commas between them. */
  function Join(names: seq<string>): string {
    if names == [] then ""
    else if |names| == 1 then names[0]
    else names[0] + "," + Join(names[1..])
  }

  /** The list as the loop prints it: a space, then the names with commas between them. */
  function ListOf(names: seq<string>): string {
    if names == [] then "" else " " + Join(names)
  }

  lemma {:induction false} JoinSnoc(names: seq<string>, x: string)
    requires names != []
    ensures Join(names + [x]) == Join(names) + "," + x
    decreases |names|
  {
    TailOfConcat(names, [x]);
    if |names| == 1 {
      assert names[1..] == [];
      assert [] + [x] == [x];
    } else {
      JoinSnoc(names[1..], x);
      ConcatAssociates(names[0] + ",", Join(names[1..]), "," + x);
    }
  }

  lemma ListSnoc(names: seq<string>, x: string)
    ensures ListOf(names + [x]) == ListOf(names) + (if names == [] then " " else ",") + x
  {
    if names == [] {
      assert [] + [x] == [x];
    } else {
      JoinSnoc(names, x);
    }
  }

  lemma {:induction false} KnownAreKnown(names: seq<string>)
    ensures forall x :: x in Known(names) ==> IsInColumns(x)
    decreases |names|
  {
    if names != [] { KnownAreKnown(names[1..]); }
  }

  lemma {:induction false} KnownPrefix(done: seq<string>, rest: seq<string>)
    requires forall x :: x in done ==> IsInColumns(x)
    ensures Known(done + rest) == done + Known(rest)
    decreases |done|
  {
    if done == [] {
      EmptyIsNeutral(rest);
      EmptyIsNeutral(Known(rest));
    } else {
      TailOfConcat(done, rest);
      KnownPrefix(done[1..], rest);
      HeadAndTail(done);
      ConcatAssociates([done[0]], done[1..], Known(rest));
    }
  }

  /** Which names are known, and that the others are dropped one by one, in place. */
  lemma KnownIs(a: seq<string>, x: string, b: seq<string>)
    ensures Known(a + [x] + b) ==
              if x in ["id", "date", "WF_counter", "PP_capacity", "PP_capacity_avg", "TK_volume",
                       "PP_ON_ACC", "PP_RUN_MAX", "PP_RUN_MIN", "PP_RUN_AT_PULSE", "alarms"]
              then Known(a) + [x] + Known(b) else Known(a) + Known(b)
  {
    hide IsInColumns;
    KnownConcat(a + [x], b);
    KnownConcat(a, [x]);
    ColumnNames(x);
    EmptyIsNeutral(Known(a));
    assert [x][1..] == [];
    EmptyIsNeutral([x]);
  }

  lemma ColumnNames(x: string)
    ensures IsInColumns(x) <==>
              x in ["id", "date", "WF_counter", "PP_capacity", "PP_capacity_avg", "TK_volume",
                    "PP_ON_ACC", "PP_RUN_MAX", "PP_RUN_MIN", "PP_RUN_AT_PULSE", "alarms"]
  {
  }

  lemma {:induction false} KnownConcat(a: seq<string>, b: seq<string>)
    ensures Known(a + b) == Known(a) + Known(b)
    decreases |a|
  {
    hide IsInColumns;
    if a == [] {
      EmptyIsNeutral(b);
      EmptyIsNeutral(Known(b));
    } else {
      TailOfConcat(a, b);
      KnownConcat(a[1..], b);
      ConcatAssociates(if IsInColumns(a[0]) then [a[0]] else [], Known(a[1..]), Known(b));
    }
  }

  /** The names before idx are known and printed, and nothing known was lost. */
  ghost predicate Scanned(elems: seq<string>, idx: nat, all: seq<string>, sql: string, colon: string, counter: bool) {
    && idx <= |elems|
    && (forall x :: x in elems[..idx] ==> IsInColumns(x))
    && Known(elems) == all
    && sql == ListOf(elems[..idx])
    && colon == (if idx == 0 then " " else ",")
    && (counter <==> "WF_counter" in elems[..idx])
  }

  lemma ScanKeeps(elems: seq<string>, idx: nat, all: seq<string>, sql: string, colon: string, counter: bool)
    requires Scanned(elems, idx, all, sql, colon, counter) && idx < |elems| && IsInColumns(elems[idx])
    ensures Scanned(elems, idx + 1, all, sql + colon + elems[idx], ",", counter || elems[idx] == "WF_counter")
  {
    PrefixStep(elems, idx);
    ListSnoc(elems[..idx], elems[idx]);
  }

  lemma ScanDrops(elems: seq<string>, idx: nat, all: seq<string>, sql: string, colon: string, counter: bool)
    requires Scanned(elems, idx, all, sql, colon, counter) && idx < |elems| && !IsInColumns(elems[idx])
    ensures Scanned(elems[..idx] + elems[idx + 1..], idx, all, sql, colon, counter)
  {
    RemovedParts(elems, idx);
    SplitsAt(elems, idx);
    KnownPrefix(elems[..idx], elems[idx..]);
    KnownPrefix(elems[..idx], elems[idx + 1..]);
    TailOfConcat([elems[idx]], elems[idx + 1..]);
    EmptyIsNeutral(elems[idx + 1..]);
    EmptyIsNeutral(Known(elems[idx + 1..]));
  }

  lemma ScanEnds(elems: seq<string>, all: seq<string>, sql: string, colon: string, counter: bool)
    requires Scanned(elems, |elems|, all, sql, colon, counter)
    ensures elems == all && sql == ListOf(elems) && (counter <==> "WF_counter" in elems)
  {
    assert elems[..|elems|] == elems;
    KnownPrefix(elems, []);
    EmptyIsNeutral(elems);
  }

  /** Removes unknown names in place, and prints the rest; counterListed says whether WF_counter is there. */
  method FilterColumns(arr: JsonArray) returns (sql: string, counterListed: bool)
    modifies arr
    ensures arr.elems == Known(old(arr.elems))
    ensures sql == ListOf(arr.elems)
    ensures counterListed <==> "WF_counter" in arr.elems
  {
    hide Scanned, IsInColumns, ListOf;
    ghost var all := Known(arr.elems);
    var colon := " ";
    var idx := 0;
    sql := "";
    counterListed := false;
    ScanBegins(arr.elems);
    while idx < |arr.elems|
      invariant idx <= |arr.elems| && Scanned(arr.elems, idx, all, sql, colon, counterListed)
      decreases |arr.elems| - idx
    {
      var elem := arr.elems[idx];
      if IsInColumns(elem) {
        ScanKeeps(arr.elems, idx, all, sql, colon, counterListed);
        OnlyCounterStartsSo(elem);
        sql := sql + colon + elem;
        if |elem| >= 10 && elem[..10] == "WF_counter" { counterListed := true; }
        colon := ",";
        idx := idx + 1;
      } else {
        ScanDrops(arr.elems, idx, all, sql, colon, counterListed);
        arr.Remove(idx);
      }
    }
    ScanEnds(arr.elems, all, sql, colon, counterListed);
  }

  lemma ScanBegins(elems: seq<string>)
    ensures Scanned(elems, 0, Known(elems), "", " ", false)
  {
  }

  lemma RemovedParts<T>(s: seq<T>, i: nat)
    requires i < |s|
    ensures s[i..] == [s[i]] + s[i + 1..]
    ensures (s[..i] + s[i + 1..])[..i] == s[..i]
  {
  }

  /** The ten-character comparison recognises WF_counter and no other column. */
  lemma OnlyCounterStartsSo(name: string)
    requires IsInColumns(name)
    ensures (|name| >= 10 && name[..10] == "WF_counter") <==> name == "WF_counter"
  {
    if name == "WF_counter" {
      assert name[..10] == name;
    }
    if |name| >= 10 && name[..10] == "WF_counter" {
      assert name[0] == name[..10][0] == 'W';
    }
  }

  // ---------- splitting the list back ----------

  /** The index of the first comma, or the length. */
  function CommaAt(s: string): (i: nat)
    ensures i <= |s|
    ensures forall j :: 0 <= j < i ==> s[j] != ','
    ensures i < |s| ==> s[i] == ','
  {
    if s == "" || s[0] == ',' then 0 else 1 + CommaAt(s[1..])
  }

  function TrimLeft(s: string): string {
    if s != "" && s[0] == ' ' then TrimLeft(s[1..]) else s
  }

  function TrimRight(s: string): string {
    if s != "" && s[|s| - 1] == ' ' then TrimRight(s[..|s| - 1]) else s
  }

  function Trim(s: string): string {
    TrimLeft(TrimRight(s))
  }

  /** The pieces between commas, trimmed. */
  function FieldNames(s: string): seq<string>
    decreases |s|
  {
    if CommaAt(s) == |s| then [Trim(s)] else [Trim(s[..CommaAt(s)])] + FieldNames(s[CommaAt(s) + 1..])
  }

  /** A name that splitting and trimming leaves alone. */
  predicate Proper(name: string) {
    name != "" && ',' !in name && name[0] != ' ' && name[|name| - 1] != ' '
  }

  lemma KnownAreProper(name: string)
    requires IsInColumns(name)
    ensures Proper(name)
  {
  }

  lemma NoComma(s: string)
    requires ',' !in s
    ensures CommaAt(s) == |s|
  {
  }

  lemma CommaAfter(a: string, b: string)
    requires ',' !in a
    ensures CommaAt(a + "," + b) == |a|
    ensures (a + "," + b)[..|a|] == a && (a + "," + b)[|a| + 1..] == b
  {
    assert (a + "," + b)[|a|] == ',';
    assert forall j :: 0 <= j < |a| ==> (a + "," + b)[j] == a[j];
  }

  lemma TrimKeepsProper(name: string)
    requires Proper(name)
    ensures Trim(name) == name
    ensures Trim(" " + name) == name
  {
    assert (" " + name)[1..] == name;
    assert TrimRight(" " + name) == " " + name;
  }

  /** Splitting a list of names, each perhaps with a space before it, and trimming gives the names back. */
  lemma {:induction false} SplitGivesNamesBack(pieces: seq<string>, names: seq<string>)
    requires names != [] && |pieces| == |names|
    requires forall i :: 0 <= i < |names| ==>
               Proper(names[i]) && (pieces[i] == names[i] || pieces[i] == " " + names[i])
    ensures FieldNames(Join(pieces)) == names
    decreases |names|
  {
    hide Trim;
    TrimKeepsProper(names[0]);
    SpaceIsNoComma(names[0]);
    if |names| == 1 {
      NoComma(pieces[0]);
    } else {
      SplitGivesNamesBack(pieces[1..], names[1..]);
      CommaAfter(pieces[0], Join(pieces[1..]));
      HeadAndTail(names);
    }
  }

  lemma SpaceIsNoComma(s: string)
    ensures ',' in " " + s <==> ',' in s
  {
    if ',' in s {
      var i :| 0 <= i < |s| && s[i] == ',';
      assert (" " + s)[i + 1] == ',';
    }
  }

  /** The printed column list of a table request gives its names back. */
  lemma ListGivesNamesBack(names: seq<string>)
    requires names != [] && forall x :: x in names ==> IsInColumns(x)
    ensures FieldNames(ListOf(names)) == names
  {
    var pieces := [" " + names[0]] + names[1..];
    hide Proper, IsInColumns, FieldNames;
    HeadAndTail(names);
    TailOfConcat([" " + names[0]], names[1..]);
    EmptyIsNeutral(names[1..]);
    if |names| > 1 {
      ConcatAssociates(" ", names[0] + ",", Join(names[1..]));
      ConcatAssociates(" ", names[0], ",");
    }
    assert Join(pieces) == ListOf(names);
    forall i | 0 <= i < |names| ensures Proper(names[i]) {
      assert names[i] in names;
      KnownAreProper(names[i]);
    }
    SplitGivesNamesBack(pieces, names);
  }

  // ---------- the answer ----------

  /** A stored value as the query returns it; its text form is not modelled. */
  datatype Cell = IntCell(int) | WordCell(bv64) | RealCell(Float) | CentiCell(int16) | NoCell

  function CellOf(row: Row, name: string): Cell {
    match name
    case "id" => IntCell(row.id)
    case "date" => IntCell(row.date)
    case "WF_counter" => IntCell(row.counter)
    case "PP_capacity" => RealCell(row.capacity)
    case "PP_capacity_avg" => RealCell(row.capacityAvg)
    case "TK_volume" => RealCell(row.volume)
    case "PP_ON_ACC" => CentiCell(row.timeouts[0])
    case "PP_RUN_MAX" => CentiCell(row.timeouts[1])
    case "PP_RUN_MIN" => CentiCell(row.timeouts[2])
    case "PP_RUN_AT_PULSE" => CentiCell(row.timeouts[3])
    case "alarms" => WordCell(row.alarms)
    case _ => NoCell
  }

  type Data = map<string, seq<Cell>>

  /** How often a name is listed. */
  function Times(names: seq<string>, x: string): nat {
    if names == [] then 0
    else Times(names[..|names| - 1], x) + if names[|names| - 1] == x then 1 else 0
  }

  /** What one result row adds to a column: its value, once for each time the name is listed. */
  function Copies(row: Row, names: seq<string>, x: string): seq<Cell> {
    if names == [] then []
    else Copies(row, names[..|names| - 1], x) + if names[|names| - 1] == x then [CellOf(row, x)] else []
  }

  function Column(rows: seq<Row>, names: seq<string>, x: string): seq<Cell> {
    if rows == [] then [] else Column(rows[..|rows| - 1], names, x) + Copies(rows[|rows| - 1], names, x)
  }

  /** One array a name, holding its values of every row in turn. */
  function Pivot(rows: seq<Row>, names: seq<string>): Data {
    map x | x in names :: Column(rows, names, x)
  }

  ghost predicate DistinctNames(names: seq<string>) {
    forall i, j :: 0 <= i < j < |names| ==> names[i] != names[j]
  }

  lemma {:induction false} CopiesCount(row: Row, names: seq<string>, x: string)
    ensures |Copies(row, names, x)| == Times(names, x)
    decreases |names|
  {
    if names != [] { CopiesCount(row, names[..|names| - 1], x); }
  }

  /** A column is as long as the result, times how often its name is listed. */
  lemma {:induction false} ColumnLength(rows: seq<Row>, names: seq<string>, x: string)
    ensures |Column(rows, names, x)| == |rows| * Times(names, x)
    decreases |rows|
  {
    if rows != [] {
      ColumnLength(rows[..|rows| - 1], names, x);
      CopiesCount(rows[|rows| - 1], names, x);
      hide Copies, Times;
      OneMoreTime(|rows|, Times(names, x));
    }
  }

  lemma OneMoreTime(n: int, t: int)
    ensures n * t == (n - 1) * t + t
  {
  }

  lemma {:induction false} NotListed(row: Row, names: seq<string>, x: string)
    requires x !in names
    ensures Copies(row, names, x) == [] && Times(names, x) == 0
    decreases |names|
  {
    if names != [] { NotListed(row, names[..|names| - 1], x); }
  }

  lemma {:induction false} ListedOnce(row: Row, names: seq<string>, x: string)
    requires DistinctNames(names) && x in names
    ensures Copies(row, names, x) == [CellOf(row, x)] && Times(names, x) == 1
    decreases |names|
  {
    hide CellOf;
    var init := names[..|names| - 1];
    InitAndLast(names);
    if names[|names| - 1] == x { NotListed(row, init, x); } else { ListedOnce(row, init, x); }
  }

  /** When no name is listed twice the answer is rectangular: the transpose of the result rows. */
  lemma {:induction false} PivotIsTranspose(rows: seq<Row>, names: seq<string>, x: string)
    requires DistinctNames(names) && x in names
    ensures Times(names, x) == 1 && x in Pivot(rows, names) && |Pivot(rows, names)[x]| == |rows|
    ensures forall i :: 0 <= i < |rows| ==> Pivot(rows, names)[x][i] == CellOf(rows[i], x)
    decreases |rows|
  {
    hide CellOf, Copies, Times, DistinctNames;
    if rows == [] {
      ListedOnce(Row(0, 0, 0, Zero, Zero, Zero, [0, 0, 0, 0], 0), names, x);
    } else {
      PivotIsTranspose(rows[..|rows| - 1], names, x);
      ListedOnce(rows[|rows| - 1], names, x);
    }
  }

  lemma CellsTellRows(x: Row, y: Row)
    requires forall i :: 0 <= i < |DB_COLUMNS| ==> CellOf(x, DB_COLUMNS[i]) == CellOf(y, DB_COLUMNS[i])
    ensures x == y
  {
    CellsByPosition(x);
    CellsByPosition(y);
    hide CellOf;
    forall i | 0 <= i < 4 ensures x.timeouts[i] == y.timeouts[i] {
      assert CellOf(x, DB_COLUMNS[6 + i]) == CellOf(y, DB_COLUMNS[6 + i]);
    }
    assert x.timeouts == y.timeouts;
  }

  /** The columns in table order hold the row's fields in record order, the four timeouts spread out. */
  lemma CellsByPosition(r: Row)
    ensures CellOf(r, DB_COLUMNS[0]) == IntCell(r.id) && CellOf(r, DB_COLUMNS[1]) == IntCell(r.date)
    ensures CellOf(r, DB_COLUMNS[2]) == IntCell(r.counter) && CellOf(r, DB_COLUMNS[3]) == RealCell(r.capacity)
    ensures CellOf(r, DB_COLUMNS[4]) == RealCell(r.capacityAvg) && CellOf(r, DB_COLUMNS[5]) == RealCell(r.volume)
    ensures forall i :: 0 <= i < 4 ==> CellOf(r, DB_COLUMNS[6 + i]) == CentiCell(r.timeouts[i])
    ensures CellOf(r, DB_COLUMNS[10]) == WordCell(r.alarms)
  {
  }

  /** What the columns of an answer show, by name. */
  lemma PivotShows(rows: seq<Row>, names: seq<string>, i: nat)
    requires DistinctNames(names) && i < |rows|
    ensures var data := Pivot(rows, names);
            && ("id" in names ==> "id" in data && |data["id"]| == |rows| && data["id"][i] == IntCell(rows[i].id))
            && ("date" in names ==> "date" in data && |data["date"]| == |rows| && data["date"][i] == IntCell(rows[i].date))
            && ("WF_counter" in names ==>
                  "WF_counter" in data && |data["WF_counter"]| == |rows| && data["WF_counter"][i] == IntCell(rows[i].counter))
            && ("alarms" in names ==>
                  "alarms" in data && |data["alarms"]| == |rows| && data["alarms"][i] == WordCell(rows[i].alarms))
  {
    hide Pivot, DistinctNames;
    if "id" in names { PivotIsTranspose(rows, names, "id"); }
    if "date" in names { PivotIsTranspose(rows, names, "date"); }
    if "WF_counter" in names { PivotIsTranspose(rows, names, "WF_counter"); }
    if "alarms" in names { PivotIsTranspose(rows, names, "alarms"); }
  }

  /** Likewise for the readings of the pump and the tank. */
  lemma PivotShowsReadings(rows: seq<Row>, names: seq<string>, i: nat)
    requires DistinctNames(names) && i < |rows|
    ensures var data := Pivot(rows, names);
            && ("PP_capacity" in names ==> "PP_capacity" in data && |data["PP_capacity"]| == |rows|
                                           && data["PP_capacity"][i] == RealCell(rows[i].capacity))
            && ("PP_capacity_avg" in names ==> "PP_capacity_avg" in data && |data["PP_capacity_avg"]| == |rows|
                                               && data["PP_capacity_avg"][i] == RealCell(rows[i].capacityAvg))
            && ("TK_volume" in names ==> "TK_volume" in data && |data["TK_volume"]| == |rows|
                                         && data["TK_volume"][i] == RealCell(rows[i].volume))
  {
    hide Pivot, DistinctNames;
    if "PP_capacity" in names { PivotIsTranspose(rows, names, "PP_capacity"); }
    if "PP_capacity_avg" in names { PivotIsTranspose(rows, names, "PP_capacity_avg"); }
    if "TK_volume" in names { PivotIsTranspose(rows, names, "TK_volume"); }
  }

  /** Likewise for the four timeouts. */
  lemma PivotShowsTimeouts(rows: seq<Row>, names: seq<string>, i: nat)
    requires DistinctNames(names) && i < |rows|
    ensures var data := Pivot(rows, names);
            && ("PP_ON_ACC" in names ==> "PP_ON_ACC" in data && |data["PP_ON_ACC"]| == |rows|
                                         && data["PP_ON_ACC"][i] == CentiCell(rows[i].timeouts[0]))
            && ("PP_RUN_MAX" in names ==> "PP_RUN_MAX" in data && |data["PP_RUN_MAX"]| == |rows|
                                          && data["PP_RUN_MAX"][i] == CentiCell(rows[i].timeouts[1]))
            && ("PP_RUN_MIN" in names ==> "PP_RUN_MIN" in data && |data["PP_RUN_MIN"]| == |rows|
                                          && data["PP_RUN_MIN"][i] == CentiCell(rows[i].timeouts[2]))
            && ("PP_RUN_AT_PULSE" in names ==> "PP_RUN_AT_PULSE" in data && |data["PP_RUN_AT_PULSE"]| == |rows|
                                               && data["PP_RUN_AT_PULSE"][i] == CentiCell(rows[i].timeouts[3]))
  {
    hide Pivot, DistinctNames;
    if "PP_ON_ACC" in names { PivotIsTranspose(rows, names, "PP_ON_ACC"); }
    if "PP_RUN_MAX" in names { PivotIsTranspose(rows, names, "PP_RUN_MAX"); }
    if "PP_RUN_MIN" in names { PivotIsTranspose(rows, names, "PP_RUN_MIN"); }
    if "PP_RUN_AT_PULSE" in names { PivotIsTranspose(rows, names, "PP_RUN_AT_PULSE"); }
  }

  lemma ColumnsAreDistinct()
    ensures DistinctNames(DB_COLUMNS)
  {
  }

  /** An answer with every column determines its rows: the transpose loses nothing and mixes nothing up. */
  lemma PivotDeterminesRows(a: seq<Row>, b: seq<Row>)
    requires Pivot(a, DB_COLUMNS) == Pivot(b, DB_COLUMNS)
    ensures a == b
  {
    ColumnsAreDistinct();
    hide CellOf, DistinctNames, Pivot;
    PivotIsTranspose(a, DB_COLUMNS, DB_COLUMNS[0]);
    PivotIsTranspose(b, DB_COLUMNS, DB_COLUMNS[0]);
    forall k | 0 <= k < |DB_COLUMNS|
      ensures forall i :: 0 <= i < |a| ==> CellOf(a[i], DB_COLUMNS[k]) == CellOf(b[i], DB_COLUMNS[k])
    {
      PivotIsTranspose(a, DB_COLUMNS, DB_COLUMNS[k]);
      PivotIsTranspose(b, DB_COLUMNS, DB_COLUMNS[k]);
    }
    forall i | 0 <= i < |a| ensures a[i] == b[i] {
      CellsTellRows(a[i], b[i]);
    }
  }

  /** The row callback has appended the first n values of a row to the columns of the rows before. */
  ghost predicate Filling(data: Data, rows: seq<Row>, row: Row, names: seq<string>, n: nat) {
    && n <= |names|
    && data.Keys == (set x | x in names)
    && forall x :: x in names ==> x in data && data[x] == Column(rows, names, x) + Copies(row, names[..n], x)
  }

  lemma FillingStep(data: Data, rows: seq<Row>, row: Row, names: seq<string>, n: nat)
    requires n < |names| && Filling(data, rows, row, names, n)
    ensures names[n] in data
    ensures Filling(data[names[n] := data[names[n]] + [CellOf(row, names[n])]], rows, row, names, n + 1)
  {
    hide CellOf, Column;
    assert names[n] in names;
    PrefixStep(names, n);
    var data' := data[names[n] := data[names[n]] + [CellOf(row, names[n])]];
    assert data'.Keys == data.Keys;
    forall x | x in names ensures data'[x] == Column(rows, names, x) + Copies(row, names[..n + 1], x) {
      ConcatAssociates(Column(rows, names, x), Copies(row, names[..n], x), [CellOf(row, x)]);
      EmptyIsNeutral(Copies(row, names[..n], x));
    }
  }

  lemma FillingBegins(rows: seq<Row>, row: Row, names: seq<string>)
    ensures Filling(Pivot(rows, names), rows, row, names, 0)
  {
    assert names[..0] == [];
    forall x | x in names { EmptyIsNeutral(Column(rows, names, x)); }
  }

  lemma FillingEnds(data: Data, rows: seq<Row>, row: Row, names: seq<string>)
    requires Filling(data, rows, row, names, |names|)
    ensures data == Pivot(rows + [row], names)
  {
    hide Copies;
    assert names[..|names|] == names;
    InitOfConcat(rows, [row]);
    EmptyIsNeutral(rows);
  }

  /** The row callback: appends each value of one row to its column's array. */
  method ReceiveRow(data: Data, ghost rows: seq<Row>, row: Row, names: seq<string>) returns (data': Data)
    requires data == Pivot(rows, names)
    ensures data' == Pivot(rows + [row], names)
  {
    hide CellOf, Pivot, Filling;
    data' := data;
    var i := 0;
    FillingBegins(rows, row, names);
    while i < |names|
      invariant i <= |names| && Filling(data', rows, row, names, i)
    {
      FillingStep(data', rows, row, names, i);
      data' := data'[names[i] := data'[names[i]] + [CellOf(row, names[i])]];
      i := i + 1;
    }
    FillingEnds(data', rows, row, names);
  }

  /** An empty column for each name. */
  function Blank(names: seq<string>): Data {
    map x | x in names :: []
  }

  /** Each name before position b has its empty column; the names still to come are those from b on. */
  ghost predicate Walked(fields: string, b: nat, more: bool, seen: seq<string>, data: Data, valName: string) {
    && b <= |fields|
    && FieldNames(fields) == seen + (if more then FieldNames(fields[b..]) else [])
    && data == Blank(seen)
    && (!more ==> seen != [] && valName == seen[|seen| - 1])
  }

  lemma EmptyMapSnoc(seen: seq<string>, x: string)
    ensures Blank(seen)[x := []] == Blank(seen + [x])
  {
  }

  lemma WalkBegins(fields: string)
    ensures Walked(fields, 0, true, [], map[], "")
  {
    assert fields[0..] == fields;
    EmptyIsNeutral(FieldNames(fields));
  }

  lemma WalkStep(fields: string, b: nat, seen: seq<string>, data: Data, valName: string)
    requires Walked(fields, b, true, seen, data, valName)
    ensures b <= |fields|
    ensures var e := CommaAt(fields[b..]);
            var x := Trim(fields[b..][..e]);
            var more := e < |fields[b..]|;
            Walked(fields, if more then b + e + 1 else b, more, seen + [x], data[x := []], x)
  {
    hide Trim;
    var rest := fields[b..];
    var e := CommaAt(rest);
    var x := Trim(rest[..e]);
    EmptyMapSnoc(seen, x);
    if e == |rest| {
      assert rest[..e] == rest;
      EmptyIsNeutral(seen + [x]);
    } else {
      RestOfRest(fields, b, e + 1);
      ConcatAssociates(seen, [x], FieldNames(rest[e + 1..]));
    }
  }

  lemma WalkEnds(fields: string, b: nat, seen: seq<string>, data: Data, valName: string)
    requires Walked(fields, b, false, seen, data, valName)
    ensures seen == FieldNames(fields) && data == Blank(seen)
    ensures seen != [] && valName == seen[|seen| - 1]
  {
    EmptyIsNeutral(seen);
  }

  /** The first loop: walks the field list from comma to comma, making an empty column of each name. */
  method EmptyColumns(fields: string) returns (data: Data, valName: string)
    ensures var names := FieldNames(fields);
            && data == Blank(names)
            && names != [] && valName == names[|names| - 1]
  {
    ghost var seen: seq<string> := [];
    var b := 0;
    var more := true;
    data, valName := map[], "";
    hide Trim, FieldNames, Blank, CommaAt, Walked;
    WalkBegins(fields);
    while more
      invariant b <= |fields| && Walked(fields, b, more, seen, data, valName)
      decreases more, |fields| - b
    {
      WalkStep(fields, b, seen, data, valName);
      var e := CommaAt(fields[b..]);
      valName := Trim(fields[b..][..e]);
      data := data[valName := []];
      seen := seen + [valName];
      more := e < |fields[b..]|;
      if more { b := b + e + 1; }
    }
    WalkEnds(fields, b, seen, data, valName);
  }

  lemma RestOfRest<T>(s: seq<T>, i: nat, j: nat)
    requires i + j <= |s|
    ensures s[i..][j..] == s[i + j..]
  {
  }

  lemma PivotOfNone(names: seq<string>)
    ensures Pivot([], names) == Blank(names)
  {
  }

  /** Empty columns for the field list, then one callback a result row. The answer holds every value of the
      result; its amount is the length of the last column named. */
  method RetrieveData(fields: string, result: seq<Row>, sqlOk: bool) returns (code: int, data: Data, amount: int)
    ensures code == if sqlOk then 0 else -2
    ensures var names := FieldNames(fields);
            sqlOk ==> && data == Pivot(result, names)
                      && names != [] && amount == |result| * Times(names, names[|names| - 1])
  {
    hide CellOf, FieldNames, Times, Column;
    var names := FieldNames(fields);
    var valName;
    data, valName := EmptyColumns(fields);
    if !sqlOk { return -2, data, 0; }
    PivotOfNone(names);
    var i := 0;
    while i < |result|
      invariant i <= |result|
      invariant data == Pivot(result[..i], names)
    {
      data := ReceiveRow(data, result[..i], result[i], names);
      PrefixStep(result, i);
      i := i + 1;
    }
    assert result[..i] == result;
    assert valName in names;
    ColumnLength(result, names, valName);
    amount := |data[valName]|;
    code := 0;
  }
}

/**
 * `NoticeReport`: what the run reports for one source record, and the single
 * CSV line it becomes. Holdings and items are aggregated per location into
 * columns whose entries are separated by " | ".
 */
module Report {
  import opened Wrappers
  import opened Text
  import opened Numerals

  /** One entry of `locations`, as `add_location` appends it. */
  datatype LocationRow = LocationRow(
    location: Option<string>,
    holdingId: Option<string>,
    holdingStatus: Option<string>,
    holdingError: Option<string>,
    itemId: Option<string>,
    itemStatus: Option<string>,
    itemError: Option<string>)

  datatype NoticeReport = NoticeReport(
    recordIndex: nat,
    infoscienceId: Option<string>,
    title: Option<string>,
    author: Option<string>,
    callNumber: Option<string>,
    sruExists: Option<bool>,
    mmsId: Option<string>,
    bibStatus: Option<string>,
    bibError: Option<string>,
    locations: seq<LocationRow>)

  /** A report as it is opened for a record: nothing known yet beyond its summary. */
  function NewReport(recordIndex: nat, infoscienceId: Option<string>, title: Option<string>,
                     author: Option<string>, callNumber: Option<string>): (n: NoticeReport)
    ensures n.sruExists.None? && n.mmsId.None? && n.bibStatus.None? && n.bibError.None?
    ensures n.locations == []
    ensures n.recordIndex == recordIndex && n.callNumber == callNumber
  {
    NoticeReport(recordIndex, infoscienceId, title, author, callNumber, None, None, None, None, [])
  }

  /** `add_location`: one more location, after those already reported. */
  function AddLocation(n: NoticeReport, row: LocationRow): (m: NoticeReport)
    ensures |m.locations| == |n.locations| + 1 && m.locations[..|n.locations|] == n.locations
    ensures m.locations[|n.locations|] == row
    ensures m.(locations := n.locations) == n
  {
    n.(locations := n.locations + [row])
  }

  /** The seven aggregated columns, in the order the CSV lists them. */
  datatype Column =
    | HoldingLocations | HoldingIds | HoldingStatuses | HoldingErrors
    | ItemIds | ItemStatuses | ItemErrors
  {
    /** The value of a location that feeds this column. */
    function Pick(l: LocationRow): Option<string> {
      match this
      case HoldingLocations => l.location
      case HoldingIds => l.holdingId
      case HoldingStatuses => l.holdingStatus
      case HoldingErrors => l.holdingError
      case ItemIds => l.itemId
      case ItemStatuses => l.itemStatus
      case ItemErrors => l.itemError
    }

    /** Status and error entries are written `location:value`; ids and locations as they are. */
    predicate Tagged() {
      HoldingStatuses? || HoldingErrors? || ItemStatuses? || ItemErrors?
    }
  }

  /** What one location adds to a column: nothing when the picked value is missing or empty. */
  function Entry(l: LocationRow, c: Column): (e: Option<string>)
    ensures e.Some? <==> Truthy(c.Pick(l))
    ensures e.Some? && !c.Tagged() ==> e.value == c.Pick(l).value
    ensures e.Some? && c.Tagged() ==>
              (|e.value| > |OrEmpty(l.location)|
               && e.value[..|OrEmpty(l.location)|] == OrEmpty(l.location)
               && e.value[|OrEmpty(l.location)|] == ':'
               && e.value[|OrEmpty(l.location)| + 1..] == c.Pick(l).value)
  {
    if !Truthy(c.Pick(l)) then None
    else if c.Tagged() then Some(OrEmpty(l.location) + ":" + c.Pick(l).value)
    else Some(c.Pick(l).value)
  }

  /** The entries of a column, location by location, in report order. */
  function Entries(locs: seq<LocationRow>, c: Column): (es: seq<string>)
    ensures |es| <= |locs|
    ensures forall i :: 0 <= i < |es| ==> es[i] != ""
    ensures forall e :: e in es <==> exists i :: 0 <= i < |locs| && Entry(locs[i], c) == Some(e)
    decreases |locs|
  {
    if |locs| == 0 then []
    else
      var rest := Entries(locs[1..], c);
      EntriesOfTail(locs, c, rest);
      Prepend(Entry(locs[0], c), rest)
  }

  /** The entry, if any, in front of the others. */
  function Prepend(e: Option<string>, rest: seq<string>): (es: seq<string>)
    ensures forall x :: x in es <==> e == Some(x) || x in rest
    ensures |es| <= |rest| + 1
    ensures e != Some("") && (forall i :: 0 <= i < |rest| ==> rest[i] != "") ==> forall i :: 0 <= i < |es| ==> es[i] != ""
  {
    match e
    case None => rest
    case Some(x) => [x] + rest
  }

  /** Entries found among the locations after the first are found at the same positions, shifted by one. */
  lemma EntriesOfTail(locs: seq<LocationRow>, c: Column, rest: seq<string>)
    requires |locs| > 0
    requires forall e :: e in rest <==> exists i :: 0 <= i < |locs[1..]| && Entry(locs[1..][i], c) == Some(e)
    ensures forall e :: e in rest <==> exists i :: 1 <= i < |locs| && Entry(locs[i], c) == Some(e)
    ensures forall e :: e in Prepend(Entry(locs[0], c), rest) <==> exists i :: 0 <= i < |locs| && Entry(locs[i], c) == Some(e)
  {
    forall e ensures e in rest <==> exists i :: 1 <= i < |locs| && Entry(locs[i], c) == Some(e) {
      if e in rest {
        var j :| 0 <= j < |locs[1..]| && Entry(locs[1..][j], c) == Some(e);
        assert Entry(locs[j + 1], c) == Some(e);
      }
      if exists i :: 1 <= i < |locs| && Entry(locs[i], c) == Some(e) {
        var i :| 1 <= i < |locs| && Entry(locs[i], c) == Some(e);
        assert Entry(locs[1..][i - 1], c) == Some(e);
      }
    }
  }

  /** A location added at the end contributes its entry, if any, after all earlier ones. */
  lemma {:induction false} EntriesSnoc(locs: seq<LocationRow>, row: LocationRow, c: Column)
    ensures Entries(locs + [row], c)
         == Entries(locs, c) + (match Entry(row, c) case None => [] case Some(e) => [e])
    decreases |locs|
  {
    if |locs| == 0 {
      assert [row][1..] == [];
      assert locs + [row] == [row];
    } else {
      assert (locs + [row])[1..] == locs[1..] + [row];
      assert (locs + [row])[0] == locs[0];
      EntriesSnoc(locs[1..], row, c);
    }
  }

  /** `join_or_empty`: the entries separated by " | ", or "" when there are none. */
  function JoinOrEmpty(values: seq<string>): (s: string)
    ensures values == [] ==> s == ""
    ensures |values| == 1 ==> s == values[0]
  {
    if values == [] then "" else Join(" | ", values)
  }

  /** The text of one aggregated column. */
  function ColumnText(n: NoticeReport, c: Column): string {
    JoinOrEmpty(Entries(n.locations, c))
  }

  /** `str(self.sru_exists)`, or "" when the search was not made. */
  function SruText(b: Option<bool>): (s: string)
    ensures s == "" <==> b.None?
  {
    match b
    case None => ""
    case Some(true) => "True"
    case Some(false) => "False"
  }

  /** The header of the CSV, and the keys of every row, in order. */
  const CsvColumns: seq<string> := [
    "record_index", "infoscience_id", "title", "author", "call_number", "sru_exists",
    "mms_id", "bib_status", "bib_error",
    "holding_locations", "holding_ids", "holding_statuses", "holding_errors",
    "item_ids", "item_statuses", "item_errors"]

  /** The aggregated columns behind keys 9 to 15. */
  const AggregatedColumns: seq<Column> := [
    HoldingLocations, HoldingIds, HoldingStatuses, HoldingErrors, ItemIds, ItemStatuses, ItemErrors]

  /** The value written under key `i` of `CsvColumns`. */
  function Cell(n: NoticeReport, i: nat): string
    requires i < |CsvColumns|
  {
    if i == 0 then NatToString(n.recordIndex)
    else if i == 1 then OrEmpty(n.infoscienceId)
    else if i == 2 then OrEmpty(n.title)
    else if i == 3 then OrEmpty(n.author)
    else if i == 4 then OrEmpty(n.callNumber)
    else if i == 5 then SruText(n.sruExists)
    else if i == 6 then OrEmpty(n.mmsId)
    else if i == 7 then OrEmpty(n.bibStatus)
    else if i == 8 then OrEmpty(n.bibError)
    else ColumnText(n, AggregatedColumns[i - 9])
  }

  /** `to_csv_row`: one (key, value) pair per column of the CSV, keys in header order. */
  function ToCsvRow(n: NoticeReport): (row: seq<(string, string)>)
    ensures |row| == |CsvColumns|
    ensures forall i :: 0 <= i < |row| ==> row[i].0 == CsvColumns[i]
  {
    seq(|CsvColumns|, i requires 0 <= i < |CsvColumns| => (CsvColumns[i], Cell(n, i)))
  }

  /** A text cell: the value when there is a non-empty one, the empty string otherwise (`value or ""`). */
  predicate TextCell(cell: string, v: Option<string>) {
    if Truthy(v) then cell == v.value else cell == ""
  }

  /** The record index reads back from its cell, and an absent value is an empty cell, never "None". */
  lemma ScalarCells(n: NoticeReport)
    ensures var row := ToCsvRow(n);
            ParseDigits(row[0].1) == n.recordIndex
            && (row[1].1 == "" <==> !Truthy(n.infoscienceId))
            && (row[4].1 == "" <==> !Truthy(n.callNumber))
            && (row[5].1 == "" <==> n.sruExists.None?)
            && (row[5].1 == "True" <==> n.sruExists == Some(true))
            && (row[6].1 == "" <==> !Truthy(n.mmsId))
            && (row[7].1 == "" <==> !Truthy(n.bibStatus))
    ensures var row := ToCsvRow(n);
            TextCell(row[1].1, n.infoscienceId) && TextCell(row[2].1, n.title) && TextCell(row[3].1, n.author)
            && TextCell(row[4].1, n.callNumber) && TextCell(row[6].1, n.mmsId)
            && TextCell(row[7].1, n.bibStatus) && TextCell(row[8].1, n.bibError)
  {
    ParseNatToString(n.recordIndex);
  }

  /** Each aggregated cell is the column of its key. */
  lemma AggregatedCells(n: NoticeReport, k: nat)
    requires k < |AggregatedColumns|
    ensures ToCsvRow(n)[9 + k].1 == ColumnText(n, AggregatedColumns[k])
  {
  }

  /** A column is empty exactly when no location has a non-empty value for it. */
  lemma ColumnEmptyIff(n: NoticeReport, c: Column)
    ensures ColumnText(n, c) == "" <==> forall i :: 0 <= i < |n.locations| ==> !Truthy(c.Pick(n.locations[i]))
  {
    var es := Entries(n.locations, c);
    if es != [] {
      assert es[0] in es;
      JoinNonEmpty(es);
    } else {
      forall i | 0 <= i < |n.locations| ensures !Truthy(c.Pick(n.locations[i])) {
        assert Entry(n.locations[i], c).None?;
      }
    }
  }

  /** A " | " join of non-empty entries is never empty. */
  lemma JoinNonEmpty(es: seq<string>)
    requires es != [] && es[0] != ""
    ensures Join(" | ", es) != ""
  {
  }

  /**
   * Adding a location extends each column: its entry, if any, follows the
   * earlier ones after " | ", and a column without one is unchanged.
   */
  lemma AddLocationExtendsColumn(n: NoticeReport, row: LocationRow, c: Column)
    ensures var before := ColumnText(n, c);
            var after := ColumnText(AddLocation(n, row), c);
            match Entry(row, c)
            case None => after == before
            case Some(e) => after == if before == "" then e else before + " | " + e
  {
    var es := Entries(n.locations, c);
    EntriesSnoc(n.locations, row, c);
    match Entry(row, c)
    case None =>
      assert es + [] == es;
    case Some(e) =>
      if es == [] {
        assert es + [e] == [e];
      } else {
        JoinNonEmptyEntries(n.locations, c);
        JoinSnoc(" | ", es, e);
      }
  }

  /** Entries are never empty, so a column with entries has text. */
  lemma JoinNonEmptyEntries(locs: seq<LocationRow>, c: Column)
    requires Entries(locs, c) != []
    ensures JoinOrEmpty(Entries(locs, c)) != ""
  {
    var es := Entries(locs, c);
    assert es[0] in es;
    JoinNonEmpty(es);
  }

  /** Only the aggregated columns change when a location is added. */
  lemma AddLocationKeepsScalars(n: NoticeReport, row: LocationRow, k: nat)
    requires k < 9
    ensures ToCsvRow(AddLocation(n, row))[k] == ToCsvRow(n)[k]
  {
  }
}

/**
 * agents/request_handler.py: incremental ingestion of the form-submission
 * export. Rows whose id is above the stored high-water mark are returned in
 * file order, and the new mark is written back whether or not anything was new.
 *
 * The export is given as its rows, as `csv.DictReader` yields them: a map
 * from header to cell, where `None` is the filler the reader puts in the
 * missing cells of a short row. The state file `data/state.json` is a field of
 * `SubmissionIngestor`; `int()` is the parameter `parseInt`.
 */
module RequestHandler {
  import opened Wrappers
  import opened Strings

  const IdHeader: string := "#"
  const NameHeader: string := "Name (Last, First)"
  const EmailHeader: string := "Email"
  const OrgHeader: string := "Your Institution"

  /** One `csv.DictReader` row. */
  type Row = map<string, Option<string>>

  /** A new submission, as handed to the orchestrator. */
  datatype Request = Request(id: int, name: string, email: string, organization: string)

  /** `None.strip()` raised on a short row: its number and the header whose cell was missing. */
  datatype IngestError = NoneCell(rowNo: nat, header: string)

  /** The JSON document in the state file; `lastId` is `None` when the key is missing. */
  datatype StateDoc = StateDoc(lastId: Option<int>)

  // ---------------------------------------------------------------------------
  // The state file
  // ---------------------------------------------------------------------------

  /** `_load_last_processed_id`: 0 without a state file or without the key. */
  function LoadLastId(state: Option<StateDoc>): int
  {
    match state
    case None => 0
    case Some(doc) => if doc.lastId.Some? then doc.lastId.value else 0
  }

  /** The defaults: no state file, or no `last_id` key, reads as 0. */
  lemma LoadLastIdDefaults(doc: StateDoc)
    ensures LoadLastId(None) == 0
    ensures doc.lastId.None? ==> LoadLastId(Some(doc)) == 0
    ensures doc.lastId.Some? ==> LoadLastId(Some(doc)) == doc.lastId.value
  {
  }

  /** `_save_last_processed_id`: the document written; loading it gives the id back. */
  function SavedState(lastId: int): (doc: StateDoc)
    ensures LoadLastId(Some(doc)) == lastId
  {
    StateDoc(Some(lastId))
  }

  // ---------------------------------------------------------------------------
  // One row
  // ---------------------------------------------------------------------------

  /** `row.get(header, "").strip()`: a missing header reads as "", a `None` cell raises. */
  function Cell(row: Row, header: string, rowNo: nat): Result<string, IngestError>
  {
    if header !in row then Ok("")
    else match row[header]
      case None => Err(NoneCell(rowNo, header))
      case Some(v) => Ok(Strip(v))
  }

  /** A cell that `.strip()` cannot be applied to. */
  predicate HasNoneCell(row: Row, header: string)
  {
    header in row && row[header].None?
  }

  /** The stripped text of a cell, "" where there is none. */
  function Field(row: Row, header: string): string
  {
    if header in row && row[header].Some? then Strip(row[header].value) else ""
  }

  /** The id of a row: the parsed id cell, or the 1-based row number when it does not parse. */
  function RowId(row: Row, rowNo: nat, parseInt: string -> Option<int>): int
  {
    var raw := Field(row, IdHeader);
    if parseInt(raw).Some? then parseInt(raw).value else rowNo
  }

  /** The request a row becomes. */
  function RequestOf(row: Row, rowNo: nat, parseInt: string -> Option<int>): Request
  {
    Request(RowId(row, rowNo, parseInt), Field(row, NameHeader), Field(row, EmailHeader), Field(row, OrgHeader))
  }

  /** A row that makes the scan raise: its id cell is `None`, or it is new and another cell is. */
  predicate Breaks(row: Row, rowNo: nat, lastId: int, parseInt: string -> Option<int>)
  {
    HasNoneCell(row, IdHeader) ||
    (RowId(row, rowNo, parseInt) > lastId &&
     (HasNoneCell(row, NameHeader) || HasNoneCell(row, EmailHeader) || HasNoneCell(row, OrgHeader)))
  }

  /** One iteration of the scan: the error it raises, or the request it appends, if any. */
  function Admit(row: Row, rowNo: nat, lastId: int, parseInt: string -> Option<int>)
    : Result<Option<Request>, IngestError>
  {
    match Cell(row, IdHeader, rowNo)
    case Err(e) => Err(e)
    case Ok(raw) =>
      var id := if parseInt(raw).Some? then parseInt(raw).value else rowNo;
      if id <= lastId then Ok(None)
      else match Cell(row, NameHeader, rowNo)
        case Err(e) => Err(e)
        case Ok(name) => match Cell(row, EmailHeader, rowNo)
          case Err(e) => Err(e)
          case Ok(email) => match Cell(row, OrgHeader, rowNo)
            case Err(e) => Err(e)
            case Ok(org) => Ok(Some(Request(id, name, email, org)))
  }

  /** What `Admit` does, stated through `Breaks`, `RowId` and `RequestOf`. */
  lemma AdmitMeaning(row: Row, rowNo: nat, lastId: int, parseInt: string -> Option<int>)
    ensures Admit(row, rowNo, lastId, parseInt).Err? <==> Breaks(row, rowNo, lastId, parseInt)
    ensures Admit(row, rowNo, lastId, parseInt) == Ok(None) <==>
      !Breaks(row, rowNo, lastId, parseInt) && RowId(row, rowNo, parseInt) <= lastId
    ensures Admit(row, rowNo, lastId, parseInt).Ok? && Admit(row, rowNo, lastId, parseInt).value.Some? ==>
      RowId(row, rowNo, parseInt) > lastId &&
      Admit(row, rowNo, lastId, parseInt).value.value == RequestOf(row, rowNo, parseInt)
    ensures Admit(row, rowNo, lastId, parseInt).Err? ==>
      Admit(row, rowNo, lastId, parseInt).error.rowNo == rowNo
  {
    CellMeaning(row, IdHeader, rowNo);
    CellMeaning(row, NameHeader, rowNo);
    CellMeaning(row, EmailHeader, rowNo);
    CellMeaning(row, OrgHeader, rowNo);
  }

  /** `Cell` raises exactly on a `None` cell, and otherwise reads `Field`. */
  lemma CellMeaning(row: Row, header: string, rowNo: nat)
    ensures Cell(row, header, rowNo).Err? <==> HasNoneCell(row, header)
    ensures Cell(row, header, rowNo).Err? ==> Cell(row, header, rowNo).error == NoneCell(rowNo, header)
    ensures Cell(row, header, rowNo).Ok? ==> Cell(row, header, rowNo).value == Field(row, header)
  {
  }

  // ---------------------------------------------------------------------------
  // The scan
  // ---------------------------------------------------------------------------

  /** The loop of `get_new_requests` over the first rows, as a function of that prefix. */
  function Ingest(rows: seq<Row>, lastId: int, parseInt: string -> Option<int>)
    : Result<seq<Request>, IngestError>
    decreases |rows|
  {
    if rows == [] then Ok([])
    else match Ingest(rows[..|rows| - 1], lastId, parseInt)
      case Err(e) => Err(e)
      case Ok(reqs) => match Admit(rows[|rows| - 1], |rows|, lastId, parseInt)
        case Err(e) => Err(e)
        case Ok(None) => Ok(reqs)
        case Ok(Some(r)) => Ok(reqs + [r])
  }

  /** `next_id`: the largest of the stored mark and the ids of the new requests. */
  function HighWater(lastId: int, reqs: seq<Request>): (m: int)
    ensures m >= lastId
    ensures forall i :: 0 <= i < |reqs| ==> reqs[i].id <= m
    ensures m == lastId || exists i :: 0 <= i < |reqs| && reqs[i].id == m
    decreases |reqs|
  {
    if reqs == [] then lastId
    else
      var m := HighWater(lastId, reqs[..|reqs| - 1]);
      var id := reqs[|reqs| - 1].id;
      if id > m then id else m
  }

  /** An error raised on some row ends the scan: later rows do not matter. */
  lemma {:induction false} ErrorPersists(rows: seq<Row>, k: nat, lastId: int, parseInt: string -> Option<int>)
    requires k <= |rows|
    requires Ingest(rows[..k], lastId, parseInt).Err?
    ensures Ingest(rows, lastId, parseInt) == Ingest(rows[..k], lastId, parseInt)
    decreases |rows|
  {
    if k < |rows| {
      var init := rows[..|rows| - 1];
      assert init[..k] == rows[..k];
      ErrorPersists(init, k, lastId, parseInt);
    } else {
      assert rows[..k] == rows;
    }
  }

  /** Every returned request is above the stored mark. */
  lemma {:induction false} AllAboveLastId(rows: seq<Row>, lastId: int, parseInt: string -> Option<int>)
    requires Ingest(rows, lastId, parseInt).Ok?
    ensures forall i :: 0 <= i < |Ingest(rows, lastId, parseInt).value| ==>
      Ingest(rows, lastId, parseInt).value[i].id > lastId
    decreases |rows|
  {
    if rows != [] {
      AllAboveLastId(rows[..|rows| - 1], lastId, parseInt);
      AdmitMeaning(rows[|rows| - 1], |rows|, lastId, parseInt);
    }
  }

  /** The scan raises exactly when some row breaks it. */
  lemma {:induction false} IngestFailsIff(rows: seq<Row>, lastId: int, parseInt: string -> Option<int>)
    ensures Ingest(rows, lastId, parseInt).Err? <==>
      exists i :: 0 <= i < |rows| && Breaks(rows[i], i + 1, lastId, parseInt)
    decreases |rows|
  {
    if rows != [] {
      var init, row := rows[..|rows| - 1], rows[|rows| - 1];
      IngestFailsIff(init, lastId, parseInt);
      var prefix := Ingest(init, lastId, parseInt);
      if prefix.Ok? {
        assert rows == init + [row];
        AdmitMeaning(row, |init| + 1, lastId, parseInt);
        IngestSnoc(init, row, lastId, parseInt, prefix.value);
        forall i | 0 <= i < |init|
          ensures !Breaks(rows[i], i + 1, lastId, parseInt)
        {
          assert rows[i] == init[i];
        }
      } else {
        assert Ingest(rows, lastId, parseInt) == prefix;
        var i :| 0 <= i < |init| && Breaks(init[i], i + 1, lastId, parseInt);
        assert rows[i] == init[i];
      }
    }
  }

  /** A failed scan reports the first row that breaks it. */
  lemma {:induction false} IngestFailsAtFirst(rows: seq<Row>, lastId: int, parseInt: string -> Option<int>)
    requires Ingest(rows, lastId, parseInt).Err?
    ensures var n := Ingest(rows, lastId, parseInt).error.rowNo;
      1 <= n <= |rows| && Breaks(rows[n - 1], n, lastId, parseInt) &&
      forall i :: 0 <= i < n - 1 ==> !Breaks(rows[i], i + 1, lastId, parseInt)
    decreases |rows|
  {
    var init, row := rows[..|rows| - 1], rows[|rows| - 1];
    var prefix := Ingest(init, lastId, parseInt);
    if prefix.Ok? {
      assert rows == init + [row];
      IngestFailsIff(init, lastId, parseInt);
      AdmitMeaning(row, |init| + 1, lastId, parseInt);
      IngestSnoc(init, row, lastId, parseInt, prefix.value);
      forall i | 0 <= i < |init|
        ensures !Breaks(rows[i], i + 1, lastId, parseInt)
      {
        assert rows[i] == init[i];
      }
    } else {
      assert Ingest(rows, lastId, parseInt) == prefix;
      IngestFailsAtFirst(init, lastId, parseInt);
      var n := prefix.error.rowNo;
      assert rows[n - 1] == init[n - 1];
      forall i | 0 <= i < n - 1
        ensures !Breaks(rows[i], i + 1, lastId, parseInt)
      {
        assert rows[i] == init[i];
      }
    }
  }

  /** Strictly increasing positions. */
  predicate Increasing(idx: seq<nat>)
  {
    forall j, k :: 0 <= j < k < |idx| ==> idx[j] < idx[k]
  }

  /**
   * `reqs` are exactly the rows whose id is above the mark, in file order:
   * `idx` gives, for each request, the 0-based position of its row.
   */
  predicate Selection(rows: seq<Row>, lastId: int, parseInt: string -> Option<int>, reqs: seq<Request>, idx: seq<nat>)
  {
    |idx| == |reqs| && Increasing(idx) &&
    (forall j :: 0 <= j < |idx| ==> idx[j] < |rows| && reqs[j] == RequestOf(rows[idx[j]], idx[j] + 1, parseInt)) &&
    (forall i :: 0 <= i < |rows| ==> (i in idx <==> RowId(rows[i], i + 1, parseInt) > lastId))
  }

  /** A row at or below the mark is not selected. */
  lemma SelectionSkip(rows: seq<Row>, row: Row, lastId: int, parseInt: string -> Option<int>,
                      reqs: seq<Request>, idx: seq<nat>)
    requires Selection(rows, lastId, parseInt, reqs, idx)
    requires RowId(row, |rows| + 1, parseInt) <= lastId
    ensures Selection(rows + [row], lastId, parseInt, reqs, idx)
  {
    var all := rows + [row];
    assert forall i :: 0 <= i < |rows| ==> all[i] == rows[i];
    assert |rows| !in idx;
  }

  /** A row above the mark is selected, after all earlier ones. */
  lemma SelectionTake(rows: seq<Row>, row: Row, lastId: int, parseInt: string -> Option<int>,
                      reqs: seq<Request>, idx: seq<nat>)
    requires Selection(rows, lastId, parseInt, reqs, idx)
    requires RowId(row, |rows| + 1, parseInt) > lastId
    ensures Selection(rows + [row], lastId, parseInt, reqs + [RequestOf(row, |rows| + 1, parseInt)], idx + [|rows|])
  {
    var all := rows + [row];
    assert forall i :: 0 <= i < |rows| ==> all[i] == rows[i];
    var idx' := idx + [|rows|];
    assert forall i :: i in idx' <==> i in idx || i == |rows|;
  }

  /** The requests are exactly the rows whose id is above the mark, in file order. */
  lemma {:induction false} IngestSelects(rows: seq<Row>, lastId: int, parseInt: string -> Option<int>)
    returns (idx: seq<nat>)
    requires Ingest(rows, lastId, parseInt).Ok?
    ensures Selection(rows, lastId, parseInt, Ingest(rows, lastId, parseInt).value, idx)
    decreases |rows|
  {
    if rows == [] {
      idx := [];
    } else {
      var init, row := rows[..|rows| - 1], rows[|rows| - 1];
      assert rows == init + [row];
      var prev := IngestSelects(init, lastId, parseInt);
      var found := Ingest(init, lastId, parseInt).value;
      AdmitMeaning(row, |init| + 1, lastId, parseInt);
      IngestSnoc(init, row, lastId, parseInt, found);
      if RowId(row, |init| + 1, parseInt) > lastId {
        SelectionTake(init, row, lastId, parseInt, found, prev);
        idx := prev + [|init|];
      } else {
        SelectionSkip(init, row, lastId, parseInt, found, prev);
        idx := prev;
      }
    }
  }

  /** Nothing new: the mark is written back unchanged. */
  lemma NothingNewKeepsMark(lastId: int)
    ensures HighWater(lastId, []) == lastId
  {
  }

  /** A second scan of the same export, from the mark the first one saved, finds nothing new. */
  lemma {:induction false} RescanFindsNothing(rows: seq<Row>, lastId: int, parseInt: string -> Option<int>)
    requires Ingest(rows, lastId, parseInt).Ok?
    ensures Ingest(rows, HighWater(lastId, Ingest(rows, lastId, parseInt).value), parseInt) == Ok([])
  {
    var reqs := Ingest(rows, lastId, parseInt).value;
    var mark := HighWater(lastId, reqs);
    var idx := IngestSelects(rows, lastId, parseInt);
    IngestFailsIff(rows, lastId, parseInt);
    forall i | 0 <= i < |rows|
      ensures RowId(rows[i], i + 1, parseInt) <= mark && !Breaks(rows[i], i + 1, mark, parseInt)
    {
      if RowId(rows[i], i + 1, parseInt) > lastId {
        var j :| 0 <= j < |idx| && idx[j] == i;
        assert reqs[j].id == RowId(rows[i], i + 1, parseInt);
      }
    }
    NoneAboveMark(rows, mark, parseInt);
  }

  /** A scan where no row is above the mark and none breaks returns nothing. */
  lemma {:induction false} NoneAboveMark(rows: seq<Row>, mark: int, parseInt: string -> Option<int>)
    requires forall i :: 0 <= i < |rows| ==>
      RowId(rows[i], i + 1, parseInt) <= mark && !Breaks(rows[i], i + 1, mark, parseInt)
    ensures Ingest(rows, mark, parseInt) == Ok([])
    decreases |rows|
  {
    if rows != [] {
      var init := rows[..|rows| - 1];
      assert forall i :: 0 <= i < |init| ==> init[i] == rows[i];
      NoneAboveMark(init, mark, parseInt);
      AdmitMeaning(rows[|rows| - 1], |rows|, mark, parseInt);
    }
  }

  /** A blank or unparsable id is replaced by the row number. */
  lemma BlankIdFallsBack(row: Row, rowNo: nat, parseInt: string -> Option<int>)
    requires parseInt(Field(row, IdHeader)).None?
    ensures RowId(row, rowNo, parseInt) == rowNo
  {
  }

  /** With an `int()` that rejects "", a row without an id column, or with a blank id, gets its row number. */
  lemma MissingIdFallsBack(row: Row, rowNo: nat, parseInt: string -> Option<int>)
    requires parseInt("").None?
    requires IdHeader !in row || (row[IdHeader].Some? && forall i :: 0 <= i < |row[IdHeader].value| ==> IsSpace(row[IdHeader].value[i]))
    ensures RowId(row, rowNo, parseInt) == rowNo
  {
    if IdHeader in row {
      StripEmptyIff(row[IdHeader].value);
    }
  }

  /** The four headers the scan reads are different columns. */
  lemma HeadersDistinct()
    ensures IdHeader != NameHeader && IdHeader != EmailHeader && IdHeader != OrgHeader
  {
    assert IdHeader[0] != NameHeader[0] && IdHeader[0] != EmailHeader[0] && IdHeader[0] != OrgHeader[0];
  }

  /**
   * A row holding only an id cell: it raises when that cell is `None`, is skipped
   * when its id is at or below the mark, and otherwise becomes a request with empty fields.
   */
  lemma IdOnlyRow(row: Row, rowNo: nat, lastId: int, parseInt: string -> Option<int>)
    requires IdHeader in row
    requires NameHeader !in row && EmailHeader !in row && OrgHeader !in row
    ensures var id := RowId(row, rowNo, parseInt);
      Admit(row, rowNo, lastId, parseInt) ==
        if row[IdHeader].None? then Err(NoneCell(rowNo, IdHeader))
        else if id <= lastId then Ok(None)
        else Ok(Some(Request(id, "", "", "")))
  {
  }

  /** The scan of rows followed by one more row. */
  lemma IngestSnoc(rows: seq<Row>, row: Row, lastId: int, parseInt: string -> Option<int>, found: seq<Request>)
    requires Ingest(rows, lastId, parseInt) == Ok(found)
    ensures var a := Admit(row, |rows| + 1, lastId, parseInt);
      Ingest(rows + [row], lastId, parseInt) ==
        if a.Err? then Err(a.error) else if a.value.None? then Ok(found) else Ok(found + [a.value.value])
  {
    var all := rows + [row];
    assert all[..|all| - 1] == rows;
    assert all[|all| - 1] == row;
  }

  /** A row that `Admit` takes is appended to the scan so far. */
  lemma IngestTake(rows: seq<Row>, row: Row, lastId: int, parseInt: string -> Option<int>, found: seq<Request>, r: Request)
    requires Ingest(rows, lastId, parseInt) == Ok(found)
    requires Admit(row, |rows| + 1, lastId, parseInt) == Ok(Some(r))
    ensures Ingest(rows + [row], lastId, parseInt) == Ok(found + [r])
  {
    IngestSnoc(rows, row, lastId, parseInt, found);
  }

  /** A single row that `Admit` skips gives an empty scan. */
  lemma IngestSkipOnly(r: Row, lastId: int, parseInt: string -> Option<int>)
    requires Admit(r, 1, lastId, parseInt) == Ok(None)
    ensures Ingest([r], lastId, parseInt) == Ok([])
  {
    var none: seq<Row> := [];
    IngestSnoc(none, r, lastId, parseInt, []);
    assert none + [r] == [r];
  }

  /** The first request taken after an empty scan. */
  lemma IngestTakeFirst(rows: seq<Row>, row: Row, lastId: int, parseInt: string -> Option<int>, r: Request)
    requires Ingest(rows, lastId, parseInt) == Ok([])
    requires Admit(row, |rows| + 1, lastId, parseInt) == Ok(Some(r))
    ensures Ingest(rows + [row], lastId, parseInt) == Ok([r])
  {
    IngestTake(rows, row, lastId, parseInt, [], r);
    assert [] + [r] == [r];
  }

  /** A second request taken. */
  lemma IngestTakeSecond(rows: seq<Row>, row: Row, lastId: int, parseInt: string -> Option<int>, a: Request, b: Request)
    requires Ingest(rows, lastId, parseInt) == Ok([a])
    requires Admit(row, |rows| + 1, lastId, parseInt) == Ok(Some(b))
    ensures Ingest(rows + [row], lastId, parseInt) == Ok([a, b])
  {
    IngestTake(rows, row, lastId, parseInt, [a], b);
    assert [a] + [b] == [a, b];
  }

  /** A third request taken. */
  lemma IngestTakeThird(rows: seq<Row>, row: Row, lastId: int, parseInt: string -> Option<int>, a: Request, b: Request, c: Request)
    requires Ingest(rows, lastId, parseInt) == Ok([a, b])
    requires Admit(row, |rows| + 1, lastId, parseInt) == Ok(Some(c))
    ensures Ingest(rows + [row], lastId, parseInt) == Ok([a, b, c])
  {
    IngestTake(rows, row, lastId, parseInt, [a, b], c);
    assert [a, b] + [c] == [a, b, c];
  }

  /** Four rows of which the first is skipped and the other three are taken, the middle two alike. */
  lemma SkipThenTakeThree(r1: Row, r2: Row, r3: Row, lastId: int, parseInt: string -> Option<int>,
                          a: Request, b: Request)
    requires Admit(r1, 1, lastId, parseInt) == Ok(None)
    requires Admit(r2, 2, lastId, parseInt) == Ok(Some(a)) && Admit(r2, 3, lastId, parseInt) == Ok(Some(a))
    requires Admit(r3, 4, lastId, parseInt) == Ok(Some(b))
    ensures Ingest([r1] + [r2] + [r2] + [r3], lastId, parseInt) == Ok([a, a, b])
  {
    IngestSkipOnly(r1, lastId, parseInt);
    IngestTakeFirst([r1], r2, lastId, parseInt, a);
    IngestTakeSecond([r1] + [r2], r2, lastId, parseInt, a, a);
    IngestTakeThird([r1] + [r2] + [r2], r3, lastId, parseInt, a, a, b);
  }

  /** A row of an export that has only the id column. */
  function IdRow(raw: string): (row: Row)
    ensures IdHeader in row && row[IdHeader] == Some(raw)
    ensures NameHeader !in row && EmailHeader !in row && OrgHeader !in row
  {
    HeadersDistinct();
    map[IdHeader := Some(raw)]
  }

  /** Duplicate ids are not collapsed: rows with ids 1, 2, 2, 3 above mark 1 give 2, 2, 3 and the mark 3. */
  lemma DuplicateIdsKept(one: string, two: string, three: string, parseInt: string -> Option<int>)
    requires parseInt(Strip(one)) == Some(1) && parseInt(Strip(two)) == Some(2) && parseInt(Strip(three)) == Some(3)
    ensures var result := Ingest([IdRow(one)] + [IdRow(two)] + [IdRow(two)] + [IdRow(three)], 1, parseInt);
      result.Ok? && |result.value| == 3 &&
      result.value[0] == Request(2, "", "", "") && result.value[1] == Request(2, "", "", "") &&
      result.value[2] == Request(3, "", "", "") &&
      HighWater(1, result.value) == 3
  {
    var second, third := Request(2, "", "", ""), Request(3, "", "", "");
    var r1, r2, r3 := IdRow(one), IdRow(two), IdRow(three);
    IdOnlyRow(r1, 1, 1, parseInt);
    IdOnlyRow(r2, 2, 1, parseInt);
    IdOnlyRow(r2, 3, 1, parseInt);
    IdOnlyRow(r3, 4, 1, parseInt);
    SkipThenTakeThree(r1, r2, r3, 1, parseInt, second, third);
    HighWaterRising(1, second, third);
  }

  /** The mark after a request and its duplicate and then a larger one. */
  lemma HighWaterRising(lastId: int, a: Request, b: Request)
    requires lastId < a.id < b.id
    ensures HighWater(lastId, [a, a, b]) == b.id
  {
    var one, two := [a], [a, a];
    assert one[..0] == [] && two[..1] == one && [a, a, b][..2] == two;
    assert HighWater(lastId, one) == a.id;
    assert HighWater(lastId, two) == a.id;
  }

  // ---------------------------------------------------------------------------
  // The stateful ingestor
  // ---------------------------------------------------------------------------

  /** The ingestor with its state file (`None` while the file does not exist). */
  class SubmissionIngestor {
    var state: Option<StateDoc>

    constructor (state: Option<StateDoc>)
      ensures this.state == state
    {
      this.state := state;
    }

    /** `_save_last_processed_id`. */
    method SaveLastId(lastId: int)
      modifies this
      ensures state == Some(SavedState(lastId))
      ensures LoadLastId(state) == lastId
    {
      state := Some(StateDoc(Some(lastId)));
    }

    /**
     * `get_new_requests`: scan the export once, keep the rows above the stored
     * mark, then save the new mark. If a row raises, nothing is saved.
     */
    method GetNewRequests(rows: seq<Row>, parseInt: string -> Option<int>)
      returns (result: Result<seq<Request>, IngestError>)
      modifies this
      ensures result == Ingest(rows, LoadLastId(old(state)), parseInt)
      ensures result.Ok? ==> state == Some(SavedState(HighWater(LoadLastId(old(state)), result.value)))
      ensures result.Err? ==> state == old(state)
    {
      var lastId := LoadLastId(state);
      var nextId := lastId;
      var found: seq<Request> := [];
      for i := 0 to |rows|
        invariant Ingest(rows[..i], lastId, parseInt) == Ok(found)
        invariant nextId == HighWater(lastId, found)
        invariant state == old(state)
      {
        var rowNo := i + 1;
        var row := rows[i];
        assert rows[..i + 1] == rows[..i] + [row];
        IngestSnoc(rows[..i], row, lastId, parseInt, found);
        var rawId := Cell(row, IdHeader, rowNo);
        if rawId.Err? {
          ErrorPersists(rows, i + 1, lastId, parseInt);
          return Err(rawId.error);
        }
        var rowId := if parseInt(rawId.value).Some? then parseInt(rawId.value).value else rowNo;
        if rowId > lastId {
          var name := Cell(row, NameHeader, rowNo);
          var email := Cell(row, EmailHeader, rowNo);
          var org := Cell(row, OrgHeader, rowNo);
          if name.Err? || email.Err? || org.Err? {
            var e := if name.Err? then name.error else if email.Err? then email.error else org.error;
            assert Admit(row, rowNo, lastId, parseInt) == Err(e);
            ErrorPersists(rows, i + 1, lastId, parseInt);
            return Err(e);
          }
          var req := Request(rowId, name.value, email.value, org.value);
          assert Admit(row, rowNo, lastId, parseInt) == Ok(Some(req));
          found := found + [req];
          nextId := if nextId >= rowId then nextId else rowId;
        } else {
          assert Admit(row, rowNo, lastId, parseInt) == Ok(None);
        }
      }
      assert rows[..|rows|] == rows;
      SaveLastId(nextId);
      result := Ok(found);
    }
  }

  /** Running the ingestor twice on an unchanged export: the second run finds nothing and saves the same mark. */
  method IngestTwice(ingestor: SubmissionIngestor, rows: seq<Row>, parseInt: string -> Option<int>)
    returns (first: Result<seq<Request>, IngestError>, second: Result<seq<Request>, IngestError>)
    modifies ingestor
    ensures first.Ok? ==> second == Ok([])
    ensures first.Ok? ==> ingestor.state == Some(SavedState(HighWater(LoadLastId(old(ingestor.state)), first.value)))
  {
    first := ingestor.GetNewRequests(rows, parseInt);
    if first.Ok? {
      RescanFindsNothing(rows, LoadLastId(old(ingestor.state)), parseInt);
    }
    second := ingestor.GetNewRequests(rows, parseInt);
  }
}

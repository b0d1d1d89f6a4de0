/** What each query of the service's repository does to, or reads from, the
    `entries` table, stated over the table's rows in store order. */
module Table {
  import opened Wrappers
  import opened EntryModel
  import opened Grouping

  /** Why a repository operation produced no value: no matching row, a stored
      row that fails the Entry validators when decoded, or (when deleting by
      id under a vmname) a row that belongs to another vmname. */
  datatype Error = NotFound | Invalid(fields: seq<Field>) | Mismatch

  /** The surrogate keys are distinct. */
  predicate UniqueIds(rows: seq<Row>) {
    forall i, j :: 0 <= i < j < |rows| ==> rows[i].id != rows[j].id
  }

  /** Every stored id was handed out by the id sequence before `nextId`. */
  predicate IdsBelow(rows: seq<Row>, nextId: int) {
    forall i :: 0 <= i < |rows| ==> rows[i].id < nextId
  }

  // ---------------------------------------------------------------------
  // Lookups
  // ---------------------------------------------------------------------

  /** SELECT * ... WHERE <six fields> = f, then fetchone()[0]: the id of the
      first row in store order whose identity fields are f. */
  function FindId(rows: seq<Row>, f: Fields): (r: Option<int>)
    ensures r.None? <==> forall i :: 0 <= i < |rows| ==> rows[i].fields != f
    ensures r.Some? ==> exists k :: 0 <= k < |rows| && rows[k] == Row(r.value, f) &&
                                    forall j :: 0 <= j < k ==> rows[j].fields != f
  {
    if rows == [] then None
    else if rows[0].fields == f then Some(rows[0].id)
    else
      var r := FindId(rows[1..], f);
      assert forall i :: 0 < i < |rows| ==> rows[i] == rows[1..][i - 1];
      r
  }

  /** SELECT * ... WHERE id = id, then the first row fetched. */
  function RowById(rows: seq<Row>, id: int): (r: Option<Row>)
    ensures r.None? <==> forall i :: 0 <= i < |rows| ==> rows[i].id != id
    ensures r.Some? ==> r.value.id == id && r.value in rows
  {
    if rows == [] then None
    else if rows[0].id == id then Some(rows[0])
    else
      var r := RowById(rows[1..], id);
      assert forall i :: 0 < i < |rows| ==> rows[i] == rows[1..][i - 1];
      r
  }

  /** Entry.from_db_row, with a validation failure reported as Invalid. */
  function Decode(row: Row): (r: Result<Entry, Error>)
    ensures r.Success? <==> FromDbRow(row).Success?
    ensures r.Success? ==> r.value == Entry(Some(row.id), row.fields)
    ensures r.Failure? ==> r.error == Invalid(RowErrors(row))
  {
    match FromDbRow(row)
    case Success(e) => Success(e)
    case Failure(errs) => Failure(Invalid(errs))
  }

  function RowErrors(row: Row): seq<Field> {
    FieldErrors(row.fields.vmname, row.fields.action)
  }

  /** db_get_entry_by_id: the row with that id, decoded; NotFound if no row
      has it. */
  function EntryById(rows: seq<Row>, id: int): (r: Result<Entry, Error>)
    ensures r == Failure(NotFound) <==> forall i :: 0 <= i < |rows| ==> rows[i].id != id
    ensures r.Success? ==> r.value.id == Some(id) && Row(id, r.value.fields) in rows
  {
    match RowById(rows, id)
    case None => Failure(NotFound)
    case Some(row) => Decode(row)
  }

  /** With distinct ids, fetching a stored row's id decodes exactly that row:
      Success with its entry when it validates, Invalid otherwise. */
  lemma {:induction false} EntryByIdFinds(rows: seq<Row>, k: nat)
    requires UniqueIds(rows) && k < |rows|
    ensures EntryById(rows, rows[k].id) == Decode(rows[k])
  {
    var row := RowById(rows, rows[k].id).value;
    var m :| 0 <= m < |rows| && rows[m] == row;
    assert m == k;
  }

  /** db_get_entry: resolve the identity fields to an id with FindId, then
      fetch that id. */
  function EntryFor(rows: seq<Row>, f: Fields): (r: Result<Entry, Error>)
    ensures r == Failure(NotFound) <==> forall i :: 0 <= i < |rows| ==> rows[i].fields != f
    ensures r.Success? ==> r.value.id == FindId(rows, f)
  {
    match FindId(rows, f)
    case None => Failure(NotFound)
    case Some(id) => EntryById(rows, id)
  }

  /** With distinct ids, the id FindId resolves names the matching row itself,
      so db_get_entry returns an entry with exactly the fields looked up. */
  lemma {:induction false} EntryForFindsMatch(rows: seq<Row>, f: Fields)
    requires UniqueIds(rows)
    requires ValidateVmName(f.vmname).Some? && ValidateAction(f.action).Some?
    ensures FindId(rows, f).Some? ==> EntryFor(rows, f) == Success(Entry(FindId(rows, f), f))
  {
    if FindId(rows, f).Some? {
      var id := FindId(rows, f).value;
      var row := RowById(rows, id).value;
      var k :| 0 <= k < |rows| && rows[k] == Row(id, f);
      var m :| 0 <= m < |rows| && rows[m] == row;
      assert m == k;
    }
  }

  // ---------------------------------------------------------------------
  // Deduplicating insert
  // ---------------------------------------------------------------------

  /** The table and id sequence after an insert, and the id returned. */
  datatype Inserted = Inserted(rows: seq<Row>, nextId: int, id: int)

  /** db_insert_entry: the id of an existing row with the same identity
      fields is returned as is; otherwise -- no such row, or the first such
      row has id 0, which `if entry_id:` reads as absent -- a row is appended
      with the next id of the sequence, and that id is returned. */
  function Insert(rows: seq<Row>, nextId: int, f: Fields): (r: Inserted)
    ensures Row(r.id, f) in r.rows
    ensures r.rows == rows || (r.rows == rows + [Row(nextId, f)] && r.id == nextId && r.nextId == nextId + 1)
    ensures r.rows == rows ==> r.nextId == nextId && FindId(rows, f) == Some(r.id)
    ensures FindId(rows, f).None? ==> r.rows == rows + [Row(nextId, f)]
    ensures FindId(rows, f).Some? && FindId(rows, f).value != 0 ==> r == Inserted(rows, nextId, FindId(rows, f).value)
    ensures FindId(rows, f) == Some(0) ==> r == Inserted(rows + [Row(nextId, f)], nextId + 1, nextId)
  {
    var found := FindId(rows, f);
    if found.Some? && found.value != 0 then
      Inserted(rows, nextId, found.value)
    else
      Inserted(rows + [Row(nextId, f)], nextId + 1, nextId)
  }

  lemma {:induction false} FindIdAppend(rows: seq<Row>, row: Row, f: Fields)
    ensures FindId(rows + [row], f) ==
      if FindId(rows, f).Some? then FindId(rows, f)
      else if row.fields == f then Some(row.id)
      else None
    decreases |rows|
  {
    if rows != [] {
      assert (rows + [row])[1..] == rows[1..] + [row];
      FindIdAppend(rows[1..], row, f);
    }
  }

  /** An insert keeps the ids distinct and below the sequence. */
  lemma {:induction false} InsertKeepsIds(rows: seq<Row>, nextId: int, f: Fields)
    requires UniqueIds(rows) && IdsBelow(rows, nextId)
    ensures UniqueIds(Insert(rows, nextId, f).rows)
    ensures IdsBelow(Insert(rows, nextId, f).rows, Insert(rows, nextId, f).nextId)
  {
  }

  /** Inserting the same fields twice returns the same id both times and adds
      at most one row -- unless an id 0 gets in the way of `if entry_id:`. */
  lemma {:induction false} InsertIdempotent(rows: seq<Row>, nextId: int, f: Fields)
    requires FindId(rows, f) != Some(0)
    requires Insert(rows, nextId, f).id != 0
    ensures var first := Insert(rows, nextId, f);
            Insert(first.rows, first.nextId, f) == first
  {
    var first := Insert(rows, nextId, f);
    if first.rows != rows {
      FindIdAppend(rows, Row(nextId, f), f);
    }
  }

  /** Starting from a table without the fields, two inserts leave exactly one
      row with them, carrying the returned id. */
  lemma {:induction false} InsertTwiceAddsOneRow(rows: seq<Row>, nextId: int, f: Fields)
    requires FindId(rows, f).None? && nextId != 0
    ensures var first := Insert(rows, nextId, f);
            var second := Insert(first.rows, first.nextId, f);
            second.rows == rows + [Row(nextId, f)] && second.id == first.id == nextId
  {
    FindIdAppend(rows, Row(nextId, f), f);
  }

  /** The id 0 quirk: when the first row with the fields has id 0, `if
      entry_id:` reads it as absent, so every insert appends another copy. */
  lemma {:induction false} InsertAfterZeroIdDuplicates(rows: seq<Row>, nextId: int, f: Fields)
    requires FindId(rows, f) == Some(0)
    ensures var first := Insert(rows, nextId, f);
            var second := Insert(first.rows, first.nextId, f);
            first.id == nextId && second.id == nextId + 1 &&
            second.rows == rows + [Row(nextId, f), Row(nextId + 1, f)]
  {
    FindIdAppend(rows, Row(nextId, f), f);
    assert rows + [Row(nextId, f)] + [Row(nextId + 1, f)] == rows + [Row(nextId, f), Row(nextId + 1, f)];
  }

  /** create_entry: after the insert, db_get_entry finds the entry with the
      inserted fields and the id the insert returned. */
  lemma {:induction false} CreateReturnsInserted(rows: seq<Row>, nextId: int, e: Entry)
    requires UniqueIds(rows) && IdsBelow(rows, nextId)
    requires IsValid(e)
    requires FindId(rows, e.fields) != Some(0)
    ensures var ins := Insert(rows, nextId, e.fields);
            EntryFor(ins.rows, e.fields) == Success(Entry(Some(ins.id), e.fields))
  {
    var ins := Insert(rows, nextId, e.fields);
    InsertKeepsIds(rows, nextId, e.fields);
    if ins.rows != rows {
      FindIdAppend(rows, Row(nextId, e.fields), e.fields);
    }
    EntryForFindsMatch(ins.rows, e.fields);
  }

  /** The case CreateReturnsInserted leaves out: when the first matching row
      has id 0, create_entry inserts a copy under a fresh id, yet reading
      back by the fields still finds the id-0 row, so the entry returned does
      not carry the id the insert handed out. */
  lemma {:induction false} CreateAfterZeroIdReadsOld(rows: seq<Row>, nextId: int, e: Entry)
    requires UniqueIds(rows) && IdsBelow(rows, nextId)
    requires IsValid(e)
    requires FindId(rows, e.fields) == Some(0)
    ensures var ins := Insert(rows, nextId, e.fields);
            ins.id != 0 && EntryFor(ins.rows, e.fields) == Success(Entry(Some(0), e.fields))
  {
    var ins := Insert(rows, nextId, e.fields);
    InsertKeepsIds(rows, nextId, e.fields);
    FindIdAppend(rows, Row(nextId, e.fields), e.fields);
    EntryForFindsMatch(ins.rows, e.fields);
  }

  // ---------------------------------------------------------------------
  // Deletion
  // ---------------------------------------------------------------------

  /** Deleting every row whose id is in ids: the rows kept, in store order.
      One db_delete_entry call removes a singleton set; a series of calls is
      stated as one removal of the union (RemoveTwice). */
  function Remove(rows: seq<Row>, ids: set<int>): (r: seq<Row>)
    ensures forall x :: x in r <==> x in rows && x.id !in ids
    ensures |r| <= |rows|
  {
    if rows == [] then []
    else Remove(rows[..|rows| - 1], ids) + (if rows[|rows| - 1].id in ids then [] else [rows[|rows| - 1]])
  }

  lemma {:induction false} RemoveAppend(a: seq<Row>, b: seq<Row>, ids: set<int>)
    ensures Remove(a + b, ids) == Remove(a, ids) + Remove(b, ids)
    decreases |b|
  {
    if b == [] {
      assert a + b == a;
    } else {
      assert (a + b)[..|a + b| - 1] == a + b[..|b| - 1];
      RemoveAppend(a, b[..|b| - 1], ids);
    }
  }

  /** Deleting ids no row carries changes nothing. */
  lemma {:induction false} RemoveAbsent(rows: seq<Row>, ids: set<int>)
    requires forall i :: 0 <= i < |rows| ==> rows[i].id !in ids
    ensures Remove(rows, ids) == rows
    decreases |rows|
  {
    if rows != [] {
      RemoveAbsent(rows[..|rows| - 1], ids);
      assert rows[..|rows| - 1] + [rows[|rows| - 1]] == rows;
    }
  }

  /** db_delete_entry removes the one row with that id, and only it, keeping
      the order of the others. */
  lemma {:induction false} RemoveOne(rows: seq<Row>, k: nat)
    requires UniqueIds(rows) && k < |rows|
    ensures Remove(rows, {rows[k].id}) == rows[..k] + rows[k + 1..]
  {
    RemoveAt(rows, k);
  }

  lemma {:induction false} RemoveAt(rows: seq<Row>, k: nat)
    requires k < |rows|
    requires forall i :: 0 <= i < |rows| && i != k ==> rows[i].id != rows[k].id
    ensures Remove(rows, {rows[k].id}) == rows[..k] + rows[k + 1..]
    decreases |rows|
  {
    if k == |rows| - 1 {
      RemoveLast(rows);
    } else {
      RemoveBeforeLast(rows, k);
    }
  }

  /** The deleted id is carried by the last row only. */
  lemma {:induction false} RemoveLast(rows: seq<Row>)
    requires rows != []
    requires forall i :: 0 <= i < |rows| - 1 ==> rows[i].id != rows[|rows| - 1].id
    ensures Remove(rows, {rows[|rows| - 1].id}) == rows[..|rows| - 1]
  {
    var p := rows[..|rows| - 1];
    assert forall i :: 0 <= i < |p| ==> p[i].id !in {rows[|rows| - 1].id};
    RemoveAbsent(p, {rows[|rows| - 1].id});
  }

  /** The deleted id is carried by row k, before the last row, only. */
  lemma {:induction false} RemoveBeforeLast(rows: seq<Row>, k: nat)
    requires k < |rows| - 1
    requires forall i :: 0 <= i < |rows| && i != k ==> rows[i].id != rows[k].id
    ensures Remove(rows, {rows[k].id}) == rows[..k] + rows[k + 1..]
    decreases |rows|, 0
  {
    var p := rows[..|rows| - 1];
    var last := rows[|rows| - 1];
    assert p[k] == rows[k];
    assert Remove(p, {rows[k].id}) == p[..k] + p[k + 1..] by {
      assert forall i :: 0 <= i < |p| && i != k ==> p[i].id != p[k].id;
      RemoveAt(p, k);
    }
    assert Remove(rows, {rows[k].id}) == Remove(p, {rows[k].id}) + [last];
    SliceSnoc(rows, k);
  }

  /** Cutting row k out of a sequence, with k before the last row. */
  lemma {:induction false} SliceSnoc(rows: seq<Row>, k: nat)
    requires k < |rows| - 1
    ensures var p := rows[..|rows| - 1];
            rows[..k] + rows[k + 1..] == (p[..k] + p[k + 1..]) + [rows[|rows| - 1]]
  {
    var p := rows[..|rows| - 1];
    assert rows[..k] == p[..k];
    assert rows[k + 1..] == p[k + 1..] + [rows[|rows| - 1]];
  }

  /** Deleting one set of ids after another deletes their union. */
  lemma {:induction false} RemoveTwice(rows: seq<Row>, a: set<int>, b: set<int>)
    ensures Remove(Remove(rows, a), b) == Remove(rows, a + b)
    decreases |rows|
  {
    if rows != [] {
      var p := rows[..|rows| - 1];
      var x := rows[|rows| - 1];
      RemoveTwice(p, a, b);
      RemoveAppend(Remove(p, a), if x.id in a then [] else [x], b);
    }
  }

  /** Deleting the ids of a list one at a time: one more step. */
  lemma {:induction false} RemoveNextId(rows: seq<Row>, sel: seq<Row>, i: nat)
    requires i < |sel|
    ensures Remove(Remove(rows, IdSet(sel[..i])), {sel[i].id}) == Remove(rows, IdSet(sel[..i + 1]))
  {
    assert sel[..i + 1] == sel[..i] + [sel[i]];
    IdSetSnoc(sel[..i], sel[i]);
    RemoveTwice(rows, IdSet(sel[..i]), {sel[i].id});
  }

  /** After deleting an id, fetching it finds nothing. */
  lemma {:induction false} DeleteThenGet(rows: seq<Row>, id: int)
    ensures EntryById(Remove(rows, {id}), id) == Failure(NotFound)
  {
    var r := Remove(rows, {id});
    assert forall i :: 0 <= i < |r| ==> r[i] in r;
  }

  lemma {:induction false} RemoveKeepsIds(rows: seq<Row>, nextId: int, ids: set<int>)
    requires UniqueIds(rows) && IdsBelow(rows, nextId)
    ensures UniqueIds(Remove(rows, ids)) && IdsBelow(Remove(rows, ids), nextId)
  {
    RemoveIsSubsequence(rows, ids);
  }

  /** The rows kept by Remove are a subsequence of the original rows. */
  lemma {:induction false} RemoveIsSubsequence(rows: seq<Row>, ids: set<int>)
    requires UniqueIds(rows)
    ensures UniqueIds(Remove(rows, ids))
    ensures forall x :: x in Remove(rows, ids) ==> x in rows
    decreases |rows|
  {
    if rows != [] {
      var p := rows[..|rows| - 1];
      var x := rows[|rows| - 1];
      RemoveIsSubsequence(p, ids);
      var q := Remove(p, ids);
      if x.id !in ids {
        forall i | 0 <= i < |q|
          ensures q[i].id != x.id
        {
          assert q[i] in p;
        }
      }
    }
  }

  // ---------------------------------------------------------------------
  // Selection by vmname
  // ---------------------------------------------------------------------

  /** SELECT * FROM entries WHERE vmname = v: the rows of vmname v, in store
      order. */
  function WhereVmName(rows: seq<Row>, v: string): (r: seq<Row>)
    ensures forall x :: x in r <==> x in rows && x.fields.vmname == v
    ensures |r| <= |rows|
  {
    if rows == [] then []
    else WhereVmName(rows[..|rows| - 1], v) +
         (if rows[|rows| - 1].fields.vmname == v then [rows[|rows| - 1]] else [])
  }

  /** The rows of every other vmname, in store order. */
  function OtherVms(rows: seq<Row>, v: string): (r: seq<Row>)
    ensures forall x :: x in r <==> x in rows && x.fields.vmname != v
  {
    if rows == [] then []
    else OtherVms(rows[..|rows| - 1], v) +
         (if rows[|rows| - 1].fields.vmname != v then [rows[|rows| - 1]] else [])
  }

  /** The ids of some rows. */
  function IdSet(rows: seq<Row>): (ids: set<int>)
    ensures forall x :: x in rows ==> x.id in ids
  {
    if rows == [] then {} else IdSet(rows[..|rows| - 1]) + {rows[|rows| - 1].id}
  }

  lemma {:induction false} IdSetSnoc(rows: seq<Row>, x: Row)
    ensures IdSet(rows + [x]) == IdSet(rows) + {x.id}
  {
    assert (rows + [x])[..|rows|] == rows;
  }

  /** Every id in IdSet(rows) is the id of one of the rows. */
  lemma {:induction false} IdSetSound(rows: seq<Row>, d: int)
    requires d in IdSet(rows)
    ensures exists i :: 0 <= i < |rows| && rows[i].id == d
    decreases |rows|
  {
    var p := rows[..|rows| - 1];
    if d != rows[|rows| - 1].id {
      IdSetSound(p, d);
      var i :| 0 <= i < |p| && p[i].id == d;
      assert rows[i] == p[i];
    }
  }

  lemma {:induction false} RemoveByVm(rows: seq<Row>, ids: set<int>, v: string)
    requires forall i :: 0 <= i < |rows| ==> (rows[i].id in ids <==> rows[i].fields.vmname == v)
    ensures Remove(rows, ids) == OtherVms(rows, v)
    decreases |rows|
  {
    if rows != [] {
      RemoveByVm(rows[..|rows| - 1], ids, v);
    }
  }

  /** delete_entries: deleting the ids of the rows of vmname v leaves exactly
      the rows of the other vmnames, in store order. */
  lemma {:induction false} RemoveVm(rows: seq<Row>, v: string)
    requires UniqueIds(rows)
    ensures Remove(rows, IdSet(WhereVmName(rows, v))) == OtherVms(rows, v)
  {
    var ids := IdSet(WhereVmName(rows, v));
    forall i | 0 <= i < |rows|
      ensures rows[i].id in ids <==> rows[i].fields.vmname == v
    {
      if rows[i].id in ids {
        var sel := WhereVmName(rows, v);
        IdSetSound(sel, rows[i].id);
        var m :| 0 <= m < |sel| && sel[m].id == rows[i].id;
        assert sel[m] in sel;
        var j :| 0 <= j < |rows| && rows[j] == sel[m];
        assert i == j;
      }
      if rows[i].fields.vmname == v {
        assert rows[i] in WhereVmName(rows, v);
      }
    }
    RemoveByVm(rows, ids, v);
  }

  // ---------------------------------------------------------------------
  // Decoding many rows
  // ---------------------------------------------------------------------

  predicate Decodes(row: Row) {
    FromDbRow(row).Success?
  }

  /** Row k is the first row that fails to decode. */
  predicate FirstInvalidAt(rows: seq<Row>, k: int) {
    0 <= k < |rows| && !Decodes(rows[k]) && forall j :: 0 <= j < k ==> Decodes(rows[j])
  }

  /** Entry.from_db_row applied to each row in order; the first row that fails
      validation stops the loop with its errors. */
  function DecodeAll(rows: seq<Row>): (r: Result<seq<Entry>, seq<Field>>)
    ensures r.Success? ==> |r.value| == |rows|
  {
    if rows == [] then Success([])
    else
      match DecodeAll(rows[..|rows| - 1])
      case Failure(errs) => Failure(errs)
      case Success(es) =>
        match FromDbRow(rows[|rows| - 1])
        case Failure(errs) => Failure(errs)
        case Success(e) => Success(es + [e])
  }

  /** The decode succeeds exactly when every row validates, and then yields
      each row's entry with its stored id, in store order. */
  lemma {:induction false} DecodeAllMeaning(rows: seq<Row>)
    ensures var r := DecodeAll(rows);
            (r.Success? <==> forall i :: 0 <= i < |rows| ==> Decodes(rows[i])) &&
            (r.Success? ==> forall i :: 0 <= i < |rows| ==> r.value[i] == Entry(Some(rows[i].id), rows[i].fields))
    decreases |rows|
  {
    if rows != [] {
      var p := rows[..|rows| - 1];
      var last := rows[|rows| - 1];
      DecodeAllMeaning(p);
      assert rows == p + [last];
      match DecodeAll(p)
      case Failure(_) =>
        assert DecodeAll(rows).Failure?;
      case Success(es) =>
        if Decodes(last) {
          assert DecodeAll(rows) == Success(es + [Entry(Some(last.id), last.fields)]);
        } else {
          assert DecodeAll(rows).Failure?;
        }
    }
  }

  /** A failed decode reports the errors of the first row that does not
      validate. */
  lemma {:induction false} DecodeAllFailsAtFirst(rows: seq<Row>)
    ensures var r := DecodeAll(rows);
            r.Failure? ==> exists k :: FirstInvalidAt(rows, k) && r.error == RowErrors(rows[k])
    decreases |rows|
  {
    if rows != [] {
      var p := rows[..|rows| - 1];
      var last := rows[|rows| - 1];
      assert forall i :: 0 <= i < |p| ==> p[i] == rows[i];
      match DecodeAll(p)
      case Failure(errs) =>
        DecodeAllFailsAtFirst(p);
        var k :| FirstInvalidAt(p, k) && errs == RowErrors(p[k]);
        assert FirstInvalidAt(rows, k);
      case Success(es) =>
        if !Decodes(last) {
          DecodeAllMeaning(p);
          assert FirstInvalidAt(rows, |rows| - 1);
        }
    }
  }

  /** A decode that fails on a prefix fails the same way on the whole. */
  lemma {:induction false} DecodeAllExtends(rows: seq<Row>, n: nat)
    requires n <= |rows| && DecodeAll(rows[..n]).Failure?
    ensures DecodeAll(rows) == DecodeAll(rows[..n])
    decreases |rows| - n
  {
    if n < |rows| {
      assert rows[..n + 1][..n] == rows[..n];
      DecodeAllExtends(rows, n + 1);
    } else {
      assert rows[..n] == rows;
    }
  }

  /** One more row that decodes: the list grows by its entry. */
  lemma {:induction false} DecodeAllNext(rows: seq<Row>, i: nat)
    requires i < |rows| && DecodeAll(rows[..i]).Success? && Decodes(rows[i])
    ensures DecodeAll(rows[..i + 1]) == Success(DecodeAll(rows[..i]).value + [Entry(Some(rows[i].id), rows[i].fields)])
  {
    assert rows[..i + 1] == rows[..i] + [rows[i]];
    DecodeAllSnoc(rows[..i], rows[i]);
  }

  /** Once a prefix decodes and the next row does not, the whole decode fails
      with that row's errors. */
  lemma {:induction false} DecodeAllStops(rows: seq<Row>, i: nat)
    requires i < |rows| && DecodeAll(rows[..i]).Success? && !Decodes(rows[i])
    ensures DecodeAll(rows) == Failure(RowErrors(rows[i]))
  {
    assert rows[..i + 1] == rows[..i] + [rows[i]];
    DecodeAllFailsOn(rows[..i], rows[i]);
    DecodeAllExtends(rows, i + 1);
  }

  lemma {:induction false} DecodeAllFailsOn(p: seq<Row>, row: Row)
    requires DecodeAll(p).Success? && !Decodes(row)
    ensures DecodeAll(p + [row]) == Failure(RowErrors(row))
  {
    DecodeAllSnoc(p, row);
  }

  lemma {:induction false} DecodeAllSnoc(p: seq<Row>, row: Row)
    ensures DecodeAll(p + [row]) ==
      match DecodeAll(p)
      case Failure(errs) => Failure(errs)
      case Success(es) =>
        match FromDbRow(row)
        case Failure(errs) => Failure(errs)
        case Success(e) => Success(es + [e])
  {
    assert (p + [row])[..|p|] == p;
  }

  // ---------------------------------------------------------------------
  // Listings
  // ---------------------------------------------------------------------

  /** db_get_entries_for_vm: the decoded rows of vmname v, in store order;
      NotFound when there are none. */
  function EntriesForVm(rows: seq<Row>, v: string): (r: Result<seq<Entry>, Error>)
    ensures r == Failure(NotFound) <==> forall i :: 0 <= i < |rows| ==> rows[i].fields.vmname != v
  {
    var sel := WhereVmName(rows, v);
    assert sel != [] ==> sel[0] in sel;
    if sel == [] then Failure(NotFound)
    else
      match DecodeAll(sel)
      case Failure(errs) => Failure(Invalid(errs))
      case Success(es) => Success(es)
  }

  /** The listing for v succeeds exactly when some row has vmname v and every
      such row validates. */
  lemma {:induction false} EntriesForVmSucceeds(rows: seq<Row>, v: string)
    ensures EntriesForVm(rows, v).Success? <==>
              (exists i :: 0 <= i < |rows| && rows[i].fields.vmname == v) &&
              (forall i :: 0 <= i < |rows| && rows[i].fields.vmname == v ==> Decodes(rows[i]))
  {
    DecodeAllMeaning(WhereVmName(rows, v));
    SelectionDecodes(rows, v);
  }

  /** The selected rows all validate iff every row of vmname v does. */
  lemma {:induction false} SelectionDecodes(rows: seq<Row>, v: string)
    ensures var sel := WhereVmName(rows, v);
            (forall j :: 0 <= j < |sel| ==> Decodes(sel[j])) <==>
            (forall i :: 0 <= i < |rows| && rows[i].fields.vmname == v ==> Decodes(rows[i]))
  {
    var sel := WhereVmName(rows, v);
    forall i | 0 <= i < |rows| && rows[i].fields.vmname == v
      ensures exists j :: 0 <= j < |sel| && sel[j] == rows[i]
    {
      assert rows[i] in sel;
    }
    forall j | 0 <= j < |sel|
      ensures exists i :: 0 <= i < |rows| && rows[i] == sel[j] && rows[i].fields.vmname == v
    {
      assert sel[j] in sel;
    }
  }

  /** The listing for v holds exactly the stored entries of vmname v, each
      with its stored id, in store order. */
  lemma {:induction false} EntriesForVmExact(rows: seq<Row>, v: string)
    ensures var r := EntriesForVm(rows, v);
            var sel := WhereVmName(rows, v);
            r.Success? ==>
              (|r.value| == |sel| &&
               (forall i :: 0 <= i < |sel| ==> r.value[i] == Entry(Some(sel[i].id), sel[i].fields)) &&
               (forall e :: e in r.value ==> e.fields.vmname == v && Row(e.id.value, e.fields) in rows))
  {
    var r := EntriesForVm(rows, v);
    var sel := WhereVmName(rows, v);
    DecodeAllMeaning(sel);
    if r.Success? {
      forall e | e in r.value
        ensures e.fields.vmname == v && Row(e.id.value, e.fields) in rows
      {
        var i :| 0 <= i < |r.value| && r.value[i] == e;
        assert sel[i] in sel;
      }
    }
  }

  /** db_get_all_entries: NotFound for an empty table; otherwise every row
      decoded, in store order, then grouped by vmname. */
  function AllEntries(rows: seq<Row>): (r: Result<seq<Entry>, Error>)
    ensures r == Failure(NotFound) <==> rows == []
  {
    if rows == [] then Failure(NotFound)
    else
      match DecodeAll(rows)
      case Failure(errs) => Failure(Invalid(errs))
      case Success(es) => Success(Group(es))
  }

  /** The listing is a permutation of the decoded rows, with each vmname's
      entries in one block, the blocks in first-seen order, and each block in
      store order. */
  lemma {:induction false} AllEntriesListing(rows: seq<Row>)
    ensures AllEntries(rows).Success? <==> rows != [] && forall i :: 0 <= i < |rows| ==> Decodes(rows[i])
    ensures var r := AllEntries(rows);
            r.Success? ==>
              (var es := DecodeAll(rows).value;
               multiset(r.value) == multiset(es) &&
               Contiguous(r.value) &&
               FirstSeen(r.value) == FirstSeen(es) &&
               forall v :: OfVm(r.value, v) == OfVm(es, v))
  {
    var r := AllEntries(rows);
    DecodeAllMeaning(rows);
    if r.Success? {
      var es := DecodeAll(rows).value;
      GroupIsPermutation(es);
      GroupIsContiguous(es);
      GroupOrder(es);
      forall v
        ensures OfVm(r.value, v) == OfVm(es, v)
      {
        GroupIsStable(es, v);
      }
    }
  }
}

/** The repository of api/main.py over the `entries` table: one method per
    db_* function, and the logic of the create_entry, delete_entries and
    delete_entry handlers without HTTP. The table is the in-memory sequence
    `rows` in store order; `nextId` is the table's id sequence. */
module Repository {
  import opened Wrappers
  import opened EntryModel
  import opened Grouping
  import opened Table

  /** The dictionary `entry_lookup` of db_get_all_entries after filing the
      entries `seen`: `keys` lists its keys in insertion order, and each key
      maps to the entries of that vmname in store order. */
  ghost predicate Indexes(lookup: map<string, seq<Entry>>, keys: seq<string>, seen: seq<Entry>) {
    && keys == FirstSeen(seen)
    && (forall v :: v in lookup <==> v in keys)
    && (forall v :: v in lookup ==> lookup[v] == OfVm(seen, v))
  }

  /** Filing one more entry: add its vmname as a key if it is new, then
      append the entry to that key's list. */
  lemma {:induction false} FileEntry(lookup: map<string, seq<Entry>>, keys: seq<string>, seen: seq<Entry>, e: Entry,
                                     lookup': map<string, seq<Entry>>, keys': seq<string>)
    requires Indexes(lookup, keys, seen)
    requires keys' == if e.fields.vmname in lookup then keys else keys + [e.fields.vmname]
    requires forall w :: w in lookup' <==> w in lookup || w == e.fields.vmname
    requires forall w :: w in lookup && w != e.fields.vmname ==> lookup'[w] == lookup[w]
    requires e.fields.vmname in lookup'
    requires lookup'[e.fields.vmname] == (if e.fields.vmname in lookup then lookup[e.fields.vmname] else []) + [e]
    ensures Indexes(lookup', keys', seen + [e])
  {
    FileEntryKeys(lookup, keys, seen, e, lookup', keys');
    FileEntryLists(lookup, keys, seen, e, lookup');
  }

  lemma {:induction false} FileEntryKeys(lookup: map<string, seq<Entry>>, keys: seq<string>, seen: seq<Entry>, e: Entry,
                                         lookup': map<string, seq<Entry>>, keys': seq<string>)
    requires keys == FirstSeen(seen)
    requires forall v :: v in lookup <==> v in keys
    requires keys' == if e.fields.vmname in lookup then keys else keys + [e.fields.vmname]
    requires forall w :: w in lookup' <==> w in lookup || w == e.fields.vmname
    ensures keys' == FirstSeen(seen + [e])
    ensures forall v :: v in lookup' <==> v in keys'
  {
    FirstSeenSnoc(seen, e);
  }

  lemma {:induction false} FileEntryLists(lookup: map<string, seq<Entry>>, keys: seq<string>, seen: seq<Entry>, e: Entry,
                                          lookup': map<string, seq<Entry>>)
    requires keys == FirstSeen(seen)
    requires forall v :: v in lookup <==> v in keys
    requires forall v :: v in lookup ==> lookup[v] == OfVm(seen, v)
    requires forall w :: w in lookup' <==> w in lookup || w == e.fields.vmname
    requires forall w :: w in lookup && w != e.fields.vmname ==> lookup'[w] == lookup[w]
    requires e.fields.vmname in lookup'
    requires lookup'[e.fields.vmname] == (if e.fields.vmname in lookup then lookup[e.fields.vmname] else []) + [e]
    ensures forall w :: w in lookup' ==> lookup'[w] == OfVm(seen + [e], w)
  {
    var v := e.fields.vmname;
    forall w | w in lookup'
      ensures lookup'[w] == OfVm(seen + [e], w)
    {
      OfVmSnoc(seen, e, w);
      if w == v && v !in lookup {
        OfVmAbsent(seen, v);
      }
    }
  }

  /** One pass of that loop: add the entry's vmname as a key if it is new,
      then append the entry to that key's list. */
  method File(lookup: map<string, seq<Entry>>, keys: seq<string>, ghost seen: seq<Entry>, e: Entry)
    returns (lookup': map<string, seq<Entry>>, keys': seq<string>)
    requires Indexes(lookup, keys, seen)
    ensures Indexes(lookup', keys', seen + [e])
  {
    var v := e.fields.vmname;
    lookup', keys' := lookup, keys;
    if v !in lookup' {
      lookup' := lookup'[v := []];
      keys' := keys' + [v];
    }
    lookup' := lookup'[v := lookup'[v] + [e]];
    FileEntry(lookup, keys, seen, e, lookup', keys');
  }

  /** The first loop of db_get_all_entries: decode each row and file it
      under its vmname, in a dictionary whose keys keep their insertion
      order. The first row that fails to decode ends the loop with its
      errors. */
  method FileRows(data: seq<Row>) returns (r: Result<(map<string, seq<Entry>>, seq<string>), Error>)
    ensures r.Success? <==> DecodeAll(data).Success?
    ensures r.Failure? ==> r.error == Invalid(DecodeAll(data).error)
    ensures r.Success? ==> Indexes(r.value.0, r.value.1, DecodeAll(data).value)
  {
    var lookup: map<string, seq<Entry>> := map[];
    var keys: seq<string> := [];  // the dictionary's keys, in insertion order
    ghost var seen: seq<Entry> := [];
    var i := 0;
    while i < |data|
      invariant 0 <= i <= |data|
      invariant DecodeAll(data[..i]) == Success(seen)
      invariant Indexes(lookup, keys, seen)
    {
      var decoded := FromDbRow(data[i]);
      if decoded.Failure? {
        DecodeAllStops(data, i);
        return Failure(Invalid(decoded.error));
      }
      var entry := decoded.value;
      DecodeAllNext(data, i);
      lookup, keys := File(lookup, keys, seen, entry);
      seen := seen + [entry];
      i := i + 1;
    }
    assert data[..i] == data;
    r := Success((lookup, keys));
  }

  /** The second loop of db_get_all_entries: the lists of the dictionary
      concatenated in key order. */
  method Flatten(lookup: map<string, seq<Entry>>, keys: seq<string>, ghost seen: seq<Entry>)
    returns (all: seq<Entry>)
    requires forall v :: v in keys ==> v in lookup && lookup[v] == OfVm(seen, v)
    ensures all == Concat(keys, seen)
  {
    all := [];
    var j := 0;
    while j < |keys|
      invariant 0 <= j <= |keys|
      invariant all == Concat(keys[..j], seen)
    {
      assert keys[j] in keys;
      ConcatNext(keys, j, seen);
      all := all + lookup[keys[j]];
      j := j + 1;
    }
    assert keys[..j] == keys;
  }

  class Store {
    var rows: seq<Row>
    var nextId: int

    /** Ids are distinct and were all handed out before `nextId`. */
    ghost predicate Valid()
      reads this
    {
      UniqueIds(rows) && IdsBelow(rows, nextId)
    }

    /** Attach to a table holding `initial`, whose id sequence will hand out
        `next` first. */
    constructor (initial: seq<Row>, next: int)
      requires UniqueIds(initial) && IdsBelow(initial, next)
      ensures Valid()
      ensures rows == initial && nextId == next
    {
      rows := initial;
      nextId := next;
    }

    /** db_get_entry_id: the id of the first row with the entry's six identity
        fields; None stands for EntryNotFoundError. */
    method GetEntryId(e: Entry) returns (r: Option<int>)
      ensures r == FindId(rows, e.fields)
      ensures r.None? <==> forall i :: 0 <= i < |rows| ==> rows[i].fields != e.fields
    {
      r := FindId(rows, e.fields);
    }

    /** db_get_entry_by_id. */
    method GetEntryById(id: int) returns (r: Result<Entry, Error>)
      ensures r == EntryById(rows, id)
      ensures r == Failure(NotFound) <==> forall i :: 0 <= i < |rows| ==> rows[i].id != id
      ensures r.Success? ==> r.value.id == Some(id) && Row(id, r.value.fields) in rows
      ensures Valid() ==> forall k :: 0 <= k < |rows| && rows[k].id == id ==> r == Decode(rows[k])
    {
      r := EntryById(rows, id);
      if Valid() {
        forall k | 0 <= k < |rows| && rows[k].id == id
          ensures r == Decode(rows[k])
        {
          EntryByIdFinds(rows, k);
        }
      }
    }

    /** db_insert_entry: look the entry up; return the id found unless it is
        missing or 0, else append a row with the next id. */
    method InsertEntry(e: Entry) returns (id: int)
      requires Valid()
      modifies this
      ensures Valid()
      ensures Inserted(rows, nextId, id) == Insert(old(rows), old(nextId), e.fields)
      ensures Row(id, e.fields) in rows
    {
      var found := GetEntryId(e);
      if found.Some? && found.value != 0 {
        id := found.value;
        return;
      }
      InsertKeepsIds(rows, nextId, e.fields);
      id := nextId;
      rows := rows + [Row(id, e.fields)];
      nextId := nextId + 1;
    }

    /** db_get_all_entries: NotFound on an empty table; otherwise decode each
        row, filing it under its vmname in a dictionary whose keys keep their
        insertion order, then concatenate the lists in key order. */
    method GetAllEntries() returns (r: Result<seq<Entry>, Error>)
      ensures r == AllEntries(rows)
      ensures r == Failure(NotFound) <==> rows == []
    {
      var data := rows;
      if data == [] {
        return Failure(NotFound);
      }
      var filed := FileRows(data);
      if filed.Failure? {
        return Failure(filed.error);
      }
      var all := Flatten(filed.value.0, filed.value.1, DecodeAll(data).value);
      r := Success(all);
    }

    /** db_get_entry: resolve the entry's identity fields to an id, then fetch
        that id. */
    method GetEntry(e: Entry) returns (r: Result<Entry, Error>)
      ensures r == EntryFor(rows, e.fields)
      ensures r == Failure(NotFound) <==> forall i :: 0 <= i < |rows| ==> rows[i].fields != e.fields
    {
      var id := GetEntryId(e);
      if id.None? {
        return Failure(NotFound);
      }
      r := EntryById(rows, id.value);
    }

    /** db_get_entries_for_vm: select the rows of vmname v, NotFound if there
        are none, else decode them one by one into a list. */
    method GetEntriesForVm(v: string) returns (r: Result<seq<Entry>, Error>)
      ensures r == EntriesForVm(rows, v)
      ensures r == Failure(NotFound) <==> forall i :: 0 <= i < |rows| ==> rows[i].fields.vmname != v
    {
      var data := WhereVmName(rows, v);
      if data == [] {
        return Failure(NotFound);
      }
      var entries: seq<Entry> := [];
      var i := 0;
      while i < |data|
        invariant 0 <= i <= |data|
        invariant DecodeAll(data[..i]) == Success(entries)
      {
        var decoded := FromDbRow(data[i]);
        if decoded.Failure? {
          DecodeAllStops(data, i);
          return Failure(Invalid(decoded.error));
        }
        DecodeAllNext(data, i);
        entries := entries + [decoded.value];
        i := i + 1;
      }
      assert data[..i] == data;
      r := Success(entries);
    }

    /** db_delete_entry: delete the row with that id, if any. */
    method DeleteEntry(id: int)
      requires Valid()
      modifies this
      ensures Valid()
      ensures rows == Remove(old(rows), {id}) && nextId == old(nextId)
    {
      RemoveKeepsIds(rows, nextId, {id});
      rows := Remove(rows, {id});
    }

    /** create_entry: insert, then read the entry back by its identity fields. */
    method CreateEntry(e: Entry) returns (r: Result<Entry, Error>)
      requires Valid()
      modifies this
      ensures Valid()
      ensures rows == Insert(old(rows), old(nextId), e.fields).rows
      ensures nextId == Insert(old(rows), old(nextId), e.fields).nextId
      ensures r == EntryFor(rows, e.fields)
      ensures IsValid(e) && old(FindId(rows, e.fields)) != Some(0) ==>
                r == Success(Entry(Some(Insert(old(rows), old(nextId), e.fields).id), e.fields))
    {
      ghost var before, next := rows, nextId;
      var id := InsertEntry(e);
      r := GetEntry(e);
      if IsValid(e) && FindId(before, e.fields) != Some(0) {
        CreateReturnsInserted(before, next, e);
      }
    }

    /** delete_entries: list the rows of vmname v, delete each by id, and
        return the list; any failure of the listing reads as NotFound, and then
        nothing is deleted. */
    method DeleteEntries(v: string) returns (r: Result<seq<Entry>, Error>)
      requires Valid()
      modifies this
      ensures Valid() && nextId == old(nextId)
      ensures EntriesForVm(old(rows), v).Failure? ==> r == Failure(NotFound) && rows == old(rows)
      ensures EntriesForVm(old(rows), v).Success? ==>
                r == EntriesForVm(old(rows), v) && rows == OtherVms(old(rows), v)
    {
      var found := GetEntriesForVm(v);
      if found.Failure? {
        return Failure(NotFound);
      }
      ghost var sel := WhereVmName(rows, v);
      EntriesForVmExact(rows, v);
      RemoveVm(rows, v);
      DeleteEach(found.value, sel);
      r := found;
    }

    /** The loop of delete_entries: db_delete_entry on the id of each listed
        entry in turn. */
    method DeleteEach(entries: seq<Entry>, ghost sel: seq<Row>)
      requires Valid()
      requires |entries| == |sel|
      requires forall k :: 0 <= k < |sel| ==> entries[k].id == Some(sel[k].id)
      modifies this
      ensures Valid() && nextId == old(nextId)
      ensures rows == Remove(old(rows), IdSet(sel))
    {
      assert rows == Remove(rows, IdSet(sel[..0])) by {
        assert sel[..0] == [];
        RemoveAbsent(rows, {});
      }
      var i := 0;
      while i < |entries|
        invariant 0 <= i <= |entries|
        invariant Valid() && nextId == old(nextId)
        invariant rows == Remove(old(rows), IdSet(sel[..i]))
      {
        RemoveNextId(old(rows), sel, i);
        DeleteEntry(entries[i].id.value);
        i := i + 1;
      }
      assert sel[..i] == sel;
    }

    /** delete_entry: fetch the id; NotFound if absent, Mismatch without
        deleting if the row belongs to another vmname, else delete it. A row
        that fails validation propagates its error. */
    method DeleteEntryOf(v: string, id: int) returns (r: Outcome<Error>)
      requires Valid()
      modifies this
      ensures Valid() && nextId == old(nextId)
      ensures EntryById(old(rows), id).Failure? ==>
                r == Fail(EntryById(old(rows), id).error) && rows == old(rows)
      ensures EntryById(old(rows), id).Success? && EntryById(old(rows), id).value.fields.vmname != v ==>
                r == Fail(Mismatch) && rows == old(rows)
      ensures EntryById(old(rows), id).Success? && EntryById(old(rows), id).value.fields.vmname == v ==>
                r == Pass && rows == Remove(old(rows), {id})
    {
      var found := GetEntryById(id);
      if found.Failure? {
        return Fail(found.error);
      }
      if found.value.fields.vmname != v {
        return Fail(Mismatch);
      }
      DeleteEntry(id);
      r := Pass;
    }
  }
}

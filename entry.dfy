/** The Entry record of api/main.py: its two field validators, its field
    defaults, and the decoding of a positional database row into an Entry. */
module EntryModel {
  import opened Wrappers

  // ---------------------------------------------------------------------
  // validate_vmname: re.match(r"^[a-zA-Z0-9-_]+$", name)
  // ---------------------------------------------------------------------

  /** The character class [a-zA-Z0-9-_]: ASCII letters, digits, '-' and '_'. */
  predicate IsNameChar(c: char) {
    ('a' <= c <= 'z') || ('A' <= c <= 'Z') || ('0' <= c <= '9') || c == '-' || c == '_'
  }

  predicate AllNameChars(s: string) {
    NameCharsBefore(s, |s|)
  }

  /** The first k characters of s are class characters. */
  predicate NameCharsBefore(s: string, k: nat)
    requires k <= |s|
  {
    forall i :: 0 <= i < k ==> IsNameChar(s[i])
  }

  /** Python's `$` without MULTILINE matches at position k when k is the end of
      the string, or when k is just before a newline that ends the string. */
  predicate DollarAt(s: string, k: nat) {
    k == |s| || (k + 1 == |s| && s[k] == '\n')
  }

  /** The regular expression's meaning: `^` anchors at 0, `[...]+` may end at any
      position k >= 1 reached through class characters only, and `$` must then
      hold at k. */
  ghost predicate PatternMatches(s: string) {
    exists k: nat :: 1 <= k <= |s| && NameCharsBefore(s, k) && DollarAt(s, k)
  }

  /** How far the greedy `[a-zA-Z0-9-_]+` runs from the start of s. */
  function NameRun(s: string): (n: nat)
    ensures n <= |s|
    ensures NameCharsBefore(s, n)
    ensures n < |s| ==> !IsNameChar(s[n])
  {
    if s == [] || !IsNameChar(s[0]) then 0 else 1 + NameRun(s[1..])
  }

  /** Any position where the pattern can end is where the greedy run ends. */
  lemma {:induction false} MatchEndsAtRun(s: string, k: nat)
    requires 1 <= k <= |s| && NameCharsBefore(s, k) && DollarAt(s, k)
    ensures k == NameRun(s)
  {
  }

  /** validate_vmname: accepts the name unchanged when the greedy run of class
      characters is non-empty and `$` holds where it stops; raises (None)
      otherwise. */
  function ValidateVmName(name: string): (r: Option<string>)
    ensures r.Some? ==> r.value == name
  {
    var n := NameRun(name);
    if 1 <= n && DollarAt(name, n) then Some(name) else None
  }

  /** The greedy run decides the pattern: it never needs to backtrack, because
      `$` cannot hold in the middle of a run of class characters. */
  lemma {:induction false} VmNameMatchesPattern(name: string)
    ensures ValidateVmName(name).Some? <==> PatternMatches(name)
  {
    var n := NameRun(name);
    forall k: nat | 1 <= k <= |name| && NameCharsBefore(name, k) && DollarAt(name, k)
      ensures k == n
    {
      MatchEndsAtRun(name, k);
    }
  }

  /** The closed form of what validate_vmname accepts: a non-empty string of
      class characters, optionally followed by one final newline. */
  lemma {:induction false} VmNameAcceptedIff(name: string)
    ensures ValidateVmName(name).Some? <==>
      (|name| >= 1 && AllNameChars(name)) ||
      (|name| >= 2 && name[|name| - 1] == '\n' && AllNameChars(name[..|name| - 1]))
  {
    VmNameMatchesPattern(name);
    var n := NameRun(name);
    if |name| >= 1 && AllNameChars(name) {
      assert name[..|name|] == name;
      assert DollarAt(name, |name|);
    }
    if |name| >= 2 && name[|name| - 1] == '\n' && AllNameChars(name[..|name| - 1]) {
      assert DollarAt(name, |name| - 1);
    }
    if ValidateVmName(name).Some? {
      if n == |name| {
        assert name[..n] == name;
      } else {
        assert name[..n] == name[..|name| - 1];
      }
    }
  }

  /** A trailing newline passes the validator, and is kept in the name. */
  lemma {:induction false} TrailingNewlineAccepted()
    ensures ValidateVmName("web01\n") == Some("web01\n")
    ensures ValidateVmName("web01\n\n").None?
  {
    VmNameAcceptedIff("web01\n");
    assert "web01\n"[..5] == "web01";
    VmNameAcceptedIff("web01\n\n");
    assert "web01\n\n"[5] == '\n';
  }

  /** The empty name, a lone newline and a name with a space are rejected. */
  lemma {:induction false} NonNamesRejected()
    ensures ValidateVmName("\n").None?
    ensures ValidateVmName("").None?
    ensures ValidateVmName("web 01").None?
  {
    VmNameAcceptedIff("\n");
    VmNameAcceptedIff("web 01");
    assert "web 01"[3] == ' ';
    assert "web 01"[..5][3] == ' ';
  }

  // ---------------------------------------------------------------------
  // validate_action
  // ---------------------------------------------------------------------

  /** The list the action is looked up in. */
  const Actions: seq<string> := ["allow", "reject"]

  /** validate_action: accepts the action unchanged when it is one of the
      listed actions, and raises (None) otherwise. */
  function ValidateAction(action: string): (r: Option<string>)
    ensures r.Some? <==> action == "allow" || action == "reject"
    ensures r.Some? ==> r.value == action
  {
    if action in Actions then Some(action) else None
  }

  /** The comparison is case-sensitive. */
  lemma {:induction false} ActionIsCaseSensitive()
    ensures ValidateAction("Allow").None?
    ensures ValidateAction("REJECT").None?
    ensures ValidateAction("allow ").None?
  {
    assert "Allow"[0] != "allow"[0];
    assert "REJECT"[0] != "reject"[0];
  }

  // ---------------------------------------------------------------------
  // Entry
  // ---------------------------------------------------------------------

  /** The six identity fields of an entry: two entries are the same logical
      entry exactly when these are equal. */
  datatype Fields = Fields(
    vmname: string,
    comment: string,
    source: string,
    service: string,
    action: string,
    inputSource: string)

  /** An Entry value: the surrogate id is absent before insertion. */
  datatype Entry = Entry(id: Option<int>, fields: Fields)

  /** A stored row of the `entries` table, in column order. */
  datatype Row = Row(id: int, fields: Fields)

  /** The fields whose validator rejects a value. */
  datatype Field = VmName | Action

  const DefaultAction: string := "allow"

  /** The list of validation errors the constructor reports, in field order. */
  function FieldErrors(vmname: string, action: string): (errs: seq<Field>)
    ensures VmName in errs <==> ValidateVmName(vmname).None?
    ensures Action in errs <==> ValidateAction(action).None?
    ensures |errs| <= 2
  {
    (if ValidateVmName(vmname).None? then [VmName] else []) +
    (if ValidateAction(action).None? then [Action] else [])
  }

  /** An entry that both validators accept: every Entry object the service
      builds is one. */
  predicate IsValid(e: Entry) {
    ValidateVmName(e.fields.vmname).Some? && ValidateAction(e.fields.action).Some?
  }

  /** Entry(...): the constructor. `id` defaults to None and `action` to
      "allow" when omitted; construction fails, reporting every failing field,
      when a validator rejects its value. */
  function NewEntry(id: Option<int>, vmname: string, comment: string, source: string,
                    service: string, action: Option<string>, inputSource: string)
    : (r: Result<Entry, seq<Field>>)
    ensures r.Success? <==> ValidateVmName(vmname).Some? && ValidateAction(action.GetOr(DefaultAction)).Some?
    ensures r.Success? ==> IsValid(r.value) && r.value.id == id
    ensures r.Success? ==> r.value.fields == Fields(vmname, comment, source, service, action.GetOr(DefaultAction), inputSource)
    ensures r.Failure? ==> r.error != [] && r.error == FieldErrors(vmname, action.GetOr(DefaultAction))
  {
    var act := action.GetOr(DefaultAction);
    var errs := FieldErrors(vmname, act);
    if errs == [] then
      Success(Entry(id, Fields(vmname, comment, source, service, act, inputSource)))
    else
      Failure(errs)
  }

  /** An entry built without an id or an action has no id and action "allow". */
  lemma {:induction false} DefaultsApplied(vmname: string, comment: string, source: string, service: string, inputSource: string)
    requires ValidateVmName(vmname).Some?
    ensures NewEntry(None, vmname, comment, source, service, None, inputSource)
         == Success(Entry(None, Fields(vmname, comment, source, service, "allow", inputSource)))
  {
    assert ValidateAction(DefaultAction).Some?;
  }

  /** Entry.from_db_row: column i of the row becomes the i-th field, and the
      row goes through the constructor, so both validators run again. */
  function FromDbRow(row: Row): (r: Result<Entry, seq<Field>>)
    ensures r.Success? <==> ValidateVmName(row.fields.vmname).Some? && ValidateAction(row.fields.action).Some?
    ensures r.Success? ==> r.value == Entry(Some(row.id), row.fields)
    ensures r.Failure? ==> r.error == FieldErrors(row.fields.vmname, row.fields.action)
  {
    var f := row.fields;
    NewEntry(Some(row.id), f.vmname, f.comment, f.source, f.service, Some(f.action), f.inputSource)
  }

  /** The row an insert writes for an entry decodes back to that entry, now
      carrying the stored id. */
  lemma {:induction false} RowRoundTrip(id: int, e: Entry)
    requires IsValid(e)
    ensures FromDbRow(Row(id, e.fields)) == Success(Entry(Some(id), e.fields))
  {
  }
}

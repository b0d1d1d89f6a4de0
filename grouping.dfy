/** The listing order of db_get_all_entries: entries grouped by vmname, the
    groups in the order their vmname is first seen, each group in store order.
    Every sequence here is built from the back, the way the loops in the
    service extend their lists. */
module Grouping {
  import opened EntryModel

  /** The entries of es whose vmname is v, in their order in es: the list
      `entry_lookup[v]` holds. */
  function OfVm(es: seq<Entry>, v: string): (r: seq<Entry>)
    ensures |r| <= |es|
  {
    if es == [] then []
    else OfVm(es[..|es| - 1], v) + (if es[|es| - 1].fields.vmname == v then [es[|es| - 1]] else [])
  }

  /** The group of v holds exactly the entries of es whose vmname is v. */
  lemma {:induction false} OfVmMembers(es: seq<Entry>, v: string)
    ensures forall e :: e in OfVm(es, v) <==> e in es && e.fields.vmname == v
    ensures |OfVm(es, v)| <= |es|
    decreases |es|
  {
    if es != [] {
      var p := es[..|es| - 1];
      OfVmMembers(p, v);
      assert es == p + [es[|es| - 1]];
    }
  }

  predicate Distinct(vs: seq<string>) {
    forall i, j :: 0 <= i < j < |vs| ==> vs[i] != vs[j]
  }

  /** The vmnames of es, each once, in the order they first occur: the key
      order of the dictionary `entry_lookup`. */
  function FirstSeen(es: seq<Entry>): (vs: seq<string>)
    ensures Distinct(vs)
    ensures forall v :: v in vs <==> exists e :: e in es && e.fields.vmname == v
  {
    if es == [] then []
    else
      var e := es[|es| - 1];
      var p := FirstSeen(es[..|es| - 1]);
      assert forall x :: x in es <==> x in es[..|es| - 1] || x == e;
      if e.fields.vmname in p then p else p + [e.fields.vmname]
  }

  /** The groups of vs, one after the other: `all_entries` after extending it
      with each listed group. */
  function Concat(vs: seq<string>, es: seq<Entry>): (r: seq<Entry>)
    ensures forall e :: e in r ==> e in es && e.fields.vmname in vs
  {
    if vs == [] then []
    else
      OfVmMembers(es, vs[|vs| - 1]);
      Concat(vs[..|vs| - 1], es) + OfVm(es, vs[|vs| - 1])
  }

  /** The listing: all groups, in first-seen order. */
  function Group(es: seq<Entry>): (r: seq<Entry>)
    ensures forall e :: e in r ==> e in es
  {
    Concat(FirstSeen(es), es)
  }

  // ---------------------------------------------------------------------
  // One more entry, one more key
  // ---------------------------------------------------------------------

  lemma {:induction false} OfVmSnoc(es: seq<Entry>, e: Entry, v: string)
    ensures OfVm(es + [e], v) == OfVm(es, v) + (if e.fields.vmname == v then [e] else [])
  {
    assert (es + [e])[..|es|] == es;
  }

  lemma {:induction false} FirstSeenSnoc(es: seq<Entry>, e: Entry)
    ensures FirstSeen(es + [e]) ==
      if e.fields.vmname in FirstSeen(es) then FirstSeen(es) else FirstSeen(es) + [e.fields.vmname]
  {
    assert (es + [e])[..|es|] == es;
  }

  lemma {:induction false} ConcatSnoc(vs: seq<string>, v: string, es: seq<Entry>)
    ensures Concat(vs + [v], es) == Concat(vs, es) + OfVm(es, v)
  {
    assert (vs + [v])[..|vs|] == vs;
  }

  lemma {:induction false} ConcatNext(vs: seq<string>, j: nat, es: seq<Entry>)
    requires j < |vs|
    ensures Concat(vs[..j + 1], es) == Concat(vs[..j], es) + OfVm(es, vs[j])
  {
    assert vs[..j + 1] == vs[..j] + [vs[j]];
    ConcatSnoc(vs[..j], vs[j], es);
  }

  /** The keys come in order of first occurrence: wherever a later key
      occurs in es, an earlier key has already occurred before it. */
  lemma {:induction false} FirstSeenOrder(es: seq<Entry>, i: nat, j: nat, q: nat)
    requires i < j < |FirstSeen(es)|
    requires q < |es| && es[q].fields.vmname == FirstSeen(es)[j]
    ensures exists p :: 0 <= p < q && es[p].fields.vmname == FirstSeen(es)[i]
    decreases |es|
  {
    var vs := FirstSeen(es);
    var p := es[..|es| - 1];
    var e := es[|es| - 1];
    var pv := FirstSeen(p);
    assert vs == pv || vs == pv + [e.fields.vmname];
    assert vs[i] == pv[i];
    if q < |p| {
      assert p[q] == es[q] && p[q] in p;
      assert vs[j] in pv;
      assert j < |pv| && vs[j] == pv[j];
      FirstSeenOrder(p, i, j, q);
      var m :| 0 <= m < q && p[m].fields.vmname == pv[i];
      assert es[m] == p[m];
    } else {
      assert pv[i] in pv;
      var x :| x in p && x.fields.vmname == pv[i];
      var m :| 0 <= m < |p| && p[m] == x;
      assert es[m] == p[m];
    }
  }

  // ---------------------------------------------------------------------
  // OfVm distributes over concatenation
  // ---------------------------------------------------------------------

  lemma {:induction false} OfVmAppend(a: seq<Entry>, b: seq<Entry>, v: string)
    ensures OfVm(a + b, v) == OfVm(a, v) + OfVm(b, v)
    decreases |b|
  {
    if b == [] {
      assert a + b == a;
    } else {
      var b' := b[..|b| - 1];
      assert (a + b)[..|a + b| - 1] == a + b';
      OfVmAppend(a, b', v);
    }
  }

  /** Selecting v inside the group of w yields the group of v when v == w and
      nothing otherwise. */
  lemma {:induction false} OfVmOfVm(es: seq<Entry>, w: string, v: string)
    ensures OfVm(OfVm(es, w), v) == if v == w then OfVm(es, v) else []
    decreases |es|
  {
    if es != [] {
      var p := es[..|es| - 1];
      var e := es[|es| - 1];
      OfVmOfVm(p, w, v);
      OfVmAppend(OfVm(p, w), if e.fields.vmname == w then [e] else [], v);
    }
  }

  /** The selection of v from the concatenated groups is v's group if v is
      listed, and empty otherwise. */
  lemma {:induction false} OfVmConcat(vs: seq<string>, es: seq<Entry>, v: string)
    requires Distinct(vs)
    ensures OfVm(Concat(vs, es), v) == if v in vs then OfVm(es, v) else []
    decreases |vs|
  {
    if vs != [] {
      var ws := vs[..|vs| - 1];
      var w := vs[|vs| - 1];
      assert forall x :: x in vs <==> x in ws || x == w;
      OfVmConcat(ws, es, v);
      OfVmAppend(Concat(ws, es), OfVm(es, w), v);
      OfVmOfVm(es, w, v);
    }
  }

  /** A vmname no entry carries has an empty group. */
  lemma {:induction false} OfVmAbsent(es: seq<Entry>, v: string)
    requires forall e :: e in es ==> e.fields.vmname != v
    ensures OfVm(es, v) == []
    decreases |es|
  {
    if es != [] {
      assert forall e :: e in es[..|es| - 1] ==> e in es;
      OfVmAbsent(es[..|es| - 1], v);
    }
  }

  /** Stability: within each vmname the listing keeps the store order, and
      holds exactly the entries of that vmname. */
  lemma {:induction false} GroupIsStable(es: seq<Entry>, v: string)
    ensures OfVm(Group(es), v) == OfVm(es, v)
  {
    OfVmConcat(FirstSeen(es), es, v);
    if v !in FirstSeen(es) {
      OfVmAbsent(es, v);
    }
  }

  // ---------------------------------------------------------------------
  // The listing is a permutation of the entries
  // ---------------------------------------------------------------------

  /** The entries of es whose vmname is listed in vs, in their order in es. */
  function OfVms(es: seq<Entry>, vs: seq<string>): seq<Entry>
  {
    if es == [] then []
    else OfVms(es[..|es| - 1], vs) + (if es[|es| - 1].fields.vmname in vs then [es[|es| - 1]] else [])
  }

  lemma {:induction false} OfVmsNone(es: seq<Entry>)
    ensures OfVms(es, []) == []
    decreases |es|
  {
    if es != [] {
      OfVmsNone(es[..|es| - 1]);
    }
  }

  lemma {:induction false} OfVmsSplit(es: seq<Entry>, ws: seq<string>, w: string)
    requires w !in ws
    ensures multiset(OfVms(es, ws + [w])) == multiset(OfVms(es, ws)) + multiset(OfVm(es, w))
    decreases |es|
  {
    if es != [] {
      OfVmsSplit(es[..|es| - 1], ws, w);
      assert forall x :: x in ws + [w] <==> x in ws || x == w;
    }
  }

  lemma {:induction false} ConcatPermutation(vs: seq<string>, es: seq<Entry>)
    requires Distinct(vs)
    ensures multiset(Concat(vs, es)) == multiset(OfVms(es, vs))
    decreases |vs|
  {
    if vs == [] {
      OfVmsNone(es);
    } else {
      var ws := vs[..|vs| - 1];
      var w := vs[|vs| - 1];
      assert vs == ws + [w];
      ConcatPermutation(ws, es);
      OfVmsSplit(es, ws, w);
    }
  }

  lemma {:induction false} OfVmsAll(es: seq<Entry>, vs: seq<string>)
    requires forall i :: 0 <= i < |es| ==> es[i].fields.vmname in vs
    ensures OfVms(es, vs) == es
    decreases |es|
  {
    if es != [] {
      var p, x := es[..|es| - 1], es[|es| - 1];
      assert forall i :: 0 <= i < |p| ==> p[i] == es[i];
      OfVmsAll(p, vs);
      assert p + [x] == es;
    }
  }

  /** The listing holds every entry exactly as often as the store does. */
  lemma {:induction false} GroupIsPermutation(es: seq<Entry>)
    ensures multiset(Group(es)) == multiset(es)
  {
    ConcatPermutation(FirstSeen(es), es);
    assert forall i :: 0 <= i < |es| ==> es[i] in es;
    OfVmsAll(es, FirstSeen(es));
  }

  // ---------------------------------------------------------------------
  // The listing is grouped, in first-seen order
  // ---------------------------------------------------------------------

  /** Entries with the same vmname stand next to each other. */
  predicate Contiguous(es: seq<Entry>) {
    forall i, j, k :: 0 <= i < j < k < |es| && es[i].fields.vmname == es[k].fields.vmname ==>
      es[j].fields.vmname == es[i].fields.vmname
  }

  lemma {:induction false} ConcatContiguous(vs: seq<string>, es: seq<Entry>)
    requires Distinct(vs)
    ensures Contiguous(Concat(vs, es))
    decreases |vs|
  {
    if vs != [] {
      var ws := vs[..|vs| - 1];
      var w := vs[|vs| - 1];
      var c := Concat(ws, es);
      var g := OfVm(es, w);
      ConcatContiguous(ws, es);
      assert forall x :: x in c ==> x.fields.vmname != w;
      OfVmMembers(es, w);
      AppendBlock(c, g, w);
    }
  }

  /** A block of one new vmname after a grouped list keeps it grouped. */
  lemma {:induction false} AppendBlock(c: seq<Entry>, g: seq<Entry>, w: string)
    requires Contiguous(c)
    requires forall x :: x in c ==> x.fields.vmname != w
    requires forall x :: x in g ==> x.fields.vmname == w
    ensures Contiguous(c + g)
  {
    var r := c + g;
    forall i, j, k | 0 <= i < j < k < |r| && r[i].fields.vmname == r[k].fields.vmname
      ensures r[j].fields.vmname == r[i].fields.vmname
    {
      if k < |c| {
        assert r[i] == c[i] && r[j] == c[j] && r[k] == c[k];
      } else if i >= |c| {
        assert r[i] == g[i - |c|] && r[j] == g[j - |c|] && r[k] == g[k - |c|];
        assert g[i - |c|] in g && g[j - |c|] in g && g[k - |c|] in g;
      }
    }
  }

  /** Entries with one vmname form one block of the listing. */
  lemma {:induction false} GroupIsContiguous(es: seq<Entry>)
    ensures Contiguous(Group(es))
  {
    ConcatContiguous(FirstSeen(es), es);
  }

  lemma {:induction false} FirstSeenAppendBlock(a: seq<Entry>, g: seq<Entry>, w: string)
    requires g != [] && forall x :: x in g ==> x.fields.vmname == w
    requires w !in FirstSeen(a)
    ensures FirstSeen(a + g) == FirstSeen(a) + [w]
    decreases |g|
  {
    var g' := g[..|g| - 1];
    assert (a + g)[..|a + g| - 1] == a + g';
    if g' == [] {
      assert a + g' == a;
    } else {
      assert forall x :: x in g' ==> x in g;
      FirstSeenAppendBlock(a, g', w);
    }
  }

  lemma {:induction false} FirstSeenConcat(vs: seq<string>, es: seq<Entry>)
    requires Distinct(vs)
    requires forall i :: 0 <= i < |vs| ==> OfVm(es, vs[i]) != []
    ensures FirstSeen(Concat(vs, es)) == vs
    decreases |vs|
  {
    if vs != [] {
      var ws := vs[..|vs| - 1];
      var w := vs[|vs| - 1];
      FirstSeenConcat(ws, es);
      OfVmMembers(es, w);
      FirstSeenAppendBlock(Concat(ws, es), OfVm(es, w), w);
      assert ws + [w] == vs;
    }
  }

  /** The groups come in the order their vmname first occurs in the store. */
  lemma {:induction false} GroupOrder(es: seq<Entry>)
    ensures FirstSeen(Group(es)) == FirstSeen(es)
  {
    var vs := FirstSeen(es);
    forall i | 0 <= i < |vs|
      ensures OfVm(es, vs[i]) != []
    {
      assert vs[i] in vs;
      var e :| e in es && e.fields.vmname == vs[i];
      OfVmMembers(es, vs[i]);
      assert e in OfVm(es, vs[i]);
    }
    FirstSeenConcat(vs, es);
  }
}

/**
 * What a person tells the legends. The base legend's case bookkeeping is
 * not part of this model, so each person keeps the calls it makes, in
 * order, and the model proves that the cases a legend has been told about
 * for this person are exactly the terms the person holds.
 */
module LegendLogs {
  import opened Seqs

  datatype LegendKind = DisorderLegend | PhenotypeLegend | GeneLegend

  /** A call on a legend: `addCase`, `removeCase`, or the gene legend's `addHGNCID`. */
  datatype LegendCall =
    | AddCase(legend: LegendKind, id: string, name: string, nodeID: int)
    | RemoveCase(legend: LegendKind, id: string, nodeID: int)
    | AddHGNCID(symbol: string, hgncID: string)

  /** The change one call makes to the number of cases of `k` in legend `l`. */
  function Delta(c: LegendCall, l: LegendKind, k: string): int {
    match c
    case AddCase(l1, id, _, _) => if l1 == l && id == k then 1 else 0
    case RemoveCase(l1, id, _) => if l1 == l && id == k then -1 else 0
    case AddHGNCID(_, _) => 0
  }

  /** Cases of `k` added to legend `l` minus cases removed. */
  function Net(calls: seq<LegendCall>, l: LegendKind, k: string): int {
    if calls == [] then 0 else Net(calls[..|calls| - 1], l, k) + Delta(calls[|calls| - 1], l, k)
  }

  lemma NetSnoc(calls: seq<LegendCall>, c: LegendCall, l: LegendKind, k: string)
    ensures Net(calls + [c], l, k) == Net(calls, l, k) + Delta(c, l, k)
  {
    assert (calls + [c])[..|calls|] == calls;
  }

  /** Legend `l` has been told about every key as often as it occurs in `keys`. */
  ghost predicate Balanced(calls: seq<LegendCall>, l: LegendKind, keys: seq<string>) {
    forall k :: Net(calls, l, k) == Count(keys, k)
  }

  /** A call that leaves legend `l` alone keeps its balance. */
  lemma ForeignCall(calls: seq<LegendCall>, c: LegendCall, l: LegendKind, keys: seq<string>)
    requires forall k :: Delta(c, l, k) == 0
    ensures Balanced(calls + [c], l, keys) <==> Balanced(calls, l, keys)
  {
    forall k
      ensures Net(calls + [c], l, k) == Net(calls, l, k)
    {
      NetSnoc(calls, c, l, k);
    }
  }

  /** `a` is a prefix of `b`: calls are only ever appended. */
  predicate Extends(b: seq<LegendCall>, a: seq<LegendCall>) {
    |a| <= |b| && b[..|a|] == a
  }

  lemma ExtendsTrans(c: seq<LegendCall>, b: seq<LegendCall>, a: seq<LegendCall>)
    requires Extends(c, b) && Extends(b, a)
    ensures Extends(c, a)
  {
    assert c[..|a|] == c[..|b|][..|a|];
  }

  /** One of a person's term lists together with the calls made so far. */
  datatype TermLog = TermLog(items: seq<string>, calls: seq<LegendCall>)

  /** `addDisorder`/`addHPO` once the term is known: push and report it unless already held. */
  function AddTerm(t: TermLog, l: LegendKind, id: string, name: string, node: int): TermLog {
    if id in t.items then t
    else TermLog(t.items + [id], t.calls + [AddCase(l, id, name, node)])
  }

  /** `removeDisorder`/`removeHPO`: drop and report a held term; an absent one changes nothing. */
  function RemoveTerm(t: TermLog, l: LegendKind, id: string, node: int): TermLog {
    if id in t.items then TermLog(Without(t.items, id), t.calls + [RemoveCase(l, id, node)])
    else t
  }

  /** The first loop of `setDisorders`/`setHPO`: remove the entries from the last to the first. */
  function ClearTerms(t: TermLog, l: LegendKind, node: int): TermLog
    decreases |t.items|
  {
    if t.items == [] then t
    else
      var last := t.items[|t.items| - 1];
      ClearTerms(RemoveTerm(t, l, last, node), l, node)
  }

  /** The `removeCase` calls for `items`, last entry first. */
  function Removals(l: LegendKind, items: seq<string>, node: int): seq<LegendCall> {
    if items == [] then []
    else [RemoveCase(l, items[|items| - 1], node)] + Removals(l, items[..|items| - 1], node)
  }

  /** The cases a legend other than `l` knows about are not touched by a call on `l`. */
  predicate CallOn(c: LegendCall, l: LegendKind) {
    (c.AddCase? || c.RemoveCase?) && c.legend == l
  }

  lemma OtherLegend(c: LegendCall, l: LegendKind, l2: LegendKind)
    requires CallOn(c, l) && l2 != l
    ensures forall k :: Delta(c, l2, k) == 0
  {
  }

  /** Adding never duplicates; a new term is reported once, and every legend stays balanced. */
  lemma AddTermBalanced(t: TermLog, l: LegendKind, id: string, name: string, node: int)
    requires NoDup(t.items) && Balanced(t.calls, l, t.items)
    ensures var r := AddTerm(t, l, id, name, node);
      NoDup(r.items) && Balanced(r.calls, l, r.items)
      && (id in t.items ==> r == t)
      && (id !in t.items ==> r.items == t.items + [id] && |r.calls| == |t.calls| + 1 && CallOn(r.calls[|t.calls|], l))
      && (forall l2, keys :: l2 != l ==> (Balanced(r.calls, l2, keys) <==> Balanced(t.calls, l2, keys)))
  {
    var r := AddTerm(t, l, id, name, node);
    if id !in t.items {
      var c := AddCase(l, id, name, node);
      forall k
        ensures Net(r.calls, l, k) == Count(r.items, k)
      {
        NetSnoc(t.calls, c, l, k);
        CountAppend(t.items, [id], k);
        assert Count([id], k) == if k == id then 1 else 0;
      }
      forall l2, keys | l2 != l
        ensures Balanced(r.calls, l2, keys) <==> Balanced(t.calls, l2, keys)
      {
        OtherLegend(c, l, l2);
        ForeignCall(t.calls, c, l2, keys);
      }
    }
  }

  /** Removing a held term reports it once; removing an absent one changes nothing. */
  lemma RemoveTermBalanced(t: TermLog, l: LegendKind, id: string, node: int)
    requires NoDup(t.items) && Balanced(t.calls, l, t.items)
    ensures var r := RemoveTerm(t, l, id, node);
      NoDup(r.items) && Balanced(r.calls, l, r.items) && id !in r.items
      && (forall x :: x != id ==> (x in r.items <==> x in t.items))
      && (id !in t.items ==> r == t)
      && (forall l2, keys :: l2 != l ==> (Balanced(r.calls, l2, keys) <==> Balanced(t.calls, l2, keys)))
  {
    var r := RemoveTerm(t, l, id, node);
    if id in t.items {
      var c := RemoveCase(l, id, node);
      WithoutNoDup(t.items, id);
      forall k
        ensures Net(r.calls, l, k) == Count(r.items, k)
      {
        NetSnoc(t.calls, c, l, k);
        CountWithout(t.items, id, k);
        CountNoDup(t.items, id);
      }
      forall l2, keys | l2 != l
        ensures Balanced(r.calls, l2, keys) <==> Balanced(t.calls, l2, keys)
      {
        OtherLegend(c, l, l2);
        ForeignCall(t.calls, c, l2, keys);
      }
    }
  }

  /** One step of clearing removes the last entry and reports it. */
  lemma ClearTermsStep(t: TermLog, l: LegendKind, node: int)
    requires NoDup(t.items) && t.items != []
    ensures var init := t.items[..|t.items| - 1];
      var rc := RemoveCase(l, t.items[|t.items| - 1], node);
      NoDup(init)
      && ClearTerms(t, l, node) == ClearTerms(TermLog(init, t.calls + [rc]), l, node)
      && Removals(l, t.items, node) == [rc] + Removals(l, init, node)
  {
    WithoutLast(t.items);
    assert t.items[|t.items| - 1] in t.items;
  }

  /**
   * Clearing a duplicate-free list empties it, reporting one `removeCase`
   * per entry from the last to the first.
   */
  lemma {:induction false} ClearTermsResult(t: TermLog, l: LegendKind, node: int)
    requires NoDup(t.items)
    ensures ClearTerms(t, l, node).items == []
    ensures ClearTerms(t, l, node).calls == t.calls + Removals(l, t.items, node)
    decreases |t.items|
  {
    if t.items == [] {
      assert t.calls + [] == t.calls;
    } else {
      var init := t.items[..|t.items| - 1];
      var rc := RemoveCase(l, t.items[|t.items| - 1], node);
      var t1 := TermLog(init, t.calls + [rc]);
      ClearTermsStep(t, l, node);
      ClearTermsResult(t1, l, node);
      ConcatAssoc(t.calls, [rc], Removals(l, init, node));
    }
  }

  /** After clearing, the legend has no case left for this person, and the other legends are as they were. */
  lemma {:induction false} ClearTermsBalanced(t: TermLog, l: LegendKind, node: int)
    requires NoDup(t.items) && Balanced(t.calls, l, t.items)
    ensures var r := ClearTerms(t, l, node);
      Balanced(r.calls, l, [])
      && (forall l2, keys :: l2 != l ==> (Balanced(r.calls, l2, keys) <==> Balanced(t.calls, l2, keys)))
    decreases |t.items|
  {
    if t.items != [] {
      var last := t.items[|t.items| - 1];
      RemoveTermBalanced(t, l, last, node);
      ClearTermsBalanced(RemoveTerm(t, l, last, node), l, node);
    }
  }
}

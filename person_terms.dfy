/**
 * A person's disorder and phenotype lists: `addDisorder`,
 * `removeDisorder`, `setDisorders`, `addHPO`, `removeHPO` and `setHPO`
 * once the term objects are known. The `affected` pseudo-disorder, which
 * stands for "affected by an unspecified disorder", is dropped as soon as a
 * second disorder is present.
 */
module PersonTerms {
  import opened Seqs
  import opened LegendLogs
  import Disorders
  import HPOTerms

  const Affected: string := "affected"

  // ----- disorders -----

  /** `addDisorder(disorder)`: add it, then drop `affected` once more than one disorder is held. */
  function AddDisorder(t: TermLog, d: Disorders.Disorder, node: int): TermLog {
    var t1 := AddTerm(t, DisorderLegend, d.id, d.name, node);
    if |t1.items| > 1 then RemoveTerm(t1, DisorderLegend, Affected, node) else t1
  }

  /** `removeDisorder(disorderID)`. */
  function RemoveDisorder(t: TermLog, id: string, node: int): TermLog {
    RemoveTerm(t, DisorderLegend, id, node)
  }

  /** The second loop of `setDisorders`: add the disorders in order. */
  function AddDisorders(t: TermLog, ds: seq<Disorders.Disorder>, node: int): TermLog {
    if ds == [] then t
    else AddDisorder(AddDisorders(t, ds[..|ds| - 1], node), ds[|ds| - 1], node)
  }

  /** The two loops of `setDisorders`: remove every held disorder, then add the new ones. */
  function SetDisorders(t: TermLog, ds: seq<Disorders.Disorder>, node: int): TermLog {
    AddDisorders(ClearTerms(t, DisorderLegend, node), ds, node)
  }

  function DisorderIDs(ds: seq<Disorders.Disorder>): seq<string> {
    seq(|ds|, i requires 0 <= i < |ds| => ds[i].id)
  }

  /**
   * The disorders a person ends up with after adding `ids` to an empty list:
   * the distinct identifiers in order, without `affected` unless nothing
   * else is there.
   */
  function Settled(ids: seq<string>): seq<string> {
    var d := Dedup(ids);
    var others := Without(d, Affected);
    if others == [] then d else others
  }

  /** A consistent disorder list: no duplicates, reported to the legend, `affected` only on its own. */
  ghost predicate DisordersValid(t: TermLog) {
    NoDup(t.items) && Balanced(t.calls, DisorderLegend, t.items)
    && (Affected in t.items ==> |t.items| == 1)
  }

  /** The effect of `addDisorder` on the list alone. */
  function AddDisorderItems(items: seq<string>, x: string): seq<string> {
    var i1 := if x in items then items else items + [x];
    if |i1| > 1 then Without(i1, Affected) else i1
  }

  lemma AddDisorderItemsAgree(t: TermLog, d: Disorders.Disorder, node: int)
    ensures AddDisorder(t, d, node).items == AddDisorderItems(t.items, d.id)
  {
    var t1 := AddTerm(t, DisorderLegend, d.id, d.name, node);
    if |t1.items| > 1 && Affected !in t1.items {
      WithoutAbsent(t1.items, Affected);
    }
  }

  /**
   * `addDisorder` keeps the list consistent, only appends calls, leaves the
   * other legends alone, and holds the new disorder afterwards unless it is
   * `affected` joining real disorders.
   */
  lemma AddDisorderValid(t: TermLog, d: Disorders.Disorder, node: int)
    requires DisordersValid(t)
    ensures var r := AddDisorder(t, d, node);
      DisordersValid(r) && Extends(r.calls, t.calls)
      && (d.id != Affected ==> d.id in r.items)
      && (forall x :: x != Affected ==> (x in r.items <==> x in t.items || x == d.id))
      && (forall l2, keys :: l2 != DisorderLegend ==> (Balanced(r.calls, l2, keys) <==> Balanced(t.calls, l2, keys)))
  {
    AddTermBalanced(t, DisorderLegend, d.id, d.name, node);
    var t1 := AddTerm(t, DisorderLegend, d.id, d.name, node);
    if |t1.items| > 1 {
      RemoveTermBalanced(t1, DisorderLegend, Affected, node);
    }
  }

  /** `removeDisorder` keeps the list consistent and drops exactly the given identifier. */
  lemma RemoveDisorderValid(t: TermLog, id: string, node: int)
    requires DisordersValid(t)
    ensures var r := RemoveDisorder(t, id, node);
      DisordersValid(r) && Extends(r.calls, t.calls) && id !in r.items
      && (forall x :: x != id ==> (x in r.items <==> x in t.items))
      && (id !in t.items ==> r == t)
      && (forall l2, keys :: l2 != DisorderLegend ==> (Balanced(r.calls, l2, keys) <==> Balanced(t.calls, l2, keys)))
  {
    RemoveTermBalanced(t, DisorderLegend, id, node);
    var r := RemoveDisorder(t, id, node);
    if id in t.items {
      assert |Without(t.items, id)| <= |t.items|;
    }
  }

  lemma {:induction false} CountAll(d: seq<string>, x: string)
    requires forall i :: 0 <= i < |d| ==> d[i] == x
    ensures Count(d, x) == |d|
  {
    if d != [] {
      CountAll(d[1..], x);
    }
  }

  lemma OnlyAffected(d: seq<string>)
    requires NoDup(d) && Without(d, Affected) == []
    ensures d == [] || d == [Affected]
  {
    if d != [] {
      assert forall i :: 0 <= i < |d| ==> d[i] == Affected by {
        forall i | 0 <= i < |d|
          ensures d[i] == Affected
        {
          assert d[i] in d;
        }
      }
      CountAll(d, Affected);
      CountNoDup(d, Affected);
      assert d == [d[0]];
    }
  }

  lemma WithoutSingle(x: string, y: string)
    ensures Without([x], y) == if x == y then [] else [x]
  {
    assert [x][1..] == [];
  }

  /** Removing `affected` from a list that only gains `affected` at the end. */
  lemma WithoutAffectedSnoc(s: seq<string>, x: string)
    ensures Without(s + [x], Affected) == if x == Affected then Without(s, Affected) else Without(s, Affected) + [x]
  {
    WithoutAppend(s, [x], Affected);
    WithoutSingle(x, Affected);
    assert Without(s, Affected) + [] == Without(s, Affected);
  }

  /** The settled list holds `affected` only on its own. */
  lemma SettledShape(ids: seq<string>)
    ensures var st := Settled(ids);
      NoDup(st) && (Affected !in st || st == [Affected])
      && (forall y :: y != Affected ==> (y in st <==> y in ids))
      && (Affected in ids && Affected !in st ==> st != [])
  {
    var d := Dedup(ids);
    var others := Without(d, Affected);
    WithoutNoDup(d, Affected);
    if others == [] {
      OnlyAffected(d);
    }
  }

  /** Adding a disorder that was already given leaves the settled list as it is. */
  lemma SettledStepSeen(ids: seq<string>, x: string)
    requires x in ids
    ensures AddDisorderItems(Settled(ids), x) == Settled(ids + [x])
  {
    DedupSnoc(ids, x);
    assert Settled(ids + [x]) == Settled(ids);
    var st := Settled(ids);
    SettledShape(ids);
    if x in st {
      if |st| > 1 {
        WithoutAbsent(st, Affected);
      }
    } else {
      WithoutAffectedSnoc(st, Affected);
      WithoutAbsent(st, Affected);
    }
  }

  /** Adding `affected` for the first time keeps it only when nothing else is held. */
  lemma SettledStepNewAffected(ids: seq<string>)
    requires Affected !in ids
    ensures AddDisorderItems(Settled(ids), Affected) == Settled(ids + [Affected])
  {
    var d := Dedup(ids);
    var others := Without(d, Affected);
    DedupSnoc(ids, Affected);
    WithoutAffectedSnoc(d, Affected);
    WithoutAbsent(d, Affected);
    if others != [] {
      WithoutAffectedSnoc(others, Affected);
    }
  }

  /** Adding a new real disorder appends it and drops `affected`. */
  lemma SettledStepNewReal(ids: seq<string>, x: string)
    requires x !in ids && x != Affected
    ensures AddDisorderItems(Settled(ids), x) == Settled(ids + [x])
  {
    var d := Dedup(ids);
    var others := Without(d, Affected);
    DedupSnoc(ids, x);
    WithoutAffectedSnoc(d, x);
    if others == [] {
      OnlyAffected(d);
      if d == [Affected] {
        WithoutAffectedSnoc([Affected], x);
        WithoutSingle(Affected, Affected);
      }
    } else {
      WithoutAbsent(others + [x], Affected);
    }
  }

  /** Adding one more disorder to a settled list gives the settled list of the longer sequence. */
  lemma SettledStep(ids: seq<string>, x: string)
    ensures AddDisorderItems(Settled(ids), x) == Settled(ids + [x])
  {
    if x in ids {
      SettledStepSeen(ids, x);
    } else if x == Affected {
      SettledStepNewAffected(ids);
    } else {
      SettledStepNewReal(ids, x);
    }
  }

  lemma DisorderIDsSnoc(ds: seq<Disorders.Disorder>)
    requires ds != []
    ensures DisorderIDs(ds) == DisorderIDs(ds[..|ds| - 1]) + [ds[|ds| - 1].id]
  {
  }

  /** Adding disorders to an empty list settles them; the list stays consistent and calls are only appended. */
  lemma {:induction false} AddDisordersResult(t: TermLog, ds: seq<Disorders.Disorder>, node: int)
    requires DisordersValid(t) && t.items == []
    ensures var r := AddDisorders(t, ds, node);
      r.items == Settled(DisorderIDs(ds)) && DisordersValid(r) && Extends(r.calls, t.calls)
      && (forall l2, keys :: l2 != DisorderLegend ==> (Balanced(r.calls, l2, keys) <==> Balanced(t.calls, l2, keys)))
  {
    if ds != [] {
      var init := ds[..|ds| - 1];
      var x := ds[|ds| - 1];
      AddDisordersResult(t, init, node);
      var t1 := AddDisorders(t, init, node);
      AddDisorderValid(t1, x, node);
      AddDisorderItemsAgree(t1, x, node);
      DisorderIDsSnoc(ds);
      SettledStep(DisorderIDs(init), x.id);
    }
  }

  /**
   * `setDisorders`: every held disorder is removed and reported, from the
   * last to the first, before the new ones are added; the person ends up
   * with the settled list of the new identifiers.
   */
  lemma SetDisordersResult(t: TermLog, ds: seq<Disorders.Disorder>, node: int)
    requires DisordersValid(t)
    ensures var r := SetDisorders(t, ds, node);
      r.items == Settled(DisorderIDs(ds)) && DisordersValid(r)
      && Extends(r.calls, t.calls + Removals(DisorderLegend, t.items, node))
      && (forall l2, keys :: l2 != DisorderLegend ==> (Balanced(r.calls, l2, keys) <==> Balanced(t.calls, l2, keys)))
  {
    ClearTermsResult(t, DisorderLegend, node);
    ClearTermsBalanced(t, DisorderLegend, node);
    var c := ClearTerms(t, DisorderLegend, node);
    assert DisordersValid(c);
    AddDisordersResult(c, ds, node);
  }

  /** With others disorders given, `affected` is not kept, and every others one is. */
  lemma SettledContents(ids: seq<string>)
    ensures var s := Settled(ids);
      NoDup(s)
      && (forall x :: x != Affected ==> (x in s <==> x in ids))
      && (Affected in s <==> (forall x :: x in ids ==> x == Affected) && ids != [])
  {
    var d := Dedup(ids);
    var others := Without(d, Affected);
    WithoutNoDup(d, Affected);
    if others == [] {
      OnlyAffected(d);
    } else {
      var y := others[0];
      assert y in others;
    }
    if ids != [] && Affected !in Settled(ids) {
      assert ids[0] in ids;
    }
  }

  // ----- phenotypes -----

  /** `addHPO(hpo)` for a term object. */
  function AddHPO(t: TermLog, term: HPOTerms.HPOTerm, node: int): TermLog {
    AddTerm(t, PhenotypeLegend, term.id, term.name, node)
  }

  /** `removeHPO(hpoID)`. */
  function RemoveHPO(t: TermLog, id: string, node: int): TermLog {
    RemoveTerm(t, PhenotypeLegend, id, node)
  }

  /** The second loop of `setHPO`. */
  function AddHPOs(t: TermLog, terms: seq<HPOTerms.HPOTerm>, node: int): TermLog {
    if terms == [] then t
    else AddHPO(AddHPOs(t, terms[..|terms| - 1], node), terms[|terms| - 1], node)
  }

  /** `setHPO`: remove every held term, then add the new ones. */
  function SetHPO(t: TermLog, terms: seq<HPOTerms.HPOTerm>, node: int): TermLog {
    AddHPOs(ClearTerms(t, PhenotypeLegend, node), terms, node)
  }

  function HPOIDs(terms: seq<HPOTerms.HPOTerm>): seq<string> {
    seq(|terms|, i requires 0 <= i < |terms| => terms[i].id)
  }

  ghost predicate PhenotypesValid(t: TermLog) {
    NoDup(t.items) && Balanced(t.calls, PhenotypeLegend, t.items)
  }

  lemma HPOIDsSnoc(terms: seq<HPOTerms.HPOTerm>)
    requires terms != []
    ensures HPOIDs(terms) == HPOIDs(terms[..|terms| - 1]) + [terms[|terms| - 1].id]
  {
  }

  /** Adding terms to an empty list keeps each distinct identifier once, in order of first appearance. */
  lemma {:induction false} AddHPOsResult(t: TermLog, terms: seq<HPOTerms.HPOTerm>, node: int)
    requires PhenotypesValid(t) && t.items == []
    ensures var r := AddHPOs(t, terms, node);
      r.items == Dedup(HPOIDs(terms)) && PhenotypesValid(r) && Extends(r.calls, t.calls)
      && (forall l2, keys :: l2 != PhenotypeLegend ==> (Balanced(r.calls, l2, keys) <==> Balanced(t.calls, l2, keys)))
  {
    if terms != [] {
      var init := terms[..|terms| - 1];
      var x := terms[|terms| - 1];
      AddHPOsResult(t, init, node);
      var t1 := AddHPOs(t, init, node);
      AddTermBalanced(t1, PhenotypeLegend, x.id, x.name, node);
      HPOIDsSnoc(terms);
      DedupSnoc(HPOIDs(init), x.id);
    }
  }

  /** `setHPO`: every held term is removed and reported before the new ones are added, without duplicates. */
  lemma SetHPOResult(t: TermLog, terms: seq<HPOTerms.HPOTerm>, node: int)
    requires PhenotypesValid(t)
    ensures var r := SetHPO(t, terms, node);
      r.items == Dedup(HPOIDs(terms)) && PhenotypesValid(r)
      && Extends(r.calls, t.calls + Removals(PhenotypeLegend, t.items, node))
      && (forall l2, keys :: l2 != PhenotypeLegend ==> (Balanced(r.calls, l2, keys) <==> Balanced(t.calls, l2, keys)))
  {
    ClearTermsResult(t, PhenotypeLegend, node);
    ClearTermsBalanced(t, PhenotypeLegend, node);
    AddHPOsResult(ClearTerms(t, PhenotypeLegend, node), terms, node);
  }
}

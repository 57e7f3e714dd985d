/**
 * A person's candidate genes: `addGene`, `removeGene`, `setGenes` and
 * `getGeneSymbols`. Genes are stored by display name (`HGNC ID | symbol`)
 * but reported to the gene legend by symbol, together with the HGNC
 * identifier.
 */
module PersonGenes {
  import opened Wrappers
  import opened Seqs
  import opened LegendLogs
  import Genes

  /** `new Gene(null, s)`: the gene a string names, either a bare symbol or a display name. */
  function GeneOf(s: string): Genes.Gene {
    Genes.NewGene(None, s, None)
  }

  /** The stored form of the gene `s` names. */
  function Shown(s: string): string {
    Genes.DisplayName(GeneOf(s))
  }

  function SymbolOf(s: string): string {
    GeneOf(s).symbol
  }

  /** `getGeneSymbols`: the symbol of every stored gene, in order. */
  function GeneSymbols(items: seq<string>): seq<string> {
    if items == [] then [] else [SymbolOf(items[0])] + GeneSymbols(items[1..])
  }

  /** `addGene(gene)`: store the display name and report symbol and HGNC identifier, unless already stored. */
  function AddGene(t: TermLog, s: string, node: int): TermLog {
    var g := GeneOf(s);
    var shown := Genes.DisplayName(g);
    if shown in t.items then t
    else TermLog(t.items + [shown], t.calls + [AddCase(GeneLegend, g.symbol, g.symbol, node), AddHGNCID(g.symbol, g.hgncID)])
  }

  /** `removeGene(gene)`: drop the display name and report the symbol, if stored. */
  function RemoveGene(t: TermLog, s: string, node: int): TermLog {
    var g := GeneOf(s);
    var shown := Genes.DisplayName(g);
    if shown in t.items then TermLog(Without(t.items, shown), t.calls + [RemoveCase(GeneLegend, g.symbol, node)])
    else t
  }

  /** Every stored entry is the display name of the gene it names. */
  predicate AllShown(items: seq<string>) {
    forall i :: 0 <= i < |items| ==> Shown(items[i]) == items[i]
  }

  /** The first loop of `setGenes`: remove the stored genes from the last to the first. */
  function ClearGenes(t: TermLog, node: int): TermLog
    requires AllShown(t.items)
    decreases |t.items|
  {
    if t.items == [] then t
    else
      var last := t.items[|t.items| - 1];
      assert Shown(last) == last && last in t.items;
      var t1 := RemoveGene(t, last, node);
      assert AllShown(t1.items) by {
        forall i | 0 <= i < |t1.items|
          ensures Shown(t1.items[i]) == t1.items[i]
        {
          assert t1.items[i] in t.items;
        }
      }
      ClearGenes(t1, node)
  }

  /** The second loop of `setGenes`. */
  function AddGenes(t: TermLog, names: seq<string>, node: int): TermLog {
    if names == [] then t
    else AddGene(AddGenes(t, names[..|names| - 1], node), names[|names| - 1], node)
  }

  /** `setGenes(genes)`. */
  function SetGenes(t: TermLog, names: seq<string>, node: int): TermLog
    requires AllShown(t.items)
  {
    AddGenes(ClearGenes(t, node), names, node)
  }

  function ShownAll(names: seq<string>): seq<string> {
    seq(|names|, i requires 0 <= i < |names| => Shown(names[i]))
  }

  /** A consistent gene list: no duplicates, stored by display name, each symbol reported as often as it is held. */
  ghost predicate GenesValid(t: TermLog) {
    NoDup(t.items) && AllShown(t.items) && Balanced(t.calls, GeneLegend, GeneSymbols(t.items))
  }

  /** Whatever string names a gene, its display name names the same gene. */
  lemma ShownStable(s: string)
    ensures GeneOf(Shown(s)) == GeneOf(s)
    ensures Shown(Shown(s)) == Shown(s) && SymbolOf(Shown(s)) == SymbolOf(s)
  {
    Genes.ParsedGeneRoundTrip(s);
  }

  lemma {:induction false} GeneSymbolsAppend(a: seq<string>, b: seq<string>)
    ensures GeneSymbols(a + b) == GeneSymbols(a) + GeneSymbols(b)
  {
    if a == [] {
      assert a + b == b;
    } else {
      assert (a + b)[0] == a[0] && (a + b)[1..] == a[1..] + b;
      GeneSymbolsAppend(a[1..], b);
    }
  }

  /** Removing a stored entry lowers the count of its symbol by one and leaves other symbols alone. */
  lemma {:induction false} CountSymbolsWithout(items: seq<string>, x: string, k: string)
    requires NoDup(items)
    ensures Count(GeneSymbols(Without(items, x)), k)
      == Count(GeneSymbols(items), k) - (if x in items && SymbolOf(x) == k then 1 else 0)
  {
    if items != [] {
      TailNoDup(items);
      CountSymbolsWithout(items[1..], x, k);
      var h := if items[0] == x then [] else [items[0]];
      assert Without(items, x) == h + Without(items[1..], x);
      GeneSymbolsAppend(h, Without(items[1..], x));
      CountAppend(GeneSymbols(h), GeneSymbols(Without(items[1..], x)), k);
      assert GeneSymbols(items) == [SymbolOf(items[0])] + GeneSymbols(items[1..]);
      CountAppend([SymbolOf(items[0])], GeneSymbols(items[1..]), k);
      if items[0] == x {
        assert x !in items[1..] by {
          forall j | 0 <= j < |items[1..]|
            ensures items[1..][j] != x
          {
            assert items[1..][j] == items[j + 1];
          }
        }
      }
      assert items == [items[0]] + items[1..];
    }
  }

  /** `addGene` never stores a gene twice; a new gene is reported once, with its HGNC identifier. */
  lemma AddGeneValid(t: TermLog, s: string, node: int)
    requires GenesValid(t)
    ensures var r := AddGene(t, s, node);
      GenesValid(r) && Extends(r.calls, t.calls) && Shown(s) in r.items
      && (Shown(s) in t.items ==> r == t)
      && (Shown(s) !in t.items ==>
            r.items == t.items + [Shown(s)]
            && r.calls[|t.calls|..] == [AddCase(GeneLegend, SymbolOf(s), SymbolOf(s), node), AddHGNCID(SymbolOf(s), GeneOf(s).hgncID)])
      && (forall l2, keys :: l2 != GeneLegend ==> (Balanced(r.calls, l2, keys) <==> Balanced(t.calls, l2, keys)))
  {
    var r := AddGene(t, s, node);
    var shown := Shown(s);
    ShownStable(s);
    if shown !in t.items {
      var c1 := AddCase(GeneLegend, SymbolOf(s), SymbolOf(s), node);
      var c2 := AddHGNCID(SymbolOf(s), GeneOf(s).hgncID);
      assert r.calls == t.calls + [c1] + [c2];
      GeneSymbolsAppend(t.items, [shown]);
      assert GeneSymbols([shown]) == [SymbolOf(s)];
      forall k
        ensures Net(r.calls, GeneLegend, k) == Count(GeneSymbols(r.items), k)
      {
        NetSnoc(t.calls, c1, GeneLegend, k);
        NetSnoc(t.calls + [c1], c2, GeneLegend, k);
        CountAppend(GeneSymbols(t.items), [SymbolOf(s)], k);
      }
      forall l2, keys | l2 != GeneLegend
        ensures Balanced(r.calls, l2, keys) <==> Balanced(t.calls, l2, keys)
      {
        ForeignCall(t.calls, c1, l2, keys);
        ForeignCall(t.calls + [c1], c2, l2, keys);
      }
    }
  }

  /** `removeGene` drops the gene the string names, reporting its symbol once; an absent gene changes nothing. */
  lemma RemoveGeneValid(t: TermLog, s: string, node: int)
    requires GenesValid(t)
    ensures var r := RemoveGene(t, s, node);
      GenesValid(r) && Extends(r.calls, t.calls) && Shown(s) !in r.items
      && (forall x :: x != Shown(s) ==> (x in r.items <==> x in t.items))
      && (Shown(s) !in t.items ==> r == t)
      && (forall l2, keys :: l2 != GeneLegend ==> (Balanced(r.calls, l2, keys) <==> Balanced(t.calls, l2, keys)))
  {
    var r := RemoveGene(t, s, node);
    var shown := Shown(s);
    ShownStable(s);
    if shown in t.items {
      var c := RemoveCase(GeneLegend, SymbolOf(s), node);
      WithoutNoDup(t.items, shown);
      assert AllShown(r.items) by {
        forall i | 0 <= i < |r.items|
          ensures Shown(r.items[i]) == r.items[i]
        {
          assert r.items[i] in t.items;
        }
      }
      forall k
        ensures Net(r.calls, GeneLegend, k) == Count(GeneSymbols(r.items), k)
      {
        NetSnoc(t.calls, c, GeneLegend, k);
        CountSymbolsWithout(t.items, shown, k);
      }
      forall l2, keys | l2 != GeneLegend
        ensures Balanced(r.calls, l2, keys) <==> Balanced(t.calls, l2, keys)
      {
        ForeignCall(t.calls, c, l2, keys);
      }
    }
  }

  /** The `removeCase` calls clearing reports: the symbols of the stored genes, last first. */
  function GeneRemovals(items: seq<string>, node: int): seq<LegendCall> {
    if items == [] then []
    else [RemoveCase(GeneLegend, SymbolOf(items[|items| - 1]), node)] + GeneRemovals(items[..|items| - 1], node)
  }

  lemma ClearGenesStep(t: TermLog, node: int)
    requires GenesValid(t) && t.items != []
    ensures var init := t.items[..|t.items| - 1];
      var rc := RemoveCase(GeneLegend, SymbolOf(t.items[|t.items| - 1]), node);
      GenesValid(TermLog(init, t.calls + [rc]))
      && ClearGenes(t, node) == ClearGenes(TermLog(init, t.calls + [rc]), node)
      && GeneRemovals(t.items, node) == [rc] + GeneRemovals(init, node)
  {
    var last := t.items[|t.items| - 1];
    assert Shown(last) == last;
    WithoutLast(t.items);
    RemoveGeneValid(t, last, node);
  }

  /** Clearing empties the list, reports every stored gene's symbol last first, and keeps the legends balanced. */
  lemma {:induction false} ClearGenesResult(t: TermLog, node: int)
    requires GenesValid(t)
    ensures var r := ClearGenes(t, node);
      r == TermLog([], t.calls + GeneRemovals(t.items, node)) && GenesValid(r)
      && (forall l2, keys :: l2 != GeneLegend ==> (Balanced(r.calls, l2, keys) <==> Balanced(t.calls, l2, keys)))
    decreases |t.items|
  {
    if t.items == [] {
      assert t.calls + [] == t.calls;
    } else {
      var init := t.items[..|t.items| - 1];
      var rc := RemoveCase(GeneLegend, SymbolOf(t.items[|t.items| - 1]), node);
      var t1 := TermLog(init, t.calls + [rc]);
      ClearGenesStep(t, node);
      RemoveGeneValid(t, t.items[|t.items| - 1], node);
      ClearGenesResult(t1, node);
      ConcatAssoc(t.calls, [rc], GeneRemovals(init, node));
    }
  }

  lemma ShownAllSnoc(names: seq<string>)
    requires names != []
    ensures ShownAll(names) == ShownAll(names[..|names| - 1]) + [Shown(names[|names| - 1])]
  {
  }

  /** Adding genes to an empty list stores each distinct display name once, in order of first appearance. */
  lemma {:induction false} AddGenesResult(t: TermLog, names: seq<string>, node: int)
    requires GenesValid(t) && t.items == []
    ensures var r := AddGenes(t, names, node);
      r.items == Dedup(ShownAll(names)) && GenesValid(r) && Extends(r.calls, t.calls)
      && (forall l2, keys :: l2 != GeneLegend ==> (Balanced(r.calls, l2, keys) <==> Balanced(t.calls, l2, keys)))
  {
    if names != [] {
      var init := names[..|names| - 1];
      var x := names[|names| - 1];
      AddGenesResult(t, init, node);
      var t1 := AddGenes(t, init, node);
      var r := AddGene(t1, x, node);
      assert r == AddGenes(t, names, node);
      AddGeneValid(t1, x, node);
      ShownAllSnoc(names);
      DedupSnoc(ShownAll(init), Shown(x));
      assert Shown(x) in t1.items <==> Shown(x) in ShownAll(init);
      assert r.items == Dedup(ShownAll(names));
      ExtendsTrans(r.calls, t1.calls, t.calls);
    }
  }

  /** `setGenes`: every stored gene is removed and reported before the new ones are stored, without duplicates. */
  lemma SetGenesResult(t: TermLog, names: seq<string>, node: int)
    requires GenesValid(t)
    ensures var r := SetGenes(t, names, node);
      r.items == Dedup(ShownAll(names)) && GenesValid(r)
      && Extends(r.calls, t.calls + GeneRemovals(t.items, node))
      && (forall l2, keys :: l2 != GeneLegend ==> (Balanced(r.calls, l2, keys) <==> Balanced(t.calls, l2, keys)))
  {
    ClearGenesResult(t, node);
    AddGenesResult(ClearGenes(t, node), names, node);
  }
}

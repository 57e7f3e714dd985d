/**
 * How the phenotype and gene legends pick a colour for a new entry: the
 * first colour of a fixed twelve-colour palette that no entry uses yet,
 * and once the palette is exhausted any random colour that is neither
 * white nor in use.
 */
module Palettes {
  import opened Seqs

  const White: string := "#ffffff"

  /** `document.fire('hpo:color' | 'gene:color', {id, color})`. */
  datatype ColorEvent = ColorEvent(id: string, color: string)

  /** Magma (12), the phenotype legend's preferred colours. */
  const Magma: seq<string> := ["#fcfdbf", "#fed395", "#fea973", "#fa7d5e", "#e95462", "#c83e73",
                               "#a3307e", "#7e2482", "#59157e", "#331067", "#120d31", "#000004"]

  /** Inferno (12), the gene legend's preferred colours. */
  const Inferno: seq<string> := ["#fcffa4", "#f5db4c", "#fcae12", "#f78410", "#e65d2f", "#cb4149",
                                 "#a92e5e", "#85216b", "#5f136e", "#390963", "#140b34", "#000004"]

  /** The palette colours not in `used`, in palette order. */
  function Unused(palette: seq<string>, used: set<string>): (r: seq<string>)
    ensures forall c :: c in r <==> c in palette && c !in used
  {
    if palette == [] then []
    else (if palette[0] in used then [] else [palette[0]]) + Unused(palette[1..], used)
  }

  /** Removing one more used colour from the preferred list. */
  lemma {:induction false} UnusedWithout(palette: seq<string>, used: set<string>, c: string)
    ensures Without(Unused(palette, used), c) == Unused(palette, used + {c})
  {
    if palette != [] {
      UnusedWithout(palette[1..], used, c);
      WithoutAppend(if palette[0] in used then [] else [palette[0]], Unused(palette[1..], used), c);
    }
  }

  /** `usedColors.each(c => prefColors = prefColors.without(c))`. */
  method PreferredColors(palette: seq<string>, used: set<string>) returns (pref: seq<string>)
    ensures pref == Unused(palette, used)
  {
    pref := palette;
    var rest := used;
    assert Unused(palette, {}) == palette by {
      UnusedNone(palette);
    }
    assert used - rest == {};
    while rest != {}
      invariant rest <= used
      invariant pref == Unused(palette, used - rest)
      decreases rest
    {
      var c :| c in rest;
      UnusedWithout(palette, used - rest, c);
      assert used - (rest - {c}) == (used - rest) + {c};
      pref := Without(pref, c);
      rest := rest - {c};
    }
    assert used - rest == used;
  }

  lemma {:induction false} UnusedNone(palette: seq<string>)
    ensures Unused(palette, {}) == palette
  {
    if palette != [] {
      UnusedNone(palette[1..]);
      assert palette == [palette[0]] + palette[1..];
    }
  }

  /** The greatest length among a finite set of strings. */
  ghost function MaxLength(s: set<string>): (n: nat)
    ensures forall x :: x in s ==> |x| <= n
  {
    if s == {} then 0
    else
      var x :| x in s;
      var m := MaxLength(s - {x});
      if |x| > m then |x| else m
  }

  /** Whatever colours are in use, some colour is neither white nor in use. */
  lemma FreshColorExists(used: set<string>)
    ensures exists c :: c != White && c !in used
  {
    var n := MaxLength(used) + |White|;
    var c := seq(n + 1, _ => 'f');
    assert |c| > |White|;
    assert c != White && c !in used;
  }

  /**
   * `_generateColor(id)` of both legends, given the current colour map. An
   * entry keeps its colour; a new entry gets the first palette colour not in
   * use; once every palette colour is in use, the random draw (left
   * unspecified) is repeated until it is neither white nor in use.
   */
  method GenerateColor(palette: seq<string>, colors: map<string, string>, id: string) returns (color: string)
    ensures id in colors ==> color == colors[id]
    ensures id !in colors ==> color !in colors.Values
    ensures id !in colors && Unused(palette, colors.Values) != [] ==> color == Unused(palette, colors.Values)[0]
    ensures id !in colors && Unused(palette, colors.Values) == [] ==> color != White
    ensures id !in colors && White !in palette ==> color != White
  {
    if id in colors {
      return colors[id];
    }
    var used := colors.Values;
    var pref := PreferredColors(palette, used);
    if |pref| > 0 {
      return pref[0];
    }
    FreshColorExists(used);
    color :| color != White && color !in used;
  }

  /** Colours handed out to the entries of a legend are pairwise different. */
  predicate DistinctColors(colors: map<string, string>) {
    forall a, b :: a in colors && b in colors && a != b ==> colors[a] != colors[b]
  }

  /** Giving a new entry a colour not in use keeps the colours distinct. */
  lemma AddFreshColor(colors: map<string, string>, id: string, color: string)
    requires DistinctColors(colors) && id !in colors && color !in colors.Values
    ensures DistinctColors(colors[id := color])
  {
    forall a | a in colors
      ensures colors[a] != color
    {
      assert colors[a] in colors.Values;
    }
  }

  /**
   * With the first `k` palette colours in use (and no other palette colour),
   * the next colour handed out is the palette's `k`-th: colours come in
   * palette order.
   */
  lemma {:induction false} HandedOutInOrder(palette: seq<string>, used: set<string>, k: nat)
    requires NoDup(palette) && k < |palette|
    requires forall i :: 0 <= i < |palette| ==> (palette[i] in used <==> i < k)
    ensures Unused(palette, used) != [] && Unused(palette, used)[0] == palette[k]
  {
    if k == 0 {
      assert palette[0] !in used;
    } else {
      assert palette[0] in used;
      TailNoDup(palette);
      var rest := palette[1..];
      forall i | 0 <= i < |rest|
        ensures rest[i] in used <==> i < k - 1
      {
        assert rest[i] == palette[i + 1];
      }
      HandedOutInOrder(rest, used, k - 1);
      assert Unused(palette, used) == Unused(rest, used);
    }
  }

  /** Neither preferred palette repeats a colour or contains white. */
  lemma PalettesWellFormed()
    ensures NoDup(Magma) && White !in Magma && |Magma| == 12
    ensures NoDup(Inferno) && White !in Inferno && |Inferno| == 12
  {
    PalettesAvoidWhite();
  }

  /** Neither palette hands out white. */
  lemma PalettesAvoidWhite()
    ensures White !in Magma && White !in Inferno
  {
  }
}

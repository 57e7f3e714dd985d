/**
 * The candidate-gene legend: the HGNC identifier of each gene symbol shown
 * and, inherited from the base legend, the colour given to each gene.
 */
module GeneLegends {
  import opened Wrappers
  import opened Palettes

  class GeneLegend {
    /** Gene symbol to HGNC identifier. */
    var hgncIDs: map<string, string>
    var objectColors: map<string, string>
    var showColors: bool
    /** `gene:color` events fired, oldest first. */
    var colorEvents: seq<ColorEvent>

    ghost predicate Valid()
      reads this
    {
      DistinctColors(objectColors)
    }

    constructor(showColors: bool)
      ensures Valid()
      ensures hgncIDs == map[] && objectColors == map[] && this.showColors == showColors && colorEvents == []
    {
      hgncIDs := map[];
      objectColors := map[];
      this.showColors := showColors;
      colorEvents := [];
    }

    /** `addHGNCID(name, hgncID)`: remembers (or replaces) the identifier of a symbol. */
    method AddHGNCID(name: string, hgncID: string)
      modifies this
      ensures HGNCID(name) == Some(hgncID)
      ensures forall other :: other != name ==> HGNCID(other) == old(HGNCID(other))
      ensures objectColors == old(objectColors) && showColors == old(showColors) && colorEvents == old(colorEvents)
    {
      hgncIDs := hgncIDs[name := hgncID];
    }

    /** `getHGNCID(name)`, with `None` for `undefined`. */
    function HGNCID(name: string): (r: Option<string>)
      reads this
      ensures r.Some? <==> name in hgncIDs
    {
      if name in hgncIDs then Some(hgncIDs[name]) else None
    }

    /**
     * The colouring part of `_generateElement(geneID, name)`: with colours
     * shown, a gene without a colour gets one from the Inferno palette and a
     * `gene:color` event announces it.
     */
    method GenerateElement(geneID: string, name: string)
      requires Valid()
      modifies this
      ensures Valid()
      ensures geneID in old(objectColors) || !showColors ==>
        objectColors == old(objectColors) && colorEvents == old(colorEvents)
      ensures geneID !in old(objectColors) && showColors ==>
        geneID in objectColors
        && objectColors == old(objectColors)[geneID := objectColors[geneID]]
        && colorEvents == old(colorEvents) + [ColorEvent(geneID, objectColors[geneID])]
        && objectColors[geneID] !in old(objectColors).Values
        && (Unused(Inferno, old(objectColors).Values) != [] ==>
              objectColors[geneID] == Unused(Inferno, old(objectColors).Values)[0])
        && objectColors[geneID] != White
      ensures hgncIDs == old(hgncIDs) && showColors == old(showColors)
    {
      if geneID !in objectColors && showColors {
        var color := GenerateColor(Inferno, objectColors, geneID);
        PalettesAvoidWhite();
        AddFreshColor(objectColors, geneID, color);
        objectColors := objectColors[geneID := color];
        colorEvents := colorEvents + [ColorEvent(geneID, color)];
      }
    }
  }
}

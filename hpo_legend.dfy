/**
 * The phenotype legend: a cache of HPO terms by sanitized identifier and,
 * inherited from the base legend, the colour given to each phenotype.
 */
module HPOLegends {
  import opened Wrappers
  import opened HPOTerms
  import opened Palettes

  /** A call reaching the base legend's `addCase(id, name, nodeID)`. */
  datatype LegendCase = LegendCase(id: string, name: string, nodeID: int)

  class HPOLegend {
    var termCache: map<string, HPOTerm>
    var objectColors: map<string, string>
    var showColors: bool
    /** Calls passed on to the base legend, oldest first. */
    var cases: seq<LegendCase>
    /** `hpo:color` events fired, oldest first. */
    var colorEvents: seq<ColorEvent>

    /** Every cached term is stored under its own identifier; phenotypes have different colours. */
    ghost predicate Valid()
      reads this
    {
      (forall k :: k in termCache ==> termCache[k].id == SanitizeID(k))
      && DistinctColors(objectColors)
    }

    constructor(showColors: bool)
      ensures Valid()
      ensures termCache == map[] && objectColors == map[] && this.showColors == showColors
      ensures cases == [] && colorEvents == []
    {
      termCache := map[];
      objectColors := map[];
      this.showColors := showColors;
      cases := [];
      colorEvents := [];
    }

    /**
     * `getTerm(hpoID)`: the cached term for the sanitized identifier, created
     * without a name on first use (its name is then loaded asynchronously,
     * which is not modelled).
     */
    method GetTerm(hpoID: string) returns (term: HPOTerm)
      requires Valid()
      modifies this
      ensures Valid()
      ensures SanitizeID(hpoID) in old(termCache) ==> termCache == old(termCache)
      ensures SanitizeID(hpoID) !in old(termCache) ==>
        termCache == old(termCache)[SanitizeID(hpoID) := NewHPOTerm(Some(SanitizeID(hpoID)), None).value]
      ensures term == termCache[SanitizeID(hpoID)] && term.id == SanitizeID(hpoID)
      ensures objectColors == old(objectColors) && showColors == old(showColors)
      ensures cases == old(cases) && colorEvents == old(colorEvents)
    {
      var key := SanitizeID(hpoID);
      SanitizeIdempotent(hpoID);
      if key !in termCache {
        termCache := termCache[key := NewHPOTerm(Some(key), None).value];
      }
      term := termCache[key];
    }

    /** `addCase(id, name, nodeID)`: caches a named term for a new identifier, then registers the case. */
    method AddCase(id: string, name: string, nodeID: int)
      requires Valid()
      modifies this
      ensures Valid()
      ensures id in old(termCache) ==> termCache == old(termCache)
      ensures id !in old(termCache) ==> termCache == old(termCache)[id := NewHPOTerm(Some(id), Some(name)).value]
      ensures cases == old(cases) + [LegendCase(id, name, nodeID)]
      ensures objectColors == old(objectColors) && showColors == old(showColors) && colorEvents == old(colorEvents)
    {
      if id !in termCache {
        termCache := termCache[id := NewHPOTerm(Some(id), Some(name)).value];
      }
      cases := cases + [LegendCase(id, name, nodeID)];
    }

    /**
     * The colouring part of `_generateElement(id, name)`: with colours shown,
     * a phenotype without a colour gets one from the Magma palette and an
     * `hpo:color` event announces it.
     */
    method GenerateElement(id: string, name: string)
      requires Valid()
      modifies this
      ensures Valid()
      ensures id in old(objectColors) || !showColors ==>
        objectColors == old(objectColors) && colorEvents == old(colorEvents)
      ensures id !in old(objectColors) && showColors ==>
        id in objectColors
        && objectColors == old(objectColors)[id := objectColors[id]]
        && colorEvents == old(colorEvents) + [ColorEvent(id, objectColors[id])]
        && objectColors[id] !in old(objectColors).Values
        && (Unused(Magma, old(objectColors).Values) != [] ==>
              objectColors[id] == Unused(Magma, old(objectColors).Values)[0])
        && objectColors[id] != White
      ensures termCache == old(termCache) && showColors == old(showColors) && cases == old(cases)
    {
      if id !in objectColors && showColors {
        var color := GenerateColor(Magma, objectColors, id);
        PalettesAvoidWhite();
        AddFreshColor(objectColors, id, color);
        objectColors := objectColors[id := color];
        colorEvents := colorEvents + [ColorEvent(id, color)];
      }
    }
  }
}

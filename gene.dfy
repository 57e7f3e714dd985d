/**
 * A candidate gene attached to a person: an HGNC identifier, a symbol and
 * a group. A person stores genes by their display name `HGNC ID | symbol`.
 */
module Genes {
  import opened Wrappers
  import opened JsText

  datatype Gene = Gene(hgncID: string, symbol: string, group: string)

  /** The identifier of a gene whose HGNC identifier is unknown. */
  const UnknownID: string := "-"

  /** `new Gene(hgncID, symbol, group)`: a missing identifier lets the symbol be a display name. */
  function NewGene(hgncID: Option<string>, symbol: string, group: Option<string>): (g: Gene)
    ensures g.group == group.GetOr("")
    ensures hgncID.Some? && hgncID.value != "" ==> g.hgncID == hgncID.value && g.symbol == symbol
    ensures hgncID.None? && !Contains(symbol, " | ") ==> g == Gene(UnknownID, symbol, group.GetOr(""))
  {
    if hgncID.None? && Contains(symbol, " | ") then
      var info := Split(symbol, " | ");
      Gene(info[0], info[1], group.GetOr(""))
    else
      Gene(if hgncID.Some? && hgncID.value != "" then hgncID.value else UnknownID, symbol, group.GetOr(""))
  }

  /** `getDisplayName`. */
  function DisplayName(g: Gene): string {
    g.hgncID + " | " + g.symbol
  }

  /** A gene whose identifier holds no `|` and whose symbol holds no ` | ` is read back from its display name. */
  lemma {:induction false} DisplayNameRoundTrip(g: Gene, group: Option<string>)
    requires '|' !in g.hgncID && !Contains(g.symbol, " | ")
    ensures NewGene(None, DisplayName(g), group) == Gene(g.hgncID, g.symbol, group.GetOr(""))
  {
    SplitAfter(g.hgncID, " | ", g.symbol, 1);
    assert Split(DisplayName(g), " | ") == [g.hgncID, g.symbol];
    assert OccursAt(DisplayName(g), " | ", |g.hgncID|) by {
      assert DisplayName(g)[|g.hgncID|..|g.hgncID| + 3] == " | ";
    }
  }

  /**
   * A gene read from any string (a bare symbol, or a display name) reads
   * back from its own display name: a person can always find the genes it
   * stored.
   */
  lemma {:induction false} ParsedGeneRoundTrip(s: string)
    ensures var g := NewGene(None, s, None);
      NewGene(None, DisplayName(g), None) == g
  {
    var g := NewGene(None, s, None);
    if Contains(s, " | ") {
      var k := IndexOf(s, " | ").value;
      var a, rest := s[..k], s[k + 3..];
      var b := Split(rest, " | ")[0];
      assert g == Gene(a, b, "");
      var shown := a + " | " + b;
      assert shown[..k + 3] == s[..k + 3] by {
        assert s[k..k + 3] == " | ";
        assert s[..k + 3] == s[..k] + s[k..k + 3];
      }
      FirstOccurrencePreserved(s, shown, " | ", k);
      assert shown[..k] == a && shown[k + 3..] == b;
      FirstPieceHasNoSeparator(rest, " | ");
      assert Split(shown, " | ") == [a] + Split(b, " | ");
    } else {
      assert g == Gene(UnknownID, s, "");
      SplitAfter(UnknownID, " | ", s, 1);
      assert Split(DisplayName(g), " | ") == [UnknownID, s];
      assert OccursAt(DisplayName(g), " | ", 1) by {
        assert DisplayName(g)[1..4] == " | ";
      }
    }
  }

  /** `"7 | | X"` splits at its first separator only. */
  lemma AmbiguousSplit()
    ensures Contains("7 | | X", " | ")
    ensures Split("7 | | X", " | ") == ["7", "| X"]
  {
    var shown := "7 | | X";
    assert OccursAt(shown, " | ", 1) by {
      assert shown[1..4] == " | ";
    }
    NoMatchAtFront(shown, " | ", 0);
    IndexOfIsFirst(shown, " | ", 1);
    assert shown[..1] == "7" && shown[4..] == "| X";
    NoMatchAtFront("| X", " | ", 0);
    assert Split("| X", " | ") == ["| X"];
  }

  /** An identifier ending in ` |` is split in the wrong place: the round trip needs `|`-free identifiers. */
  lemma DisplayNameAmbiguous()
    ensures DisplayName(Gene("7 |", "X", "")) == "7 | | X"
    ensures NewGene(None, "7 | | X", None) == Gene("7", "| X", "")
  {
    AmbiguousSplit();
  }
}

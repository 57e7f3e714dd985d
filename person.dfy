/**
 * A person node as the object it is: its properties are updated in place
 * by its setters, which follow the source step by step. Each setter is
 * proved to leave the object in the state the matching function of
 * `PersonStates` describes, and so to keep the invariant proved there.
 * The properties are held together as one `PersonState` value, which every
 * setter reassigns.
 */
module Persons {
  import opened Wrappers
  import opened Seqs
  import opened LegendLogs
  import opened NHSNumbers
  import opened PersonStates
  import Disorders
  import HPOTerms
  import PersonTerms
  import PersonGenes
  import Genes

  class Person {
    /** Every `_field` of the source object, and the calls it has made on the legends, oldest first. */
    var state: PersonState

    ghost predicate Valid()
      reads this
    {
      Inv(state)
    }

    /** `initialize` and `_setDefault`: the gender given, `U` when there is none. */
    constructor (id: int, givenGender: Option<string>)
      ensures state == Default(id, givenGender.GetOr("U")) && Valid()
    {
      state := PersonState(id, "", "", givenGender.GetOr("U"), "", "", "", Alive, None, None, None, None,
                           false, None, "", [], [], [], []);
      new;
      DefaultInv(id, givenGender.GetOr("U"));
    }

    // ----- names and identifiers -----

    method SetFirstName(name: string)
      modifies this
      ensures state == old(state).(firstName := Capitalise(name))
      ensures old(Valid()) ==> Valid()
    {
      state := state.(firstName := Capitalise(name));
    }

    method SetLastName(name: string) returns (r: string)
      modifies this
      ensures r == Capitalise(name)
      ensures state == old(state).(lastName := r)
      ensures old(Valid()) ==> Valid()
    {
      r := Capitalise(name);
      state := state.(lastName := r);
    }

    /** `setGender`, inherited from the abstract person, which is not part of this model: a plain assignment. */
    method SetGender(g: string)
      modifies this
      ensures state == old(state).(gender := g)
      ensures old(Valid()) ==> Valid()
    {
      state := state.(gender := g);
    }

    method SetPhenopacketID(id: string)
      modifies this
      ensures state == old(state).(phenopacketID := id)
      ensures old(Valid()) ==> Valid()
    {
      state := state.(phenopacketID := id);
    }

    method SetComments(comment: string)
      modifies this
      ensures state == old(state).(comments := comment)
      ensures old(Valid()) ==> Valid()
    {
      if comment != state.comments {
        state := state.(comments := comment);
      }
    }

    method SetExternalID(id: string)
      modifies this
      ensures state == PersonStates.SetExternalID(old(state), id)
      ensures old(Valid()) ==> Valid()
    {
      var valid := CheckNHSNumber(id);
      if valid {
        state := state.(externalID := StripSpaces(id));
      } else {
        state := state.(externalID := id);
      }
      if old(Valid()) {
        SetExternalIDSpec(old(state), id);
      }
    }

    // ----- life status and dates -----

    method SetBirthDate(d: Option<int>)
      modifies this
      ensures state == PersonStates.SetBirthDate(old(state), d)
      ensures old(Valid()) ==> Valid()
    {
      if d.None? || state.deathDate.None? || d.value < state.deathDate.value {
        state := state.(birthDate := d);
      }
      if old(Valid()) {
        SetBirthDateSpec(old(state), d);
      }
    }

    method SetLifeStatus(s: string)
      modifies this
      ensures state == PersonStates.SetLifeStatus(old(state), s)
      ensures old(Valid()) ==> Valid()
      decreases if s == Deceased then 0 else 2
    {
      if IsValidLifeStatus(s) {
        state := state.(lifeStatus := s);
        if s != Deceased {
          var _ := SetDeathDate(None);
          ClearDeathDate(old(state).(lifeStatus := s));
        }
        if s == Alive {
          // `setGestationAge()` without a number of weeks
          state := state.(gestationAge := None, conceptionDate := None);
        }
        if IsFetus(state.lifeStatus) {
          ghost var before := state;
          SetBirthDate(None);
          ClearBirthDate(before);
          state := state.(isAdopted := false, childlessStatus := None);
        }
      }
      if old(Valid()) {
        SetLifeStatusSpec(old(state), s);
      }
    }

    /** `setDeathDate`, which answers the death date it ends up with. */
    method SetDeathDate(d: Option<int>) returns (r: Option<int>)
      modifies this
      ensures state == PersonStates.SetDeathDate(old(state), d)
      ensures r == state.deathDate
      ensures old(Valid()) ==> Valid()
      decreases if d.Some? then 3 else 1
    {
      if d.None? || state.birthDate.None? || d.value > state.birthDate.value {
        state := state.(deathDate := d);
        if d.Some? && state.lifeStatus == Alive {
          SetLifeStatus(Deceased);
        }
      }
      r := state.deathDate;
      if old(Valid()) {
        SetDeathDateSpec(old(state), d);
      }
    }

    // ----- disorders and carrier status -----

    method RemoveDisorder(id: string)
      modifies this
      ensures state == PersonStates.RemoveDisorder(old(state), id)
      ensures old(Valid()) ==> Valid()
    {
      if id in state.disorders {
        state := state.(legendCalls := state.legendCalls + [RemoveCase(DisorderLegend, id, state.nodeID)],
                        disorders := Without(state.disorders, id));
      }
      if old(Valid()) {
        RemoveDisorderSpec(old(state), id);
      }
    }

    method AddDisorder(d: Disorders.Disorder)
      modifies this
      ensures state == PersonStates.AddDisorder(old(state), d)
      ensures old(Valid()) ==> Valid()
    {
      if d.id !in state.disorders {
        state := state.(legendCalls := state.legendCalls + [AddCase(DisorderLegend, d.id, d.name, state.nodeID)],
                        disorders := state.disorders + [d.id]);
      }
      if |state.disorders| > 1 {
        RemoveDisorder(PersonTerms.Affected);
      }
      if old(Valid()) {
        AddDisorderSpec(old(state), d);
      }
    }

    method SetCarrierStatus(status: Option<string>)
      modifies this
      ensures state == PersonStates.SetCarrierStatus(old(state), status)
      ensures old(Valid()) ==> Valid()
    {
      var numDisorders := |state.disorders|;
      var st: string;
      if status.None? {
        if numDisorders == 0 {
          st := "";
        } else {
          st := state.carrierStatus;
          if st == "" {
            st := PersonTerms.Affected;
          }
        }
      } else {
        st := status.value;
      }
      if IsValidCarrierStatus(st) {
        if numDisorders > 0 && st == "" {
          if numDisorders == 1 && state.disorders[0] == PersonTerms.Affected {
            RemoveDisorder(PersonTerms.Affected);
          } else {
            st := PersonTerms.Affected;
          }
        } else if numDisorders == 0 && st == PersonTerms.Affected {
          AddDisorder(AffectedDisorder);
        }
        if st != state.carrierStatus {
          state := state.(carrierStatus := st);
        }
      }
      if old(Valid()) {
        SetCarrierStatusSpec(old(state), status);
      }
    }

    /** The first loop of `setDisorders`: remove the held disorders from the last to the first. */
    method ClearDisorders()
      requires Valid()
      modifies this
      ensures Valid()
      ensures state == WithDisorders(old(state), ClearTerms(DisorderLog(old(state)), DisorderLegend, old(state).nodeID))
    {
      var i := |state.disorders| - 1;
      while i >= 0
        invariant -1 <= i && |state.disorders| == i + 1
        invariant Valid()
        invariant state == old(state).(disorders := state.disorders, legendCalls := state.legendCalls)
        invariant ClearTerms(DisorderLog(state), DisorderLegend, state.nodeID) == ClearTerms(DisorderLog(old(state)), DisorderLegend, state.nodeID)
        decreases i
      {
        WithoutLast(state.disorders);
        RemoveDisorder(state.disorders[i]);
        i := i - 1;
      }
    }

    /** The second loop of `setDisorders`: add the given disorders in order. */
    method AddDisorderList(ds: seq<Disorders.Disorder>)
      requires Valid()
      modifies this
      ensures Valid()
      ensures state == WithDisorders(old(state), PersonTerms.AddDisorders(DisorderLog(old(state)), ds, old(state).nodeID))
    {
      var j := 0;
      while j < |ds|
        invariant 0 <= j <= |ds|
        invariant Valid()
        invariant state == old(state).(disorders := state.disorders, legendCalls := state.legendCalls)
        invariant DisorderLog(state) == PersonTerms.AddDisorders(DisorderLog(old(state)), ds[..j], state.nodeID)
      {
        AddDisorder(ds[j]);
        assert ds[..j + 1][..j] == ds[..j];
        j := j + 1;
      }
      assert ds[..|ds|] == ds;
    }

    /** `setDisorders`: clear, add the new disorders in order, re-derive the carrier status. */
    method SetDisorders(ds: seq<Disorders.Disorder>)
      requires Valid()
      modifies this
      ensures state == PersonStates.SetDisorders(old(state), ds)
      ensures Valid()
    {
      ClearDisorders();
      AddDisorderList(ds);
      SetCarrierStatus(None);
    }

    // ----- phenotypes -----

    method AddHPO(term: HPOTerms.HPOTerm)
      modifies this
      ensures state == PersonStates.AddHPO(old(state), term)
      ensures old(Valid()) ==> Valid()
    {
      if term.id !in state.hpo {
        state := state.(legendCalls := state.legendCalls + [AddCase(PhenotypeLegend, term.id, term.name, state.nodeID)],
                        hpo := state.hpo + [term.id]);
      }
      if old(Valid()) {
        AddHPOSpec(old(state), term);
      }
    }

    method RemoveHPO(id: string)
      modifies this
      ensures state == PersonStates.RemoveHPO(old(state), id)
      ensures old(Valid()) ==> Valid()
    {
      if id in state.hpo {
        state := state.(legendCalls := state.legendCalls + [RemoveCase(PhenotypeLegend, id, state.nodeID)],
                        hpo := Without(state.hpo, id));
      }
      if old(Valid()) {
        RemoveHPOSpec(old(state), id);
      }
    }

    /** The first loop of `setHPO`: remove the held terms from the last to the first. */
    method ClearHPO()
      requires Valid()
      modifies this
      ensures Valid()
      ensures state == WithHPO(old(state), ClearTerms(HPOLog(old(state)), PhenotypeLegend, old(state).nodeID))
    {
      var i := |state.hpo| - 1;
      while i >= 0
        invariant -1 <= i && |state.hpo| == i + 1
        invariant Valid()
        invariant state == old(state).(hpo := state.hpo, legendCalls := state.legendCalls)
        invariant ClearTerms(HPOLog(state), PhenotypeLegend, state.nodeID) == ClearTerms(HPOLog(old(state)), PhenotypeLegend, state.nodeID)
        decreases i
      {
        WithoutLast(state.hpo);
        RemoveHPO(state.hpo[i]);
        i := i - 1;
      }
    }

    /** The second loop of `setHPO`: add the given terms in order. */
    method AddHPOList(terms: seq<HPOTerms.HPOTerm>)
      requires Valid()
      modifies this
      ensures Valid()
      ensures state == WithHPO(old(state), PersonTerms.AddHPOs(HPOLog(old(state)), terms, old(state).nodeID))
    {
      var j := 0;
      while j < |terms|
        invariant 0 <= j <= |terms|
        invariant Valid()
        invariant state == old(state).(hpo := state.hpo, legendCalls := state.legendCalls)
        invariant HPOLog(state) == PersonTerms.AddHPOs(HPOLog(old(state)), terms[..j], state.nodeID)
      {
        AddHPO(terms[j]);
        assert terms[..j + 1][..j] == terms[..j];
        j := j + 1;
      }
      assert terms[..|terms|] == terms;
    }

    /** `setHPO`: clear, then add the new terms in order. */
    method SetHPO(terms: seq<HPOTerms.HPOTerm>)
      requires Valid()
      modifies this
      ensures state == PersonStates.SetHPO(old(state), terms)
      ensures Valid()
    {
      ClearHPO();
      AddHPOList(terms);
    }

    // ----- candidate genes -----

    /** `addGene` for a gene given by name: stored by display name, reported by symbol with its HGNC identifier. */
    method AddGene(name: string)
      modifies this
      ensures state == PersonStates.AddGene(old(state), name)
      ensures old(Valid()) ==> Valid()
    {
      var g := PersonGenes.GeneOf(name);
      var shown := Genes.DisplayName(g);
      if shown !in state.candidateGenes {
        state := state.(legendCalls := state.legendCalls + [AddCase(GeneLegend, g.symbol, g.symbol, state.nodeID), AddHGNCID(g.symbol, g.hgncID)],
                        candidateGenes := state.candidateGenes + [shown]);
      }
      if old(Valid()) {
        AddGeneSpec(old(state), name);
      }
    }

    method RemoveGene(name: string)
      modifies this
      ensures state == PersonStates.RemoveGene(old(state), name)
      ensures old(Valid()) ==> Valid()
    {
      var g := PersonGenes.GeneOf(name);
      var shown := Genes.DisplayName(g);
      if shown in state.candidateGenes {
        state := state.(legendCalls := state.legendCalls + [RemoveCase(GeneLegend, g.symbol, state.nodeID)],
                        candidateGenes := Without(state.candidateGenes, shown));
      }
      if old(Valid()) {
        RemoveGeneSpec(old(state), name);
      }
    }

    /** The first loop of `setGenes`: remove the stored genes from the last to the first. */
    method ClearGenes()
      requires Valid()
      modifies this
      ensures Valid()
      ensures state == WithGenes(old(state), PersonGenes.ClearGenes(GeneLog(old(state)), old(state).nodeID))
    {
      var i := |state.candidateGenes| - 1;
      while i >= 0
        invariant -1 <= i && |state.candidateGenes| == i + 1
        invariant Valid()
        invariant state == old(state).(candidateGenes := state.candidateGenes, legendCalls := state.legendCalls)
        invariant PersonGenes.ClearGenes(GeneLog(state), state.nodeID) == PersonGenes.ClearGenes(GeneLog(old(state)), state.nodeID)
        decreases i
      {
        RemoveLastGene();
        i := i - 1;
      }
    }

    /** One pass of the removal loop: `removeGene` on the last stored gene. */
    method RemoveLastGene()
      requires Valid() && state.candidateGenes != []
      modifies this
      ensures Valid() && |state.candidateGenes| == |old(state.candidateGenes)| - 1
      ensures state == old(state).(candidateGenes := state.candidateGenes, legendCalls := state.legendCalls)
      ensures PersonGenes.ClearGenes(GeneLog(state), state.nodeID) == PersonGenes.ClearGenes(GeneLog(old(state)), state.nodeID)
    {
      RemoveLastGeneStep(state);
      RemoveGene(state.candidateGenes[|state.candidateGenes| - 1]);
    }

    /** The second loop of `setGenes`: add the named genes in order. */
    method AddGeneList(names: seq<string>)
      requires Valid()
      modifies this
      ensures Valid()
      ensures state == WithGenes(old(state), PersonGenes.AddGenes(GeneLog(old(state)), names, old(state).nodeID))
    {
      var j := 0;
      while j < |names|
        invariant 0 <= j <= |names|
        invariant Valid()
        invariant state == old(state).(candidateGenes := state.candidateGenes, legendCalls := state.legendCalls)
        invariant GeneLog(state) == PersonGenes.AddGenes(GeneLog(old(state)), names[..j], state.nodeID)
      {
        ghost var before := GeneLog(state);
        AddGene(names[j]);
        assert GeneLog(state) == PersonGenes.AddGene(before, names[j], state.nodeID);
        assert names[..j + 1][..j] == names[..j] && names[..j + 1][j] == names[j];
        j := j + 1;
      }
      assert names[..|names|] == names;
    }

    /** `setGenes`: clear, then add the named genes in order. */
    method SetGenes(names: seq<string>)
      requires Valid()
      modifies this
      ensures PersonGenes.AllShown(old(state).candidateGenes)
      ensures state == PersonStates.SetGenes(old(state), names)
      ensures Valid()
    {
      ClearGenes();
      AddGeneList(names);
    }
  }
}

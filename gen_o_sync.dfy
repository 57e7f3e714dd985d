/**
 * What the editor does when a person's external identifier changes, and
 * around it: the identifier is looked up in the Gen-O registry and, when
 * the registry has no record, in the NHS spine; the person's
 * demographics are replaced by what was found, cohort membership follows
 * the registry's phenopacket, and the create / update / view buttons of
 * the node menu are switched. The lookups are parameters.
 */
module GenOSync {
  import opened Wrappers
  import opened Seqs
  import opened NHSNumbers
  import opened PersonStates
  import opened GenOText
  import HPOTerms
  import JsText
  import PersonTerms
  import Persons
  import NodeMenus

  // ----- the Gen-O buttons -----

  /** Which of the three buttons are disabled. */
  datatype Buttons = Buttons(createDisabled: bool, updateDisabled: bool, viewDisabled: bool)

  /** A registry record exists: it can be updated and viewed, not created. */
  const Registered: Buttons := Buttons(true, false, false)
  /** A valid NHS number with no record: it can only be created. */
  const Unregistered: Buttons := Buttons(false, true, true)
  /** No valid NHS number: nothing can be done. */
  const NoNHSNumber: Buttons := Buttons(true, true, true)

  const CreateButton: string := "createGenO"
  const UpdateButton: string := "updateGenO"
  const ViewButton: string := "viewGenO"

  predicate HasButtons(m: map<string, NodeMenus.Field>) {
    CreateButton in m && UpdateButton in m && ViewButton in m
  }

  /** The three `fieldMap[...].disabled` writes of `disableGenOButtons`. */
  function WithButtons(m: map<string, NodeMenus.Field>, b: Buttons): (r: map<string, NodeMenus.Field>)
    requires HasButtons(m)
    ensures HasButtons(r) && r.Keys == m.Keys
    ensures r[CreateButton].disabled == NodeMenus.Flag(b.createDisabled)
    ensures r[UpdateButton].disabled == NodeMenus.Flag(b.updateDisabled)
    ensures r[ViewButton].disabled == NodeMenus.Flag(b.viewDisabled)
    ensures forall n :: n in m && n != CreateButton && n != UpdateButton && n != ViewButton ==> r[n] == m[n]
    ensures forall n :: n in m ==> r[n] == m[n].(disabled := r[n].disabled)
  {
    var m1 := m[CreateButton := m[CreateButton].(disabled := NodeMenus.Flag(b.createDisabled))];
    var m2 := m1[UpdateButton := m1[UpdateButton].(disabled := NodeMenus.Flag(b.updateDisabled))];
    m2[ViewButton := m2[ViewButton].(disabled := NodeMenus.Flag(b.viewDisabled))]
  }

  /** The buttons the refresh handler chooses for a person: by the NHS number shown, then by the phenopacket. */
  function RefreshButtons(p: PersonState): Buttons {
    if IsNHSNumber(ExternalID(p, false)) then
      if p.phenopacketID != "" then Registered else Unregistered
    else NoNHSNumber
  }

  /** Update and view go together, and create is offered only when they are not. */
  predicate Coherent(b: Buttons) {
    b.updateDisabled == b.viewDisabled && (b.createDisabled || b.updateDisabled)
  }

  /** The refresh handler only ever offers a coherent choice. */
  lemma RefreshCoherent(p: PersonState)
    ensures Coherent(RefreshButtons(p))
    ensures RefreshButtons(p).createDisabled <==> !IsNHSNumber(ExternalID(p, false)) || p.phenopacketID != ""
  {
  }

  /** `disableGenOButtons`: the three writes, then `update()` of the menu when asked. */
  method DisableGenOButtons(menu: NodeMenus.NodeMenu, b: Buttons, refresh: bool, summary: NodeMenus.Summary)
    requires HasButtons(menu.fieldMap)
    modifies menu`fieldMap, menu`targetNode, menu`updating
    ensures menu.targetNode == old(menu.targetNode)
    ensures menu.fieldMap == if refresh && menu.targetNode.Some? then NodeMenus.SetCrtFields(WithButtons(old(menu.fieldMap), b), summary)
                             else WithButtons(old(menu.fieldMap), b)
    ensures menu.updating == (old(menu.updating) && !(refresh && menu.targetNode.Some?))
  {
    menu.SetDisabled(CreateButton, b.createDisabled);
    menu.SetDisabled(UpdateButton, b.updateDisabled);
    menu.SetDisabled(ViewButton, b.viewDisabled);
    if refresh {
      menu.Update(None, summary);
    }
  }

  /** The `refresh-gen-o-buttons-status` handler: only for a person, always refreshing the menu. */
  method RefreshGenOButtons(node: Persons.Person, isPerson: bool, menu: NodeMenus.NodeMenu, summary: NodeMenus.Summary)
    requires HasButtons(menu.fieldMap)
    modifies menu`fieldMap, menu`targetNode, menu`updating
    ensures menu.targetNode == old(menu.targetNode)
    ensures !isPerson ==> menu.fieldMap == old(menu.fieldMap) && menu.updating == old(menu.updating)
    ensures isPerson ==> menu.fieldMap == if menu.targetNode.Some? then NodeMenus.SetCrtFields(WithButtons(old(menu.fieldMap), RefreshButtons(node.state)), summary)
                                          else WithButtons(old(menu.fieldMap), RefreshButtons(node.state))
    ensures isPerson ==> menu.updating == (old(menu.updating) && menu.targetNode.None?)
  {
    if isPerson {
      var isNHS := CheckNHSNumber(ExternalID(node.state, false));
      if isNHS {
        if node.state.phenopacketID != "" {
          DisableGenOButtons(menu, Registered, true, summary);
        } else {
          DisableGenOButtons(menu, Unregistered, true, summary);
        }
      } else {
        DisableGenOButtons(menu, NoNHSNumber, true, summary);
      }
    }
  }

  // ----- the NHS number shown -----

  /** `node.isNHSNumber(node.getExternalID())`: the check runs on the displayed form. */
  predicate ShowsNHSNumber(p: PersonState) {
    IsNHSNumber(ExternalID(p, false))
  }

  /**
   * For a person whose identifier is stored as the invariant keeps it, the
   * displayed form passes the check exactly when the stored identifier
   * does, and taking the spaces out of it gives back the stored identifier,
   * which is then the key the lookups use.
   */
  lemma ShownNHSNumber(p: PersonState)
    requires Inv(p)
    ensures ShowsNHSNumber(p) <==> IsNHSNumber(p.externalID)
    ensures ShowsNHSNumber(p) ==> StripSpaces(ExternalID(p, false)) == p.externalID
  {
    ExternalIDRoundTrip(p);
    if IsNHSNumber(p.externalID) {
      SpacedRoundTrip(p.externalID);
    }
  }

  /** `node.isNHSNumber(node.getExternalID())` with the test as written at person.js:182-208. */
  predicate ShowsNHSNumberAsWritten(p: PersonState) {
    IsNHSNumberAsWritten(ExternalID(p, false))
  }

  /** The refresh handler's choice with the test as written. */
  function RefreshButtonsAsWritten(p: PersonState): Buttons {
    if ShowsNHSNumberAsWritten(p) then
      if p.phenopacketID != "" then Registered else Unregistered
    else NoNHSNumber
  }

  /**
   * A stored number with an all-zero middle group: the handlers as written
   * reject its display, so they refuse to create, look up or offer a record
   * and disable every button; with the corrected test the person shows an
   * NHS number, which the lookup and the creation then use.
   */
  lemma ZeroGroupFlowAsWritten(p: PersonState)
    requires p.externalID == "4010001234"
    ensures RefreshButtonsAsWritten(p) == NoNHSNumber
    ensures ShowsNHSNumber(p) && ShowsNHSNumber(p.(phenopacketID := ""))
    ensures RefreshButtons(p) != NoNHSNumber
  {
    ZeroGroupDisplayAsWritten(p);
    SpacedRoundTrip(p.externalID);
    ZeroGroupDisplayAsWritten(p.(phenopacketID := ""));
  }

  // ----- clearing demographics -----

  /** `clearNodeDemographics`: the state after its setter calls. */
  function ClearedDemographics(p: PersonState, clearHPO: bool): PersonState {
    var p1 := p.(firstName := Capitalise(""), lastName := Capitalise(""));
    var p2 := SetDeathDate(SetBirthDate(SetLifeStatus(p1, Alive), None), None).(gender := "U");
    if clearHPO then SetHPO(p2, []) else p2
  }

  /**
   * Clearing leaves an unnamed living person of unknown gender without
   * dates or gestation, with no HPO terms when asked, and leaves the
   * identifiers, comments, disorders and genes alone.
   */
  lemma ClearedDemographicsSpec(p: PersonState, clearHPO: bool)
    requires Inv(p)
    ensures var r := ClearedDemographics(p, clearHPO);
      Inv(r)
      && r.firstName == "" && r.lastName == "" && r.lifeStatus == Alive && r.gender == "U"
      && r.birthDate.None? && r.deathDate.None? && r.gestationAge.None? && r.conceptionDate.None?
      && r.hpo == (if clearHPO then [] else p.hpo)
      && r.externalID == p.externalID && r.phenopacketID == p.phenopacketID && r.comments == p.comments
      && r.disorders == p.disorders && r.carrierStatus == p.carrierStatus && r.candidateGenes == p.candidateGenes
      && r.isAdopted == p.isAdopted && r.childlessStatus == p.childlessStatus
  {
    var p1 := p.(firstName := Capitalise(""), lastName := Capitalise(""));
    var q1 := SetLifeStatus(p1, Alive);
    SetLifeStatusSpec(p1, Alive);
    var q2 := SetBirthDate(q1, None);
    SetBirthDateSpec(q1, None);
    var q3 := SetDeathDate(q2, None);
    SetDeathDateSpec(q2, None);
    var p2 := q3.(gender := "U");
    if clearHPO {
      SetHPOSpec(p2, []);
      assert PersonTerms.HPOIDs([]) == [];
    }
  }

  method ClearNodeDemographics(node: Persons.Person, clearHPO: bool)
    requires node.Valid()
    modifies node
    ensures node.Valid()
    ensures node.state == ClearedDemographics(old(node.state), clearHPO)
  {
    node.SetFirstName("");
    var _ := node.SetLastName("");
    node.SetLifeStatus(Alive);
    node.SetBirthDate(None);
    var _ := node.SetDeathDate(None);
    node.SetGender("U");
    if clearHPO {
      node.SetHPO([]);
    }
  }

  // ----- loading a record -----

  /** The life status and dates of a record, in the order they are set. */
  function WithVitals(p: PersonState, deceased: bool, birth: Option<int>, death: Option<int>): PersonState {
    var p1 := SetLifeStatus(p, if deceased then Deceased else Alive);
    var p2 := if birth.Some? then SetBirthDate(p1, birth) else p1;
    if death.Some? then SetDeathDate(p2, death) else p2
  }

  /** A death date is kept when there is no birth date or it comes after it. */
  predicate DeathAccepted(birth: Option<int>, death: Option<int>) {
    death.Some? && (birth.None? || death.value > birth.value)
  }

  /**
   * On a cleared person, the record's birth date is always taken, its
   * death date when it comes after the birth, and the person is deceased
   * when the record says so or a death date was taken.
   */
  lemma WithVitalsSpec(p: PersonState, deceased: bool, birth: Option<int>, death: Option<int>)
    requires Inv(p) && p.birthDate.None? && p.deathDate.None? && p.lifeStatus == Alive
    requires p.gestationAge.None? && p.conceptionDate.None?
    ensures var r := WithVitals(p, deceased, birth, death);
      Inv(r)
      && r.birthDate == birth
      && r.deathDate == (if DeathAccepted(birth, death) then death else None)
      && r.lifeStatus == (if deceased || DeathAccepted(birth, death) then Deceased else Alive)
      && r == p.(lifeStatus := r.lifeStatus, birthDate := r.birthDate, deathDate := r.deathDate)
  {
    var s := if deceased then Deceased else Alive;
    var p1 := SetLifeStatus(p, s);
    SetLifeStatusSpec(p, s);
    var p2 := if birth.Some? then SetBirthDate(p1, birth) else p1;
    if birth.Some? {
      SetBirthDateSpec(p1, birth);
    }
    if death.Some? {
      SetDeathDateSpec(p2, death);
      if DeathAccepted(birth, death) && p2.lifeStatus == Alive {
        SetLifeStatusFields(p2.(deathDate := death), Deceased);
      }
    }
  }

  method LoadVitals(node: Persons.Person, deceased: bool, birth: Option<int>, death: Option<int>)
    requires node.Valid()
    modifies node
    ensures node.Valid()
    ensures node.state == WithVitals(old(node.state), deceased, birth, death)
  {
    node.SetLifeStatus(if deceased then Deceased else Alive);
    if birth.Some? {
      node.SetBirthDate(birth);
    }
    if death.Some? {
      var _ := node.SetDeathDate(death);
    }
  }

  /** A phenotypic feature of a registry record. */
  datatype Feature = Feature(hpoID: string, hpoName: string)

  /** `new HPOTerm(v.hpo.id, v.hpo.name)`. */
  function FeatureTerm(f: Feature): HPOTerms.HPOTerm {
    var t := HPOTerms.NewHPOTerm(Some(f.hpoID), Some(f.hpoName));
    t.value
  }

  function FeatureTerms(fs: seq<Feature>): seq<HPOTerms.HPOTerm> {
    if fs == [] then [] else FeatureTerms(fs[..|fs| - 1]) + [FeatureTerm(fs[|fs| - 1])]
  }

  /** The push loop over the phenotypic features. */
  method CollectTerms(fs: seq<Feature>) returns (hpos: seq<HPOTerms.HPOTerm>)
    ensures hpos == FeatureTerms(fs)
  {
    hpos := [];
    var i := 0;
    while i < |fs|
      invariant 0 <= i <= |fs|
      invariant hpos == FeatureTerms(fs[..i])
    {
      assert fs[..i + 1][..i] == fs[..i];
      hpos := hpos + [FeatureTerm(fs[i])];
      i := i + 1;
    }
    assert fs[..|fs|] == fs;
  }

  /** A Gen-O registry record. */
  datatype RegistryRecord = RegistryRecord(
    id: string, firstName: string, lastName: string, phenopacketID: string, deceased: bool,
    dateOfBirth: Option<int>, dateOfDeath: Option<int>, sex: string,
    features: seq<Feature>, interpretations: seq<Interpretation>)

  /** A record of the NHS spine. */
  datatype SpineRecord = SpineRecord(names: seq<PatientName>, deceased: bool, birthDate: Option<int>, deceasedDate: Option<int>, gender: string)

  /** The name of a spine record the person gets: the preferred one, or none. */
  function ChosenName(names: seq<PatientName>): PatientName {
    if names == [] then PatientName(None, [], None, None) else Preferred(names)
  }

  /** A registry hit: cleared with the HPO terms, then the record's names, phenopacket, vitals, sex, terms and variants. */
  function RegistryState(p: PersonState, rec: RegistryRecord): PersonState {
    var p1 := ClearedDemographics(p, true);
    var p2 := p1.(firstName := Capitalise(rec.firstName), lastName := Capitalise(rec.lastName), phenopacketID := rec.phenopacketID);
    var p3 := WithVitals(p2, rec.deceased, rec.dateOfBirth, rec.dateOfDeath).(gender := rec.sex);
    var p4 := SetHPO(p3, FeatureTerms(rec.features));
    p4.(comments := CommentsWithVariants(Variants(rec.interpretations), p4.comments))
  }

  /** A spine hit: cleared keeping the HPO terms, then the chosen name, vitals and gender. */
  function SpineState(p: PersonState, rec: SpineRecord): PersonState {
    var p1 := ClearedDemographics(p, false);
    var n := ChosenName(rec.names);
    var p2 := p1.(firstName := Capitalise(GivenName(n)), lastName := Capitalise(FamilyName(n)));
    WithVitals(p2, rec.deceased, rec.birthDate, rec.deceasedDate).(gender := rec.gender)
  }

  lemma RegistryStateSpec(p: PersonState, rec: RegistryRecord)
    requires Inv(p)
    ensures var r := RegistryState(p, rec);
      Inv(r)
      && r.firstName == Capitalise(rec.firstName) && r.lastName == Capitalise(rec.lastName)
      && r.phenopacketID == rec.phenopacketID && r.gender == rec.sex
      && r.birthDate == rec.dateOfBirth
      && r.deathDate == (if DeathAccepted(rec.dateOfBirth, rec.dateOfDeath) then rec.dateOfDeath else None)
      && r.lifeStatus == (if rec.deceased || DeathAccepted(rec.dateOfBirth, rec.dateOfDeath) then Deceased else Alive)
      && r.hpo == Dedup(PersonTerms.HPOIDs(FeatureTerms(rec.features)))
      && r.comments == CommentsWithVariants(Variants(rec.interpretations), p.comments)
      && r.externalID == p.externalID && r.disorders == p.disorders && r.candidateGenes == p.candidateGenes
  {
    ClearedDemographicsSpec(p, true);
    var p1 := ClearedDemographics(p, true);
    var p2 := p1.(firstName := Capitalise(rec.firstName), lastName := Capitalise(rec.lastName), phenopacketID := rec.phenopacketID);
    WithVitalsSpec(p2, rec.deceased, rec.dateOfBirth, rec.dateOfDeath);
    var p3 := WithVitals(p2, rec.deceased, rec.dateOfBirth, rec.dateOfDeath).(gender := rec.sex);
    SetHPOSpec(p3, FeatureTerms(rec.features));
  }

  lemma SpineStateSpec(p: PersonState, rec: SpineRecord)
    requires Inv(p)
    ensures var r := SpineState(p, rec);
      var n := ChosenName(rec.names);
      Inv(r)
      && r.firstName == Capitalise(GivenName(n)) && r.lastName == Capitalise(FamilyName(n)) && r.gender == rec.gender
      && r.birthDate == rec.birthDate
      && r.deathDate == (if DeathAccepted(rec.birthDate, rec.deceasedDate) then rec.deceasedDate else None)
      && r.lifeStatus == (if rec.deceased || DeathAccepted(rec.birthDate, rec.deceasedDate) then Deceased else Alive)
      && r.hpo == p.hpo && r.phenopacketID == p.phenopacketID && r.comments == p.comments
      && r.externalID == p.externalID && r.disorders == p.disorders && r.candidateGenes == p.candidateGenes
  {
    ClearedDemographicsSpec(p, false);
    var p1 := ClearedDemographics(p, false);
    var n := ChosenName(rec.names);
    var p2 := p1.(firstName := Capitalise(GivenName(n)), lastName := Capitalise(FamilyName(n)));
    WithVitalsSpec(p2, rec.deceased, rec.birthDate, rec.deceasedDate);
  }

  method LoadRegistryRecord(node: Persons.Person, rec: RegistryRecord)
    requires node.Valid()
    modifies node
    ensures node.Valid()
    ensures node.state == RegistryState(old(node.state), rec)
  {
    ClearNodeDemographics(node, true);
    node.SetFirstName(rec.firstName);
    var _ := node.SetLastName(rec.lastName);
    node.SetPhenopacketID(rec.phenopacketID);
    LoadVitals(node, rec.deceased, rec.dateOfBirth, rec.dateOfDeath);
    node.SetGender(rec.sex);
    var hpos := CollectTerms(rec.features);
    node.SetHPO(hpos);
    var variants := FormatVariants(rec.interpretations);
    if |variants| > 0 {
      node.SetComments(JsText.Join(variants, "\r\n") + "\r\n" + node.state.comments);
    }
  }

  method LoadSpineRecord(node: Persons.Person, rec: SpineRecord)
    requires node.Valid()
    modifies node
    ensures node.Valid()
    ensures node.state == SpineState(old(node.state), rec)
  {
    ClearNodeDemographics(node, false);
    var names := rec.names;
    var name := ChosenName(names);
    node.SetFirstName(GivenName(name));
    var _ := node.SetLastName(FamilyName(name));
    LoadVitals(node, rec.deceased, rec.birthDate, rec.deceasedDate);
    node.SetGender(rec.gender);
  }

  // ----- reconciliation -----

  /** A change of cohort membership. */
  datatype CohortCall = LeaveCohort(phenopacketID: string) | JoinCohort(individualID: string)

  /** What a valid NHS number leads to: the registry record if there is one, else the spine's, else nothing. */
  function Looked(p: PersonState, registry: Option<RegistryRecord>, spine: Option<SpineRecord>): PersonState {
    if registry.Some? then RegistryState(p, registry.value)
    else if spine.Some? then SpineState(p, spine.value)
    else p
  }

  /** The person after `updateNodeOnExternalIDChange`, given what the lookups found. */
  function Reconciled(p: PersonState, registry: Option<RegistryRecord>, spine: Option<SpineRecord>): PersonState {
    var p0 := p.(phenopacketID := "");
    if ShowsNHSNumber(p0) then Looked(p0, registry, spine) else p0
  }

  /** The cohort calls: on a registry hit, leave the old phenopacket's cohort if it was set and differs, then join. */
  function CohortCalls(p: PersonState, registry: Option<RegistryRecord>): seq<CohortCall> {
    if !ShowsNHSNumber(p) || registry.None? then []
    else HitCalls(p.phenopacketID, registry.value)
  }

  /** The buttons the change leaves. */
  function LookupButtons(p: PersonState, registry: Option<RegistryRecord>): Buttons {
    if !ShowsNHSNumber(p) then NoNHSNumber
    else if registry.Some? then Registered
    else Unregistered
  }

  /**
   * The phenopacket is cleared whatever happens: without an NHS number, or
   * when neither lookup finds the person, nothing else changes. A registry
   * hit takes the record's phenopacket and replaces the HPO terms; a spine
   * hit keeps the HPO terms and leaves no phenopacket. The identifier,
   * disorders and genes are never touched.
   */
  lemma ReconciledSpec(p: PersonState, registry: Option<RegistryRecord>, spine: Option<SpineRecord>)
    requires Inv(p)
    ensures var r := Reconciled(p, registry, spine);
      Inv(r)
      && r.externalID == p.externalID && r.disorders == p.disorders && r.candidateGenes == p.candidateGenes
      && (!ShowsNHSNumber(p) || (registry.None? && spine.None?) ==> r == p.(phenopacketID := ""))
      && (ShowsNHSNumber(p) && registry.Some? ==>
            r.phenopacketID == registry.value.phenopacketID
            && r.hpo == Dedup(PersonTerms.HPOIDs(FeatureTerms(registry.value.features))))
      && (ShowsNHSNumber(p) && registry.None? && spine.Some? ==> r.phenopacketID == "" && r.hpo == p.hpo)
  {
    var p0 := p.(phenopacketID := "");
    assert ShowsNHSNumber(p0) == ShowsNHSNumber(p);
    if ShowsNHSNumber(p0) {
      if registry.Some? {
        RegistryStateSpec(p0, registry.value);
      } else if spine.Some? {
        SpineStateSpec(p0, spine.value);
      }
    }
  }

  /**
   * The old cohort is left only on a registry hit whose phenopacket differs
   * from a non-empty old one; the record's individual always joins on a
   * hit, last.
   */
  lemma CohortCallsSpec(p: PersonState, registry: Option<RegistryRecord>, x: string)
    ensures var calls := CohortCalls(p, registry);
      (LeaveCohort(x) in calls <==> ShowsNHSNumber(p) && registry.Some? && x == p.phenopacketID && x != "" && x != registry.value.phenopacketID)
      && (calls != [] <==> ShowsNHSNumber(p) && registry.Some?)
      && (calls != [] ==> calls[|calls| - 1] == JoinCohort(registry.value.id))
  {
  }

  /**
   * Refreshing the buttons later gives what the lookup left, provided a
   * registry record carries a phenopacket.
   */
  lemma RefreshAgreesWithLookup(p: PersonState, registry: Option<RegistryRecord>, spine: Option<SpineRecord>)
    requires Inv(p)
    requires registry.Some? ==> registry.value.phenopacketID != ""
    ensures RefreshButtons(Reconciled(p, registry, spine)) == LookupButtons(p, registry)
  {
    ReconciledSpec(p, registry, spine);
    var r := Reconciled(p, registry, spine);
    ShownNHSNumber(p);
    ShownNHSNumber(r);
  }

  /** The menu after the buttons are switched, refreshed when it is bound to a node. */
  function MenuAfter(m: map<string, NodeMenus.Field>, b: Buttons, target: Option<NodeMenus.NodeRef>, summary: NodeMenus.Summary): map<string, NodeMenus.Field>
    requires HasButtons(m)
  {
    if target.Some? then NodeMenus.SetCrtFields(WithButtons(m, b), summary) else WithButtons(m, b)
  }

  /** The cohort calls for a registry hit: leave the person's old cohort when it differs, then join the record's. */
  function HitCalls(oldPhenopacketID: string, rec: RegistryRecord): seq<CohortCall> {
    (if oldPhenopacketID != rec.phenopacketID && oldPhenopacketID != "" then [LeaveCohort(oldPhenopacketID)] else [])
    + [JoinCohort(rec.id)]
  }

  /** A registry hit: move the person to the record's cohort, load the record, and show the record's buttons. */
  method LoadRegistryHit(node: Persons.Person, menu: NodeMenus.NodeMenu, oldPhenopacketID: string,
                         rec: RegistryRecord, summary: NodeMenus.Summary)
    returns (calls: seq<CohortCall>)
    requires node.Valid() && HasButtons(menu.fieldMap)
    modifies node, menu`fieldMap, menu`targetNode, menu`updating
    ensures node.Valid()
    ensures node.state == RegistryState(old(node.state), rec)
    ensures menu.targetNode == old(menu.targetNode)
    ensures calls == HitCalls(oldPhenopacketID, rec)
    ensures menu.fieldMap == WithButtons(old(menu.fieldMap), Registered)
  {
    calls := [];
    if oldPhenopacketID != rec.phenopacketID && oldPhenopacketID != "" {
      calls := [LeaveCohort(oldPhenopacketID)];
    }
    calls := calls + [JoinCohort(rec.id)];
    LoadRegistryRecord(node, rec);
    DisableGenOButtons(menu, Registered, false, summary);
  }

  /** The branch of a valid NHS number: load what was found, switch the buttons, refresh the menu. */
  method LookUpNHSNumber(node: Persons.Person, menu: NodeMenus.NodeMenu, oldPhenopacketID: string,
                         registry: Option<RegistryRecord>, spine: Option<SpineRecord>, summary: NodeMenus.Summary)
    returns (calls: seq<CohortCall>)
    requires node.Valid() && HasButtons(menu.fieldMap)
    modifies node, menu`fieldMap, menu`targetNode, menu`updating
    ensures node.Valid()
    ensures node.state == Looked(old(node.state), registry, spine)
    ensures calls == if registry.None? then [] else HitCalls(oldPhenopacketID, registry.value)
    ensures menu.targetNode == old(menu.targetNode)
    ensures menu.fieldMap == MenuAfter(old(menu.fieldMap), if registry.Some? then Registered else Unregistered, menu.targetNode, summary)
  {
    if registry.Some? {
      calls := LoadRegistryHit(node, menu, oldPhenopacketID, registry.value, summary);
    } else {
      calls := [];
      if spine.Some? {
        LoadSpineRecord(node, spine.value);
      }
      DisableGenOButtons(menu, Unregistered, false, summary);
    }
    menu.Update(None, summary);
  }

  /** `updateNodeOnExternalIDChange`, with the registry and spine lookups for the person's NHS number given. */
  method UpdateNodeOnExternalIDChange(node: Persons.Person, menu: NodeMenus.NodeMenu,
                                      registry: Option<RegistryRecord>, spine: Option<SpineRecord>, summary: NodeMenus.Summary)
    returns (calls: seq<CohortCall>)
    requires node.Valid() && HasButtons(menu.fieldMap)
    modifies node, menu`fieldMap, menu`targetNode, menu`updating
    ensures node.Valid()
    ensures node.state == Reconciled(old(node.state), registry, spine)
    ensures calls == CohortCalls(old(node.state), registry)
    ensures menu.targetNode == old(menu.targetNode)
    ensures menu.fieldMap ==
      if ShowsNHSNumber(old(node.state)) then MenuAfter(old(menu.fieldMap), LookupButtons(old(node.state), registry), menu.targetNode, summary)
      else WithButtons(old(menu.fieldMap), NoNHSNumber)
  {
    var oldPhenopacketID := node.state.phenopacketID;
    node.SetPhenopacketID("");
    assert ExternalID(node.state, false) == ExternalID(old(node.state), false);
    var isNHS := CheckNHSNumber(ExternalID(node.state, false));
    assert isNHS == ShowsNHSNumber(old(node.state));
    if isNHS {
      calls := LookUpNHSNumber(node, menu, oldPhenopacketID, registry, spine, summary);
    } else {
      calls := [];
      DisableGenOButtons(menu, NoNHSNumber, false, summary);
    }
  }

  /**
   * The `createGenO` handler, corrected: with an NHS number, the new
   * phenopacket is stored and the record buttons switched, whatever
   * phenotypes the person holds.
   */
  method CreateGenO(node: Persons.Person, menu: NodeMenus.NodeMenu, newPhenopacketID: string, summary: NodeMenus.Summary)
    returns (created: bool)
    requires HasButtons(menu.fieldMap)
    modifies node, menu`fieldMap, menu`targetNode, menu`updating
    ensures created <==> ShowsNHSNumber(old(node.state))
    ensures node.state == if created then old(node.state).(phenopacketID := newPhenopacketID) else old(node.state)
    ensures menu.targetNode == old(menu.targetNode)
    ensures created ==> menu.fieldMap == if menu.targetNode.Some? then NodeMenus.SetCrtFields(WithButtons(old(menu.fieldMap), Registered), summary)
                                         else WithButtons(old(menu.fieldMap), Registered)
    ensures !created ==> menu.fieldMap == old(menu.fieldMap) && menu.updating == old(menu.updating)
    ensures created <==> CreateButtons(old(node.state)).Some?
  {
    created := CheckNHSNumber(ExternalID(node.state, false));
    if created {
      node.SetPhenopacketID(newPhenopacketID);
      DisableGenOButtons(menu, Registered, true, summary);
    }
  }

  /** The buttons `createGenO` switches to: the record buttons once a record is created, none otherwise. */
  function CreateButtons(p: PersonState): Option<Buttons> {
    if ShowsNHSNumber(p) then Some(Registered) else None
  }

  /**
   * The same as written: the handler tests the display with the test as
   * written, and `updateExternalHPO` is handed `node.getHPO()`, which holds
   * identifier strings, and calls `getID()` on each of them, which throws;
   * the handler then never reaches `disableGenOButtons`.
   */
  function CreateButtonsAsWritten(p: PersonState): Option<Buttons> {
    if ShowsNHSNumberAsWritten(p) && p.hpo == [] then Some(Registered) else None
  }

  /**
   * The `createGenO` handler as written: the display is tested with the test
   * as written, and a person holding a phenotype gets a phenopacket but keeps
   * the old buttons.
   */
  method CreateGenOAsWritten(node: Persons.Person, menu: NodeMenus.NodeMenu, newPhenopacketID: string, summary: NodeMenus.Summary)
    returns (created: bool)
    requires HasButtons(menu.fieldMap)
    modifies node, menu`fieldMap, menu`targetNode, menu`updating
    ensures created <==> ShowsNHSNumberAsWritten(old(node.state))
    ensures node.state == if created then old(node.state).(phenopacketID := newPhenopacketID) else old(node.state)
    ensures menu.targetNode == old(menu.targetNode)
    ensures CreateButtonsAsWritten(old(node.state)).Some? ==>
      menu.fieldMap == MenuAfter(old(menu.fieldMap), CreateButtonsAsWritten(old(node.state)).value, menu.targetNode, summary)
    ensures CreateButtonsAsWritten(old(node.state)).None? ==> menu.fieldMap == old(menu.fieldMap) && menu.updating == old(menu.updating)
  {
    created := IsNHSNumberAsWritten(ExternalID(node.state, false));
    if created {
      node.SetPhenopacketID(newPhenopacketID);
      if node.state.hpo != [] {
        // `hpo.getID()` on the first identifier string throws
        return;
      }
      DisableGenOButtons(menu, Registered, true, summary);
    }
  }

  /**
   * As written and corrected, `createGenO` agrees exactly for a person the
   * corrected test rejects, and for a person without phenotypes whose
   * display the test as written accepts too.
   */
  lemma CreateAgreesWithoutPhenotypes(p: PersonState)
    ensures CreateButtonsAsWritten(p) == CreateButtons(p) <==>
      !ShowsNHSNumber(p) || (ShowsNHSNumberAsWritten(p) && p.hpo == [])
    ensures CreateButtons(p).Some? <==> ShowsNHSNumber(p)
    ensures CreateButtonsAsWritten(p).Some? ==> CreateButtons(p).Some?
  {
    AsWrittenAccepted(ExternalID(p, false));
  }

  /** A stored number with an all-zero group and no phenotypes: as written nothing is created; corrected, the record is. */
  lemma ZeroGroupCreateAsWritten(p: PersonState)
    requires p.externalID == "4010001234" && p.hpo == []
    ensures CreateButtonsAsWritten(p) == None && CreateButtons(p) == Some(Registered)
  {
    ZeroGroupFlowAsWritten(p);
  }

  /** A person with an NHS number and one phenotype keeps the old buttons as written, and gets the record buttons once corrected. */
  lemma PhenotypeHolderKeepsButtonsAsWritten(p: PersonState, term: string)
    requires ShowsNHSNumber(p) && p.hpo == [term]
    ensures CreateButtonsAsWritten(p) == None && CreateButtons(p) == Some(Registered)
  {
  }

  /** After creating a record, refreshing the buttons keeps them as `createGenO` left them. */
  lemma CreateThenRefresh(p: PersonState, newPhenopacketID: string)
    requires ShowsNHSNumber(p) && newPhenopacketID != ""
    ensures RefreshButtons(p.(phenopacketID := newPhenopacketID)) == Registered
  {
  }
}

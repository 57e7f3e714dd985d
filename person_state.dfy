/**
 * The state of a person node and what each of its setters does to it, as
 * functions on a record. Dates are abstract instants (larger is later); an
 * empty date is `None`.
 */
module PersonStates {
  import opened Wrappers
  import opened Seqs
  import opened LegendLogs
  import opened NHSNumbers
  import opened JsValues
  import Disorders
  import HPOTerms
  import PersonTerms
  import PersonGenes

  const Alive: string := "alive"
  const Deceased: string := "deceased"

  datatype PersonState = PersonState(
    nodeID: int,
    firstName: string,
    lastName: string,
    gender: string,
    comments: string,
    externalID: string,
    phenopacketID: string,
    lifeStatus: string,
    birthDate: Option<int>,
    deathDate: Option<int>,
    conceptionDate: Option<int>,
    gestationAge: Option<int>,
    isAdopted: bool,
    childlessStatus: Option<string>,
    carrierStatus: string,
    disorders: seq<string>,
    hpo: seq<string>,
    candidateGenes: seq<string>,
    legendCalls: seq<LegendCall>)

  /** `_setDefault`, with the gender the constructor was given (`U` when none). */
  function Default(nodeID: int, gender: string): PersonState {
    PersonState(nodeID, "", "", gender, "", "", "", Alive, None, None, None, None,
                false, None, "", [], [], [], [])
  }

  // ----- names -----

  function UpperCase(c: char): char {
    if 'a' <= c <= 'z' then (c as int - 'a' as int + 'A' as int) as char else c
  }

  /** `name && (name.charAt(0).toUpperCase() + name.slice(1))` for ASCII letters. */
  function Capitalise(name: string): string {
    if name == "" then name else [UpperCase(name[0])] + name[1..]
  }

  // ----- external identifier -----

  /** `setExternalID`: a valid NHS number is stored without spaces, anything else as given. */
  function SetExternalID(p: PersonState, externalID: string): PersonState {
    p.(externalID := if IsNHSNumber(externalID) then StripSpaces(externalID) else externalID)
  }

  /** JavaScript's `substring(from, to)` for `from <= to`: both ends are clamped to the string. */
  function Substring(s: string, from: nat, to: nat): string
    requires from <= to
  {
    var a := if from <= |s| then from else |s|;
    var b := if to <= |s| then to else |s|;
    s[a..b]
  }

  /** `getExternalID(noSpaceFormat)`: a valid NHS number is shown in groups of 3, 3 and 4 unless asked otherwise. */
  function ExternalID(p: PersonState, noSpaceFormat: bool): string {
    var x := p.externalID;
    if !noSpaceFormat && IsNHSNumber(x) then
      Substring(x, 0, 3) + " " + Substring(x, 3, 6) + " " + Substring(x, 6, 10)
    else x
  }

  // ----- life status and dates -----

  predicate IsValidLifeStatus(s: string) {
    s == "unborn" || s == "stillborn" || s == "aborted" || s == "miscarriage" || s == Alive || s == Deceased
  }

  /** `isFetus`. */
  predicate IsFetus(s: string) {
    s != Alive && s != Deceased
  }

  /** `setBirthDate`: kept only when there is no death date or the birth is strictly before it. */
  function SetBirthDate(p: PersonState, d: Option<int>): PersonState {
    if d.None? || p.deathDate.None? || d.value < p.deathDate.value then p.(birthDate := d) else p
  }

  /**
   * `setLifeStatus`: an unknown status is ignored; anything but `deceased`
   * clears the death date, `alive` clears the gestation age, and a fetus
   * loses its birth date, adoption and childless status.
   */
  function SetLifeStatus(p: PersonState, s: string): PersonState {
    if !IsValidLifeStatus(s) then p
    else
      var p1 := p.(lifeStatus := s);
      // `setDeathDate('')` always stores the empty date and nothing else (`ClearDeathDate`)
      var p2 := if s != Deceased then p1.(deathDate := None) else p1;
      var p3 := if s == Alive then p2.(gestationAge := None, conceptionDate := None) else p2;
      if IsFetus(p3.lifeStatus) then SetBirthDate(p3, None).(isAdopted := false, childlessStatus := None) else p3
  }

  /**
   * `setDeathDate`: kept only when there is no birth date or the death is
   * strictly after it; a death date makes a living person `deceased`.
   */
  function SetDeathDate(p: PersonState, d: Option<int>): PersonState {
    if d.None? || p.birthDate.None? || d.value > p.birthDate.value then
      var p1 := p.(deathDate := d);
      if d.Some? && p1.lifeStatus == Alive then SetLifeStatus(p1, Deceased) else p1
    else p
  }

  /** Clearing the death date touches nothing else. */
  lemma ClearDeathDate(p: PersonState)
    ensures SetDeathDate(p, None) == p.(deathDate := None)
  {
  }

  /** Clearing the birth date is always accepted and touches nothing else. */
  lemma ClearBirthDate(p: PersonState)
    ensures SetBirthDate(p, None) == p.(birthDate := None)
  {
  }

  /** `setLifeStatus` field by field. */
  lemma SetLifeStatusFields(p: PersonState, s: string)
    ensures SetLifeStatus(p, s) ==
      if !IsValidLifeStatus(s) then p
      else p.(lifeStatus := s,
              deathDate := if s == Deceased then p.deathDate else None,
              gestationAge := if s == Alive then None else p.gestationAge,
              conceptionDate := if s == Alive then None else p.conceptionDate,
              birthDate := if IsFetus(s) then None else p.birthDate,
              isAdopted := p.isAdopted && !IsFetus(s),
              childlessStatus := if IsFetus(s) then None else p.childlessStatus)
  {
  }

  // ----- term lists -----

  function DisorderLog(p: PersonState): TermLog {
    TermLog(p.disorders, p.legendCalls)
  }

  function HPOLog(p: PersonState): TermLog {
    TermLog(p.hpo, p.legendCalls)
  }

  function GeneLog(p: PersonState): TermLog {
    TermLog(p.candidateGenes, p.legendCalls)
  }

  function WithDisorders(p: PersonState, t: TermLog): PersonState {
    p.(disorders := t.items, legendCalls := t.calls)
  }

  function WithHPO(p: PersonState, t: TermLog): PersonState {
    p.(hpo := t.items, legendCalls := t.calls)
  }

  function WithGenes(p: PersonState, t: TermLog): PersonState {
    p.(candidateGenes := t.items, legendCalls := t.calls)
  }

  /** The disorder the legend hands out for the name `affected`. */
  const AffectedDisorder: Disorders.Disorder := Disorders.Disorder(PersonTerms.Affected, PersonTerms.Affected, Disorders.DefaultSource)

  function AddDisorder(p: PersonState, d: Disorders.Disorder): PersonState {
    WithDisorders(p, PersonTerms.AddDisorder(DisorderLog(p), d, p.nodeID))
  }

  function RemoveDisorder(p: PersonState, id: string): PersonState {
    WithDisorders(p, PersonTerms.RemoveDisorder(DisorderLog(p), id, p.nodeID))
  }

  // ----- carrier status -----

  predicate IsValidCarrierStatus(s: string) {
    s == "" || s == "carrier" || s == PersonTerms.Affected || s == "presymptomatic"
  }

  /** The status `setCarrierStatus()` derives when called without one. */
  function DerivedCarrierStatus(p: PersonState): string {
    if |p.disorders| == 0 then ""
    else if p.carrierStatus == "" then PersonTerms.Affected
    else p.carrierStatus
  }

  /**
   * `setCarrierStatus(status)`: invalid statuses are ignored; "not affected"
   * with real disorders becomes `affected`, "not affected" with only the
   * `affected` placeholder removes it, and `affected` with no disorder adds
   * the placeholder.
   */
  function SetCarrierStatus(p: PersonState, status: Option<string>): PersonState {
    var st := if status.Some? then status.value else DerivedCarrierStatus(p);
    var n := |p.disorders|;
    if !IsValidCarrierStatus(st) then p
    else if n > 0 && st == "" then
      if n == 1 && p.disorders[0] == PersonTerms.Affected then RemoveDisorder(p, PersonTerms.Affected).(carrierStatus := "")
      else p.(carrierStatus := PersonTerms.Affected)
    else if n == 0 && st == PersonTerms.Affected then
      AddDisorder(p, AffectedDisorder).(carrierStatus := st)
    else p.(carrierStatus := st)
  }

  /** `setDisorders`: replace the list, then re-derive the carrier status. */
  function SetDisorders(p: PersonState, ds: seq<Disorders.Disorder>): PersonState {
    SetCarrierStatus(WithDisorders(p, PersonTerms.SetDisorders(DisorderLog(p), ds, p.nodeID)), None)
  }

  function AddHPO(p: PersonState, term: HPOTerms.HPOTerm): PersonState {
    WithHPO(p, PersonTerms.AddHPO(HPOLog(p), term, p.nodeID))
  }

  function RemoveHPO(p: PersonState, id: string): PersonState {
    WithHPO(p, PersonTerms.RemoveHPO(HPOLog(p), id, p.nodeID))
  }

  function SetHPO(p: PersonState, terms: seq<HPOTerms.HPOTerm>): PersonState {
    WithHPO(p, PersonTerms.SetHPO(HPOLog(p), terms, p.nodeID))
  }

  function AddGene(p: PersonState, name: string): PersonState {
    WithGenes(p, PersonGenes.AddGene(GeneLog(p), name, p.nodeID))
  }

  function RemoveGene(p: PersonState, name: string): PersonState {
    WithGenes(p, PersonGenes.RemoveGene(GeneLog(p), name, p.nodeID))
  }

  function SetGenes(p: PersonState, names: seq<string>): PersonState
    requires PersonGenes.AllShown(p.candidateGenes)
  {
    WithGenes(p, PersonGenes.SetGenes(GeneLog(p), names, p.nodeID))
  }

  /** The carrier options the menu disables (`getSummary`): "not affected" with real disorders, "presymptomatic" for a lost pregnancy. */
  function InactiveCarriers(p: PersonState): seq<string> {
    var none := if |p.disorders| > 0 && (|p.disorders| != 1 || p.disorders[0] != PersonTerms.Affected) then [""] else [];
    if p.lifeStatus == "aborted" || p.lifeStatus == "miscarriage" then none + ["presymptomatic"] else none
  }

  // ----- invariant -----

  predicate DatesOrdered(p: PersonState) {
    p.birthDate.Some? && p.deathDate.Some? ==> p.birthDate.value < p.deathDate.value
  }

  /** What every setter keeps: consistent term lists, known statuses, ordered dates, a stored NHS number without spaces. */
  ghost predicate Inv(p: PersonState) {
    PersonTerms.DisordersValid(DisorderLog(p))
    && PersonTerms.PhenotypesValid(HPOLog(p))
    && PersonGenes.GenesValid(GeneLog(p))
    && IsValidLifeStatus(p.lifeStatus) && IsValidCarrierStatus(p.carrierStatus)
    && DatesOrdered(p)
    && (p.deathDate.Some? ==> p.lifeStatus != Alive)
    && (IsNHSNumber(p.externalID) ==> Compact(p.externalID))
  }

  /** The carrier status agrees with the disorders: someone with a disorder is not "not affected", and `affected` needs a disorder. */
  predicate CarrierConsistent(p: PersonState) {
    (p.disorders != [] ==> p.carrierStatus != "")
    && (p.carrierStatus == PersonTerms.Affected ==> p.disorders != [])
  }

  // ----- dates as text -----

  function DigitChar(n: nat): char
    requires n < 10
  {
    ('0' as int + n) as char
  }

  /** A natural number's decimal digits, as JavaScript's string conversion writes them. */
  function Digits(n: nat): string {
    if n < 10 then [DigitChar(n)] else Digits(n / 10) + [DigitChar(n % 10)]
  }

  /** Day and month are padded to two digits. */
  function Pad2(n: nat): string {
    if n < 10 then "0" + Digits(n) else Digits(n)
  }

  /** `_getDateDMY`: `dd/mm/yyyy`, where `month0` counts months from 0 as `getMonth` does. */
  function DateDMY(day: nat, month0: nat, year: nat): string {
    Pad2(day) + "/" + Pad2(month0 + 1) + "/" + Digits(year)
  }

  lemma {:induction false} DigitsValue(n: nat)
    ensures AllDigits(Digits(n)) && |Digits(n)| >= 1
    ensures DecimalValue(Digits(n)) == n
    ensures n >= 10 ==> |Digits(n)| >= 2
    decreases n
  {
    if n >= 10 {
      DigitsValue(n / 10);
      var s := Digits(n);
      assert s[..|s| - 1] == Digits(n / 10);
    }
  }

  lemma Pad2Value(n: nat)
    requires n < 100
    ensures |Pad2(n)| == 2 && AllDigits(Pad2(n)) && DecimalValue(Pad2(n)) == n
  {
    DigitsValue(n);
    if n < 10 {
      assert Pad2(n)[..1] == "0";
    } else {
      DigitsValue(n / 10);
    }
  }

  /**
   * The formatted date can be read back: two digits of day, a slash, two
   * digits of month, a slash and the year, each with the value it was
   * given.
   */
  lemma DateDMYParse(day: nat, month0: nat, year: nat)
    requires day < 100 && month0 < 99
    ensures var r := DateDMY(day, month0, year);
      |r| >= 7 && r[2] == '/' && r[5] == '/'
      && AllDigits(r[..2]) && DecimalValue(r[..2]) == day
      && AllDigits(r[3..5]) && DecimalValue(r[3..5]) == month0 + 1
      && AllDigits(r[6..]) && DecimalValue(r[6..]) == year
  {
    Pad2Value(day);
    Pad2Value(month0 + 1);
    DigitsValue(year);
    var r := DateDMY(day, month0, year);
    assert r[..2] == Pad2(day);
    assert r[3..5] == Pad2(month0 + 1);
    assert r[6..] == Digits(year);
  }

  // ----- what the setters promise -----

  /** A new person satisfies the invariant, with a carrier status that agrees with its (empty) disorders. */
  lemma DefaultInv(nodeID: int, gender: string)
    ensures Inv(Default(nodeID, gender)) && CarrierConsistent(Default(nodeID, gender))
  {
    forall l: LegendKind, k: string
      ensures Net([], l, k) == Count([], k)
    {
    }
    assert PersonGenes.GeneSymbols([]) == [];
  }

  /** Capitalising upper-cases the first letter, keeps the rest, and is idempotent. */
  lemma CapitaliseSpec(name: string)
    ensures var r := Capitalise(name);
      |r| == |name| && (name != "" ==> r[1..] == name[1..] && !('a' <= r[0] <= 'z'))
      && (name != "" && !('a' <= name[0] <= 'z') ==> r == name)
      && Capitalise(r) == r
  {
    if name != "" {
      assert Capitalise(name)[1..] == name[1..];
    }
  }

  /**
   * `setLifeStatus` keeps the invariant. A known status is stored; every
   * status but `deceased` clears the death date, `alive` clears the
   * gestation age and conception date, and a fetus loses its birth date,
   * adoption and childless status. Nothing else changes.
   */
  lemma SetLifeStatusSpec(p: PersonState, s: string)
    requires Inv(p)
    ensures var r := SetLifeStatus(p, s);
      Inv(r)
      && (!IsValidLifeStatus(s) ==> r == p)
      && (IsValidLifeStatus(s) ==>
            r.lifeStatus == s
            && r.deathDate == (if s == Deceased then p.deathDate else None)
            && r.gestationAge == (if s == Alive then None else p.gestationAge)
            && r.conceptionDate == (if s == Alive then None else p.conceptionDate)
            && r.birthDate == (if IsFetus(s) then None else p.birthDate)
            && r.isAdopted == (p.isAdopted && !IsFetus(s))
            && r.childlessStatus == (if IsFetus(s) then None else p.childlessStatus)
            && r == p.(lifeStatus := r.lifeStatus, deathDate := r.deathDate, gestationAge := r.gestationAge,
                       conceptionDate := r.conceptionDate, birthDate := r.birthDate, isAdopted := r.isAdopted,
                       childlessStatus := r.childlessStatus))
  {
  }

  /** A birth date on or after the death date is refused; any other is stored, and nothing else changes. */
  lemma SetBirthDateSpec(p: PersonState, d: Option<int>)
    requires Inv(p)
    ensures var r := SetBirthDate(p, d);
      Inv(r)
      && (d.Some? && p.deathDate.Some? && d.value >= p.deathDate.value ==> r == p)
      && (!(d.Some? && p.deathDate.Some? && d.value >= p.deathDate.value) ==> r == p.(birthDate := d))
  {
  }

  /**
   * A death date on or before the birth date is refused; any other is
   * stored, and a living person given a death date becomes `deceased`.
   */
  lemma SetDeathDateSpec(p: PersonState, d: Option<int>)
    requires Inv(p)
    ensures var r := SetDeathDate(p, d);
      Inv(r)
      && (d.Some? && p.birthDate.Some? && d.value <= p.birthDate.value ==> r == p)
      && (!(d.Some? && p.birthDate.Some? && d.value <= p.birthDate.value) ==>
            r.deathDate == d
            && r.lifeStatus == (if d.Some? && p.lifeStatus == Alive then Deceased else p.lifeStatus)
            && r == p.(deathDate := d, lifeStatus := r.lifeStatus))
  {
  }

  /** Replacing the disorder list by a consistent one keeps the invariant when the other legends keep their balance. */
  lemma WithDisordersInv(p: PersonState, t: TermLog)
    requires Inv(p) && PersonTerms.DisordersValid(t)
    requires forall l2, keys :: l2 != DisorderLegend ==> (Balanced(t.calls, l2, keys) <==> Balanced(p.legendCalls, l2, keys))
    ensures Inv(WithDisorders(p, t))
  {
    assert Balanced(t.calls, PhenotypeLegend, p.hpo);
    assert Balanced(t.calls, GeneLegend, PersonGenes.GeneSymbols(p.candidateGenes));
  }

  lemma WithHPOInv(p: PersonState, t: TermLog)
    requires Inv(p) && PersonTerms.PhenotypesValid(t)
    requires forall l2, keys :: l2 != PhenotypeLegend ==> (Balanced(t.calls, l2, keys) <==> Balanced(p.legendCalls, l2, keys))
    ensures Inv(WithHPO(p, t))
  {
    assert Balanced(t.calls, DisorderLegend, p.disorders);
    assert Balanced(t.calls, GeneLegend, PersonGenes.GeneSymbols(p.candidateGenes));
  }

  lemma WithGenesInv(p: PersonState, t: TermLog)
    requires Inv(p) && PersonGenes.GenesValid(t)
    requires forall l2, keys :: l2 != GeneLegend ==> (Balanced(t.calls, l2, keys) <==> Balanced(p.legendCalls, l2, keys))
    ensures Inv(WithGenes(p, t))
  {
    assert Balanced(t.calls, DisorderLegend, p.disorders);
    assert Balanced(t.calls, PhenotypeLegend, p.hpo);
  }

  /** `addDisorder` keeps the invariant and holds the new disorder unless it is `affected` joining real ones. */
  lemma AddDisorderSpec(p: PersonState, d: Disorders.Disorder)
    requires Inv(p)
    ensures var r := AddDisorder(p, d);
      Inv(r) && Extends(r.legendCalls, p.legendCalls)
      && (d.id != PersonTerms.Affected ==> d.id in r.disorders)
      && (forall x :: x != PersonTerms.Affected ==> (x in r.disorders <==> x in p.disorders || x == d.id))
      && r == p.(disorders := r.disorders, legendCalls := r.legendCalls)
  {
    PersonTerms.AddDisorderValid(DisorderLog(p), d, p.nodeID);
    WithDisordersInv(p, PersonTerms.AddDisorder(DisorderLog(p), d, p.nodeID));
  }

  /** `removeDisorder` keeps the invariant, drops exactly the given identifier, and ignores an absent one. */
  lemma RemoveDisorderSpec(p: PersonState, id: string)
    requires Inv(p)
    ensures var r := RemoveDisorder(p, id);
      Inv(r) && Extends(r.legendCalls, p.legendCalls) && id !in r.disorders
      && (forall x :: x != id ==> (x in r.disorders <==> x in p.disorders))
      && (id !in p.disorders ==> r == p)
      && r == p.(disorders := r.disorders, legendCalls := r.legendCalls)
  {
    PersonTerms.RemoveDisorderValid(DisorderLog(p), id, p.nodeID);
    WithDisordersInv(p, PersonTerms.RemoveDisorder(DisorderLog(p), id, p.nodeID));
  }

  /**
   * `setCarrierStatus` keeps the invariant and ignores an invalid status. A
   * valid one leaves the carrier status consistent with the disorders:
   * "not affected" with real disorders becomes `affected`, "not affected"
   * drops a lone `affected` placeholder, and `affected` with no disorder
   * adds the placeholder.
   */
  lemma SetCarrierStatusSpec(p: PersonState, status: Option<string>)
    requires Inv(p)
    ensures var r := SetCarrierStatus(p, status);
      var st := if status.Some? then status.value else DerivedCarrierStatus(p);
      Inv(r) && Extends(r.legendCalls, p.legendCalls)
      && (!IsValidCarrierStatus(st) ==> r == p)
      && (IsValidCarrierStatus(st) ==>
            CarrierConsistent(r)
            && r.carrierStatus == (if st == "" && p.disorders != [] && p.disorders != [PersonTerms.Affected] then PersonTerms.Affected else st)
            && r.disorders == (if st == "" && p.disorders == [PersonTerms.Affected] then []
                               else if st == PersonTerms.Affected && p.disorders == [] then [PersonTerms.Affected]
                               else p.disorders))
      && r == p.(carrierStatus := r.carrierStatus, disorders := r.disorders, legendCalls := r.legendCalls)
  {
    var st := if status.Some? then status.value else DerivedCarrierStatus(p);
    var n := |p.disorders|;
    if IsValidCarrierStatus(st) {
      if n > 0 && st == "" {
        if n == 1 && p.disorders[0] == PersonTerms.Affected {
          assert p.disorders == [PersonTerms.Affected];
          DropPlaceholder(p);
        } else {
          assert p.disorders != [PersonTerms.Affected];
        }
      } else if n == 0 && st == PersonTerms.Affected {
        AddPlaceholder(p);
      }
    }
  }

  /** "Not affected" with only the `affected` placeholder removes it. */
  lemma DropPlaceholder(p: PersonState)
    requires Inv(p) && p.disorders == [PersonTerms.Affected]
    ensures var r := RemoveDisorder(p, PersonTerms.Affected).(carrierStatus := "");
      Inv(r) && CarrierConsistent(r) && Extends(r.legendCalls, p.legendCalls) && r.disorders == []
      && r == p.(carrierStatus := "", disorders := [], legendCalls := r.legendCalls)
  {
    RemoveDisorderSpec(p, PersonTerms.Affected);
    PersonTerms.WithoutSingle(PersonTerms.Affected, PersonTerms.Affected);
  }

  /** `affected` without a disorder adds the placeholder. */
  lemma AddPlaceholder(p: PersonState)
    requires Inv(p) && p.disorders == []
    ensures var r := AddDisorder(p, AffectedDisorder).(carrierStatus := PersonTerms.Affected);
      Inv(r) && CarrierConsistent(r) && Extends(r.legendCalls, p.legendCalls) && r.disorders == [PersonTerms.Affected]
      && r == p.(carrierStatus := PersonTerms.Affected, disorders := r.disorders, legendCalls := r.legendCalls)
  {
    AddDisorderSpec(p, AffectedDisorder);
  }

  /**
   * `setDisorders` keeps the invariant, reports the removal of every held
   * disorder from the last to the first before adding, ends with the
   * settled list of the new identifiers, and re-derives a consistent
   * carrier status: none without disorders, otherwise the old one, or
   * `affected` in place of "not affected".
   */
  lemma SetDisordersSpec(p: PersonState, ds: seq<Disorders.Disorder>)
    requires Inv(p)
    ensures var r := SetDisorders(p, ds);
      Inv(r) && CarrierConsistent(r)
      && r.disorders == PersonTerms.Settled(PersonTerms.DisorderIDs(ds))
      && r.carrierStatus == (if r.disorders == [] then "" else if p.carrierStatus == "" then PersonTerms.Affected else p.carrierStatus)
      && Extends(r.legendCalls, p.legendCalls + Removals(DisorderLegend, p.disorders, p.nodeID))
      && r == p.(disorders := r.disorders, carrierStatus := r.carrierStatus, legendCalls := r.legendCalls)
  {
    var t := PersonTerms.SetDisorders(DisorderLog(p), ds, p.nodeID);
    PersonTerms.SetDisordersResult(DisorderLog(p), ds, p.nodeID);
    var q := WithDisorders(p, t);
    WithDisordersInv(p, t);
    SetCarrierStatusSpec(q, None);
    var r := SetCarrierStatus(q, None);
    ExtendsTrans(r.legendCalls, q.legendCalls, p.legendCalls + Removals(DisorderLegend, p.disorders, p.nodeID));
  }

  /** `addHPO` keeps the invariant; a new term is appended and reported once, a held one changes nothing. */
  lemma AddHPOSpec(p: PersonState, term: HPOTerms.HPOTerm)
    requires Inv(p)
    ensures var r := AddHPO(p, term);
      Inv(r) && Extends(r.legendCalls, p.legendCalls)
      && (term.id in p.hpo ==> r == p)
      && (term.id !in p.hpo ==> r.hpo == p.hpo + [term.id] && |r.legendCalls| == |p.legendCalls| + 1)
      && r == p.(hpo := r.hpo, legendCalls := r.legendCalls)
  {
    AddTermBalanced(HPOLog(p), PhenotypeLegend, term.id, term.name, p.nodeID);
    WithHPOInv(p, PersonTerms.AddHPO(HPOLog(p), term, p.nodeID));
  }

  /** `removeHPO` keeps the invariant, drops exactly the given identifier, and ignores an absent one. */
  lemma RemoveHPOSpec(p: PersonState, id: string)
    requires Inv(p)
    ensures var r := RemoveHPO(p, id);
      Inv(r) && Extends(r.legendCalls, p.legendCalls) && id !in r.hpo
      && (forall x :: x != id ==> (x in r.hpo <==> x in p.hpo))
      && (id !in p.hpo ==> r == p)
      && r == p.(hpo := r.hpo, legendCalls := r.legendCalls)
  {
    RemoveTermBalanced(HPOLog(p), PhenotypeLegend, id, p.nodeID);
    WithHPOInv(p, PersonTerms.RemoveHPO(HPOLog(p), id, p.nodeID));
  }

  /** `setHPO` keeps the invariant and ends with the distinct new identifiers in order, after reporting every removal. */
  lemma SetHPOSpec(p: PersonState, terms: seq<HPOTerms.HPOTerm>)
    requires Inv(p)
    ensures var r := SetHPO(p, terms);
      Inv(r) && r.hpo == Dedup(PersonTerms.HPOIDs(terms))
      && Extends(r.legendCalls, p.legendCalls + Removals(PhenotypeLegend, p.hpo, p.nodeID))
      && r == p.(hpo := r.hpo, legendCalls := r.legendCalls)
  {
    PersonTerms.SetHPOResult(HPOLog(p), terms, p.nodeID);
    WithHPOInv(p, PersonTerms.SetHPO(HPOLog(p), terms, p.nodeID));
  }

  /** `addGene` keeps the invariant and stores the gene's display name once. */
  lemma AddGeneSpec(p: PersonState, name: string)
    requires Inv(p)
    ensures var r := AddGene(p, name);
      Inv(r) && Extends(r.legendCalls, p.legendCalls) && PersonGenes.Shown(name) in r.candidateGenes
      && (PersonGenes.Shown(name) in p.candidateGenes ==> r == p)
      && (PersonGenes.Shown(name) !in p.candidateGenes ==> r.candidateGenes == p.candidateGenes + [PersonGenes.Shown(name)])
      && r == p.(candidateGenes := r.candidateGenes, legendCalls := r.legendCalls)
  {
    PersonGenes.AddGeneValid(GeneLog(p), name, p.nodeID);
    WithGenesInv(p, PersonGenes.AddGene(GeneLog(p), name, p.nodeID));
  }

  /** `removeGene` keeps the invariant and drops exactly the gene named. */
  lemma RemoveGeneSpec(p: PersonState, name: string)
    requires Inv(p)
    ensures var r := RemoveGene(p, name);
      Inv(r) && Extends(r.legendCalls, p.legendCalls) && PersonGenes.Shown(name) !in r.candidateGenes
      && (forall x :: x != PersonGenes.Shown(name) ==> (x in r.candidateGenes <==> x in p.candidateGenes))
      && (PersonGenes.Shown(name) !in p.candidateGenes ==> r == p)
      && r == p.(candidateGenes := r.candidateGenes, legendCalls := r.legendCalls)
  {
    PersonGenes.RemoveGeneValid(GeneLog(p), name, p.nodeID);
    WithGenesInv(p, PersonGenes.RemoveGene(GeneLog(p), name, p.nodeID));
  }

  /** One step of the removal loop of `setGenes`: dropping the last stored gene leaves the rest of the clearing to do. */
  lemma RemoveLastGeneStep(p: PersonState)
    requires Inv(p) && p.candidateGenes != []
    ensures var last := p.candidateGenes[|p.candidateGenes| - 1];
      var r := RemoveGene(p, last);
      Inv(r) && |r.candidateGenes| == |p.candidateGenes| - 1
      && r == p.(candidateGenes := r.candidateGenes, legendCalls := r.legendCalls)
      && PersonGenes.ClearGenes(GeneLog(r), p.nodeID) == PersonGenes.ClearGenes(GeneLog(p), p.nodeID)
  {
    var last := p.candidateGenes[|p.candidateGenes| - 1];
    WithoutLast(p.candidateGenes);
    assert PersonGenes.Shown(last) == last;
    RemoveGeneSpec(p, last);
  }

  /** `setGenes` keeps the invariant and ends with the distinct display names in order, after reporting every removal. */
  lemma SetGenesSpec(p: PersonState, names: seq<string>)
    requires Inv(p)
    ensures PersonGenes.AllShown(p.candidateGenes)
    ensures var r := SetGenes(p, names);
      Inv(r) && r.candidateGenes == Dedup(PersonGenes.ShownAll(names))
      && Extends(r.legendCalls, p.legendCalls + PersonGenes.GeneRemovals(p.candidateGenes, p.nodeID))
      && r == p.(candidateGenes := r.candidateGenes, legendCalls := r.legendCalls)
  {
    PersonGenes.SetGenesResult(GeneLog(p), names, p.nodeID);
    WithGenesInv(p, PersonGenes.SetGenes(GeneLog(p), names, p.nodeID));
  }

  /** `setExternalID` keeps the invariant: a valid NHS number is stored as ten digits, anything else verbatim. */
  lemma SetExternalIDSpec(p: PersonState, externalID: string)
    requires Inv(p)
    ensures var r := SetExternalID(p, externalID);
      Inv(r)
      && (IsNHSNumber(externalID) ==> Compact(r.externalID) && r.externalID == StripSpaces(externalID))
      && (!IsNHSNumber(externalID) ==> r.externalID == externalID)
      && r == p.(externalID := r.externalID)
  {
    if IsNHSNumber(externalID) {
      StripAccepted(externalID);
    }
  }

  /**
   * Entering the identifier the person shows, spaced or not, stores what
   * is already stored; a stored NHS number is shown in groups of 3, 3 and 4.
   */
  lemma ExternalIDRoundTrip(p: PersonState)
    requires Inv(p)
    ensures SetExternalID(p, ExternalID(p, false)) == p
    ensures SetExternalID(p, ExternalID(p, true)) == p
    ensures ExternalID(p, true) == p.externalID
    ensures IsNHSNumber(p.externalID) ==> ExternalID(p, false) == Spaced(p.externalID) && SpacedForm(ExternalID(p, false))
  {
    var x := p.externalID;
    if IsNHSNumber(x) {
      assert Compact(x);
      assert ExternalID(p, false) == Spaced(x);
      SpacedRoundTrip(x);
      DigitsHaveNoSpaces(x);
      RemoveAbsent(x, ' ');
    }
  }

  /**
   * Where the corrected test and the test as written part: a stored number
   * with an all-zero middle group is shown in groups, and that display is
   * rejected by the test as written, which would store it verbatim and so
   * break the round trip; the corrected test strips it back to the stored
   * number.
   */
  lemma ZeroGroupDisplayAsWritten(p: PersonState)
    requires p.externalID == "4010001234"
    ensures ExternalID(p, false) == Spaced(p.externalID) && ExternalID(p, false) != p.externalID
    ensures !IsNHSNumberAsWritten(ExternalID(p, false))
    ensures SetExternalID(p, ExternalID(p, false)) == p
  {
    var x := p.externalID;
    ZeroGroupRejectedAsWritten();
    IsNHSNumberExactly(x);
    assert ExternalID(p, false) == Spaced(x);
    SpacedRoundTrip(x);
  }

  /**
   * The carrier options the menu disables: "not affected" exactly when a
   * real disorder is held, which is when choosing it would be turned into
   * `affected`; "presymptomatic" exactly for an aborted or miscarried
   * pregnancy.
   */
  lemma InactiveCarriersSpec(p: PersonState)
    requires Inv(p)
    ensures ("" in InactiveCarriers(p)) <==> (exists x :: x in p.disorders && x != PersonTerms.Affected)
    ensures ("presymptomatic" in InactiveCarriers(p)) <==> (p.lifeStatus == "aborted" || p.lifeStatus == "miscarriage")
    ensures "" in InactiveCarriers(p) ==> SetCarrierStatus(p, Some("")) == p.(carrierStatus := PersonTerms.Affected)
  {
    if |p.disorders| > 0 && (|p.disorders| != 1 || p.disorders[0] != PersonTerms.Affected) {
      assert p.disorders[0] in p.disorders;
    }
  }
}

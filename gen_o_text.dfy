/**
 * The pure decisions of the Gen-O / NHS spine synchronisation: which of a
 * patient's spine names is used, which genomic interpretations are copied
 * into the comments and how they are wrapped, the payload that mirrors a
 * node's HPO terms into Gen-O, and the list of demographic changes shown
 * before an update.
 */
module GenOText {
  import opened Wrappers
  import opened JsValues
  import opened JsText
  import HPOTerms

  // ----- patient names -----

  /** A name of a spine record; `start` is its `period.start` as a day number, when it has a non-empty one. */
  datatype PatientName = PatientName(use: Option<string>, given: seq<string>, family: Option<string>, start: Option<int>)

  /** `isUsualName`: `name?.use === 'usual'`. */
  predicate IsUsualName(n: PatientName) {
    n.use == Some("usual")
  }

  /**
   * `sortPatientName`: a usual name first; between names equally usual,
   * the later start first, and no order when either start is missing.
   */
  function ComparePatientNames(a: PatientName, b: PatientName): int {
    if IsUsualName(a) && !IsUsualName(b) then -1
    else if !IsUsualName(a) && IsUsualName(b) then 1
    else if a.start.Some? && b.start.Some? then b.start.value - a.start.value
    else 0
  }

  /** The order the comparator describes: a usual name first, then the later start. */
  lemma CompareSpec(a: PatientName, b: PatientName)
    ensures IsUsualName(a) && !IsUsualName(b) ==> ComparePatientNames(a, b) < 0
    ensures IsUsualName(a) == IsUsualName(b) && a.start.Some? && b.start.Some? ==>
              (ComparePatientNames(a, b) < 0 <==> a.start.value > b.start.value)
              && (ComparePatientNames(a, b) == 0 <==> a.start.value == b.start.value)
    ensures IsUsualName(a) == IsUsualName(b) && (a.start.None? || b.start.None?) ==> ComparePatientNames(a, b) == 0
    ensures ComparePatientNames(a, b) == -ComparePatientNames(b, a)
  {
  }

  predicate Dated(names: seq<PatientName>) {
    forall i :: 0 <= i < |names| ==> names[i].start.Some?
  }

  /** Over names that all have a start, the comparator is transitive. */
  lemma CompareTransitive(a: PatientName, b: PatientName, c: PatientName)
    requires a.start.Some? && b.start.Some? && c.start.Some?
    requires ComparePatientNames(a, b) <= 0 && ComparePatientNames(b, c) <= 0
    ensures ComparePatientNames(a, c) <= 0
  {
  }

  /** Without a start, it is not: `a` ties `b` and `b` ties `c`, yet `c` comes before `a`. */
  lemma CompareNotTransitiveWithoutStart()
    ensures var a, b, c := PatientName(None, [], None, Some(1)), PatientName(None, [], None, None), PatientName(None, [], None, Some(2));
      ComparePatientNames(a, b) == 0 && ComparePatientNames(b, c) == 0 && ComparePatientNames(a, c) > 0
  {
  }

  /** The first least name: what `names.sort(sortPatientName)[0]` is for a stable sort and a consistent comparator. */
  function Preferred(names: seq<PatientName>): PatientName
    requires |names| > 0
    decreases |names|
  {
    if |names| == 1 then names[0]
    else
      var rest := Preferred(names[1..]);
      if ComparePatientNames(rest, names[0]) < 0 then rest else names[0]
  }

  /**
   * The preferred name is one of the names; it is usual whenever one of
   * them is; and when every name has a start, no name comes before it.
   */
  lemma {:induction false} PreferredSpec(names: seq<PatientName>)
    requires |names| > 0
    ensures Preferred(names) in names
    ensures (exists i :: 0 <= i < |names| && IsUsualName(names[i])) ==> IsUsualName(Preferred(names))
    ensures Dated(names) ==> forall i :: 0 <= i < |names| ==> ComparePatientNames(Preferred(names), names[i]) <= 0
    decreases |names|
  {
    if |names| > 1 {
      var tail := names[1..];
      PreferredSpec(tail);
      var rest := Preferred(tail);
      if exists i :: 0 <= i < |names| && IsUsualName(names[i]) {
        var i :| 0 <= i < |names| && IsUsualName(names[i]);
        if i > 0 {
          assert tail[i - 1] == names[i];
        }
      }
      if Dated(names) {
        assert Dated(tail) by {
          forall k | 0 <= k < |tail| ensures tail[k].start.Some? {
            assert tail[k] == names[k + 1];
          }
        }
        var p := Preferred(names);
        assert p.start.Some?;
        forall i | 0 <= i < |names|
          ensures ComparePatientNames(p, names[i]) <= 0
        {
          if i > 0 {
            assert names[i] == tail[i - 1];
          }
          if ComparePatientNames(rest, names[0]) >= 0 && i > 0 {
            CompareSpec(rest, names[0]);
            CompareTransitive(names[0], rest, names[i]);
          }
        }
      }
    }
  }

  /** `names[0]?.given[0]`, with a missing name stored as the empty name. */
  function GivenName(n: PatientName): string {
    if |n.given| > 0 then n.given[0] else ""
  }

  /** `names[0]?.family`, likewise. */
  function FamilyName(n: PatientName): string {
    n.family.GetOr("")
  }

  // ----- genomic interpretations -----

  /** A genomic interpretation of a phenopacket; `displayText` is `None` when it is undefined. */
  datatype Interpretation = Interpretation(displayText: Option<string>, pathogenicity: Value, reportCategory: Value)

  /** The filter: a defined text, a pathogenic or likely pathogenic variant, in a primary report. */
  predicate KeepVariant(v: Interpretation) {
    v.displayText.Some?
    && (LooseEquals(v.pathogenicity, Str("Pathogenic")) || LooseEquals(v.pathogenicity, Str("Likely pathogenic")))
    && (LooseEquals(v.reportCategory, Str("Primary")) || LooseEquals(v.reportCategory, Str("Primary finding")))
  }

  /** On text values the loose comparisons of the filter are plain string comparisons. */
  lemma KeepVariantOnText(text: string, pathogenicity: string, category: string)
    ensures KeepVariant(Interpretation(Some(text), Str(pathogenicity), Str(category)))
            <==> (pathogenicity == "Pathogenic" || pathogenicity == "Likely pathogenic")
                 && (category == "Primary" || category == "Primary finding")
  {
  }

  /** A missing text is never copied, whatever its classification. */
  lemma UndefinedTextDropped(pathogenicity: Value, category: Value)
    ensures !KeepVariant(Interpretation(None, pathogenicity, category))
  {
  }

  /** The zygosity abbreviations, applied in the source's order. */
  function Abbreviate(text: string): string {
    ReplaceAll(ReplaceAll(ReplaceAll(text, "Heterozygous", "Het"), "Homozygous", "Hom"), "Hemizygous", "Hem")
  }

  /** The column past which a word starts a new line. */
  const WrapColumn: nat := 30

  /** One word of the wrap: the line is flushed first when the word would pass the column. */
  function WrapFrom(done: seq<string>, line: string, parts: seq<string>): (seq<string>, string)
    decreases |parts|
  {
    if parts == [] then (done, line)
    else if |line| + |parts[0]| > WrapColumn then WrapFrom(done + [line], parts[0] + " ", parts[1..])
    else WrapFrom(done, line + parts[0] + " ", parts[1..])
  }

  /** The lines of a wrapped text: the flushed lines, then the last one. */
  function WrapLines(text: string): seq<string> {
    var (done, line) := WrapFrom([], "", Split(text, " "));
    done + [line]
  }

  /** Each line followed by CR LF. */
  function Terminated(lines: seq<string>): string {
    if lines == [] then "" else lines[0] + "\r\n" + Terminated(lines[1..])
  }

  /** The text the wrap builds: every flushed line with its CR LF, then the last line. */
  function WrapText(text: string): string {
    var (done, line) := WrapFrom([], "", Split(text, " "));
    Terminated(done) + line
  }

  /** The words, each followed by one space. */
  function Spaced(parts: seq<string>): string {
    if parts == [] then "" else parts[0] + " " + Spaced(parts[1..])
  }

  function Concat(lines: seq<string>): string {
    if lines == [] then "" else lines[0] + Concat(lines[1..])
  }

  /** A line fits: at most 31 characters, or a single word longer than the column with its space. */
  predicate Fits(line: string, parts: seq<string>) {
    |line| <= WrapColumn + 1 || exists j :: 0 <= j < |parts| && |parts[j]| > WrapColumn && line == parts[j] + " "
  }

  lemma {:induction false} TerminatedAppend(lines: seq<string>, line: string)
    ensures Terminated(lines + [line]) == Terminated(lines) + line + "\r\n"
    decreases |lines|
  {
    if lines != [] {
      assert (lines + [line])[1..] == lines[1..] + [line];
      TerminatedAppend(lines[1..], line);
    }
  }

  lemma {:induction false} ConcatAppend(lines: seq<string>, line: string)
    ensures Concat(lines + [line]) == Concat(lines) + line
    decreases |lines|
  {
    if lines != [] {
      assert (lines + [line])[1..] == lines[1..] + [line];
      ConcatAppend(lines[1..], line);
    }
  }

  /** The wrap text is its lines joined with CR LF. */
  lemma {:induction false} TerminatedJoin(lines: seq<string>, line: string)
    ensures Terminated(lines) + line == Join(lines + [line], "\r\n")
    decreases |lines|
  {
    if lines != [] {
      assert (lines + [line])[1..] == lines[1..] + [line];
      TerminatedJoin(lines[1..], line);
    }
  }

  lemma {:induction false} WrapFromSpec(done: seq<string>, line: string, rest: seq<string>, parts: seq<string>)
    requires forall k :: 0 <= k < |done| ==> Fits(done[k], parts)
    requires Fits(line, parts)
    requires forall k :: 0 <= k < |rest| ==> rest[k] in parts
    ensures var (d, l) := WrapFrom(done, line, rest);
      (forall k :: 0 <= k < |d| ==> Fits(d[k], parts)) && Fits(l, parts)
      && Concat(d) + l == Concat(done) + line + Spaced(rest)
    decreases |rest|
  {
    if rest != [] {
      var p := rest[0];
      assert p in parts;
      var j :| 0 <= j < |parts| && parts[j] == p;
      forall k | 0 <= k < |rest[1..]| ensures rest[1..][k] in parts {
        assert rest[1..][k] == rest[k + 1];
      }
      if |line| + |p| > WrapColumn {
        ConcatAppend(done, line);
        assert Fits(p + " ", parts) by {
          if |p| > WrapColumn {
            assert parts[j] == p;
          }
        }
        forall k | 0 <= k < |done + [line]| ensures Fits((done + [line])[k], parts) {
          if k < |done| {
            assert (done + [line])[k] == done[k];
          }
        }
        WrapFromSpec(done + [line], p + " ", rest[1..], parts);
      } else {
        WrapFromSpec(done, line + p + " ", rest[1..], parts);
      }
    }
  }

  /**
   * The wrap loses nothing and adds only line breaks: its lines
   * concatenate to the words each followed by one space, the text is the
   * lines joined with CR LF, and every line is at most 31 characters
   * unless it is one word longer than 30.
   */
  lemma WrapLinesSpec(text: string)
    ensures Concat(WrapLines(text)) == Spaced(Split(text, " "))
    ensures WrapText(text) == Join(WrapLines(text), "\r\n")
    ensures forall k :: 0 <= k < |WrapLines(text)| ==> Fits(WrapLines(text)[k], Split(text, " "))
  {
    var parts := Split(text, " ");
    WrapFromSpec([], "", parts, parts);
    var (done, line) := WrapFrom([], "", parts);
    ConcatAppend(done, line);
    TerminatedJoin(done, line);
    assert WrapLines(text) == done + [line];
    forall k | 0 <= k < |done + [line]| ensures Fits((done + [line])[k], parts) {
      if k < |done| {
        assert (done + [line])[k] == done[k];
      }
    }
  }

  /** The wrap loop of the variant formatting, proved against `WrapText`. */
  method WrapVariant(text: string) returns (formatted: string)
    ensures formatted == WrapText(text)
  {
    var parts := Split(text, " ");
    formatted := "";
    var line := "";
    ghost var done: seq<string> := [];
    var i := 0;
    while i < |parts|
      invariant 0 <= i <= |parts|
      invariant WrapFrom(done, line, parts[i..]) == WrapFrom([], "", parts)
      invariant formatted == Terminated(done)
    {
      assert parts[i..][1..] == parts[i + 1..];
      if |line| + |parts[i]| > WrapColumn {
        TerminatedAppend(done, line);
        formatted := formatted + line + "\r\n";
        done := done + [line];
        line := "";
      }
      assert line == "" ==> line + parts[i] + " " == parts[i] + " ";
      line := line + parts[i] + " ";
      i := i + 1;
    }
    assert parts[|parts|..] == [];
    formatted := formatted + line;
  }

  /** The comment text of the kept interpretations, in order. */
  function Variants(vs: seq<Interpretation>): seq<string> {
    if vs == [] then []
    else
      var last := vs[|vs| - 1];
      Variants(vs[..|vs| - 1]) + if KeepVariant(last) then [WrapText(Abbreviate(last.displayText.value))] else []
  }

  /** There is variant text exactly when some interpretation passes the filter, and never more texts than interpretations. */
  lemma {:induction false} VariantsSpec(vs: seq<Interpretation>)
    ensures Variants(vs) == [] <==> forall i :: 0 <= i < |vs| ==> !KeepVariant(vs[i])
    ensures |Variants(vs)| <= |vs|
    decreases |vs|
  {
    if vs != [] {
      var init := vs[..|vs| - 1];
      VariantsSpec(init);
      if forall i :: 0 <= i < |vs| ==> !KeepVariant(vs[i]) {
        forall i | 0 <= i < |init| ensures !KeepVariant(init[i]) {
          assert init[i] == vs[i];
        }
      } else if Variants(init) == [] {
        assert forall i :: 0 <= i < |init| ==> !KeepVariant(vs[i]) by {
          forall i | 0 <= i < |init| ensures !KeepVariant(vs[i]) {
            assert init[i] == vs[i];
          }
        }
        assert KeepVariant(vs[|vs| - 1]);
      }
    }
  }

  /** The `each` loop over the interpretations, pushing the formatted text of every kept one. */
  method FormatVariants(vs: seq<Interpretation>) returns (variants: seq<string>)
    ensures variants == Variants(vs)
  {
    variants := [];
    var i := 0;
    while i < |vs|
      invariant 0 <= i <= |vs|
      invariant variants == Variants(vs[..i])
    {
      assert vs[..i + 1][..i] == vs[..i];
      var v := vs[i];
      if v.displayText.Some?
         && (LooseEquals(v.pathogenicity, Str("Pathogenic")) || LooseEquals(v.pathogenicity, Str("Likely pathogenic")))
         && (LooseEquals(v.reportCategory, Str("Primary")) || LooseEquals(v.reportCategory, Str("Primary finding")))
      {
        var text := v.displayText.value;
        text := ReplaceAll(text, "Heterozygous", "Het");
        text := ReplaceAll(text, "Homozygous", "Hom");
        text := ReplaceAll(text, "Hemizygous", "Hem");
        var formatted := WrapVariant(text);
        variants := variants + [formatted];
      }
      i := i + 1;
    }
    assert vs[..|vs|] == vs;
  }

  /** The comments after a registry hit: the variant texts, then the old comments, separated by CR LF. */
  function CommentsWithVariants(variants: seq<string>, comments: string): string {
    if variants == [] then comments else Join(variants, "\r\n") + "\r\n" + comments
  }

  // ----- the HPO payload -----

  datatype TermRow = TermRow(id: string, name: string)
  datatype LinkedTerm = LinkedTerm(phenopacketId: string, hpoId: string, presence: string)

  /** The variables of the phenotypic-features mutation. */
  datatype HPOPayload = HPOPayload(phenopacketId: string, hpoTerms: seq<TermRow>, linkedHpoTerms: seq<LinkedTerm>, linkedHpoIds: seq<string>)

  const Present: string := "PRESENT"

  /** `updateExternalHPO`: one push on each of the three lists per term. */
  function HPOPayloadOf(phenopacketId: string, hpos: seq<HPOTerms.HPOTerm>): HPOPayload {
    if hpos == [] then HPOPayload(phenopacketId, [], [], [])
    else
      var p := HPOPayloadOf(phenopacketId, hpos[..|hpos| - 1]);
      var last := hpos[|hpos| - 1];
      var hpoID := HPOTerms.DesanitizeID(last.id);
      p.(hpoTerms := p.hpoTerms + [TermRow(hpoID, last.name)],
         linkedHpoTerms := p.linkedHpoTerms + [LinkedTerm(phenopacketId, hpoID, Present)],
         linkedHpoIds := p.linkedHpoIds + [hpoID])
  }

  /**
   * The three lists follow the terms one for one, in order: each names the
   * term by its desanitized identifier, and every link carries the
   * phenopacket and is present.
   */
  lemma {:induction false} HPOPayloadSpec(phenopacketId: string, hpos: seq<HPOTerms.HPOTerm>)
    ensures var p := HPOPayloadOf(phenopacketId, hpos);
      p.phenopacketId == phenopacketId
      && |p.hpoTerms| == |hpos| && |p.linkedHpoTerms| == |hpos| && |p.linkedHpoIds| == |hpos|
      && forall i :: 0 <= i < |hpos| ==>
           p.hpoTerms[i] == TermRow(HPOTerms.DesanitizeID(hpos[i].id), hpos[i].name)
           && p.linkedHpoTerms[i] == LinkedTerm(phenopacketId, HPOTerms.DesanitizeID(hpos[i].id), Present)
           && p.linkedHpoIds[i] == HPOTerms.DesanitizeID(hpos[i].id)
    decreases |hpos|
  {
    if hpos != [] {
      var init := hpos[..|hpos| - 1];
      HPOPayloadSpec(phenopacketId, init);
      forall i | 0 <= i < |init| ensures init[i] == hpos[i] {
      }
    }
  }

  // ----- the update diff -----

  /** The Gen-O record as the update handler reads it; every field is `undefined` when there is no record. */
  datatype GenORecord = GenORecord(firstName: Value, lastName: Value, deceased: Value, dateOfBirth: Value, dateOfDeath: Value, sex: Value)

  const NoRecord: GenORecord := GenORecord(Undefined, Undefined, Undefined, Undefined, Undefined, Undefined)

  /** What the node would send: its names, life status, ISO dates (`null` when unset) and gender. */
  datatype Demographics = Demographics(firstName: Value, lastName: Value, lifeStatus: string, dateOfBirth: Value, dateOfDeath: Value, gender: Value)

  /** The fields the update compares, in the order they are listed. */
  datatype Field = FirstName | LastName | LifeStatus | DateOfBirth | DateOfDeath | Gender

  /** The field's name in the confirmation text. */
  function Label(f: Field): string {
    match f
    case FirstName => "First name"
    case LastName => "Last name"
    case LifeStatus => "Life status"
    case DateOfBirth => "Date of birth"
    case DateOfDeath => "Date of death"
    case Gender => "Gender"
  }

  /** One row of the confirmation: the field, the Gen-O value, the node's value. */
  datatype Change = Change(field: Field, was: Value, now: Value)

  function Row(f: Field, was: Value, now: Value): seq<Change> {
    if LooseEquals(was, now) then [] else [Change(f, was, now)]
  }

  /** The Gen-O life status shown in the life-status row. */
  function RecordLifeStatus(deceased: Value): Value {
    Str(if Truthy(deceased) then "deceased" else "alive")
  }

  /** The life-status test as written: `(deceased != lifeStatus) == 'deceased'`, a boolean compared with a string. */
  predicate LifeStatusDiffersAsWritten(deceased: Value, lifeStatus: string) {
    LooseEquals(Bool(!LooseEquals(deceased, Str(lifeStatus))), Str("deceased"))
  }

  /** The life-status test intended: whether Gen-O's flag disagrees with the node being deceased. */
  predicate LifeStatusDiffers(deceased: Value, lifeStatus: string) {
    !LooseEquals(deceased, Bool(lifeStatus == "deceased"))
  }

  function LifeStatusRow(rec: GenORecord, node: Demographics, differs: bool): seq<Change> {
    if differs then [Change(LifeStatus, RecordLifeStatus(rec.deceased), Str(node.lifeStatus))] else []
  }

  /** The rows the update handler collects, with the life-status test given. */
  function DiffWith(rec: GenORecord, node: Demographics, lifeStatusDiffers: bool): seq<Change> {
    Row(FirstName, rec.firstName, node.firstName)
    + Row(LastName, rec.lastName, node.lastName)
    + LifeStatusRow(rec, node, lifeStatusDiffers)
    + Row(DateOfBirth, rec.dateOfBirth, node.dateOfBirth)
    + Row(DateOfDeath, rec.dateOfDeath, node.dateOfDeath)
    + Row(Gender, rec.sex, node.gender)
  }

  /** The diff as written. */
  function DiffAsWritten(rec: GenORecord, node: Demographics): seq<Change> {
    DiffWith(rec, node, LifeStatusDiffersAsWritten(rec.deceased, node.lifeStatus))
  }

  /** The diff with the life-status test corrected. */
  function Diff(rec: GenORecord, node: Demographics): seq<Change> {
    DiffWith(rec, node, LifeStatusDiffers(rec.deceased, node.lifeStatus))
  }

  predicate HasRow(d: seq<Change>, f: Field) {
    exists k :: 0 <= k < |d| && d[k].field == f
  }

  /** Whether the record and the node disagree on a field, with the life-status test given. */
  predicate Differs(rec: GenORecord, node: Demographics, f: Field, lifeStatusDiffers: bool) {
    match f
    case FirstName => !LooseEquals(rec.firstName, node.firstName)
    case LastName => !LooseEquals(rec.lastName, node.lastName)
    case LifeStatus => lifeStatusDiffers
    case DateOfBirth => !LooseEquals(rec.dateOfBirth, node.dateOfBirth)
    case DateOfDeath => !LooseEquals(rec.dateOfDeath, node.dateOfDeath)
    case Gender => !LooseEquals(rec.sex, node.gender)
  }

  lemma HasRowAppend(a: seq<Change>, b: seq<Change>, f: Field)
    ensures HasRow(a + b, f) <==> HasRow(a, f) || HasRow(b, f)
  {
    if HasRow(a, f) {
      var k :| 0 <= k < |a| && a[k].field == f;
      assert (a + b)[k] == a[k];
    }
    if HasRow(b, f) {
      var k :| 0 <= k < |b| && b[k].field == f;
      assert (a + b)[|a| + k] == b[k];
    }
    if HasRow(a + b, f) {
      var k :| 0 <= k < |a + b| && (a + b)[k].field == f;
      if k < |a| {
        assert a[k] == (a + b)[k];
      } else {
        assert b[k - |a|] == (a + b)[k];
      }
    }
  }

  lemma RowHas(f: Field, was: Value, now: Value, g: Field)
    ensures HasRow(Row(f, was, now), g) <==> f == g && !LooseEquals(was, now)
  {
    if !LooseEquals(was, now) {
      assert Row(f, was, now)[0].field == f;
    }
  }

  /**
   * A field is listed exactly when the record and the node disagree on it,
   * for either life-status test, and each field at most once, in the order
   * of the handler.
   */
  lemma {:induction false} DiffWithSpec(rec: GenORecord, node: Demographics, lifeStatusDiffers: bool, f: Field)
    ensures HasRow(DiffWith(rec, node, lifeStatusDiffers), f) <==> Differs(rec, node, f, lifeStatusDiffers)
  {
    var r1 := Row(FirstName, rec.firstName, node.firstName);
    var r2 := Row(LastName, rec.lastName, node.lastName);
    var r3 := LifeStatusRow(rec, node, lifeStatusDiffers);
    var r4 := Row(DateOfBirth, rec.dateOfBirth, node.dateOfBirth);
    var r5 := Row(DateOfDeath, rec.dateOfDeath, node.dateOfDeath);
    var r6 := Row(Gender, rec.sex, node.gender);
    HasRowAppend(r1, r2, f);
    HasRowAppend(r1 + r2, r3, f);
    HasRowAppend(r1 + r2 + r3, r4, f);
    HasRowAppend(r1 + r2 + r3 + r4, r5, f);
    HasRowAppend(r1 + r2 + r3 + r4 + r5, r6, f);
    RowHas(FirstName, rec.firstName, node.firstName, f);
    RowHas(LastName, rec.lastName, node.lastName, f);
    RowHas(DateOfBirth, rec.dateOfBirth, node.dateOfBirth, f);
    RowHas(DateOfDeath, rec.dateOfDeath, node.dateOfDeath, f);
    RowHas(Gender, rec.sex, node.gender, f);
    if lifeStatusDiffers {
      assert r3[0].field == LifeStatus;
    }
  }

  /**
   * The corrected diff lists a field exactly when Gen-O and the node
   * disagree on it, so it is empty exactly when they agree on all six.
   */
  lemma DiffSpec(rec: GenORecord, node: Demographics)
    ensures forall f :: HasRow(Diff(rec, node), f) <==> Differs(rec, node, f, LifeStatusDiffers(rec.deceased, node.lifeStatus))
    ensures Diff(rec, node) == [] <==> forall f :: !Differs(rec, node, f, LifeStatusDiffers(rec.deceased, node.lifeStatus))
  {
    var d := Diff(rec, node);
    forall f ensures HasRow(d, f) <==> Differs(rec, node, f, LifeStatusDiffers(rec.deceased, node.lifeStatus)) {
      DiffWithSpec(rec, node, LifeStatusDiffers(rec.deceased, node.lifeStatus), f);
    }
    if d != [] {
      assert HasRow(d, d[0].field);
    }
  }

  /** As written, no record and no node ever get a life-status row: a boolean never loosely equals `'deceased'`. */
  lemma LifeStatusNeverListedAsWritten(rec: GenORecord, node: Demographics)
    ensures !LifeStatusDiffersAsWritten(rec.deceased, node.lifeStatus)
    ensures !HasRow(DiffAsWritten(rec, node), LifeStatus)
  {
    DiffWithSpec(rec, node, LifeStatusDiffersAsWritten(rec.deceased, node.lifeStatus), LifeStatus);
  }

  /**
   * A patient Gen-O records as deceased, on a node that is alive and
   * otherwise agrees: the corrected diff lists the life status, the diff
   * as written is empty, so the handler reports nothing to update.
   */
  lemma DeceasedMissedAsWritten()
    ensures var rec := GenORecord(Str("Ann"), Str("Lee"), Bool(true), Null, Null, Str("F"));
      var node := Demographics(Str("Ann"), Str("Lee"), "alive", Null, Null, Str("F"));
      DiffAsWritten(rec, node) == [] && Diff(rec, node) == [Change(LifeStatus, Str("deceased"), Str("alive"))]
  {
  }

  /** The update handler's pushes, with the corrected life-status test, and whether it upserts. */
  method UpdateGenO(rec: GenORecord, node: Demographics, confirmed: bool) returns (changedFields: seq<Change>, upserted: bool)
    ensures changedFields == Diff(rec, node)
    ensures upserted <==> changedFields != [] && confirmed
  {
    changedFields := [];
    if !LooseEquals(rec.firstName, node.firstName) {
      changedFields := changedFields + [Change(FirstName, rec.firstName, node.firstName)];
    }
    if !LooseEquals(rec.lastName, node.lastName) {
      changedFields := changedFields + [Change(LastName, rec.lastName, node.lastName)];
    }
    ghost var upTo2 := changedFields;
    assert upTo2 == Row(FirstName, rec.firstName, node.firstName) + Row(LastName, rec.lastName, node.lastName);
    if !LooseEquals(rec.deceased, Bool(node.lifeStatus == "deceased")) {
      changedFields := changedFields + [Change(LifeStatus, RecordLifeStatus(rec.deceased), Str(node.lifeStatus))];
    }
    ghost var upTo3 := changedFields;
    assert upTo3 == upTo2 + LifeStatusRow(rec, node, LifeStatusDiffers(rec.deceased, node.lifeStatus));
    if !LooseEquals(rec.dateOfBirth, node.dateOfBirth) {
      changedFields := changedFields + [Change(DateOfBirth, rec.dateOfBirth, node.dateOfBirth)];
    }
    ghost var upTo4 := changedFields;
    assert upTo4 == upTo3 + Row(DateOfBirth, rec.dateOfBirth, node.dateOfBirth);
    if !LooseEquals(rec.dateOfDeath, node.dateOfDeath) {
      changedFields := changedFields + [Change(DateOfDeath, rec.dateOfDeath, node.dateOfDeath)];
    }
    ghost var upTo5 := changedFields;
    assert upTo5 == upTo4 + Row(DateOfDeath, rec.dateOfDeath, node.dateOfDeath);
    if !LooseEquals(rec.sex, node.gender) {
      changedFields := changedFields + [Change(Gender, rec.sex, node.gender)];
    }
    assert changedFields == upTo5 + Row(Gender, rec.sex, node.gender);
    // an empty list only alerts; otherwise the upsert waits for the confirmation
    upserted := changedFields != [] && confirmed;
  }

  /** Without a record every field the node has set is listed. */
  lemma NoRecordListsSetFields(node: Demographics)
    requires node.firstName.Str? && node.lastName.Str? && node.gender.Str?
    ensures HasRow(Diff(NoRecord, node), FirstName) && HasRow(Diff(NoRecord, node), LastName)
    ensures HasRow(Diff(NoRecord, node), LifeStatus) && HasRow(Diff(NoRecord, node), Gender)
  {
    DiffSpec(NoRecord, node);
  }
}

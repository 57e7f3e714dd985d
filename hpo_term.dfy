/**
 * A phenotype term of the Human Phenotype Ontology attached to a person:
 * a sanitized identifier and a name. Identifiers that do not look like
 * `HP:<digits>` are free text and name themselves.
 */
module HPOTerms {
  import opened Wrappers
  import opened JsText
  import opened JsValues
  import opened TermIds

  datatype HPOTerm = HPOTerm(id: string, name: string)

  const LoadingName: string := "loading..."

  /** `HPOTerm.sanitizeID`: brackets, colons and unsafe characters become underscore codes. */
  function SanitizeID(id: string): (r: string)
    ensures AllSafe(r)
  {
    var temp := MapChars(MapChars(MapChars(id, EscapeOpen), EscapeClose), EscapeColon);
    UnsafePassIsSafe(temp);
    MapChars(temp, EscapeUnsafe)
  }

  /** `HPOTerm.desanitizeID`: `__`, `_C_`, `_L_` and `_J_` back, in that order. */
  function DesanitizeID(id: string): string {
    ReplaceAll(ReplaceAll(ReplaceAll(ReplaceAll(id, "__", " "), "_C_", ":"), "_L_", "("), "_J_", ")")
  }

  predicate IsLetterH(c: char) { c == 'H' || c == 'h' }
  predicate IsLetterP(c: char) { c == 'P' || c == 'p' }

  /** `HPOTerm.isValidID`: `/^HP\:(\d)+$/i`. */
  predicate IsValidID(id: string) {
    |id| >= 4 && IsLetterH(id[0]) && IsLetterP(id[1]) && id[2] == ':' && AllDigits(id[3..])
  }

  /**
   * `new HPOTerm(hpoID, name)`. A missing identifier with a missing name,
   * or with a name that is not a display name, makes the constructor call a
   * string method on `undefined`: that is `Err`.
   */
  function NewHPOTerm(hpoID: Option<string>, name: Option<string>): (r: Result<HPOTerm>)
    ensures hpoID.Some? ==> r.Ok?
  {
    if hpoID.None? && name.None? then
      Err("desanitizeID of a missing identifier")
    else
      // user-defined terms are named after their identifier
      var name1 := if name.None? && !IsValidID(DesanitizeID(hpoID.value)) then Some(DesanitizeID(hpoID.value)) else name;
      if hpoID.None? then
        if Contains(name1.value, " | ") then
          var info := Split(name1.value, " | ");
          Ok(HPOTerm(SanitizeID(info[0]), info[1]))
        else
          Err("sanitizeID of a missing identifier")
      else
        Ok(HPOTerm(SanitizeID(hpoID.value), if name1.Some? && name1.value != "" then name1.value else LoadingName))
  }

  /** `getDesanitizedID`. */
  function DesanitizedID(t: HPOTerm): string {
    DesanitizeID(t.id)
  }

  /** `getDisplayName`: `ID | name`. */
  function DisplayName(t: HPOTerm): string {
    DesanitizeID(t.id) + " | " + t.name
  }

  /** Identifiers that survive sanitizing and desanitizing: the safe class without `_`, and lone colons. */
  predicate RoundTrippable(raw: string) {
    (forall c :: c in raw ==> ColonIdChar(c)) && NoAdjacentColons(raw)
  }

  /** A sanitized identifier is already sanitized. */
  lemma SanitizeIdempotent(id: string)
    ensures SanitizeID(SanitizeID(id)) == SanitizeID(id)
  {
    var r := SanitizeID(id);
    PassesFixSafe(r);
  }

  /** Desanitizing undoes sanitizing on round-trippable identifiers. */
  lemma DesanitizeSanitize(raw: string)
    requires RoundTrippable(raw)
    ensures DesanitizeID(SanitizeID(raw)) == raw
  {
    assert forall c :: c in raw ==> EscapeOpen(c) == [c] && EscapeClose(c) == [c];
    MapCharsIdentity(raw, EscapeOpen);
    MapCharsIdentity(raw, EscapeClose);
    var colons := MapChars(raw, EscapeColon);
    ColonPassIsSafe(raw);
    PassesFixSafe(colons);
    assert SanitizeID(raw) == colons;
    ColonPassHasNoDoubleUnderscore(raw);
    ColonsRoundTrip(raw);
    assert '_' !in raw;
    ReplaceAllAbsent(raw, "_L_", "(");
    ReplaceAllAbsent(raw, "_J_", ")");
  }

  /** A valid HPO identifier has only round-trippable characters and a single colon. */
  lemma ValidIDIsRoundTrippable(id: string)
    requires IsValidID(id)
    ensures RoundTrippable(id)
  {
    forall c | c in id
      ensures ColonIdChar(c)
    {
      var i :| 0 <= i < |id| && id[i] == c;
      if i >= 3 {
        assert id[3..][i - 3] == c;
      }
    }
    forall i | 0 <= i < |id| - 1
      ensures !(id[i] == ':' && id[i + 1] == ':')
    {
      if i >= 2 {
        assert id[3..][i - 2] == id[i + 1];
      }
    }
  }

  /** A character pass over `p:q` with safe `p` and `q` touches only the colon. */
  lemma SafeAroundColon(p: string, q: string, f: char -> string)
    requires AllSafe(p) && AllSafe(q)
    requires MapChars(p, f) == p && MapChars(q, f) == q
    ensures MapChars(p + ":" + q, f) == p + f(':') + q
  {
    MapCharsAppend(p, ":", f);
    MapCharsAppend(p + ":", q, f);
    assert MapChars(":", f) == f(':') + MapChars("", f);
  }

  /** A valid HPO identifier is stored as `HP_C_<digits>`, in its own letter case. */
  lemma SanitizeValidID(id: string)
    requires IsValidID(id)
    ensures SanitizeID(id) == id[..2] + "_C_" + id[3..]
  {
    var p, q := id[..2], id[3..];
    assert id == p + ":" + q;
    assert AllSafe(p) && AllSafe(q) by {
      assert forall c :: c in p ==> IsLetterH(c) || IsLetterP(c);
      assert forall c :: c in q ==> IsDigit(c);
    }
    PassesFixSafe(p);
    PassesFixSafe(q);
    SafeAroundColon(p, q, EscapeOpen);
    SafeAroundColon(p, q, EscapeClose);
    SafeAroundColon(p, q, EscapeColon);
    var stored := p + "_C_" + q;
    assert MapChars(id, EscapeColon) == stored;
    assert AllSafe(stored);
    PassesFixSafe(stored);
  }

  /** Every valid HPO identifier survives sanitizing and desanitizing. */
  lemma ValidIDRoundTrip(id: string)
    requires IsValidID(id)
    ensures DesanitizeID(SanitizeID(id)) == id
  {
    ValidIDIsRoundTrippable(id);
    DesanitizeSanitize(id);
  }

  /** A display name `ID | name` yields the sanitized identifier and the name. */
  lemma ParseDisplayName(raw: string, n: string)
    requires '|' !in raw
    requires !Contains(n, " | ")
    ensures NewHPOTerm(None, Some(raw + " | " + n)) == Ok(HPOTerm(SanitizeID(raw), n))
  {
    SplitAfter(raw, " | ", n, 1);
    assert Split(raw + " | " + n, " | ") == [raw, n];
  }

  /** The display name of a named term parses back to the same term. */
  lemma DisplayNameRoundTrip(raw: string, n: string)
    requires RoundTrippable(raw)
    requires n != "" && !Contains(n, " | ")
    ensures NewHPOTerm(Some(raw), Some(n)) == Ok(HPOTerm(SanitizeID(raw), n))
    ensures NewHPOTerm(None, Some(DisplayName(HPOTerm(SanitizeID(raw), n)))) == NewHPOTerm(Some(raw), Some(n))
  {
    DesanitizeSanitize(raw);
    ParseDisplayName(raw, n);
  }

  /** Without a name, a valid HPO identifier waits for the lookup and free text names itself. */
  lemma UnnamedTerm(id: string)
    ensures NewHPOTerm(Some(id), None).Ok?
    ensures NewHPOTerm(Some(id), None).value.id == SanitizeID(id)
    ensures IsValidID(DesanitizeID(id)) ==> NewHPOTerm(Some(id), None).value.name == LoadingName
    ensures !IsValidID(DesanitizeID(id)) && DesanitizeID(id) != "" ==> NewHPOTerm(Some(id), None).value.name == DesanitizeID(id)
    ensures DesanitizeID(id) == "" ==> NewHPOTerm(Some(id), None).value.name == LoadingName
  {
  }

  /** Without an identifier the name must be a display name; otherwise construction fails. */
  lemma MissingIdentifier(name: Option<string>)
    ensures NewHPOTerm(None, name).Ok? <==> (name.Some? && Contains(name.value, " | "))
  {
  }
}

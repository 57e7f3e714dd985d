/**
 * A genetic disorder attached to a person: an identifier (kept sanitized
 * in memory), a name and the vocabulary it comes from (`ORPHA` unless a
 * display name says otherwise).
 */
module Disorders {
  import opened Wrappers
  import opened JsText
  import opened JsValues
  import opened TermIds

  datatype Disorder = Disorder(id: string, name: string, source: string)

  const DefaultSource: string := "ORPHA"
  const LoadingName: string := "loading..."

  /** The helpers' `isInt`, taken as a non-empty string of decimal digits. */
  predicate IsInt(s: string) {
    s != "" && AllDigits(s)
  }

  /** `Disorder.sanitizeID`: numbers pass through, anything else ends up in the safe class. */
  function SanitizeID(id: string): (r: string)
    ensures IsInt(id) ==> r == id
    ensures !IsInt(id) ==> AllSafe(r)
  {
    if IsInt(id) then id
    else
      var temp := MapChars(MapChars(id, EscapeOpen), EscapeClose);
      UnsafePassIsSafe(temp);
      MapChars(temp, EscapeUnsafe)
  }

  /** `Disorder.desanitizeID`: `__` to a space, `_L_` to `(`, `_J_` to `)`. */
  function DesanitizeID(id: string): string {
    ReplaceAll(ReplaceAll(ReplaceAll(id, "__", " "), "_L_", "("), "_J_", ")")
  }

  /**
   * `new Disorder(disorderID, name, callWhenReady, source)`. A missing ID
   * with a missing name, or with a name that is not a display name, makes
   * the constructor call a string method on `undefined`: that is `Err`.
   */
  function NewDisorder(disorderID: Option<string>, name: Option<string>, source: string): (r: Result<Disorder>)
    ensures disorderID.Some? ==> r.Ok?
  {
    if name.None? && disorderID.None? then
      Err("desanitizeID of a missing identifier")
    else
      // user-defined disorders are named after their identifier
      var name1 := if name.None? && !IsInt(disorderID.value) then Some(DesanitizeID(disorderID.value)) else name;
      if disorderID.None? then
        if Contains(name1.value, " | ") then
          var info := Split(name1.value, " | ");
          if Contains(info[0], ":") then
            var idParts := Split(info[0], ":");
            Ok(Disorder(SanitizeID(idParts[1]), info[1], idParts[0]))
          else
            Ok(Disorder(SanitizeID(info[0]), info[1], source))
        else
          Err("sanitizeID of a missing identifier")
      else
        Ok(Disorder(SanitizeID(disorderID.value), if name1.Some? && name1.value != "" then name1.value else LoadingName, source))
  }

  /** `getDesanitizedDisorderID`. */
  function DesanitizedID(d: Disorder): string {
    DesanitizeID(d.id)
  }

  /** `getDisplayName`: `source:ID | name`. */
  function DisplayName(d: Disorder): string {
    d.source + ":" + DesanitizeID(d.id) + " | " + d.name
  }

  /** Identifiers that survive sanitizing and desanitizing: the safe class without `_`, plus spaces. */
  predicate RoundTrippable(raw: string) {
    forall c :: c in raw ==> SpacedIdChar(c)
  }

  /** Sanitizing is idempotent. */
  lemma SanitizeIdempotent(id: string)
    ensures SanitizeID(SanitizeID(id)) == SanitizeID(id)
  {
    var r := SanitizeID(id);
    if !IsInt(id) && !IsInt(r) {
      PassesFixSafe(r);
    }
  }

  /** Desanitizing undoes sanitizing for identifiers made of safe characters and spaces. */
  lemma DesanitizeSanitize(raw: string)
    requires RoundTrippable(raw)
    ensures DesanitizeID(SanitizeID(raw)) == raw
  {
    assert '_' !in raw;
    if !IsInt(raw) {
      assert forall c :: c in raw ==> EscapeOpen(c) == [c] && EscapeClose(c) == [c];
      MapCharsIdentity(raw, EscapeOpen);
      MapCharsIdentity(raw, EscapeClose);
      SpacesRoundTrip(raw);
    }
    ReplaceAllAbsent(raw, "__", " ");
    ReplaceAllAbsent(raw, "_L_", "(");
    ReplaceAllAbsent(raw, "_J_", ")");
  }

  /** A display name without a source prefix takes the default source. */
  lemma ParseDisplayNameWithoutSource(raw: string, n: string, source: string)
    requires '|' !in raw && ':' !in raw
    requires !Contains(n, " | ")
    ensures NewDisorder(None, Some(raw + " | " + n), source) == Ok(Disorder(SanitizeID(raw), n, source))
  {
    SplitAfter(raw, " | ", n, 1);
    assert Split(raw + " | " + n, " | ") == [raw, n];
    SplitAbsent(raw, ":");
  }

  /** A display name `SRC:ID | name` yields source, sanitized identifier and name. */
  lemma ParseDisplayNameWithSource(src: string, raw: string, n: string, source: string)
    requires '|' !in src && ':' !in src && '|' !in raw && ':' !in raw
    requires !Contains(n, " | ")
    ensures NewDisorder(None, Some(src + ":" + raw + " | " + n), source) == Ok(Disorder(SanitizeID(raw), n, src))
  {
    var a := src + ":" + raw;
    assert '|' !in a;
    SplitAfter(a, " | ", n, 1);
    assert Split(a + " | " + n, " | ") == [a, n];
    assert a[|src|] == ':';
    assert Contains(a, ":") by {
      assert OccursAt(a, ":", |src|) by { assert a[|src|..|src| + 1] == ":"; }
    }
    SplitAfter(src, ":", raw, 0);
    SplitAbsent(raw, ":");
    assert Split(a, ":") == [src, raw];
  }

  /** The display name of a disorder built from an identifier and a name parses back to the same disorder. */
  lemma DisplayNameRoundTrip(raw: string, n: string, src: string)
    requires RoundTrippable(raw)
    requires n != "" && !Contains(n, " | ")
    requires '|' !in src && ':' !in src
    ensures NewDisorder(Some(raw), Some(n), src).Ok?
    ensures NewDisorder(None, Some(DisplayName(NewDisorder(Some(raw), Some(n), src).value)), DefaultSource)
         == NewDisorder(Some(raw), Some(n), src)
  {
    var d := NewDisorder(Some(raw), Some(n), src).value;
    assert d == Disorder(SanitizeID(raw), n, src);
    DesanitizeSanitize(raw);
    assert DisplayName(d) == src + ":" + raw + " | " + n;
    ParseDisplayNameWithSource(src, raw, n, DefaultSource);
  }

  /** Without a name, a free-text identifier names itself and a number waits for the lookup. */
  lemma UnnamedDisorder(id: string, source: string)
    ensures NewDisorder(Some(id), None, source).Ok?
    ensures NewDisorder(Some(id), None, source).value.id == SanitizeID(id)
    ensures NewDisorder(Some(id), None, source).value.source == source
    ensures IsInt(id) ==> NewDisorder(Some(id), None, source).value.name == LoadingName
    ensures !IsInt(id) && DesanitizeID(id) != "" ==> NewDisorder(Some(id), None, source).value.name == DesanitizeID(id)
    ensures DesanitizeID(id) == "" ==> NewDisorder(Some(id), None, source).value.name == LoadingName
  {
  }

  /** Without an identifier the name must be a display name; otherwise construction fails. */
  lemma MissingIdentifier(name: Option<string>, source: string)
    ensures (NewDisorder(None, name, source).Ok?) <==> (name.Some? && Contains(name.value, " | "))
  {
  }
}

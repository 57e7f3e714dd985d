/**
 * The character substitutions behind `sanitizeID`, shared by disorders and
 * HPO terms. Identifiers end up inside HTML ids of the legend, so brackets,
 * colons and every character outside `[a-zA-Z0-9,;_\-*]` are rewritten
 * into underscore codes: `(`/`[` to `_L_`, `)`/`]` to `_J_`, `:` to `_C_`
 * (HPO only) and anything else unsafe to `__`.
 */
module TermIds {
  import opened JsText

  /** Characters of the class `[a-zA-Z0-9,;_\-*]`. */
  predicate IsSafe(c: char) {
    ('a' <= c <= 'z') || ('A' <= c <= 'Z') || ('0' <= c <= '9')
    || c == ',' || c == ';' || c == '_' || c == '-' || c == '*'
  }

  predicate AllSafe(s: string) {
    forall c :: c in s ==> IsSafe(c)
  }

  /** `/[\(\[]/g` to `_L_`. */
  function EscapeOpen(c: char): string {
    if c == '(' || c == '[' then "_L_" else [c]
  }

  /** `/[\)\]]/g` to `_J_`. */
  function EscapeClose(c: char): string {
    if c == ')' || c == ']' then "_J_" else [c]
  }

  /** `/[:]/g` to `_C_`. */
  function EscapeColon(c: char): string {
    if c == ':' then "_C_" else [c]
  }

  /** `/[^a-zA-Z0-9,;_\-*]/g` to `__`. */
  function EscapeUnsafe(c: char): string {
    if IsSafe(c) then [c] else "__"
  }

  /** The last pass leaves only safe characters. */
  lemma UnsafePassIsSafe(s: string)
    ensures AllSafe(MapChars(s, EscapeUnsafe))
  {
    MapCharsInto(s, EscapeUnsafe, IsSafe);
  }

  /** Every pass leaves an all-safe string alone. */
  lemma PassesFixSafe(s: string)
    requires AllSafe(s)
    ensures MapChars(s, EscapeOpen) == s
    ensures MapChars(s, EscapeClose) == s
    ensures MapChars(s, EscapeColon) == s
    ensures MapChars(s, EscapeUnsafe) == s
  {
    MapCharsIdentity(s, EscapeOpen);
    MapCharsIdentity(s, EscapeClose);
    MapCharsIdentity(s, EscapeColon);
    MapCharsIdentity(s, EscapeUnsafe);
  }

  /** Characters a free-text disorder identifier may hold and still survive a round trip. */
  predicate SpacedIdChar(c: char) {
    (IsSafe(c) && c != '_') || c == ' '
  }

  /** Characters an HPO identifier may hold and still survive a round trip. */
  predicate ColonIdChar(c: char) {
    (IsSafe(c) && c != '_') || c == ':'
  }

  /** No two colons in a row (`::` would sanitize to `_C__C_`, whose `__` reads back as a space). */
  predicate NoAdjacentColons(s: string) {
    forall i :: 0 <= i < |s| - 1 ==> !(s[i] == ':' && s[i + 1] == ':')
  }

  /** Escaping spaces to `__` is undone by reading `__` back as a space. */
  lemma {:induction false} SpacesRoundTrip(x: string)
    requires forall c :: c in x ==> SpacedIdChar(c)
    ensures ReplaceAll(MapChars(x, EscapeUnsafe), "__", " ") == x
  {
    if x != [] {
      var t := MapChars(x[1..], EscapeUnsafe);
      SpacesRoundTrip(x[1..]);
      if x[0] == ' ' {
        ReplaceAllFront("__", t, " ");
      } else {
        assert x[0] in x;
        assert MapChars(x, EscapeUnsafe) == [x[0]] + t;
        NoMatchAtFront([x[0]] + t, "__", 0);
        ReplaceAllSkip([x[0]] + t, "__", " ");
        assert ([x[0]] + t)[1..] == t;
      }
      assert x == [x[0]] + x[1..];
    }
  }

  /** `_C_` in front of text that does not start with `_` adds no `__`. */
  lemma ColonCodeKept(t: string)
    requires ReplaceAll(t, "__", " ") == t
    requires t == [] || t[0] != '_'
    ensures ReplaceAll("_C_" + t, "__", " ") == "_C_" + t
  {
    var s := "_C_" + t;
    NoMatchAtFront(s, "__", 1);
    ReplaceAllSkip(s, "__", " ");
    assert s[1..] == "C_" + t;
    NoMatchAtFront(s[1..], "__", 0);
    ReplaceAllSkip(s[1..], "__", " ");
    assert s[1..][1..] == "_" + t;
    if t == [] {
      assert ReplaceAll("_", "__", " ") == "_";
    } else {
      NoMatchAtFront("_" + t, "__", 1);
      ReplaceAllSkip("_" + t, "__", " ");
      assert ("_" + t)[1..] == t;
    }
  }

  /** The colon pass never produces `__` when colons are not adjacent. */
  lemma {:induction false} ColonPassHasNoDoubleUnderscore(x: string)
    requires forall c :: c in x ==> ColonIdChar(c)
    requires NoAdjacentColons(x)
    ensures ReplaceAll(MapChars(x, EscapeColon), "__", " ") == MapChars(x, EscapeColon)
  {
    if x != [] {
      var t := MapChars(x[1..], EscapeColon);
      assert NoAdjacentColons(x[1..]) by {
        forall i | 0 <= i < |x[1..]| - 1
          ensures !(x[1..][i] == ':' && x[1..][i + 1] == ':')
        {
          assert x[1..][i] == x[i + 1] && x[1..][i + 1] == x[i + 2];
        }
      }
      ColonPassHasNoDoubleUnderscore(x[1..]);
      if x[0] == ':' {
        if t != [] {
          assert x[1] != ':' && x[1] in x;
          assert t == [x[1]] + MapChars(x[2..], EscapeColon) by {
            assert x[1..][0] == x[1] && x[1..][1..] == x[2..];
          }
          assert t[0] != '_';
        }
        ColonCodeKept(t);
      } else {
        assert x[0] in x;
        assert MapChars(x, EscapeColon) == [x[0]] + t;
        NoMatchAtFront([x[0]] + t, "__", 0);
        ReplaceAllSkip([x[0]] + t, "__", " ");
        assert ([x[0]] + t)[1..] == t;
      }
    }
  }

  /** Escaping colons to `_C_` is undone by reading `_C_` back as a colon. */
  lemma {:induction false} ColonsRoundTrip(x: string)
    requires forall c :: c in x ==> ColonIdChar(c)
    ensures ReplaceAll(MapChars(x, EscapeColon), "_C_", ":") == x
  {
    if x != [] {
      var t := MapChars(x[1..], EscapeColon);
      ColonsRoundTrip(x[1..]);
      if x[0] == ':' {
        ReplaceAllFront("_C_", t, ":");
      } else {
        assert x[0] in x;
        assert MapChars(x, EscapeColon) == [x[0]] + t;
        NoMatchAtFront([x[0]] + t, "_C_", 0);
        ReplaceAllSkip([x[0]] + t, "_C_", ":");
        assert ([x[0]] + t)[1..] == t;
      }
      assert x == [x[0]] + x[1..];
    }
  }

  /** The colon pass only produces safe characters from colon-identifier characters. */
  lemma ColonPassIsSafe(x: string)
    requires forall c :: c in x ==> ColonIdChar(c)
    ensures AllSafe(MapChars(x, EscapeColon))
  {
    MapCharsInto(x, EscapeColon, IsSafe);
  }
}

/**
 * The JavaScript string operations the pedigree code relies on, over
 * `seq<char>`: `indexOf`/`includes`, `split` with a literal separator,
 * `replace` with a global literal pattern, and `replace` with a global
 * one-character class, which is a per-character substitution.
 */
module JsText {
  import opened Wrappers

  /** `pat` occurs in `s` starting at index `k`. */
  predicate OccursAt(s: string, pat: string, k: nat) {
    k + |pat| <= |s| && s[k..k + |pat|] == pat
  }

  /** `s.indexOf(pat)`, with `None` for -1. */
  function IndexOf(s: string, pat: string): (r: Option<nat>)
    ensures r.Some? ==> OccursAt(s, pat, r.value)
    ensures r.Some? ==> forall k :: 0 <= k < r.value ==> !OccursAt(s, pat, k)
    ensures r.None? ==> forall k :: 0 <= k ==> !OccursAt(s, pat, k)
    decreases |s|
  {
    if |s| < |pat| then None
    else if s[..|pat|] == pat then Some(0)
    else
      OccursShift(s, pat);
      match IndexOf(s[1..], pat)
      case None => None
      case Some(k) => Some(k + 1)
  }

  /** An occurrence in `s[1..]` at `k` is an occurrence in `s` at `k + 1`, and back. */
  lemma OccursShift(s: string, pat: string)
    requires |s| >= |pat| && s[..|pat|] != pat
    ensures !OccursAt(s, pat, 0)
    ensures forall k :: 0 <= k ==> (OccursAt(s, pat, k + 1) <==> OccursAt(s[1..], pat, k))
    ensures forall k :: 0 < k ==> (OccursAt(s, pat, k) <==> OccursAt(s[1..], pat, k - 1))
  {
    forall k | 0 <= k
      ensures OccursAt(s, pat, k + 1) <==> OccursAt(s[1..], pat, k)
    {
      if k + 1 + |pat| <= |s| {
        var x, y := s[k + 1..k + 1 + |pat|], s[1..][k..k + |pat|];
        assert forall i :: 0 <= i < |pat| ==> x[i] == y[i];
        assert x == y;
      }
    }
    forall k | 0 < k
      ensures OccursAt(s, pat, k) <==> OccursAt(s[1..], pat, k - 1)
    {
      assert OccursAt(s, pat, (k - 1) + 1) <==> OccursAt(s[1..], pat, k - 1);
    }
  }

  /** `s.includes(pat)`. */
  predicate Contains(s: string, pat: string) {
    IndexOf(s, pat).Some?
  }

  /** The first occurrence found by `IndexOf` is the only candidate. */
  lemma IndexOfIsFirst(s: string, pat: string, m: nat)
    requires OccursAt(s, pat, m)
    requires forall k :: 0 <= k < m ==> !OccursAt(s, pat, k)
    ensures IndexOf(s, pat) == Some(m)
  {
  }

  /** `s.split(sep)` for a non-empty literal separator. */
  function Split(s: string, sep: string): (parts: seq<string>)
    requires |sep| > 0
    ensures |parts| >= 1
    ensures !Contains(s, sep) ==> parts == [s]
    ensures Contains(s, sep) ==> |parts| >= 2
    decreases |s|
  {
    match IndexOf(s, sep)
    case None => [s]
    case Some(k) => [s[..k]] + Split(s[k + |sep|..], sep)
  }

  /**
   * A separator one of whose characters `sep[j]` never appears in `a`, nor
   * earlier in `sep`, cannot start inside `a`: splitting `a + sep + b`
   * yields `a` first.
   */
  lemma {:induction false} SplitAfter(a: string, sep: string, b: string, j: nat)
    requires j < |sep| && sep[j] !in a && sep[j] !in sep[..j]
    ensures Split(a + sep + b, sep) == [a] + Split(b, sep)
  {
    var s := a + sep + b;
    assert s[|a|..|a| + |sep|] == sep;
    forall k | 0 <= k < |a|
      ensures !OccursAt(s, sep, k)
    {
      if k + |sep| <= |s| {
        if k + j < |a| {
          assert s[k..k + |sep|][j] == a[k + j];
        } else {
          var i := k + j - |a|;
          assert s[k..k + |sep|][j] == sep[i];
          assert sep[..j][i] == sep[i];
        }
      }
    }
    IndexOfIsFirst(s, sep, |a|);
    assert s[..|a|] == a;
    assert s[|a| + |sep|..] == b;
  }

  /** Strings with a common prefix have the same slices inside it. */
  lemma CommonPrefixSlice(s: string, t: string, n: nat, j: nat, len: nat)
    requires n <= |s| && n <= |t| && t[..n] == s[..n] && j + len <= n
    ensures t[j..j + len] == s[j..j + len]
  {
    assert t[j..j + len] == t[..n][j..j + len];
    assert s[j..j + len] == s[..n][j..j + len];
  }

  /** A string that agrees with `s` up to the end of its first match has its first match there too. */
  lemma FirstOccurrencePreserved(s: string, t: string, pat: string, k: nat)
    requires OccursAt(s, pat, k) && forall j :: 0 <= j < k ==> !OccursAt(s, pat, j)
    requires k + |pat| <= |t| && t[..k + |pat|] == s[..k + |pat|]
    ensures IndexOf(t, pat) == Some(k)
  {
    CommonPrefixSlice(s, t, k + |pat|, k, |pat|);
    NoEarlierOccurrence(s, t, pat, k);
    IndexOfIsFirst(t, pat, k);
  }

  lemma NoEarlierOccurrence(s: string, t: string, pat: string, k: nat)
    requires OccursAt(s, pat, k) && forall j :: 0 <= j < k ==> !OccursAt(s, pat, j)
    requires k + |pat| <= |t| && t[..k + |pat|] == s[..k + |pat|]
    ensures forall j :: 0 <= j < k ==> !OccursAt(t, pat, j)
  {
    forall j | 0 <= j < k
      ensures !OccursAt(t, pat, j)
    {
      assert !OccursAt(s, pat, j);
      CommonPrefixSlice(s, t, k + |pat|, j, |pat|);
    }
  }

  /** The first piece of a split never contains the separator. */
  lemma FirstPieceHasNoSeparator(x: string, sep: string)
    requires |sep| > 0
    ensures !Contains(Split(x, sep)[0], sep)
  {
    if Contains(x, sep) {
      var m := IndexOf(x, sep).value;
      var part := x[..m];
      assert Split(x, sep)[0] == part;
      forall j | 0 <= j
        ensures !OccursAt(part, sep, j)
      {
        if j + |sep| <= m {
          assert part[j..j + |sep|] == x[j..j + |sep|];
          assert !OccursAt(x, sep, j);
        }
      }
    }
  }

  /** Splitting a string free of the separator's first character yields it whole. */
  lemma SplitAbsent(s: string, sep: string)
    requires |sep| > 0 && sep[0] !in s
    ensures Split(s, sep) == [s]
  {
    forall k | 0 <= k
      ensures !OccursAt(s, sep, k)
    {
      if k + |sep| <= |s| {
        assert s[k..k + |sep|][0] == s[k];
      }
    }
  }

  /** `parts.join(sep)`. */
  function Join(parts: seq<string>, sep: string): string
    requires |parts| >= 1
  {
    if |parts| == 1 then parts[0] else parts[0] + sep + Join(parts[1..], sep)
  }

  /** Joining the pieces of a split with the separator gives back the string. */
  lemma {:induction false} SplitJoin(s: string, sep: string)
    requires |sep| > 0
    ensures Join(Split(s, sep), sep) == s
    decreases |s|
  {
    match IndexOf(s, sep)
    case None =>
    case Some(k) =>
      var rest := s[k + |sep|..];
      SplitJoin(rest, sep);
      assert Split(s, sep)[1..] == Split(rest, sep);
      assert s == s[..k] + s[k..k + |sep|] + rest;
  }

  /** `s.replace(new RegExp(pat, 'g'), rep)` for a literal pattern: leftmost, non-overlapping. */
  function ReplaceAll(s: string, pat: string, rep: string): string
    requires |pat| > 0
    decreases |s|
  {
    if |s| < |pat| then s
    else if s[..|pat|] == pat then rep + ReplaceAll(s[|pat|..], pat, rep)
    else [s[0]] + ReplaceAll(s[1..], pat, rep)
  }

  /** Where no match starts at the front, the first character is copied. */
  lemma ReplaceAllSkip(s: string, pat: string, rep: string)
    requires |pat| > 0 && |s| > 0 && !OccursAt(s, pat, 0)
    ensures ReplaceAll(s, pat, rep) == [s[0]] + ReplaceAll(s[1..], pat, rep)
  {
    if |s| < |pat| {
      assert ReplaceAll(s[1..], pat, rep) == s[1..];
      assert s == [s[0]] + s[1..];
    }
  }

  /** A character that differs from the pattern's rules out a match at the front. */
  lemma NoMatchAtFront(s: string, pat: string, i: nat)
    requires i < |s| && i < |pat| && s[i] != pat[i]
    ensures !OccursAt(s, pat, 0)
  {
    if |pat| <= |s| {
      assert s[0..|pat|][i] == s[i];
    }
  }

  /** A match at the front is replaced. */
  lemma ReplaceAllFront(pat: string, t: string, rep: string)
    requires |pat| > 0
    ensures ReplaceAll(pat + t, pat, rep) == rep + ReplaceAll(t, pat, rep)
  {
    assert (pat + t)[..|pat|] == pat;
    assert (pat + t)[|pat|..] == t;
  }

  /** A string without the pattern's first character is left alone. */
  lemma {:induction false} ReplaceAllAbsent(s: string, pat: string, rep: string)
    requires |pat| > 0 && pat[0] !in s
    ensures ReplaceAll(s, pat, rep) == s
    decreases |s|
  {
    if |s| > 0 {
      ReplaceAllSkip(s, pat, rep);
      ReplaceAllAbsent(s[1..], pat, rep);
      assert s == [s[0]] + s[1..];
    }
  }

  /** `s.replace(/[class]/g, ...)`: every character replaced by its image under `f`. */
  function MapChars(s: string, f: char -> string): string {
    if s == [] then [] else f(s[0]) + MapChars(s[1..], f)
  }

  /** `MapChars` distributes over concatenation. */
  lemma {:induction false} MapCharsAppend(a: string, b: string, f: char -> string)
    ensures MapChars(a + b, f) == MapChars(a, f) + MapChars(b, f)
  {
    if a == [] {
      assert a + b == b;
    } else {
      assert (a + b)[0] == a[0] && (a + b)[1..] == a[1..] + b;
      MapCharsAppend(a[1..], b, f);
    }
  }

  /** A substitution that fixes every character of `s` leaves `s` alone. */
  lemma {:induction false} MapCharsIdentity(s: string, f: char -> string)
    requires forall c :: c in s ==> f(c) == [c]
    ensures MapChars(s, f) == s
  {
    if s != [] {
      MapCharsIdentity(s[1..], f);
      assert s == [s[0]] + s[1..];
    }
  }

  /** Every character of `MapChars(s, f)` comes from the image of one character of `s`. */
  lemma {:induction false} MapCharsInto(s: string, f: char -> string, P: char -> bool)
    requires forall c :: c in s ==> forall d :: d in f(c) ==> P(d)
    ensures forall d :: d in MapChars(s, f) ==> P(d)
  {
    if s != [] {
      MapCharsInto(s[1..], f, P);
    }
  }

  /** `s.replaceAll(c, '')` for one character. */
  function Remove(s: string, c: char): (r: string)
    ensures c !in r
    ensures forall d :: d != c ==> (d in r <==> d in s)
  {
    if s == [] then [] else (if s[0] == c then [] else [s[0]]) + Remove(s[1..], c)
  }
}

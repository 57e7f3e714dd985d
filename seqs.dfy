/**
 * Sequence helpers the legends and the person share: Prototype's
 * `Array#without`, duplicate-freedom and occurrence counts.
 */
module Seqs {
  /** Concatenation is associative; stated once for the call logs that grow by appending. */
  lemma ConcatAssoc<T>(a: seq<T>, b: seq<T>, c: seq<T>)
    ensures a + b + c == a + (b + c)
  {
  }

  /** `s.without(x)`: every occurrence of `x` removed, order kept. */
  function Without(s: seq<string>, x: string): (r: seq<string>)
    ensures x !in r
    ensures forall y :: y != x ==> (y in r <==> y in s)
    ensures |r| <= |s|
    ensures x in s ==> |r| < |s|
  {
    if s == [] then []
    else (if s[0] == x then [] else [s[0]]) + Without(s[1..], x)
  }

  predicate NoDup(s: seq<string>) {
    forall i, j :: 0 <= i < j < |s| ==> s[i] != s[j]
  }

  /** Number of occurrences of `x` in `s`. */
  function Count(s: seq<string>, x: string): nat {
    if s == [] then 0 else (if s[0] == x then 1 else 0) + Count(s[1..], x)
  }

  lemma {:induction false} CountAppend(s: seq<string>, t: seq<string>, x: string)
    ensures Count(s + t, x) == Count(s, x) + Count(t, x)
  {
    if s == [] {
      assert s + t == t;
    } else {
      assert (s + t)[0] == s[0] && (s + t)[1..] == s[1..] + t;
      CountAppend(s[1..], t, x);
    }
  }

  lemma {:induction false} CountAbsent(s: seq<string>, x: string)
    ensures x !in s <==> Count(s, x) == 0
  {
    if s != [] {
      CountAbsent(s[1..], x);
      assert s == [s[0]] + s[1..];
    }
  }

  /** In a duplicate-free sequence every element occurs once. */
  lemma {:induction false} CountNoDup(s: seq<string>, x: string)
    requires NoDup(s)
    ensures Count(s, x) == if x in s then 1 else 0
  {
    if s != [] {
      TailNoDup(s);
      CountNoDup(s[1..], x);
      assert s == [s[0]] + s[1..];
      if s[0] == x {
        assert x !in s[1..] by {
          forall k | 0 <= k < |s[1..]|
            ensures s[1..][k] != x
          {
            assert s[1..][k] == s[k + 1];
          }
        }
      }
    }
  }

  /** Removing `x` drops every occurrence of it and nothing else. */
  lemma {:induction false} CountWithout(s: seq<string>, x: string, y: string)
    ensures Count(Without(s, x), y) == if y == x then 0 else Count(s, y)
  {
    if s != [] {
      CountWithout(s[1..], x, y);
      CountAppend(if s[0] == x then [] else [s[0]], Without(s[1..], x), y);
    }
  }

  lemma {:induction false} WithoutNoDup(s: seq<string>, x: string)
    requires NoDup(s)
    ensures NoDup(Without(s, x))
  {
    if s != [] {
      TailNoDup(s);
      WithoutNoDup(s[1..], x);
      var r := Without(s[1..], x);
      if s[0] != x {
        assert s[0] !in s[1..] by {
          forall k | 0 <= k < |s[1..]|
            ensures s[1..][k] != s[0]
          {
            assert s[1..][k] == s[k + 1];
          }
        }
        assert s[0] !in r;
      }
    }
  }

  lemma TailNoDup(s: seq<string>)
    requires NoDup(s) && s != []
    ensures NoDup(s[1..])
  {
    forall i, j | 0 <= i < j < |s[1..]|
      ensures s[1..][i] != s[1..][j]
    {
      assert s[1..][i] == s[i + 1] && s[1..][j] == s[j + 1];
    }
  }

  /** Appending an absent element keeps a sequence duplicate-free. */
  lemma AppendNoDup(s: seq<string>, x: string)
    requires NoDup(s) && x !in s
    ensures NoDup(s + [x])
  {
  }

  /** A sequence without `x` is unchanged by `without(x)`. */
  lemma {:induction false} WithoutAbsent(s: seq<string>, x: string)
    requires x !in s
    ensures Without(s, x) == s
  {
    if s != [] {
      WithoutAbsent(s[1..], x);
      assert s == [s[0]] + s[1..];
    }
  }

  /** `without` distributes over concatenation. */
  lemma {:induction false} WithoutAppend(s: seq<string>, t: seq<string>, x: string)
    ensures Without(s + t, x) == Without(s, x) + Without(t, x)
  {
    if s == [] {
      assert s + t == t;
    } else {
      assert (s + t)[0] == s[0] && (s + t)[1..] == s[1..] + t;
      WithoutAppend(s[1..], t, x);
      var h := if s[0] == x then [] else [s[0]];
      assert Without(s + t, x) == h + Without(s[1..] + t, x);
      assert Without(s, x) == h + Without(s[1..], x);
      assert h + (Without(s[1..], x) + Without(t, x)) == (h + Without(s[1..], x)) + Without(t, x);
    }
  }

  /** In a duplicate-free sequence the last element does not occur before the end. */
  lemma LastNotEarlier(s: seq<string>)
    requires NoDup(s) && s != []
    ensures s[|s| - 1] !in s[..|s| - 1]
  {
    var init := s[..|s| - 1];
    forall k | 0 <= k < |init|
      ensures init[k] != s[|s| - 1]
    {
      assert init[k] == s[k];
    }
  }

  /** Removing the last element of a duplicate-free sequence drops it from the end. */
  lemma WithoutLast(s: seq<string>)
    requires NoDup(s) && s != []
    ensures Without(s, s[|s| - 1]) == s[..|s| - 1]
  {
    var x := s[|s| - 1];
    var init := s[..|s| - 1];
    assert s == init + [x];
    WithoutAppend(init, [x], x);
    assert Without([x], x) == [];
    LastNotEarlier(s);
    WithoutAbsent(init, x);
  }

  /** The distinct elements of `s` in order of first occurrence. */
  function Dedup(s: seq<string>): (r: seq<string>)
    ensures NoDup(r)
    ensures forall x :: x in r <==> x in s
  {
    if s == [] then []
    else
      var d := Dedup(s[..|s| - 1]);
      assert s == s[..|s| - 1] + [s[|s| - 1]];
      if s[|s| - 1] in d then d else d + [s[|s| - 1]]
  }

  /** Extending `s` by one element extends its distinct elements by it unless already there. */
  lemma DedupSnoc(s: seq<string>, x: string)
    ensures Dedup(s + [x]) == if x in s then Dedup(s) else Dedup(s) + [x]
  {
    assert (s + [x])[..|s|] == s;
  }

  /** A duplicate-free sequence is its own set of distinct elements. */
  lemma {:induction false} DedupNoDup(s: seq<string>)
    requires NoDup(s)
    ensures Dedup(s) == s
  {
    if s != [] {
      var init := s[..|s| - 1];
      assert NoDup(init);
      DedupNoDup(init);
      assert s == init + [s[|s| - 1]];
      assert s[|s| - 1] !in init by {
        forall k | 0 <= k < |init|
          ensures init[k] != s[|s| - 1]
        {
          assert init[k] == s[k];
        }
      }
    }
  }
}

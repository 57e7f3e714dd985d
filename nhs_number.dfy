/**
 * NHS numbers as a person's external identifier: ten digits, stored
 * without spaces and shown in groups of three, three and four. The check
 * `isNHSNumber` is modelled as written and, for the rest of the model,
 * corrected so that a group of zeros is accepted.
 */
module NHSNumbers {
  import opened Wrappers
  import opened JsText
  import opened JsValues

  /** `Number.isInteger(Number(p)) && Number(p) > 0`. */
  predicate PositiveIntegerText(p: string) {
    var n := ToNumber(p);
    n.Some? && n.value > 0
  }

  /** `Number.isInteger(Number(s))`. */
  predicate IntegerText(s: string) {
    ToNumber(s).Some?
  }

  /** A group of the spaced form as the corrected check reads it: a non-empty string of digits. */
  predicate DigitGroup(p: string) {
    p != "" && IntegerText(p)
  }

  /** Three groups of lengths 3, 3 and 4. */
  predicate GroupShape(parts: seq<string>) {
    |parts| == 3 && |parts[0]| == 3 && |parts[1]| == 3 && |parts[2]| == 4
  }

  /** `isNHSNumber(s)` as written: every group of a spaced number must be a positive integer. */
  predicate IsNHSNumberAsWritten(s: string) {
    if ' ' in s then
      var parts := Split(s, " ");
      (forall i :: 0 <= i < |parts| ==> PositiveIntegerText(parts[i])) && GroupShape(parts)
    else
      IntegerText(s) && |s| == 10
  }

  /** `isNHSNumber(s)` corrected: every group of a spaced number must be a string of digits. */
  predicate IsNHSNumber(s: string) {
    if ' ' in s then
      var parts := Split(s, " ");
      (forall i :: 0 <= i < |parts| ==> DigitGroup(parts[i])) && GroupShape(parts)
    else
      IntegerText(s) && |s| == 10
  }

  /** The stored form: ten digits. */
  predicate Compact(s: string) {
    |s| == 10 && AllDigits(s)
  }

  /** The displayed form: `ddd ddd dddd`. */
  predicate SpacedForm(s: string) {
    |s| == 12 && s[3] == ' ' && s[7] == ' '
    && AllDigits(s[..3]) && AllDigits(s[4..7]) && AllDigits(s[8..])
  }

  /** `s.replaceAll(' ', '')`. */
  function StripSpaces(s: string): string {
    Remove(s, ' ')
  }

  /** The display of `getExternalID()`: substrings 0-3, 3-6 and 6-10 separated by spaces. */
  function Spaced(s: string): (r: string)
    requires |s| == 10
  {
    s[0..3] + " " + s[3..6] + " " + s[6..10]
  }

  /** Digit-only strings have no spaces inside. */
  lemma DigitsHaveNoSpaces(p: string)
    requires AllDigits(p)
    ensures ' ' !in p
  {
    forall i | 0 <= i < |p|
      ensures p[i] != ' '
    {
      assert IsDigit(p[i]);
    }
  }

  /** Three space-free groups joined by single spaces split back into those groups. */
  lemma SplitThreeGroups(a: string, b: string, c: string)
    requires ' ' !in a && ' ' !in b && ' ' !in c
    ensures Split(a + " " + b + " " + c, " ") == [a, b, c]
  {
    SplitAfter(a, " ", b + " " + c, 0);
    assert a + " " + b + " " + c == a + " " + (b + " " + c);
    SplitAfter(b, " ", c, 0);
    SplitAbsent(c, " ");
  }

  /** The displayed form splits into its three digit groups. */
  lemma SplitSpacedForm(s: string)
    requires SpacedForm(s)
    ensures Split(s, " ") == [s[..3], s[4..7], s[8..]]
  {
    var a, b, c := s[..3], s[4..7], s[8..];
    DigitsHaveNoSpaces(a);
    DigitsHaveNoSpaces(b);
    DigitsHaveNoSpaces(c);
    assert s == a + " " + b + " " + c;
    SplitThreeGroups(a, b, c);
  }

  /** Three groups of lengths 3, 3 and 4 joined by spaces sit at fixed positions. */
  lemma JoinThreeGroups(s: string, parts: seq<string>)
    requires GroupShape(parts) && s == Join(parts, " ")
    ensures |s| == 12 && s[3] == ' ' && s[7] == ' '
    ensures s[..3] == parts[0] && s[4..7] == parts[1] && s[8..] == parts[2]
  {
    JoinThree(parts[0], parts[1], parts[2]);
    assert parts == [parts[0], parts[1], parts[2]];
    GroupSlices(parts[0], parts[1], parts[2]);
  }

  lemma JoinThree(a: string, b: string, c: string)
    ensures Join([a, b, c], " ") == a + " " + b + " " + c
  {
    assert [a, b, c][1..] == [b, c];
    assert [b, c][1..] == [c];
    assert Join([b, c], " ") == b + " " + c;
    assert a + " " + (b + " " + c) == a + " " + b + " " + c;
  }

  lemma GroupSlices(a: string, b: string, c: string)
    requires |a| == 3 && |b| == 3 && |c| == 4
    ensures var s := a + " " + b + " " + c;
      |s| == 12 && s[3] == ' ' && s[7] == ' ' && s[..3] == a && s[4..7] == b && s[8..] == c
  {
  }

  /** The corrected check accepts exactly the stored and the displayed forms. */
  lemma IsNHSNumberExactly(s: string)
    ensures IsNHSNumber(s) <==> Compact(s) || SpacedForm(s)
  {
    if Compact(s) {
      DigitsHaveNoSpaces(s);
    }
    if ' ' in s {
      var parts := Split(s, " ");
      if IsNHSNumber(s) {
        SplitJoin(s, " ");
        JoinThreeGroups(s, parts);
        assert DigitGroup(parts[0]) && DigitGroup(parts[1]) && DigitGroup(parts[2]);
        assert SpacedForm(s);
      }
      if SpacedForm(s) {
        SplitSpacedForm(s);
        assert DigitGroup(parts[0]) && DigitGroup(parts[1]) && DigitGroup(parts[2]);
        assert forall i :: 0 <= i < |parts| ==> DigitGroup(parts[i]);
      }
    }
  }

  /** As written, the displayed form is accepted only when no group is all zeros. */
  lemma IsNHSNumberAsWrittenExactly(s: string)
    ensures IsNHSNumberAsWritten(s) <==>
      Compact(s)
      || (SpacedForm(s) && DecimalValue(s[..3]) > 0 && DecimalValue(s[4..7]) > 0 && DecimalValue(s[8..]) > 0)
  {
    if Compact(s) {
      DigitsHaveNoSpaces(s);
    }
    if ' ' in s {
      var parts := Split(s, " ");
      if IsNHSNumberAsWritten(s) {
        SplitJoin(s, " ");
        JoinThreeGroups(s, parts);
        assert PositiveIntegerText(parts[0]) && PositiveIntegerText(parts[1]) && PositiveIntegerText(parts[2]);
        assert SpacedForm(s);
      }
      if SpacedForm(s) && DecimalValue(s[..3]) > 0 && DecimalValue(s[4..7]) > 0 && DecimalValue(s[8..]) > 0 {
        SplitSpacedForm(s);
        assert PositiveIntegerText(parts[0]) && PositiveIntegerText(parts[1]) && PositiveIntegerText(parts[2]);
        assert forall i :: 0 <= i < |parts| ==> PositiveIntegerText(parts[i]);
      }
    }
  }

  /** Whatever the test as written accepts, the corrected test accepts too. */
  lemma AsWrittenAccepted(s: string)
    ensures IsNHSNumberAsWritten(s) ==> IsNHSNumber(s)
  {
  }

  lemma {:induction false} RemoveAppend(a: string, b: string, c: char)
    ensures Remove(a + b, c) == Remove(a, c) + Remove(b, c)
  {
    if a == [] {
      assert a + b == b;
    } else {
      assert (a + b)[0] == a[0] && (a + b)[1..] == a[1..] + b;
      RemoveAppend(a[1..], b, c);
    }
  }

  lemma {:induction false} RemoveAbsent(s: string, c: char)
    requires c !in s
    ensures Remove(s, c) == s
  {
    if s != [] {
      RemoveAbsent(s[1..], c);
      assert s == [s[0]] + s[1..];
    }
  }

  /** Removing the spaces between three space-free groups concatenates them. */
  lemma StripThreeGroups(a: string, b: string, c: string)
    requires ' ' !in a && ' ' !in b && ' ' !in c
    ensures StripSpaces(a + " " + b + " " + c) == a + b + c
  {
    var x3 := " " + c;
    var x2 := b + x3;
    var x1 := " " + x2;
    assert a + " " + b + " " + c == a + x1;
    assert Remove(" ", ' ') == "";
    RemoveAbsent(a, ' ');
    RemoveAbsent(b, ' ');
    RemoveAbsent(c, ' ');
    RemoveAppend(" ", c, ' ');
    assert Remove(x3, ' ') == c;
    RemoveAppend(b, x3, ' ');
    assert Remove(x2, ' ') == b + c;
    RemoveAppend(" ", x2, ' ');
    assert Remove(x1, ' ') == b + c;
    RemoveAppend(a, x1, ' ');
    assert a + (b + c) == a + b + c;
  }

  /** Removing the spaces of an accepted number leaves its ten digits. */
  lemma StripAccepted(s: string)
    requires IsNHSNumber(s)
    ensures Compact(StripSpaces(s))
  {
    IsNHSNumberExactly(s);
    if SpacedForm(s) {
      StripSpacedForm(s);
    } else {
      DigitsHaveNoSpaces(s);
      RemoveAbsent(s, ' ');
    }
  }

  /** Removing the two spaces of the displayed form leaves its ten digits. */
  lemma StripSpacedForm(s: string)
    requires SpacedForm(s)
    ensures Compact(StripSpaces(s))
  {
    var a, b, c := s[..3], s[4..7], s[8..];
    DigitsHaveNoSpaces(a);
    DigitsHaveNoSpaces(b);
    DigitsHaveNoSpaces(c);
    assert s == a + " " + b + " " + c;
    StripThreeGroups(a, b, c);
    var r := a + b + c;
    forall i | 0 <= i < |r|
      ensures IsDigit(r[i])
    {
      if i < 3 {
        assert r[i] == a[i];
      } else if i < 6 {
        assert r[i] == b[i - 3];
      } else {
        assert r[i] == c[i - 6];
      }
    }
  }

  /** The display of a stored number is accepted by the corrected check and strips back to it. */
  lemma SpacedRoundTrip(s: string)
    requires Compact(s)
    ensures SpacedForm(Spaced(s)) && IsNHSNumber(Spaced(s))
    ensures StripSpaces(Spaced(s)) == s
  {
    var a, b, c := s[0..3], s[3..6], s[6..10];
    assert AllDigits(a) && AllDigits(b) && AllDigits(c);
    var shown := Spaced(s);
    assert shown[..3] == a && shown[4..7] == b && shown[8..] == c;
    assert SpacedForm(shown);
    IsNHSNumberExactly(shown);
    DigitsHaveNoSpaces(a);
    DigitsHaveNoSpaces(b);
    DigitsHaveNoSpaces(c);
    StripThreeGroups(a, b, c);
    assert s == a + b + c;
  }

  /**
   * As written, a stored number whose middle digits are `000` is accepted,
   * but its display is rejected although the corrected check accepts it.
   */
  lemma ZeroGroupRejected(s: string)
    requires Compact(s) && DecimalValue(s[3..6]) == 0
    ensures IsNHSNumberAsWritten(s)
    ensures !IsNHSNumberAsWritten(Spaced(s)) && IsNHSNumber(Spaced(s))
  {
    IsNHSNumberAsWrittenExactly(s);
    SpacedRoundTrip(s);
    var shown := Spaced(s);
    GroupSlices(s[0..3], s[3..6], s[6..10]);
    assert shown[4..7] == s[3..6];
    IsNHSNumberAsWrittenExactly(shown);
  }

  /** The number 401 000 1234 shows the discrepancy: stored, it is accepted; displayed, it is rejected. */
  lemma ZeroGroupRejectedAsWritten()
    ensures var s := "4010001234";
      Compact(s) && IsNHSNumberAsWritten(s) && !IsNHSNumberAsWritten(Spaced(s)) && IsNHSNumber(Spaced(s))
  {
    ZeroGroupExample();
    ZeroGroupRejected("4010001234");
  }

  /** 401 000 1234 is a stored number whose middle group is zero. */
  lemma ZeroGroupExample()
    ensures Compact("4010001234") && DecimalValue("4010001234"[3..6]) == 0
  {
    var s := "4010001234";
    assert Compact(s) by {
      assert forall i :: 0 <= i < |s| ==> IsDigit(s[i]);
    }
    assert s[3..6] == "000";
    assert "000"[..2] == "00" && "00"[..1] == "0" && "0"[..0] == "";
    assert DecimalValue("0") == 0;
    assert DecimalValue("00") == 0;
  }

  /**
   * `isNHSNumber` as the loop it is: a flag starts true and is cleared by
   * any group that is not a number and by a wrong number or length of
   * groups.
   */
  method CheckNHSNumber(s: string) returns (isValid: bool)
    ensures isValid == IsNHSNumber(s)
  {
    isValid := true;
    if ' ' in s {
      var parts := Split(s, " ");
      var i := 0;
      while i < |parts|
        invariant 0 <= i <= |parts|
        invariant isValid == (forall j :: 0 <= j < i ==> DigitGroup(parts[j]))
      {
        if !DigitGroup(parts[i]) {
          isValid := false;
        }
        i := i + 1;
      }
      if |parts| == 3 {
        if !(|parts[0]| == 3 && |parts[1]| == 3 && |parts[2]| == 4) {
          isValid := false;
        }
      } else {
        isValid := false;
      }
    } else {
      if !(IntegerText(s) && |s| == 10) {
        isValid := false;
      }
    }
  }
}

/**
  The text-entry masks of `components/formatted-inputs.tsx`: the phone mask
  `formatPhone`, and what the money and phone inputs display and report to
  their parent when the user edits them. The React state is modelled as
  values: an edit yields the new displayed text and the value handed to
  `onChange`.
*/
module FormattedInputs {
  import opened Wrappers
  import opened Strings
  import opened FormatUtils

  /** The phone groups: `+XXX XX XXX XX XX`, the last group holding what is left of twelve digits. */
  const PhoneGroups: seq<nat> := [3, 2, 3, 2]

  /** Two groups of the mask with the single space between them. */
  function Spaced(a: string, b: string): string {
    a + " " + b
  }

  /**
    `formatPhone`: keep the digits of the input and lay out at most twelve of
    them as `+XXX XX XXX XX XX`, opening each group only once a digit for it
    exists.
  */
  function FormatPhone(value: string): (r: string)
    ensures r == "" <==> Digits(value) == ""
    ensures r != "" ==> r[0] == '+'
  {
    var numbers := Digits(value);
    if |numbers| == 0 then ""
    else if |numbers| <= 3 then "+" + numbers
    else if |numbers| <= 5 then "+" + Spaced(numbers[..3], numbers[3..])
    else if |numbers| <= 8 then "+" + Spaced(numbers[..3], Spaced(numbers[3..5], numbers[5..]))
    else if |numbers| <= 10 then
      "+" + Spaced(numbers[..3], Spaced(numbers[3..5], Spaced(numbers[5..8], numbers[8..])))
    else
      "+" + Spaced(numbers[..3], Spaced(numbers[3..5], Spaced(numbers[5..8], Spaced(numbers[8..10],
        numbers[10..if |numbers| < 12 then |numbers| else 12]))))
  }

  /** The kept digits are digits, at most twelve of them. */
  lemma KeptDigits(value: string)
    ensures AllDigits(Take(Digits(value), 12))
    ensures |Take(Digits(value), 12)| <= 12
  {
    var all := Digits(value);
    var n := Take(all, 12);
    forall i | 0 <= i < |n| ensures IsDigit(n[i]) {
      assert n[i] == all[i];
    }
  }

  // The mask's groups after the first are `Chunks` at 2, 3, 2; the lemmas
  // below unfold that cut one group count at a time.

  lemma JoinGroupsTwoOpen(v: string)
    requires |v| > 2
    ensures Join(Chunks(v, [2]), ' ') == Spaced(v[..2], v[2..])
  {
    JoinChunksStep(v, [2], ' ');
    assert [2][1..] == [];
  }

  lemma JoinGroupsThreeTwoOpen(u: string)
    requires 3 < |u| <= 5
    ensures Join(Chunks(u, [3, 2]), ' ') == Spaced(u[..3], u[3..])
  {
    JoinChunksStep(u, [3, 2], ' ');
    assert [3, 2][1..] == [2];
  }

  lemma JoinGroupsThreeTwoFull(u: string)
    requires |u| > 5
    ensures Join(Chunks(u, [3, 2]), ' ') == Spaced(u[..3], Spaced(u[3..5], u[5..]))
  {
    var v := u[3..];
    JoinChunksStep(u, [3, 2], ' ');
    assert [3, 2][1..] == [2];
    JoinGroupsTwoOpen(v);
    SliceOfSuffix(u, 3, 0, 2);
  }

  lemma JoinLaterGroupsTwo(t: string)
    requires 2 < |t| <= 5
    ensures Join(Chunks(t, PhoneGroups[1..]), ' ') == Spaced(t[..2], t[2..])
  {
    assert PhoneGroups[1..] == [2, 3, 2] && [2, 3, 2][1..] == [3, 2];
    JoinChunksStep(t, [2, 3, 2], ' ');
  }

  lemma JoinLaterGroupsThree(t: string)
    requires 5 < |t| <= 7
    ensures Join(Chunks(t, PhoneGroups[1..]), ' ') == Spaced(t[..2], Spaced(t[2..5], t[5..]))
  {
    assert PhoneGroups[1..] == [2, 3, 2] && [2, 3, 2][1..] == [3, 2];
    JoinChunksStep(t, [2, 3, 2], ' ');
    var u := t[2..];
    JoinGroupsThreeTwoOpen(u);
    SliceOfSuffix(t, 2, 0, 3);
  }

  lemma JoinLaterGroupsFour(t: string)
    requires |t| > 7
    ensures Join(Chunks(t, PhoneGroups[1..]), ' ')
         == Spaced(t[..2], Spaced(t[2..5], Spaced(t[5..7], t[7..])))
  {
    var g: seq<nat> := [2, 3, 2];
    assert PhoneGroups[1..] == g && g[1..] == [3, 2] && g[0] == 2;
    var u := t[2..];
    var a := Join(Chunks(t, g), ' ');
    var b := Join(Chunks(u, [3, 2]), ' ');
    JoinChunksStep(t, g, ' ');
    assert a == Spaced(t[..2], b);
    JoinGroupsThreeTwoFull(u);
    SliceOfSuffix(t, 2, 0, 3);
    SliceOfSuffix(t, 2, 3, 5);
    assert Spaced(u[3..5], u[5..]) == Spaced(t[5..7], t[7..]);
    assert b == Spaced(t[2..5], Spaced(t[5..7], t[7..]));
  }

  /** The groups after the first of a mask with five groups. */
  lemma FormatPhoneFiveGroups(ds: string)
    requires 10 < |ds| <= 12
    ensures Spaced(ds[3..5], Spaced(ds[5..8], Spaced(ds[8..10], ds[10..])))
         == Join(Chunks(ds[3..], PhoneGroups[1..]), ' ')
  {
    var t := ds[3..];
    JoinLaterGroupsFour(t);
    SliceOfSuffix(ds, 3, 0, 2);
    SliceOfSuffix(ds, 3, 2, 5);
    SliceOfSuffix(ds, 3, 5, 7);
    SliceOfSuffix(ds, 3, 7, |t|);
  }

  /** The groups after the first of a mask with four groups. */
  lemma FormatPhoneFourGroups(ds: string)
    requires 8 < |ds| <= 10
    ensures Spaced(ds[3..5], Spaced(ds[5..8], ds[8..])) == Join(Chunks(ds[3..], PhoneGroups[1..]), ' ')
  {
    var t := ds[3..];
    JoinLaterGroupsThree(t);
    SliceOfSuffix(ds, 3, 0, 2);
    SliceOfSuffix(ds, 3, 2, 5);
    SliceOfSuffix(ds, 3, 5, |t|);
  }

  /** The groups after the first of a mask with three groups. */
  lemma FormatPhoneThreeGroups(ds: string)
    requires 5 < |ds| <= 8
    ensures Spaced(ds[3..5], ds[5..]) == Join(Chunks(ds[3..], PhoneGroups[1..]), ' ')
  {
    var t := ds[3..];
    JoinLaterGroupsTwo(t);
    SliceOfSuffix(ds, 3, 0, 2);
    SliceOfSuffix(ds, 3, 2, |t|);
  }

  /** The mask of eleven or twelve digits, in terms of the groups after the first. */
  lemma FormatPhoneFiveBand(value: string)
    requires 10 < |Digits(value)| <= 12
    ensures FormatPhone(value) == "+" + Spaced(Digits(value)[..3], Join(Chunks(Digits(value)[3..], PhoneGroups[1..]), ' '))
  {
    var ds := Digits(value);
    FormatPhoneFiveGroups(ds);
    assert ds[10..if |ds| < 12 then |ds| else 12] == ds[10..];
  }

  /** The mask of nine or ten digits, in terms of the groups after the first. */
  lemma FormatPhoneFourBand(value: string)
    requires 8 < |Digits(value)| <= 10
    ensures FormatPhone(value) == "+" + Spaced(Digits(value)[..3], Join(Chunks(Digits(value)[3..], PhoneGroups[1..]), ' '))
  {
    FormatPhoneFourGroups(Digits(value));
  }

  /** The mask of six to eight digits, in terms of the groups after the first. */
  lemma FormatPhoneThreeBand(value: string)
    requires 5 < |Digits(value)| <= 8
    ensures FormatPhone(value) == "+" + Spaced(Digits(value)[..3], Join(Chunks(Digits(value)[3..], PhoneGroups[1..]), ' '))
  {
    FormatPhoneThreeGroups(Digits(value));
  }

  /** The mask of four to twelve digits, in terms of the groups after the first. */
  lemma FormatPhoneShort(value: string)
    requires 3 < |Digits(value)| <= 12
    ensures FormatPhone(value) == "+" + Spaced(Digits(value)[..3], Join(Chunks(Digits(value)[3..], PhoneGroups[1..]), ' '))
  {
    var n := |Digits(value)|;
    if n > 10 {
      FormatPhoneFiveBand(value);
    } else if n > 8 {
      FormatPhoneFourBand(value);
    } else if n > 5 {
      FormatPhoneThreeBand(value);
    }
  }

  /** Beyond twelve digits the mask is that of the first twelve. */
  lemma FormatPhoneLong(value: string)
    requires |Digits(value)| > 12
    ensures FormatPhone(value) == FormatPhone(Digits(value)[..12])
  {
    var ds := Digits(value);
    var n := ds[..12];
    assert AllDigits(n) by {
      forall i | 0 <= i < |n| ensures IsDigit(n[i]) { assert n[i] == ds[i]; }
    }
    assert Digits(n) == n;
    SliceOfPrefix(ds, 12, 0, 3);
    SliceOfPrefix(ds, 12, 3, 5);
    SliceOfPrefix(ds, 12, 5, 8);
    SliceOfPrefix(ds, 12, 8, 10);
    SliceOfPrefix(ds, 12, 10, 12);
  }

  /**
    The mask is `+` followed by the kept digits cut into groups of 3, 2, 3, 2
    and the rest, joined by single spaces.
  */
  lemma FormatPhoneChunks(value: string)
    requires Digits(value) != ""
    ensures FormatPhone(value) == "+" + Join(Chunks(Take(Digits(value), 12), PhoneGroups), ' ')
  {
    var ds := Digits(value);
    var n := Take(ds, 12);
    if |ds| > 12 {
      FormatPhoneLong(value);
      assert Digits(n) == n by {
        forall i | 0 <= i < |n| ensures IsDigit(n[i]) { assert n[i] == ds[i]; }
      }
      FormatPhoneShort(n);
      JoinChunksStep(n, PhoneGroups, ' ');
    } else if |ds| > 3 {
      FormatPhoneShort(value);
      JoinChunksStep(n, PhoneGroups, ' ');
    }
  }

  /**
    With `+` and the spaces dropped, the mask is exactly the first twelve
    digits of the input (all of them when there are fewer): digits beyond the
    twelfth are lost.
  */
  lemma FormatPhoneDigits(value: string)
    ensures Digits(FormatPhone(value)) == Take(Digits(value), 12)
  {
    if Digits(value) != "" {
      var n := Take(Digits(value), 12);
      var parts := Chunks(n, PhoneGroups);
      KeptDigits(value);
      FormatPhoneChunks(value);
      ChunksShape(n, PhoneGroups);
      ChunksOfDigits(n, PhoneGroups);
      DigitsOfJoin(parts, ' ');
      var plus: string := "+";
      assert Digits(plus) == [] + Digits([]);
      DigitsAppend(plus, Join(parts, ' '));
    }
  }

  /**
    The phone groups of at most twelve digits: sizes 3, 2, 3, 2 in turn,
    except that the last group may be shorter but not empty; a fifth group
    holds one or two digits; together the groups are the digits.
  */
  lemma PhoneGroupSizes(n: string)
    requires 0 < |n| <= 12
    ensures var groups := Chunks(n, PhoneGroups);
      && 1 <= |groups| <= 5
      && (forall i :: 0 <= i < |groups| - 1 ==> |groups[i]| == PhoneGroups[i])
      && (|groups| < 5 ==> 0 < |groups[|groups| - 1]| <= PhoneGroups[|groups| - 1])
      && (|groups| == 5 ==> 0 < |groups[4]| <= 2)
      && Concat(groups) == n
  {
    var parts := Chunks(n, PhoneGroups);
    assert |PhoneGroups| == 4 && PhoneGroups[0] == 3 && PhoneGroups[1] == 2 && PhoneGroups[2] == 3 && PhoneGroups[3] == 2;
    ChunksShape(n, PhoneGroups);
    if |parts| == 1 {
      assert Concat(parts) == parts[0] + Concat([]);
    }
    if |parts| == 5 {
      FullGroupsLength(parts);
    }
  }

  /** Four full groups of the phone mask hold ten digits, so a fifth one gets what is left of twelve. */
  lemma FullGroupsLength(parts: seq<string>)
    requires |parts| == 5
    requires forall i :: 0 <= i < 4 ==> |parts[i]| == PhoneGroups[i]
    ensures |Concat(parts)| == 10 + |parts[4]|
  {
    assert |parts[0]| == 3 && |parts[1]| == 2 && |parts[2]| == 3 && |parts[3]| == 2;
    ConcatAppend(parts[..4], parts[4..]);
    assert parts == parts[..4] + parts[4..];
    assert |Concat(parts[3..4])| == 2 by {
      assert parts[3..4][0] == parts[3] && parts[3..4][1..] == [];
    }
    assert |Concat(parts[2..4])| == 5 by {
      assert parts[2..4][0] == parts[2] && parts[2..4][1..] == parts[3..4];
    }
    assert |Concat(parts[1..4])| == 7 by {
      assert parts[1..4][0] == parts[1] && parts[1..4][1..] == parts[2..4];
    }
    assert |Concat(parts[..4])| == 10 by {
      assert parts[..4][0] == parts[0] && parts[..4][1..] == parts[1..4];
    }
    assert parts[4..] == [parts[4]];
  }

  /**
    Splitting the mask after its `+` at the spaces gives back exactly the
    digit groups it was joined from.
  */
  lemma FormatPhoneGroups(value: string)
    requires Digits(value) != ""
    ensures var groups := Split(FormatPhone(value)[1..], ' ');
      && groups == Chunks(Take(Digits(value), 12), PhoneGroups)
      && (forall i :: 0 <= i < |groups| ==> AllDigits(groups[i]))
  {
    var n := Take(Digits(value), 12);
    var parts := Chunks(n, PhoneGroups);
    KeptDigits(value);
    FormatPhoneChunks(value);
    ChunksOfDigits(n, PhoneGroups);
    forall i | 0 <= i < |parts| ensures ' ' !in parts[i] {
      NoOtherInDigits(parts[i], ' ');
    }
    SplitJoin(parts, ' ');
    assert FormatPhone(value)[1..] == Join(parts, ' ');
  }

  /** Masking an already masked number changes nothing. */
  lemma FormatPhoneIdempotent(value: string)
    ensures FormatPhone(FormatPhone(value)) == FormatPhone(value)
  {
    var r := FormatPhone(value);
    FormatPhoneDigits(value);
    if Digits(value) != "" {
      FormatPhoneChunks(value);
      FormatPhoneChunks(r);
      assert Take(Digits(r), 12) == Take(Digits(value), 12);
    }
  }

  /** The mask only looks at the digits of its input. */
  lemma FormatPhoneOfDigits(value: string)
    ensures FormatPhone(Digits(value)) == FormatPhone(value)
  {
    DigitsIdempotent(value);
  }

  // ---------------------------------------------------------------------------
  // What the inputs show and report on an edit
  // ---------------------------------------------------------------------------

  /** The outcome of a money edit: the text now shown, and the value handed to `onChange`. */
  datatype MoneyEdit = MoneyEdit(display: string, emitted: string)

  /**
    `MoneyInput`'s effect on a new `value` prop: show it with thousands
    grouping. The text shown, without its spaces, is the digits of the part
    before the first `.`.
  */
  function MoneyDisplay(value: string): (r: string)
    ensures ParseInputNumber(r) == Digits(IntegerPart(value))
    ensures r == "" <==> Digits(IntegerPart(value)) == ""
  {
    FormatInputNumberDigits(value);
    FormatInputNumber(value)
  }

  /**
    `MoneyInput`'s `handleChange`: keep the digits of what was typed, report
    them, and show them grouped. The shown text gives the reported value
    back once its spaces are removed, and it is what the component's effect
    shows when the parent feeds the reported value back as `value`.
  */
  function OnMoneyChange(raw: string): (r: MoneyEdit)
    ensures r.emitted == Digits(raw)
    ensures ParseInputNumber(r.display) == r.emitted
    ensures r.display == MoneyDisplay(r.emitted)
    ensures r.display == "" <==> r.emitted == ""
  {
    var clean := Digits(raw);
    FormatInputNumberRoundTrip(clean);
    MoneyEdit(FormatInputNumber(clean), clean)
  }

  /** The outcome of a phone edit: the text now shown, and the value handed to `onChange`, if any. */
  datatype PhoneEdit = PhoneEdit(display: string, emitted: Option<string>)

  /** `PhoneInput`'s effect on a new `value` prop: the mask of a non-empty value, else nothing. */
  function PhoneDisplay(value: string): (r: string)
    ensures r == FormatPhone(value)
  {
    if value != "" then FormatPhone(value) else ""
  }

  /**
    `PhoneInput`'s `handleChange` given the text shown before the edit: an
    edit with at most twelve digits is accepted (its digits are reported
    and shown masked); a longer one is ignored, leaving the shown text as it
    was and reporting nothing. What an accepted edit shows is its reported
    digits, masked, with nothing lost, and is what the effect shows for the
    reported value.
  */
  function OnPhoneChange(shown: string, raw: string): (r: PhoneEdit)
    ensures r.emitted.Some? <==> |Digits(raw)| <= 12
    ensures r.emitted.None? ==> r.display == shown
    ensures r.emitted.Some? ==> r.emitted.value == Digits(raw)
    ensures r.emitted.Some? ==> r.display == FormatPhone(raw)
    ensures r.emitted.Some? ==> Digits(r.display) == r.emitted.value
    ensures r.emitted.Some? ==> r.display == PhoneDisplay(r.emitted.value)
  {
    var numbers := Digits(raw);
    if |numbers| <= 12 then
      FormatPhoneOfDigits(raw);
      FormatPhoneDigits(numbers);
      DigitsIdempotent(raw);
      PhoneEdit(FormatPhone(numbers), Some(numbers))
    else
      PhoneEdit(shown, None)
  }
}

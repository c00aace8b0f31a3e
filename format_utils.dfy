/**
  The string helpers of `lib/format-utils.ts` that the money and date inputs
  use: thousands grouping of a typed amount and its inverse, the two date
  rearrangements between `YYYY-MM-DD` and `DD.MM.YYYY`, and the live-typing
  date mask. All of them are total functions on strings.
*/
module FormatUtils {
  import opened Strings

  // ---------------------------------------------------------------------------
  // Money input: formatInputNumber / parseInputNumber
  // ---------------------------------------------------------------------------

  /**
    The part of `value` before its first `.` (`value.split('.')[0]` when
    `value` has a dot, `value` itself otherwise).
  */
  function IntegerPart(value: string): (r: string)
    ensures r <= value
    ensures '.' !in r
    ensures r == value || value[|r|] == '.'
  {
    if '.' in value then
      var parts := Split(value, '.');
      assert |parts| > 1 ==> Join(parts, '.') == parts[0] + ['.'] + Join(parts[1..], '.');
      parts[0]
    else value
  }

  /**
    `d.replace(/\B(?=(\d{3})+(?!\d))/g, " ")` on a string of digits: a space
    goes between two characters exactly when the number of characters after
    the space is a positive multiple of three.
  */
  function GroupThousands(d: string): string
  {
    if |d| <= 1 then d
    else [d[0]] + (if (|d| - 1) % 3 == 0 then " " else "") + GroupThousands(d[1..])
  }

  /**
    `formatInputNumber`: the empty input stays empty; otherwise everything from
    the first `.` on is dropped, then every non-digit, and the digits are
    grouped in threes from the right.
  */
  function FormatInputNumber(value: string): (r: string)
    ensures value == "" ==> r == ""
  {
    if value == "" then "" else GroupThousands(Digits(IntegerPart(value)))
  }

  /** `parseInputNumber`: every whitespace character removed. */
  function ParseInputNumber(value: string): (r: string)
    ensures forall i :: 0 <= i < |r| ==> !IsWhitespace(r[i])
    ensures |r| <= |value|
    ensures (forall i :: 0 <= i < |value| ==> !IsWhitespace(value[i])) ==> r == value
    ensures (forall i :: 0 <= i < |value| ==> IsWhitespace(value[i])) ==> r == []
  {
    RemoveWhitespace(value)
  }

  /** Grouping a string of at most three digits leaves it as it is. */
  lemma {:induction false} GroupThousandsShort(d: string)
    requires |d| <= 3
    ensures GroupThousands(d) == d
  {
    if |d| > 1 {
      GroupThousandsShort(d[1..]);
      assert d == [d[0]] + d[1..];
    }
  }

  /** Grouping a string with a first character: that character, then a space when a multiple of three follows. */
  lemma GroupThousandsCons(c: char, t: string)
    requires t != []
    ensures GroupThousands([c] + t) == [c] + (if |t| % 3 == 0 then " " else "") + GroupThousands(t)
  {
    var s := [c] + t;
    assert s[0] == c && s[1..] == t;
  }

  /** Adding a multiple of three does not change the remainder by three. */
  lemma AddMultipleOfThree(a: nat, b: nat)
    requires b % 3 == 0
    ensures (a + b) % 3 == a % 3
  {
    var k := b / 3;
    assert b == 3 * k;
  }

  /** Grouping `x + y` where `y` holds a positive multiple of three characters. */
  lemma {:induction false} GroupThousandsAppend(x: string, y: string)
    requires x != [] && y != [] && |y| % 3 == 0
    ensures GroupThousands(x + y) == GroupThousands(x) + " " + GroupThousands(y)
  {
    var t := x[1..];
    assert x == [x[0]] + t;
    assert x + y == [x[0]] + (t + y);
    GroupThousandsCons(x[0], t + y);
    if t == [] {
      assert t + y == y;
    } else {
      GroupThousandsCons(x[0], t);
      GroupThousandsAppend(t, y);
      AddMultipleOfThree(|t|, |y|);
    }
  }

  /** Grouping only inserts whitespace: removing it gives the digits back. */
  lemma {:induction false} GroupThousandsUngroups(d: string)
    requires AllDigits(d)
    ensures RemoveWhitespace(GroupThousands(d)) == d
  {
    if |d| > 1 {
      var sp: string := if (|d| - 1) % 3 == 0 then " " else "";
      GroupThousandsUngroups(d[1..]);
      RemoveWhitespaceAppend([d[0]] + sp, GroupThousands(d[1..]));
      RemoveWhitespaceAppend([d[0]], sp);
      assert RemoveWhitespace([d[0]]) == [d[0]];
      assert d == [d[0]] + d[1..];
    } else if |d| == 1 {
      assert RemoveWhitespace(d) == [d[0]] + RemoveWhitespace(d[1..]);
    }
  }

  /**
    The shape of grouped digits: split at the spaces, the first group has one
    to three digits and every later group exactly three, and the groups
    concatenate back to the digits.
  */
  lemma {:induction false} GroupThousandsShape(d: string)
    requires d != [] && AllDigits(d)
    ensures var groups := Split(GroupThousands(d), ' ');
      && 1 <= |groups[0]| <= 3
      && (forall i :: 1 <= i < |groups| ==> |groups[i]| == 3)
      && (forall i :: 0 <= i < |groups| ==> AllDigits(groups[i]))
      && Concat(groups) == d
    decreases |d|
  {
    if |d| <= 3 {
      GroupThousandsShort(d);
      NoOtherInDigits(d, ' ');
      SplitPlain(d, ' ');
      assert Concat([d]) == d + Concat([]);
    } else {
      var x, y := d[..|d| - 3], d[|d| - 3..];
      assert d == x + y;
      assert AllDigits(x) by { forall i | 0 <= i < |x| ensures IsDigit(x[i]) { assert x[i] == d[i]; } }
      assert AllDigits(y) by { forall i | 0 <= i < |y| ensures IsDigit(y[i]) { assert y[i] == d[|d| - 3 + i]; } }
      GroupThousandsSplitLast(x, y);
      GroupThousandsShape(x);
      var gx := Split(GroupThousands(x), ' ');
      ConcatAppend(gx, [y]);
      assert Concat([y]) == y + Concat([]);
    }
  }

  /** Splitting grouped digits at the spaces: the last three digits make a group of their own. */
  lemma GroupThousandsSplitLast(x: string, y: string)
    requires x != [] && |y| == 3 && AllDigits(y)
    ensures Split(GroupThousands(x + y), ' ') == Split(GroupThousands(x), ' ') + [y]
  {
    GroupThousandsAppend(x, y);
    GroupThousandsShort(y);
    NoOtherInDigits(y, ' ');
    SplitPlain(y, ' ');
    SplitConcat(GroupThousands(x), y, ' ');
    assert GroupThousands(x) + " " + y == GroupThousands(x) + [' '] + y;
  }

  /** Round trip: for a string of digits, parsing the formatted value gives it back. */
  lemma FormatInputNumberRoundTrip(x: string)
    requires AllDigits(x)
    ensures ParseInputNumber(FormatInputNumber(x)) == x
  {
    if x != "" {
      NoOtherInDigits(x, '.');
      GroupThousandsUngroups(x);
    }
  }

  /**
    What `formatInputNumber` keeps of its input: removing the spaces from the
    result gives exactly the digits before the first `.`, and the result is
    empty exactly when there are none.
  */
  lemma FormatInputNumberDigits(value: string)
    ensures ParseInputNumber(FormatInputNumber(value)) == Digits(IntegerPart(value))
    ensures FormatInputNumber(value) == "" <==> Digits(IntegerPart(value)) == ""
  {
    if value != "" {
      var d := Digits(IntegerPart(value));
      GroupThousandsUngroups(d);
      if d != "" {
        assert |GroupThousands(d)| >= |RemoveWhitespace(GroupThousands(d))|;
      }
    }
  }

  /** Everything from the first `.` on is ignored. */
  lemma FormatInputNumberIgnoresFraction(a: string, b: string)
    requires '.' !in a
    ensures FormatInputNumber(a + "." + b) == FormatInputNumber(a)
  {
    var s := a + "." + b;
    assert s == a + ['.'] + b;
    assert s[|a|] == '.';
    SplitConcat(a, b, '.');
    SplitPlain(a, '.');
    assert IntegerPart(s) == a;
    if a == "" {
      assert Digits(a) == "";
    } else {
      assert IntegerPart(a) == a;
    }
  }

  /**
    The shape of every non-empty result: digits in groups separated by single
    spaces, the first group one to three digits long and every later group
    exactly three; fewer than four digits come back unchanged.
  */
  lemma FormatInputNumberShape(value: string)
    requires FormatInputNumber(value) != ""
    ensures var groups := Split(FormatInputNumber(value), ' ');
      && 1 <= |groups[0]| <= 3
      && (forall i :: 1 <= i < |groups| ==> |groups[i]| == 3)
      && (forall i :: 0 <= i < |groups| ==> AllDigits(groups[i]))
      && Concat(groups) == Digits(IntegerPart(value))
    ensures |Digits(IntegerPart(value))| <= 3 ==> FormatInputNumber(value) == Digits(IntegerPart(value))
  {
    var d := Digits(IntegerPart(value));
    assert d != "";
    GroupThousandsShape(d);
    if |d| <= 3 {
      GroupThousandsShort(d);
    }
  }

  // ---------------------------------------------------------------------------
  // Dates: ymdToDmy / dmyToYmd
  // ---------------------------------------------------------------------------

  /**
    `ymdToDmy`: `y-m-d` becomes `d.m.y`, the three parts copied as they are
    and any parts after the third ignored; when one of the first three
    `-`-separated parts is missing or empty the input comes back unchanged.
  */
  function YmdToDmy(date: string): (r: string)
    ensures date == "" ==> r == ""
  {
    if date == "" then ""
    else
      var p := Split(date, '-');
      if |p| < 3 || p[0] == "" || p[1] == "" || p[2] == "" then date
      else p[2] + "." + p[1] + "." + p[0]
  }

  /**
    `dmyToYmd`: `d.m.y` becomes `y-m-d` when the input splits on `.` into
    exactly three parts; otherwise the result is empty.
  */
  function DmyToYmd(date: string): (r: string)
    ensures date == "" ==> r == ""
  {
    if date == "" then ""
    else
      var p := Split(date, '.');
      if |p| != 3 then ""
      else p[2] + "-" + p[1] + "-" + p[0]
  }

  /** `a + sep + b + sep + c` is the join of the three parts. */
  lemma JoinThree(a: string, b: string, c: string, sep: char)
    ensures Join([a, b, c], sep) == a + [sep] + b + [sep] + c
  {
    assert [a, b, c][1..] == [b, c];
    assert [b, c][1..] == [c];
    assert Join([b, c], sep) == b + [sep] + c;
    assert Join([a, b, c], sep) == a + [sep] + (b + [sep] + c);
  }

  /**
    A well-formed `y-m-d`: the `-`-join of dash-free parts of which the first
    three (year, month, day) are non-empty, possibly followed by more parts,
    becomes `d.m.y`.
  */
  lemma YmdToDmyWellFormed(parts: seq<string>)
    requires |parts| >= 3 && parts[0] != "" && parts[1] != "" && parts[2] != ""
    requires forall i :: 0 <= i < |parts| ==> '-' !in parts[i]
    ensures YmdToDmy(Join(parts, '-')) == parts[2] + "." + parts[1] + "." + parts[0]
  {
    SplitJoin(parts, '-');
    JoinShowsSeparator(parts, '-');
  }

  /**
    `ymdToDmy` changes its input exactly when the input is well formed, that
    is when its first three `-`-separated parts exist and are non-empty.
  */
  lemma YmdToDmyChangesIffWellFormed(date: string)
    ensures var p := Split(date, '-');
      YmdToDmy(date) != date <==> (|p| >= 3 && p[0] != "" && p[1] != "" && p[2] != "")
  {
    var p := Split(date, '-');
    if |p| >= 3 && p[0] != "" && p[1] != "" && p[2] != "" {
      SplitCount(date, '-');
      CountPositive(date, '-');
      var r := p[2] + "." + p[1] + "." + p[0];
      assert '-' !in r by {
        assert r == p[2] + ['.'] + p[1] + ['.'] + p[0];
      }
    }
  }

  /** Any three dot-free parts `d.m.y` become `y-m-d`, whether or not they are empty. */
  lemma DmyToYmdWellFormed(d: string, m: string, y: string)
    requires '.' !in d && '.' !in m && '.' !in y
    ensures DmyToYmd(d + "." + m + "." + y) == y + "-" + m + "-" + d
  {
    JoinThree(d, m, y, '.');
    SplitJoin([d, m, y], '.');
  }

  /** `dmyToYmd` gives a non-empty result exactly when its input holds exactly two dots. */
  lemma DmyToYmdAcceptsTwoDots(date: string)
    ensures DmyToYmd(date) != "" <==> Count(date, '.') == 2
  {
    SplitCount(date, '.');
    if date == "" {
      assert Count(date, '.') == 0;
    }
  }

  /**
    Round trip from the stored form: a `y-m-d` date with three non-empty
    parts free of `-` and `.` survives `ymdToDmy` followed by `dmyToYmd`.
  */
  lemma YmdRoundTrip(y: string, m: string, d: string)
    requires y != "" && m != "" && d != ""
    requires '-' !in y && '-' !in m && '-' !in d
    requires '.' !in y && '.' !in m && '.' !in d
    ensures DmyToYmd(YmdToDmy(y + "-" + m + "-" + d)) == y + "-" + m + "-" + d
  {
    JoinThree(y, m, d, '-');
    YmdToDmyWellFormed([y, m, d]);
    DmyToYmdWellFormed(d, m, y);
  }

  /**
    Round trip from the displayed form: a `d.m.y` date with three non-empty
    parts free of `-` and `.` survives `dmyToYmd` followed by `ymdToDmy`.
  */
  lemma DmyRoundTrip(d: string, m: string, y: string)
    requires y != "" && m != "" && d != ""
    requires '-' !in y && '-' !in m && '-' !in d
    requires '.' !in y && '.' !in m && '.' !in d
    ensures YmdToDmy(DmyToYmd(d + "." + m + "." + y)) == d + "." + m + "." + y
  {
    DmyToYmdWellFormed(d, m, y);
    JoinThree(y, m, d, '-');
    YmdToDmyWellFormed([y, m, d]);
  }

  /**
    The two fallbacks differ: on a string with no separator at all,
    `ymdToDmy` returns the input while `dmyToYmd` returns the empty string.
  */
  lemma MalformedFallbacksDiffer(date: string)
    requires date != "" && '-' !in date && '.' !in date
    ensures YmdToDmy(date) == date
    ensures DmyToYmd(date) == ""
  {
    SplitPlain(date, '-');
    SplitPlain(date, '.');
  }

  // ---------------------------------------------------------------------------
  // Date input mask: formatDateMask
  // ---------------------------------------------------------------------------

  /**
    `formatDateMask`: the first eight digits of the input, with a `.` after
    the second digit once a third exists and after the fourth once a fifth
    exists.
  */
  function FormatDateMask(value: string): (r: string)
    ensures |r| <= 10
    ensures forall i :: 0 <= i < |r| ==> (r[i] == '.' <==> i == 2 || i == 5)
    ensures forall i :: 0 <= i < |r| && i != 2 && i != 5 ==> IsDigit(r[i])
  {
    var digits := Take(Digits(value), 8);
    MaskDigits(value);
    if |digits| >= 5 then
      CharsAround(digits[..2], '.', digits[2..4]);
      CharsAround(digits[..2] + "." + digits[2..4], '.', digits[4..]);
      digits[..2] + "." + digits[2..4] + "." + digits[4..]
    else if |digits| >= 3 then
      CharsAround(digits[..2], '.', digits[2..]);
      digits[..2] + "." + digits[2..]
    else digits
  }

  /** Dropping the non-digits of two digit strings joined by a dot gives the two strings. */
  lemma DigitsAroundDot(a: string, b: string)
    requires AllDigits(a) && AllDigits(b)
    ensures Digits(a + "." + b) == a + b
  {
    DigitsSkip(a, '.', b);
  }

  /** The digits that the mask keeps: at most the first eight of the input. */
  lemma MaskDigits(value: string)
    ensures AllDigits(Take(Digits(value), 8))
    ensures |Take(Digits(value), 8)| <= 8
  {
    var all := Digits(value);
    var digits := Take(all, 8);
    forall i | 0 <= i < |digits| ensures IsDigit(digits[i]) {
      assert digits[i] == all[i];
    }
  }

  /** Dropping the non-digits of three digit strings joined by dots gives the three strings. */
  lemma DigitsAroundTwoDots(a: string, b: string, c: string)
    requires AllDigits(a) && AllDigits(b) && AllDigits(c)
    ensures Digits(a + "." + b + "." + c) == a + b + c
  {
    DigitsSkip(a + "." + b, '.', c);
    DigitsAroundDot(a, b);
  }

  /** With the dots removed, the mask is exactly the first eight (or fewer) digits of the input. */
  lemma FormatDateMaskDigits(value: string)
    ensures Digits(FormatDateMask(value)) == Take(Digits(value), 8)
  {
    var digits := Take(Digits(value), 8);
    MaskDigits(value);
    if |digits| >= 5 {
      var a, b, c := digits[..2], digits[2..4], digits[4..];
      assert AllDigits(a) && AllDigits(b) && AllDigits(c);
      DigitsAroundTwoDots(a, b, c);
      assert digits == a + b + c;
    } else if |digits| >= 3 {
      var a, b := digits[..2], digits[2..];
      assert AllDigits(a) && AllDigits(b);
      DigitsAroundDot(a, b);
      assert digits == a + b;
    }
  }

  /** The mask is the `.`-join of the kept digits cut into groups of two, two and the rest. */
  lemma FormatDateMaskChunks(value: string)
    ensures FormatDateMask(value) == Join(Chunks(Take(Digits(value), 8), [2, 2]), '.')
  {
    var digits := Take(Digits(value), 8);
    MaskDigits(value);
    assert [2, 2][1..] == [2];
    if |digits| >= 5 {
      var a, b, c := digits[..2], digits[2..4], digits[4..];
      assert digits[2..][..2] == b;
      assert digits[2..][2..] == c;
      assert Chunks(c, []) == [c];
      assert Chunks(digits[2..], [2]) == [b, c];
      assert Chunks(digits, [2, 2]) == [a, b, c];
      JoinThree(a, b, c, '.');
    } else if |digits| >= 3 {
      var a, b := digits[..2], digits[2..];
      assert Chunks(b, [2]) == [b];
      assert Chunks(digits, [2, 2]) == [a, b];
      assert [a, b][1..] == [b];
    }
  }

  /** Masking an already masked value changes nothing. */
  lemma FormatDateMaskIdempotent(value: string)
    ensures FormatDateMask(FormatDateMask(value)) == FormatDateMask(value)
  {
    FormatDateMaskDigits(value);
    var digits := Take(Digits(value), 8);
    assert Take(Digits(FormatDateMask(value)), 8) == digits;
  }
}

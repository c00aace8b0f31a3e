/** The small optional-value datatype used by the lookups of the model. */
module Wrappers {
  datatype Option<+T> = None | Some(value: T)
}

/**
  String primitives of JavaScript that the dashboard's helpers are built from,
  written over `string` (= `seq<char>`):
  - `s.replace(/\D/g, "")`   is `Digits(s)`,
  - `s.replace(/\s/g, "")`   is `RemoveWhitespace(s)`,
  - `s.split(c)` for a one-character separator is `Split(s, c)`,
  - `parts.join(c)` for a one-character separator is `Join(parts, c)`,
  - `s.includes(t)`          is `Contains(s, t)`,
  - `s.slice(0, n)`          is `Take(s, n)`.
  `Chunks` cuts a string into consecutive groups of given sizes; it is the
  reference shape that the two input masks are proved against.
*/
module Strings {

  /** `\d` in a JavaScript regular expression: the ASCII digits only. */
  predicate IsDigit(c: char) {
    '0' <= c <= '9'
  }

  predicate AllDigits(s: string) {
    forall i :: 0 <= i < |s| ==> IsDigit(s[i])
  }

  /** A string of digits holds no other character. */
  lemma NoOtherInDigits(s: string, c: char)
    requires AllDigits(s) && !IsDigit(c)
    ensures c !in s
  {
    forall i | 0 <= i < |s| ensures s[i] != c { assert IsDigit(s[i]); }
  }

  /** `s.replace(/\D/g, "")`: keep the digits, in order, and drop everything else. */
  function Digits(s: string): (r: string)
    ensures AllDigits(r)
    ensures |r| <= |s|
    ensures AllDigits(s) ==> r == s
  {
    if s == [] then []
    else (if IsDigit(s[0]) then [s[0]] else []) + Digits(s[1..])
  }

  lemma {:induction false} DigitsAppend(a: string, b: string)
    ensures Digits(a + b) == Digits(a) + Digits(b)
  {
    if a != [] {
      assert (a + b)[1..] == a[1..] + b;
      DigitsAppend(a[1..], b);
    } else {
      assert a + b == b;
    }
  }

  /** A non-digit between two strings is dropped with the other non-digits. */
  lemma DigitsSkip(x: string, c: char, y: string)
    requires !IsDigit(c)
    ensures Digits(x + [c] + y) == Digits(x) + Digits(y)
  {
    var cy := [c] + y;
    assert cy[0] == c && cy[1..] == y;
    assert Digits(cy) == Digits(y);
    DigitsAppend(x, cy);
    assert x + [c] + y == x + cy;
  }

  /** Dropping non-digits twice is the same as dropping them once. */
  lemma DigitsIdempotent(s: string)
    ensures Digits(Digits(s)) == Digits(s)
  {
  }

  /** `s.slice(0, n)`: the first `n` characters, or all of `s` when it is shorter. */
  function Take(s: string, n: nat): (r: string)
    ensures |r| == if |s| <= n then |s| else n
    ensures r <= s
  {
    if |s| <= n then s else s[..n]
  }

  /**
    `\s` in a JavaScript regular expression: the ECMAScript WhiteSpace and
    LineTerminator code points (tab, vertical tab, form feed, space, no-break
    space, byte order mark, the Unicode space separators, line feed, carriage
    return, line and paragraph separators).
  */
  predicate IsWhitespace(c: char) {
    || c == '\t' || c == '\n' || c == '\U{000B}' || c == '\U{000C}' || c == '\r'
    || c == ' ' || c == '\U{00A0}' || c == '\U{1680}'
    || ('\U{2000}' <= c <= '\U{200A}')
    || c == '\U{2028}' || c == '\U{2029}' || c == '\U{202F}' || c == '\U{205F}'
    || c == '\U{3000}' || c == '\U{FEFF}'
  }

  /** `s.replace(/\s/g, "")`. */
  function RemoveWhitespace(s: string): (r: string)
    ensures forall i :: 0 <= i < |r| ==> !IsWhitespace(r[i])
    ensures |r| <= |s|
    ensures (forall i :: 0 <= i < |s| ==> !IsWhitespace(s[i])) ==> r == s
    ensures (forall i :: 0 <= i < |s| ==> IsWhitespace(s[i])) ==> r == []
  {
    if s == [] then []
    else (if IsWhitespace(s[0]) then [] else [s[0]]) + RemoveWhitespace(s[1..])
  }

  lemma {:induction false} RemoveWhitespaceAppend(a: string, b: string)
    ensures RemoveWhitespace(a + b) == RemoveWhitespace(a) + RemoveWhitespace(b)
  {
    if a != [] {
      assert (a + b)[1..] == a[1..] + b;
      RemoveWhitespaceAppend(a[1..], b);
    } else {
      assert a + b == b;
    }
  }

  /** A string of digits has no whitespace to remove. */
  lemma {:induction false} RemoveWhitespaceOfDigits(s: string)
    requires AllDigits(s)
    ensures RemoveWhitespace(s) == s
  {
    if s != [] {
      RemoveWhitespaceOfDigits(s[1..]);
    }
  }

  /**
    `parts.join(sep)`: the parts with one `sep` between neighbours; the empty
    list joins to the empty string.
  */
  function Join(parts: seq<string>, sep: char): string
  {
    if |parts| == 0 then []
    else if |parts| == 1 then parts[0]
    else parts[0] + [sep] + Join(parts[1..], sep)
  }

  /** The separator shows in a join of two or more parts. */
  lemma JoinShowsSeparator(parts: seq<string>, sep: char)
    requires |parts| >= 2
    ensures sep in Join(parts, sep)
  {
    assert Join(parts, sep) == parts[0] + [sep] + Join(parts[1..], sep);
    assert Join(parts, sep)[|parts[0]|] == sep;
  }

  /** Two or more parts never join to the empty string: the separator shows. */
  lemma JoinEmpty(parts: seq<string>, sep: char)
    requires Join(parts, sep) == []
    ensures |parts| <= 1
  {
  }

  /**
    `s.split(sep)` for a one-character separator: the maximal `sep`-free pieces
    of `s`, in order. There is always at least one piece (`"".split(".")` is
    `[""]`), and joining the pieces back gives `s`.
  */
  function Split(s: string, sep: char): (parts: seq<string>)
    ensures |parts| >= 1
    ensures forall i :: 0 <= i < |parts| ==> sep !in parts[i]
    ensures Join(parts, sep) == s
  {
    if s == [] then [[]]
    else
      var rest := Split(s[1..], sep);
      if s[0] == sep then
        assert s == [sep] + s[1..];
        [[]] + rest
      else
        var parts := [[s[0]] + rest[0]] + rest[1..];
        assert parts[1..] == rest[1..];
        assert |rest| > 1 ==> Join(rest, sep) == rest[0] + [sep] + Join(rest[1..], sep);
        assert s == [s[0]] + s[1..];
        parts
  }

  /** A string without the separator splits into itself alone. */
  lemma {:induction false} SplitPlain(s: string, sep: char)
    requires sep !in s
    ensures Split(s, sep) == [s]
  {
    if s != [] {
      SplitPlain(s[1..], sep);
    }
  }

  /** Splitting distributes over a separator that is placed between two strings. */
  lemma {:induction false} SplitConcat(x: string, y: string, sep: char)
    ensures Split(x + [sep] + y, sep) == Split(x, sep) + Split(y, sep)
  {
    var s := x + [sep] + y;
    if x == [] {
      assert s == [sep] + y;
      assert s[1..] == y;
    } else {
      assert s[0] == x[0];
      assert s[1..] == x[1..] + [sep] + y;
      SplitConcat(x[1..], y, sep);
    }
  }

  /**
    `split` undoes `join` whenever no part contains the separator and there is
    at least one part.
  */
  lemma {:induction false} SplitJoin(parts: seq<string>, sep: char)
    requires |parts| >= 1
    requires forall i :: 0 <= i < |parts| ==> sep !in parts[i]
    ensures Split(Join(parts, sep), sep) == parts
  {
    SplitPlain(parts[0], sep);
    if |parts| > 1 {
      SplitJoin(parts[1..], sep);
      SplitConcat(parts[0], Join(parts[1..], sep), sep);
      assert parts == [parts[0]] + parts[1..];
    }
  }

  /** `s.includes(t)`: `t` occurs in `s` as a contiguous block (the empty string occurs everywhere). */
  predicate Contains(s: string, t: string)
  {
    t <= s || (s != [] && Contains(s[1..], t))
  }

  /** `t` occurs in `s` starting at position `k`. */
  predicate OccursAt(s: string, t: string, k: nat) {
    k + |t| <= |s| && s[k..k + |t|] == t
  }

  /** A key that occurs at some position is found by `Contains`. */
  lemma {:induction false} ContainsAt(s: string, t: string, k: nat)
    requires OccursAt(s, t, k)
    ensures Contains(s, t)
  {
    if k > 0 {
      assert s[1..][k - 1..k - 1 + |t|] == s[k..k + |t|];
      ContainsAt(s[1..], t, k - 1);
    } else {
      assert t <= s;
    }
  }

  /** Conversely, when `Contains` holds the key occurs at some position. */
  lemma {:induction false} ContainsWitness(s: string, t: string)
    requires Contains(s, t)
    ensures exists k: nat :: OccursAt(s, t, k)
  {
    if t <= s {
      assert OccursAt(s, t, 0);
    } else {
      ContainsWitness(s[1..], t);
      var k: nat :| OccursAt(s[1..], t, k);
      assert s[k + 1..k + 1 + |t|] == s[1..][k..k + |t|];
      assert OccursAt(s, t, k + 1);
    }
  }



  /**
    Cuts `s` into consecutive groups: the first `sizes[0]` characters, then the
    next `sizes[1]`, and so on; whatever is left when `sizes` runs out, or when
    fewer characters remain than the next size, is the last group.
  */
  function Chunks(s: string, sizes: seq<nat>): (groups: seq<string>)
    ensures 1 <= |groups| <= |sizes| + 1
    decreases sizes
  {
    if |sizes| == 0 || |s| <= sizes[0] then [s]
    else [s[..sizes[0]]] + Chunks(s[sizes[0]..], sizes[1..])
  }

  /**
    The shape of `Chunks`: every group but the last has exactly its size, the
    last is at most its size when sizes remain, no group but possibly the only
    one is empty, and concatenating the groups gives `s` back.
  */
  lemma {:induction false} ChunksShape(s: string, sizes: seq<nat>)
    requires forall i :: 0 <= i < |sizes| ==> sizes[i] > 0
    ensures var g := Chunks(s, sizes);
      && (forall i :: 0 <= i < |g| - 1 ==> |g[i]| == sizes[i])
      && (|g| - 1 < |sizes| ==> |g[|g| - 1]| <= sizes[|g| - 1])
      && (|g| > 1 ==> |g[|g| - 1]| > 0)
      && Concat(g) == s
    decreases sizes
  {
    if |sizes| != 0 && |s| > sizes[0] {
      var rest := Chunks(s[sizes[0]..], sizes[1..]);
      ChunksShape(s[sizes[0]..], sizes[1..]);
      var g := [s[..sizes[0]]] + rest;
      assert Chunks(s, sizes) == g;
      assert g[1..] == rest;
      assert s == s[..sizes[0]] + s[sizes[0]..];
    }
  }

  /** Concatenation of a list of strings. */
  function Concat(parts: seq<string>): string
  {
    if parts == [] then [] else parts[0] + Concat(parts[1..])
  }

  lemma {:induction false} ConcatAppend(a: seq<string>, b: seq<string>)
    ensures Concat(a + b) == Concat(a) + Concat(b)
  {
    if a != [] {
      assert (a + b)[1..] == a[1..] + b;
      ConcatAppend(a[1..], b);
    } else {
      assert a + b == b;
    }
  }

  /** The number of occurrences of `c` in `s`. */
  function Count(s: string, c: char): nat
  {
    if s == [] then 0 else (if s[0] == c then 1 else 0) + Count(s[1..], c)
  }

  /** `s.split(sep)` has one more piece than `s` has separators. */
  lemma {:induction false} SplitCount(s: string, sep: char)
    ensures |Split(s, sep)| == Count(s, sep) + 1
  {
    if s != [] {
      SplitCount(s[1..], sep);
    }
  }

  /** A character that is counted occurs. */
  lemma {:induction false} CountPositive(s: string, c: char)
    requires Count(s, c) > 0
    ensures c in s
  {
    if s[0] != c {
      CountPositive(s[1..], c);
    }
  }

  /** A character that occurs is counted. */
  lemma {:induction false} CountOccurs(s: string, c: char)
    requires c in s
    ensures Count(s, c) > 0
  {
    if s[0] != c {
      CountOccurs(s[1..], c);
    }
  }

  /** Every group of a string of digits is a string of digits. */
  lemma {:induction false} ChunksOfDigits(s: string, sizes: seq<nat>)
    requires AllDigits(s)
    ensures forall i :: 0 <= i < |Chunks(s, sizes)| ==> AllDigits(Chunks(s, sizes)[i])
    decreases sizes
  {
    if |sizes| != 0 && |s| > sizes[0] {
      ChunksOfDigits(s[sizes[0]..], sizes[1..]);
    }
  }

  /** Joining the groups of `Chunks` peels off the first group and one separator. */
  lemma JoinChunksStep(s: string, sizes: seq<nat>, sep: char)
    requires |sizes| > 0 && |s| > sizes[0]
    ensures Join(Chunks(s, sizes), sep)
         == s[..sizes[0]] + [sep] + Join(Chunks(s[sizes[0]..], sizes[1..]), sep)
  {
    var rest := Chunks(s[sizes[0]..], sizes[1..]);
    assert ([s[..sizes[0]]] + rest)[1..] == rest;
  }

  /** Dropping the non-digits of a join of digit strings, on a non-digit separator, gives their concatenation. */
  lemma {:induction false} DigitsOfJoin(parts: seq<string>, sep: char)
    requires !IsDigit(sep)
    requires forall i :: 0 <= i < |parts| ==> AllDigits(parts[i])
    ensures Digits(Join(parts, sep)) == Concat(parts)
  {
    if |parts| == 1 {
      assert parts[1..] == [];
    } else if |parts| > 1 {
      var p := parts[0];
      DigitsOfJoin(parts[1..], sep);
      DigitsAppend(p + [sep], Join(parts[1..], sep));
      DigitsAppend(p, [sep]);
      assert Digits([sep]) == [] + Digits([]);
    }
  }

  /** The characters of `a + [c] + b`, position by position. */
  lemma CharsAround(a: string, c: char, b: string)
    ensures |a + [c] + b| == |a| + 1 + |b|
    ensures forall i :: 0 <= i < |a + [c] + b| ==>
      (a + [c] + b)[i] == if i < |a| then a[i] else if i == |a| then c else b[i - |a| - 1]
  {
  }

  /** A slice of a prefix is the same slice of the whole string. */
  lemma SliceOfPrefix(s: string, k: nat, i: nat, j: nat)
    requires i <= j <= k <= |s|
    ensures s[..k][i..j] == s[i..j]
    ensures s[..k][..j] == s[..j]
  {
  }

  /** A slice of a suffix is a slice of the whole string, shifted. */
  lemma SliceOfSuffix(s: string, k: nat, i: nat, j: nat)
    requires k <= |s| && i <= j <= |s| - k
    ensures s[k..][i..j] == s[k + i..k + j]
    ensures s[k..][i..] == s[k + i..]
    ensures s[k..][..j] == s[k..k + j]
  {
  }
}

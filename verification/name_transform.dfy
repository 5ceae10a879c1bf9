/** `NameTransform`: the camelCase to snake_case / kebab-case converter.

    `ToSplitCase` replaces every match of `(?<=[a-z0-9])[A-Z]` by the
    separator followed by the lower-cased letter, then lower-cases the whole
    string. The look-behind inspects the original input, so a separator goes
    before an upper-case letter exactly when the input character before it is
    an ASCII lower-case letter or digit. */
module NameTransform {
  import opened Results
  import opened Chars

  /** The three transforms `NONE`, `SNAKE` and `KEBAB`. */
  datatype Transform = Identity | Snake | Kebab

  function Separator(t: Transform): char
    requires t != Identity
  {
    if t == Snake then '_' else '-'
  }

  /** Position `i` of `s` is a match of the pattern `(?<=[a-z0-9])[A-Z]`. */
  predicate Boundary(s: string, i: int) {
    0 < i < |s| && IsAsciiUpper(s[i]) && (IsAsciiLower(s[i - 1]) || IsAsciiDigit(s[i - 1]))
  }

  /** What input character `i` turns into. */
  function Piece(sep: char, s: string, i: nat): string
    requires i < |s|
  {
    (if Boundary(s, i) then [sep] else []) + [ToLower(s[i])]
  }

  /** `ToSplitCase.transform` on a non-null string: the pieces of all
      characters, left to right. */
  function SplitCase(sep: char, s: string): string {
    SplitFrom(sep, s, 0)
  }

  /** The pieces of characters `i..|s|-1`. */
  function SplitFrom(sep: char, s: string, i: nat): string
    requires i <= |s|
    decreases |s| - i
  {
    if i == |s| then [] else Piece(sep, s, i) + SplitFrom(sep, s, i + 1)
  }

  /** `transform` (and the default `apply`, which delegates to it): `NONE` is
      the identity, the other two map null to null and split non-null names. */
  function Apply(t: Transform, name: Option<string>): (r: Option<string>)
    ensures name.None? ==> r.None?
    ensures t == Identity ==> r == name
    ensures t != Identity && name.Some? ==> r.Some? && NoUpper(r.value)
  {
    match name
    case None => None
    case Some(s) =>
      if t == Identity then name
      else
        SplitCaseNoUpper(Separator(t), s, 0);
        Some(SplitCase(Separator(t), s))
  }

  /** The number of boundaries among positions `i..j-1`. */
  function Count(s: string, i: nat, j: nat): nat
    requires i <= j <= |s|
    decreases j
  {
    if j == i then 0 else Count(s, i, j - 1) + (if Boundary(s, j - 1) then 1 else 0)
  }

  /** Where input character `k` lands in the output. */
  function Position(s: string, k: nat): nat
    requires k < |s|
  {
    k + Count(s, 0, k + 1)
  }

  lemma {:induction false} CountFront(s: string, i: nat, j: nat)
    requires i < j <= |s|
    ensures Count(s, i, j) == (if Boundary(s, i) then 1 else 0) + Count(s, i + 1, j)
    decreases j
  {
    if j > i + 1 {
      CountFront(s, i, j - 1);
    }
  }

  /** The output never contains an upper-case letter (for a separator that is
      not one). */
  lemma {:induction false} SplitCaseNoUpper(sep: char, s: string, i: nat)
    requires i <= |s|
    requires !IsAsciiUpper(sep)
    ensures NoUpper(SplitFrom(sep, s, i))
    decreases |s| - i
  {
    if i < |s| {
      SplitCaseNoUpper(sep, s, i + 1);
    }
  }

  /** The output is one character longer than the input per separator. */
  lemma {:induction false} SplitFromLength(sep: char, s: string, i: nat)
    requires i <= |s|
    ensures |SplitFrom(sep, s, i)| == |s| - i + Count(s, i, |s|)
    decreases |s| - i
  {
    if i < |s| {
      SplitFromLength(sep, s, i + 1);
      CountFront(s, i, |s|);
    }
  }

  /** Where input character `k` lands in the output of `SplitFrom(sep, s, i)`. */
  function Offset(s: string, i: nat, k: nat): nat
    requires i <= k < |s|
  {
    k - i + Count(s, i, k + 1)
  }

  /** Placement within the suffix output starting at character `i`. */
  lemma {:induction false} SplitFromPlacement(sep: char, s: string, i: nat)
    requires i <= |s|
    ensures forall k :: i <= k < |s| ==>
              Offset(s, i, k) < |SplitFrom(sep, s, i)| &&
              SplitFrom(sep, s, i)[Offset(s, i, k)] == ToLower(s[k]) &&
              (Boundary(s, k) ==> 0 < Offset(s, i, k) && SplitFrom(sep, s, i)[Offset(s, i, k) - 1] == sep)
    decreases |s| - i
  {
    if i < |s| {
      SplitFromPlacement(sep, s, i + 1);
      SplitFromLength(sep, s, i + 1);
      var r := SplitFrom(sep, s, i);
      var head := Piece(sep, s, i);
      var rest := SplitFrom(sep, s, i + 1);
      assert r == head + rest;
      forall k | i <= k < |s|
        ensures Offset(s, i, k) < |r| && r[Offset(s, i, k)] == ToLower(s[k]) &&
                (Boundary(s, k) ==> 0 < Offset(s, i, k) && r[Offset(s, i, k) - 1] == sep)
      {
        CountFront(s, i, k + 1);
        if k > i {
          assert Offset(s, i, k) == |head| + Offset(s, i + 1, k);
          assert r[Offset(s, i, k)] == rest[Offset(s, i + 1, k)];
          if Boundary(s, k) {
            assert Offset(s, i + 1, k) > 0;
            assert r[Offset(s, i, k) - 1] == rest[Offset(s, i + 1, k) - 1];
          }
        } else {
          assert Count(s, i + 1, k + 1) == 0;
          assert Offset(s, i, k) == |head| - 1;
        }
      }
    }
  }

  /** Exact placement: character `k` of the input appears lower-cased at
      `Position(s, k)`, the separator sits right before it exactly at the
      boundaries, and positions advance by one per character plus one per
      boundary. With the length |s| plus the number of boundaries, this
      accounts for every output character: a separator is inserted at each
      boundary and nowhere else. */
  lemma SplitCasePlacement(sep: char, s: string)
    ensures |SplitCase(sep, s)| == |s| + Count(s, 0, |s|)
    ensures forall k :: 0 <= k < |s| ==>
              Position(s, k) < |SplitCase(sep, s)| && SplitCase(sep, s)[Position(s, k)] == ToLower(s[k])
    ensures forall k :: 0 <= k < |s| && Boundary(s, k) ==>
              0 < Position(s, k) && SplitCase(sep, s)[Position(s, k) - 1] == sep
    ensures forall k :: 0 < k < |s| ==>
              Position(s, k) == Position(s, k - 1) + 1 + (if Boundary(s, k) then 1 else 0)
  {
    SplitFromLength(sep, s, 0);
    SplitFromPlacement(sep, s, 0);
    assert forall k :: 0 <= k < |s| ==> Position(s, k) == Offset(s, 0, k);
    forall k | 0 < k < |s|
      ensures Position(s, k) == Position(s, k - 1) + 1 + (if Boundary(s, k) then 1 else 0)
    {
      PositionStep(s, k);
    }
  }

  lemma PositionStep(s: string, k: nat)
    requires 0 < k < |s|
    ensures Position(s, k) == Position(s, k - 1) + 1 + (if Boundary(s, k) then 1 else 0)
  {
  }

  /** A suffix without upper-case letters has no boundaries and comes out
      unchanged ("word2numbers" stays "word2numbers"). */
  lemma {:induction false} SplitFromIdentity(sep: char, s: string, i: nat)
    requires i <= |s|
    requires forall j :: i <= j < |s| ==> !IsAsciiUpper(s[j])
    ensures SplitFrom(sep, s, i) == s[i..]
    decreases |s| - i
  {
    if i < |s| {
      SplitFromIdentity(sep, s, i + 1);
      assert s[i..] == [s[i]] + s[i + 1..];
    }
  }

  /** A stretch without upper-case letters is copied as it is. */
  lemma {:induction false} SplitFromVerbatim(sep: char, s: string, i: nat, k: nat)
    requires i <= k <= |s|
    requires forall j :: i <= j < k ==> !IsAsciiUpper(s[j])
    ensures SplitFrom(sep, s, i) == s[i..k] + SplitFrom(sep, s, k)
    decreases k - i
  {
    if i < k {
      SplitFromVerbatim(sep, s, i + 1, k);
      assert s[i..k] == [s[i]] + s[i + 1..k];
    }
  }

  /** A name with a single upper-case letter, at a boundary: the separator
      goes right before it and it is lower-cased. */
  lemma SplitOneBoundary(sep: char, s: string, k: nat)
    requires Boundary(s, k)
    requires forall j :: 0 <= j < |s| && j != k ==> !IsAsciiUpper(s[j])
    ensures SplitCase(sep, s) == s[..k] + [sep, ToLower(s[k])] + s[k + 1..]
  {
    SplitFromVerbatim(sep, s, 0, k);
    SplitFromIdentity(sep, s, k + 1);
    assert SplitFrom(sep, s, k) == [sep, ToLower(s[k])] + s[k + 1..];
    assert s[0..k] == s[..k];
  }

  /** Hence `SNAKE` and `KEBAB` are idempotent. */
  lemma Idempotent(t: Transform, name: Option<string>)
    ensures Apply(t, Apply(t, name)) == Apply(t, name)
  {
    if t != Identity && name.Some? {
      var once := SplitCase(Separator(t), name.value);
      SplitCaseNoUpper(Separator(t), name.value, 0);
      SplitFromIdentity(Separator(t), once, 0);
      assert once[0..] == once;
    }
  }

  /** `SNAKE` and `KEBAB` insert at the same places: the two outputs have the
      same length and differ only where one has '_' and the other '-'. */
  lemma {:induction false} SnakeKebabSameShape(s: string, i: nat)
    requires i <= |s|
    ensures var a := SplitFrom('_', s, i); var b := SplitFrom('-', s, i);
            |a| == |b| &&
            forall j :: 0 <= j < |a| ==> a[j] == b[j] || (a[j] == '_' && b[j] == '-')
    decreases |s| - i
  {
    if i < |s| {
      SnakeKebabSameShape(s, i + 1);
    }
  }

  // The test suite's examples, each name given as a parameter.

  lemma SnakeExampleA(s: string)
    requires s == "a"
    ensures Apply(Snake, Some(s)) == Some("a")
  {
    SplitFromIdentity('_', s, 0);
    assert s[0..] == s;
  }

  lemma SnakeExampleAUpper(s: string)
    requires s == "A"
    ensures Apply(Snake, Some(s)) == Some("a")
  {
    assert SplitFrom('_', s, 1) == [];
    assert SplitCase('_', s) == [ToLower('A')];
  }

  lemma SnakeExampleAA(s: string)
    requires s == "aA"
    ensures Apply(Snake, Some(s)) == Some("a_a")
  {
    SplitOneBoundary('_', s, 1);
    assert s[..1] == "a" && s[2..] == [] && ToLower('A') == 'a';
    assert SplitCase('_', s) == "a_a";
  }

  lemma KebabExampleAA(s: string)
    requires s == "aA"
    ensures Apply(Kebab, Some(s)) == Some("a-a")
  {
    SplitOneBoundary('-', s, 1);
    assert s[..1] == "a" && s[2..] == [] && ToLower('A') == 'a';
    assert SplitCase('-', s) == "a-a";
  }

  lemma SnakeExampleWord2Numbers(s: string)
    requires s == "word2Numbers"
    ensures Apply(Snake, Some(s)) == Some("word2_numbers")
  {
    SplitOneBoundary('_', s, 5);
    assert s[..5] == "word2" && s[6..] == "umbers" && ToLower('N') == 'n';
    assert SplitCase('_', s) == "word2_numbers";
  }

  lemma KebabExampleWord2Numbers(s: string)
    requires s == "word2Numbers"
    ensures Apply(Kebab, Some(s)) == Some("word2-numbers")
  {
    SplitOneBoundary('-', s, 5);
    assert s[..5] == "word2" && s[6..] == "umbers" && ToLower('N') == 'n';
    assert SplitCase('-', s) == "word2-numbers";
  }

  lemma SnakeExampleWord2numbers(s: string)
    requires s == "word2numbers"
    ensures Apply(Snake, Some(s)) == Some("word2numbers")
  {
    SplitFromIdentity('_', s, 0);
    assert s[0..] == s;
  }
}

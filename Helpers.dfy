/**
 * The name-list helpers of utils/helpers.ts: the Fisher-Yates shuffle, the
 * bulk-text name parser, the duplicate detector and the text of the two CSV
 * exports.
 */
module Helpers {
  import opened Types
  import opened Seqs

  // ------------------------------------------------------------------
  // Randomness. `Math.random()` is replaced by values supplied by the
  // caller, each in [0, 1), consumed in call order.
  // ------------------------------------------------------------------

  predicate IsRandom(random: seq<real>)
  {
    forall k :: 0 <= k < |random| ==> 0.0 <= random[k] < 1.0
  }

  /** `Math.floor(r * m)` for a random `r`: always an index below `m`. */
  function RandomIndex(r: real, m: nat): (j: nat)
    requires 0.0 <= r < 1.0 && m >= 1
    ensures j < m
  {
    assert r * (m as real) < m as real by {
      assert (1.0 - r) * (m as real) > 0.0;
    }
    (r * (m as real)).Floor
  }

  // ------------------------------------------------------------------
  // shuffleArray
  // ------------------------------------------------------------------

  /** `[s[i], s[j]] = [s[j], s[i]]` on a value. */
  function Swap<T>(s: seq<T>, i: nat, j: nat): (r: seq<T>)
    requires i < |s| && j < |s|
    ensures |r| == |s| && r[i] == s[j] && r[j] == s[i]
    ensures forall k :: 0 <= k < |s| && k != i && k != j ==> r[k] == s[k]
    ensures multiset(r) == multiset(s)
  {
    s[i := s[j]][j := s[i]]
  }

  /**
   * The swap index drawn at each step of a shuffle of `n` elements: step `t`
   * handles position `i = n - 1 - t` and draws `Math.floor(random[t] * (i + 1))`.
   */
  function SwapChoices(random: seq<real>, n: nat): (c: seq<nat>)
    requires IsRandom(random) && n - 1 <= |random|
    ensures |c| == if n == 0 then 0 else n - 1
    ensures forall t :: 0 <= t < |c| ==> c[t] <= n - 1 - t
  {
    seq(if n == 0 then 0 else n - 1, t requires 0 <= t < n - 1 => RandomIndex(random[t], n - t))
  }

  /** The choice for step `k` is the index drawn for position `i = n - 1 - k`. */
  lemma ChoiceAt(random: seq<real>, n: nat, k: nat, i: nat)
    requires IsRandom(random) && n - 1 <= |random| && 0 < i && k + i == n - 1
    ensures SwapChoices(random, n)[k] == RandomIndex(random[k], i + 1)
  {
  }

  predicate ValidChoices(c: seq<nat>, n: nat)
  {
    |c| + 1 >= n && forall t :: 0 <= t < |c| && t + 1 < n ==> c[t] <= n - 1 - t
  }

  /** The Fisher-Yates steps from step `k` on: swap position `|s| - 1 - k` with `c[k]`, down to position 1. */
  function ShuffleFrom<T>(s: seq<T>, c: seq<nat>, k: nat): seq<T>
    requires ValidChoices(c, |s|)
    decreases |s| - k
  {
    if k + 1 >= |s| then s
    else ShuffleFrom(Swap(s, |s| - 1 - k, c[k]), c, k + 1)
  }

  /** What `shuffleArray(s)` returns when `Math.random()` yields `random` in order. */
  function Shuffled<T>(s: seq<T>, random: seq<real>): (r: seq<T>)
    requires IsRandom(random) && |s| - 1 <= |random|
    ensures |s| <= 1 ==> r == s
  {
    ShuffleFrom(s, SwapChoices(random, |s|), 0)
  }

  /** One step of the loop: position `i = |s| - 1 - k` swapped with `c[k]`. */
  lemma ShuffleFromStep<T>(s: seq<T>, c: seq<nat>, k: nat, i: nat, j: nat)
    requires ValidChoices(c, |s|) && 0 < i && k + i + 1 == |s| && j == c[k]
    ensures j <= i && ShuffleFrom(s, c, k) == ShuffleFrom(Swap(s, i, j), c, k + 1)
  {
  }

  lemma {:induction false} ShuffleFromPermutes<T>(s: seq<T>, c: seq<nat>, k: nat)
    requires ValidChoices(c, |s|)
    ensures |ShuffleFrom(s, c, k)| == |s|
    ensures multiset(ShuffleFrom(s, c, k)) == multiset(s)
    decreases |s| - k
  {
    if k + 1 < |s| {
      var swapped := Swap(s, |s| - 1 - k, c[k]);
      ShuffleFromPermutes(swapped, c, k + 1);
    }
  }

  /** The shuffle is a permutation of its input, whatever the random values. */
  lemma ShufflePermutes<T>(s: seq<T>, random: seq<real>)
    requires IsRandom(random) && |s| - 1 <= |random|
    ensures |Shuffled(s, random)| == |s|
    ensures multiset(Shuffled(s, random)) == multiset(s)
  {
    ShuffleFromPermutes(s, SwapChoices(random, |s|), 0);
  }

  /**
   * The shuffle of `n` elements consumes exactly the first `n - 1` random
   * values (none when `n <= 1`): any two sources agreeing there agree on the result.
   */
  lemma ShuffleReadsPrefix<T>(s: seq<T>, random: seq<real>, other: seq<real>)
    requires IsRandom(random) && IsRandom(other)
    requires |s| - 1 <= |random| && |s| - 1 <= |other|
    requires |s| > 1 ==> random[..|s| - 1] == other[..|s| - 1]
    ensures Shuffled(s, random) == Shuffled(s, other)
  {
    var c, d := SwapChoices(random, |s|), SwapChoices(other, |s|);
    forall t | 0 <= t < |c| ensures c[t] == d[t] {
      assert random[t] == random[..|s| - 1][t];
      assert other[t] == other[..|s| - 1][t];
    }
    assert c == d;
  }

  /** `[newArray[i], newArray[j]] = [newArray[j], newArray[i]]` */
  method SwapInPlace<T>(a: array<T>, i: nat, j: nat)
    requires i < a.Length && j < a.Length
    modifies a
    ensures a[..] == Swap(old(a[..]), i, j)
  {
    a[i], a[j] := a[j], a[i];
  }

  /**
   * `shuffleArray`: copies the input into a fresh array, then for `i` from the
   * last index down to 1 swaps position `i` with a random `j` in `0..i`.
   */
  method ShuffleArray<T>(input: seq<T>, random: seq<real>) returns (result: seq<T>)
    requires IsRandom(random) && |input| - 1 <= |random|
    ensures result == Shuffled(input, random)
    ensures |result| == |input| && multiset(result) == multiset(input)
  {
    ghost var c := SwapChoices(random, |input|);
    ghost var target := ShuffleFrom(input, c, 0);
    assert target == Shuffled(input, random);
    var newArray := new T[|input|](k requires 0 <= k < |input| => input[k]);
    assert newArray[..] == input;
    var i := newArray.Length - 1;
    var k := 0;
    while i > 0
      invariant -1 <= i < newArray.Length
      invariant k + i == newArray.Length - 1
      invariant ShuffleFrom(newArray[..], c, k) == target
      decreases i
    {
      ghost var before := newArray[..];
      var j := RandomIndex(random[k], i + 1);
      ChoiceAt(random, |input|, k, i);
      ShuffleFromStep(before, c, k, i, j);
      SwapInPlace(newArray, i, j);
      i, k := i - 1, k + 1;
    }
    result := newArray[..];
    ShufflePermutes(input, random);
  }

  // ------------------------------------------------------------------
  // parseNames
  // ------------------------------------------------------------------

  /** The characters of the separator class `[\n,]`. */
  predicate IsSeparator(c: char)
  {
    c == '\n' || c == ','
  }

  /**
   * The characters `String.prototype.trim` removes: ECMAScript WhiteSpace
   * (tab, vertical tab, form feed, space, no-break space, BOM and the other
   * Zs space separators) and LineTerminator.
   */
  predicate IsWs(c: char)
  {
    c == '\t' || c == '\U{000B}' || c == '\U{000C}' || c == ' ' || c == '\U{00A0}' || c == '\U{FEFF}'
    || c == '\U{1680}' || ('\U{2000}' <= c <= '\U{200A}') || c == '\U{202F}' || c == '\U{205F}' || c == '\U{3000}'
    || c == '\n' || c == '\r' || c == '\U{2028}' || c == '\U{2029}'
  }

  predicate NoSeparator(s: string)
  {
    forall k :: 0 <= k < |s| ==> !IsSeparator(s[k])
  }

  /** A name as the roster keeps it: non-empty, trimmed, free of separators. */
  predicate IsCleanName(s: string)
  {
    s != [] && !IsWs(s[0]) && !IsWs(s[|s| - 1]) && NoSeparator(s)
  }

  /** The index of the first non-white-space character at or after `i` (or `|s|`). */
  function TrimStartIndex(s: string, i: nat): (a: nat)
    requires i <= |s|
    ensures i <= a <= |s|
    decreases |s| - i
  {
    if i < |s| && IsWs(s[i]) then TrimStartIndex(s, i + 1) else i
  }

  /** The end of `s[lo..j]` once its trailing white space is removed. */
  function TrimEndIndex(s: string, lo: nat, j: nat): (b: nat)
    requires lo <= j <= |s|
    ensures lo <= b <= j
    decreases j
  {
    if j > lo && IsWs(s[j - 1]) then TrimEndIndex(s, lo, j - 1) else j
  }

  /**
   * `name.trim()`: leading white space removed, then trailing white space.
   * It never lengthens, and a text with no white space at either end is kept.
   */
  function Trim(s: string): (t: string)
    ensures |t| <= |s|
    ensures s != [] && !IsWs(s[0]) && !IsWs(s[|s| - 1]) ==> t == s
  {
    var a := TrimStartIndex(s, 0);
    s[a..TrimEndIndex(s, a, |s|)]
  }

  lemma {:induction false} TrimStartIndexSpec(s: string, i: nat)
    requires i <= |s|
    ensures var a := TrimStartIndex(s, i);
      (forall k :: i <= k < a ==> IsWs(s[k])) && (a < |s| ==> !IsWs(s[a]))
    decreases |s| - i
  {
    if i < |s| && IsWs(s[i]) {
      TrimStartIndexSpec(s, i + 1);
    }
  }

  lemma {:induction false} TrimEndIndexSpec(s: string, lo: nat, j: nat)
    requires lo <= j <= |s|
    ensures var b := TrimEndIndex(s, lo, j);
      (forall k :: b <= k < j ==> IsWs(s[k])) && (b > lo ==> !IsWs(s[b - 1]))
    decreases j
  {
    if j > lo && IsWs(s[j - 1]) {
      TrimEndIndexSpec(s, lo, j - 1);
    }
  }

  /**
   * What `trim` leaves: a slice `s[a..b]` such that everything before `a` and
   * after `b` is white space and the slice neither starts nor ends with white
   * space. Such a slice is unique, so this pins `trim` down.
   */
  lemma TrimSpec(s: string)
    ensures exists a, b :: (0 <= a <= b <= |s| && Trim(s) == s[a..b] &&
      (forall k :: 0 <= k < a ==> IsWs(s[k])) &&
      (forall k :: b <= k < |s| ==> IsWs(s[k])))
    ensures Trim(s) != [] ==> !IsWs(Trim(s)[0]) && !IsWs(Trim(s)[|Trim(s)| - 1])
  {
    var a := TrimStartIndex(s, 0);
    var b := TrimEndIndex(s, a, |s|);
    TrimStartIndexSpec(s, 0);
    TrimEndIndexSpec(s, a, |s|);
    assert Trim(s) == s[a..b];
  }

  /** A trimmed separator-free text is still separator-free. */
  lemma TrimNoSeparator(s: string)
    requires NoSeparator(s)
    ensures NoSeparator(Trim(s))
  {
    var a := TrimStartIndex(s, 0);
    var b := TrimEndIndex(s, a, |s|);
    forall k | 0 <= k < b - a ensures !IsSeparator(Trim(s)[k]) {
      assert Trim(s)[k] == s[a + k];
    }
  }

  /** The index of the first separator at or after `i` (or `|s|`): where the piece starting at `i` ends. */
  function TokenEnd(s: string, i: nat): (e: nat)
    requires i <= |s|
    ensures i <= e <= |s| && (e < |s| ==> IsSeparator(s[e]))
    decreases |s| - i
  {
    if i < |s| && !IsSeparator(s[i]) then TokenEnd(s, i + 1) else i
  }

  /** The index of the first non-separator at or after `i` (or `|s|`): where a separator run ends. */
  function RunEnd(s: string, i: nat): (e: nat)
    requires i <= |s|
    ensures i <= e <= |s| && (i < |s| && IsSeparator(s[i]) ==> i < e)
    decreases |s| - i
  {
    if i < |s| && IsSeparator(s[i]) then RunEnd(s, i + 1) else i
  }

  /** The pieces of `s[i..]` between maximal runs of separators. */
  function SplitFrom(s: string, i: nat): (r: seq<string>)
    requires i <= |s|
    decreases |s| - i
  {
    var e := TokenEnd(s, i);
    if e == |s| then [s[i..]] else [s[i..e]] + SplitFrom(s, RunEnd(s, e))
  }

  /**
   * `text.split(/[\n,]+/)`: the pieces between maximal runs of separators,
   * with an empty first (last) piece when the text starts (ends) with a separator.
   */
  function Split(s: string): (r: seq<string>)
    ensures |r| >= 1
    ensures NoSeparator(s) ==> r == [s]
  {
    if NoSeparator(s) then TokenEndFull(s, 0); SplitFrom(s, 0) else SplitFrom(s, 0)
  }

  lemma {:induction false} TokenEndSpec(s: string, i: nat)
    requires i <= |s|
    ensures forall k :: i <= k < TokenEnd(s, i) ==> !IsSeparator(s[k])
    decreases |s| - i
  {
    if i < |s| && !IsSeparator(s[i]) {
      TokenEndSpec(s, i + 1);
    }
  }

  lemma {:induction false} SplitFromNoSeparator(s: string, i: nat)
    requires i <= |s|
    ensures |SplitFrom(s, i)| >= 1
    ensures forall k :: 0 <= k < |SplitFrom(s, i)| ==> NoSeparator(SplitFrom(s, i)[k])
    decreases |s| - i
  {
    var e := TokenEnd(s, i);
    TokenEndSpec(s, i);
    assert NoSeparator(s[i..e]) by {
      forall k | 0 <= k < e - i ensures !IsSeparator(s[i..e][k]) {
        assert s[i..e][k] == s[i + k];
      }
    }
    if e < |s| {
      SplitFromNoSeparator(s, RunEnd(s, e));
    }
  }

  /** Every piece of `split` is free of separators. */
  lemma SplitNoSeparator(s: string)
    ensures |Split(s)| >= 1
    ensures forall k :: 0 <= k < |Split(s)| ==> NoSeparator(Split(s)[k])
  {
    SplitFromNoSeparator(s, 0);
  }

  /** `.map(name => name.trim())` */
  function TrimEach(xs: seq<string>): seq<string>
  {
    seq(|xs|, k requires 0 <= k < |xs| => Trim(xs[k]))
  }

  /** `.filter(name => name.length > 0)`: the non-empty strings, and only those. */
  function DropEmpty(xs: seq<string>): (r: seq<string>)
    ensures |r| <= |xs|
    ensures forall x :: x in r <==> x in xs && x != []
  {
    if xs == [] then []
    else if xs[0] == [] then DropEmpty(xs[1..])
    else [xs[0]] + DropEmpty(xs[1..])
  }

  /** The map and filter stages of `parseNames`. */
  function CleanTokens(xs: seq<string>): seq<string>
  {
    DropEmpty(TrimEach(xs))
  }

  /** The map and filter stages keep exactly the non-empty trimmed pieces, and never add one. */
  lemma CleanTokensMembers(xs: seq<string>)
    ensures |CleanTokens(xs)| <= |xs|
    ensures forall x :: x in CleanTokens(xs) <==> x != [] && exists k :: 0 <= k < |xs| && Trim(xs[k]) == x
  {
    var ys := TrimEach(xs);
    forall x ensures x in ys <==> exists k :: 0 <= k < |xs| && Trim(xs[k]) == x {
      if x in ys {
        var k :| 0 <= k < |ys| && ys[k] == x;
        assert Trim(xs[k]) == x;
      } else {
        forall k | 0 <= k < |xs| ensures Trim(xs[k]) != x {
          assert ys[k] == Trim(xs[k]);
        }
      }
    }
  }

  lemma {:induction false} CleanPieces(xs: seq<string>)
    requires forall k :: 0 <= k < |xs| ==> NoSeparator(xs[k])
    ensures forall k :: 0 <= k < |CleanTokens(xs)| ==> IsCleanName(CleanTokens(xs)[k])
  {
    if xs != [] {
      CleanPieces(xs[1..]);
      TrimNoSeparator(xs[0]);
      TrimSpec(xs[0]);
      var t := TrimEach(xs);
      assert t[1..] == TrimEach(xs[1..]);
      assert CleanTokens(xs) == DropEmpty(t);
      assert CleanTokens(xs[1..]) == DropEmpty(t[1..]);
      assert DropEmpty(t) == if t[0] == [] then DropEmpty(t[1..]) else [t[0]] + DropEmpty(t[1..]);
    }
  }

  /**
   * `parseNames`: split on runs of newlines and commas, trim, drop empty
   * tokens. Every name it returns is non-empty, trimmed and separator-free.
   */
  function ParseNames(text: string): (names: seq<string>)
    ensures forall k :: 0 <= k < |names| ==> IsCleanName(names[k])
  {
    SplitNoSeparator(text);
    CleanPieces(Split(text));
    CleanTokens(Split(text))
  }

  lemma TrimEachAppend(xs: seq<string>, ys: seq<string>)
    ensures TrimEach(xs + ys) == TrimEach(xs) + TrimEach(ys)
  {
    var l, r := TrimEach(xs + ys), TrimEach(xs) + TrimEach(ys);
    forall k | 0 <= k < |xs + ys| ensures l[k] == r[k] {
      if k < |xs| {
        assert (xs + ys)[k] == xs[k];
      } else {
        assert (xs + ys)[k] == ys[k - |xs|];
      }
    }
  }

  lemma {:induction false} DropEmptyAppend(xs: seq<string>, ys: seq<string>)
    ensures DropEmpty(xs + ys) == DropEmpty(xs) + DropEmpty(ys)
    decreases |xs|
  {
    if xs == [] {
      assert xs + ys == ys;
    } else {
      assert (xs + ys)[1..] == xs[1..] + ys;
      DropEmptyAppend(xs[1..], ys);
    }
  }

  lemma CleanTokensAppend(xs: seq<string>, ys: seq<string>)
    ensures CleanTokens(xs + ys) == CleanTokens(xs) + CleanTokens(ys)
  {
    TrimEachAppend(xs, ys);
    DropEmptyAppend(TrimEach(xs), TrimEach(ys));
  }

  lemma CleanTokensSingle(x: string)
    ensures CleanTokens([x]) == if Trim(x) == [] then [] else [Trim(x)]
  {
    var t := [Trim(x)];
    assert TrimEach([x]) == t;
    assert t[1..] == [];
    assert DropEmpty(t) == if t[0] == [] then DropEmpty(t[1..]) else [t[0]] + DropEmpty(t[1..]);
  }

  /** Cleaning a piece list that ends with an empty piece drops it. */
  lemma CleanTokensEmptyLast(xs: seq<string>)
    ensures CleanTokens(xs + [[]]) == CleanTokens(xs)
  {
    CleanTokensAppend(xs, [[]]);
    CleanTokensSingle([]);
  }

  /** Cleaning a piece list that starts with an empty piece drops it. */
  lemma CleanTokensEmptyHead(xs: seq<string>)
    ensures CleanTokens([[]] + xs) == CleanTokens(xs)
  {
    CleanTokensAppend([[]], xs);
    CleanTokensSingle([]);
  }

  lemma {:induction false} TokenEndShift(x: string, y: string, j: nat)
    requires j <= |y|
    ensures TokenEnd(x + y, |x| + j) == |x| + TokenEnd(y, j)
    decreases |y| - j
  {
    assert j < |y| ==> (x + y)[|x| + j] == y[j];
    if j < |y| && !IsSeparator(y[j]) {
      TokenEndShift(x, y, j + 1);
    }
  }

  lemma {:induction false} RunEndShift(x: string, y: string, j: nat)
    requires j <= |y|
    ensures RunEnd(x + y, |x| + j) == |x| + RunEnd(y, j)
    decreases |y| - j
  {
    assert j < |y| ==> (x + y)[|x| + j] == y[j];
    if j < |y| && IsSeparator(y[j]) {
      RunEndShift(x, y, j + 1);
    }
  }

  /** The pieces of a suffix do not depend on what precedes it. */
  lemma {:induction false} SplitFromShift(x: string, y: string, j: nat)
    requires j <= |y|
    ensures SplitFrom(x + y, |x| + j) == SplitFrom(y, j)
    decreases |y| - j
  {
    var e := TokenEnd(y, j);
    TokenEndShift(x, y, j);
    if e < |y| {
      var r := RunEnd(y, e);
      SplitFromShift(x, y, r);
      SplitFromShiftStep(x, y, j, e, r);
    } else {
      SplitFromShiftFinal(x, y, j);
    }
  }

  /** The step of `SplitFromShift` where a separator follows the piece at `j`. */
  lemma SplitFromShiftStep(x: string, y: string, j: nat, e: nat, r: nat)
    requires j <= e < |y| && e == TokenEnd(y, j) && r == RunEnd(y, e)
    requires TokenEnd(x + y, |x| + j) == |x| + e
    requires SplitFrom(x + y, |x| + r) == SplitFrom(y, r)
    ensures SplitFrom(x + y, |x| + j) == SplitFrom(y, j)
  {
    var s := x + y;
    RunEndShift(x, y, e);
    assert s[|x| + j..|x| + e] == y[j..e];
    SplitFromChain(s, |x| + j, |x| + e, |x| + r, y[j..e], SplitFrom(y, r));
    SplitFromChain(y, j, e, r, y[j..e], SplitFrom(y, r));
  }

  /** The step of `SplitFromShift` where the piece at `j` runs to the end. */
  lemma SplitFromShiftFinal(x: string, y: string, j: nat)
    requires j <= |y| && TokenEnd(y, j) == |y|
    requires TokenEnd(x + y, |x| + j) == |x| + |y|
    ensures SplitFrom(x + y, |x| + j) == SplitFrom(y, j)
  {
    var s := x + y;
    assert s[|x| + j..] == y[j..];
    SplitFromFinal(s, |x| + j);
    SplitFromFinal(y, j);
  }

  /** Skipping the leading separator run of `b` only drops an empty piece. */
  lemma SplitSkip(b: string)
    ensures CleanTokens(SplitFrom(b, RunEnd(b, 0))) == CleanTokens(Split(b))
  {
    if 0 < |b| && IsSeparator(b[0]) {
      assert TokenEnd(b, 0) == 0;
      assert Split(b) == [[]] + SplitFrom(b, RunEnd(b, 0));
      CleanTokensEmptyHead(SplitFrom(b, RunEnd(b, 0)));
    }
  }

  lemma {:induction false} TokenEndConcat(a: string, c: char, b: string, i: nat)
    requires IsSeparator(c) && i <= |a|
    ensures TokenEnd(a + [c] + b, i) == TokenEnd(a, i)
    decreases |a| - i
  {
    var s := a + [c] + b;
    assert s[i] == if i < |a| then a[i] else c;
    if i < |a| && !IsSeparator(a[i]) {
      TokenEndConcat(a, c, b, i + 1);
    }
  }

  /** After `a` and the separator, the run continues into `b`. */
  lemma RunEndAfter(a: string, c: char, b: string)
    requires IsSeparator(c)
    ensures RunEnd(a + [c] + b, |a|) == |a| + 1 + RunEnd(b, 0)
  {
    var s := a + [c] + b;
    assert s[|a|] == c;
    assert s == (a + [c]) + b;
    RunEndShift(a + [c], b, 0);
  }

  lemma {:induction false} RunEndConcat(a: string, c: char, b: string, i: nat)
    requires IsSeparator(c) && i <= |a|
    ensures RunEnd(a + [c] + b, i) == if RunEnd(a, i) < |a| then RunEnd(a, i) else |a| + 1 + RunEnd(b, 0)
    decreases |a| - i
  {
    var s := a + [c] + b;
    if i == |a| {
      RunEndAfter(a, c, b);
    } else {
      assert s[i] == a[i];
      if IsSeparator(a[i]) {
        RunEndConcat(a, c, b, i + 1);
      }
    }
  }

  /** The pieces from position `k` of `b` are the same from position `m = |a| + 1 + k` of `a + [c] + b`. */
  lemma TailShift(a: string, c: char, b: string, k: nat, m: nat)
    requires k <= |b| && m == |a| + 1 + k
    ensures SplitFrom(a + [c] + b, m) == SplitFrom(b, k)
  {
    assert m == |a + [c]| + k;
    SplitFromShift(a + [c], b, k);
  }

  /** One unfolding of `SplitFrom` when a separator ends the piece at `i`. */
  lemma SplitFromNext(s: string, i: nat)
    requires i <= |s| && TokenEnd(s, i) < |s|
    ensures SplitFrom(s, i) == [s[i..TokenEnd(s, i)]] + SplitFrom(s, RunEnd(s, TokenEnd(s, i)))
  {
  }

  /** One unfolding of `SplitFrom` when the piece at `i` runs to the end. */
  lemma SplitFromFinal(s: string, i: nat)
    requires i <= |s| && TokenEnd(s, i) == |s|
    ensures SplitFrom(s, i) == [s[i..]]
  {
  }

  /** `SplitFrom` at `i` once the piece's end, the next piece's start and the rest are known. */
  lemma SplitFromChain(s: string, i: nat, e: nat, r: nat, piece: string, rest: seq<string>)
    requires i <= e < |s| && TokenEnd(s, i) == e && r == RunEnd(s, e)
    requires s[i..e] == piece && SplitFrom(s, r) == rest
    ensures SplitFrom(s, i) == [piece] + rest
  {
    SplitFromNext(s, i);
  }

  lemma PiecesLast(a: string, c: char, b: string, i: nat)
    requires IsSeparator(c) && i <= |a| && TokenEnd(a, i) == |a|
    ensures SplitFrom(a + [c] + b, i) == [a[i..]] + SplitFrom(b, RunEnd(b, 0))
  {
    var s := a + [c] + b;
    TokenEndConcat(a, c, b, i);
    RunEndAfter(a, c, b);
    var r, k := RunEnd(s, |a|), RunEnd(b, 0);
    TailShift(a, c, b, k, r);
    assert s[i..|a|] == a[i..];
    SplitFromChain(s, i, |a|, r, a[i..], SplitFrom(b, k));
  }

  /** The case where the piece starting at `i` runs to the end of `a`. */
  lemma SplitFromConcatLast(a: string, c: char, b: string, i: nat)
    requires IsSeparator(c) && i <= |a| && TokenEnd(a, i) == |a|
    ensures CleanTokens(SplitFrom(a + [c] + b, i)) == CleanTokens(SplitFrom(a, i)) + CleanTokens(Split(b))
  {
    PiecesLast(a, c, b, i);
    SplitFromFinal(a, i);
    CleanTokensAppend([a[i..]], SplitFrom(b, RunEnd(b, 0)));
    SplitSkip(b);
  }

  lemma PiecesRunToEnd(a: string, c: char, b: string, i: nat)
    requires IsSeparator(c) && i <= |a| && TokenEnd(a, i) < |a| && RunEnd(a, TokenEnd(a, i)) == |a|
    ensures var e := TokenEnd(a, i);
      SplitFrom(a + [c] + b, i) == [a[i..e]] + SplitFrom(b, RunEnd(b, 0))
      && SplitFrom(a, i) == [a[i..e]] + [[]]
  {
    var s := a + [c] + b;
    var e := TokenEnd(a, i);
    TokenEndConcat(a, c, b, i);
    assert s[i..e] == a[i..e];
    RunEndConcat(a, c, b, e);
    var r, k := RunEnd(s, e), RunEnd(b, 0);
    TailShift(a, c, b, k, r);
    SplitFromChain(s, i, e, r, a[i..e], SplitFrom(b, k));
    assert a[|a|..] == [];
    SplitFromFinal(a, |a|);
    SplitFromChain(a, i, e, |a|, a[i..e], [[]]);
  }

  /** The case where the separator run after the piece at `i` ends at the end of `a`. */
  lemma SplitFromConcatRunToEnd(a: string, c: char, b: string, i: nat)
    requires IsSeparator(c) && i <= |a| && TokenEnd(a, i) < |a| && RunEnd(a, TokenEnd(a, i)) == |a|
    ensures CleanTokens(SplitFrom(a + [c] + b, i)) == CleanTokens(SplitFrom(a, i)) + CleanTokens(Split(b))
  {
    var piece := a[i..TokenEnd(a, i)];
    PiecesRunToEnd(a, c, b, i);
    CleanTokensAppend([piece], SplitFrom(b, RunEnd(b, 0)));
    CleanTokensEmptyLast([piece]);
    SplitSkip(b);
  }

  /** The case where the next piece after `i` starts inside `a`: one step of the induction. */
  lemma SplitFromConcatStep(a: string, c: char, b: string, i: nat)
    requires IsSeparator(c) && i <= |a| && TokenEnd(a, i) < |a| && RunEnd(a, TokenEnd(a, i)) < |a|
    ensures var r := RunEnd(a, TokenEnd(a, i));
      CleanTokens(SplitFrom(a + [c] + b, i)) == CleanTokens([a[i..TokenEnd(a, i)]]) + CleanTokens(SplitFrom(a + [c] + b, r))
      && CleanTokens(SplitFrom(a, i)) == CleanTokens([a[i..TokenEnd(a, i)]]) + CleanTokens(SplitFrom(a, r))
  {
    var s := a + [c] + b;
    var e := TokenEnd(a, i);
    TokenEndConcat(a, c, b, i);
    assert s[i..e] == a[i..e];
    RunEndConcat(a, c, b, e);
    var r := RunEnd(a, e);
    assert SplitFrom(s, i) == [a[i..e]] + SplitFrom(s, r);
    CleanTokensAppend([a[i..e]], SplitFrom(s, r));
    CleanTokensAppend([a[i..e]], SplitFrom(a, r));
  }

  lemma {:induction false} SplitFromConcat(a: string, c: char, b: string, i: nat)
    requires IsSeparator(c) && i <= |a|
    ensures CleanTokens(SplitFrom(a + [c] + b, i)) == CleanTokens(SplitFrom(a, i)) + CleanTokens(Split(b))
    decreases |a| - i
  {
    var e := TokenEnd(a, i);
    if e == |a| {
      SplitFromConcatLast(a, c, b, i);
    } else if RunEnd(a, e) == |a| {
      SplitFromConcatRunToEnd(a, c, b, i);
    } else {
      var r := RunEnd(a, e);
      SplitFromConcatStep(a, c, b, i);
      SplitFromConcat(a, c, b, r);
      AppendChain(CleanTokens(SplitFrom(a + [c] + b, i)), CleanTokens([a[i..e]]), CleanTokens(SplitFrom(a + [c] + b, r)),
                  CleanTokens(SplitFrom(a, r)), CleanTokens(Split(b)), CleanTokens(SplitFrom(a, i)));
    }
  }

  /** Regrouping the three equations of one induction step. */
  lemma AppendChain(whole: seq<string>, head: seq<string>, tail: seq<string>, left: seq<string>, right: seq<string>, front: seq<string>)
    requires whole == head + tail && tail == left + right && front == head + left
    ensures whole == front + right
  {
  }

  /** Text around one separator parses as the two sides parsed in turn. */
  lemma ParseNamesConcat(a: string, c: char, b: string)
    requires IsSeparator(c)
    ensures ParseNames(a + [c] + b) == ParseNames(a) + ParseNames(b)
  {
    SplitFromConcat(a, c, b, 0);
  }

  /** Separator-free text parses to its trimmed self, or to nothing when that is empty. */
  lemma ParseNamesField(s: string)
    requires NoSeparator(s)
    ensures ParseNames(s) == if Trim(s) == [] then [] else [Trim(s)]
  {
    TokenEndFull(s, 0);
    assert s[0..] == s;
    CleanTokensSingle(s);
  }

  predicate AllWs(s: string)
  {
    forall k :: 0 <= k < |s| ==> IsWs(s[k])
  }

  /** `trim` removes exactly the white-space padding around a clean name. */
  lemma TrimPadded(lead: string, x: string, trail: string)
    requires AllWs(lead) && AllWs(trail) && IsCleanName(x)
    ensures Trim(lead + x + trail) == x
  {
    var s := lead + x + trail;
    assert s[|lead|] == x[0];
    assert s[|lead| + |x| - 1] == x[|x| - 1];
    TrimStartFrom(s, 0, |lead|);
    TrimEndFrom(s, |lead|, |s|, |lead| + |x|);
    assert s[|lead|..|lead| + |x|] == x;
  }

  lemma {:induction false} TrimStartFrom(s: string, i: nat, a: nat)
    requires i <= a < |s| && !IsWs(s[a]) && forall k :: i <= k < a ==> IsWs(s[k])
    ensures TrimStartIndex(s, i) == a
    decreases a - i
  {
    if i < a {
      TrimStartFrom(s, i + 1, a);
    }
  }

  lemma {:induction false} TrimEndFrom(s: string, lo: nat, j: nat, b: nat)
    requires lo < b <= j <= |s| && !IsWs(s[b - 1]) && forall k :: b <= k < j ==> IsWs(s[k])
    ensures TrimEndIndex(s, lo, j) == b
    decreases j
  {
    if b < j {
      TrimEndFrom(s, lo, j - 1, b);
    }
  }

  /** A separator-free field followed by a separator contributes its trimmed text, if any. */
  lemma ParseFieldThen(f: string, c: char, rest: string)
    requires NoSeparator(f) && IsSeparator(c)
    ensures ParseNames(f + [c] + rest) == (if Trim(f) == [] then [] else [Trim(f)]) + ParseNames(rest)
  {
    ParseNamesConcat(f, c, rest);
    ParseNamesField(f);
  }

  /** A clean name, white space around it allowed, then a separator: the name and then the rest. */
  lemma ParsePaddedThen(lead: string, x: string, trail: string, c: char, rest: string)
    requires AllWs(lead) && AllWs(trail) && NoSeparator(lead) && NoSeparator(trail)
    requires IsCleanName(x) && IsSeparator(c)
    ensures ParseNames(lead + x + trail + [c] + rest) == [x] + ParseNames(rest)
  {
    TrimPadded(lead, x, trail);
    PaddedNoSeparator(lead, x, trail);
    ParseFieldThen(lead + x + trail, c, rest);
  }

  /** Text without separators, put together, has none. */
  lemma PaddedNoSeparator(lead: string, x: string, trail: string)
    requires NoSeparator(lead) && NoSeparator(x) && NoSeparator(trail)
    ensures NoSeparator(lead + x + trail)
  {
    var f := lead + x + trail;
    forall k | 0 <= k < |f| ensures !IsSeparator(f[k]) {
      if k < |lead| {
        assert f[k] == lead[k];
      } else if k < |lead| + |x| {
        assert f[k] == x[k - |lead|];
      } else {
        assert f[k] == trail[k - |lead| - |x|];
      }
    }
  }

  /**
   * Commas, newlines, runs of them and padding, in the shape of
   * `"Ann, Bob\nCarol,,  Dan "`: the four names come out in order.
   */
  lemma ParseNamesMixedSeparators(a: string, b: string, c: string, d: string)
    requires IsCleanName(a) && IsCleanName(b) && IsCleanName(c) && IsCleanName(d)
    ensures ParseNames(a + ", " + b + "\n" + c + ",,  " + d + " ") == [a, b, c, d]
  {
    var r0 := " " + b + "\n" + c + ",,  " + d + " ";
    assert a + ", " + b + "\n" + c + ",,  " + d + " " == [] + a + [] + [','] + r0;
    ParsePaddedThen([], a, [], ',', r0);
    MixedFromSecond(b, c, d);
  }

  lemma MixedFromSecond(b: string, c: string, d: string)
    requires IsCleanName(b) && IsCleanName(c) && IsCleanName(d)
    ensures ParseNames(" " + b + "\n" + c + ",,  " + d + " ") == [b, c, d]
  {
    var r1 := c + ",,  " + d + " ";
    assert " " + b + "\n" + c + ",,  " + d + " " == " " + b + [] + ['\n'] + r1;
    ParsePaddedThen(" ", b, [], '\n', r1);
    MixedFromThird(c, d);
  }

  lemma MixedFromThird(c: string, d: string)
    requires IsCleanName(c) && IsCleanName(d)
    ensures ParseNames(c + ",,  " + d + " ") == [c, d]
  {
    var r2 := ",  " + d + " ";
    assert c + ",,  " + d + " " == [] + c + [] + [','] + r2;
    ParsePaddedThen([], c, [], ',', r2);
    MixedLast(d);
  }

  lemma MixedLast(d: string)
    requires IsCleanName(d)
    ensures ParseNames(",  " + d + " ") == [d]
  {
    var padD := "  " + d + " ";
    assert ",  " + d + " " == [] + [','] + padD;
    assert Trim([]) == [];
    ParseFieldThen([], ',', padD);
    TrimPadded("  ", d, " ");
    PaddedNoSeparator("  ", d, " ");
    ParseNamesField(padD);
  }

  lemma {:induction false} TokenEndFull(s: string, i: nat)
    requires i <= |s| && NoSeparator(s)
    ensures TokenEnd(s, i) == |s|
    decreases |s| - i
  {
    if i < |s| {
      TokenEndFull(s, i + 1);
    }
  }

  /** A name that is already clean is left as it is by `trim`. */
  lemma TrimClean(s: string)
    requires IsCleanName(s)
    ensures Trim(s) == s
  {
    assert TrimStartIndex(s, 0) == 0;
    assert TrimEndIndex(s, 0, |s|) == |s|;
    assert s[0..|s|] == s;
  }

  /** Clean names joined by newlines parse back to the same names. */
  lemma {:induction false} ParseNamesJoin(names: seq<string>)
    requires forall k :: 0 <= k < |names| ==> IsCleanName(names[k])
    ensures ParseNames(JoinLines(names)) == names
    decreases |names|
  {
    if names == [] {
      assert ParseNames("") == [] by {
        ParseNamesField("");
        assert Trim("") == [];
      }
    } else {
      TrimClean(names[0]);
      ParseNamesField(names[0]);
      if |names| > 1 {
        ParseNamesJoin(names[1..]);
        ParseNamesConcat(names[0], '\n', JoinLines(names[1..]));
        assert names == [names[0]] + names[1..];
      }
    }
  }

  // ------------------------------------------------------------------
  // MOCK_NAMES
  // ------------------------------------------------------------------

  /** The twenty demonstration names. */
  const MockNames: seq<string> := [
    "王小明", "李美玲", "張大衛", "林志強", "陳淑芬",
    "黃金龍", "吳欣怡", "周杰倫", "蔡依林", "徐若瑄",
    "彭于晏", "桂綸鎂", "柯佳嬿", "許光漢", "賈靜雯",
    "謝盈萱", "邱澤", "曾敬驊", "陳昊森", "李沐"
  ]

  /** Every character lies in the CJK Unified Ideographs block. */
  predicate AllIdeographs(s: string)
  {
    forall j :: 0 <= j < |s| ==> '\U{4E00}' <= s[j] <= '\U{9FFF}'
  }

  lemma IdeographsClean(s: string)
    requires s != [] && AllIdeographs(s)
    ensures IsCleanName(s)
  {
    assert '\U{4E00}' <= s[0] <= '\U{9FFF}';
    assert '\U{4E00}' <= s[|s| - 1] <= '\U{9FFF}';
  }

  /** The demonstration names are clean. */
  lemma MockNamesClean()
    ensures |MockNames| == 20
    ensures forall k :: 0 <= k < |MockNames| ==> IsCleanName(MockNames[k])
  {
    forall k | 0 <= k < |MockNames| ensures IsCleanName(MockNames[k]) {
      IdeographsClean(MockNames[k]);
    }
  }

  // ------------------------------------------------------------------
  // getDuplicateIds
  // ------------------------------------------------------------------

  /** `nameCounts.get(x) || 0` */
  function Lookup(m: map<string, nat>, x: string): nat
  {
    if x in m then m[x] else 0
  }

  /** The ids among `ps[..i]` of entries whose name occurs more than once in `names`. */
  function DuplicatesAmong(ps: seq<Participant>, names: seq<string>, i: nat): (r: set<string>)
    requires i <= |ps|
  {
    if i == 0 then {}
    else DuplicatesAmong(ps, names, i - 1) + (if Count(names, ps[i - 1].name) > 1 then {ps[i - 1].id} else {})
  }

  /** The ids `getDuplicateIds` returns: those of entries sharing their name with another entry. */
  function DuplicateIds(ps: seq<Participant>): (r: set<string>)
  {
    DuplicatesAmong(ps, Names(ps), |ps|)
  }

  lemma {:induction false} DuplicatesAmongSpec(ps: seq<Participant>, names: seq<string>, i: nat, id: string)
    requires i <= |ps|
    ensures id in DuplicatesAmong(ps, names, i) <==> exists k :: 0 <= k < i && ps[k].id == id && Count(names, ps[k].name) > 1
  {
    if i > 0 {
      DuplicatesAmongSpec(ps, names, i - 1, id);
    }
  }

  /**
   * An id is reported exactly when its entry shares its name with an entry
   * at another position.
   */
  lemma DuplicateIdsSpec(ps: seq<Participant>, id: string)
    ensures id in DuplicateIds(ps) <==>
      exists k, l :: 0 <= k < |ps| && 0 <= l < |ps| && k != l && ps[k].id == id && ps[l].name == ps[k].name
  {
    var names := Names(ps);
    DuplicatesAmongSpec(ps, names, |ps|, id);
    if id in DuplicateIds(ps) {
      var k :| 0 <= k < |ps| && ps[k].id == id && Count(names, ps[k].name) > 1;
      CountAtLeastTwo(names, ps[k].name);
      var i, j :| 0 <= i < j < |names| && names[i] == ps[k].name && names[j] == ps[k].name;
      var l := if i == k then j else i;
      assert ps[l].name == ps[k].name;
    }
    if exists k, l :: 0 <= k < |ps| && 0 <= l < |ps| && k != l && ps[k].id == id && ps[l].name == ps[k].name {
      var k, l :| 0 <= k < |ps| && 0 <= l < |ps| && k != l && ps[k].id == id && ps[l].name == ps[k].name;
      CountAtLeastTwo(names, ps[k].name);
      if k < l {
        assert names[k] == ps[k].name && names[l] == ps[k].name;
      } else {
        assert names[l] == ps[k].name && names[k] == ps[k].name;
      }
    }
  }

  /** Nothing is reported exactly when all names are distinct. */
  lemma DuplicateIdsEmptyIff(ps: seq<Participant>)
    ensures DuplicateIds(ps) == {} <==> Distinct(Names(ps))
  {
    var names := Names(ps);
    if DuplicateIds(ps) == {} && !Distinct(names) {
      var k, l :| 0 <= k < l < |names| && names[k] == names[l];
      DuplicateIdsSpec(ps, ps[k].id);
      assert false;
    }
    if Distinct(names) && DuplicateIds(ps) != {} {
      var id :| id in DuplicateIds(ps);
      DuplicateIdsSpec(ps, id);
    }
  }

  /**
   * `getDuplicateIds`: one pass counts every name into a map, a second pass
   * collects the ids whose name was counted more than once.
   */
  method GetDuplicateIds(ps: seq<Participant>) returns (duplicateIds: set<string>)
    ensures duplicateIds == DuplicateIds(ps)
  {
    ghost var names := Names(ps);
    var nameCounts: map<string, nat> := map[];
    var i := 0;
    while i < |ps|
      invariant 0 <= i <= |ps|
      invariant forall x :: Lookup(nameCounts, x) == Count(names[..i], x)
    {
      ghost var before := nameCounts;
      nameCounts := nameCounts[ps[i].name := Lookup(nameCounts, ps[i].name) + 1];
      forall x ensures Lookup(nameCounts, x) == Count(names[..i + 1], x) {
        CountStep(names, i, x);
        assert Lookup(nameCounts, x) == Lookup(before, x) + (if names[i] == x then 1 else 0);
      }
      i := i + 1;
    }
    assert names[..|ps|] == names;
    duplicateIds := {};
    i := 0;
    while i < |ps|
      invariant 0 <= i <= |ps|
      invariant duplicateIds == DuplicatesAmong(ps, names, i)
    {
      assert Lookup(nameCounts, ps[i].name) == Count(names, ps[i].name);
      if Lookup(nameCounts, ps[i].name) > 1 {
        duplicateIds := duplicateIds + {ps[i].id};
      }
      i := i + 1;
    }
  }

  lemma CountStep(names: seq<string>, i: nat, x: string)
    requires i < |names|
    ensures Count(names[..i + 1], x) == Count(names[..i], x) + (if names[i] == x then 1 else 0)
  {
    assert names[..i + 1] == names[..i] + [names[i]];
    CountSnoc(names[..i], names[i], x);
  }

  // ------------------------------------------------------------------
  // exportGroupsToCSV / exportParticipantsToCSV: the file text
  // ------------------------------------------------------------------

  /** The byte-order mark and header line of the groups file. */
  const GroupsHeader: string := "\U{FEFF}組別名稱,成員姓名\n"

  /** The byte-order mark and header line of the roster file. */
  const ParticipantsHeader: string := "\U{FEFF}姓名\n"

  /** `lines.join("\n")` */
  function JoinLines(lines: seq<string>): string
    decreases |lines|
  {
    if lines == [] then ""
    else if |lines| == 1 then lines[0]
    else lines[0] + "\n" + JoinLines(lines[1..])
  }

  /** `group.members.map(member => `${group.name},${member}`)` */
  function MemberRows(g: Group): seq<string>
  {
    seq(|g.members|, k requires 0 <= k < |g.members| => g.name + "," + g.members[k])
  }

  /** `groups.flatMap(group => MemberRows(group))` */
  function GroupRows(groups: seq<Group>): seq<string>
  {
    if groups == [] then [] else MemberRows(groups[0]) + GroupRows(groups[1..])
  }

  /**
   * The text `exportGroupsToCSV` writes: the header, then the rows, which
   * read back one per line when there is at least one and none holds a newline.
   */
  function GroupsCsv(groups: seq<Group>): (csv: string)
    ensures |csv| >= |GroupsHeader| && csv[..|GroupsHeader|] == GroupsHeader
    ensures GroupRows(groups) != [] && (forall k :: 0 <= k < |GroupRows(groups)| ==> NoNewline(GroupRows(groups)[k])) ==>
      SplitLines(csv[|GroupsHeader|..]) == GroupRows(groups)
  {
    var rows := GroupRows(groups);
    var csv := GroupsHeader + JoinLines(rows);
    assert csv[..|GroupsHeader|] == GroupsHeader && csv[|GroupsHeader|..] == JoinLines(rows);
    if rows != [] && (forall k :: 0 <= k < |rows| ==> NoNewline(rows[k])) then SplitJoinLines(rows); csv else csv
  }

  /**
   * The text `exportParticipantsToCSV` writes: the header, then the names,
   * which read back one per line when there is at least one and none holds a newline.
   */
  function ParticipantsCsv(ps: seq<Participant>): (csv: string)
    ensures |csv| >= |ParticipantsHeader| && csv[..|ParticipantsHeader|] == ParticipantsHeader
    ensures ps != [] && (forall k :: 0 <= k < |ps| ==> NoNewline(ps[k].name)) ==>
      SplitLines(csv[|ParticipantsHeader|..]) == Names(ps)
  {
    var names := Names(ps);
    var csv := ParticipantsHeader + JoinLines(names);
    assert csv[..|ParticipantsHeader|] == ParticipantsHeader && csv[|ParticipantsHeader|..] == JoinLines(names);
    if ps != [] && (forall k :: 0 <= k < |ps| ==> NoNewline(ps[k].name)) then SplitJoinLines(names); csv else csv
  }

  /** One row per member: the row count is the member total. */
  lemma {:induction false} GroupRowsCount(groups: seq<Group>)
    ensures |GroupRows(groups)| == |AllMembers(groups)|
    decreases |groups|
  {
    if groups != [] {
      GroupRowsCount(groups[1..]);
    }
  }

  /** Rows follow the group order: the rows of a concatenation are the rows of each part in turn. */
  lemma {:induction false} GroupRowsAppend(xs: seq<Group>, ys: seq<Group>)
    ensures GroupRows(xs + ys) == GroupRows(xs) + GroupRows(ys)
    decreases |xs|
  {
    if xs == [] {
      assert xs + ys == ys;
    } else {
      assert (xs + ys)[1..] == xs[1..] + ys;
      GroupRowsAppend(xs[1..], ys);
    }
  }

  /** Within a group, row `k` is the group's name, a comma and member `k`. */
  lemma GroupRowsSingle(g: Group)
    ensures |GroupRows([g])| == |g.members|
    ensures forall k :: 0 <= k < |g.members| ==> GroupRows([g])[k] == g.name + [','] + g.members[k]
  {
    assert [g][1..] == [];
    assert GroupRows([g]) == MemberRows(g) + [];
  }

  // A reference reading of the file text: `text.split("\n")`.

  function LineEnd(s: string, i: nat): (e: nat)
    requires i <= |s|
    ensures i <= e <= |s| && (e < |s| ==> s[e] == '\n')
    decreases |s| - i
  {
    if i < |s| && s[i] != '\n' then LineEnd(s, i + 1) else i
  }

  /** `s.split("\n")`: the pieces between single newlines (always at least one). */
  function SplitLines(s: string): seq<string>
    decreases |s|
  {
    var e := LineEnd(s, 0);
    if e == |s| then [s] else [s[..e]] + SplitLines(s[e + 1..])
  }

  predicate NoNewline(s: string)
  {
    forall k :: 0 <= k < |s| ==> s[k] != '\n'
  }

  lemma {:induction false} LineEndBefore(x: string, y: string, i: nat)
    requires i <= |x| && NoNewline(x) && (y == [] || y[0] == '\n')
    ensures LineEnd(x + y, i) == |x|
    decreases |x| - i
  {
    var s := x + y;
    if i < |x| {
      assert s[i] == x[i];
      LineEndBefore(x, y, i + 1);
    } else if y != [] {
      assert s[i] == y[0];
    }
  }

  /** Lines free of newlines are recovered from their join, the empty list excepted. */
  lemma {:induction false} SplitJoinLines(lines: seq<string>)
    requires lines != [] && forall k :: 0 <= k < |lines| ==> NoNewline(lines[k])
    ensures SplitLines(JoinLines(lines)) == lines
    decreases |lines|
  {
    var l := lines[0];
    if |lines| == 1 {
      LineEndBefore(l, [], 0);
      assert l + [] == l;
    } else {
      var rest := JoinLines(lines[1..]);
      var s := l + "\n" + rest;
      assert JoinLines(lines) == s;
      assert s == l + ("\n" + rest);
      LineEndBefore(l, "\n" + rest, 0);
      var e := LineEnd(s, 0);
      assert SplitLines(s) == [s[..e]] + SplitLines(s[e + 1..]);
      assert s[..e] == l;
      assert s[e + 1..] == rest;
      SplitJoinLines(lines[1..]);
      assert lines == [l] + lines[1..];
    }
  }

  /** The empty list exports no row at all: its join reads back as one empty line. */
  lemma SplitJoinEmpty()
    ensures SplitLines(JoinLines([])) == [""]
  {
  }

  /** The roster file of `王小明, 李美玲` reads, after its byte-order mark, `姓名`, `王小明`, `李美玲` on three lines. */
  lemma RosterCsvExample(id1: string, id2: string)
    ensures ParticipantsCsv([Participant(id1, "王小明"), Participant(id2, "李美玲")])[1..] == "姓名\n王小明\n李美玲"
  {
    var ps := [Participant(id1, "王小明"), Participant(id2, "李美玲")];
    assert Names(ps) == ["王小明", "李美玲"];
    assert ["王小明", "李美玲"][1..] == ["李美玲"];
  }

  /**
   * Fields are not quoted: a comma moved from a group name into a member name
   * gives the same file, so the two group lists cannot be told apart in it.
   */
  lemma GroupsCsvCommaAmbiguity(id1: string, id2: string)
    ensures GroupsCsv([Group(id1, "A,B", ["C"])]) == GroupsCsv([Group(id2, "A", ["B,C"])])
    ensures [Group(id1, "A,B", ["C"])] != [Group(id2, "A", ["B,C"])]
  {
    var g1, g2 := Group(id1, "A,B", ["C"]), Group(id2, "A", ["B,C"]);
    GroupRowsSingle(g1);
    GroupRowsSingle(g2);
    assert "A,B" + [','] + "C" == "A,B,C" == "A" + [','] + "B,C";
    assert GroupRows([g1]) == ["A,B,C"] == GroupRows([g2]);
  }

  /**
   * Uploading a roster file back parses its header line too: the byte-order
   * mark is white space to `trim`, so `姓名` comes back as a name in front of
   * the roster's names.
   */
  lemma ParseRosterCsv(ps: seq<Participant>)
    requires forall k :: 0 <= k < |ps| ==> IsCleanName(ps[k].name)
    ensures ParseNames(ParticipantsCsv(ps)) == ["姓名"] + Names(ps)
  {
    var head := "\U{FEFF}姓名";
    assert ParticipantsHeader == head + ['\n'];
    ParseNamesConcat(head, '\n', JoinLines(Names(ps)));
    ParseNamesJoin(Names(ps));
    ParseHeaderName();
  }

  /** The roster header line parses to the single name `姓名`. */
  lemma ParseHeaderName()
    ensures ParseNames("\U{FEFF}姓名") == ["姓名"]
  {
    var head := "\U{FEFF}姓名";
    ParseNamesField(head);
    assert TrimStartIndex(head, 0) == 1;
    assert TrimEndIndex(head, 1, |head|) == |head|;
    assert head[1..|head|] == "姓名";
  }
}

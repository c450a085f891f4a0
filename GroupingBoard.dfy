/**
 * The grouping screen of components/GroupingBoard.tsx: its state (the last
 * group list, the group size, the busy flag and the naming theme) and the
 * grouping run, which shuffles the roster's names, cuts them into chunks of
 * the group size and labels each chunk from the naming provider, falling back
 * to a numbered label.
 *
 * The naming provider (services/geminiService.ts) is a parameter: any function
 * from a requested count and a theme to a list of strings of any length.
 * Group ids come from a caller-supplied stream, `newId(i)` for group `i`.
 */
module GroupingBoard {
  import opened Types
  import opened Seqs
  import opened Helpers

  // ------------------------------------------------------------------
  // Arithmetic and text helpers, with JavaScript's meaning
  // ------------------------------------------------------------------

  /** `Math.ceil(n / g)` for a non-zero integer `g` (the quotient is exact in rationals). */
  function CeilDiv(n: nat, g: int): (c: int)
    requires g != 0
    ensures g > 0 ==> c >= 0 && (n > 0 ==> c >= 1)
    ensures g < 0 ==> c <= 0
  {
    if g > 0 then (n + g - 1) / g else -(n / -g)
  }

  /** `i * g`, written as repeated addition so that reasoning about chunk bounds stays linear. */
  function Mul(i: nat, g: int): int
  {
    if i == 0 then 0 else Mul(i - 1, g) + g
  }

  lemma {:induction false} MulIs(i: nat, g: int)
    ensures Mul(i, g) == i * g
  {
    if i > 0 {
      MulIs(i - 1, g);
      assert (i - 1) * g + g == i * g;
    }
  }

  lemma {:induction false} MulMono(a: nat, b: nat, g: int)
    requires a <= b && g >= 0
    ensures Mul(a, g) <= Mul(b, g)
    decreases b - a
  {
    if a < b {
      MulMono(a, b - 1, g);
    }
  }

  /** For a positive divisor, `c = ceil(n / g)` is the least `c` with `n <= c * g`. */
  lemma CeilDivSpec(n: nat, g: int)
    requires g > 0
    ensures var c := CeilDiv(n, g); n <= Mul(c, g) && (c >= 1 ==> Mul(c - 1, g) < n)
  {
    var c := CeilDiv(n, g);
    var r := (n + g - 1) % g;
    assert n + g - 1 == c * g + r && 0 <= r < g;
    assert (c - 1) * g == c * g - g;
    MulIs(c, g);
    if c >= 1 {
      MulIs(c - 1, g);
    }
  }

  /**
   * Where chunk `i` of a run over `n` names lies: it starts inside the list,
   * and it is full unless it is the last one.
   */
  lemma ChunkBounds(n: nat, g: int, i: nat)
    requires g >= 1 && i < CeilDiv(n, g)
    ensures 0 <= Mul(i, g) < n && Mul(i + 1, g) == Mul(i, g) + g
    ensures i + 1 < CeilDiv(n, g) ==> Mul(i + 1, g) < n
    ensures i + 1 == CeilDiv(n, g) ==> n <= Mul(i + 1, g)
  {
    var c := CeilDiv(n, g);
    CeilDivSpec(n, g);
    MulMono(0, i, g);
    MulMono(i, c - 1, g);
    if i + 1 < c {
      MulMono(i + 1, c - 1, g);
    }
  }

  /**
   * An index argument of `Array.prototype.slice`, resolved against the
   * length: an index inside the list is kept, one past the end is clamped.
   */
  function SliceIndex(x: int, len: nat): (r: nat)
    ensures r <= len
    ensures 0 <= x <= len ==> r == x
    ensures x > len ==> r == len
  {
    if x < 0 then (if len + x < 0 then 0 else len + x) else if x > len then len else x
  }

  /** `s.slice(start, end)` */
  function Slice<T>(s: seq<T>, start: int, end: int): (r: seq<T>)
    ensures 0 <= start <= end <= |s| ==> r == s[start..end]
    ensures 0 <= start <= |s| <= end ==> r == s[start..]
  {
    var a, b := SliceIndex(start, |s|), SliceIndex(end, |s|);
    if a < b then s[a..b] else []
  }

  function Digit(d: nat): (c: char)
    requires d < 10
    ensures '0' <= c <= '9'
  {
    (('0' as int) + d) as char
  }

  /** The decimal text of `n`, as a template literal prints it. */
  function NatToString(n: nat): (s: string)
    ensures |s| >= 1
    ensures forall k :: 0 <= k < |s| ==> '0' <= s[k] <= '9'
    decreases n
  {
    if n < 10 then [Digit(n)] else NatToString(n / 10) + [Digit(n % 10)]
  }

  /** Different numbers print differently. */
  lemma {:induction false} NatToStringInjective(n: nat, m: nat)
    requires NatToString(n) == NatToString(m)
    ensures n == m
    decreases n
  {
    var s := NatToString(n);
    if n < 10 && m < 10 {
      assert s[0] == Digit(n) && s[0] == Digit(m);
    } else if n >= 10 && m >= 10 {
      var p, q := NatToString(n / 10), NatToString(m / 10);
      assert s == p + [Digit(n % 10)] == q + [Digit(m % 10)];
      assert s[|s| - 1] == Digit(n % 10) == Digit(m % 10);
      assert p == s[..|s| - 1] == q;
      NatToStringInjective(n / 10, m / 10);
    }
  }

  /** `` `隊伍 ${i + 1}` ``: the word `隊伍`, a space, then decimal digits only. */
  function FallbackName(i: nat): (name: string)
    ensures |name| >= 4 && name[..3] == "隊伍 "
    ensures forall k :: 3 <= k < |name| ==> '0' <= name[k] <= '9'
  {
    var digits := NatToString(i + 1);
    var name := "隊伍 " + digits;
    assert name[..3] == "隊伍 " && forall k :: 3 <= k < |name| ==> name[k] == digits[k - 3];
    name
  }

  /** Fallback labels of different groups differ. */
  lemma FallbackNamesDistinct(i: nat, j: nat)
    requires i != j
    ensures FallbackName(i) != FallbackName(j)
  {
    if FallbackName(i) == FallbackName(j) {
      assert FallbackName(i)[3..] == NatToString(i + 1);
      assert FallbackName(j)[3..] == NatToString(j + 1);
      NatToStringInjective(i + 1, j + 1);
    }
  }

  /** `teamNames[i] || `隊伍 ${i + 1}``: a missing or empty provider entry falls back. */
  function GroupName(teamNames: seq<string>, i: nat): (name: string)
    ensures i < |teamNames| && teamNames[i] != [] ==> name == teamNames[i]
    ensures i >= |teamNames| || teamNames[i] == [] ==> name == FallbackName(i)
  {
    if i < |teamNames| && teamNames[i] != [] then teamNames[i] else FallbackName(i)
  }

  // ------------------------------------------------------------------
  // The groups of one run
  // ------------------------------------------------------------------

  /** Group `i` of a run over `shuffled` with group size `g`. */
  function GroupAt(shuffled: seq<string>, g: int, teamNames: seq<string>, newId: nat -> string, i: nat): Group
  {
    Group(newId(i), GroupName(teamNames, i), Slice(shuffled, Mul(i, g), Mul(i + 1, g)))
  }

  /** The `count` groups the loop pushes (none when `count <= 0`). */
  function MakeGroups(shuffled: seq<string>, g: int, count: int, teamNames: seq<string>, newId: nat -> string): seq<Group>
  {
    seq(if count < 0 then 0 else count, i requires 0 <= i => GroupAt(shuffled, g, teamNames, newId, i))
  }

  /** The groups of a run over `shuffled`, with the provider asked for `ceil(n / g)` names. */
  function GroupRun(shuffled: seq<string>, g: int, theme: string,
                    provider: (int, string) -> seq<string>, newId: nat -> string): (groups: seq<Group>)
    requires g != 0
    ensures g > 0 ==> |groups| == CeilDiv(|shuffled|, g)
    ensures g < 0 ==> groups == []
    ensures forall i :: 0 <= i < |groups| ==> groups[i].id == newId(i)
  {
    var count := CeilDiv(|shuffled|, g);
    MakeGroups(shuffled, g, count, provider(count, theme), newId)
  }

  /** The groups of a non-empty run partition its names: in order, they are exactly the shuffled list. */
  lemma {:induction false} MembersFrom(shuffled: seq<string>, g: int, teamNames: seq<string>, newId: nat -> string, i: nat)
    requires g >= 1 && i <= CeilDiv(|shuffled|, g)
    ensures var groups := MakeGroups(shuffled, g, CeilDiv(|shuffled|, g), teamNames, newId);
      AllMembers(groups[i..]) == shuffled[SliceIndex(Mul(i, g), |shuffled|)..]
    decreases CeilDiv(|shuffled|, g) - i
  {
    var count := CeilDiv(|shuffled|, g);
    var groups := MakeGroups(shuffled, g, count, teamNames, newId);
    var n := |shuffled|;
    if i == count {
      assert groups[i..] == [];
      CeilDivSpec(n, g);
      assert SliceIndex(Mul(i, g), n) == n;
    } else {
      ChunkBounds(n, g, i);
      AllMembersTail(groups, i);
      MembersFrom(shuffled, g, teamNames, newId, i + 1);
      ChunkMembers(shuffled, g, teamNames, newId, i);
      var lo, mid := Mul(i, g), SliceIndex(Mul(i + 1, g), n);
      assert SliceIndex(lo, n) == lo;
      assert shuffled[lo..] == shuffled[lo..mid] + shuffled[mid..];
    }
  }

  lemma AllMembersTail(groups: seq<Group>, i: nat)
    requires i < |groups|
    ensures AllMembers(groups[i..]) == groups[i].members + AllMembers(groups[i + 1..])
  {
    var tail := groups[i..];
    assert tail[0] == groups[i] && tail[1..] == groups[i + 1..];
  }

  /** Chunk `i` is the slice of the shuffled list from `i * g`, cut at the end of the list. */
  lemma ChunkMembers(shuffled: seq<string>, g: int, teamNames: seq<string>, newId: nat -> string, i: nat)
    requires g >= 1 && i < CeilDiv(|shuffled|, g)
    ensures 0 <= Mul(i, g) <= SliceIndex(Mul(i + 1, g), |shuffled|)
    ensures MakeGroups(shuffled, g, CeilDiv(|shuffled|, g), teamNames, newId)[i].members
      == shuffled[Mul(i, g)..SliceIndex(Mul(i + 1, g), |shuffled|)]
  {
    ChunkBounds(|shuffled|, g, i);
  }

  /** Concatenating all groups' members in order gives the shuffled list. */
  lemma GroupingPartitions(shuffled: seq<string>, g: int, theme: string,
                           provider: (int, string) -> seq<string>, newId: nat -> string)
    requires g >= 1
    ensures |GroupRun(shuffled, g, theme, provider, newId)| == CeilDiv(|shuffled|, g)
    ensures AllMembers(GroupRun(shuffled, g, theme, provider, newId)) == shuffled
  {
    var count := CeilDiv(|shuffled|, g);
    var groups := GroupRun(shuffled, g, theme, provider, newId);
    if count > 0 {
      MembersFrom(shuffled, g, provider(count, theme), newId, 0);
      assert groups[0..] == groups;
      assert SliceIndex(Mul(0, g), |shuffled|) == 0;
    } else {
      assert shuffled == [];
    }
  }

  /** Every group but the last is full; the last holds between one and `g` names. */
  lemma GroupingSizes(shuffled: seq<string>, g: int, theme: string,
                      provider: (int, string) -> seq<string>, newId: nat -> string)
    requires g >= 1 && shuffled != []
    ensures var groups := GroupRun(shuffled, g, theme, provider, newId);
      |groups| >= 1 &&
      (forall i :: 0 <= i < |groups| - 1 ==> |groups[i].members| == g) &&
      1 <= |groups[|groups| - 1].members| <= g
  {
    var groups := GroupRun(shuffled, g, theme, provider, newId);
    var n := |shuffled|;
    forall i | 0 <= i < |groups| - 1 ensures |groups[i].members| == g {
      ChunkBounds(n, g, i);
    }
    ChunkBounds(n, g, |groups| - 1);
  }

  /** Group `i` is named by provider entry `i` when there is a non-empty one, else by its fallback label. */
  lemma GroupingNames(shuffled: seq<string>, g: int, theme: string,
                      provider: (int, string) -> seq<string>, newId: nat -> string, i: nat)
    requires g != 0 && i < |GroupRun(shuffled, g, theme, provider, newId)|
    ensures var t := provider(CeilDiv(|shuffled|, g), theme);
      var name := GroupRun(shuffled, g, theme, provider, newId)[i].name;
      (i < |t| && t[i] != [] ==> name == t[i]) && (i >= |t| || t[i] == [] ==> name == FallbackName(i))
  {
  }

  /** Provider entries beyond the group count play no part. */
  lemma ExtraNamesIgnored(shuffled: seq<string>, g: int, count: int, teamNames: seq<string>, extra: seq<string>, newId: nat -> string)
    requires |teamNames| >= count
    ensures MakeGroups(shuffled, g, count, teamNames + extra, newId) == MakeGroups(shuffled, g, count, teamNames, newId)
  {
    var a, b := MakeGroups(shuffled, g, count, teamNames + extra, newId), MakeGroups(shuffled, g, count, teamNames, newId);
    forall i | 0 <= i < |a| ensures a[i] == b[i] {
      assert (teamNames + extra)[i] == teamNames[i];
    }
  }

  /**
   * Groups the provider leaves unfilled (its list too short, or the entry
   * empty) get placeholder labels that differ pairwise.
   */
  lemma FallbackLabelsDistinct(shuffled: seq<string>, g: int, count: int, teamNames: seq<string>, newId: nat -> string, i: nat, j: nat)
    requires i < j < |MakeGroups(shuffled, g, count, teamNames, newId)|
    requires i >= |teamNames| || teamNames[i] == []
    requires j >= |teamNames| || teamNames[j] == []
    ensures MakeGroups(shuffled, g, count, teamNames, newId)[i].name != MakeGroups(shuffled, g, count, teamNames, newId)[j].name
  {
    FallbackNamesDistinct(i, j);
  }

  /**
   * Labels can collide: a provider entry may equal a fallback label of
   * another group (here group 0 is named `隊伍 2` by the provider and group 1
   * falls back to `隊伍 2`).
   */
  lemma LabelsCanCollide(shuffled: seq<string>, newId: nat -> string)
    requires |shuffled| == 2
    ensures var groups := MakeGroups(shuffled, 1, CeilDiv(2, 1), ["隊伍 2", ""], newId);
      |groups| == 2 && groups[0].name == groups[1].name == "隊伍 2"
  {
    assert NatToString(2) == "2";
  }

  // ------------------------------------------------------------------
  // The screen's state
  // ------------------------------------------------------------------

  /** `parseInt(value) || 2`: a missing (`NaN`) or zero value becomes 2. */
  function ParsedGroupSize(parsed: Option<int>): (g: int)
    ensures g != 0
    ensures parsed.Some? && parsed.value != 0 ==> g == parsed.value
    ensures parsed.None? || parsed.value == 0 ==> g == 2
  {
    if parsed.None? || parsed.value == 0 then 2 else parsed.value
  }

  /**
   * The loop of `performGrouping`: for `i` from 0 while `i < groupCount`,
   * push group `i` with id `newId(i)`, its label and the slice
   * `shuffled.slice(i * perGroup, (i + 1) * perGroup)`.
   */
  method PushGroups(shuffled: seq<string>, perGroup: int, groupCount: int, teamNames: seq<string>, newId: nat -> string)
    returns (newGroups: seq<Group>)
    ensures newGroups == MakeGroups(shuffled, perGroup, groupCount, teamNames, newId)
  {
    newGroups := [];
    var i := 0;
    while i < groupCount
      invariant 0 <= i <= (if groupCount < 0 then 0 else groupCount)
      invariant |newGroups| == i
      invariant forall k :: 0 <= k < i ==> newGroups[k] == GroupAt(shuffled, perGroup, teamNames, newId, k)
    {
      MulIs(i, perGroup);
      MulIs(i + 1, perGroup);
      var group := Group(newId(i), GroupName(teamNames, i), Slice(shuffled, i * perGroup, (i + 1) * perGroup));
      assert group == GroupAt(shuffled, perGroup, teamNames, newId, i);
      newGroups := newGroups + [group];
      i := i + 1;
    }
    ghost var spec := MakeGroups(shuffled, perGroup, groupCount, teamNames, newId);
    assert |newGroups| == |spec|;
    assert forall k :: 0 <= k < |spec| ==> newGroups[k] == spec[k];
  }

  class Board {
    var groups: seq<Group>
    var perGroup: int
    var isGenerating: bool
    var theme: string

    /** The group size is never zero: the input handler replaces zero by 2. */
    predicate Valid()
      reads this
    {
      perGroup != 0
    }

    /** The initial state: no groups, four per group, idle, the default theme. */
    constructor()
      ensures Valid()
      ensures groups == [] && perGroup == 4 && !isGenerating && theme == "Corporate Superheroes"
    {
      groups := [];
      perGroup := 4;
      isGenerating := false;
      theme := "Corporate Superheroes";
    }

    /** The group-size input: `setPerGroup(parseInt(e.target.value) || 2)`. */
    method SetPerGroup(parsed: Option<int>)
      modifies this
      ensures Valid()
      ensures perGroup == ParsedGroupSize(parsed)
      ensures groups == old(groups) && isGenerating == old(isGenerating) && theme == old(theme)
    {
      perGroup := ParsedGroupSize(parsed);
    }

    /** The theme input. */
    method SetTheme(text: string)
      modifies this
      ensures theme == text
      ensures groups == old(groups) && perGroup == old(perGroup) && isGenerating == old(isGenerating)
    {
      theme := text;
    }

    /**
     * `performGrouping`: with an empty roster nothing happens. Otherwise the
     * names are shuffled, the provider is asked for `ceil(n / perGroup)` names,
     * the groups are pushed one by one, and the new list replaces the old one
     * as a whole; the busy flag is set around the run.
     */
    method PerformGrouping(participants: seq<Participant>, random: seq<real>,
                           provider: (int, string) -> seq<string>, newId: nat -> string)
      requires Valid() && IsRandom(random) && |participants| - 1 <= |random|
      modifies this
      ensures Valid()
      ensures participants == [] ==> groups == old(groups) && isGenerating == old(isGenerating)
      ensures participants != [] ==>
        groups == GroupRun(Shuffled(Names(participants), random), perGroup, theme, provider, newId) && !isGenerating
      ensures perGroup == old(perGroup) && theme == old(theme)
    {
      if |participants| == 0 {
        return;
      }
      isGenerating := true;
      var shuffled := ShuffleArray(Names(participants), random);
      var groupCount := CeilDiv(|shuffled|, perGroup);
      var teamNames := provider(groupCount, theme);
      var newGroups := PushGroups(shuffled, perGroup, groupCount, teamNames, newId);
      groups := newGroups;
      isGenerating := false;
    }

    /** `handleExport`: with no groups nothing is exported; otherwise the groups file text. */
    method HandleExport() returns (csv: Option<string>)
      ensures groups == [] ==> csv == None
      ensures groups != [] ==> csv == Some(GroupsCsv(groups))
    {
      if |groups| == 0 {
        return None;
      }
      return Some(GroupsCsv(groups));
    }
  }

  /** A run over a non-empty roster keeps every name, as often as it occurs. */
  lemma RunKeepsRoster(participants: seq<Participant>, random: seq<real>, g: int, theme: string,
                       provider: (int, string) -> seq<string>, newId: nat -> string)
    requires g >= 1 && IsRandom(random) && |participants| - 1 <= |random|
    ensures multiset(AllMembers(GroupRun(Shuffled(Names(participants), random), g, theme, provider, newId)))
      == multiset(Names(participants))
  {
    GroupingPartitions(Shuffled(Names(participants), random), g, theme, provider, newId);
    ShufflePermutes(Names(participants), random);
  }
}

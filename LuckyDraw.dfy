/**
 * The lucky-draw screen of components/LuckyDraw.tsx. Its React state
 * (`isDrawing`, `currentName`, `winners`, `repeatable`, `availableNames`) is
 * modelled as the fields of a `DrawSession` object whose handlers update
 * them in place; `DrawState` is a snapshot of those fields, and the pure
 * functions over snapshots are the specification the handlers are proved
 * against.
 *
 * The roster is a property of the screen, so every handler that reads it
 * takes the current participants as a parameter. The animated ticks of a
 * draw (each a fresh `Math.random()` pick shown for a while) end with the
 * pick of the last tick; only that last roll matters to the state, so a draw
 * takes one roll `r` in [0, 1) from the caller and runs to completion.
 */
module LuckyDraw {
  import opened Types
  import opened Seqs
  import opened Helpers

  /** The text shown before the first draw and after a reset. */
  const Ready: string := "準備好了嗎？"

  /** The five state variables of the screen. */
  datatype DrawState = DrawState(isDrawing: bool, currentName: string, winners: seq<string>,
                                 repeatable: bool, availableNames: seq<string>)

  // ------------------------------------------------------------------
  // Removing a winner from the available names
  // ------------------------------------------------------------------

  /** `names.filter(name => name !== winner)` */
  function RemoveAll(names: seq<string>, winner: string): (r: seq<string>)
    ensures forall x :: x in r <==> x in names && x != winner
  {
    if names == [] then []
    else (if names[0] == winner then [] else [names[0]]) + RemoveAll(names[1..], winner)
  }

  /**
   * The filter keeps the other names in their order and drops exactly the
   * occurrences of the winner; these three facts determine its result.
   */
  lemma {:induction false} RemoveAllSpec(names: seq<string>, winner: string)
    ensures IsSubsequence(RemoveAll(names, winner), names)
    ensures |RemoveAll(names, winner)| == |names| - Count(names, winner)
    ensures winner !in RemoveAll(names, winner)
    decreases |names|
  {
    if names != [] {
      var rest := RemoveAll(names[1..], winner);
      RemoveAllSpec(names[1..], winner);
      assert names == [names[0]] + names[1..];
      CountAppend([names[0]], names[1..], winner);
      assert Count([names[0]], winner) == (if names[0] == winner then 1 else 0) by {
        assert [names[0]][..0] == [];
      }
      if names[0] != winner {
        assert ([names[0]] + rest)[1..] == rest;
      } else {
        assert RemoveAll(names, winner) == rest;
        if rest != [] {
          assert rest[0] in rest;
        }
      }
    }
  }

  /** Filtering a list without repeats leaves a list without repeats. */
  lemma {:induction false} RemoveAllDistinct(names: seq<string>, winner: string)
    requires Distinct(names)
    ensures Distinct(RemoveAll(names, winner))
    decreases |names|
  {
    if names != [] {
      var rest := RemoveAll(names[1..], winner);
      assert Distinct(names[1..]) by {
        forall i, j | 0 <= i < j < |names[1..]| ensures names[1..][i] != names[1..][j] {
          assert names[1..][i] == names[i + 1] && names[1..][j] == names[j + 1];
        }
      }
      RemoveAllDistinct(names[1..], winner);
      if names[0] != winner {
        assert names[0] !in names[1..] by {
          forall j | 0 <= j < |names[1..]| ensures names[1..][j] != names[0] {
            assert names[1..][j] == names[j + 1];
          }
        }
        var r := [names[0]] + rest;
        forall i, j | 0 <= i < j < |r| ensures r[i] != r[j] {
          if i == 0 {
            assert r[j] == rest[j - 1] && r[j] in rest;
          } else {
            assert r[i] == rest[i - 1] && r[j] == rest[j - 1];
          }
        }
      }
    }
  }

  /** A name that occurs once is the only thing the filter drops. */
  lemma RemoveOnce(names: seq<string>, winner: string)
    requires Distinct(names) && winner in names
    ensures |RemoveAll(names, winner)| == |names| - 1
    ensures Distinct(RemoveAll(names, winner))
  {
    RemoveAllSpec(names, winner);
    RemoveAllDistinct(names, winner);
    CountPositive(names, winner);
    DistinctIffCounts(names);
    var k :| 0 <= k < |names| && names[k] == winner;
    assert Count(names, names[k]) < 2;
  }

  // ------------------------------------------------------------------
  // The transitions, on snapshots
  // ------------------------------------------------------------------

  /** The state right after mounting: the effect has copied the roster's names. */
  function Mounted(names: seq<string>): DrawState
  {
    DrawState(false, Ready, [], false, names)
  }

  /** The pool a draw picks from: every current name if repeatable, else the names not yet drawn. */
  function Pool(s: DrawState, names: seq<string>): seq<string>
  {
    if s.repeatable then names else s.availableNames
  }

  /** `finishDraw(winner)` */
  function Finish(s: DrawState, winner: string): DrawState
  {
    s.(isDrawing := false, currentName := winner, winners := [winner] + s.winners,
       availableNames := if s.repeatable then s.availableNames else RemoveAll(s.availableNames, winner))
  }

  /**
   * `startDraw` with the last tick's roll `r`: an empty pool changes nothing
   * (the alert is shown), otherwise the name at `floor(r * |pool|)` wins.
   */
  function Draw(s: DrawState, names: seq<string>, r: real): (t: DrawState)
    requires 0.0 <= r < 1.0
    ensures |Pool(s, names)| == 0 ==> t == s
    ensures |Pool(s, names)| > 0 ==> |t.winners| == |s.winners| + 1 && t.winners[0] in Pool(s, names)
    ensures |Pool(s, names)| > 0 ==> t.winners[1..] == s.winners && t.currentName == t.winners[0] && !t.isDrawing
    ensures t.repeatable == s.repeatable
  {
    var pool := Pool(s, names);
    if |pool| == 0 then s else Finish(s, pool[RandomIndex(r, |pool|)])
  }

  /** `resetDraw`: no winners, the greeting, and every current name available again. */
  function Reset(s: DrawState, names: seq<string>): DrawState
  {
    s.(winners := [], currentName := Ready, availableNames := names)
  }

  /** The `participants` effect: only the available names follow the roster. */
  function RosterChanged(s: DrawState, names: seq<string>): DrawState
  {
    s.(availableNames := names)
  }

  /** The checkbox, which is disabled while a draw is running; it touches nothing but the flag. */
  function Toggle(s: DrawState, checked: bool): (t: DrawState)
    ensures t.repeatable == if s.isDrawing then s.repeatable else checked
    ensures t.isDrawing == s.isDrawing && t.currentName == s.currentName
    ensures t.winners == s.winners && t.availableNames == s.availableNames
  {
    if s.isDrawing then s else s.(repeatable := checked)
  }

  /**
   * Several draws in a row with the rolls `rolls`, the roster unchanged: at
   * most one winner per roll.
   */
  function Draws(s: DrawState, names: seq<string>, rolls: seq<real>): (t: DrawState)
    requires IsRandom(rolls)
    ensures |s.winners| <= |t.winners| <= |s.winners| + |rolls|
    ensures t.repeatable == s.repeatable
    decreases |rolls|
  {
    if rolls == [] then s else Draws(Draw(s, names, rolls[0]), names, rolls[1..])
  }

  // ------------------------------------------------------------------
  // Properties of one draw
  // ------------------------------------------------------------------

  /** With nothing left to draw from, a draw leaves the whole state as it was. */
  lemma EmptyPoolUnchanged(s: DrawState, names: seq<string>, r: real)
    requires 0.0 <= r < 1.0
    requires if s.repeatable then names == [] else s.availableNames == []
    ensures Draw(s, names, r) == s
  {
  }

  /**
   * Finishing: the winner goes in front of the earlier winners, is shown,
   * and the draw is over; the repeatable flag is untouched.
   */
  lemma FinishPrepends(s: DrawState, winner: string)
    ensures var t := Finish(s, winner);
      |t.winners| == |s.winners| + 1 && t.winners[0] == winner && t.winners[1..] == s.winners
      && t.currentName == winner && !t.isDrawing && t.repeatable == s.repeatable
  {
    assert ([winner] + s.winners)[1..] == s.winners;
  }

  /**
   * Without repeats, every occurrence of the winner leaves the available
   * names, the rest keep their order, and the list shrinks by the number of
   * occurrences.
   */
  lemma FinishRemovesWinner(s: DrawState, winner: string)
    requires !s.repeatable
    ensures var t := Finish(s, winner);
      winner !in t.availableNames
      && (forall x :: x in t.availableNames <==> x in s.availableNames && x != winner)
      && IsSubsequence(t.availableNames, s.availableNames)
      && |t.availableNames| == |s.availableNames| - Count(s.availableNames, winner)
  {
    RemoveAllSpec(s.availableNames, winner);
  }

  /** With repeats allowed, the available names are not touched. */
  lemma FinishRepeatableKeeps(s: DrawState, winner: string)
    requires s.repeatable
    ensures Finish(s, winner).availableNames == s.availableNames
    ensures Finish(s, winner).winners[0] == winner
  {
  }

  /**
   * A draw without repeats picks a name that is still available, drops it
   * from the available list and changes nothing else but the display.
   */
  lemma DrawFromAvailable(s: DrawState, names: seq<string>, r: real)
    requires 0.0 <= r < 1.0
    requires !s.repeatable && s.availableNames != []
    ensures var t := Draw(s, names, r);
      t.winners[0] in s.availableNames && t.winners[0] !in t.availableNames
      && IsSubsequence(t.availableNames, s.availableNames)
      && t.winners[1..] == s.winners && t.currentName == t.winners[0]
      && t.repeatable == s.repeatable && !t.isDrawing
  {
    var w := Draw(s, names, r).winners[0];
    assert Draw(s, names, r) == Finish(s, w);
    FinishRemovesWinner(s, w);
  }

  /** A draw with repeats allowed picks some current roster name and keeps the available list. */
  lemma DrawFromRoster(s: DrawState, names: seq<string>, r: real)
    requires 0.0 <= r < 1.0
    requires s.repeatable && names != []
    ensures Draw(s, names, r).winners[0] in names
    ensures Draw(s, names, r).availableNames == s.availableNames
  {
  }

  // ------------------------------------------------------------------
  // Properties of a sequence of draws
  // ------------------------------------------------------------------

  /** Winners are pairwise distinct and none of them is still available. */
  predicate DrawInvariant(s: DrawState)
  {
    Distinct(s.winners) && forall k :: 0 <= k < |s.winners| ==> s.winners[k] !in s.availableNames
  }

  /** A reset, and so the state after mounting, satisfies the invariant. */
  lemma ResetEstablishes(s: DrawState, names: seq<string>)
    ensures DrawInvariant(Reset(s, names))
    ensures DrawInvariant(Mounted(names))
  {
  }

  /** A draw without repeats keeps winners distinct and disjoint from the available names. */
  lemma DrawKeepsInvariant(s: DrawState, names: seq<string>, r: real)
    requires 0.0 <= r < 1.0
    requires !s.repeatable && DrawInvariant(s)
    ensures DrawInvariant(Draw(s, names, r))
  {
    if s.availableNames != [] {
      var t := Draw(s, names, r);
      var w := t.winners[0];
      DrawFromAvailable(s, names, r);
      FinishRemovesWinner(s, w);
      assert t.winners == [w] + s.winners;
      forall i, j | 0 <= i < j < |t.winners| ensures t.winners[i] != t.winners[j] {
        if i == 0 {
          assert t.winners[j] == s.winners[j - 1];
        } else {
          assert t.winners[i] == s.winners[i - 1] && t.winners[j] == s.winners[j - 1];
        }
      }
      forall k | 0 <= k < |t.winners| ensures t.winners[k] !in t.availableNames {
        if k > 0 {
          assert t.winners[k] == s.winners[k - 1];
        }
      }
    }
  }

  /** Any number of draws without repeats keeps the invariant. */
  lemma {:induction false} DrawsKeepInvariant(s: DrawState, names: seq<string>, rolls: seq<real>)
    requires IsRandom(rolls)
    requires !s.repeatable && DrawInvariant(s)
    ensures DrawInvariant(Draws(s, names, rolls))
    ensures Draws(s, names, rolls).repeatable == s.repeatable
    decreases |rolls|
  {
    if rolls != [] {
      DrawKeepsInvariant(s, names, rolls[0]);
      DrawsKeepInvariant(Draw(s, names, rolls[0]), names, rolls[1..]);
    }
  }

  /**
   * Over an available list without repeated names, `k` draws without
   * repeats, `k` no more than the list's length, add exactly `k` winners
   * and leave exactly `k` fewer names available.
   */
  lemma {:induction false} DrawsCount(s: DrawState, names: seq<string>, rolls: seq<real>)
    requires IsRandom(rolls)
    requires !s.repeatable && Distinct(s.availableNames) && |rolls| <= |s.availableNames|
    ensures |Draws(s, names, rolls).winners| == |s.winners| + |rolls|
    ensures |Draws(s, names, rolls).availableNames| == |s.availableNames| - |rolls|
    ensures Distinct(Draws(s, names, rolls).availableNames)
    decreases |rolls|
  {
    if rolls != [] {
      var t := Draw(s, names, rolls[0]);
      var w := t.winners[0];
      assert t == Finish(s, w);
      RemoveOnce(s.availableNames, w);
      DrawsCount(t, names, rolls[1..]);
    }
  }

  /** A run of draws only ever adds winners in front: the earlier winners stay, in order, at the end. */
  lemma {:induction false} DrawsKeepEarlierWinners(s: DrawState, names: seq<string>, rolls: seq<real>)
    requires IsRandom(rolls)
    ensures var t := Draws(s, names, rolls);
      t.winners[|t.winners| - |s.winners|..] == s.winners
    decreases |rolls|
  {
    if rolls != [] {
      var u := Draw(s, names, rolls[0]);
      DrawsKeepEarlierWinners(u, names, rolls[1..]);
      SuffixOfSuffix(Draws(u, names, rolls[1..]).winners, u.winners, s.winners);
    }
  }

  /** A suffix of a suffix is a suffix. */
  lemma SuffixOfSuffix(w: seq<string>, u: seq<string>, v: seq<string>)
    requires |v| <= |u| <= |w|
    requires w[|w| - |u|..] == u && u[|u| - |v|..] == v
    ensures w[|w| - |v|..] == v
  {
    assert w[|w| - |u|..][|u| - |v|..] == w[|w| - |v|..];
  }

  /** Once every name has been drawn, further draws without repeats change nothing. */
  lemma {:induction false} DrawsExhausted(s: DrawState, names: seq<string>, rolls: seq<real>)
    requires IsRandom(rolls)
    requires !s.repeatable && s.availableNames == []
    ensures Draws(s, names, rolls) == s
    decreases |rolls|
  {
    if rolls != [] {
      DrawsExhausted(s, names, rolls[1..]);
    }
  }

  /**
   * Two participants sharing a name: drawing that name removes both
   * entries, so the available list shrinks by two in one draw.
   */
  lemma DuplicateNameShrinksByTwo(names: seq<string>)
    ensures var s := Mounted(["A", "A", "B"]);
      Draw(s, names, 0.0).availableNames == ["B"] && Draw(s, names, 0.0).winners == ["A"]
  {
    var s := Mounted(["A", "A", "B"]);
    assert RandomIndex(0.0, 3) == 0;
    assert ["A", "A", "B"][1..] == ["A", "B"];
    assert ["A", "B"][1..] == ["B"];
    assert ["B"][1..] == [];
  }

  /** With repeats allowed, the same name can win twice: a one-name roster always yields that name. */
  lemma RepeatableRepeats(s: DrawState, name: string, r1: real, r2: real)
    requires s.repeatable && 0.0 <= r1 < 1.0 && 0.0 <= r2 < 1.0
    ensures Draws(s, [name], [r1, r2]).winners == [name, name] + s.winners
  {
    var rolls := [r1, r2];
    var t := Draw(s, [name], r1);
    assert t == Finish(s, name);
    assert rolls[1..] == [r2];
    var u := Draw(t, [name], r2);
    assert u == Finish(t, name);
    assert Draws(t, [name], [r2]) == u;
  }

  /**
   * A roster change keeps the winners but makes every current name
   * available again, so an earlier winner can be drawn a second time.
   */
  lemma RosterChangeBreaksInvariant()
    ensures var s := Draw(Mounted(["A"]), ["A"], 0.0);
      DrawInvariant(s) && !DrawInvariant(RosterChanged(s, ["A"]))
  {
    assert RandomIndex(0.0, 1) == 0;
    var s := Draw(Mounted(["A"]), ["A"], 0.0);
    assert s.winners == ["A"] && s.availableNames == [];
    assert RosterChanged(s, ["A"]).winners[0] in RosterChanged(s, ["A"]).availableNames;
  }

  /** A reset clears the winners, shows the greeting and makes every current name available again. */
  lemma ResetSpec(s: DrawState, names: seq<string>)
    ensures Reset(s, names).winners == [] && Reset(s, names).availableNames == names
    ensures Reset(s, names).currentName == Ready && Reset(s, names).repeatable == s.repeatable
    ensures Reset(s, names).isDrawing == s.isDrawing
  {
  }

  /** A roster change makes the roster's names available but keeps the winners and the display. */
  lemma RosterChangeSpec(s: DrawState, names: seq<string>)
    ensures RosterChanged(s, names).availableNames == names
    ensures RosterChanged(s, names).winners == s.winners && RosterChanged(s, names).currentName == s.currentName
    ensures RosterChanged(s, names).repeatable == s.repeatable && RosterChanged(s, names).isDrawing == s.isDrawing
  {
  }

  // ------------------------------------------------------------------
  // The screen
  // ------------------------------------------------------------------

  class DrawSession {
    var isDrawing: bool
    var currentName: string
    var winners: seq<string>
    var repeatable: bool
    var availableNames: seq<string>

    function State(): DrawState
      reads this
    {
      DrawState(isDrawing, currentName, winners, repeatable, availableNames)
    }

    /** Mounting: the initial `useState` values, then the effect copies the roster's names. */
    constructor (participants: seq<Participant>)
      ensures State() == Mounted(Names(participants))
    {
      isDrawing := false;
      currentName := Ready;
      winners := [];
      repeatable := false;
      availableNames := [];
      availableNames := Names(participants);
    }

    /** `finishDraw(winner)` */
    method FinishDraw(winner: string)
      modifies this
      ensures State() == Finish(old(State()), winner)
    {
      isDrawing := false;
      currentName := winner;
      winners := [winner] + winners;
      if !repeatable {
        availableNames := RemoveAll(availableNames, winner);
      }
    }

    /**
     * `startDraw`, collapsed to its last tick with roll `r`. Returns the
     * winner, or `None` when the pool is empty and the alert is shown.
     */
    method StartDraw(participants: seq<Participant>, r: real) returns (winner: Option<string>)
      requires 0.0 <= r < 1.0
      modifies this
      ensures State() == Draw(old(State()), Names(participants), r)
      ensures winner.None? <==> |Pool(old(State()), Names(participants))| == 0
      ensures winner.Some? ==> winner.value in Pool(old(State()), Names(participants)) && winners == [winner.value] + old(winners)
    {
      var list := if repeatable then Names(participants) else availableNames;
      if |list| == 0 {
        winner := None;
        return;
      }
      isDrawing := true;
      var randomIndex := RandomIndex(r, |list|);
      FinishDraw(list[randomIndex]);
      winner := Some(list[randomIndex]);
    }

    /** `resetDraw` */
    method ResetDraw(participants: seq<Participant>)
      modifies this
      ensures State() == Reset(old(State()), Names(participants))
    {
      winners := [];
      currentName := Ready;
      availableNames := Names(participants);
    }

    /** The effect on `[participants]`. */
    method OnParticipantsChanged(participants: seq<Participant>)
      modifies this
      ensures State() == RosterChanged(old(State()), Names(participants))
    {
      availableNames := Names(participants);
    }

    /** The "可重複中獎" checkbox; ignored while a draw is running. */
    method SetRepeatable(checked: bool)
      modifies this
      ensures State() == Toggle(old(State()), checked)
    {
      if !isDrawing {
        repeatable := checked;
      }
    }
  }
}

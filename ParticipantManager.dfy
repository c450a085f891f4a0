/**
 * The roster editor of components/ParticipantManager.tsx. The roster itself
 * belongs to the caller: every handler computes a new roster and hands it
 * over (`onUpdate`), so the handlers are modelled as functions from the old
 * roster to the new one. Only duplicate removal works step by step, threading
 * a set of names already seen through a filter.
 *
 * Record ids come from `Math.random().toString(36)`; here they are drawn from
 * a caller-supplied stream `newId`, where `newId(k)` is the id given to the
 * `k`-th record of one call. Nothing is claimed about their uniqueness.
 */
module ParticipantManager {
  import opened Types
  import opened Seqs
  import opened Helpers

  /** Records built from `names` in order: `names.map(name => ({ id, name }))`. */
  function NewParticipants(names: seq<string>, newId: nat -> string): (r: seq<Participant>)
    ensures Names(r) == names
  {
    seq(|names|, k requires 0 <= k < |names| => Participant(newId(k), names[k]))
  }

  /** `[...participants, ...newParticipants]` */
  function AddNames(participants: seq<Participant>, names: seq<string>, newId: nat -> string): (r: seq<Participant>)
    ensures |r| == |participants| + |names|
    ensures r[..|participants|] == participants
    ensures Names(r[|participants|..]) == names
  {
    var added := NewParticipants(names, newId);
    assert (participants + added)[|participants|..] == added;
    participants + added
  }

  /** What the paste handler leaves behind: the new roster and the new text of the input box. */
  datatype Added = Added(roster: seq<Participant>, inputText: string)

  /**
   * `handleAddNames(namesToAdd?)`: the names given, or else the names parsed
   * from the input box, are appended; the box is emptied only in the second
   * case. An empty list given is still a list, so it does not fall back to
   * the box.
   */
  function HandleAddNames(participants: seq<Participant>, inputText: string,
                          namesToAdd: Option<seq<string>>, newId: nat -> string): (r: Added)
    ensures |r.roster| >= |participants| && r.roster[..|participants|] == participants
    ensures namesToAdd.Some? ==> Names(r.roster[|participants|..]) == namesToAdd.value && r.inputText == inputText
    ensures namesToAdd.None? ==> Names(r.roster[|participants|..]) == ParseNames(inputText) && r.inputText == ""
  {
    var names := if namesToAdd.Some? then namesToAdd.value else ParseNames(inputText);
    Added(AddNames(participants, names, newId), if namesToAdd.None? then "" else inputText)
  }

  /** `handleLoadMockData`: the twenty demonstration names are appended; the input box is kept. */
  function HandleLoadMockData(participants: seq<Participant>, inputText: string, newId: nat -> string): (r: Added)
    ensures |r.roster| == |participants| + |MockNames| && r.roster[..|participants|] == participants
    ensures Names(r.roster[|participants|..]) == MockNames && r.inputText == inputText
  {
    HandleAddNames(participants, inputText, Some(MockNames), newId)
  }

  /**
   * `handleFileUpload`: with no file chosen nothing happens; otherwise the
   * whole file text is parsed like pasted text and appended.
   */
  function HandleFileUpload(participants: seq<Participant>, fileText: Option<string>, newId: nat -> string): (r: seq<Participant>)
    ensures fileText.None? ==> r == participants
    ensures fileText.Some? ==> |r| >= |participants| && r[..|participants|] == participants && Names(r[|participants|..]) == ParseNames(fileText.value)
  {
    if fileText.None? then participants else AddNames(participants, ParseNames(fileText.value), newId)
  }

  /** Pasting a text and uploading a file holding the same text add the same records. */
  lemma PasteAndUploadAgree(participants: seq<Participant>, text: string, newId: nat -> string)
    ensures HandleAddNames(participants, text, None, newId).roster == HandleFileUpload(participants, Some(text), newId)
  {
  }

  /** `handleClear`: the roster is emptied only when the user confirms. */
  function HandleClear(participants: seq<Participant>, confirmed: bool): (r: seq<Participant>)
    ensures confirmed ==> r == []
    ensures !confirmed ==> r == participants
  {
    if confirmed then [] else participants
  }

  // ------------------------------------------------------------------
  // removeParticipant
  // ------------------------------------------------------------------

  /** `participants.filter(p => p.id !== id)` */
  function RemoveParticipant(participants: seq<Participant>, id: string): (r: seq<Participant>)
    ensures |r| <= |participants|
  {
    if participants == [] then []
    else if participants[0].id == id then RemoveParticipant(participants[1..], id)
    else [participants[0]] + RemoveParticipant(participants[1..], id)
  }

  /** A record survives exactly when it was there and has another id. */
  lemma {:induction false} RemoveParticipantMembers(participants: seq<Participant>, id: string, p: Participant)
    ensures p in RemoveParticipant(participants, id) <==> p in participants && p.id != id
    decreases |participants|
  {
    if participants != [] {
      RemoveParticipantMembers(participants[1..], id, p);
      assert participants == [participants[0]] + participants[1..];
    }
  }

  /** The survivors keep their order. */
  lemma {:induction false} RemoveParticipantSubsequence(participants: seq<Participant>, id: string)
    ensures IsSubsequence(RemoveParticipant(participants, id), participants)
    decreases |participants|
  {
    if participants != [] {
      RemoveParticipantSubsequence(participants[1..], id);
      var rest := RemoveParticipant(participants[1..], id);
      if participants[0].id == id {
        RemoveLeavesOut(participants[1..], id);
        SubsequenceSkip(rest, participants);
      } else {
        assert ([participants[0]] + rest)[1..] == rest;
      }
    }
  }

  lemma RemoveLeavesOut(participants: seq<Participant>, id: string)
    ensures forall k :: 0 <= k < |RemoveParticipant(participants, id)| ==> RemoveParticipant(participants, id)[k].id != id
  {
    forall k | 0 <= k < |RemoveParticipant(participants, id)| ensures RemoveParticipant(participants, id)[k].id != id {
      RemoveParticipantMembers(participants, id, RemoveParticipant(participants, id)[k]);
    }
  }

  /** Dropping a head whose id no survivor has keeps the subsequence relation. */
  lemma SubsequenceSkip(rest: seq<Participant>, participants: seq<Participant>)
    requires participants != [] && IsSubsequence(rest, participants[1..])
    requires forall k :: 0 <= k < |rest| ==> rest[k].id != participants[0].id
    ensures IsSubsequence(rest, participants)
  {
    if rest != [] {
      assert rest[0] != participants[0];
    }
  }

  /** An id nobody has leaves the roster as it is. */
  lemma {:induction false} RemoveAbsentId(participants: seq<Participant>, id: string)
    requires forall k :: 0 <= k < |participants| ==> participants[k].id != id
    ensures RemoveParticipant(participants, id) == participants
    decreases |participants|
  {
    if participants != [] {
      RemoveAbsentId(participants[1..], id);
      assert participants == [participants[0]] + participants[1..];
    }
  }

  /** Removal works part by part. */
  lemma {:induction false} RemoveParticipantAppend(xs: seq<Participant>, ys: seq<Participant>, id: string)
    ensures RemoveParticipant(xs + ys, id) == RemoveParticipant(xs, id) + RemoveParticipant(ys, id)
    decreases |xs|
  {
    if xs == [] {
      assert xs + ys == ys;
    } else {
      assert (xs + ys)[1..] == xs[1..] + ys;
      RemoveParticipantAppend(xs[1..], ys, id);
    }
  }

  // ------------------------------------------------------------------
  // handleRemoveDuplicates
  // ------------------------------------------------------------------

  /** The filter with the names in `seen` taken already: keep a record when its name is new, then mark it. */
  function DedupeFrom(participants: seq<Participant>, seen: set<string>): (r: seq<Participant>)
    ensures |r| <= |participants|
    decreases |participants|
  {
    if participants == [] then []
    else if participants[0].name in seen then DedupeFrom(participants[1..], seen)
    else [participants[0]] + DedupeFrom(participants[1..], seen + {participants[0].name})
  }

  /** What `handleRemoveDuplicates` hands over: never longer, and the first record always stays. */
  function Dedupe(participants: seq<Participant>): (r: seq<Participant>)
    ensures |r| <= |participants|
    ensures participants != [] ==> r != [] && r[0] == participants[0]
  {
    assert participants != [] ==>
      (participants[0].name !in {} &&
       DedupeFrom(participants, {}) == [participants[0]] + DedupeFrom(participants[1..], {} + {participants[0].name}));
    DedupeFrom(participants, {})
  }

  /**
   * `handleRemoveDuplicates`: one pass over the roster with a set of names
   * seen so far; a record is kept when its name is new, and its name is then
   * added to the set.
   */
  method HandleRemoveDuplicates(participants: seq<Participant>) returns (uniqueParticipants: seq<Participant>)
    ensures uniqueParticipants == Dedupe(participants)
    ensures IsSubsequence(uniqueParticipants, participants)
    ensures Distinct(Names(uniqueParticipants))
    ensures DuplicateIds(uniqueParticipants) == {}
  {
    var seenNames: set<string> := {};
    uniqueParticipants := [];
    var i := 0;
    while i < |participants|
      invariant 0 <= i <= |participants|
      invariant uniqueParticipants + DedupeFrom(participants[i..], seenNames) == Dedupe(participants)
    {
      var p := participants[i];
      assert participants[i..][1..] == participants[i + 1..];
      if p.name !in seenNames {
        ghost var rest := DedupeFrom(participants[i + 1..], seenNames + {p.name});
        assert DedupeFrom(participants[i..], seenNames) == [p] + rest;
        assert uniqueParticipants + [p] + rest == uniqueParticipants + ([p] + rest);
        seenNames := seenNames + {p.name};
        uniqueParticipants := uniqueParticipants + [p];
      } else {
        assert DedupeFrom(participants[i..], seenNames) == DedupeFrom(participants[i + 1..], seenNames);
      }
      i := i + 1;
    }
    assert participants[|participants|..] == [];
    DedupeSubsequence(participants);
    DedupeDistinct(participants);
    DedupeClearsDuplicates(participants);
  }

  /** The predicate for record `k` being the first with its name. */
  predicate FirstOfName(participants: seq<Participant>, k: nat)
    requires k < |participants|
  {
    forall j :: 0 <= j < k ==> participants[j].name != participants[k].name
  }

  /**
   * A record is kept exactly when it is, at some position, the first record
   * with its name and that name is not taken already.
   */
  lemma {:induction false} DedupeFromMembers(participants: seq<Participant>, seen: set<string>, p: Participant)
    ensures p in DedupeFrom(participants, seen) <==>
      exists k :: 0 <= k < |participants| && participants[k] == p && p.name !in seen && FirstOfName(participants, k)
    decreases |participants|
  {
    if participants != [] {
      var h, rest := participants[0], participants[1..];
      var seen' := if h.name in seen then seen else seen + {h.name};
      DedupeFromMembers(rest, seen', p);
      assert DedupeFrom(participants, seen) == if h.name in seen then DedupeFrom(rest, seen') else [h] + DedupeFrom(rest, seen');
      if p in DedupeFrom(participants, seen) {
        if h.name !in seen && p == h {
          assert participants[0] == p && FirstOfName(participants, 0);
        } else {
          var k :| 0 <= k < |rest| && rest[k] == p && p.name !in seen' && FirstOfName(rest, k);
          assert participants[k + 1] == p;
          assert FirstOfName(participants, k + 1) by {
            forall j | 0 <= j < k + 1 ensures participants[j].name != p.name {
              if j > 0 {
                assert participants[j] == rest[j - 1];
              }
            }
          }
        }
      }
      if exists k :: 0 <= k < |participants| && participants[k] == p && p.name !in seen && FirstOfName(participants, k) {
        var k :| 0 <= k < |participants| && participants[k] == p && p.name !in seen && FirstOfName(participants, k);
        if k > 0 {
          assert participants[0].name != p.name;
          assert rest[k - 1] == p;
          assert FirstOfName(rest, k - 1) by {
            forall j | 0 <= j < k - 1 ensures rest[j].name != p.name {
              assert rest[j] == participants[j + 1];
            }
          }
        }
      }
    }
  }

  /** The survivors keep their order. */
  lemma {:induction false} DedupeFromSubsequence(participants: seq<Participant>, seen: set<string>)
    ensures IsSubsequence(DedupeFrom(participants, seen), participants)
    decreases |participants|
  {
    if participants != [] {
      var h, rest := participants[0], participants[1..];
      if h.name in seen {
        DedupeFromSubsequence(rest, seen);
        DedupeFromAvoidsSeen(rest, seen);
        var r := DedupeFrom(rest, seen);
        if r != [] {
          assert r[0] in r;
          assert r[0] != h;
        }
      } else {
        DedupeFromSubsequence(rest, seen + {h.name});
        var r := DedupeFrom(rest, seen + {h.name});
        assert ([h] + r)[1..] == r;
      }
    }
  }

  /** No survivor carries a name that was taken already. */
  lemma {:induction false} DedupeFromAvoidsSeen(participants: seq<Participant>, seen: set<string>)
    ensures forall p :: p in DedupeFrom(participants, seen) ==> p.name !in seen
  {
    forall p | p in DedupeFrom(participants, seen) ensures p.name !in seen {
      DedupeFromMembers(participants, seen, p);
    }
  }

  /** The survivors carry pairwise distinct names. */
  lemma {:induction false} DedupeFromDistinct(participants: seq<Participant>, seen: set<string>)
    ensures Distinct(Names(DedupeFrom(participants, seen)))
    decreases |participants|
  {
    if participants != [] {
      var h, rest := participants[0], participants[1..];
      if h.name in seen {
        DedupeFromDistinct(rest, seen);
      } else {
        var r := DedupeFrom(rest, seen + {h.name});
        DedupeFromDistinct(rest, seen + {h.name});
        DedupeFromAvoidsSeen(rest, seen + {h.name});
        var ns := Names([h] + r);
        forall i, j | 0 <= i < j < |ns| ensures ns[i] != ns[j] {
          if i == 0 {
            assert ([h] + r)[j] == r[j - 1];
            assert r[j - 1] in r;
          } else {
            assert ([h] + r)[i] == r[i - 1] && ([h] + r)[j] == r[j - 1];
            assert Names(r)[i - 1] != Names(r)[j - 1];
          }
        }
      }
    }
  }

  /** Every name not taken already still appears among the survivors. */
  lemma {:induction false} DedupeFromKeepsNames(participants: seq<Participant>, seen: set<string>, x: string)
    requires x in Names(participants) && x !in seen
    ensures x in Names(DedupeFrom(participants, seen))
    decreases |participants|
  {
    var h, rest := participants[0], participants[1..];
    var ns := Names(participants);
    if h.name == x {
      assert DedupeFrom(participants, seen) == [h] + DedupeFrom(rest, seen + {h.name});
      assert Names(DedupeFrom(participants, seen))[0] == x;
    } else {
      var k :| 0 <= k < |ns| && ns[k] == x;
      assert Names(rest)[k - 1] == x;
      var seen' := if h.name in seen then seen else seen + {h.name};
      DedupeFromKeepsNames(rest, seen', x);
      var r := DedupeFrom(rest, seen');
      var i :| 0 <= i < |Names(r)| && Names(r)[i] == x;
      if h.name !in seen {
        assert Names([h] + r)[i + 1] == x;
      }
    }
  }

  /** Dedupe keeps the record order. */
  lemma DedupeSubsequence(participants: seq<Participant>)
    ensures IsSubsequence(Dedupe(participants), participants)
  {
    DedupeFromSubsequence(participants, {});
  }

  /** After dedupe the names are pairwise distinct. */
  lemma DedupeDistinct(participants: seq<Participant>)
    ensures Distinct(Names(Dedupe(participants)))
  {
    DedupeFromDistinct(participants, {});
  }

  /** Dedupe keeps exactly the first record of each name. */
  lemma DedupeKeepsFirst(participants: seq<Participant>, p: Participant)
    ensures p in Dedupe(participants) <==>
      exists k :: 0 <= k < |participants| && participants[k] == p && FirstOfName(participants, k)
  {
    DedupeFromMembers(participants, {}, p);
  }

  /** The records at positions below `i` that hold the first record of their name, in position order. */
  function FirstsBefore(participants: seq<Participant>, i: nat): seq<Participant>
    requires i <= |participants|
  {
    if i == 0 then []
    else FirstsBefore(participants, i - 1) + (if FirstOfName(participants, i - 1) then [participants[i - 1]] else [])
  }

  /** The names of the records at positions below `i`: what `seenNames` holds after `i` steps. */
  function NamesBefore(participants: seq<Participant>, i: nat): set<string>
    requires i <= |participants|
  {
    set k | 0 <= k < i :: participants[k].name
  }

  /** After `i` steps the filter has kept the first-of-name records below `i`, and the rest follows. */
  lemma {:induction false} DedupeFromFirsts(participants: seq<Participant>, i: nat)
    requires i <= |participants|
    ensures FirstsBefore(participants, i) + DedupeFrom(participants[i..], NamesBefore(participants, i)) == Dedupe(participants)
  {
    if i == 0 {
      assert participants[0..] == participants;
      assert NamesBefore(participants, 0) == {};
    } else {
      var j := i - 1;
      DedupeFromFirsts(participants, j);
      var seen, h := NamesBefore(participants, j), participants[j];
      var tail, rest := participants[j..], participants[i..];
      assert tail[0] == h && tail[1..] == rest;
      assert NamesBefore(participants, i) == seen + {h.name} by {
        forall x ensures x in NamesBefore(participants, i) <==> x in seen + {h.name} {
          if x in NamesBefore(participants, i) && x != h.name {
            var k :| 0 <= k < i && participants[k].name == x;
            assert k < j;
          }
        }
      }
      var before, after := FirstsBefore(participants, j), FirstsBefore(participants, i);
      if h.name in seen {
        var k :| 0 <= k < j && participants[k].name == h.name;
        assert !FirstOfName(participants, j);
        assert after == before;
        assert DedupeFrom(tail, seen) == DedupeFrom(rest, seen);
        assert NamesBefore(participants, i) == seen;
      } else {
        forall k | 0 <= k < j ensures participants[k].name != h.name {
          assert participants[k].name in seen;
        }
        assert FirstOfName(participants, j);
        var more := DedupeFrom(rest, seen + {h.name});
        assert DedupeFrom(tail, seen) == [h] + more;
        assert after == before + [h];
        assert after + more == before + ([h] + more);
      }
    }
  }

  /**
   * Dedupe keeps, in order, exactly the records at the positions that hold
   * the first record of their name; with repeated identical records this pins
   * the result down where membership alone does not.
   */
  lemma DedupeAtFirsts(participants: seq<Participant>)
    ensures Dedupe(participants) == FirstsBefore(participants, |participants|)
  {
    DedupeFromFirsts(participants, |participants|);
    assert participants[|participants|..] == [];
  }

  /** Every name of the roster survives dedupe, and no other name appears. */
  lemma DedupeKeepsNames(participants: seq<Participant>, x: string)
    ensures x in Names(Dedupe(participants)) <==> x in Names(participants)
  {
    if x in Names(participants) {
      DedupeFromKeepsNames(participants, {}, x);
    }
    if x in Names(Dedupe(participants)) {
      var d := Dedupe(participants);
      var i :| 0 <= i < |d| && Names(d)[i] == x;
      assert d[i] in d;
      DedupeKeepsFirst(participants, d[i]);
      var k :| 0 <= k < |participants| && participants[k] == d[i] && FirstOfName(participants, k);
      assert Names(participants)[k] == x;
    }
  }

  /** A roster whose names are distinct and not taken passes through unchanged. */
  lemma {:induction false} DedupeFromNoop(participants: seq<Participant>, seen: set<string>)
    requires Distinct(Names(participants))
    requires forall k :: 0 <= k < |participants| ==> participants[k].name !in seen
    ensures DedupeFrom(participants, seen) == participants
    decreases |participants|
  {
    if participants != [] {
      var h, rest := participants[0], participants[1..];
      assert Distinct(Names(rest)) by {
        forall i, j | 0 <= i < j < |rest| ensures Names(rest)[i] != Names(rest)[j] {
          assert Names(participants)[i + 1] != Names(participants)[j + 1];
        }
      }
      forall k | 0 <= k < |rest| ensures rest[k].name !in seen + {h.name} {
        assert Names(participants)[0] != Names(participants)[k + 1];
      }
      DedupeFromNoop(rest, seen + {h.name});
      assert participants == [h] + rest;
    }
  }

  /** Dedupe twice is dedupe once. */
  lemma DedupeIdempotent(participants: seq<Participant>)
    ensures Dedupe(Dedupe(participants)) == Dedupe(participants)
  {
    DedupeDistinct(participants);
    DedupeFromNoop(Dedupe(participants), {});
  }

  /** After dedupe `getDuplicateIds` reports nothing, so the dedupe button is gone. */
  lemma DedupeClearsDuplicates(participants: seq<Participant>)
    ensures DuplicateIds(Dedupe(participants)) == {}
  {
    DedupeDistinct(participants);
    DuplicateIdsEmptyIff(Dedupe(participants));
  }

  /** Dedupe changes the roster exactly when `getDuplicateIds` reports something. */
  lemma DedupeChangesIffDuplicates(participants: seq<Participant>)
    ensures Dedupe(participants) == participants <==> DuplicateIds(participants) == {}
  {
    DuplicateIdsEmptyIff(participants);
    if DuplicateIds(participants) == {} {
      DedupeFromNoop(participants, {});
    }
    DedupeDistinct(participants);
  }

  /** `duplicateIds.size > 0`: whether the dedupe button is offered; it takes at least two records. */
  predicate DedupeOffered(participants: seq<Participant>)
    ensures DedupeOffered(participants) ==> |participants| >= 2
  {
    DuplicateIdsEmptyIff(participants);
    |DuplicateIds(participants)| > 0
  }

  /** The button is offered exactly when two records share a name. */
  lemma DedupeOfferedIff(participants: seq<Participant>)
    ensures DedupeOffered(participants) <==> !Distinct(Names(participants))
  {
    DuplicateIdsEmptyIff(participants);
  }

  // ------------------------------------------------------------------
  // The roster invariant
  // ------------------------------------------------------------------

  /** Every name on the roster is non-empty, trimmed and free of separators. */
  predicate WellFormed(participants: seq<Participant>)
  {
    forall k :: 0 <= k < |participants| ==> IsCleanName(participants[k].name)
  }

  /** Appending clean names keeps the roster well formed. */
  lemma AddCleanNames(participants: seq<Participant>, names: seq<string>, newId: nat -> string)
    requires WellFormed(participants) && forall k :: 0 <= k < |names| ==> IsCleanName(names[k])
    ensures WellFormed(AddNames(participants, names, newId))
  {
    var r := AddNames(participants, names, newId);
    forall k | 0 <= k < |r| ensures IsCleanName(r[k].name) {
      if k < |participants| {
        assert r[k] == r[..|participants|][k];
      } else {
        assert r[k] == r[|participants|..][k - |participants|];
        assert r[k].name == Names(r[|participants|..])[k - |participants|];
      }
    }
  }

  /** Elements of a subsequence come from the original. */
  lemma SubsequenceWellFormed(a: seq<Participant>, b: seq<Participant>)
    requires IsSubsequence(a, b) && WellFormed(b)
    ensures WellFormed(a)
  {
    SubsequenceElements(a, b);
    forall k | 0 <= k < |a| ensures IsCleanName(a[k].name) {
      assert a[k] in b;
    }
  }

  /**
   * Every roster handler keeps the roster well formed, except that names
   * handed to `handleAddNames` directly are taken as they are; the ones it is
   * handed (`MOCK_NAMES`) are clean.
   */
  lemma HandlersKeepWellFormed(participants: seq<Participant>, text: string, fileText: Option<string>,
                               id: string, confirmed: bool, newId: nat -> string)
    requires WellFormed(participants)
    ensures WellFormed(HandleAddNames(participants, text, None, newId).roster)
    ensures WellFormed(HandleLoadMockData(participants, text, newId).roster)
    ensures WellFormed(HandleFileUpload(participants, fileText, newId))
    ensures WellFormed(Dedupe(participants))
    ensures WellFormed(RemoveParticipant(participants, id))
    ensures WellFormed(HandleClear(participants, confirmed))
  {
    AddCleanNames(participants, ParseNames(text), newId);
    MockNamesClean();
    AddCleanNames(participants, MockNames, newId);
    if fileText.Some? {
      AddCleanNames(participants, ParseNames(fileText.value), newId);
    }
    DedupeSubsequence(participants);
    SubsequenceWellFormed(Dedupe(participants), participants);
    RemoveParticipantSubsequence(participants, id);
    SubsequenceWellFormed(RemoveParticipant(participants, id), participants);
  }
}

/**
 * The record shapes of the toolbox (types.ts): a participant of the roster,
 * a group produced by the grouping board, and the three screens of the app.
 */
module Types {

  datatype Option<T> = None | Some(value: T)

  /** A roster entry. Identity is the id; two entries may share a name. */
  datatype Participant = Participant(id: string, name: string)

  /** One group of a grouping run; members are name strings, not participant references. */
  datatype Group = Group(id: string, name: string, members: seq<string>)

  datatype AppMode = Setup | LuckyDraw | Grouping

  /** `participants.map(p => p.name)` */
  function Names(ps: seq<Participant>): (r: seq<string>)
    ensures |r| == |ps|
    ensures forall k :: 0 <= k < |ps| ==> r[k] == ps[k].name
  {
    seq(|ps|, k requires 0 <= k < |ps| => ps[k].name)
  }

  /** `groups.flatMap(g => g.members)` */
  function AllMembers(groups: seq<Group>): seq<string>
  {
    if groups == [] then [] else groups[0].members + AllMembers(groups[1..])
  }
}

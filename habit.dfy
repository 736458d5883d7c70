/** The persisted habit record and the proof records attached to it. */
module HabitModel {

  datatype Option<+T> = None | Some(value: T)

  /** A calendar day written "YYYY-MM-DD"; only ever used as a map key here. */
  type DateKey = string

  /** Evidence attached to one completed day; the store only passes it through. */
  type Proof(==)

  /** One habit as it is stored; `proofsByDate` is absent on records that never got a proof. */
  datatype Habit = Habit(
    id: string,
    title: string,
    goalDays: int,
    currentStreak: int,
    history: seq<DateKey>,
    createdAt: string,
    proofsByDate: Option<map<DateKey, seq<Proof>>>)

  /** The proof map of `h`, reading an absent one as the empty map. */
  function ProofMap(h: Habit): map<DateKey, seq<Proof>>
  {
    match h.proofsByDate
    case None => map[]
    case Some(m) => m
  }

  /** The proofs recorded for day `d`, reading a missing day as the empty list. */
  function ProofsOn(h: Habit, d: DateKey): seq<Proof>
  {
    var m := ProofMap(h);
    if d in m then m[d] else []
  }

  /** The ids of a habit list, in list order. */
  function IdsOf(hs: seq<Habit>): (ids: seq<string>)
    ensures forall x :: x in ids <==> exists i :: 0 <= i < |hs| && hs[i].id == x
  {
    var ids := seq(|hs|, i requires 0 <= i < |hs| => hs[i].id);
    assert forall i :: 0 <= i < |hs| ==> ids[i] == hs[i].id && ids[i] in ids;
    ids
  }

  /** No two habits of the list share an id. */
  predicate UniqueIds(hs: seq<Habit>)
  {
    forall i, j :: 0 <= i < j < |hs| ==> hs[i].id != hs[j].id
  }
}

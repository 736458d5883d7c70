/**
  The habit store: one key-value slot, "habits", holding the whole habit list.
  Every mutation reads the list, transforms it with one of the pure functions
  below, and writes the whole list back.
*/
module HabitStorage {
  import opened HabitModel

  /** The key of the one slot the store uses. */
  const HabitsStorageKey: string := "habits"

  /**
    What the text held under a key turns into when it is read back: the empty
    string, text the JSON parser rejects, a JSON value that is not an array,
    or an array of habit records.
  */
  datatype StoredText = Empty | Malformed | NonArray | ArrayOf(habits: seq<Habit>)

  /** The device's key-value store. */
  type Storage = map<string, StoredText>

  // ---------------------------------------------------------------------------
  // Reading and writing the slot
  // ---------------------------------------------------------------------------

  /**
    The list loading yields. `readFails` stands for the storage read itself
    raising an error (text that does not parse is `Malformed`); every unusable
    case degrades to the empty list.
  */
  function LoadedFrom(storage: Storage, readFails: bool): (hs: seq<Habit>)
    ensures readFails ==> hs == []
    ensures HabitsStorageKey !in storage ==> hs == []
    ensures HabitsStorageKey in storage && !storage[HabitsStorageKey].ArrayOf? ==> hs == []
    ensures (!readFails && HabitsStorageKey in storage && storage[HabitsStorageKey].ArrayOf?)
            ==> hs == storage[HabitsStorageKey].habits
  {
    if readFails || HabitsStorageKey !in storage then []
    else match storage[HabitsStorageKey]
      case ArrayOf(habits) => habits
      case _ => []
  }

  /**
    The store after writing `hs` to the slot. A failed write is swallowed and
    leaves the store as it was; a successful one replaces the slot wholesale.
  */
  function WrittenTo(storage: Storage, hs: seq<Habit>, writeFails: bool): (s: Storage)
    ensures writeFails ==> s == storage
    ensures !writeFails ==> HabitsStorageKey in s && s[HabitsStorageKey] == ArrayOf(hs)
    ensures !writeFails ==> s.Keys == storage.Keys + {HabitsStorageKey}
    ensures s - {HabitsStorageKey} == storage - {HabitsStorageKey}
  {
    if writeFails then storage else storage[HabitsStorageKey := ArrayOf(hs)]
  }

  /** Round trip: what a successful write stores, a successful read returns. */
  lemma PersistThenLoad(storage: Storage, hs: seq<Habit>)
    ensures LoadedFrom(WrittenTo(storage, hs, false), false) == hs
  {
  }

  // ---------------------------------------------------------------------------
  // saveHabit: append
  // ---------------------------------------------------------------------------

  /** Appending keeps ids unique exactly when the new id is not already taken. */
  lemma {:induction false} AppendUniqueIds(hs: seq<Habit>, h: Habit)
    ensures UniqueIds(hs + [h]) <==> UniqueIds(hs) && h.id !in IdsOf(hs)
  {
    var r := hs + [h];
    assert forall i :: 0 <= i < |hs| ==> r[i] == hs[i];
    if h.id in IdsOf(hs) {
      var i :| 0 <= i < |hs| && IdsOf(hs)[i] == h.id;
      assert r[i].id == r[|hs|].id;
    }
    if UniqueIds(hs) && h.id !in IdsOf(hs) {
      forall i, j | 0 <= i < j < |r| ensures r[i].id != r[j].id {
        if j == |hs| {
          assert IdsOf(hs)[i] == hs[i].id;
        } else {
          assert r[i] == hs[i] && r[j] == hs[j];
        }
      }
    }
  }

  // ---------------------------------------------------------------------------
  // updateHabit: replace by id
  // ---------------------------------------------------------------------------

  /** Every record whose id is `u.id` replaced by `u`. */
  function ReplaceById(hs: seq<Habit>, u: Habit): (r: seq<Habit>)
    ensures |r| == |hs|
  {
    if hs == [] then []
    else [if hs[0].id == u.id then u else hs[0]] + ReplaceById(hs[1..], u)
  }

  /** Each position holds `u` if its id matched, and its old record otherwise. */
  lemma {:induction false} ReplaceByIdAt(hs: seq<Habit>, u: Habit, i: int)
    requires 0 <= i < |hs|
    ensures ReplaceById(hs, u)[i] == if hs[i].id == u.id then u else hs[i]
  {
    if i > 0 {
      ReplaceByIdAt(hs[1..], u, i - 1);
    }
  }

  /** Replacing an id that no record carries leaves the list as it was. */
  lemma {:induction false} ReplaceByIdAbsent(hs: seq<Habit>, u: Habit)
    requires u.id !in IdsOf(hs)
    ensures ReplaceById(hs, u) == hs
  {
    if hs != [] {
      assert IdsOf(hs)[0] == hs[0].id;
      assert IdsOf(hs[1..]) == IdsOf(hs)[1..];
      ReplaceByIdAbsent(hs[1..], u);
    }
  }

  /** Updating twice with the same record is the same as updating once. */
  lemma {:induction false} ReplaceByIdIdempotent(hs: seq<Habit>, u: Habit)
    ensures ReplaceById(ReplaceById(hs, u), u) == ReplaceById(hs, u)
  {
    if hs != [] {
      var r := ReplaceById(hs, u);
      assert r[1..] == ReplaceById(hs[1..], u);
      ReplaceByIdIdempotent(hs[1..], u);
    }
  }

  /** Replacement never changes the sequence of ids, so it keeps them unique. */
  lemma {:induction false} ReplaceByIdKeepsIds(hs: seq<Habit>, u: Habit)
    ensures IdsOf(ReplaceById(hs, u)) == IdsOf(hs)
    ensures UniqueIds(hs) ==> UniqueIds(ReplaceById(hs, u))
  {
    var r := ReplaceById(hs, u);
    forall i | 0 <= i < |hs| ensures r[i].id == hs[i].id {
      ReplaceByIdAt(hs, u, i);
    }
  }

  // ---------------------------------------------------------------------------
  // deleteHabit: remove by id
  // ---------------------------------------------------------------------------

  /** The records whose id is not `id`, in their original order. */
  function RemoveById(hs: seq<Habit>, id: string): (r: seq<Habit>)
    ensures |r| <= |hs|
    ensures forall k :: 0 <= k < |r| ==> r[k].id != id
  {
    if hs == [] then []
    else if hs[0].id == id then RemoveById(hs[1..], id)
    else [hs[0]] + RemoveById(hs[1..], id)
  }

  /** Removal keeps every other record as often as it occurred, and none of the removed ones. */
  lemma {:induction false} RemoveByIdCount(hs: seq<Habit>, id: string, h: Habit)
    ensures multiset(RemoveById(hs, id))[h] == if h.id == id then 0 else multiset(hs)[h]
  {
    if hs != [] {
      RemoveByIdCount(hs[1..], id, h);
      assert hs == [hs[0]] + hs[1..];
    }
  }

  /** Removal works piecewise, so the records that stay keep their relative order. */
  lemma {:induction false} RemoveByIdConcat(a: seq<Habit>, b: seq<Habit>, id: string)
    ensures RemoveById(a + b, id) == RemoveById(a, id) + RemoveById(b, id)
  {
    if a == [] {
      assert a + b == b;
    } else {
      assert (a + b)[0] == a[0];
      assert (a + b)[1..] == a[1..] + b;
      RemoveByIdConcat(a[1..], b, id);
      var ra, rb := RemoveById(a[1..], id), RemoveById(b, id);
      if a[0].id != id {
        assert [a[0]] + (ra + rb) == ([a[0]] + ra) + rb;
      }
    }
  }

  /** Deleting an id that no record carries leaves the list as it was. */
  lemma {:induction false} RemoveByIdAbsent(hs: seq<Habit>, id: string)
    requires id !in IdsOf(hs)
    ensures RemoveById(hs, id) == hs
  {
    if hs != [] {
      assert IdsOf(hs)[0] == hs[0].id;
      assert IdsOf(hs[1..]) == IdsOf(hs)[1..];
      RemoveByIdAbsent(hs[1..], id);
    }
  }

  /** Deleting keeps a collection with unique ids unique. */
  lemma {:induction false} RemoveByIdKeepsUnique(hs: seq<Habit>, id: string)
    requires UniqueIds(hs)
    ensures UniqueIds(RemoveById(hs, id))
  {
    if hs != [] {
      var rest := RemoveById(hs[1..], id);
      assert UniqueIds(hs[1..]) by {
        forall i, j | 0 <= i < j < |hs[1..]| ensures hs[1..][i].id != hs[1..][j].id {
          assert hs[1..][i] == hs[i + 1] && hs[1..][j] == hs[j + 1];
        }
      }
      RemoveByIdKeepsUnique(hs[1..], id);
      if hs[0].id != id {
        var r := [hs[0]] + rest;
        forall i, j | 0 <= i < j < |r| ensures r[i].id != r[j].id {
          if i == 0 {
            var x := rest[j - 1];
            RemoveByIdCount(hs[1..], id, x);
            assert x in multiset(rest);
            assert x in hs[1..];
            var k :| 0 <= k < |hs[1..]| && hs[1..][k] == x;
            assert hs[k + 1] == x;
          } else {
            assert r[i] == rest[i - 1] && r[j] == rest[j - 1];
          }
        }
      }
    }
  }

  // ---------------------------------------------------------------------------
  // addHabitProof: append a proof to one day of the matching habits
  // ---------------------------------------------------------------------------

  /**
    `h` with `p` appended to the proofs of day `d`; an absent proof map and an
    absent day both start out empty. Nothing else about `h` changes.
  */
  function WithProof(h: Habit, d: DateKey, p: Proof): (r: Habit)
    ensures r.proofsByDate.Some?
    ensures ProofsOn(r, d) == ProofsOn(h, d) + [p]
    ensures d in ProofMap(r)
    ensures ProofMap(r) - {d} == ProofMap(h) - {d}
    ensures r.(proofsByDate := h.proofsByDate) == h
  {
    var existing := ProofMap(h);
    var forDay := if d in existing then existing[d] else [];
    h.(proofsByDate := Some(existing[d := forDay + [p]]))
  }

  /** Every habit whose id is `habitId` given proof `p` on day `d`. */
  function AddProofById(hs: seq<Habit>, habitId: string, d: DateKey, p: Proof): (r: seq<Habit>)
    ensures |r| == |hs|
  {
    if hs == [] then []
    else [if hs[0].id != habitId then hs[0] else WithProof(hs[0], d, p)]
         + AddProofById(hs[1..], habitId, d, p)
  }

  /** Matching positions get the proof, every other position is left untouched. */
  lemma {:induction false} AddProofByIdAt(hs: seq<Habit>, habitId: string, d: DateKey, p: Proof, i: int)
    requires 0 <= i < |hs|
    ensures AddProofById(hs, habitId, d, p)[i]
            == if hs[i].id == habitId then WithProof(hs[i], d, p) else hs[i]
  {
    if i > 0 {
      AddProofByIdAt(hs[1..], habitId, d, p, i - 1);
    }
  }

  /** Adding a proof for an id that no record carries leaves the list as it was. */
  lemma {:induction false} AddProofByIdAbsent(hs: seq<Habit>, habitId: string, d: DateKey, p: Proof)
    requires habitId !in IdsOf(hs)
    ensures AddProofById(hs, habitId, d, p) == hs
  {
    if hs != [] {
      assert IdsOf(hs)[0] == hs[0].id;
      assert IdsOf(hs[1..]) == IdsOf(hs)[1..];
      AddProofByIdAbsent(hs[1..], habitId, d, p);
    }
  }

  /** Adding a proof never changes the sequence of ids. */
  lemma {:induction false} AddProofByIdKeepsIds(hs: seq<Habit>, habitId: string, d: DateKey, p: Proof)
    ensures IdsOf(AddProofById(hs, habitId, d, p)) == IdsOf(hs)
  {
    var r := AddProofById(hs, habitId, d, p);
    forall i | 0 <= i < |hs| ensures r[i].id == hs[i].id {
      AddProofByIdAt(hs, habitId, d, p, i);
    }
  }

  /**
    Two successive calls for the same habit and day append both proofs, in
    call order, and touch neither the other days nor the other habits.
  */
  lemma {:induction false} AddProofTwice(hs: seq<Habit>, habitId: string, d: DateKey, p1: Proof, p2: Proof, i: int)
    requires 0 <= i < |hs|
    ensures hs[i].id == habitId ==>
              ProofsOn(AddProofById(AddProofById(hs, habitId, d, p1), habitId, d, p2)[i], d)
              == ProofsOn(hs[i], d) + [p1, p2]
    ensures hs[i].id == habitId ==>
              ProofMap(AddProofById(AddProofById(hs, habitId, d, p1), habitId, d, p2)[i]) - {d}
              == ProofMap(hs[i]) - {d}
    ensures hs[i].id != habitId ==>
              AddProofById(AddProofById(hs, habitId, d, p1), habitId, d, p2)[i] == hs[i]
  {
    var once := AddProofById(hs, habitId, d, p1);
    AddProofByIdAt(hs, habitId, d, p1, i);
    AddProofByIdAt(once, habitId, d, p2, i);
  }

  // ---------------------------------------------------------------------------
  // The store
  // ---------------------------------------------------------------------------

  /**
    The store over the device's key-value storage. `readFails` and
    `writeFails` say whether the storage layer raises an error on this call;
    no operation lets such an error escape.
  */
  class HabitStore {
    var storage: Storage

    constructor (initial: Storage)
      ensures storage == initial
    {
      storage := initial;
    }

    /** The list a successful read of the slot yields. */
    function Habits(): seq<Habit>
      reads this
    {
      LoadedFrom(storage, false)
    }

    /** loadHabits: the stored list, or the empty list when nothing usable is stored. */
    method LoadHabits(readFails: bool) returns (hs: seq<Habit>)
      ensures hs == LoadedFrom(storage, readFails)
      ensures !readFails ==> hs == Habits()
    {
      hs := LoadedFrom(storage, readFails);
    }

    /** persistHabits (module-private in the source): the slot holds exactly `hs`, unless the write fails and is swallowed. */
    method PersistHabits(hs: seq<Habit>, writeFails: bool)
      modifies this
      ensures storage == WrittenTo(old(storage), hs, writeFails)
      ensures !writeFails ==> Habits() == hs
      ensures writeFails ==> Habits() == old(Habits())
    {
      storage := WrittenTo(storage, hs, writeFails);
    }

    /** saveHabit: `h` appended at the end, without any id check. */
    method SaveHabit(h: Habit, readFails: bool, writeFails: bool)
      modifies this
      ensures storage == WrittenTo(old(storage), LoadedFrom(old(storage), readFails) + [h], writeFails)
      ensures !readFails && !writeFails ==> Habits() == old(Habits()) + [h]
    {
      var hs := LoadHabits(readFails);
      PersistHabits(hs + [h], writeFails);
    }

    /** updateHabit: every record with `u`'s id replaced by `u`. */
    method UpdateHabit(u: Habit, readFails: bool, writeFails: bool)
      modifies this
      ensures storage == WrittenTo(old(storage), ReplaceById(LoadedFrom(old(storage), readFails), u), writeFails)
      ensures !readFails && !writeFails ==> Habits() == ReplaceById(old(Habits()), u)
    {
      var hs := LoadHabits(readFails);
      PersistHabits(ReplaceById(hs, u), writeFails);
    }

    /** deleteHabit: every record with the given id dropped. */
    method DeleteHabit(id: string, readFails: bool, writeFails: bool)
      modifies this
      ensures storage == WrittenTo(old(storage), RemoveById(LoadedFrom(old(storage), readFails), id), writeFails)
      ensures !readFails && !writeFails ==> Habits() == RemoveById(old(Habits()), id)
    {
      var hs := LoadHabits(readFails);
      PersistHabits(RemoveById(hs, id), writeFails);
    }

    /** addHabitProof: `p` appended to day `d` of every habit with id `habitId`. */
    method AddHabitProof(habitId: string, d: DateKey, p: Proof, readFails: bool, writeFails: bool)
      modifies this
      ensures storage == WrittenTo(old(storage), AddProofById(LoadedFrom(old(storage), readFails), habitId, d, p), writeFails)
      ensures !readFails && !writeFails ==> Habits() == AddProofById(old(Habits()), habitId, d, p)
    {
      var hs := LoadHabits(readFails);
      PersistHabits(AddProofById(hs, habitId, d, p), writeFails);
    }
  }
}

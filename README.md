# Habit store model

A Dafny model of the habit collection store of a mobile habit tracker
(`src/resources/storage/HabitStorage.tsx`). The store keeps the whole habit
list as one JSON array under the single key-value slot `"habits"`. It offers:

- `loadHabits`, which returns the stored list and degrades to the empty list
  when the slot is absent or empty, when the storage read raises, when the
  text does not parse, or when the parsed value is not an array;
- four read-modify-write operations built on `loadHabits` and the
  module-private helper `persistHabits` (not exported,
  `src/resources/storage/HabitStorage.tsx:88`), which overwrites the slot
  with the whole list and swallows any error: `saveHabit` (append),
  `updateHabit` (replace every record with the same id), `deleteHabit`
  (drop every record with the id) and `addHabitProof` (append a proof to one
  day of every record with the id).

Files:

- `habit.dfy`, module `HabitModel`: the `Habit` record of
  `src/resources/models/Habit.ts`, extended with the optional `proofsByDate`
  map that the store reads and writes, and the opaque `Proof` type.
- `habit_storage.dfy`, module `HabitStorage`: the slot, the pure list
  transformations with their lemmas, and the class `HabitStore` whose methods
  are the store's operations.

How the environment is modelled:

- The device's key-value storage is a field `storage: map<string, StoredText>`
  of `HabitStore`. `StoredText` abstracts what `JSON.parse` makes of the text
  under a key: `Empty`, `Malformed`, `NonArray` or `ArrayOf(habits)`.
- A storage read (`getItem`) or write (`setItem`) that raises is a parameter
  of each operation (`readFails`, `writeFails`); text that does not parse is
  the `Malformed` case of `StoredText`. The model exposes `persistHabits` as
  the method `HabitStore.PersistHabits` so that the write/read round trip can
  be stated; callers of the module reach it only through the four mutations. A write either replaces the slot wholesale or leaves the
  storage untouched; there is no partial write.
- Calls are strictly sequential; every method runs to completion before the
  next one starts.

A mutation whose read fails, or finds nothing usable in the slot, still goes
on with the empty list and persists the transformation of `[]`
(`src/resources/storage/HabitStorage.tsx:36-39`, `:43-49`, `:53-56`,
`:64-85`). So `saveHabit` then stores just `[h]`, and `updateHabit`,
`deleteHabit` and `addHabitProof` store `[]`, erasing the collection. The
contracts of `SaveHabit`, `UpdateHabit`, `DeleteHabit` and `AddHabitProof`
state this, since they are written in terms of
`LoadedFrom(old(storage), readFails)`.

`src/resources/models/Habit.ts` declares neither `HabitProof` nor
`proofsByDate`, although `HabitStorage.tsx:2` imports the one and `:71` reads
the other. The model adds `proofsByDate` as an optional field of `Habit` and
declares `Proof` as an opaque type with equality: the store never inspects a
proof.

## Model

| member | source | states |
|---|---|---|
| HabitStorage.LoadedFrom | src/resources/storage/HabitStorage.tsx:6-24 | loading yields `[]` when the read fails, the slot is absent, empty, unparsable or not an array, and otherwise exactly the stored array |
| HabitStorage.WrittenTo | src/resources/storage/HabitStorage.tsx:26-33 | a failed write leaves the storage unchanged; a successful one makes the `"habits"` slot hold exactly the list; no other key changes |
| HabitStorage.PersistThenLoad | src/resources/storage/HabitStorage.tsx:6-33 | round trip: after a successful write, a successful load returns exactly the written list |
| HabitStorage.HabitStore.LoadHabits | src/resources/storage/HabitStorage.tsx:6-24 | returns the fail-soft reading of the current slot and changes nothing |
| HabitStorage.HabitStore.PersistHabits | src/resources/storage/HabitStorage.tsx:26-33 | the new storage is the old one with the slot overwritten, or unchanged when the write fails; on success the stored list is the argument |
| HabitStorage.HabitStore.SaveHabit | src/resources/storage/HabitStorage.tsx:35-40 | the stored list becomes the loaded list with `h` appended at the end, without an id check |
| HabitStorage.AppendUniqueIds | src/resources/storage/HabitStorage.tsx:37 | appending keeps ids unique if and only if the list had unique ids and the new id was not among them |
| HabitStorage.HabitStore.UpdateHabit | src/resources/storage/HabitStorage.tsx:42-50 | the stored list becomes the loaded list with every record of the same id replaced |
| HabitStorage.ReplaceById | src/resources/storage/HabitStorage.tsx:45-47 | replacement preserves the list's length |
| HabitStorage.ReplaceByIdAt | src/resources/storage/HabitStorage.tsx:45-47 | every position whose id matches holds the new record (all duplicates, not only the first); every other position keeps its record |
| HabitStorage.ReplaceByIdAbsent | src/resources/storage/HabitStorage.tsx:45-47 | when no record has the id the list is unchanged |
| HabitStorage.ReplaceByIdIdempotent | src/resources/storage/HabitStorage.tsx:42-50 | updating twice with the same record equals updating once |
| HabitStorage.ReplaceByIdKeepsIds | src/resources/storage/HabitStorage.tsx:45-47 | the sequence of ids is unchanged, so unique ids stay unique |
| HabitStorage.HabitStore.DeleteHabit | src/resources/storage/HabitStorage.tsx:52-57 | the stored list becomes the loaded list without the records of that id |
| HabitStorage.RemoveById | src/resources/storage/HabitStorage.tsx:54 | deletion never lengthens the list and leaves no record with the id |
| HabitStorage.RemoveByIdCount | src/resources/storage/HabitStorage.tsx:54 | every record with another id is kept as many times as it occurred; records with the id occur zero times |
| HabitStorage.RemoveByIdConcat | src/resources/storage/HabitStorage.tsx:54 | deletion distributes over concatenation, so the remaining records keep their relative order |
| HabitStorage.RemoveByIdAbsent | src/resources/storage/HabitStorage.tsx:54 | deleting an absent id leaves the list unchanged |
| HabitStorage.RemoveByIdKeepsUnique | src/resources/storage/HabitStorage.tsx:54 | deletion keeps unique ids unique |
| HabitStorage.HabitStore.AddHabitProof | src/resources/storage/HabitStorage.tsx:59-86 | the stored list becomes the loaded list with the proof added to the matching habits |
| HabitStorage.WithProof | src/resources/storage/HabitStorage.tsx:71-82 | the day's proofs become the old ones (empty when the map or the day is absent) followed by the proof; the proof map is present afterwards; every other day and every other field is unchanged |
| HabitStorage.AddProofById | src/resources/storage/HabitStorage.tsx:66-83 | adding a proof preserves the list's length |
| HabitStorage.AddProofByIdAt | src/resources/storage/HabitStorage.tsx:66-83 | matching positions get the proof, all other positions are untouched |
| HabitStorage.AddProofByIdAbsent | src/resources/storage/HabitStorage.tsx:66-69 | for an id no record carries the list is unchanged |
| HabitStorage.AddProofByIdKeepsIds | src/resources/storage/HabitStorage.tsx:66-83 | the sequence of ids is unchanged |
| HabitStorage.AddProofTwice | src/resources/storage/HabitStorage.tsx:66-85 | two successive calls for the same habit and day append both proofs in call order and change no other day and no other habit |

## Left out

- JSON serialisation and the AsyncStorage backend are foreign libraries; they are abstracted into `StoredText`, and the model takes the encoding of a habit list to read back as the same list.
- A parsed array whose elements are not habit records is returned unchecked by the source (a cast); the model only represents arrays of habit records.
- JavaScript plain-object quirks of `proofsByDate` keys (a day key such as `"constructor"` or `"__proto__"` hitting the object prototype) are not modelled; day keys are plain map keys.
- `goalDays` and `currentStreak` are JavaScript numbers; the model uses unbounded integers.
- Logging of caught errors (`console.error`) is output only and is left out.
- Overlapping, un-awaited calls and the lost updates they can cause are concurrency and are left out; calls are sequential.
- Streak computation and date arithmetic do not occur in the store's source and are not modelled.
- The notification service, the inline-alert hook, the screens, components and build configuration are outside the store and are not part of this model.

/** The append-only multimap under every keyed index, with its entry slices as Go keeps them. */
module BlocksDB {
  import opened Options
  import opened Entries
  import opened Index

  /** A Go slice: the first `len` elements of a backing array that may be longer and may be shared. */
  datatype Slice = Slice(arr: nat, len: nat)

  /** The backing arrays made so far, each at its full capacity. */
  type Arrays = seq<seq<Entry>>

  predicate InMemory(arrays: Arrays, s: Slice) {
    s.arr < |arrays| && s.len <= |arrays[s.arr]|
  }

  function Elements(arrays: Arrays, s: Slice): seq<Entry>
    requires InMemory(arrays, s)
  {
    arrays[s.arr][..s.len]
  }

  /** Every key's slice is in memory, and no two keys share a backing array. */
  ghost predicate ValidStore(db: map<string, Slice>, arrays: Arrays) {
    && (forall k | k in db :: InMemory(arrays, db[k]))
    && (forall j, k | j in db && k in db && j != k :: db[j].arr != db[k].arr)
  }

  ghost function ContentsOf(db: map<string, Slice>, arrays: Arrays): Multimap
    requires ValidStore(db, arrays)
  {
    map k | k in db :: Elements(arrays, db[k])
  }

  /** A slice some earlier Load may have returned: in memory, and no longer than what its array's key holds now. */
  ghost predicate SnapshotOf(db: map<string, Slice>, arrays: Arrays, s: Slice) {
    InMemory(arrays, s) && forall k | k in db && db[k].arr == s.arr :: s.len <= db[k].len
  }

  /** The second state comes from the first by appending: the key has the new entry, every snapshot its old elements. */
  ghost predicate Appended(db: map<string, Slice>, arrays: Arrays, db': map<string, Slice>, arrays': Arrays,
                           key: string, entry: Entry)
    requires ValidStore(db, arrays)
  {
    && ValidStore(db', arrays')
    && ContentsOf(db', arrays') == Put(ContentsOf(db, arrays), key, entry)
    && (forall s | SnapshotOf(db, arrays, s) ::
          SnapshotOf(db', arrays', s) && Elements(arrays', s) == Elements(arrays, s))
  }

  /** Seen key by key, only the one key has changed, and it has the new entry last. */
  lemma EntryAppended(db: map<string, Slice>, arrays: Arrays, db': map<string, Slice>, arrays': Arrays,
                      key: string, entry: Entry)
    requires ValidStore(db, arrays) && ValidStore(db', arrays') && db'.Keys == db.Keys + {key}
    requires forall k | k in db && k != key :: Elements(arrays', db'[k]) == Elements(arrays, db[k])
    requires Elements(arrays', db'[key]) == (if key in db then Elements(arrays, db[key]) else []) + [entry]
    ensures ContentsOf(db', arrays') == Put(ContentsOf(db, arrays), key, entry)
  {
  }

  // ---- Go's append ----

  function Held(db: map<string, Slice>, arrays: Arrays, key: string): seq<Entry>
    requires ValidStore(db, arrays)
  {
    if key in db then Elements(arrays, db[key]) else []
  }

  predicate HasRoom(db: map<string, Slice>, arrays: Arrays, key: string)
    requires ValidStore(db, arrays)
  {
    key in db && db[key].len < |arrays[db[key].arr]|
  }

  /** With room past the length, the next element is written in place. */
  ghost predicate InPlace(db: map<string, Slice>, arrays: Arrays, db': map<string, Slice>, arrays': Arrays,
                          key: string, entry: Entry)
    requires ValidStore(db, arrays) && HasRoom(db, arrays, key)
  {
    var Slice(arr, len) := db[key];
    arrays' == arrays[arr := arrays[arr][len := entry]] && db' == db[key := Slice(arr, len + 1)]
  }

  /** Without room a new array of any larger capacity takes over, with anything behind the new element. */
  ghost predicate Moved(db: map<string, Slice>, arrays: Arrays, db': map<string, Slice>, arrays': Arrays,
                        key: string, entry: Entry)
    requires ValidStore(db, arrays)
  {
    var held := Held(db, arrays, key);
    && |arrays'| == |arrays| + 1 && arrays'[..|arrays|] == arrays
    && held + [entry] <= arrays'[|arrays|]
    && db' == db[key := Slice(|arrays|, |held| + 1)]
  }

  /** One append to the key's slice. */
  ghost predicate Appends(db: map<string, Slice>, arrays: Arrays, db': map<string, Slice>, arrays': Arrays,
                          key: string, entry: Entry)
    requires ValidStore(db, arrays)
  {
    if HasRoom(db, arrays, key) then InPlace(db, arrays, db', arrays', key, entry)
    else Moved(db, arrays, db', arrays', key, entry)
  }

  /** The element is written past the end of every slice returned earlier. */
  lemma InPlaceKeeps(db: map<string, Slice>, arrays: Arrays, db': map<string, Slice>, arrays': Arrays,
                     key: string, entry: Entry, s: Slice)
    requires ValidStore(db, arrays) && HasRoom(db, arrays, key) && InPlace(db, arrays, db', arrays', key, entry)
    requires SnapshotOf(db, arrays, s)
    ensures SnapshotOf(db', arrays', s) && Elements(arrays', s) == Elements(arrays, s)
  {
    if s.arr == db[key].arr {
      assert s.len <= db[key].len;
    }
  }

  lemma InPlaceIsValid(db: map<string, Slice>, arrays: Arrays, db': map<string, Slice>, arrays': Arrays,
                       key: string, entry: Entry)
    requires ValidStore(db, arrays) && HasRoom(db, arrays, key) && InPlace(db, arrays, db', arrays', key, entry)
    ensures ValidStore(db', arrays')
    ensures Elements(arrays', db'[key]) == Elements(arrays, db[key]) + [entry]
    ensures forall k | k in db && k != key :: Elements(arrays', db'[k]) == Elements(arrays, db[k])
  {
  }

  lemma InPlaceAppends(db: map<string, Slice>, arrays: Arrays, db': map<string, Slice>, arrays': Arrays,
                       key: string, entry: Entry)
    requires ValidStore(db, arrays) && HasRoom(db, arrays, key) && InPlace(db, arrays, db', arrays', key, entry)
    ensures Appended(db, arrays, db', arrays', key, entry)
  {
    InPlaceIsValid(db, arrays, db', arrays', key, entry);
    EntryAppended(db, arrays, db', arrays', key, entry);
    forall s | SnapshotOf(db, arrays, s) ensures SnapshotOf(db', arrays', s) && Elements(arrays', s) == Elements(arrays, s) {
      InPlaceKeeps(db, arrays, db', arrays', key, entry, s);
    }
  }

  lemma OldArraysStay(arrays: Arrays, arrays': Arrays, s: Slice)
    requires |arrays'| == |arrays| + 1 && arrays'[..|arrays|] == arrays && InMemory(arrays, s)
    ensures InMemory(arrays', s) && Elements(arrays', s) == Elements(arrays, s)
  {
    assert arrays'[..|arrays|][s.arr] == arrays[s.arr];
  }

  lemma MovedAppends(db: map<string, Slice>, arrays: Arrays, db': map<string, Slice>, arrays': Arrays,
                     key: string, entry: Entry)
    requires ValidStore(db, arrays) && Moved(db, arrays, db', arrays', key, entry)
    ensures Appended(db, arrays, db', arrays', key, entry)
  {
    forall s | InMemory(arrays, s) ensures InMemory(arrays', s) && Elements(arrays', s) == Elements(arrays, s) {
      OldArraysStay(arrays, arrays', s);
    }
    assert Elements(arrays', db'[key]) == Held(db, arrays, key) + [entry];
    EntryAppended(db, arrays, db', arrays', key, entry);
  }

  /** In place or moved: the key has the new entry, and what earlier slices show stays. */
  lemma AppendsIsAppended(db: map<string, Slice>, arrays: Arrays, db': map<string, Slice>, arrays': Arrays,
                          key: string, entry: Entry)
    requires ValidStore(db, arrays) && Appends(db, arrays, db', arrays', key, entry)
    ensures Appended(db, arrays, db', arrays', key, entry)
  {
    if HasRoom(db, arrays, key) {
      InPlaceAppends(db, arrays, db', arrays', key, entry);
    } else {
      MovedAppends(db, arrays, db', arrays', key, entry);
    }
  }

  class BlocksDB {
    var blockDB: map<string, Slice>
    var arrays: Arrays

    ghost predicate Valid()
      reads this
    {
      ValidStore(blockDB, arrays)
    }

    ghost function Contents(): Multimap
      requires Valid()
      reads this
    {
      ContentsOf(blockDB, arrays)
    }

    constructor ()
      ensures Valid()
      ensures Contents() == map[]
    {
      blockDB, arrays := map[], [];
    }

    method Load(key: string) returns (entries: Option<Slice>)
      requires Valid()
      ensures entries.Some? <==> key in Contents()
      ensures entries.Some? ==> entries.value == blockDB[key] && SnapshotOf(blockDB, arrays, entries.value)
      ensures entries.Some? ==> Elements(arrays, entries.value) == Contents()[key]
    {
      entries := if key in blockDB then Some(blockDB[key]) else None;
    }

    /** The entries a lookup sees: those of the key, or none. */
    method LoadEntries(key: string) returns (entries: seq<Entry>)
      requires Valid()
      ensures entries == Get(Contents(), key)
    {
      var s := Load(key);
      match s {
        case None => entries := [];
        case Some(slice) => entries := Elements(arrays, slice);
      }
    }

    /** Appends an entry to the key's slice; every slice returned earlier keeps its elements. */
    method Store(key: string, entry: Entry)
      requires Valid()
      modifies this
      ensures Valid() && Contents() == Put(old(Contents()), key, entry)
      ensures Appends(old(blockDB), old(arrays), blockDB, arrays, key, entry)
      ensures Appended(old(blockDB), old(arrays), blockDB, arrays, key, entry)
    {
      ghost var db, before := blockDB, arrays;
      if key in blockDB && blockDB[key].len < |arrays[blockDB[key].arr]| {
        var Slice(arr, len) := blockDB[key];
        arrays := arrays[arr := arrays[arr][len := entry]];
        blockDB := blockDB[key := Slice(arr, len + 1)];
      } else {
        var held := if key in blockDB then Elements(arrays, blockDB[key]) else [];
        var room: seq<Entry> :| true;  // the spare capacity, whatever it holds
        blockDB := blockDB[key := Slice(|arrays|, |held| + 1)];
        arrays := arrays + [held + [entry] + room];
      }
      AppendsIsAppended(db, before, blockDB, arrays, key, entry);
    }
  }

  // ---- snapshots over whole runs ----

  datatype StoreState = StoreState(db: map<string, Slice>, arrays: Arrays)

  /** Consecutive states of a store, each reached from the one before by one append. */
  ghost predicate StoreRun(run: seq<StoreState>) {
    && run != [] && ValidStore(run[0].db, run[0].arrays)
    && (forall i | 0 <= i < |run| - 1 :: OneStore(run[i], run[i + 1]))
  }

  ghost predicate OneStore(a: StoreState, b: StoreState) {
    ValidStore(a.db, a.arrays) && exists key, entry :: Appends(a.db, a.arrays, b.db, b.arrays, key, entry)
  }

  lemma OneStoreKeeps(a: StoreState, b: StoreState)
    requires OneStore(a, b)
    ensures ValidStore(b.db, b.arrays)
    ensures forall s | SnapshotOf(a.db, a.arrays, s) ::
              SnapshotOf(b.db, b.arrays, s) && Elements(b.arrays, s) == Elements(a.arrays, s)
  {
    var key, entry :| Appends(a.db, a.arrays, b.db, b.arrays, key, entry);
    AppendsIsAppended(a.db, a.arrays, b.db, b.arrays, key, entry);
  }

  /** A slice returned by Load keeps its elements through any number of later Store calls. */
  lemma {:induction false} SnapshotsAreStable(run: seq<StoreState>, i: nat, j: nat, s: Slice)
    requires StoreRun(run) && i <= j < |run|
    requires SnapshotOf(run[i].db, run[i].arrays, s)
    ensures SnapshotOf(run[j].db, run[j].arrays, s)
    ensures Elements(run[j].arrays, s) == Elements(run[i].arrays, s)
    decreases j - i
  {
    if i == j {
    } else {
      SnapshotsAreStable(run, i, j - 1, s);
      assert OneStore(run[j - 1], run[j - 1 + 1]);
      OneStoreKeeps(run[j - 1], run[j]);
    }
  }
}

/**
 * `ObjectTrackerWriter`: the live heap regions, filed under their end
 * address in an ordered map, a "dereferenced" flag per region (also filed
 * under an end address), and the snapshot history: one list per region
 * ("manager") holding every version of that region that was replaced.
 * Version `j` of manager `i` sits at position `j` of list `i`.
 */
module ObjectTracker {
  import opened Wrappers
  import opened BasicTypes
  import opened Bytes
  import opened SymbolicObject
  import Arith
  import MW = MemoryWriter

  // ------------------------------------------------------------ upper_bound

  /** `k` is the least key above `addr`. */
  predicate IsLeastAbove(keys: set<nat>, addr: int, k: nat) {
    k in keys && addr < k && forall j | j in keys && addr < j :: k <= j
  }

  lemma {:induction false} LeastAboveExists(keys: set<nat>, addr: int, j: nat)
    requires j in keys && addr < j
    ensures exists k :: IsLeastAbove(keys, addr, k)
    decreases j
  {
    if !IsLeastAbove(keys, addr, j) {
      var j' :| j' in keys && addr < j' && j' < j;
      LeastAboveExists(keys, addr, j');
    }
  }

  /** `upper_bound(addr)` of an ordered map with key set `keys`. */
  ghost function UpperBound(keys: set<nat>, addr: int): (r: Option<nat>)
    ensures r.Some? ==> IsLeastAbove(keys, addr, r.value)
    ensures r.None? <==> forall j | j in keys :: j <= addr
  {
    if exists j :: j in keys && addr < j then
      var j :| j in keys && addr < j;
      LeastAboveExists(keys, addr, j);
      var k :| IsLeastAbove(keys, addr, k);
      Some(k)
    else None
  }

  lemma UpperBoundIs(keys: set<nat>, addr: int, k: nat)
    requires IsLeastAbove(keys, addr, k)
    ensures UpperBound(keys, addr) == Some(k)
  {
  }

  /** The lookup the ordered map performs, as a scan over its keys. */
  method FindUpperBound(keys: set<nat>, addr: int) returns (r: Option<nat>)
    ensures r == UpperBound(keys, addr)
  {
    r := None;
    var rest := keys;
    while rest != {}
      invariant rest <= keys
      invariant r.Some? ==> r.value in keys && addr < r.value
      invariant r.Some? ==> forall j | j in keys - rest && addr < j :: r.value <= j
      invariant r.None? ==> forall j | j in keys - rest :: j <= addr
      decreases |rest|
    {
      var x :| x in rest;
      if addr < x && (r.None? || x < r.value) {
        r := Some(x);
      }
      assert keys - (rest - {x}) == (keys - rest) + {x};
      rest := rest - {x};
    }
    assert keys - rest == keys;
    if r.Some? {
      UpperBoundIs(keys, addr, r.value);
    }
  }

  // ------------------------------------------------------------------ state

  datatype Tracker = Tracker(regions: map<nat, Obj>, dereferenced: map<nat, bool>,
                             history: seq<seq<Obj>>, barrier: bool)

  /** Manager indices pass through a C `int`, so at most 2^31 managers exist. */
  const MAX_MANAGERS: nat := 0x8000_0000

  /** Every object of a list of versions holds no symbolic bytes. */
  predicate NoMemory(h: seq<seq<Obj>>) {
    forall i, j | 0 <= i < |h| && 0 <= j < |h[i]| :: h[i][j].mem == map[]
  }

  /**
   * Each live object is filed under its end and belongs to an existing
   * manager; no object ever holds symbolic bytes, as nothing writes an
   * object's memory.
   */
  predicate WellFormed(t: Tracker) {
    (forall k | k in t.regions ::
      k == End(t.regions[k]) && t.regions[k].managerIdx < |t.history| && t.regions[k].mem == map[]) &&
    NoMemory(t.history)
  }

  const Empty: Tracker := Tracker(map[], map[], [], false)

  // ----------------------------------------------------------- operations

  /**
   * `addRegion(addr, size)`: unless the barrier is up, a new manager and
   * version 0 of the region, filed under `addr + size` and flagged as read.
   */
  function Add(t: Tracker, addr: UInt64, size: UInt64): (t': Tracker)
    requires |t.history| < MAX_MANAGERS
    ensures WellFormed(t) ==> WellFormed(t')
    ensures t.barrier ==> t' == t
  {
    if t.barrier then t
    else
      var o := NewObj(addr, size, |t.history|);
      Tracker(t.regions[addr + size := o], t.dereferenced[addr + size := true], t.history + [[]], t.barrier)
  }

  /** `find(addr)`: the object of the least end above `addr`, if it starts at or below `addr`. */
  ghost function Lookup(t: Tracker, addr: UInt64): Option<Obj> {
    match UpperBound(t.regions.Keys, addr)
    case None => None
    case Some(k) => if t.regions[k].start <= addr then Some(t.regions[k]) else None
  }

  /** `removeTrackingObj(addr)`: stops tracking the object that starts exactly at `addr`. */
  ghost function Untrack(t: Tracker, addr: UInt64): (t': Tracker)
    ensures t'.dereferenced == t.dereferenced && t'.history == t.history && t'.barrier == t.barrier
    ensures t'.regions.Keys <= t.regions.Keys
    ensures forall k | k in t'.regions :: t'.regions[k] == t.regions[k]
  {
    match UpperBound(t.regions.Keys, addr)
    case None => t
    case Some(k) =>
      if t.regions[k].start == addr then t.(regions := t.regions - {End(t.regions[k])}) else t
  }

  /**
   * `updateDereferredStateOfRegion(obj, addr, truth)`: drops the least flag
   * above `addr` and files `truth` under `obj`'s end.
   */
  ghost function MarkDeref(t: Tracker, o: Obj, addr: UInt64, truth: bool): (t': Tracker)
    ensures t'.regions == t.regions && t'.history == t.history && t'.barrier == t.barrier
  {
    match UpperBound(t.dereferenced.Keys, addr)
    case None => t
    case Some(k) => t.(dereferenced := (t.dereferenced - {k})[End(o) := truth])
  }

  /** `getDereferredStateOfRegion(addr)`: the least flag above `addr`, false if none. */
  ghost function DerefState(t: Tracker, addr: UInt64): (b: bool)
    ensures (forall k | k in t.dereferenced :: k <= addr) ==> !b
  {
    match UpperBound(t.dereferenced.Keys, addr)
    case None => false
    case Some(k) => t.dereferenced[k]
  }

  /** Appends `o` to its manager's list of versions. */
  function Archive(t: Tracker, o: Obj): (t': Tracker)
    requires o.managerIdx < |t.history|
    ensures t'.regions == t.regions && t'.dereferenced == t.dereferenced && t'.barrier == t.barrier
  {
    t.(history := t.history[o.managerIdx := t.history[o.managerIdx] + [o]])
  }

  /** `storeObj(addr)`: archives the object that starts exactly at `addr`. */
  ghost function Store(t: Tracker, addr: UInt64): (t': Tracker)
    requires WellFormed(t)
    ensures t'.regions == t.regions && t'.dereferenced == t.dereferenced && t'.barrier == t.barrier
  {
    match UpperBound(t.regions.Keys, addr)
    case None => t
    case Some(k) => if t.regions[k].start != addr then t else Archive(t, t.regions[k])
  }

  /**
   * `storeAndGetNewObj(obj, addr)` for the object `find(addr)` returned:
   * archives it, files its next version under the same end, and clears the
   * flag found above `addr`.
   */
  ghost function Snapshot(t: Tracker, o: Obj, addr: UInt64): (r: (Tracker, Obj))
    requires WellFormed(t) && Lookup(t, addr) == Some(o)
    ensures r.1 == Copy(o) && WellFormed(r.0)
  {
    var n := Copy(o);
    var t1 := Untrack(Archive(t, o), addr);
    var t2 := t1.(regions := t1.regions[End(n) := n]);
    (MarkDeref(t2, n, addr, false), n)
  }

  /**
   * The loop of `storeAllObjAndRemove` over the entries `live` it started
   * from, least end first: each object whose manager already has versions
   * is archived and stops being tracked.
   */
  ghost function StoreAllFrom(t: Tracker, live: map<nat, Obj>, keys: set<nat>): (t': Tracker)
    requires keys <= live.Keys
    ensures |t'.history| == |t.history| && t'.barrier == t.barrier
    decreases |keys|
  {
    if keys == {} then t
    else
      var k := UpperBound(keys, -1).value;
      StoreAllFrom(StoreOne(t, live[k]), live, keys - {k})
  }

  /** One step of that loop: `o` is archived and untracked when its manager already has versions. */
  ghost function StoreOne(t: Tracker, o: Obj): (t': Tracker)
    ensures |t'.history| == |t.history| && t'.barrier == t.barrier
  {
    if o.managerIdx < |t.history| && |t.history[o.managerIdx]| != 0
    then Untrack(Archive(t, o), o.start) else t
  }

  /** `storeAllObjAndRemove()`: raises the barrier, then archives every live region that has versions. */
  ghost function StoreAll(t: Tracker): (t': Tracker)
    ensures t'.barrier && |t'.history| == |t.history|
  {
    StoreAllFrom(t.(barrier := true), t.regions, t.regions.Keys)
  }

  /**
   * `Free(addr)` in the interpreter: `storeObj(addr)` then
   * `removeTrackingObj(addr)`, which leaves the freed region's flag behind.
   */
  ghost function FreeAsWritten(t: Tracker, addr: UInt64): (t': Tracker)
    requires WellFormed(t)
    ensures t'.dereferenced == t.dereferenced
  {
    Untrack(Store(t, addr), addr)
  }

  /** `Free(addr)` with the freed region's flag dropped along with the region. */
  ghost function Release(t: Tracker, addr: UInt64): (t': Tracker)
    requires WellFormed(t)
    ensures t'.history == FreeAsWritten(t, addr).history && t'.regions == FreeAsWritten(t, addr).regions
  {
    var t1 := FreeAsWritten(t, addr);
    match UpperBound(t.regions.Keys, addr)
    case None => t1
    case Some(k) => if t.regions[k].start == addr then t1.(dereferenced := t1.dereferenced - {k}) else t1
  }

  /**
   * A live version changed in place through the pointer `find` or
   * `storeAndGetNewObj` handed out: `o` replaces the object filed under its end.
   */
  function Put(t: Tracker, o: Obj): (t': Tracker)
    ensures t'.regions.Keys == t.regions.Keys + {End(o)} && t'.regions[End(o)] == o
    ensures t'.dereferenced == t.dereferenced && t'.history == t.history && t'.barrier == t.barrier
  {
    t.(regions := t.regions[End(o) := o])
  }

  // ----------------------------------------------------------------- shapes

  /** `find` only returns a live object that contains `addr`: the one filed under the least end above it. */
  lemma LookupSound(t: Tracker, addr: UInt64, o: Obj)
    requires WellFormed(t) && Lookup(t, addr) == Some(o)
    ensures UpperBound(t.regions.Keys, addr) == Some(End(o))
    ensures End(o) in t.regions && t.regions[End(o)] == o && o.start <= addr < End(o)
  {
  }

  /** What a snapshot does to each part of the state. */
  lemma SnapshotShape(t: Tracker, o: Obj, addr: UInt64)
    requires WellFormed(t) && Lookup(t, addr) == Some(o)
    ensures var t' := Snapshot(t, o, addr).0;
      t'.regions == t.regions[End(o) := Copy(o)] && t'.history == Archive(t, o).history &&
      t'.barrier == t.barrier &&
      t'.dereferenced == MarkDeref(t, Copy(o), addr, false).dereferenced
  {
    LookupSound(t, addr, o);
    var a := Archive(t, o);
    var t1 := Untrack(a, addr);
    assert t1.regions == t.regions || t1.regions == t.regions - {End(o)};
    assert t1.regions[End(o) := Copy(o)] == t.regions[End(o) := Copy(o)];
  }

  /** What `Free` does when a region starts at `addr`, and that it does nothing otherwise. */
  lemma ReleaseShape(t: Tracker, addr: UInt64)
    requires WellFormed(t)
    ensures var t' := Release(t, addr);
      var u := UpperBound(t.regions.Keys, addr);
      if u.Some? && t.regions[u.value].start == addr then
        t'.regions == t.regions - {u.value} && t'.dereferenced == t.dereferenced - {u.value} &&
        t'.history == Archive(t, t.regions[u.value]).history && t'.barrier == t.barrier
      else t' == t
  {
  }

  // ------------------------------------------------------------ Serialize

  /** The versions of one manager, in order; objects hold no memory, so none is listed. */
  function SnapshotsBytes(os: seq<Obj>): (bs: seq<Byte>)
    requires forall j | 0 <= j < |os| :: os[j].mem == map[]
  {
    if os == [] then [] else ObjBytes(os[0], []) + SnapshotsBytes(os[1..])
  }

  /** Per manager from manager `i` on: its number of versions as a `size_t`, then the versions. */
  function ManagersBytes(h: seq<seq<Obj>>, i: nat): (bs: seq<Byte>)
    requires NoMemory(h) && i <= |h|
    decreases |h| - i
  {
    if i == |h| then []
    else U64Bytes(|h[i]| % TWO_64) + SnapshotsBytes(h[i]) + ManagersBytes(h, i + 1)
  }

  /** `Serialize`: the number of managers as a `size_t`, then each manager. */
  function TrackerBytes(h: seq<seq<Obj>>): (bs: seq<Byte>)
    requires NoMemory(h)
  {
    U64Bytes(|h| % TWO_64) + ManagersBytes(h, 0)
  }

  /**
   * Archiving one more version adds exactly that version's bytes to the end
   * of its manager's section.
   */
  lemma {:induction false} SnapshotsAppend(os: seq<Obj>, o: Obj)
    requires forall j | 0 <= j < |os| :: os[j].mem == map[]
    requires o.mem == map[]
    ensures SnapshotsBytes(os + [o]) == SnapshotsBytes(os) + ObjBytes(o, [])
    decreases |os|
  {
    if os == [] {
      assert SnapshotsBytes([o]) == ObjBytes(o, []) + SnapshotsBytes([]);
    } else {
      assert (os + [o])[1..] == os[1..] + [o];
      SnapshotsAppend(os[1..], o);
    }
  }

  /** The versions of one manager, as `Serialize` writes them. */
  method SerializeSnapshots(os: seq<Obj>) returns (bs: seq<Byte>)
    requires forall j | 0 <= j < |os| :: os[j].mem == map[]
    ensures bs == SnapshotsBytes(os)
  {
    bs := [];
    for j := 0 to |os|
      invariant bs + SnapshotsBytes(os[j..]) == SnapshotsBytes(os)
    {
      assert os[j..][1..] == os[j + 1..];
      bs := bs + ObjBytes(os[j], []);
    }
  }

  /** The snapshot history, as `Serialize` writes it. */
  method SerializeHistory(h: seq<seq<Obj>>) returns (bs: seq<Byte>)
    requires NoMemory(h)
    ensures bs == TrackerBytes(h)
  {
    bs := U64Bytes(|h| % TWO_64);
    for i := 0 to |h|
      invariant bs + ManagersBytes(h, i) == TrackerBytes(h)
    {
      ManagersStep(h, i);
      var objs := SerializeSnapshots(h[i]);
      var part := U64Bytes(|h[i]| % TWO_64) + objs;
      AppendAssoc(bs, part, ManagersBytes(h, i + 1));
      bs := bs + part;
    }
  }

  lemma ManagersStep(h: seq<seq<Obj>>, i: nat)
    requires NoMemory(h) && i < |h|
    ensures forall j | 0 <= j < |h[i]| :: h[i][j].mem == map[]
    ensures ManagersBytes(h, i) == (U64Bytes(|h[i]| % TWO_64) + SnapshotsBytes(h[i])) + ManagersBytes(h, i + 1)
  {
  }

  lemma AppendAssoc(a: seq<Byte>, b: seq<Byte>, c: seq<Byte>)
    ensures a + (b + c) == (a + b) + c
  {
  }

  // ------------------------------------------------------------- versioning

  /** The history only grows: lists are appended to, never rewritten or dropped. */
  predicate Extends(h: seq<seq<Obj>>, h': seq<seq<Obj>>) {
    |h| <= |h'| && forall i | 0 <= i < |h| :: h[i] <= h'[i]
  }

  /** Position `j` of manager `i`'s list holds version `j` (a `size_t`) of region `i`. */
  predicate HistoryOk(h: seq<seq<Obj>>) {
    forall i, j | 0 <= i < |h| && 0 <= j < |h[i]| :: h[i][j].managerIdx == i && h[i][j].snapshotIdx == j % TWO_64
  }

  /**
   * Each live object is the version after the last one archived for its
   * manager, and no two live objects share a manager.
   */
  predicate LiveOk(m: map<nat, Obj>, h: seq<seq<Obj>>) {
    (forall k | k in m :: m[k].managerIdx < |h| && m[k].snapshotIdx == |h[m[k].managerIdx]| % TWO_64) &&
    (forall k1, k2 | k1 in m && k2 in m && k1 != k2 :: m[k1].managerIdx != m[k2].managerIdx)
  }

  predicate Versioned(t: Tracker) {
    WellFormed(t) && HistoryOk(t.history) && LiveOk(t.regions, t.history)
  }

  /** Replacing a live version by the next one, with the old one archived, keeps the live versions current. */
  lemma LiveReplace(m: map<nat, Obj>, h: seq<seq<Obj>>, k: nat, n: Obj)
    requires LiveOk(m, h) && k in m && n.managerIdx == m[k].managerIdx
    requires n.snapshotIdx == (|h[m[k].managerIdx]| + 1) % TWO_64
    ensures LiveOk(m[k := n], h[m[k].managerIdx := h[m[k].managerIdx] + [m[k]]])
  {
    var idx := m[k].managerIdx;
    var h' := h[idx := h[idx] + [m[k]]];
    var m' := m[k := n];
    forall j | j in m'
      ensures m'[j].snapshotIdx == |h'[m'[j].managerIdx]| % TWO_64
    {
      if j != k {
        assert m[j].managerIdx != idx;
      }
    }
  }

  /** Archiving a live version and dropping it keeps the remaining live versions current. */
  lemma LiveRemove(m: map<nat, Obj>, h: seq<seq<Obj>>, k: nat)
    requires LiveOk(m, h) && k in m
    ensures LiveOk(m - {k}, h[m[k].managerIdx := h[m[k].managerIdx] + [m[k]]])
  {
    var idx := m[k].managerIdx;
    forall j | j in m - {k}
      ensures m[j].managerIdx != idx
    {
    }
  }

  /** A new manager with version 0 live keeps the live versions current. */
  lemma LiveAdd(m: map<nat, Obj>, h: seq<seq<Obj>>, k: nat, n: Obj)
    requires LiveOk(m, h) && n.managerIdx == |h| && n.snapshotIdx == 0
    ensures LiveOk(m[k := n], h + [[]])
  {
    var h' := h + [[]];
    assert forall i | 0 <= i < |h| :: h'[i] == h[i];
  }

  /** Archiving the version that comes next keeps the history in order. */
  lemma ArchiveInOrder(t: Tracker, o: Obj)
    requires HistoryOk(t.history) && o.managerIdx < |t.history|
    requires o.snapshotIdx == |t.history[o.managerIdx]| % TWO_64
    ensures HistoryOk(Archive(t, o).history) && Extends(t.history, Archive(t, o).history)
  {
    var h': seq<seq<Obj>> := Archive(t, o).history;
    forall i, j | 0 <= i < |h'| && 0 <= j < |h'[i]|
      ensures h'[i][j].managerIdx == i && h'[i][j].snapshotIdx == j % TWO_64
    {
      if i == o.managerIdx && j == |t.history[i]| {
        assert h'[i][j] == o;
      } else {
        assert h'[i][j] == t.history[i][j];
      }
    }
  }

  /** `addRegion` opens a new manager with an empty list and version 0 live. */
  lemma AddVersioned(t: Tracker, addr: UInt64, size: UInt64)
    requires Versioned(t) && |t.history| < MAX_MANAGERS
    ensures var t' := Add(t, addr, size);
      Versioned(t') && Extends(t.history, t'.history) &&
      (!t.barrier ==>
        |t'.history| == |t.history| + 1 && t'.history[|t.history|] == [] &&
        t'.regions[addr + size].managerIdx == |t.history| && t'.regions[addr + size].snapshotIdx == 0)
  {
    if !t.barrier {
      LiveAdd(t.regions, t.history, addr + size, NewObj(addr, size, |t.history|));
      var t' := Add(t, addr, size);
      assert forall i | 0 <= i < |t.history| :: t'.history[i] == t.history[i];
    }
  }

  /**
   * `storeAndGetNewObj` archives the live version as the next entry of its
   * manager's list and makes the following version live in its place.
   */
  lemma SnapshotVersioned(t: Tracker, o: Obj, addr: UInt64)
    requires Versioned(t) && Lookup(t, addr) == Some(o)
    ensures var (t', n) := Snapshot(t, o, addr);
      Versioned(t') && Extends(t.history, t'.history) &&
      t'.history[o.managerIdx] == t.history[o.managerIdx] + [o] &&
      n.snapshotIdx == |t'.history[o.managerIdx]| % TWO_64 &&
      t'.regions == t.regions[End(o) := n]
  {
    SnapshotShape(t, o, addr);
    LookupSound(t, addr, o);
    ArchiveInOrder(t, o);
    Arith.ModAddMod(|t.history[o.managerIdx]|, 1, TWO_64);
    LiveReplace(t.regions, t.history, End(o), Copy(o));
  }

  /** Recording a write in a live version keeps the tracker well formed. */
  lemma PutWellFormed(t: Tracker, o: Obj)
    requires WellFormed(t) && End(o) in t.regions && o == t.regions[End(o)].(writes := o.writes)
    ensures WellFormed(Put(t, o))
  {
  }

  /** `Free` keeps the tracker well formed. */
  lemma ReleaseWellFormed(t: Tracker, addr: UInt64)
    requires WellFormed(t)
    ensures WellFormed(Release(t, addr))
  {
    ReleaseShape(t, addr);
  }

  /** Each step of the loop of `storeAllObjAndRemove` keeps the tracker well formed. */
  lemma {:induction false} StoreAllFromWellFormed(t: Tracker, live: map<nat, Obj>, keys: set<nat>)
    requires keys <= live.Keys && WellFormed(t)
    requires forall k | k in keys :: live[k].mem == map[]
    ensures WellFormed(StoreAllFrom(t, live, keys))
    decreases |keys|
  {
    if keys != {} {
      var k := UpperBound(keys, -1).value;
      var t1 := StoreOne(t, live[k]);
      assert WellFormed(t1);
      StoreAllFromWellFormed(t1, live, keys - {k});
    }
  }

  /** `storeAllObjAndRemove` keeps the tracker well formed. */
  lemma StoreAllWellFormed(t: Tracker)
    requires WellFormed(t)
    ensures WellFormed(StoreAll(t))
  {
    StoreAllFromWellFormed(t.(barrier := true), t.regions, t.regions.Keys);
  }

  /** Recording a write in a live version keeps every live version current. */
  lemma PutVersioned(t: Tracker, o: Obj)
    requires Versioned(t) && End(o) in t.regions && o == t.regions[End(o)].(writes := o.writes)
    ensures Versioned(Put(t, o))
  {
    var m := Put(t, o).regions;
    forall k1, k2 | k1 in m && k2 in m && k1 != k2
      ensures m[k1].managerIdx != m[k2].managerIdx
    {
      assert m[k1].managerIdx == t.regions[k1].managerIdx;
      assert m[k2].managerIdx == t.regions[k2].managerIdx;
    }
  }

  /** Where `find` returned the version `o` replaced, it now returns `o`. */
  lemma PutLookup(t: Tracker, o: Obj, addr: UInt64)
    requires WellFormed(t) && End(o) in t.regions && o.start == t.regions[End(o)].start
    requires Lookup(t, addr) == Some(t.regions[End(o)])
    ensures Lookup(Put(t, o), addr) == Some(o)
  {
    LookupSound(t, addr, t.regions[End(o)]);
    assert Put(t, o).regions.Keys == t.regions.Keys;
  }

  /**
   * `Free`: the region that starts at `addr` has its live version archived
   * and stops being tracked; every other region is untouched.
   */
  lemma FreeVersioned(t: Tracker, addr: UInt64)
    requires Versioned(t)
    ensures Versioned(Release(t, addr)) && Extends(t.history, Release(t, addr).history)
  {
    ReleaseShape(t, addr);
    var u := UpperBound(t.regions.Keys, addr);
    if u.Some? && t.regions[u.value].start == addr {
      RemoveVersioned(t, u.value, Release(t, addr));
    }
  }

  /** Archiving a live version and untracking its region keeps the versions in order. */
  lemma RemoveVersioned(t: Tracker, k: nat, t': Tracker)
    requires Versioned(t) && k in t.regions
    requires t'.regions == t.regions - {k} && t'.history == Archive(t, t.regions[k]).history
    ensures Versioned(t') && Extends(t.history, t'.history)
  {
    var o := t.regions[k];
    ArchiveInOrder(t, o);
    LiveRemove(t.regions, t.history, k);
    var h': seq<seq<Obj>> := t'.history;
    assert |h'| == |t.history|;
    forall i, j | 0 <= i < |h'| && 0 <= j < |h'[i]| ensures h'[i][j].mem == map[] {
      if i == o.managerIdx && j == |t.history[i]| {
        assert h'[i][j] == o;
      } else {
        assert h'[i][j] == t.history[i][j];
      }
    }
  }

  /** The freed region's live version ends its manager's list, and the region is no longer found. */
  lemma FreeArchives(t: Tracker, addr: UInt64, o: Obj)
    requires Versioned(t) && Lookup(t, addr) == Some(o) && o.start == addr
    ensures var t' := Release(t, addr);
      End(o) !in t'.regions && t'.history[o.managerIdx] == t.history[o.managerIdx] + [o]
  {
    LookupSound(t, addr, o);
    ReleaseShape(t, addr);
  }

  /** `o` archived behind `vs` when its manager already has versions. */
  function Stored(vs: seq<Obj>, o: Obj): seq<Obj> {
    if |vs| != 0 then vs + [o] else vs
  }

  /** One step archives `o` in order, and touches no other manager's list. */
  lemma StoreOneInOrder(t: Tracker, o: Obj)
    requires HistoryOk(t.history)
    requires o.managerIdx < |t.history| ==> o.snapshotIdx == |t.history[o.managerIdx]| % TWO_64
    ensures var t1 := StoreOne(t, o);
      HistoryOk(t1.history) && Extends(t.history, t1.history) &&
      (o.managerIdx < |t.history| ==> t1.history[o.managerIdx] == Stored(t.history[o.managerIdx], o)) &&
      forall i | 0 <= i < |t.history| && i != o.managerIdx :: t1.history[i] == t.history[i]
  {
    if o.managerIdx < |t.history| && |t.history[o.managerIdx]| != 0 {
      ArchiveInOrder(t, o);
    }
  }

  lemma {:induction false} StoreAllFromVersioned(t: Tracker, live: map<nat, Obj>, keys: set<nat>)
    requires keys <= live.Keys && HistoryOk(t.history)
    requires forall k | k in keys ::
      live[k].managerIdx < |t.history| && live[k].snapshotIdx == |t.history[live[k].managerIdx]| % TWO_64
    requires forall k1, k2 | k1 in keys && k2 in keys && k1 != k2 :: live[k1].managerIdx != live[k2].managerIdx
    ensures var t' := StoreAllFrom(t, live, keys);
      HistoryOk(t'.history) && Extends(t.history, t'.history) &&
      (forall k | k in keys :: t'.history[live[k].managerIdx] == Stored(t.history[live[k].managerIdx], live[k])) &&
      (forall i | 0 <= i < |t.history| && (forall k | k in keys :: live[k].managerIdx != i) ::
        t'.history[i] == t.history[i])
    decreases |keys|
  {
    if keys != {} {
      var k0 := UpperBound(keys, -1).value;
      var o := live[k0];
      var idx := o.managerIdx;
      var t1 := StoreOne(t, o);
      StoreOneInOrder(t, o);
      var rest := keys - {k0};
      StoreAllFromVersioned(t1, live, rest);
      var t' := StoreAllFrom(t1, live, rest);
      assert t' == StoreAllFrom(t, live, keys);
      forall k | k in keys
        ensures t'.history[live[k].managerIdx] == Stored(t.history[live[k].managerIdx], live[k])
      {
        if k != k0 {
          assert live[k].managerIdx != idx;
        }
      }
    }
  }

  /**
   * `storeAllObjAndRemove` raises the barrier and archives the live version
   * of every region whose manager already has versions, once each, keeping
   * the history in order.
   */
  lemma StoreAllVersioned(t: Tracker)
    requires Versioned(t)
    ensures var t' := StoreAll(t);
      t'.barrier && HistoryOk(t'.history) && Extends(t.history, t'.history) &&
      forall k | k in t.regions ::
        t'.history[t.regions[k].managerIdx] == Stored(t.history[t.regions[k].managerIdx], t.regions[k])
  {
    StoreAllFromVersioned(t.(barrier := true), t.regions, t.regions.Keys);
  }

  // --------------------------------------------------------- find and flags

  /** Live regions do not overlap. */
  predicate Disjoint(regions: map<nat, Obj>) {
    forall k1, k2 | k1 in regions && k2 in regions && k1 != k2 ::
      End(regions[k1]) <= regions[k2].start || End(regions[k2]) <= regions[k1].start
  }

  /** Among regions that do not overlap, `find` returns the one that contains `addr`. */
  lemma LookupComplete(t: Tracker, addr: UInt64, k: nat)
    requires WellFormed(t) && Disjoint(t.regions)
    requires k in t.regions && t.regions[k].start <= addr < k
    ensures Lookup(t, addr) == Some(t.regions[k])
  {
    var o := t.regions[k];
    assert IsLeastAbove(t.regions.Keys, addr, k) by {
      forall j | j in t.regions && addr < j
        ensures k <= j
      {
        var p := t.regions[j];
        assert p.start <= End(p) == j;
      }
    }
    UpperBoundIs(t.regions.Keys, addr, k);
  }

  /** The flags are in step with the regions: one per live region, and no other. */
  predicate Synced(t: Tracker) {
    WellFormed(t) && t.regions.Keys == t.dereferenced.Keys && Disjoint(t.regions)
  }

  /** With the flags in step, the flag consulted at `addr` is the flag of the region `find(addr)` returns. */
  lemma FlagOfFound(t: Tracker, addr: UInt64, o: Obj)
    requires Synced(t) && Lookup(t, addr) == Some(o)
    ensures DerefState(t, addr) == t.dereferenced[End(o)]
  {
  }

  /**
   * `updateDereferredStateOfRegion(obj, addr, truth)` for the object found
   * at `addr` keeps the flags in step, and every later query inside that
   * region answers `truth`.
   */
  lemma MarkDerefSynced(t: Tracker, o: Obj, addr: UInt64, truth: bool, b: UInt64)
    requires Synced(t) && Lookup(t, addr) == Some(o) && Lookup(t, b) == Some(o)
    ensures var t' := MarkDeref(t, o, addr, truth);
      Synced(t') && Lookup(t', b) == Some(o) && DerefState(t', b) == truth
  {
    var t' := MarkDeref(t, o, addr, truth);
    assert t'.dereferenced.Keys == t.dereferenced.Keys;
    FlagOfFound(t', b, o);
  }

  /**
   * A snapshot keeps the flags in step; the new version is what `find`
   * returns anywhere in the region, and it is not yet flagged as read.
   */
  lemma SnapshotSynced(t: Tracker, o: Obj, addr: UInt64, b: UInt64)
    requires Synced(t) && Lookup(t, addr) == Some(o) && o.start <= b < End(o)
    ensures var (t', n) := Snapshot(t, o, addr);
      Synced(t') && Lookup(t', b) == Some(n) && !DerefState(t', b)
  {
    var (t', n) := Snapshot(t, o, addr);
    SnapshotFlags(t, o, addr);
    assert t'.dereferenced.Keys == t.dereferenced.Keys;
    LookupSound(t, addr, o);
    DisjointReplace(t.regions, End(o), n);
    LookupComplete(t', b, End(o));
    FlagOfFound(t', b, n);
  }

  /** Replacing a region by one with the same bounds keeps the regions apart. */
  lemma DisjointReplace(m: map<nat, Obj>, k: nat, n: Obj)
    requires Disjoint(m) && k in m && n.start == m[k].start && End(n) == End(m[k])
    ensures Disjoint(m[k := n])
  {
  }

  /** With the flags in step, a snapshot clears exactly the flag of the region it replaces. */
  lemma SnapshotFlags(t: Tracker, o: Obj, addr: UInt64)
    requires Synced(t) && Lookup(t, addr) == Some(o)
    ensures var t' := Snapshot(t, o, addr).0;
      t'.regions == t.regions[End(o) := Copy(o)] && t'.dereferenced == t.dereferenced[End(o) := false]
  {
    SnapshotShape(t, o, addr);
    LookupSound(t, addr, o);
    assert UpperBound(t.dereferenced.Keys, addr) == Some(End(o));
    assert (t.dereferenced - {End(o)})[End(o) := false] == t.dereferenced[End(o) := false];
  }

  /**
   * `addRegion` of a region that overlaps no live one keeps the flags in
   * step; the new version is found anywhere inside it and is flagged as read.
   */
  lemma AddSynced(t: Tracker, addr: UInt64, size: UInt64, b: UInt64)
    requires Synced(t) && |t.history| < MAX_MANAGERS
    requires forall k | k in t.regions :: k <= addr || addr + size <= t.regions[k].start
    requires !t.barrier && addr <= b < addr + size
    ensures var t' := Add(t, addr, size);
      Synced(t') && Lookup(t', b) == Some(NewObj(addr, size, |t.history|)) && DerefState(t', b)
  {
    var t' := Add(t, addr, size);
    var n := NewObj(addr, size, |t.history|);
    assert t'.regions == t.regions[addr + size := n];
    DisjointAdd(t.regions, n);
    assert Synced(t');
    LookupComplete(t', b, addr + size);
    FlagOfFound(t', b, n);
  }

  /** A region that overlaps no live one can join them. */
  lemma DisjointAdd(m: map<nat, Obj>, n: Obj)
    requires Disjoint(m) && forall k | k in m :: k == End(m[k])
    requires forall k | k in m :: k <= n.start || End(n) <= m[k].start
    ensures Disjoint(m[End(n) := n])
  {
  }

  /** `Free` that drops the freed region's flag keeps the flags in step. */
  lemma ReleaseSynced(t: Tracker, addr: UInt64)
    requires Synced(t)
    ensures Synced(Release(t, addr))
  {
    ReleaseShape(t, addr);
  }

  /** The first three steps of the trace below: allocate [100, 108), store into it, free it. */
  lemma FreedRegionTrace()
    ensures var p := NewObj(100, 8, 0);
      var t1 := Add(Empty, 100, 8);
      WellFormed(t1) && Lookup(t1, 100) == Some(p) &&
      FreeAsWritten(Snapshot(t1, p, 100).0, 100) == Tracker(map[], map[108 := false], [[p, Copy(p)]], false)
  {
    var p := NewObj(100, 8, 0);
    var t1 := Add(Empty, 100, 8);
    assert t1 == Tracker(map[108 := p], map[108 := true], [[]], false);
    assert t1.regions.Keys == {108} && t1.dereferenced.Keys == {108};
    UpperBoundIs({108}, 100, 108);
    assert Lookup(t1, 100) == Some(p);
    var n := Copy(p);
    var t2 := Snapshot(t1, p, 100).0;
    SnapshotShape(t1, p, 100);
    assert t2.regions == map[108 := n];
    assert p.managerIdx == 0 && t1.history == [[]];
    var h1: seq<seq<Obj>> := [[]][0 := [] + [p]];
    assert |h1| == 1 && h1[0] == [p];
    assert Archive(t1, p).history == h1 == [[p]];
    assert t2.history == [[p]];
    assert (map[108 := true] - {108})[108 := false] == map[108 := false];
    assert t2.dereferenced == map[108 := false];
    assert t2 == Tracker(map[108 := n], map[108 := false], [[p]], false);
    assert t2.regions.Keys == {108};
    var t3 := FreeAsWritten(t2, 100);
    assert t2.regions[108] == n && n.start == 100 && n.managerIdx == 0;
    assert Store(t2, 100) == Archive(t2, n);
    var h2: seq<seq<Obj>> := [[p]][0 := [p] + [n]];
    assert |h2| == 1 && h2[0] == [p, n];
    assert Archive(t2, n).history == h2 == [[p, n]];
    assert t3.regions == map[];
  }

  /**
   * As written, `Free` leaves the freed region's flag behind, and a region
   * later allocated around it is asked for that stale flag: here the region
   * [96, 128) is flagged as read, yet a store at 100 is told it is not.
   */
  lemma StaleFlagAsWritten()
    ensures var p := NewObj(100, 8, 0);
      var t1 := Add(Empty, 100, 8);
      WellFormed(t1) && Lookup(t1, 100) == Some(p) &&
      var t3 := FreeAsWritten(Snapshot(t1, p, 100).0, 100);
      |t3.history| < MAX_MANAGERS &&
      var t4 := Add(t3, 96, 32);
      Lookup(t4, 100) == Some(NewObj(96, 32, 1)) &&
      128 in t4.dereferenced && t4.dereferenced[128] && !DerefState(t4, 100)
  {
    FreedRegionTrace();
    var p := NewObj(100, 8, 0);
    var t3 := Tracker(map[], map[108 := false], [[p, Copy(p)]], false);
    var o := NewObj(96, 32, 1);
    var t4 := Add(t3, 96, 32);
    assert t4 == Tracker(map[128 := o], map[108 := false, 128 := true], [[p, Copy(p)], []], false);
    assert t4.regions.Keys == {128} && t4.dereferenced.Keys == {108, 128};
    UpperBoundIs({128}, 100, 128);
    UpperBoundIs({108, 128}, 100, 108);
  }

  /**
   * As written, `storeAllObjAndRemove` erases the entry its loop stands on:
   * removing the region by its start drops exactly the key being visited.
   */
  lemma StoreAllErasesCurrentEntry(t: Tracker, k: nat)
    requires Versioned(t) && Disjoint(t.regions) && k in t.regions && t.regions[k].size > 0
    requires |t.history[t.regions[k].managerIdx]| != 0
    ensures var o := t.regions[k]; k !in Untrack(Archive(t, o), o.start).regions
  {
    LookupComplete(t, t.regions[k].start, k);
  }

  // ------------------------------------------------------------------ class

  class ObjectTrackerWriter {
    var regions: map<nat, Obj>
    var dereferenced: map<nat, bool>
    var history: seq<seq<Obj>>
    var barrier: bool

    function State(): Tracker
      reads this
    {
      Tracker(regions, dereferenced, history, barrier)
    }

    constructor ()
      ensures State() == Empty
    {
      regions := map[];
      dereferenced := map[];
      history := [];
      barrier := false;
    }

    method AddRegion(addr: UInt64, size: UInt64)
      requires |history| < MAX_MANAGERS
      modifies this
      ensures State() == Add(old(State()), addr, size)
    {
      if barrier {
        return;
      }
      var o := NewObj(addr, size, |history|);
      history := history + [[]];
      regions := regions[addr + size := o];
      dereferenced := dereferenced[addr + size := true];
    }

    method Find(addr: UInt64) returns (r: Option<Obj>)
      ensures r == Lookup(State(), addr)
    {
      var k := FindUpperBound(regions.Keys, addr);
      if k.None? {
        return None;
      }
      var o := regions[k.value];
      r := if o.start <= addr then Some(o) else None;
    }

    method RemoveTrackingObj(addr: UInt64)
      modifies this
      ensures State() == Untrack(old(State()), addr)
    {
      var k := FindUpperBound(regions.Keys, addr);
      if k.None? {
        return;
      }
      var o := regions[k.value];
      if o.start != addr {
        return;
      }
      regions := regions - {End(o)};
    }

    method UpdateDereferredState(o: Obj, addr: UInt64, truth: bool)
      modifies this
      ensures State() == MarkDeref(old(State()), o, addr, truth)
    {
      var k := FindUpperBound(dereferenced.Keys, addr);
      if k.None? {
        return;
      }
      dereferenced := (dereferenced - {k.value})[End(o) := truth];
    }

    method GetDereferredState(addr: UInt64) returns (b: bool)
      ensures b == DerefState(State(), addr)
    {
      var k := FindUpperBound(dereferenced.Keys, addr);
      b := if k.None? then false else dereferenced[k.value];
    }

    method StoreObj(addr: UInt64)
      requires WellFormed(State())
      modifies this
      ensures State() == Store(old(State()), addr)
    {
      var k := FindUpperBound(regions.Keys, addr);
      if k.None? {
        return;
      }
      var o := regions[k.value];
      if o.start != addr {
        return;
      }
      history := history[o.managerIdx := history[o.managerIdx] + [o]];
    }

    method StoreAndGetNewObj(o: Obj, addr: UInt64) returns (n: Obj)
      requires WellFormed(State()) && Lookup(State(), addr) == Some(o)
      modifies this
      ensures (State(), n) == Snapshot(old(State()), o, addr)
    {
      n := Copy(o);
      history := history[o.managerIdx := history[o.managerIdx] + [o]];
      RemoveTrackingObj(addr);
      regions := regions[End(n) := n];
      UpdateDereferredState(n, addr, false);
    }

    /** A write through the pointer to a live version: `o` takes its place. */
    method Update(o: Obj)
      modifies this
      ensures State() == Put(old(State()), o)
    {
      regions := regions[End(o) := o];
    }

    method StoreAllObjAndRemove()
      modifies this
      ensures State() == StoreAll(old(State()))
    {
      barrier := true;
      var live := regions;
      var keys := regions.Keys;
      while keys != {}
        invariant keys <= live.Keys
        invariant StoreAllFrom(State(), live, keys) == StoreAll(old(State()))
        decreases |keys|
      {
        var k := FindUpperBound(keys, -1);
        var o := live[k.value];
        if o.managerIdx < |history| && |history[o.managerIdx]| != 0 {
          history := history[o.managerIdx := history[o.managerIdx] + [o]];
          RemoveTrackingObj(o.start);
        }
        keys := keys - {k.value};
      }
    }

    /** `Free(addr)`: `storeObj`, `removeTrackingObj`, and the region's flag dropped with it. */
    method Free(addr: UInt64)
      requires WellFormed(State())
      modifies this
      ensures State() == Release(old(State()), addr)
    {
      var k := FindUpperBound(regions.Keys, addr);
      var freed := k.Some? && regions[k.value].start == addr;
      StoreObj(addr);
      RemoveTrackingObj(addr);
      if freed {
        dereferenced := dereferenced - {k.value};
      }
    }

    method Serialize() returns (bs: seq<Byte>)
      requires NoMemory(history)
      ensures bs == TrackerBytes(history)
    {
      bs := SerializeHistory(history);
    }
  }
}

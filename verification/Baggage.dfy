/** The check that every kind used by the objects reachable from a vat's
    baggage has a kind handle that is reachable as well. */
module Baggage {
  import opened Wrappers

  /** What a slot refers to, as far as the check can tell: a durable object of
      some kind, or anything else. */
  datatype Ref = Durable(kind: nat, id: nat) | Other

  const KIND_HANDLE := 1
  const BIG_MAP := 6
  const BIG_SET := 8

  /** A stored entry: the slots of its value, after the key if that is a
      remotable. */
  datatype Entry = Entry(remotableKey: Option<Ref>, slots: seq<Ref>)

  /** The vat store: the entries of each collection, and for each object the
      slots of each property. */
  datatype Store = Store(collections: map<nat, seq<Entry>>, objects: map<Ref, seq<seq<Ref>>>)

  predicate IsCollection(r: Ref) {
    r.Durable? && (r.kind == BIG_MAP || r.kind == BIG_SET)
  }

  predicate IsHandle(r: Ref) {
    r.Durable? && r.kind == KIND_HANDLE
  }

  predicate IsObject(r: Ref) {
    r.Durable? && !IsCollection(r) && !IsHandle(r)
  }

  // ---------------------------------------------------- the reference graph

  datatype Node = Collection(id: nat) | Object(ref: Ref) | Kind(kind: nat)

  ghost predicate Names(r: Ref, n: Node) {
    match n
    case Collection(id) => IsCollection(r) && r.id == id
    case Object(ref) => IsObject(r) && r == ref
    case Kind(kind) => IsHandle(r) && r.id == kind
  }

  /** A durable reference names one thing: a collection by the kinds of the two
      built-in ones, a kind by the kind of handles, and an object otherwise. */
  lemma NamesExactly(r: Ref, n: Node)
    ensures Names(r, n) <==>
            match n
            case Collection(id) => r == Durable(6, id) || r == Durable(8, id)
            case Object(ref) => r == ref && r.Durable? && r.kind !in {1, 6, 8}
            case Kind(kind) => r == Durable(1, kind)
  {
  }

  function EntryRefs(e: Entry): seq<Ref> {
    (if e.remotableKey.Some? then [e.remotableKey.value] else []) + e.slots
  }

  function EntriesRefs(es: seq<Entry>): seq<Ref> {
    if es == [] then [] else EntryRefs(es[0]) + EntriesRefs(es[1..])
  }

  function PropsRefs(props: seq<seq<Ref>>): seq<Ref> {
    if props == [] then [] else props[0] + PropsRefs(props[1..])
  }

  /** A collection without entries and one that does not exist look alike. */
  function CollectionEntries(db: Store, c: nat): seq<Entry> {
    if c in db.collections then db.collections[c] else []
  }

  /** Everything a node refers to. */
  function RefsOf(db: Store, n: Node): seq<Ref> {
    match n
    case Collection(c) => EntriesRefs(CollectionEntries(db, c))
    case Object(o) => if o in db.objects then PropsRefs(db.objects[o]) else []
    case Kind(_) => []
  }

  ghost predicate Edge(db: Store, m: Node, n: Node) {
    exists r :: r in RefsOf(db, m) && Names(r, n)
  }

  ghost predicate SlotsName(slots: seq<Ref>, n: Node) {
    exists r :: r in slots && Names(r, n)
  }

  ghost predicate EntryNames(e: Entry, n: Node) {
    (e.remotableKey.Some? && Names(e.remotableKey.value, n)) || SlotsName(e.slots, n)
  }

  /** What a node refers to, in full: a collection by the keys of its entries
      that are remotables and by their values, an object by its properties. */
  lemma EdgesExactly(db: Store, m: Node, n: Node)
    ensures Edge(db, m, n) <==>
            match m
            case Collection(c) =>
              c in db.collections && (exists e :: e in db.collections[c] && EntryNames(e, n))
            case Object(o) =>
              o in db.objects && (exists slots :: slots in db.objects[o] && SlotsName(slots, n))
            case Kind(_) => false
  {
    match m
    case Collection(c) => EntriesRefsExactly(CollectionEntries(db, c));
    case Object(o) => if o in db.objects { PropsRefsExactly(db.objects[o]); }
    case Kind(_) =>
  }

  lemma {:induction false} EntriesRefsExactly(es: seq<Entry>)
    ensures forall r :: r in EntriesRefs(es) <==> exists e :: e in es && (e.remotableKey == Some(r) || r in e.slots)
    decreases |es|
  {
    if es != [] {
      EntriesRefsExactly(es[1..]);
      assert es == [es[0]] + es[1..];
    }
  }

  lemma {:induction false} PropsRefsExactly(props: seq<seq<Ref>>)
    ensures forall r :: r in PropsRefs(props) <==> exists slots :: slots in props && r in slots
    decreases |props|
  {
    if props != [] {
      PropsRefsExactly(props[1..]);
      assert props == [props[0]] + props[1..];
    }
  }

  /** A path of references from baggage, which is collection 1. */
  ghost predicate IsPath(db: Store, path: seq<Node>) {
    && path != [] && path[0] == Collection(1)
    && forall i | 0 < i < |path| :: Edge(db, path[i - 1], path[i])
  }

  ghost predicate Reachable(db: Store, n: Node) {
    exists path :: IsPath(db, path) && path[|path| - 1] == n
  }

  lemma BaggageReachable(db: Store)
    ensures Reachable(db, Collection(1))
  {
    assert IsPath(db, [Collection(1)]);
  }

  lemma ReachableEdge(db: Store, m: Node, n: Node)
    requires Reachable(db, m) && Edge(db, m, n)
    ensures Reachable(db, n)
  {
    var path :| IsPath(db, path) && path[|path| - 1] == m;
    assert IsPath(db, path + [n]);
  }

  // ------------------------------------------------------ what slots name

  ghost function CollectionsIn(refs: seq<Ref>): set<nat> {
    set r | r in refs && IsCollection(r) :: r.id
  }

  ghost function ObjectsIn(refs: seq<Ref>): set<Ref> {
    set r | r in refs && IsObject(r)
  }

  ghost function HandlesIn(refs: seq<Ref>): set<nat> {
    set r | r in refs && IsHandle(r) :: r.id
  }

  ghost function KindsOf(objects: set<Ref>): set<nat> {
    set o | o in objects && o.Durable? :: o.kind
  }

  lemma InAppend(a: seq<Ref>, b: seq<Ref>)
    ensures CollectionsIn(a + b) == CollectionsIn(a) + CollectionsIn(b)
    ensures ObjectsIn(a + b) == ObjectsIn(a) + ObjectsIn(b)
    ensures HandlesIn(a + b) == HandlesIn(a) + HandlesIn(b)
  {
    assert forall r :: r in a + b <==> r in a || r in b;
  }

  lemma KindsOfUnion(a: set<Ref>, b: set<Ref>)
    ensures KindsOf(a + b) == KindsOf(a) + KindsOf(b)
  {
  }

  /** What has been found but not scanned, and the kinds seen. */
  datatype Found = Found(collections: set<nat>, objects: set<Ref>, handles: set<nat>, kinds: set<nat>)

  /** Files references among what was found, leaving out the nodes that are
      known already. */
  ghost function File(f: Found, knownCollections: set<nat>, knownObjects: set<Ref>, refs: seq<Ref>): Found {
    Found(f.collections + (CollectionsIn(refs) - knownCollections),
          f.objects + (ObjectsIn(refs) - knownObjects),
          f.handles + HandlesIn(refs),
          f.kinds + KindsOf(ObjectsIn(refs)))
  }

  lemma FileAppend(f: Found, kc: set<nat>, ko: set<Ref>, a: seq<Ref>, b: seq<Ref>)
    ensures File(File(f, kc, ko, a), kc, ko, b) == File(f, kc, ko, a + b)
  {
    InAppend(a, b);
    KindsOfUnion(ObjectsIn(a), ObjectsIn(b));
  }

  lemma FileNothing(f: Found, kc: set<nat>, ko: set<Ref>)
    ensures File(f, kc, ko, []) == f
  {
  }

  lemma {:induction false} EntriesAppend(es: seq<Entry>, e: Entry)
    ensures EntriesRefs(es + [e]) == EntriesRefs(es) + EntryRefs(e)
  {
    if es == [] {
      assert EntriesRefs([e]) == EntryRefs(e) + EntriesRefs([e][1..]);
    } else {
      assert (es + [e])[1..] == es[1..] + [e];
      EntriesAppend(es[1..], e);
    }
  }

  lemma {:induction false} PropsAppend(ps: seq<seq<Ref>>, p: seq<Ref>)
    ensures PropsRefs(ps + [p]) == PropsRefs(ps) + p
  {
    if ps == [] {
      assert PropsRefs([p]) == p + PropsRefs([p][1..]);
    } else {
      assert (ps + [p])[1..] == ps[1..] + [p];
      PropsAppend(ps[1..], p);
    }
  }

  // ----------------------------------------------------- what is maintained

  /** What has been found is reachable, and the kinds in use are those of the
      objects found. */
  ghost predicate Sound(db: Store, f: Found, kc: set<nat>, ko: set<Ref>) {
    && (forall c | c in kc + f.collections :: Reachable(db, Collection(c)))
    && (forall o | o in ko + f.objects :: IsObject(o) && Reachable(db, Object(o)))
    && (forall k | k in f.handles :: Reachable(db, Kind(k)))
    && f.kinds == KindsOf(ko + f.objects)
  }

  /** Everything that `refs` names has been found. */
  ghost predicate Covered(f: Found, kc: set<nat>, ko: set<Ref>, refs: seq<Ref>) {
    && CollectionsIn(refs) <= kc + f.collections
    && ObjectsIn(refs) <= ko + f.objects
    && HandlesIn(refs) <= f.handles
  }

  /** The collections `cs` and the objects `os` have been scanned. */
  ghost predicate Scanned(db: Store, f: Found, kc: set<nat>, ko: set<Ref>, cs: set<nat>, os: set<Ref>) {
    && (forall c | c in cs :: Covered(f, kc, ko, RefsOf(db, Collection(c))))
    && (forall o | o in os :: o in db.objects && Covered(f, kc, ko, RefsOf(db, Object(o))))
  }

  /** Scanning a reachable node keeps what was found sound and adds the node
      to what has been scanned. */
  lemma FileKeeps(db: Store, f: Found, kc: set<nat>, ko: set<Ref>, cs: set<nat>, os: set<Ref>, n: Node)
    requires Sound(db, f, kc, ko) && Scanned(db, f, kc, ko, cs, os) && Reachable(db, n)
    ensures
      var f' := File(f, kc, ko, RefsOf(db, n));
      && Sound(db, f', kc, ko) && Scanned(db, f', kc, ko, cs, os)
      && Covered(f', kc, ko, RefsOf(db, n))
      && (f.collections !! kc ==> f'.collections !! kc) && (f.objects !! ko ==> f'.objects !! ko)
  {
    var refs := RefsOf(db, n);
    var f' := File(f, kc, ko, refs);
    forall c | c in CollectionsIn(refs) ensures Reachable(db, Collection(c)) {
      var r :| r in refs && IsCollection(r) && r.id == c;
      assert Names(r, Collection(c));
      ReachableEdge(db, n, Collection(c));
    }
    forall o | o in ObjectsIn(refs) ensures Reachable(db, Object(o)) {
      assert Names(o, Object(o));
      ReachableEdge(db, n, Object(o));
    }
    forall k | k in HandlesIn(refs) ensures Reachable(db, Kind(k)) {
      var r :| r in refs && IsHandle(r) && r.id == k;
      assert Names(r, Kind(k));
      ReachableEdge(db, n, Kind(k));
    }
    KindsOfUnion(ko + f.objects, ObjectsIn(refs));
    assert ko + f'.objects == ko + f.objects + ObjectsIn(refs);
  }

  /** Finding is confined to the store. */
  ghost function AllRefs(db: Store): set<Ref> {
    (set c, r | c in db.collections && r in EntriesRefs(db.collections[c]) :: r)
    + (set o, r | o in db.objects && r in PropsRefs(db.objects[o]) :: r)
  }

  ghost function AllCollections(db: Store): set<nat> {
    {1} + set r | r in AllRefs(db) && IsCollection(r) :: r.id
  }

  lemma FileConfined(db: Store, f: Found, kc: set<nat>, ko: set<Ref>, n: Node)
    requires kc + f.collections <= AllCollections(db) && ko + f.objects <= AllRefs(db)
    ensures
      var f' := File(f, kc, ko, RefsOf(db, n));
      kc + f'.collections <= AllCollections(db) && ko + f'.objects <= AllRefs(db)
  {
    assert forall r | r in RefsOf(db, n) :: r in AllRefs(db);
  }

  /** The node is among what is known. */
  ghost predicate Known(f: Found, kc: set<nat>, ko: set<Ref>, n: Node) {
    match n
    case Collection(c) => c in kc
    case Object(o) => o in ko
    case Kind(k) => k in f.handles
  }

  lemma CoveredIsKnown(f: Found, kc: set<nat>, ko: set<Ref>, refs: seq<Ref>, r: Ref, n: Node)
    requires Covered(f, kc, ko, refs) && f.collections == {} && f.objects == {}
    requires r in refs && Names(r, n)
    ensures Known(f, kc, ko, n)
  {
    match n
    case Collection(c) => assert c in CollectionsIn(refs);
    case Object(o) => assert o in ObjectsIn(refs);
    case Kind(k) => assert k in HandlesIn(refs);
  }

  /** Edges lead from known nodes to known nodes. */
  ghost predicate Closed(db: Store, f: Found, kc: set<nat>, ko: set<Ref>) {
    forall m, n :: Known(f, kc, ko, m) && Edge(db, m, n) ==> Known(f, kc, ko, n)
  }

  lemma ScannedIsClosed(db: Store, f: Found, kc: set<nat>, ko: set<Ref>)
    requires Scanned(db, f, kc, ko, kc, ko)
    requires f.collections == {} && f.objects == {}
    ensures Closed(db, f, kc, ko)
  {
    forall m, n | Known(f, kc, ko, m) && Edge(db, m, n) ensures Known(f, kc, ko, n) {
      var r :| r in RefsOf(db, m) && Names(r, n);
      CoveredIsKnown(f, kc, ko, RefsOf(db, m), r, n);
    }
  }

  /** A scan with nothing pending has found everything there is to find. */
  lemma {:induction false} Complete(db: Store, f: Found, kc: set<nat>, ko: set<Ref>, path: seq<Node>, i: nat)
    requires Closed(db, f, kc, ko) && 1 in kc
    requires IsPath(db, path) && i < |path|
    ensures Known(f, kc, ko, path[i])
  {
    if i == 0 {
    } else {
      Complete(db, f, kc, ko, path, i - 1);
      assert Edge(db, path[i - 1], path[i]);
    }
  }

  ghost predicate MissingRecord(db: Store) {
    exists o :: Reachable(db, Object(o)) && o !in db.objects
  }

  /** `k` is the kind of a reachable object and has no reachable handle. */
  ghost predicate Unhandled(db: Store, k: nat) {
    !Reachable(db, Kind(k)) && exists o :: Reachable(db, Object(o)) && o.Durable? && o.kind == k
  }

  datatype CheckError = NoRecord | KindsWithoutHandle(count: nat)

  lemma FewerLeft<T>(all: set<T>, known: set<T>, more: set<T>)
    requires known + more <= all && known !! more
    ensures |all - (known + more)| == |all - known| - |more|
  {
    assert all - known == (all - (known + more)) + more;
  }

  ghost function Unknown(db: Store, kc: set<nat>, ko: set<Ref>): nat {
    |AllCollections(db) - kc| + |AllRefs(db) - ko|
  }

  lemma LessToFind(db: Store, kc: set<nat>, pc: set<nat>, ko: set<Ref>, po: set<Ref>)
    requires kc + pc <= AllCollections(db) && kc !! pc && ko + po <= AllRefs(db) && ko !! po
    requires pc != {} || po != {}
    ensures Unknown(db, kc + pc, ko + po) < Unknown(db, kc, ko)
  {
    FewerLeft(AllCollections(db), kc, pc);
    FewerLeft(AllRefs(db), ko, po);
  }

  // -------------------------------------------------------------- the scan

  class Scan {
    const db: Store
    var pendingCollections: set<nat>
    var knownCollections: set<nat>
    var pendingObjects: set<Ref>
    var knownObjects: set<Ref>
    var knownKinds: set<nat>
    var usedKinds: set<nat>

    constructor (db: Store)
      ensures this.db == db
      ensures knownCollections == {} && pendingCollections == {1}
      ensures knownObjects == pendingObjects == {} && knownKinds == usedKinds == {}
    {
      this.db := db;
      pendingCollections, knownCollections := {1}, {};
      pendingObjects, knownObjects := {}, {};
      knownKinds, usedKinds := {}, {};
    }

    ghost function Now(): Found
      reads this
    {
      Found(pendingCollections, pendingObjects, knownKinds, usedKinds)
    }

    method ScanSlot(slot: Ref)
      modifies `pendingCollections, `pendingObjects, `knownKinds, `usedKinds
      ensures Now() == File(old(Now()), knownCollections, knownObjects, [slot])
    {
      assert forall r :: r in [slot] <==> r == slot;
      match slot
      case Other =>
      case Durable(baseRef, subRef) =>
        if baseRef == BIG_MAP || baseRef == BIG_SET {
          if subRef !in knownCollections {
            pendingCollections := pendingCollections + {subRef};
          }
        } else if baseRef == KIND_HANDLE {
          knownKinds := knownKinds + {subRef};
        } else {
          if baseRef !in usedKinds {
            usedKinds := usedKinds + {baseRef};
          }
          if slot !in knownObjects {
            pendingObjects := pendingObjects + {slot};
          }
        }
    }

    method ScanSlots(slots: seq<Ref>)
      modifies `pendingCollections, `pendingObjects, `knownKinds, `usedKinds
      ensures Now() == File(old(Now()), knownCollections, knownObjects, slots)
    {
      FileNothing(Now(), knownCollections, knownObjects);
      for i := 0 to |slots|
        invariant Now() == File(old(Now()), knownCollections, knownObjects, slots[..i])
      {
        FileAppend(old(Now()), knownCollections, knownObjects, slots[..i], [slots[i]]);
        assert slots[..i + 1] == slots[..i] + [slots[i]];
        ScanSlot(slots[i]);
      }
      assert slots[..|slots|] == slots;
    }

    method ScanEntry(e: Entry)
      modifies `pendingCollections, `pendingObjects, `knownKinds, `usedKinds
      ensures Now() == File(old(Now()), knownCollections, knownObjects, EntryRefs(e))
    {
      if e.remotableKey.Some? {
        FileAppend(Now(), knownCollections, knownObjects, [e.remotableKey.value], e.slots);
        ScanSlots([e.remotableKey.value]);
      } else {
        assert EntryRefs(e) == e.slots;
      }
      ScanSlots(e.slots);
    }

    method ScanCollection(c: nat)
      modifies `pendingCollections, `pendingObjects, `knownKinds, `usedKinds
      ensures Now() == File(old(Now()), knownCollections, knownObjects, RefsOf(db, Collection(c)))
    {
      var entries := CollectionEntries(db, c);
      FileNothing(Now(), knownCollections, knownObjects);
      for i := 0 to |entries|
        invariant Now() == File(old(Now()), knownCollections, knownObjects, EntriesRefs(entries[..i]))
      {
        FileAppend(old(Now()), knownCollections, knownObjects, EntriesRefs(entries[..i]), EntryRefs(entries[i]));
        EntriesAppend(entries[..i], entries[i]);
        assert entries[..i + 1] == entries[..i] + [entries[i]];
        ScanEntry(entries[i]);
      }
      assert entries[..|entries|] == entries;
    }

    /** Fails on an object that has no record. */
    method ScanObject(o: Ref) returns (ok: bool)
      modifies `pendingCollections, `pendingObjects, `knownKinds, `usedKinds
      ensures ok <==> o in db.objects
      ensures ok ==> Now() == File(old(Now()), knownCollections, knownObjects, RefsOf(db, Object(o)))
    {
      if o !in db.objects {
        return false;
      }
      var props := db.objects[o];
      FileNothing(Now(), knownCollections, knownObjects);
      for i := 0 to |props|
        invariant Now() == File(old(Now()), knownCollections, knownObjects, PropsRefs(props[..i]))
      {
        FileAppend(old(Now()), knownCollections, knownObjects, PropsRefs(props[..i]), props[i]);
        PropsAppend(props[..i], props[i]);
        assert props[..i + 1] == props[..i] + [props[i]];
        ScanSlots(props[i]);
      }
      assert props[..|props|] == props;
      return true;
    }

    /** The worklist is sound, what is known has been scanned except for what
        `cs` and `os` leave out, and nothing pending is known. */
    ghost predicate Going(cs: set<nat>, os: set<Ref>)
      reads this
    {
      && Sound(db, Now(), knownCollections, knownObjects)
      && Scanned(db, Now(), knownCollections, knownObjects, cs, os)
      && pendingCollections !! knownCollections && pendingObjects !! knownObjects
      && 1 in knownCollections + pendingCollections
      && knownCollections + pendingCollections <= AllCollections(db)
      && knownObjects + pendingObjects <= AllRefs(db)
    }

    method ScanWorkingCollections()
      requires Going(knownCollections, knownObjects)
      modifies this
      ensures Going(knownCollections, knownObjects)
      ensures knownCollections == old(knownCollections + pendingCollections)
      ensures knownObjects == old(knownObjects) && pendingObjects >= old(pendingObjects)
    {
      var todo := pendingCollections;
      pendingCollections := {};
      knownCollections := knownCollections + todo;
      while todo != {}
        invariant todo <= knownCollections && Going(knownCollections - todo, knownObjects)
        invariant knownCollections == old(knownCollections + pendingCollections)
        invariant knownObjects == old(knownObjects) && pendingObjects >= old(pendingObjects)
      {
        var c :| c in todo;
        FileKeeps(db, Now(), knownCollections, knownObjects, knownCollections - todo, knownObjects, Collection(c));
        FileConfined(db, Now(), knownCollections, knownObjects, Collection(c));
        todo := todo - {c};
        ScanCollection(c);
      }
    }

    /** One turn of the loop over the objects that are still to be scanned. */
    method ScanNext(o: Ref, todo: set<Ref>) returns (ok: bool)
      requires Going(knownCollections, knownObjects - todo) && o in todo && todo <= knownObjects
      modifies `pendingCollections, `pendingObjects, `knownKinds, `usedKinds
      ensures ok ==> Going(knownCollections, knownObjects - (todo - {o}))
      ensures !ok ==> MissingRecord(db)
    {
      FileKeeps(db, Now(), knownCollections, knownObjects, knownCollections, knownObjects - todo, Object(o));
      FileConfined(db, Now(), knownCollections, knownObjects, Object(o));
      assert Reachable(db, Object(o));
      ok := ScanObject(o);
    }

    method ScanWorkingObjects() returns (ok: bool)
      requires Going(knownCollections, knownObjects)
      modifies this
      ensures ok ==> Going(knownCollections, knownObjects)
      ensures ok ==> knownObjects == old(knownObjects + pendingObjects)
      ensures knownCollections == old(knownCollections)
      ensures !ok ==> MissingRecord(db)
    {
      var todo := pendingObjects;
      pendingObjects := {};
      knownObjects := knownObjects + todo;
      while todo != {}
        invariant todo <= knownObjects && Going(knownCollections, knownObjects - todo)
        invariant knownObjects == old(knownObjects + pendingObjects)
        invariant knownCollections == old(knownCollections)
      {
        var o :| o in todo;
        ok := ScanNext(o, todo);
        if !ok {
          return;
        }
        todo := todo - {o};
      }
      return true;
    }

    /** What is known is exactly what is reachable, and every reachable object
        has a record. */
    ghost predicate Exact()
      reads this
    {
      && (forall c :: c in knownCollections <==> Reachable(db, Collection(c)))
      && (forall o :: o in knownObjects <==> Reachable(db, Object(o)))
      && (forall k :: k in knownKinds <==> Reachable(db, Kind(k)))
      && (forall o | o in knownObjects :: IsObject(o) && o in db.objects)
      && usedKinds == KindsOf(knownObjects)
    }

    lemma NothingPendingIsExact()
      requires Going(knownCollections, knownObjects) && pendingCollections == {} && pendingObjects == {}
      ensures Exact()
    {
      ScannedIsClosed(db, Now(), knownCollections, knownObjects);
      forall n | Reachable(db, n) ensures Known(Now(), knownCollections, knownObjects, n) {
        var path :| IsPath(db, path) && path[|path| - 1] == n;
        Complete(db, Now(), knownCollections, knownObjects, path, |path| - 1);
      }
      assert forall c | Reachable(db, Collection(c)) :: Known(Now(), knownCollections, knownObjects, Collection(c));
      assert forall o | Reachable(db, Object(o)) :: Known(Now(), knownCollections, knownObjects, Object(o));
      assert forall k | Reachable(db, Kind(k)) :: Known(Now(), knownCollections, knownObjects, Kind(k));
      assert knownObjects + {} == knownObjects;
    }

    lemma ExactHasRecords()
      requires Exact()
      ensures !MissingRecord(db)
    {
    }

    lemma UsedWithoutHandle(k: nat)
      requires Exact()
      ensures k in usedKinds - knownKinds <==> Unhandled(db, k)
    {
    }

    /** The main loop. */
    method ScanAll() returns (ok: bool)
      requires knownCollections == {} && pendingCollections == {1}
      requires knownObjects == pendingObjects == {} && knownKinds == usedKinds == {}
      modifies this
      ensures ok <==> !MissingRecord(db)
      ensures ok ==> Exact()
    {
      BaggageReachable(db);
      ok := true;
      while pendingCollections != {} || pendingObjects != {}
        invariant ok && Going(knownCollections, knownObjects)
        decreases Unknown(db, knownCollections, knownObjects)
      {
        ghost var kc, ko := knownCollections, knownObjects;
        ghost var pc := pendingCollections;
        ScanWorkingCollections();
        ghost var po := pendingObjects;
        ok := ScanWorkingObjects();
        if !ok {
          return;
        }
        LessToFind(db, kc, pc, ko, po);
      }
      NothingPendingIsExact();
      ExactHasRecords();
    }
  }

  /** The check.  Unless a reachable object has no record, it finds exactly
      what is reachable from baggage, and throws if and only if the kind of
      some reachable object has no reachable handle, counting those kinds. */
  method CheckBaggage(db: Store) returns (r: Result<Scan, CheckError>)
    ensures r == Failure(NoRecord) <==> MissingRecord(db)
    ensures r.Success? ==> r.value.db == db && r.value.Exact() && forall k :: !Unhandled(db, k)
    ensures r.Failure? && r.error.KindsWithoutHandle? ==>
      && 0 < r.error.count
      && exists kinds: set<nat> :: r.error.count == |kinds| && forall k :: k in kinds <==> Unhandled(db, k)
  {
    var scan := new Scan(db);
    var ok := scan.ScanAll();
    if !ok {
      return Failure(NoRecord);
    }
    var unhandled := scan.usedKinds - scan.knownKinds;
    forall k ensures k in unhandled <==> Unhandled(db, k) {
      scan.UsedWithoutHandle(k);
    }
    if unhandled != {} {
      return Failure(KindsWithoutHandle(|unhandled|));
    }
    return Success(scan);
  }
}

/**
 * The life of one configuration: snapshots are taken, loaded, deleted, published and retired, the configuration
 * itself is deleted and restored, and runtime readers go through a cache keyed by the runtime version. Every
 * operation locks the configuration row first, so operations on one configuration are atomic steps.
 */
module Publication {
  import opened Foundation
  import opened Decimal

  /** The width of the version a caller sends; stored versions are 64-bit. */
  type uint32 = x: int | 0 <= x < 0x1_0000_0000

  datatype Status = Unreleased | Released

  /** A stored snapshot: its text, whether that decodes, belongs here and satisfies its schema, and the value in it. */
  datatype Content = Content(text: Bytes, valid: bool, value: Bytes)

  datatype Snapshot = Snapshot(status: Status, version: int, isUsing: bool, content: Content)

  /** `snapshots` holds the live ones; `cache` maps runtime versions to cached values, whatever their age. */
  datatype State = State(
    live: bool, runtimeVersion: int, snapshots: map<nat, Snapshot>, nextId: nat, cache: map<int, Bytes>)

  datatype Failure = Missing | Conflict | InvalidContent

  datatype Outcome<+T> = Done(value: T) | Failed(failure: Failure)

  const INITIAL := State(false, 0, map[], 0, map[])

  // ---- Configuration rows ----

  /** Insert, or restore a deleted row under the same key; either way the runtime version starts at zero. */
  function CreateConfig(s: State): (r: Outcome<State>) {
    if s.live then Failed(Conflict) else Done(s.(live := true, runtimeVersion := 0))
  }

  function DeleteConfig(s: State): (r: Outcome<State>) {
    if !s.live then Failed(Missing)
    else if s.snapshots != map[] then Failed(Conflict)
    else Done(s.(live := false))
  }

  // ---- Snapshots ----

  function Insert(s: State, content: Content): (t: State) {
    s.(snapshots := s.snapshots[s.nextId := Snapshot(Unreleased, 1, false, content)], nextId := s.nextId + 1)
  }

  /** Whether marking `id` current writes this row: the target always, another one only if it was current. */
  predicate Touched(s: State, id: nat, other: nat)
    requires other in s.snapshots
  {
    other == id || s.snapshots[other].isUsing
  }

  function SetCurrent(s: State, id: nat): (r: Outcome<State>) {
    if id !in s.snapshots then Failed(Missing)
    else if exists k :: k in s.snapshots && Touched(s, id, k) && s.snapshots[k].version >= MAX_INT64
    then Failed(Conflict)
    else Done(s.(snapshots := map k | k in s.snapshots ::
      if Touched(s, id, k) then s.snapshots[k].(version := s.snapshots[k].version + 1, isUsing := k == id)
      else s.snapshots[k]))
  }

  /** Taking a snapshot of a valid draft; an import ends in the same two steps. */
  function CreateSnapshot(s: State, draft: Content): (r: Outcome<State>) {
    if !s.live then Failed(Missing)
    else if !draft.valid then Failed(InvalidContent)
    else SetCurrent(Insert(s, draft), s.nextId)
  }

  /** The draft is saved first unless the current snapshot already holds it. */
  function AutoSave(s: State, draft: Content): (t: State) {
    if exists k :: k in s.snapshots && s.snapshots[k].isUsing && s.snapshots[k].content.text == draft.text then s
    else Insert(s, draft)
  }

  function LoadSnapshot(s: State, id: nat, draft: Content): (r: Outcome<State>) {
    if !s.live || id !in s.snapshots then Failed(Missing)
    else if !draft.valid || !s.snapshots[id].content.valid then Failed(InvalidContent)
    else SetCurrent(AutoSave(s, draft), id)
  }

  /** The deleted row's version still advances, so it must have room to. */
  function DeleteSnapshot(s: State, id: nat): (r: Outcome<State>) {
    if !s.live || id !in s.snapshots then Failed(Missing)
    else if s.snapshots[id].isUsing || s.snapshots[id].status.Released? then Failed(Conflict)
    else if s.snapshots[id].version >= MAX_INT64 then Failed(Conflict)
    else Done(s.(snapshots := s.snapshots - {id}))
  }

  // ---- Publication ----

  function ReleasedIds(s: State): (ids: set<nat>) {
    set k | k in s.snapshots && s.snapshots[k].status.Released?
  }

  /** `preparePublication` up to the content check: the target must differ in status and be as the caller saw it. */
  function CheckTarget(s: State, id: nat, status: Status, expectedVersion: uint32): (failure: Option<Failure>) {
    if !s.live then Some(Missing)
    else if |ReleasedIds(s)| > 1 then Some(Conflict)
    else if id !in s.snapshots then Some(Missing)
    else if s.snapshots[id].status == status then Some(Conflict)
    else if s.snapshots[id].version != expectedVersion then Some(Conflict)
    else if s.runtimeVersion < 0 || s.runtimeVersion >= MAX_INT64 then Some(Conflict)
    else None
  }

  function WithStatus(snapshot: Snapshot, status: Status): (t: Snapshot) {
    snapshot.(status := status, version := snapshot.version + 1)
  }

  function Publish(s: State, id: nat, expectedVersion: uint32): (r: Outcome<State>) {
    var failure := CheckTarget(s, id, Released, expectedVersion);
    if failure.Some? then Failed(failure.value)
    else if !s.snapshots[id].content.valid then Failed(InvalidContent)
    else if exists k :: k in ReleasedIds(s) && s.snapshots[k].version >= MAX_INT64 then Failed(Conflict)
    else Done(s.(
      runtimeVersion := s.runtimeVersion + 1,
      snapshots := map k | k in s.snapshots ::
        if k == id then WithStatus(s.snapshots[k], Released)
        else if k in ReleasedIds(s) then WithStatus(s.snapshots[k], Unreleased)
        else s.snapshots[k]))
  }

  function Unpublish(s: State, id: nat, expectedVersion: uint32): (r: Outcome<State>) {
    var failure := CheckTarget(s, id, Unreleased, expectedVersion);
    if failure.Some? then Failed(failure.value)
    else Done(s.(
      runtimeVersion := s.runtimeVersion + 1,
      snapshots := s.snapshots[id := WithStatus(s.snapshots[id], Unreleased)]))
  }

  // ---- Runtime reads ----

  datatype Served = Served(value: Bytes, version: int)

  /** What the database alone says is published: the released snapshot with the largest id. */
  ghost predicate IsLatestRelease(s: State, id: nat) {
    id in ReleasedIds(s) && forall k :: k in ReleasedIds(s) ==> k <= id
  }

  ghost function ServedFromDatabase(s: State): (r: Outcome<Served>) {
    if s.live && exists id :: IsLatestRelease(s, id) then
      var id :| IsLatestRelease(s, id);
      if s.snapshots[id].content.valid then Done(Served(s.snapshots[id].content.value, s.runtimeVersion))
      else Failed(InvalidContent)
    else Failed(Missing)
  }

  /** `readConfig`: the cached value of the current runtime version if there is one, else the database's. */
  ghost function Read(s: State): (r: Outcome<Served>) {
    if !s.live then Failed(Missing)
    else if s.runtimeVersion in s.cache then Done(Served(s.cache[s.runtimeVersion], s.runtimeVersion))
    else ServedFromDatabase(s)
  }

  ghost function AfterRead(s: State): (t: State) {
    var r := Read(s);
    if r.Done? then s.(cache := s.cache[s.runtimeVersion := r.value.value]) else s
  }

  // ---- Runs ----

  /** Expiry, a cleanup after a publication, or a lost cache: any entry can disappear at any time, or never. */
  datatype Event =
    | ConfigCreated
    | ConfigDeleted
    | SnapshotCreated(draft: Content)
    | SnapshotLoaded(id: nat, draft: Content)
    | SnapshotDeleted(id: nat)
    | SnapshotPublished(id: nat, expectedVersion: uint32)
    | SnapshotUnpublished(id: nat, expectedVersion: uint32)
    | ConfigRead
    | CacheLost(version: int)

  /** A failed operation rolls back. */
  function Commit(s: State, r: Outcome<State>): (t: State) {
    if r.Done? then r.value else s
  }

  ghost function Step(s: State, e: Event): (t: State) {
    match e
    case ConfigCreated => Commit(s, CreateConfig(s))
    case ConfigDeleted => Commit(s, DeleteConfig(s))
    case SnapshotCreated(draft) => Commit(s, CreateSnapshot(s, draft))
    case SnapshotLoaded(id, draft) => Commit(s, LoadSnapshot(s, id, draft))
    case SnapshotDeleted(id) => Commit(s, DeleteSnapshot(s, id))
    case SnapshotPublished(id, expectedVersion) => Commit(s, Publish(s, id, expectedVersion))
    case SnapshotUnpublished(id, expectedVersion) => Commit(s, Unpublish(s, id, expectedVersion))
    case ConfigRead => AfterRead(s)
    case CacheLost(version) => s.(cache := s.cache - {version})
  }

  ghost function Run(s: State, events: seq<Event>): (t: State)
    decreases events
  {
    if events == [] then s else Run(Step(s, events[0]), events[1..])
  }

  // ---- The invariant ----

  /** At most one snapshot is released, and what is released is valid. */
  ghost predicate OneRelease(snapshots: map<nat, Snapshot>) {
    && (forall j, k ::
          j in snapshots && k in snapshots && snapshots[j].status.Released? && snapshots[k].status.Released? ==> j == k)
    && (forall k :: k in snapshots && snapshots[k].status.Released? ==> snapshots[k].content.valid)
  }

  /** There is exactly one current snapshot, unless there is none at all. */
  ghost predicate OneCurrent(snapshots: map<nat, Snapshot>) {
    && (snapshots != map[] ==> exists k :: k in snapshots && snapshots[k].isUsing)
    && (forall j, k :: j in snapshots && k in snapshots && snapshots[j].isUsing && snapshots[k].isUsing ==> j == k)
  }

  /** No cached value is from the future, and one for the current version is what is released now. */
  ghost predicate CacheCoherent(s: State) {
    && (forall v :: v in s.cache ==> 0 <= v <= s.runtimeVersion)
    && (s.runtimeVersion in s.cache ==>
          exists k :: k in s.snapshots && s.snapshots[k].status.Released?
                      && s.snapshots[k].content.value == s.cache[s.runtimeVersion])
  }

  ghost predicate RowsInRange(snapshots: map<nat, Snapshot>, nextId: nat) {
    forall k :: k in snapshots ==> k < nextId && 1 <= snapshots[k].version <= MAX_INT64
  }

  ghost predicate Inv(s: State) {
    && 0 <= s.runtimeVersion <= MAX_INT64
    && RowsInRange(s.snapshots, s.nextId)
    && OneRelease(s.snapshots)
    && OneCurrent(s.snapshots)
    && (s.snapshots != map[] ==> s.live)
    // A configuration without snapshots was never published: nothing can be stale when it is restored.
    && (s.snapshots == map[] ==> s.runtimeVersion == 0 && s.cache == map[])
    && CacheCoherent(s)
  }

  /** The state just after an optional insert: everything but having a current snapshot still holds. */
  ghost predicate Extends(s: State, t: State) {
    && t == s.(snapshots := t.snapshots, nextId := t.nextId)
    && RowsInRange(t.snapshots, t.nextId) && OneRelease(t.snapshots)
    && (forall j, k ::
          j in t.snapshots && k in t.snapshots && t.snapshots[j].isUsing && t.snapshots[k].isUsing ==> j == k)
    && (forall k :: k in s.snapshots ==> k in t.snapshots && t.snapshots[k] == s.snapshots[k])
    && s.nextId <= t.nextId
    && (forall k :: k in t.snapshots && k !in s.snapshots ==> s.nextId <= k && t.snapshots[k].status.Unreleased?)
  }

  lemma {:induction false} InsertExtends(s: State, draft: Content)
    requires Inv(s)
    ensures Extends(s, Insert(s, draft))
  {
    var t := Insert(s, draft);
    assert s.nextId !in s.snapshots;
    assert forall k :: k in t.snapshots ==> k == s.nextId || (k in s.snapshots && t.snapshots[k] == s.snapshots[k]);
    assert t.snapshots[s.nextId] == Snapshot(Unreleased, 1, false, draft);
  }

  lemma {:induction false} AutoSaveExtends(s: State, draft: Content)
    requires Inv(s)
    ensures Extends(s, AutoSave(s, draft))
  {
    InsertExtends(s, draft);
  }

  /** Marking a snapshot current touches neither status nor content, and leaves exactly one current. */
  lemma {:induction false} SetCurrentShape(t: State, id: nat)
    requires RowsInRange(t.snapshots, t.nextId) && OneRelease(t.snapshots) && SetCurrent(t, id).Done?
    ensures var u := SetCurrent(t, id).value;
            && u == t.(snapshots := u.snapshots) && u.snapshots.Keys == t.snapshots.Keys && u.snapshots != map[]
            && RowsInRange(u.snapshots, u.nextId) && OneRelease(u.snapshots) && OneCurrent(u.snapshots)
            && forall k :: k in t.snapshots ==> SameRelease(t.snapshots[k], u.snapshots[k])
  {
    var u := SetCurrent(t, id).value;
    assert u.snapshots[id].isUsing;
    assert forall k :: k in t.snapshots ==> SameRelease(t.snapshots[k], u.snapshots[k]);
  }

  predicate SameRelease(a: Snapshot, b: Snapshot) {
    a.status == b.status && a.content == b.content
  }

  lemma {:induction false} SetCurrentKeeps(s: State, t: State, id: nat)
    requires Inv(s) && s.live && Extends(s, t) && SetCurrent(t, id).Done?
    ensures Inv(SetCurrent(t, id).value)
  {
    SetCurrentShape(t, id);
    var u := SetCurrent(t, id).value;
    if u.runtimeVersion in u.cache {
      var k :| k in s.snapshots && s.snapshots[k].status.Released?
               && s.snapshots[k].content.value == s.cache[s.runtimeVersion];
      assert SameRelease(t.snapshots[k], u.snapshots[k]);
    }
  }

  lemma {:induction false} SameCurrent(before: map<nat, Snapshot>, after: map<nat, Snapshot>)
    requires OneCurrent(before) && before.Keys == after.Keys
    requires forall k :: k in before ==> after[k].isUsing == before[k].isUsing
    ensures OneCurrent(after)
  {
    if after != map[] {
      var current :| current in before && before[current].isUsing;
      assert after[current].isUsing;
    }
  }

  lemma {:induction false} PublishKeeps(s: State, id: nat, expectedVersion: uint32)
    requires Inv(s) && Publish(s, id, expectedVersion).Done?
    ensures Inv(Publish(s, id, expectedVersion).value)
  {
    var t := Publish(s, id, expectedVersion).value;
    SameCurrent(s.snapshots, t.snapshots);
  }

  lemma {:induction false} UnpublishKeeps(s: State, id: nat, expectedVersion: uint32)
    requires Inv(s) && Unpublish(s, id, expectedVersion).Done?
    ensures Inv(Unpublish(s, id, expectedVersion).value)
  {
    var t := Unpublish(s, id, expectedVersion).value;
    SameCurrent(s.snapshots, t.snapshots);
  }

  lemma {:induction false} DeleteSnapshotKeeps(s: State, id: nat)
    requires Inv(s) && DeleteSnapshot(s, id).Done?
    ensures Inv(DeleteSnapshot(s, id).value)
  {
    var t := DeleteSnapshot(s, id).value;
    var current :| current in s.snapshots && s.snapshots[current].isUsing;
    assert current in t.snapshots && t.snapshots[current].isUsing;
    if t.runtimeVersion in t.cache {
      var k :| k in s.snapshots && s.snapshots[k].status.Released?
               && s.snapshots[k].content.value == s.cache[s.runtimeVersion];
      assert k in t.snapshots;
    }
  }

  lemma {:induction false} LatestIsTheRelease(s: State, k: nat)
    requires Inv(s) && k in s.snapshots && s.snapshots[k].status.Released?
    ensures IsLatestRelease(s, k) && forall id :: IsLatestRelease(s, id) ==> id == k
  {
    assert k in ReleasedIds(s);
  }

  /** A reader cannot tell the cache is there: with it or without it, the answer is the database's. */
  lemma {:induction false} CacheIsTransparent(s: State)
    requires Inv(s)
    ensures Read(s) == ServedFromDatabase(s)
  {
    if s.live && s.runtimeVersion in s.cache {
      var k :| k in s.snapshots && s.snapshots[k].status.Released?
               && s.snapshots[k].content.value == s.cache[s.runtimeVersion];
      LatestIsTheRelease(s, k);
    }
  }

  lemma {:induction false} ReadKeeps(s: State)
    requires Inv(s)
    ensures Inv(AfterRead(s))
  {
    CacheIsTransparent(s);
    var r := Read(s);
    if r.Done? {
      var id :| IsLatestRelease(s, id);
      LatestIsTheRelease(s, id);
      assert s.snapshots[id].content.value == r.value.value;
    }
  }

  // ---- What every step keeps and how it moves ----

  ghost predicate IsReleased(s: State, value: Bytes) {
    exists k :: k in s.snapshots && s.snapshots[k].status.Released? && s.snapshots[k].content.value == value
  }

  /** The version never goes back, and while it stands still so does what is published. */
  ghost predicate Advances(s: State, t: State) {
    && s.runtimeVersion <= t.runtimeVersion
    && (s.runtimeVersion == t.runtimeVersion ==> forall value :: IsReleased(s, value) <==> IsReleased(t, value))
  }

  lemma {:induction false} SetCurrentAdvances(s: State, t: State, id: nat)
    requires Inv(s) && Extends(s, t) && SetCurrent(t, id).Done?
    ensures Advances(s, SetCurrent(t, id).value)
  {
    SetCurrentShape(t, id);
    var u := SetCurrent(t, id).value;
    forall value
      ensures IsReleased(s, value) <==> IsReleased(u, value)
    {
      if IsReleased(s, value) {
        var k :| k in s.snapshots && s.snapshots[k].status.Released? && s.snapshots[k].content.value == value;
        assert SameRelease(t.snapshots[k], u.snapshots[k]);
      }
      if IsReleased(u, value) {
        var k :| k in u.snapshots && u.snapshots[k].status.Released? && u.snapshots[k].content.value == value;
        assert SameRelease(t.snapshots[k], u.snapshots[k]) && k in s.snapshots;
      }
    }
  }

  lemma {:induction false} DeleteSnapshotAdvances(s: State, id: nat)
    requires Inv(s) && DeleteSnapshot(s, id).Done?
    ensures Advances(s, DeleteSnapshot(s, id).value)
  {
    var t := DeleteSnapshot(s, id).value;
    forall value
      ensures IsReleased(s, value) <==> IsReleased(t, value)
    {
      if IsReleased(s, value) {
        var k :| k in s.snapshots && s.snapshots[k].status.Released? && s.snapshots[k].content.value == value;
        assert k in t.snapshots;
      }
    }
  }

  /** No id comes back, and a snapshot's version moves whenever anything about it does. */
  ghost predicate VersionsGuard(s: State, t: State) {
    && s.nextId <= t.nextId
    && (forall k :: k in t.snapshots && k < s.nextId ==> k in s.snapshots)
    && (forall k :: k in s.snapshots && k in t.snapshots ==>
          s.snapshots[k].version <= t.snapshots[k].version
          && (s.snapshots[k].version == t.snapshots[k].version ==> s.snapshots[k] == t.snapshots[k]))
  }

  lemma {:induction false} SetCurrentGuards(s: State, t: State, id: nat)
    requires Inv(s) && Extends(s, t) && SetCurrent(t, id).Done?
    ensures VersionsGuard(s, SetCurrent(t, id).value)
  {
    SetCurrentShape(t, id);
    var u := SetCurrent(t, id).value;
    forall k | k in s.snapshots && k in u.snapshots
      ensures s.snapshots[k].version <= u.snapshots[k].version
      ensures s.snapshots[k].version == u.snapshots[k].version ==> s.snapshots[k] == u.snapshots[k]
    {
      assert k in t.snapshots && t.snapshots[k] == s.snapshots[k];
    }
  }

  lemma {:induction false} PublishGuards(s: State, id: nat, expectedVersion: uint32)
    requires Inv(s)
    ensures VersionsGuard(s, Commit(s, Publish(s, id, expectedVersion)))
  {
  }

  lemma {:induction false} UnpublishGuards(s: State, id: nat, expectedVersion: uint32)
    requires Inv(s)
    ensures VersionsGuard(s, Commit(s, Unpublish(s, id, expectedVersion)))
  {
  }

  lemma {:induction false} DeleteGuards(s: State, id: nat)
    ensures VersionsGuard(s, Commit(s, DeleteSnapshot(s, id)))
  {
  }

  /** Everything a step guarantees: the invariant, the order of versions, and the guard that versions are. */
  ghost predicate Good(s: State, t: State) {
    Inv(t) && Advances(s, t) && VersionsGuard(s, t)
  }

  lemma {:induction false} SameRowsGood(s: State, t: State)
    requires Inv(t) && t.snapshots == s.snapshots && t.nextId == s.nextId && t.runtimeVersion == s.runtimeVersion
    ensures Good(s, t)
  {
  }

  lemma {:induction false} SetCurrentGood(s: State, t: State, id: nat)
    requires Inv(s) && s.live && Extends(s, t)
    ensures Good(s, Commit(s, SetCurrent(t, id)))
  {
    if SetCurrent(t, id).Done? {
      SetCurrentKeeps(s, t, id);
      SetCurrentAdvances(s, t, id);
      SetCurrentGuards(s, t, id);
    } else {
      SameRowsGood(s, s);
    }
  }

  lemma {:induction false} TakeGood(s: State, draft: Content)
    requires Inv(s)
    ensures Good(s, Commit(s, CreateSnapshot(s, draft)))
  {
    SameRowsGood(s, s);
    if s.live {
      InsertExtends(s, draft);
      SetCurrentGood(s, Insert(s, draft), s.nextId);
    }
  }

  lemma {:induction false} LoadGood(s: State, id: nat, draft: Content)
    requires Inv(s)
    ensures Good(s, Commit(s, LoadSnapshot(s, id, draft)))
  {
    SameRowsGood(s, s);
    if s.live {
      AutoSaveExtends(s, draft);
      SetCurrentGood(s, AutoSave(s, draft), id);
    }
  }

  lemma {:induction false} DeleteGood(s: State, id: nat)
    requires Inv(s)
    ensures Good(s, Commit(s, DeleteSnapshot(s, id)))
  {
    DeleteGuards(s, id);
    if DeleteSnapshot(s, id).Done? {
      DeleteSnapshotKeeps(s, id);
      DeleteSnapshotAdvances(s, id);
    } else {
      SameRowsGood(s, s);
    }
  }

  lemma {:induction false} PublishGood(s: State, id: nat, expectedVersion: uint32)
    requires Inv(s)
    ensures Good(s, Commit(s, Publish(s, id, expectedVersion)))
  {
    PublishGuards(s, id, expectedVersion);
    if Publish(s, id, expectedVersion).Done? {
      PublishKeeps(s, id, expectedVersion);
    } else {
      SameRowsGood(s, s);
    }
  }

  lemma {:induction false} UnpublishGood(s: State, id: nat, expectedVersion: uint32)
    requires Inv(s)
    ensures Good(s, Commit(s, Unpublish(s, id, expectedVersion)))
  {
    UnpublishGuards(s, id, expectedVersion);
    if Unpublish(s, id, expectedVersion).Done? {
      UnpublishKeeps(s, id, expectedVersion);
    } else {
      SameRowsGood(s, s);
    }
  }

  lemma {:induction false} ConfigGood(s: State, version: int)
    requires Inv(s)
    ensures Good(s, Commit(s, CreateConfig(s))) && Good(s, Commit(s, DeleteConfig(s)))
    ensures Good(s, s.(cache := s.cache - {version}))
  {
    SameRowsGood(s, Commit(s, CreateConfig(s)));
    SameRowsGood(s, Commit(s, DeleteConfig(s)));
    SameRowsGood(s, s.(cache := s.cache - {version}));
  }

  lemma {:induction false} StepGood(s: State, e: Event)
    requires Inv(s)
    ensures Good(s, Step(s, e))
  {
    match e
    case ConfigCreated => ConfigGood(s, 0);
    case ConfigDeleted => ConfigGood(s, 0);
    case SnapshotCreated(draft) => TakeGood(s, draft);
    case SnapshotLoaded(id, draft) => LoadGood(s, id, draft);
    case SnapshotDeleted(id) => DeleteGood(s, id);
    case SnapshotPublished(id, expectedVersion) => PublishGood(s, id, expectedVersion);
    case SnapshotUnpublished(id, expectedVersion) => UnpublishGood(s, id, expectedVersion);
    case ConfigRead =>
      ReadKeeps(s);
      SameRowsGood(s, AfterRead(s));
    case CacheLost(version) => ConfigGood(s, version);
  }

  lemma {:induction false} GoodTransitive(s: State, t: State, u: State)
    requires Inv(s) && Good(s, t) && Good(t, u)
    ensures Good(s, u)
  {
    forall k | k in s.snapshots && k in u.snapshots
      ensures s.snapshots[k].version <= u.snapshots[k].version
      ensures s.snapshots[k].version == u.snapshots[k].version ==> s.snapshots[k] == u.snapshots[k]
    {
      assert k < t.nextId && k in t.snapshots;
    }
  }

  /** From any state that satisfies the invariant, every run does what every step does. */
  lemma {:induction false} RunGood(s: State, events: seq<Event>)
    requires Inv(s)
    ensures Good(s, Run(s, events))
    decreases events
  {
    if events == [] {
      SameRowsGood(s, s);
    } else {
      StepGood(s, events[0]);
      RunGood(Step(s, events[0]), events[1..]);
      GoodTransitive(s, Step(s, events[0]), Run(s, events));
    }
  }

  // ---- What holds over every run ----

  /** Whatever happened before, including lost or stale cache entries, a reader gets what is published now. */
  lemma {:induction false} EveryReadIsCurrent(events: seq<Event>)
    ensures var s := Run(INITIAL, events); Read(s) == ServedFromDatabase(s)
  {
    RunGood(INITIAL, events);
    CacheIsTransparent(Run(INITIAL, events));
  }

  /** Restoring a deleted configuration resets its version, but only one that was never published and never cached. */
  lemma {:induction false} RestoreIsPristine(events: seq<Event>)
    requires CreateConfig(Run(INITIAL, events)).Done?
    ensures var s := Run(INITIAL, events); s.runtimeVersion == 0 && s.cache == map[] && s.snapshots == map[]
  {
    RunGood(INITIAL, events);
  }

  lemma {:induction false} ServedIsReleased(s: State)
    requires Inv(s) && Read(s).Done?
    ensures IsReleased(s, Read(s).value.value) && Read(s).value.version == s.runtimeVersion
    ensures forall value :: IsReleased(s, value) ==> value == Read(s).value.value
  {
    CacheIsTransparent(s);
    var id :| IsLatestRelease(s, id);
    LatestIsTheRelease(s, id);
  }

  /** Readers see versions in order, and two readers who see the same version see the same value. */
  lemma {:induction false} VersionIdentifiesValue(before: seq<Event>, between: seq<Event>)
    requires Read(Run(INITIAL, before)).Done? && Read(Run(Run(INITIAL, before), between)).Done?
    ensures var first, second := Read(Run(INITIAL, before)).value, Read(Run(Run(INITIAL, before), between)).value;
            first.version <= second.version && (first.version == second.version ==> first.value == second.value)
  {
    RunGood(INITIAL, before);
    var s := Run(INITIAL, before);
    RunGood(s, between);
    ServedIsReleased(s);
    ServedIsReleased(Run(s, between));
  }

  /** Publishing with the version a caller saw acts on exactly the snapshot the caller saw, whatever happened since. */
  lemma {:induction false} PublishActsOnWhatWasSeen(before: seq<Event>, between: seq<Event>, id: nat, seen: uint32)
    requires var s := Run(INITIAL, before); id in s.snapshots && s.snapshots[id].version == seen
    requires Publish(Run(Run(INITIAL, before), between), id, seen).Done?
    ensures Run(Run(INITIAL, before), between).snapshots[id] == Run(INITIAL, before).snapshots[id]
  {
    RunGood(INITIAL, before);
    RunGood(Run(INITIAL, before), between);
  }

  // ---- The effect of publishing ----

  /** Publishing makes the target the one thing served, under the next version; the conflict over two never arises. */
  lemma {:induction false} PublishServesTarget(s: State, id: nat, expectedVersion: uint32)
    requires Inv(s)
    ensures |ReleasedIds(s)| <= 1
    ensures Publish(s, id, expectedVersion).Done?
       <==> && id in s.snapshots && s.snapshots[id].status.Unreleased? && s.snapshots[id].version == expectedVersion
            && s.snapshots[id].content.valid && s.runtimeVersion < MAX_INT64
            && (forall k :: k in ReleasedIds(s) ==> s.snapshots[k].version < MAX_INT64)
    ensures Publish(s, id, expectedVersion).Done? ==>
              var t := Publish(s, id, expectedVersion).value;
              && ReleasedIds(t) == {id}
              && Read(t) == Done(Served(s.snapshots[id].content.value, s.runtimeVersion + 1))
  {
    AtMostOne(s);
    if Publish(s, id, expectedVersion).Done? {
      PublishKeeps(s, id, expectedVersion);
      var t := Publish(s, id, expectedVersion).value;
      CacheIsTransparent(t);
      LatestIsTheRelease(t, id);
    }
  }

  lemma {:induction false} AtMostOne(s: State)
    requires Inv(s)
    ensures |ReleasedIds(s)| <= 1
  {
    var ids := ReleasedIds(s);
    if ids != {} {
      var k :| k in ids;
      assert ids == {k};
    }
  }

  /** Unpublishing succeeds exactly for the released snapshot at the version seen, and leaves nothing to serve. */
  lemma {:induction false} UnpublishServesNothing(s: State, id: nat, expectedVersion: uint32)
    requires Inv(s)
    ensures Unpublish(s, id, expectedVersion).Done?
       <==> && id in s.snapshots && s.snapshots[id].status.Released? && s.snapshots[id].version == expectedVersion
            && s.runtimeVersion < MAX_INT64
    ensures Unpublish(s, id, expectedVersion).Done? ==>
              var t := Unpublish(s, id, expectedVersion).value; ReleasedIds(t) == {} && Read(t) == Failed(Missing)
  {
    AtMostOne(s);
    if Unpublish(s, id, expectedVersion).Done? {
      UnpublishKeeps(s, id, expectedVersion);
      var t := Unpublish(s, id, expectedVersion).value;
      CacheIsTransparent(t);
      assert ReleasedIds(t) == {};
      assert forall k :: !IsLatestRelease(t, k);
    }
  }

  // ---- The effect of taking and loading snapshots ----

  ghost predicate IsCurrent(s: State, id: nat) {
    id in s.snapshots && forall k :: k in s.snapshots ==> (s.snapshots[k].isUsing <==> k == id)
  }

  lemma {:induction false} SetCurrentIsCurrent(t: State, id: nat)
    requires SetCurrent(t, id).Done?
    ensures var u := SetCurrent(t, id).value;
            && IsCurrent(u, id) && u.snapshots.Keys == t.snapshots.Keys
            && forall k :: k in t.snapshots ==> u.snapshots[k].content == t.snapshots[k].content
  {
  }

  ghost predicate Holds(s: State, text: Bytes) {
    exists k :: k in s.snapshots && s.snapshots[k].content.text == text
  }

  /** Loading makes the target current, unchanged, and no draft is lost: some snapshot holds it. */
  lemma {:induction false} LoadKeepsDraft(s: State, id: nat, draft: Content)
    requires Inv(s) && LoadSnapshot(s, id, draft).Done?
    ensures var t := LoadSnapshot(s, id, draft).value;
            IsCurrent(t, id) && t.snapshots[id].content == s.snapshots[id].content && Holds(t, draft.text)
  {
    var saved := AutoSave(s, draft);
    SetCurrentIsCurrent(saved, id);
    AutoSaveHolds(s, draft);
    var k :| k in saved.snapshots && saved.snapshots[k].content.text == draft.text;
    assert LoadSnapshot(s, id, draft).value.snapshots[k].content.text == draft.text;
  }

  lemma {:induction false} AutoSaveHolds(s: State, draft: Content)
    requires Inv(s)
    ensures Holds(AutoSave(s, draft), draft.text)
    ensures forall k :: k in s.snapshots ==>
              k in AutoSave(s, draft).snapshots && AutoSave(s, draft).snapshots[k] == s.snapshots[k]
  {
    var t := AutoSave(s, draft);
    if t != s {
      assert t.snapshots[s.nextId].content == draft;
    }
  }

  // ---- What editing leaves alone ----

  predicate IsEdit(e: Event) {
    e.SnapshotCreated? || e.SnapshotLoaded? || e.SnapshotDeleted?
  }

  lemma {:induction false} EditKeepsVersion(s: State, e: Event)
    requires Inv(s) && IsEdit(e)
    ensures Step(s, e).runtimeVersion == s.runtimeVersion && Step(s, e).live == s.live
  {
  }

  lemma {:induction false} ReleaseDecidesRead(s: State, t: State)
    requires Inv(s) && Inv(t) && s.live == t.live && s.runtimeVersion == t.runtimeVersion
    requires forall value :: IsReleased(s, value) <==> IsReleased(t, value)
    ensures Read(s) == Read(t)
  {
    ReadIsRelease(s);
    ReadIsRelease(t);
  }

  lemma {:induction false} ReadIsRelease(s: State)
    requires Inv(s)
    ensures Read(s) == Failed(Missing)
         || exists value :: IsReleased(s, value) && Read(s) == Done(Served(value, s.runtimeVersion))
    ensures forall value :: s.live && IsReleased(s, value) ==> Read(s) == Done(Served(value, s.runtimeVersion))
  {
    CacheIsTransparent(s);
    forall value | s.live && IsReleased(s, value)
      ensures Read(s) == Done(Served(value, s.runtimeVersion))
    {
      var k :| k in s.snapshots && s.snapshots[k].status.Released? && s.snapshots[k].content.value == value;
      LatestIsTheRelease(s, k);
    }
    if Read(s) != Failed(Missing) {
      var id :| IsLatestRelease(s, id);
      assert IsReleased(s, s.snapshots[id].content.value);
    }
  }

  /** Taking, loading or deleting snapshots is invisible to readers, at any number of steps. */
  lemma {:induction false} EditingIsInvisible(s: State, edits: seq<Event>)
    requires Inv(s) && forall i :: 0 <= i < |edits| ==> IsEdit(edits[i])
    ensures Read(Run(s, edits)) == Read(s)
    decreases edits
  {
    if edits != [] {
      var t := Step(s, edits[0]);
      StepGood(s, edits[0]);
      EditKeepsVersion(s, edits[0]);
      ReleaseDecidesRead(s, t);
      EditingIsInvisible(t, edits[1..]);
    }
  }

  /** Unless its version is exhausted, a snapshot can be deleted exactly when it is neither current nor released. */
  lemma {:induction false} DeletableIffUnused(s: State, id: nat)
    requires Inv(s)
    ensures DeleteSnapshot(s, id).Done?
       <==> && id in s.snapshots && !IsCurrent(s, id) && ReleasedIds(s) != {id}
            && s.snapshots[id].version < MAX_INT64
    ensures DeleteSnapshot(s, id).Done? ==>
              var t := DeleteSnapshot(s, id).value;
              t.snapshots.Keys == s.snapshots.Keys - {id}
              && forall k :: k in t.snapshots ==> t.snapshots[k] == s.snapshots[k]
  {
    if id in s.snapshots && s.snapshots[id].status.Released? {
      assert ReleasedIds(s) == {id};
    }
    if id in s.snapshots && s.snapshots[id].isUsing {
      assert IsCurrent(s, id);
    }
    assert id in {id};
  }

  // ---- Cache keys of different configurations ----

  /** `contentCacheKey`. */
  function CacheKey(projectId: nat, configKey: string, version: nat): (key: string) {
    "runtime:config:" + (Format(projectId) + (":" + (configKey + (":" + Format(version)))))
  }

  lemma {:induction false} SplitAtColon(a: string, s: string, b: string, t: string)
    requires ':' !in a && ':' !in b && a + (":" + s) == b + (":" + t)
    ensures a == b && s == t
  {
    var text := a + (":" + s);
    assert text[|a|] == ':' && text[|b|] == ':';
    assert forall i :: 0 <= i < |a| ==> text[i] == a[i] && a[i] in a;
    assert forall i :: 0 <= i < |b| ==> text[i] == b[i] && b[i] in b;
    assert |a| == |b|;
    assert a == text[..|a|] == b;
    assert s == text[|a| + 1..] == t;
  }

  /** Different configurations or versions never share a cache entry, since keys are alphanumeric. */
  lemma {:induction false} CacheKeyInjective(p: nat, k: string, v: nat, q: nat, l: string, w: nat)
    requires ':' !in k && ':' !in l && CacheKey(p, k, v) == CacheKey(q, l, w)
    ensures p == q && k == l && v == w
  {
    var s, t := ":" + (k + (":" + Format(v))), ":" + (l + (":" + Format(w)));
    var prefix := "runtime:config:";
    assert CacheKey(p, k, v)[|prefix|..] == Format(p) + s;
    assert CacheKey(q, l, w)[|prefix|..] == Format(q) + t;
    FormatPrefixUnique(p, q, s, t);
    assert s[1..] == k + (":" + Format(v)) && t[1..] == l + (":" + Format(w));
    SplitAtColon(k, Format(v), l, Format(w));
    ParseFormat(v);
    ParseFormat(w);
  }
}

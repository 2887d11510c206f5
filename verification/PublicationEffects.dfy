/** When each operation of the publication model succeeds, and the whole of what it changes. */
module PublicationEffects {
  import opened Foundation
  import opened Publication
  import Decimal

  // ---- Configurations ----

  /** A configuration that was never published can come and go without a trace. */
  lemma {:induction false} ConfigComesAndGoes(s: State)
    requires Inv(s)
    ensures CreateConfig(s).Done? <==> !s.live
    ensures !s.live ==> CreateConfig(s).value.live && DeleteConfig(CreateConfig(s).value) == Done(s)
    ensures DeleteConfig(s).Done? <==> s.live && forall k :: k !in s.snapshots
    ensures DeleteConfig(s).Done? ==> !DeleteConfig(s).value.live && CreateConfig(DeleteConfig(s).value) == Done(s)
  {
    if s.snapshots != map[] {
      var k :| k in s.snapshots;
    }
  }

  // ---- Marking a snapshot current ----

  /** A row that is written has room for one more version. */
  ghost predicate HasRoom(s: State, k: nat) {
    k in s.snapshots && s.snapshots[k].version < MAX_INT64
  }

  /** The row as it is after another, or itself, has been marked current. */
  ghost predicate Marked(before: Snapshot, after: Snapshot, chosen: bool) {
    && after.status == before.status && after.content == before.content && after.isUsing == chosen
    && after.version == before.version + (if chosen || before.isUsing then 1 else 0)
  }

  lemma {:induction false} SetCurrentEffect(t: State, id: nat)
    ensures SetCurrent(t, id).Done?
       <==> HasRoom(t, id) && forall k :: k in t.snapshots && t.snapshots[k].isUsing ==> HasRoom(t, k)
    ensures SetCurrent(t, id).Done? ==>
              var u := SetCurrent(t, id).value;
              && u == State(t.live, t.runtimeVersion, u.snapshots, t.nextId, t.cache)
              && u.snapshots.Keys == t.snapshots.Keys
              && forall k :: k in t.snapshots ==> Marked(t.snapshots[k], u.snapshots[k], k == id)
  {
    if id in t.snapshots {
      assert Touched(t, id, id);
    }
  }

  // ---- Taking a snapshot ----

  /** The state apart from the snapshots is the same. */
  ghost predicate SameOutside(s: State, t: State) {
    t.live == s.live && t.runtimeVersion == s.runtimeVersion && t.cache == s.cache
  }

  /** It succeeds exactly for a valid draft of a live configuration; the new row holds the draft and is current. */
  lemma {:induction false} TakeEffect(s: State, draft: Content)
    requires Inv(s)
    ensures CreateSnapshot(s, draft).Done?
       <==> && s.live && draft.valid
            && forall k :: k in s.snapshots && s.snapshots[k].isUsing ==> s.snapshots[k].version < MAX_INT64
    ensures CreateSnapshot(s, draft).Done? ==>
              var t := CreateSnapshot(s, draft).value;
              && SameOutside(s, t) && t.nextId == s.nextId + 1 && t.snapshots.Keys == s.snapshots.Keys + {s.nextId}
              && t.snapshots[s.nextId] == Snapshot(Unreleased, 2, true, draft)
              && forall k :: k in s.snapshots ==> Marked(s.snapshots[k], t.snapshots[k], false)
  {
    var saved := Insert(s, draft);
    assert s.nextId !in s.snapshots;
    SetCurrentEffect(saved, s.nextId);
    assert saved.snapshots[s.nextId] == Snapshot(Unreleased, 1, false, draft);
    assert forall k :: k in s.snapshots ==> k != s.nextId && saved.snapshots[k] == s.snapshots[k];
  }

  lemma {:induction false} TakenCanBePublished(s: State, draft: Content) returns (t: State)
    requires Inv(s) && s.live && draft.valid && s.runtimeVersion < MAX_INT64 - 1
    requires forall k :: k in s.snapshots ==> s.snapshots[k].version < MAX_INT64 - 1
    ensures CreateSnapshot(s, draft) == Done(t) && Inv(t) && t.runtimeVersion == s.runtimeVersion
    ensures Publish(t, s.nextId, 2).Done? && t.snapshots[s.nextId].content == draft
  {
    TakeEffect(s, draft);
    StepGood(s, SnapshotCreated(draft));
    t := CreateSnapshot(s, draft).value;
    PublishServesTarget(t, s.nextId, 2);
  }

  lemma {:induction false} PublishedIsServed(s: State, id: nat, version: uint32) returns (t: State)
    requires Inv(s) && Publish(s, id, version).Done? && version < 0xFFFF_FFFF && s.runtimeVersion < MAX_INT64 - 1
    ensures Publish(s, id, version) == Done(t) && Unpublish(t, id, version + 1).Done?
    ensures Read(t) == Done(Served(s.snapshots[id].content.value, s.runtimeVersion + 1))
    ensures Read(Unpublish(t, id, version + 1).value) == Failed(Missing)
  {
    PublishServesTarget(s, id, version);
    PublishEffect(s, id, version);
    PublishKeeps(s, id, version);
    t := Publish(s, id, version).value;
    UnpublishServesNothing(t, id, version + 1);
  }

  /** Take, publish, read: what readers get is the draft. Retire it again, and they get nothing. */
  lemma {:induction false} DraftReachesReaders(s: State, draft: Content) returns (a: State, b: State, c: State)
    requires Inv(s) && s.live && draft.valid && s.runtimeVersion < MAX_INT64 - 1
    requires forall k :: k in s.snapshots ==> s.snapshots[k].version < MAX_INT64 - 1
    ensures CreateSnapshot(s, draft) == Done(a)
    ensures Publish(a, s.nextId, 2) == Done(b) && Read(b) == Done(Served(draft.value, s.runtimeVersion + 1))
    ensures Unpublish(b, s.nextId, 3) == Done(c) && Read(c) == Failed(Missing)
  {
    a := TakenCanBePublished(s, draft);
    b := PublishedIsServed(a, s.nextId, 2);
    c := Unpublish(b, s.nextId, 3).value;
  }

  /** An event of a run performs its operation. */
  lemma {:induction false} EventsPerform(s: State, id: nat, draft: Content, version: uint32)
    ensures CreateSnapshot(s, draft).Done? ==> Step(s, SnapshotCreated(draft)) == CreateSnapshot(s, draft).value
    ensures LoadSnapshot(s, id, draft).Done? ==> Step(s, SnapshotLoaded(id, draft)) == LoadSnapshot(s, id, draft).value
    ensures DeleteSnapshot(s, id).Done? ==> Step(s, SnapshotDeleted(id)) == DeleteSnapshot(s, id).value
    ensures Publish(s, id, version).Done? ==> Step(s, SnapshotPublished(id, version)) == Publish(s, id, version).value
    ensures Unpublish(s, id, version).Done? ==>
              Step(s, SnapshotUnpublished(id, version)) == Unpublish(s, id, version).value
    ensures CreateConfig(s).Done? ==> Step(s, ConfigCreated) == CreateConfig(s).value
    ensures DeleteConfig(s).Done? ==> Step(s, ConfigDeleted) == DeleteConfig(s).value
  {
  }

  // ---- Loading a snapshot ----

  /** Whether the current snapshot already has the text of the draft. */
  ghost predicate AlreadySaved(s: State, draft: Content) {
    exists k :: k in s.snapshots && s.snapshots[k].isUsing && s.snapshots[k].content.text == draft.text
  }

  /** Unless it is saved already, the whole draft is stored in a row of its own before the target becomes current. */
  lemma {:induction false} LoadEffect(s: State, id: nat, draft: Content)
    requires Inv(s)
    ensures LoadSnapshot(s, id, draft).Done?
       <==> && id in s.snapshots && draft.valid && s.snapshots[id].content.valid
            && forall k :: k in s.snapshots && (k == id || s.snapshots[k].isUsing) ==>
                 s.snapshots[k].version < MAX_INT64
    ensures LoadSnapshot(s, id, draft).Done? ==>
              var t := LoadSnapshot(s, id, draft).value;
              && SameOutside(s, t)
              && (forall k :: k in s.snapshots ==> k in t.snapshots && Marked(s.snapshots[k], t.snapshots[k], k == id))
              && if AlreadySaved(s, draft) then t.nextId == s.nextId && t.snapshots.Keys == s.snapshots.Keys
                 else && t.nextId == s.nextId + 1 && t.snapshots.Keys == s.snapshots.Keys + {s.nextId}
                      && t.snapshots[s.nextId] == Snapshot(Unreleased, 1, false, draft)
  {
    var saved := AutoSave(s, draft);
    AutoSaveEffect(s, draft);
    SetCurrentEffect(saved, id);
    assert forall k :: k in s.snapshots ==> saved.snapshots[k] == s.snapshots[k];
    assert forall k :: k in saved.snapshots && saved.snapshots[k].isUsing ==> k in s.snapshots;
  }

  lemma {:induction false} AutoSaveEffect(s: State, draft: Content)
    requires Inv(s)
    ensures var t := AutoSave(s, draft);
            if AlreadySaved(s, draft) then t == s
            else t == State(s.live, s.runtimeVersion, s.snapshots[s.nextId := Snapshot(Unreleased, 1, false, draft)],
                            s.nextId + 1, s.cache)
    ensures s.nextId !in s.snapshots
  {
  }

  // ---- Publishing ----

  /** The row as it is after its status was set. */
  ghost predicate Republished(before: Snapshot, after: Snapshot, status: Status) {
    && after.status == status && after.content == before.content && after.isUsing == before.isUsing
    && after.version == before.version + 1
  }

  /** Publishing writes the target and the snapshot it retires, and nothing else. */
  lemma {:induction false} PublishEffect(s: State, id: nat, expectedVersion: uint32)
    requires Publish(s, id, expectedVersion).Done?
    ensures var t := Publish(s, id, expectedVersion).value;
            && t == State(s.live, s.runtimeVersion + 1, t.snapshots, s.nextId, s.cache)
            && t.snapshots.Keys == s.snapshots.Keys
            && Republished(s.snapshots[id], t.snapshots[id], Released)
            && forall k :: k in s.snapshots && k != id ==>
                 if s.snapshots[k].status.Released? then Republished(s.snapshots[k], t.snapshots[k], Unreleased)
                 else t.snapshots[k] == s.snapshots[k]
  {
  }

  lemma {:induction false} UnpublishEffect(s: State, id: nat, expectedVersion: uint32)
    requires Unpublish(s, id, expectedVersion).Done?
    ensures var t := Unpublish(s, id, expectedVersion).value;
            && t == State(s.live, s.runtimeVersion + 1, t.snapshots, s.nextId, s.cache)
            && t.snapshots.Keys == s.snapshots.Keys
            && Republished(s.snapshots[id], t.snapshots[id], Unreleased)
            && forall k :: k in s.snapshots && k != id ==> t.snapshots[k] == s.snapshots[k]
  {
  }

  /** Why publishing fails: no such snapshot, something else is in the way, or, last of all, its content is invalid. */
  lemma {:induction false} PublishFailures(s: State, id: nat, expectedVersion: uint32)
    requires Inv(s)
    ensures Publish(s, id, expectedVersion) == Failed(Missing) <==> id !in s.snapshots
    ensures Publish(s, id, expectedVersion) == Failed(InvalidContent)
       <==> && id in s.snapshots && s.snapshots[id].status.Unreleased? && s.snapshots[id].version == expectedVersion
            && s.runtimeVersion < MAX_INT64 && !s.snapshots[id].content.valid
    ensures Unpublish(s, id, expectedVersion) == Failed(Missing) <==> id !in s.snapshots
    ensures Unpublish(s, id, expectedVersion) != Failed(InvalidContent)
  {
    PublishServesTarget(s, id, expectedVersion);
    MissingOnlyIfAbsent(s, id);
  }

  lemma {:induction false} MissingOnlyIfAbsent(s: State, id: nat)
    requires Inv(s)
    ensures id in s.snapshots ==> s.live
    ensures |ReleasedIds(s)| <= 1
  {
    AtMostOne(s);
  }

  // ---- Reading ----

  /** A read that finds something leaves it in the cache under the current version, and changes nothing else. */
  lemma {:induction false} ReadEffect(s: State)
    requires Inv(s)
    ensures AfterRead(s) == State(s.live, s.runtimeVersion, s.snapshots, s.nextId, AfterRead(s).cache)
    ensures Read(s).Failed? ==> AfterRead(s) == s
    ensures Read(s).Done? ==> AfterRead(s).cache == s.cache[s.runtimeVersion := Read(s).value.value]
  {
    CacheIsTransparent(s);
    if Read(s).Done? {
      ServedIsReleased(s);
    }
  }

  lemma {:induction false} CacheKeyText()
    ensures CacheKey(7, "theme", 12) == "runtime:config:7:theme:12"
  {
    assert Decimal.Format(12) == "12";
  }
}

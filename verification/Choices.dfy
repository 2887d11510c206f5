/** `FilterStructureChoices`: which structures a structure under edit may refer to without closing a cycle. */
module Choices {
  import opened Foundation
  import opened Messages
  import opened Graphs
  import opened Schemas
  import opened KeySets

  function ItemKeys(items: seq<Structure>): (keys: set<Bytes>) {
    set i | 0 <= i < |items| :: items[i].key
  }

  /** The keys the fields of the items with this key read as structure keys; other kinds of field read as empty. */
  function ReadsFrom(items: seq<Structure>, key: Bytes): (keys: set<Bytes>) {
    set i, j | 0 <= i < |items| && 0 <= j < |items[i].fields| && items[i].key == key :: Reference(items[i].fields[j])
  }

  function ItemGraph(items: seq<Structure>): (g: Graph) {
    map k | k in ItemKeys(items) :: ReadsFrom(items, k)
  }

  predicate Refers(item: Structure, keys: set<Bytes>) {
    exists j :: 0 <= j < |item.fields| && Reference(item.fields[j]) in keys
  }

  lemma {:induction false} ReferenceIsEdge(items: seq<Structure>, i: nat, keys: set<Bytes>) returns (b: Bytes)
    requires i < |items| && Refers(items[i], keys)
    ensures b in keys && Edge(ItemGraph(items), items[i].key, b)
  {
    var j :| 0 <= j < |items[i].fields| && Reference(items[i].fields[j]) in keys;
    b := Reference(items[i].fields[j]);
  }

  lemma {:induction false} EdgeIsReference(items: seq<Structure>, a: Bytes, b: Bytes) returns (i: nat)
    requires Edge(ItemGraph(items), a, b)
    ensures i < |items| && items[i].key == a && Refers(items[i], {b})
  {
    var i', j :| 0 <= i' < |items| && 0 <= j < |items[i'].fields| && items[i'].key == a
                 && Reference(items[i'].fields[j]) == b;
    i := i';
  }

  /** Everything rejected can reach the target. */
  ghost predicate Justified(items: seq<Structure>, rejected: set<Bytes>, target: Bytes) {
    forall k :: k in rejected ==> Reaches(ItemGraph(items), k, target)
  }

  /** Nothing outside refers inside. */
  predicate ClosedUnder(items: seq<Structure>, rejected: set<Bytes>) {
    forall i :: 0 <= i < |items| && Refers(items[i], rejected) ==> items[i].key in rejected
  }

  lemma {:induction false} JustifyOne(items: seq<Structure>, i: nat, rejected: set<Bytes>, target: Bytes)
    requires i < |items| && Refers(items[i], rejected) && Justified(items, rejected, target)
    ensures Justified(items, rejected + {items[i].key}, target)
  {
    var b := ReferenceIsEdge(items, i, rejected);
    var g := ItemGraph(items);
    var p :| IsWalkFrom(g, p, b, target);
    var longer := [items[i].key] + p;
    forall k | 0 <= k < |longer| - 1
      ensures Edge(g, longer[k], longer[k + 1])
    {
      if k > 0 {
        assert Edge(g, p[k - 1], p[k]);
      }
    }
    assert IsWalkFrom(g, longer, items[i].key, target);
  }

  lemma {:induction false} ClosedContainsWalk(items: seq<Structure>, rejected: set<Bytes>, p: seq<Bytes>)
    requires ClosedUnder(items, rejected) && IsWalk(ItemGraph(items), p) && p[|p| - 1] in rejected
    ensures p[0] in rejected
    decreases |p|
  {
    if |p| > 1 {
      SubWalk(ItemGraph(items), p, 1, |p|);
      ClosedContainsWalk(items, rejected, p[1..|p|]);
      assert Edge(ItemGraph(items), p[0], p[1]);
      var i := EdgeIsReference(items, p[0], p[1]);
      assert Refers(items[i], rejected);
    }
  }

  // ---- Where a typed nil is read ----

  predicate Unreadable(field: Option<Field>) {
    GetStructureKey(GetType(field)).NilDereference?
  }

  /** A field that cannot be read comes before any reference to a rejected structure. */
  predicate MeetsNil(item: Structure, rejected: set<Bytes>) {
    exists j :: 0 <= j < |item.fields| && Unreadable(item.fields[j])
                && forall k :: 0 <= k < j ==> Reference(item.fields[k]) !in rejected
  }

  predicate Unread(item: Structure) {
    exists j :: 0 <= j < |item.fields| && Unreadable(item.fields[j])
  }

  /** What one pass over the first items rejects. */
  function Pass(items: seq<Structure>, n: nat, rejected: set<Bytes>): (r: set<Bytes>)
    requires n <= |items|
    ensures rejected <= r
  {
    if n == 0 then rejected
    else
      var before := Pass(items, n - 1, rejected);
      if Refers(items[n - 1], before) then before + {items[n - 1].key} else before
  }

  /** The structure is still under consideration when its turn comes, and has a field that cannot be read in time. */
  predicate MeetsNilAt(items: seq<Structure>, i: nat, rejected: set<Bytes>) {
    && i < |items| && items[i].key !in Pass(items, i, rejected)
    && MeetsNil(items[i], Pass(items, i, rejected))
  }

  predicate PassMeetsNil(items: seq<Structure>, rejected: set<Bytes>) {
    exists i :: 0 <= i < |items| && MeetsNilAt(items, i, rejected)
  }

  predicate AllRead(items: seq<Structure>, rejected: set<Bytes>) {
    forall i :: 0 <= i < |items| && Unread(items[i]) ==> items[i].key in rejected
  }

  method ReferencesRejected(item: Structure, rejected: KeySet) returns (found: Access<bool>)
    ensures found.NilDereference? <==> MeetsNil(item, rejected.values)
    ensures found.Read? ==> (found.value <==> Refers(item, rejected.values))
  {
    for j := 0 to |item.fields|
      invariant forall k :: 0 <= k < j ==>
                  Reference(item.fields[k]) !in rejected.values && !Unreadable(item.fields[k])
    {
      var key := GetStructureKey(GetType(item.fields[j]));
      if key.NilDereference? {
        return NilDereference;
      }
      if rejected.Contains(key.value) {
        assert Reference(item.fields[j]) == key.value;
        return Read(true);
      }
    }
    return Read(false);
  }

  /** One pass. It stops at a typed nil exactly if it meets one, and otherwise says whether it added anything. */
  method RejectDependents(items: seq<Structure>, rejected: KeySet) returns (changed: Access<bool>)
    modifies rejected
    ensures changed.NilDereference? <==> PassMeetsNil(items, old(rejected.values))
    ensures changed.Read? ==>
              && rejected.values == Pass(items, |items|, old(rejected.values))
              && (changed.value <==> rejected.values != old(rejected.values))
  {
    ghost var start := rejected.values;
    var progress := false;
    for i := 0 to |items|
      invariant rejected.values == Pass(items, i, start)
      invariant forall j :: 0 <= j < i ==> !MeetsNilAt(items, j, start)
      invariant progress <==> rejected.values != start
    {
      var item := items[i];
      if !rejected.Contains(item.key) {
        var refers := ReferencesRejected(item, rejected);
        if refers.NilDereference? {
          assert MeetsNilAt(items, i, start);
          return NilDereference;
        }
        if refers.value {
          rejected.Add(item.key);
          progress := true;
        }
      } else {
        assert rejected.values + {item.key} == rejected.values;
      }
    }
    return Read(progress);
  }

  /** A pass adds only keys of items that reach the target. */
  lemma {:induction false} PassJustified(items: seq<Structure>, n: nat, rejected: set<Bytes>, target: Bytes)
    requires n <= |items| && Justified(items, rejected, target)
    ensures Justified(items, Pass(items, n, rejected), target)
    ensures Pass(items, n, rejected) <= rejected + ItemKeys(items)
  {
    if n > 0 {
      PassJustified(items, n - 1, rejected, target);
      if Refers(items[n - 1], Pass(items, n - 1, rejected)) {
        JustifyOne(items, n - 1, Pass(items, n - 1, rejected), target);
      }
    }
  }

  lemma {:induction false} PassGrows(items: seq<Structure>, m: nat, n: nat, rejected: set<Bytes>)
    requires m <= n <= |items|
    ensures Pass(items, m, rejected) <= Pass(items, n, rejected)
  {
    if m < n {
      PassGrows(items, m, n - 1, rejected);
    }
  }

  /** A pass that adds nothing leaves nothing to add. */
  lemma {:induction false} IdlePassIsClosed(items: seq<Structure>, rejected: set<Bytes>)
    requires Pass(items, |items|, rejected) == rejected
    ensures ClosedUnder(items, rejected)
  {
    forall i | 0 <= i < |items| && Refers(items[i], rejected)
      ensures items[i].key in rejected
    {
      PassGrows(items, i, |items|, rejected);
      PassGrows(items, i + 1, |items|, rejected);
      assert Pass(items, i, rejected) == rejected;
    }
  }

  /** After a pass that met no typed nil, what it could not have read is rejected. */
  lemma {:induction false} PassReads(items: seq<Structure>, rejected: set<Bytes>)
    requires !PassMeetsNil(items, rejected)
    ensures AllRead(items, Pass(items, |items|, rejected))
  {
    forall i | 0 <= i < |items| && Unread(items[i])
      ensures items[i].key in Pass(items, |items|, rejected)
    {
      PassGrows(items, i, |items|, rejected);
      PassGrows(items, i + 1, |items|, rejected);
      var before := Pass(items, i, rejected);
      assert !MeetsNilAt(items, i, rejected);
      if items[i].key !in before {
        var j :| 0 <= j < |items[i].fields| && Unreadable(items[i].fields[j]);
        var k :| 0 <= k < j && Reference(items[i].fields[k]) in before;
        assert Refers(items[i], before);
      }
    }
  }

  /** Only the first pass can meet a typed nil: afterwards what could not be read has been rejected. */
  lemma {:induction false} LaterPassesRead(items: seq<Structure>, rejected: set<Bytes>)
    requires AllRead(items, rejected)
    ensures !PassMeetsNil(items, rejected)
  {
  }

  function Without(items: seq<Structure>, keys: set<Bytes>): (kept: seq<Structure>) {
    if items == [] then []
    else
      var last := items[|items| - 1];
      Without(items[..|items| - 1], keys) + (if last.key in keys then [] else [last])
  }

  /** The rejected keys are exactly those from which the edited structure can be reached. */
  ghost predicate RejectsDependents(items: seq<Structure>, rejected: set<Bytes>, target: Bytes) {
    forall k :: k in rejected <==> Reaches(ItemGraph(items), k, target)
  }

  ghost predicate IsFirstWithId(items: seq<Structure>, id: int, at: nat) {
    at < |items| && items[at].id == id && forall i :: 0 <= i < at ==> items[i].id != id
  }

  // ---- What is kept, position by position ----

  /** What is kept are the items at these increasing positions. */
  predicate KeptAt(kept: seq<Structure>, items: seq<Structure>, at: seq<nat>) {
    && |at| == |kept|
    && (forall j :: 0 <= j < |at| ==> at[j] < |items| && kept[j] == items[at[j]])
    && forall i, j :: 0 <= i < j < |at| ==> at[i] < at[j]
  }

  ghost predicate PositionsOutside(items: seq<Structure>, keys: set<Bytes>, at: seq<nat>) {
    forall i: nat :: i in at <==> i < |items| && items[i].key !in keys
  }

  lemma {:induction false} WithoutPositions(items: seq<Structure>, keys: set<Bytes>) returns (at: seq<nat>)
    ensures KeptAt(Without(items, keys), items, at) && PositionsOutside(items, keys, at)
  {
    at := [];
    if items != [] {
      var last := |items| - 1;
      var before := WithoutPositions(items[..last], keys);
      PositionsGrow(items, keys, before);
      at := if items[last].key in keys then before else before + [last];
      KeptGrows(items, Without(items[..last], keys), before);
    }
  }

  lemma {:induction false} PositionsGrow(items: seq<Structure>, keys: set<Bytes>, before: seq<nat>)
    requires items != [] && PositionsOutside(items[..|items| - 1], keys, before)
    ensures var last := |items| - 1;
            PositionsOutside(items, keys, if items[last].key in keys then before else before + [last])
  {
    var last := |items| - 1;
    forall i: nat
      ensures i in before + [last] <==> i in before || i == last
    {
    }
    assert forall i: nat :: i < last ==> items[..last][i] == items[i];
  }

  lemma {:induction false} KeptGrows(items: seq<Structure>, kept: seq<Structure>, before: seq<nat>)
    requires items != [] && KeptAt(kept, items[..|items| - 1], before)
    ensures KeptAt(kept, items, before) && KeptAt(kept + [items[|items| - 1]], items, before + [|items| - 1])
  {
    assert forall j :: 0 <= j < |before| ==> items[..|items| - 1][before[j]] == items[before[j]];
  }

  /** The items kept are, in order, exactly those that do not reach the target. */
  ghost predicate KeepsUnreaching(items: seq<Structure>, kept: seq<Structure>, target: Bytes) {
    exists at ::
      && KeptAt(kept, items, at)
      && forall i: nat :: i in at <==> i < |items| && !Reaches(ItemGraph(items), items[i].key, target)
  }

  lemma {:induction false} WithoutKeepsUnreaching(items: seq<Structure>, rejected: set<Bytes>, target: Bytes)
    requires RejectsDependents(items, rejected, target)
    ensures KeepsUnreaching(items, Without(items, rejected), target)
  {
    var at := WithoutPositions(items, rejected);
  }

  /**
   * Exactly the structures that reach the edited one are left out. Reading fails exactly when the first pass, which
   * starts from the edited structure alone, meets a typed nil.
   */
  method FilterStructureChoices(items: seq<Structure>, ignoreId: int) returns (r: Access<seq<Structure>>)
    ensures ignoreId <= 0 || (forall i :: 0 <= i < |items| ==> items[i].id != ignoreId) ==> r == Read(items)
    ensures forall at: nat :: ignoreId > 0 && IsFirstWithId(items, ignoreId, at) ==>
              (r.NilDereference? <==> PassMeetsNil(items, {items[at].key}))
    ensures forall at: nat :: ignoreId > 0 && IsFirstWithId(items, ignoreId, at) && r.Read? ==>
              exists rejected ::
                RejectsDependents(items, rejected, items[at].key) && r.value == Without(items, rejected)
    ensures forall at: nat :: ignoreId > 0 && IsFirstWithId(items, ignoreId, at) && r.Read? ==>
              KeepsUnreaching(items, r.value, items[at].key)
  {
    if ignoreId <= 0 {
      return Read(items);
    }
    var at := 0;
    while at < |items| && items[at].id != ignoreId
      invariant at <= |items| && forall i :: 0 <= i < at ==> items[i].id != ignoreId
    {
      at := at + 1;
    }
    if at == |items| {
      assert forall other: nat :: !IsFirstWithId(items, ignoreId, other);
      return Read(items);
    }
    assert forall other: nat :: IsFirstWithId(items, ignoreId, other) ==> other == at;
    var target := items[at].key;
    var rejected := RejectAll(items, target);
    if rejected.NilDereference? {
      return NilDereference;
    }
    var result: seq<Structure> := [];
    for i := 0 to |items|
      invariant result == Without(items[..i], rejected.value)
    {
      assert items[..i + 1][..i] == items[..i];
      if items[i].key !in rejected.value {
        result := result + [items[i]];
      }
    }
    assert items[..|items|] == items;
    WithoutKeepsUnreaching(items, rejected.value, target);
    return Read(result);
  }

  /** The passes, from the edited structure alone to the fixed point. */
  method RejectAll(items: seq<Structure>, target: Bytes) returns (r: Access<set<Bytes>>)
    requires target in ItemKeys(items)
    ensures r.NilDereference? <==> PassMeetsNil(items, {target})
    ensures r.Read? ==> RejectsDependents(items, r.value, target)
  {
    var rejected := new KeySet();
    rejected.Add(target);
    assert IsWalkFrom(ItemGraph(items), [target], target, target);
    assert rejected.values == {target};
    var changed := RejectDependents(items, rejected);
    PassJustified(items, |items|, {target}, target);
    if changed.Read? {
      PassReads(items, {target});
    }
    if changed.Read? && !changed.value {
      IdlePassIsClosed(items, rejected.values);
    }
    while changed.Read? && changed.value
      invariant changed.NilDereference? <==> PassMeetsNil(items, {target})
      invariant changed.Read? ==>
                  && AllRead(items, rejected.values) && Justified(items, rejected.values, target)
                  && target in rejected.values && rejected.values <= ItemKeys(items)
      invariant changed.Read? && !changed.value ==> ClosedUnder(items, rejected.values)
      decreases ItemKeys(items) - rejected.values, changed.Read? && changed.value
    {
      ghost var before := rejected.values;
      LaterPassesRead(items, before);
      changed := RejectDependents(items, rejected);
      PassJustified(items, |items|, before, target);
      PassReads(items, before);
      if changed.Read? && !changed.value {
        IdlePassIsClosed(items, before);
      }
    }
    if changed.NilDereference? {
      return NilDereference;
    }
    forall k
      ensures k in rejected.values <==> Reaches(ItemGraph(items), k, target)
    {
      if Reaches(ItemGraph(items), k, target) {
        var p :| IsWalkFrom(ItemGraph(items), p, k, target);
        ClosedContainsWalk(items, rejected.values, p);
      }
    }
    return Read(rejected.values);
  }

  // ---- The choices offered are exactly the safe ones ----

  /** The stored definitions of a schema. */
  ghost predicate Stores(items: seq<Structure>, s: Schema) {
    Resolved(s)
    && (forall i :: 0 <= i < |items| ==> items[i].key in s.structures && s.structures[items[i].key] == items[i])
    && s.structures.Keys == ItemKeys(items)
  }

  lemma {:induction false} SameEdges(items: seq<Structure>, s: Schema, a: Bytes, b: Bytes)
    requires Stores(items, s) && b != []
    ensures Edge(ItemGraph(items), a, b) <==> Edge(References(s), a, b)
  {
    if Edge(ItemGraph(items), a, b) {
      var i := EdgeIsReference(items, a, b);
    }
    if Edge(References(s), a, b) {
      var i :| 0 <= i < |items| && items[i].key == a;
      var j :| 0 <= j < |s.structures[a].fields| && Reference(s.structures[a].fields[j]) == b;
      assert Refers(items[i], {b});
      var c := ReferenceIsEdge(items, i, {b});
    }
  }

  lemma {:induction false} SameReach(items: seq<Structure>, s: Schema, a: Bytes, b: Bytes)
    requires Stores(items, s) && b in s.structures
    ensures Reaches(ItemGraph(items), a, b) <==> Reaches(References(s), a, b)
  {
    var g, h := ItemGraph(items), References(s);
    if Reaches(g, a, b) {
      var p :| IsWalkFrom(g, p, a, b);
      forall i | 0 <= i < |p| - 1
        ensures Edge(h, p[i], p[i + 1])
      {
        assert Edge(g, p[i], p[i + 1]);
        assert i + 1 == |p| - 1 || Edge(g, p[i + 1], p[i + 2]);
        assert p[i + 1] in s.structures;
        SameEdges(items, s, p[i], p[i + 1]);
      }
      assert IsWalkFrom(h, p, a, b);
    }
    if Reaches(h, a, b) {
      var p :| IsWalkFrom(h, p, a, b);
      forall i | 0 <= i < |p| - 1
        ensures Edge(g, p[i], p[i + 1])
      {
        assert Edge(h, p[i], p[i + 1]);
        SameEdges(items, s, p[i], p[i + 1]);
      }
      assert IsWalkFrom(g, p, a, b);
    }
  }

  lemma {:induction false} WithoutMembers(items: seq<Structure>, keys: set<Bytes>, item: Structure)
    ensures item in Without(items, keys) <==> item in items && item.key !in keys
  {
    if items != [] {
      var last := |items| - 1;
      WithoutMembers(items[..last], keys, item);
      assert items == items[..last] + [items[last]];
    }
  }

  /**
   * A stored structure is offered to the structure under edit exactly when referring to it keeps the schema free of
   * cycles, so that `NewSchema` will not refuse the edit for that reason.
   */
  lemma {:induction false} OfferedIffSafe(
      items: seq<Structure>, s: Schema, edited: Structure, rejected: set<Bytes>, choice: Structure)
    requires Stores(items, s) && edited in items && choice in items
    ensures Acyclic(References(s)) && RejectsDependents(items, rejected, edited.key) ==>
              (choice in Without(items, rejected) <==> Acyclic(AddEdge(References(s), edited.key, choice.key)))
  {
    WithoutMembers(items, rejected, choice);
    SameReach(items, s, choice.key, edited.key);
    if Acyclic(References(s)) {
      AddEdgeAcyclic(References(s), edited.key, choice.key);
    }
  }
}

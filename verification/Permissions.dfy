/**
 * `permission.Resolver` against concurrent changes of grants. Writers are transactions; a resolver is a sequence of
 * separate reads (generation, cached or stored keys, generation again) and a cache write, and the steps of any number
 * of writers and resolvers interleave freely.
 */
module Permissions {
  /** A role given to a user in an environment. */
  datatype Link = Link(user: nat, environment: nat, role: nat)

  /** `roles` maps each live role to its permissions; `generations` each environment to its version. */
  datatype Database = Database(links: set<Link>, roles: map<nat, set<nat>>, generations: map<nat, nat>)

  datatype CacheKey = CacheKey(user: nat, environment: nat, generation: nat)

  const MAX_ATTEMPTS := 3

  /** How far a call of `Resolve` has come. `attempt` counts from zero; `keys` is what it is going to answer. */
  datatype Progress =
    | Idle
    | Identified(key: CacheKey, attempt: nat)
    | Loaded(key: CacheKey, keys: set<nat>, fromCache: bool, attempt: nat)
    | TurnedBack(user: nat, environment: nat, attempts: nat)
    | Confirmed(key: CacheKey, keys: set<nat>, fromCache: bool)
    | Returned(key: CacheKey, keys: set<nat>)
    | ConcurrentChange(user: nat, environment: nat)

  datatype System = System(database: Database, cache: map<CacheKey, set<nat>>, calls: map<nat, Progress>)

  const INITIAL := System(Database({}, map[], map[]), map[], map[])

  /** `KeysForUserEnvironment`: the permissions of the live roles the user holds in the environment. */
  function KeysFor(d: Database, user: nat, environment: nat): (keys: set<nat>) {
    set link, p | link in d.links && link.user == user && link.environment == environment
                  && link.role in d.roles && p in d.roles[link.role] :: p
  }

  // ---- Writers ----

  function Bump(generations: map<nat, nat>, environments: set<nat>): (r: map<nat, nat>) {
    map e | e in generations :: if e in environments then generations[e] + 1 else generations[e]
  }

  function LinksOf(d: Database, user: nat, environment: nat): (links: set<Link>) {
    set link | link in d.links && link.user == user && link.environment == environment
  }

  function EnvironmentsOf(d: Database, role: nat): (environments: set<nat>) {
    set link | link in d.links && link.role == role :: link.environment
  }

  /** One member's assignments are replaced and the environment's generation advances. */
  function ReplaceRoles(d: Database, environment: nat, user: nat, roles: set<nat>): (r: Database) {
    if environment !in d.generations || !(roles <= d.roles.Keys) then d
    else d.(links := d.links - LinksOf(d, user, environment) + (set r | r in roles :: Link(user, environment, r)),
            generations := Bump(d.generations, {environment}))
  }

  /** A role's grants are replaced and every environment where it is assigned advances. */
  function UpdatePermissions(d: Database, role: nat, permissions: set<nat>): (r: Database) {
    if role !in d.roles then d
    else d.(roles := d.roles[role := permissions], generations := Bump(d.generations, EnvironmentsOf(d, role)))
  }

  /** Only an unassigned role can be deleted; no generation advances. */
  function DeleteRole(d: Database, role: nat): (r: Database) {
    if role !in d.roles || EnvironmentsOf(d, role) != {} then d else d.(roles := d.roles - {role})
  }

  function CreateRole(d: Database, role: nat): (r: Database) {
    if role in d.roles then d else d.(roles := d.roles[role := {}])
  }

  function CreateEnvironment(d: Database, environment: nat): (r: Database) {
    if environment in d.generations then d else d.(generations := d.generations[environment := 1])
  }

  function UpdateEnvironment(d: Database, environment: nat): (r: Database) {
    d.(generations := Bump(d.generations, {environment}))
  }

  // ---- Steps ----

  datatype Event =
    | RolesReplaced(environment: nat, user: nat, roles: set<nat>)
    | PermissionsUpdated(role: nat, permissions: set<nat>)
    | RoleDeleted(role: nat)
    | RoleCreated(role: nat)
    | EnvironmentCreated(environment: nat)
    | EnvironmentUpdated(environment: nat)
    | CacheLost(key: CacheKey)
    | Identify(call: nat, user: nat, environment: nat)
    | Retry(call: nat)
    | LoadCached(call: nat)
    | LoadStored(call: nat)
    | Confirm(call: nat)
    | Answer(call: nat)

  function Progressed(s: System, call: nat): (p: Progress) {
    if call in s.calls then s.calls[call] else Idle
  }

  /** An attempt reads the environment's version first. */
  function Begin(s: System, call: nat, user: nat, environment: nat, attempt: nat): (t: System) {
    if environment !in s.database.generations then s
    else
      var key := CacheKey(user, environment, s.database.generations[environment]);
      s.(calls := s.calls[call := Identified(key, attempt)])
  }

  /** The version is read again: if it has moved, the attempt is void, and after the last one so is the call. */
  function AfterConfirm(d: Database, p: Progress): (q: Progress)
    requires p.Loaded?
  {
    if p.key.environment in d.generations && d.generations[p.key.environment] == p.key.generation
    then Confirmed(p.key, p.keys, p.fromCache)
    else if p.attempt + 1 < MAX_ATTEMPTS then TurnedBack(p.key.user, p.key.environment, p.attempt + 1)
    else ConcurrentChange(p.key.user, p.key.environment)
  }

  function Step(s: System, e: Event): (t: System) {
    match e
    case RolesReplaced(environment, user, roles) => s.(database := ReplaceRoles(s.database, environment, user, roles))
    case PermissionsUpdated(role, permissions) => s.(database := UpdatePermissions(s.database, role, permissions))
    case RoleDeleted(role) => s.(database := DeleteRole(s.database, role))
    case RoleCreated(role) => s.(database := CreateRole(s.database, role))
    case EnvironmentCreated(environment) => s.(database := CreateEnvironment(s.database, environment))
    case EnvironmentUpdated(environment) => s.(database := UpdateEnvironment(s.database, environment))
    case CacheLost(key) => s.(cache := s.cache - {key})
    case Identify(call, user, environment) => Begin(s, call, user, environment, 0)
    case Retry(call) =>
      var p := Progressed(s, call);
      if p.TurnedBack? then Begin(s, call, p.user, p.environment, p.attempts) else s
    case LoadCached(call) =>
      var p := Progressed(s, call);
      if p.Identified? && p.key in s.cache
      then s.(calls := s.calls[call := Loaded(p.key, s.cache[p.key], true, p.attempt)])
      else s
    case LoadStored(call) =>
      // An unreadable or undecodable cache entry is treated as absent, so this can happen even on a hit.
      var p := Progressed(s, call);
      if p.Identified?
      then
        var keys := KeysFor(s.database, p.key.user, p.key.environment);
        s.(calls := s.calls[call := Loaded(p.key, keys, false, p.attempt)])
      else s
    case Confirm(call) =>
      var p := Progressed(s, call);
      if p.Loaded? then s.(calls := s.calls[call := AfterConfirm(s.database, p)]) else s
    case Answer(call) =>
      var p := Progressed(s, call);
      if !p.Confirmed? then s
      else s.(calls := s.calls[call := Returned(p.key, p.keys)],
              cache := if p.fromCache then s.cache else s.cache[p.key := p.keys])
  }

  function Run(s: System, events: seq<Event>): (t: System)
    decreases events
  {
    if events == [] then s else Run(Step(s, events[0]), events[1..])
  }

  // ---- Every change of keys advances a generation ----

  /** Assigned roles are live, and assignments are in known environments. */
  ghost predicate Linked(d: Database) {
    forall link :: link in d.links ==> link.role in d.roles && link.environment in d.generations
  }

  /** Generations only grow, and a user's keys in an environment change only when its generation does. */
  ghost predicate Guarded(d: Database, r: Database) {
    forall e :: e in d.generations ==>
      && e in r.generations && d.generations[e] <= r.generations[e]
      && (d.generations[e] == r.generations[e] ==> forall user :: KeysFor(r, user, e) == KeysFor(d, user, e))
  }

  lemma {:induction false} ReplaceRolesGuarded(d: Database, environment: nat, user: nat, roles: set<nat>)
    requires Linked(d)
    ensures Linked(ReplaceRoles(d, environment, user, roles)) && Guarded(d, ReplaceRoles(d, environment, user, roles))
  {
    var r := ReplaceRoles(d, environment, user, roles);
    forall e, u | e in d.generations && e != environment
      ensures KeysFor(r, u, e) == KeysFor(d, u, e)
    {
      SameLinks(d, r, u, e);
    }
  }

  /** Keys depend only on the user's links in the environment and the permissions of their roles. */
  lemma {:induction false} SameLinks(d: Database, r: Database, user: nat, environment: nat)
    requires LinksOf(d, user, environment) == LinksOf(r, user, environment)
    requires forall link :: link in LinksOf(d, user, environment) ==>
               (link.role in d.roles <==> link.role in r.roles)
               && (link.role in d.roles ==> d.roles[link.role] == r.roles[link.role])
    ensures KeysFor(d, user, environment) == KeysFor(r, user, environment)
  {
    forall p
      ensures p in KeysFor(d, user, environment) <==> p in KeysFor(r, user, environment)
    {
      if p in KeysFor(d, user, environment) {
        var link :| link in d.links && link.user == user && link.environment == environment
                    && link.role in d.roles && p in d.roles[link.role];
        assert link in LinksOf(r, user, environment);
      }
      if p in KeysFor(r, user, environment) {
        var link :| link in r.links && link.user == user && link.environment == environment
                    && link.role in r.roles && p in r.roles[link.role];
        assert link in LinksOf(d, user, environment);
      }
    }
  }

  lemma {:induction false} UpdatePermissionsGuarded(d: Database, role: nat, permissions: set<nat>)
    requires Linked(d)
    ensures Linked(UpdatePermissions(d, role, permissions)) && Guarded(d, UpdatePermissions(d, role, permissions))
  {
    var r := UpdatePermissions(d, role, permissions);
    forall e, u | e in d.generations && d.generations[e] == r.generations[e]
      ensures KeysFor(r, u, e) == KeysFor(d, u, e)
    {
      if role in d.roles {
        assert e !in EnvironmentsOf(d, role);
        forall link | link in LinksOf(d, u, e)
          ensures link.role != role
        {
          assert link.role == role ==> link.environment in EnvironmentsOf(d, role);
        }
      }
      SameLinks(d, r, u, e);
    }
  }

  lemma {:induction false} RoleListGuarded(d: Database, role: nat)
    requires Linked(d)
    ensures Linked(DeleteRole(d, role)) && Guarded(d, DeleteRole(d, role))
    ensures Linked(CreateRole(d, role)) && Guarded(d, CreateRole(d, role))
  {
    forall link | link in d.links && EnvironmentsOf(d, role) == {}
      ensures link.role != role
    {
      assert link.role == role ==> link.environment in EnvironmentsOf(d, role);
    }
    forall u, e
      ensures KeysFor(DeleteRole(d, role), u, e) == KeysFor(d, u, e) == KeysFor(CreateRole(d, role), u, e)
    {
      SameLinks(d, DeleteRole(d, role), u, e);
      SameLinks(d, CreateRole(d, role), u, e);
    }
  }

  lemma {:induction false} EnvironmentsGuarded(d: Database, environment: nat)
    requires Linked(d)
    ensures Linked(CreateEnvironment(d, environment)) && Guarded(d, CreateEnvironment(d, environment))
    ensures Linked(UpdateEnvironment(d, environment)) && Guarded(d, UpdateEnvironment(d, environment))
  {
    forall u, e
      ensures KeysFor(CreateEnvironment(d, environment), u, e) == KeysFor(d, u, e)
      ensures KeysFor(UpdateEnvironment(d, environment), u, e) == KeysFor(d, u, e)
    {
      SameLinks(d, CreateEnvironment(d, environment), u, e);
      SameLinks(d, UpdateEnvironment(d, environment), u, e);
    }
  }

  // ---- The invariant ----

  /** Keys noted under a generation are the keys in force, for as long as that generation is the current one. */
  ghost predicate Fresh(d: Database, key: CacheKey, keys: set<nat>) {
    && key.environment in d.generations
    && key.generation <= d.generations[key.environment]
    && (key.generation == d.generations[key.environment] ==> keys == KeysFor(d, key.user, key.environment))
  }

  ghost predicate FreshCall(d: Database, p: Progress) {
    match p
    case Idle => true
    case Identified(key, _) => key.environment in d.generations && key.generation <= d.generations[key.environment]
    case Loaded(key, keys, _, _) => Fresh(d, key, keys)
    case TurnedBack(_, _, _) => true
    case ConcurrentChange(_, _) => true
    case Confirmed(key, keys, _) => Fresh(d, key, keys)
    case Returned(_, _) => true
  }

  ghost predicate Inv(s: System) {
    && Linked(s.database)
    && (forall key :: key in s.cache ==> Fresh(s.database, key, s.cache[key]))
    && (forall call :: call in s.calls ==> FreshCall(s.database, s.calls[call]))
  }

  lemma {:induction false} WriterKeeps(s: System, d: Database)
    requires Inv(s) && Linked(d) && Guarded(s.database, d)
    ensures Inv(s.(database := d))
  {
    forall call | call in s.calls
      ensures FreshCall(d, s.calls[call])
    {
      assert FreshCall(s.database, s.calls[call]);
    }
  }

  lemma {:induction false} StepKeeps(s: System, e: Event)
    requires Inv(s)
    ensures Inv(Step(s, e))
  {
    var d := s.database;
    match e
    case RolesReplaced(environment, user, roles) =>
      ReplaceRolesGuarded(d, environment, user, roles);
      WriterKeeps(s, ReplaceRoles(d, environment, user, roles));
    case PermissionsUpdated(role, permissions) =>
      UpdatePermissionsGuarded(d, role, permissions);
      WriterKeeps(s, UpdatePermissions(d, role, permissions));
    case RoleDeleted(role) =>
      RoleListGuarded(d, role);
      WriterKeeps(s, DeleteRole(d, role));
    case RoleCreated(role) =>
      RoleListGuarded(d, role);
      WriterKeeps(s, CreateRole(d, role));
    case EnvironmentCreated(environment) =>
      EnvironmentsGuarded(d, environment);
      WriterKeeps(s, CreateEnvironment(d, environment));
    case EnvironmentUpdated(environment) =>
      EnvironmentsGuarded(d, environment);
      WriterKeeps(s, UpdateEnvironment(d, environment));
    case _ =>
  }

  lemma {:induction false} RunKeeps(s: System, events: seq<Event>)
    requires Inv(s)
    ensures Inv(Run(s, events))
    decreases events
  {
    if events != [] {
      StepKeeps(s, events[0]);
      RunKeeps(Step(s, events[0]), events[1..]);
    }
  }

  lemma {:induction false} RunLast(s: System, events: seq<Event>)
    requires events != []
    ensures Run(s, events) == Step(Run(s, events[..|events| - 1]), events[|events| - 1])
    decreases events
  {
    var last := |events| - 1;
    if last > 0 {
      RunLast(Step(s, events[0]), events[1..]);
      assert events[1..][..last - 1] == events[..last][1..];
    }
  }

  // ---- What a call answers ----

  /** The state after the first `n` events. */
  function After(events: seq<Event>, n: nat): (s: System)
    requires n <= |events|
  {
    Run(INITIAL, events[..n])
  }

  lemma {:induction false} AfterStep(events: seq<Event>, n: nat)
    requires n < |events|
    ensures After(events, n + 1) == Step(After(events, n), events[n])
  {
    RunLast(INITIAL, events[..n + 1]);
    assert events[..n + 1][..n] == events[..n];
  }

  predicate Carries(p: Progress, key: CacheKey, keys: set<nat>) {
    (p.Confirmed? || p.Returned?) && p.key == key && p.keys == keys
  }

  /** The environment is at the version of the key, and the keys are the user's there. */
  predicate InForce(d: Database, key: CacheKey, keys: set<nat>) {
    && key.environment in d.generations && d.generations[key.environment] == key.generation
    && keys == KeysFor(d, key.user, key.environment)
  }

  /** Event `n` confirmed the answer when it was in force, and the call has carried that answer ever since. */
  predicate ConfirmedAt(events: seq<Event>, n: nat, upTo: nat, call: nat, key: CacheKey, keys: set<nat>) {
    && n < upTo <= |events| && events[n] == Confirm(call) && InForce(After(events, n).database, key, keys)
    && forall j :: n < j <= upTo ==> Carries(Progressed(After(events, j), call), key, keys)
  }

  lemma {:induction false} CarriedFrom(events: seq<Event>, n: nat, call: nat, key: CacheKey, keys: set<nat>)
    returns (at: nat)
    requires n <= |events| && Carries(Progressed(After(events, n), call), key, keys)
    ensures ConfirmedAt(events, at, n, call, key, keys)
  {
    if n == 0 {
      assert false;
    } else {
      AfterStep(events, n - 1);
      RunKeeps(INITIAL, events[..n - 1]);
      var s := After(events, n - 1);
      if Carries(Progressed(s, call), key, keys) {
        at := CarriedFrom(events, n - 1, call, key, keys);
      } else {
        StartsCarrying(s, events[n - 1], call, key, keys);
        at := n - 1;
      }
    }
  }

  /** Only a confirmation makes a call carry an answer, and only one that is in force. */
  lemma {:induction false} StartsCarrying(s: System, e: Event, call: nat, key: CacheKey, keys: set<nat>)
    requires Inv(s) && !Carries(Progressed(s, call), key, keys) && Carries(Progressed(Step(s, e), call), key, keys)
    ensures e == Confirm(call) && InForce(s.database, key, keys)
  {
  }

  /** The call is on behalf of this user in this environment. */
  predicate IsFor(p: Progress, user: nat, environment: nat) {
    match p
    case Idle => false
    case TurnedBack(u, e, _) => u == user && e == environment
    case ConcurrentChange(u, e) => u == user && e == environment
    case _ => p.key.user == user && p.key.environment == environment
  }

  /** Event `n` is a request by this call that finds its environment. */
  predicate Requests(events: seq<Event>, n: nat, call: nat) {
    && n < |events| && events[n].Identify? && events[n].call == call
    && events[n].environment in After(events, n).database.generations
  }

  /** Event `n` asked for this user and environment; nothing replaced it, and the call has been for them since. */
  predicate AskedAt(events: seq<Event>, n: nat, upTo: nat, call: nat, user: nat, environment: nat) {
    && n < upTo <= |events| && Requests(events, n, call) && events[n] == Identify(call, user, environment)
    && (forall j :: n < j < upTo ==> !Requests(events, j, call))
    && forall j :: n < j <= upTo ==> IsFor(Progressed(After(events, j), call), user, environment)
  }

  /** Only a request changes whom a call is for. */
  lemma {:induction false} RequestDecides(s: System, e: Event, call: nat, user: nat, environment: nat)
    requires IsFor(Progressed(Step(s, e), call), user, environment)
    ensures if e.Identify? && e.call == call && e.environment in s.database.generations
            then e == Identify(call, user, environment)
            else IsFor(Progressed(s, call), user, environment)
  {
  }

  lemma {:induction false} AskedFrom(events: seq<Event>, n: nat, call: nat, user: nat, environment: nat)
    returns (at: nat)
    requires n <= |events| && IsFor(Progressed(After(events, n), call), user, environment)
    ensures AskedAt(events, at, n, call, user, environment)
  {
    if n == 0 {
      assert false;
    } else {
      AfterStep(events, n - 1);
      RequestDecides(After(events, n - 1), events[n - 1], call, user, environment);
      if Requests(events, n - 1, call) {
        at := n - 1;
      } else {
        at := AskedFrom(events, n - 1, call, user, environment);
      }
    }
  }

  /**
   * However reads, writes and cache losses interleave, the keys a call has answered, or is going to answer, are those
   * of the user and environment it last asked for, and were in force at the moment its second read of the version
   * confirmed the first.
   */
  lemma {:induction false} AnswersWereInForce(events: seq<Event>, call: nat)
    requires var p := Progressed(Run(INITIAL, events), call); p.Confirmed? || p.Returned?
    ensures var p := Progressed(Run(INITIAL, events), call);
            exists asked: nat, n: nat ::
              && AskedAt(events, asked, |events|, call, p.key.user, p.key.environment)
              && asked < n && ConfirmedAt(events, n, |events|, call, p.key, p.keys)
  {
    var p := Progressed(Run(INITIAL, events), call);
    assert events[..|events|] == events;
    var n := CarriedFrom(events, |events|, call, p.key, p.keys);
    var asked := AskedFrom(events, |events|, call, p.key.user, p.key.environment);
    AfterStep(events, asked);
    assert Progressed(After(events, asked + 1), call).Identified?;
    assert asked < n;
  }

  /** A call is turned back at confirmation exactly when the environment's version has moved since the attempt began. */
  lemma {:induction false} TurnedBackIffGenerationMoved(events: seq<Event>, call: nat)
    requires Progressed(Run(INITIAL, events), call).Loaded?
    ensures var s := Run(INITIAL, events);
            var key := Progressed(s, call).key;
            var p := Progressed(Step(s, Confirm(call)), call);
            && key.environment in s.database.generations
            && (p.TurnedBack? || p.ConcurrentChange? <==> key.generation < s.database.generations[key.environment])
            && (p.TurnedBack? ==> Progressed(s, call).attempt + 1 < MAX_ATTEMPTS)
            && (p.ConcurrentChange? ==> MAX_ATTEMPTS <= Progressed(s, call).attempt + 1)
  {
    RunKeeps(INITIAL, events);
  }

  // ---- When a call gives up ----

  function GenerationAfter(events: seq<Event>, n: nat, environment: nat): (g: nat)
    requires n <= |events|
  {
    var generations := After(events, n).database.generations;
    if environment in generations then generations[environment] else 0
  }

  /** The call is at work on the attempt of this number, with the key it read at the start of it. */
  predicate Working(p: Progress, key: CacheKey, attempt: nat) {
    (p.Identified? || p.Loaded?) && p.key == key && p.attempt == attempt
  }

  /** An attempt began at event `from`, reading the version in its key, and is still under way after `n` events. */
  predicate Attempting(events: seq<Event>, call: nat, key: CacheKey, attempt: nat, from: nat, n: nat) {
    && from < n <= |events|
    && events[from] == (if attempt == 0 then Identify(call, key.user, key.environment) else Retry(call))
    && GenerationAfter(events, from, key.environment) == key.generation
    && forall j :: from < j <= n ==> Working(Progressed(After(events, j), call), key, attempt)
  }

  /** The attempt lasted from event `from` to its confirmation at event `to`, and the version grew meanwhile. */
  predicate VoidAttempt(events: seq<Event>, call: nat, key: CacheKey, attempt: nat, from: nat, to: nat) {
    && to < |events| && Attempting(events, call, key, attempt, from, to)
    && Progressed(After(events, to), call).Loaded? && events[to] == Confirm(call)
    && key.generation < GenerationAfter(events, to, key.environment)
  }

  /** By the time of the first `n` events the call has been through attempts 0 to `count` - 1, all void, one by one. */
  ghost predicate VoidAttempts(events: seq<Event>, call: nat, user: nat, environment: nat, count: nat, n: nat)
    decreases count
  {
    count == 0
    || exists key, last: nat, from: nat, to: nat ::
         && VoidAttempt(events, call, key, last, from, to) && last + 1 == count && to < n
         && key.user == user && key.environment == environment
         && VoidAttempts(events, call, user, environment, last, from)
  }

  /** The attempt under way began at event `from`, after as many void ones as its number says. */
  ghost predicate UnderWay(events: seq<Event>, call: nat, key: CacheKey, attempt: nat, from: nat, n: nat) {
    && attempt < MAX_ATTEMPTS && Attempting(events, call, key, attempt, from, n)
    && VoidAttempts(events, call, key.user, key.environment, attempt, from)
  }

  /** How a call in this state by the time of the first `n` events got there. */
  ghost predicate Accounts(events: seq<Event>, call: nat, p: Progress, n: nat) {
    match p
    case Identified(key, attempt) => exists from: nat :: UnderWay(events, call, key, attempt, from, n)
    case Loaded(key, _, _, attempt) => exists from: nat :: UnderWay(events, call, key, attempt, from, n)
    case TurnedBack(user, environment, attempts) =>
      0 < attempts < MAX_ATTEMPTS && VoidAttempts(events, call, user, environment, attempts, n)
    case ConcurrentChange(user, environment) => VoidAttempts(events, call, user, environment, MAX_ATTEMPTS, n)
    case _ => true
  }

  lemma {:induction false} LaterVoidAttempts(
      events: seq<Event>, call: nat, user: nat, environment: nat, count: nat, n: nat, m: nat)
    requires n <= m && VoidAttempts(events, call, user, environment, count, n)
    ensures VoidAttempts(events, call, user, environment, count, m)
  {
  }

  lemma {:induction false} StillUnderWay(
      events: seq<Event>, call: nat, key: CacheKey, attempt: nat, from: nat, n: nat)
    requires n < |events| && UnderWay(events, call, key, attempt, from, n)
    requires Working(Progressed(After(events, n + 1), call), key, attempt)
    ensures UnderWay(events, call, key, attempt, from, n + 1)
  {
  }

  lemma {:induction false} AccountsLater(events: seq<Event>, call: nat, p: Progress, n: nat)
    requires n < |events| && Accounts(events, call, p, n) && Progressed(After(events, n + 1), call) == p
    ensures Accounts(events, call, p, n + 1)
  {
    if p.Identified? || p.Loaded? {
      var from: nat :| UnderWay(events, call, p.key, p.attempt, from, n);
      StillUnderWay(events, call, p.key, p.attempt, from, n);
    } else if p.TurnedBack? {
      LaterVoidAttempts(events, call, p.user, p.environment, p.attempts, n, n + 1);
    } else if p.ConcurrentChange? {
      LaterVoidAttempts(events, call, p.user, p.environment, MAX_ATTEMPTS, n, n + 1);
    }
  }

  lemma {:induction false} OneMoreVoidAttempt(
      events: seq<Event>, call: nat, key: CacheKey, attempt: nat, from: nat, to: nat)
    requires VoidAttempts(events, call, key.user, key.environment, attempt, from)
    requires VoidAttempt(events, call, key, attempt, from, to)
    ensures VoidAttempts(events, call, key.user, key.environment, attempt + 1, to + 1)
  {
  }

  /** A confirmation that finds the version grown ends a void attempt. */
  lemma {:induction false} ConfirmedVoid(events: seq<Event>, call: nat, key: CacheKey, attempt: nat, from: nat, n: nat)
    requires n < |events| && events[n] == Confirm(call) && UnderWay(events, call, key, attempt, from, n)
    requires Progressed(After(events, n), call).Loaded?
    requires key.generation < GenerationAfter(events, n, key.environment)
    ensures VoidAttempt(events, call, key, attempt, from, n)
    ensures VoidAttempts(events, call, key.user, key.environment, attempt + 1, n + 1)
  {
    OneMoreVoidAttempt(events, call, key, attempt, from, n);
  }

  lemma {:induction false} AccountsVoid(
      events: seq<Event>, call: nat, user: nat, environment: nat, attempt: nat, n: nat)
    requires attempt < MAX_ATTEMPTS && VoidAttempts(events, call, user, environment, attempt + 1, n)
    ensures if attempt + 1 < MAX_ATTEMPTS then Accounts(events, call, TurnedBack(user, environment, attempt + 1), n)
            else Accounts(events, call, ConcurrentChange(user, environment), n)
  {
    assert attempt + 1 >= MAX_ATTEMPTS ==> attempt + 1 == MAX_ATTEMPTS;
  }

  lemma {:induction false} AccountsConfirm(
      events: seq<Event>, call: nat, p: Progress, from: nat, n: nat, d: Database)
    requires n < |events| && events[n] == Confirm(call) && p.Loaded?
    requires UnderWay(events, call, p.key, p.attempt, from, n) && Progressed(After(events, n), call) == p
    requires FreshCall(d, p) && GenerationAfter(events, n, p.key.environment) == d.generations[p.key.environment]
    ensures Accounts(events, call, AfterConfirm(d, p), n + 1)
  {
    if p.key.generation < d.generations[p.key.environment] {
      ConfirmedVoid(events, call, p.key, p.attempt, from, n);
      AccountsVoid(events, call, p.key.user, p.key.environment, p.attempt, n + 1);
    }
  }

  /** An attempt starts: a request, or a retry of what was turned back. */
  predicate Starts(d: Database, p: Progress, e: Event, call: nat, q: Progress) {
    && q.Identified? && q.key.environment in d.generations && q.key.generation == d.generations[q.key.environment]
    && if q.attempt == 0 then e == Identify(call, q.key.user, q.key.environment)
       else e == Retry(call) && p == TurnedBack(q.key.user, q.key.environment, q.attempt)
  }

  /** What a single event can do to a call. */
  lemma {:induction false} CallMoves(s: System, e: Event, call: nat)
    requires var p := Progressed(s, call); p.TurnedBack? ==> p.attempts > 0
    ensures var p, q := Progressed(s, call), Progressed(Step(s, e), call);
            || q == p
            || Starts(s.database, p, e, call, q)
            || (p.Identified? && q.Loaded? && q.key == p.key && q.attempt == p.attempt)
            || (p.Loaded? && e == Confirm(call) && q == AfterConfirm(s.database, p))
            || q.Returned?
  {
  }

  lemma {:induction false} AccountsStep(events: seq<Event>, call: nat, n: nat)
    requires n < |events| && Accounts(events, call, Progressed(After(events, n), call), n)
    ensures Accounts(events, call, Progressed(After(events, n + 1), call), n + 1)
  {
    AfterStep(events, n);
    RunKeeps(INITIAL, events[..n]);
    var s := After(events, n);
    var p, q := Progressed(s, call), Progressed(Step(s, events[n]), call);
    CallMoves(s, events[n], call);
    assert FreshCall(s.database, p);
    if q == p {
      AccountsLater(events, call, p, n);
    } else if Starts(s.database, p, events[n], call, q) {
      StartsAccounted(events, call, p, q, n);
    } else if p.Loaded? && events[n] == Confirm(call) {
      var from: nat :| UnderWay(events, call, p.key, p.attempt, from, n);
      AccountsConfirm(events, call, p, from, n, s.database);
    } else if q.Loaded? {
      var from: nat :| UnderWay(events, call, p.key, p.attempt, from, n);
      StillUnderWay(events, call, p.key, p.attempt, from, n);
    }
  }

  lemma {:induction false} StartsAccounted(events: seq<Event>, call: nat, p: Progress, q: Progress, n: nat)
    requires n < |events| && Accounts(events, call, p, n)
    requires Starts(After(events, n).database, p, events[n], call, q) && Progressed(After(events, n + 1), call) == q
    ensures Accounts(events, call, q, n + 1)
  {
    assert Attempting(events, call, q.key, q.attempt, n, n + 1);
    assert UnderWay(events, call, q.key, q.attempt, n, n + 1);
  }

  lemma {:induction false} EveryCallAccounted(events: seq<Event>, call: nat, n: nat)
    requires n <= |events|
    ensures Accounts(events, call, Progressed(After(events, n), call), n)
  {
    if n > 0 {
      EveryCallAccounted(events, call, n - 1);
      AccountsStep(events, call, n - 1);
    }
  }

  /** A call gives up only after three successive attempts, during each of which the environment's version grew. */
  lemma {:induction false} GivesUpOnlyAfterThreeChanges(events: seq<Event>, call: nat)
    requires Progressed(Run(INITIAL, events), call).ConcurrentChange?
    ensures var p := Progressed(Run(INITIAL, events), call);
            VoidAttempts(events, call, p.user, p.environment, 3, |events|)
  {
    assert events[..|events|] == events;
    EveryCallAccounted(events, call, |events|);
  }

  predicate LastAttemptVoid(events: seq<Event>, call: nat, key: CacheKey, from: nat, to: nat) {
    VoidAttempt(events, call, key, 2, from, to)
  }

  /** And it gives up at once when that happens: exactly the confirmation of a void third attempt ends the call so. */
  lemma {:induction false} GivesUpExactlyThen(events: seq<Event>, call: nat, n: nat)
    requires n < |events| && !Progressed(After(events, n), call).ConcurrentChange?
    ensures Progressed(After(events, n + 1), call).ConcurrentChange?
       <==> exists key, from: nat :: LastAttemptVoid(events, call, key, from, n)
  {
    if Progressed(After(events, n + 1), call).ConcurrentChange? {
      GaveUp(events, call, n);
    }
    forall key, from: nat | LastAttemptVoid(events, call, key, from, n)
      ensures Progressed(After(events, n + 1), call).ConcurrentChange?
    {
      VoidGivesUp(events, call, key, from, n);
    }
  }

  lemma {:induction false} VoidGivesUp(events: seq<Event>, call: nat, key: CacheKey, from: nat, n: nat)
    requires LastAttemptVoid(events, call, key, from, n)
    ensures Progressed(After(events, n + 1), call).ConcurrentChange?
  {
    AfterStep(events, n);
    assert Working(Progressed(After(events, n), call), key, MAX_ATTEMPTS - 1);
  }

  lemma {:induction false} GaveUp(events: seq<Event>, call: nat, n: nat)
    requires n < |events| && !Progressed(After(events, n), call).ConcurrentChange?
    requires Progressed(After(events, n + 1), call).ConcurrentChange?
    ensures exists key, from: nat :: LastAttemptVoid(events, call, key, from, n)
  {
    AfterStep(events, n);
    RunKeeps(INITIAL, events[..n]);
    EveryCallAccounted(events, call, n);
    var s := After(events, n);
    var p := Progressed(s, call);
    OnlyConfirmGivesUp(s, events[n], call);
    var from: nat :| UnderWay(events, call, p.key, p.attempt, from, n);
    ConfirmedVoid(events, call, p.key, p.attempt, from, n);
    assert LastAttemptVoid(events, call, p.key, from, n);
  }

  lemma {:induction false} OnlyConfirmGivesUp(s: System, e: Event, call: nat)
    requires Inv(s) && !Progressed(s, call).ConcurrentChange? && Progressed(Step(s, e), call).ConcurrentChange?
    ensures var p := Progressed(s, call);
            && e == Confirm(call) && p.Loaded? && MAX_ATTEMPTS <= p.attempt + 1
            && p.key.environment in s.database.generations
            && p.key.generation < s.database.generations[p.key.environment]
  {
    assert FreshCall(s.database, Progressed(s, call));
  }

  /** Nobody is let in on a cached grant that was withdrawn: a current cache entry is never wrong. */
  lemma {:induction false} CurrentEntriesAreRight(events: seq<Event>, key: CacheKey)
    requires key in Run(INITIAL, events).cache
    requires var d := Run(INITIAL, events).database;
             key.environment in d.generations && d.generations[key.environment] == key.generation
    ensures var s := Run(INITIAL, events); s.cache[key] == KeysFor(s.database, key.user, key.environment)
  {
    RunKeeps(INITIAL, events);
  }
}

/** What each change of grants does to the keys of every user, and what a call answers when nothing interferes. */
module PermissionEffects {
  import opened Permissions

  // ---- The keys in force, from the writers' side ----

  ghost predicate Holds(d: Database, user: nat, environment: nat, role: nat) {
    Link(user, environment, role) in d.links
  }

  lemma {:induction false} KeyIsGranted(d: Database, user: nat, environment: nat, p: nat)
    ensures p in KeysFor(d, user, environment)
       <==> exists role :: Holds(d, user, environment, role) && role in d.roles && p in d.roles[role]
  {
    if p in KeysFor(d, user, environment) {
      var link :| link in d.links && link.user == user && link.environment == environment
                  && link.role in d.roles && p in d.roles[link.role];
      assert link == Link(user, environment, link.role);
      assert Holds(d, user, environment, link.role);
    }
  }

  /** After a replacement the member has there what any of the given roles grants; all others have what they had. */
  lemma {:induction false} ReplacementGrants(
      d: Database, environment: nat, user: nat, roles: set<nat>, u: nat, e: nat, p: nat)
    requires environment in d.generations && roles <= d.roles.Keys
    ensures var r := ReplaceRoles(d, environment, user, roles);
            if u == user && e == environment
            then p in KeysFor(r, u, e) <==> exists role :: role in roles && p in d.roles[role]
            else p in KeysFor(r, u, e) <==> p in KeysFor(d, u, e)
  {
    var r := ReplaceRoles(d, environment, user, roles);
    KeyIsGranted(d, u, e, p);
    KeyIsGranted(r, u, e, p);
    forall role
      ensures Holds(r, u, e, role)
         <==> if u == user && e == environment then role in roles else Holds(d, u, e, role)
    {
    }
  }

  /** The environment advances by one, no other does, and no role changes. */
  lemma {:induction false} ReplacementFrame(d: Database, environment: nat, user: nat, roles: set<nat>)
    ensures var r := ReplaceRoles(d, environment, user, roles);
            if environment in d.generations && roles <= d.roles.Keys
            then r.roles == d.roles && r.generations == d.generations[environment := d.generations[environment] + 1]
            else r == d
  {
  }

  /** After a change of a role, its holders have its new permissions and those of their other roles. */
  lemma {:induction false} UpdateGrants(d: Database, role: nat, permissions: set<nat>, u: nat, e: nat, p: nat)
    requires role in d.roles
    ensures var r := UpdatePermissions(d, role, permissions);
            p in KeysFor(r, u, e)
            <==> || (Holds(d, u, e, role) && p in permissions)
                 || exists other :: other != role && Holds(d, u, e, other) && other in d.roles && p in d.roles[other]
  {
    var r := UpdatePermissions(d, role, permissions);
    KeyIsGranted(r, u, e, p);
    assert forall other :: Holds(r, u, e, other) <==> Holds(d, u, e, other);
  }

  /** Exactly the environments where someone holds the role advance, by one, and no assignment changes. */
  lemma {:induction false} UpdateFrame(d: Database, role: nat, permissions: set<nat>, e: nat)
    requires role in d.roles
    ensures var r := UpdatePermissions(d, role, permissions);
            && r.links == d.links && r.roles.Keys == d.roles.Keys && r.generations.Keys == d.generations.Keys
            && (e in d.generations ==>
                  r.generations[e] == d.generations[e] + if exists u :: Holds(d, u, e, role) then 1 else 0)
  {
    if e in EnvironmentsOf(d, role) {
      var link :| link in d.links && link.role == role && link.environment == e;
      assert link == Link(link.user, e, role);
      assert Holds(d, link.user, e, role);
    }
    if u :| Holds(d, u, e, role) {
      assert Link(u, e, role).environment in EnvironmentsOf(d, role);
    }
  }

  /** A role can go exactly when nobody holds it; roles and environments start empty. */
  lemma {:induction false} ListEffects(d: Database, role: nat, environment: nat)
    ensures DeleteRole(d, role)
         == if exists u, e :: Holds(d, u, e, role) then d else Database(d.links, d.roles - {role}, d.generations)
    ensures role !in d.roles ==> CreateRole(d, role) == Database(d.links, d.roles[role := {}], d.generations)
    ensures environment !in d.generations ==>
              CreateEnvironment(d, environment) == Database(d.links, d.roles, d.generations[environment := 1])
    ensures environment in d.generations ==>
              UpdateEnvironment(d, environment)
              == Database(d.links, d.roles, d.generations[environment := d.generations[environment] + 1])
  {
    if EnvironmentsOf(d, role) != {} {
      var e :| e in EnvironmentsOf(d, role);
      var link :| link in d.links && link.role == role && link.environment == e;
      assert link == Link(link.user, e, role);
      assert Holds(d, link.user, e, role);
    }
    if u, e :| Holds(d, u, e, role) {
      assert Link(u, e, role).environment in EnvironmentsOf(d, role);
    }
    assert role !in d.roles ==> d.roles - {role} == d.roles;
  }

  // ---- A call that nothing interferes with ----

  /** It answers the keys in force and leaves them in the cache, whether or not it found them there. */
  lemma {:induction false} QuietCall(s: System, call: nat, user: nat, environment: nat, fromCache: bool)
    requires Inv(s) && environment in s.database.generations
    requires var key := CacheKey(user, environment, s.database.generations[environment]); fromCache ==> key in s.cache
    ensures var key := CacheKey(user, environment, s.database.generations[environment]);
            var keys := KeysFor(s.database, user, environment);
            var load := if fromCache then LoadCached(call) else LoadStored(call);
            && Step(Step(Step(Step(s, Identify(call, user, environment)), load), Confirm(call)), Answer(call))
               == System(s.database, s.cache[key := keys], s.calls[call := Returned(key, keys)])
  {
    var key := CacheKey(user, environment, s.database.generations[environment]);
    var keys := KeysFor(s.database, user, environment);
    var load := if fromCache then LoadCached(call) else LoadStored(call);
    var a := Step(s, Identify(call, user, environment));
    assert a == System(s.database, s.cache, s.calls[call := Identified(key, 0)]);
    if fromCache {
      assert Fresh(s.database, key, s.cache[key]);
      assert s.cache[key := keys] == s.cache;
    }
    var b := Step(a, load);
    assert b == System(s.database, s.cache, s.calls[call := Loaded(key, keys, fromCache, 0)]);
    var c := Step(b, Confirm(call));
    assert c == System(s.database, s.cache, s.calls[call := Confirmed(key, keys, fromCache)]);
  }

  /** A replacement followed by a call that nothing interferes with: the answer is what the given roles grant. */
  lemma {:induction false} GrantsAreAnswered(
      s: System, call: nat, user: nat, environment: nat, roles: set<nat>) returns (t: System)
    requires Inv(s) && environment in s.database.generations && roles <= s.database.roles.Keys
    ensures var a := Step(s, RolesReplaced(environment, user, roles));
            var b := Step(Step(a, Identify(call, user, environment)), LoadStored(call));
            t == Step(Step(b, Confirm(call)), Answer(call))
    ensures Progressed(t, call).Returned?
    ensures forall p :: p in Progressed(t, call).keys <==> exists role :: role in roles && p in s.database.roles[role]
  {
    var a := Step(s, RolesReplaced(environment, user, roles));
    StepKeeps(s, RolesReplaced(environment, user, roles));
    QuietCall(a, call, user, environment, false);
    t := Step(Step(Step(Step(a, Identify(call, user, environment)), LoadStored(call)), Confirm(call)), Answer(call));
    forall p
      ensures p in KeysFor(a.database, user, environment)
         <==> exists role :: role in roles && p in s.database.roles[role]
    {
      ReplacementGrants(s.database, environment, user, roles, user, environment, p);
    }
  }
}

/** Creating deployments with generated keys, and the two defaults of a new app. */
module Provisioning {
  import opened Common
  import opened Tables
  import opened Requests
  import opened Frame

  /** This try would be refused as a duplicate. */
  predicate Refused(db: Db, app: string, name: string, t: KeyAttempt) {
    || t.id in db.deployments
    || (exists d <- db.deployments :: db.deployments[d].key == t.key)
    || (exists d <- db.deployments :: db.deployments[d].appId == app && db.deployments[d].name == name)
  }

  function Added(db: Db, app: string, name: string, t: KeyAttempt, now: int): Db {
    db.(deployments := db.deployments[t.id := Deployment(app, name, t.key, now)])
  }

  /** The first try that is not refused, or |attempts|. */
  function FirstAccepted(db: Db, app: string, name: string, attempts: seq<KeyAttempt>): (i: nat)
    ensures i <= |attempts| && (i < |attempts| ==> !Refused(db, app, name, attempts[i]))
    ensures forall j | 0 <= j < i :: Refused(db, app, name, attempts[j])
  {
    if attempts == [] || !Refused(db, app, name, attempts[0]) then 0
    else 1 + FirstAccepted(db, app, name, attempts[1..])
  }

  lemma OneTry(db: Db, account: string, app: string, name: string, t: KeyAttempt, now: int)
    requires Integrity(db)
    ensures var r := CreateDeployment(db, account, app, name, t.key, now, t.id);
      if !IsOwner(db, app, account) then r.db == db && r.error in {Some(NotFound), Some(Forbidden)}
      else if Refused(db, app, name, t) then r == Outcome(db, Some(Conflict))
      else r == Outcome(Added(db, app, name, t, now), None)
  {
    assert IsOwner(db, app, account) ==> app in db.apps;
  }

  /** Retrying succeeds exactly for the owner of an app and when some try is not refused; it then
      adds one deployment, with the first such key. Otherwise it changes nothing. */
  lemma {:induction false} TryKeysExact(db: Db, account: string, app: string, name: string,
                                        attempts: seq<KeyAttempt>, now: int)
    requires Integrity(db)
    ensures var r, i := TryKeys(db, account, app, name, attempts, now), FirstAccepted(db, app, name, attempts);
      && (r.error.None? <==> IsOwner(db, app, account) && i < |attempts|)
      && (r.error.None? ==> r.db == Added(db, app, name, attempts[i], now))
      && (IsOwner(db, app, account) && i == |attempts| ==> r.error == Some(Conflict))
      && (r.error.Some? ==> r.db == db)
    decreases |attempts|
  {
    if attempts != [] {
      OneTry(db, account, app, name, attempts[0], now);
      TryKeysExact(db, account, app, name, attempts[1..], now);
    }
  }

  /** No number of keys helps when the app already has a deployment of the name. */
  lemma TakenNameFails(db: Db, account: string, app: string, name: string, attempts: seq<KeyAttempt>, now: int,
                       d: string)
    requires Integrity(db) && IsNamed(db, app, name, d)
    ensures TryKeys(db, account, app, name, attempts, now).error.Some?
    ensures TryKeys(db, account, app, name, attempts, now).db == db
  {
    TryKeysExact(db, account, app, name, attempts, now);
    assert forall t: KeyAttempt :: Refused(db, app, name, t);
  }

  /** A successful default creation leaves the new app with exactly two deployments, named
      Production and Staging, under different keys. */
  lemma DefaultsExact(db: Db, c: Call) returns (p: string, s: string)
    requires Integrity(db) && c.Create? && !c.manual && Serve(db, c).error.None?
    ensures var after := Serve(db, c).db;
      && p != s
      && (forall d :: DeploymentOf(after, c.newId, d) <==> d == p || d == s)
      && IsNamed(after, c.newId, "Production", p) && IsNamed(after, c.newId, "Staging", s)
      && after.deployments[p].key != after.deployments[s].key
  {
    var created := CreateApp(db, c.account, c.name, c.now, c.newId).db;
    CreateAppKeepsIntegrity(db, c.account, c.name, c.now, c.newId);
    assert forall d :: !DeploymentOf(created, c.newId, d);
    p := AddedOne(created, c.account, c.newId, "Production", c.production, c.now);
    var first := TryKeys(created, c.account, c.newId, "Production", c.production, c.now).db;
    TryKeysKeepsIntegrity(created, c.account, c.newId, "Production", c.production, c.now);
    s := AddedOne(first, c.account, c.newId, "Staging", c.staging, c.now);
  }

  // The deployment a successful retry loop adds.
  lemma AddedOne(db: Db, account: string, app: string, name: string, attempts: seq<KeyAttempt>, now: int)
    returns (id: string)
    requires Integrity(db) && TryKeys(db, account, app, name, attempts, now).error.None?
    ensures var after := TryKeys(db, account, app, name, attempts, now).db;
      && id !in db.deployments && IsNamed(after, app, name, id)
      && (forall d :: DeploymentOf(after, app, d) <==> DeploymentOf(db, app, d) || d == id)
      && (forall d <- db.deployments :: d in after.deployments && after.deployments[d] == db.deployments[d]
                                        && after.deployments[id].key != db.deployments[d].key)
  {
    TryKeysExact(db, account, app, name, attempts, now);
    var t := attempts[FirstAccepted(db, app, name, attempts)];
    id := t.id;
  }

  /** After a successful rename the new name, and only it, finds the deployment; every other name
      finds what it found before. */
  lemma RenamedDeploymentFound(db: Db, account: string, app: string, name: string, newName: string, other: string)
    requires Integrity(db) && DeploymentByName(db, app, name).Some?
    requires RenameDeployment(db, account, app, DeploymentByName(db, app, name).value, newName).error.None?
    ensures var dep := DeploymentByName(db, app, name).value;
      var after := RenameDeployment(db, account, app, dep, newName).db;
      && DeploymentByName(after, app, newName) == Some(dep)
      && (name != newName ==> DeploymentByName(after, app, name) == None)
      && (other != name && other != newName ==> DeploymentByName(after, app, other) == DeploymentByName(db, app, other))
  {
    var dep := DeploymentByName(db, app, name).value;
    var after := RenameDeployment(db, account, app, dep, newName).db;
    RenameDeploymentKeepsIntegrity(db, account, app, dep, newName);
    DeploymentUnique(db, app, name, dep);
    DeploymentUnique(after, app, newName, dep);
    forall d ensures d != dep ==> (IsNamed(after, app, other, d) <==> IsNamed(db, app, other, d)) {}
    forall d ensures d != dep ==> !IsNamed(db, app, name, d) {}
    if other != name && other != newName {
      if d :| IsNamed(db, app, other, d) {
        DeploymentUnique(db, app, other, d);
        DeploymentUnique(after, app, other, d);
      }
    }
  }

  // The re-read that follows a rename finds what was renamed.
  lemma RenamedReadable(db: Db, account: string, app: string, name: string, newName: string)
    requires Integrity(db) && DeploymentByName(db, app, name).Some?
    requires RenameDeployment(db, account, app, DeploymentByName(db, app, name).value, newName).error.None?
    ensures var dep := DeploymentByName(db, app, name).value;
      var after := RenameDeployment(db, account, app, dep, newName).db;
      && Integrity(after)
      && Denied(after, account, app, Collaborator).None?
      && DeploymentByName(after, app, newName) == Some(dep)
  {
    RenameDeploymentKeepsIntegrity(db, account, app, DeploymentByName(db, app, name).value, newName);
    RenamedDeploymentFound(db, account, app, name, newName, name);
  }
}

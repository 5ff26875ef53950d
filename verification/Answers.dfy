/** What each management request answers and leaves behind, in terms of the tables alone. */
module Answers {
  import opened Common
  import opened Packages
  import opened Tables
  import opened Requests
  import opened Provisioning
  import opened Frame

  // ------------------------------------------------------------------ apps

  /** Creating an app is refused exactly when its creator belongs to an app of the name. */
  lemma CreateAppAnswer(db: Db, account: string, name: string, now: int, newId: string)
    requires Integrity(db) && account in db.accounts && newId !in db.apps
    ensures var r := CreateApp(db, account, name, now, newId);
      var free := forall a | a in db.apps && (a, account) in db.collaborators :: db.apps[a].name != name;
      r == if !free then Outcome(db, Some(Conflict))
           else Outcome(db.(apps := db.apps[newId := App(name, now)],
                            collaborators := db.collaborators[(newId, account) := Owner]), None)
  {
    if NameTaken(db, account, name, None) {
      var a :| a in db.apps && IsMember(db, a, account) && db.apps[a].name == name;
      assert (a, account) in db.collaborators;
    } else {
      forall a | a in db.apps && (a, account) in db.collaborators ensures db.apps[a].name != name {
        assert IsMember(db, a, account);
      }
    }
  }

  /** A caller who provisions deployments by hand gets the app and no deployment, whatever keys
      there are. */
  lemma ManualCreationAnswer(db: Db, account: string, name: string, now: int, newId: string,
                             production: seq<KeyAttempt>, staging: seq<KeyAttempt>)
    requires Integrity(db) && account in db.accounts && newId !in db.apps
    requires forall a | a in db.apps && (a, account) in db.collaborators :: db.apps[a].name != name
    ensures Serve(db, Create(account, name, true, now, newId, production, staging)) ==
      Outcome(db.(apps := db.apps[newId := App(name, now)],
                  collaborators := db.collaborators[(newId, account) := Owner]), None)
  {
    CreateAppAnswer(db, account, name, now, newId);
  }

  /** The owner's rename is refused exactly when the owner belongs to another app of the name. It
      changes the name and nothing else. */
  lemma RenameAnswer(db: Db, account: string, app: string, name: string)
    requires Integrity(db) && IsOwner(db, app, account)
    ensures var r := RenameApp(db, account, app, name);
      var free := forall a | a in db.apps && a != app && (a, account) in db.collaborators :: db.apps[a].name != name;
      r == if !free then Outcome(db, Some(Conflict))
           else Outcome(db.(apps := db.apps[app := App(name, db.apps[app].createdAt)]), None)
  {
    assert (app, account) in db.collaborators;
    if NameTaken(db, account, name, Some(app)) {
      var a :| a in db.apps && IsMember(db, a, account) && db.apps[a].name == name && Some(a) != Some(app);
      assert (a, account) in db.collaborators;
    } else {
      forall a | a in db.apps && a != app && (a, account) in db.collaborators ensures db.apps[a].name != name {
        assert IsMember(db, a, account);
      }
    }
  }

  /** A request for no new name, or for the name the app has, is accepted and changes nothing,
      unless the owner belongs to another app of that name. */
  lemma SameNameAnswer(db: Db, account: string, app: string, name: string)
    requires Integrity(db) && IsOwner(db, app, account) && app in db.apps
    requires name == "" || name == db.apps[app].name
    ensures Perform(db, account, app, Rename(name)) ==
      if exists a | a in db.apps && a != app && (a, account) in db.collaborators :: db.apps[a].name == db.apps[app].name
      then Outcome(db, Some(Conflict)) else Outcome(db, None)
  {
    RenameAnswer(db, account, app, db.apps[app].name);
    assert db.apps[app := App(db.apps[app].name, db.apps[app].createdAt)] == db.apps;
  }

  // ------------------------------------------------------------------ collaborators

  /** To the owner an email that no account has is not found, whatever is asked about it. */
  lemma UnknownEmailAnswer(db: Db, account: string, app: string, email: string)
    requires Integrity(db) && IsOwner(db, app, account)
    requires forall a <- db.accounts :: db.accounts[a] != email
    ensures TransferApp(db, account, app, email) == Outcome(db, Some(NotFound))
    ensures AddCollaborator(db, account, app, email) == Outcome(db, Some(NotFound))
    ensures RemoveCollaborator(db, account, app, email) == Outcome(db, Some(NotFound))
  {
    forall a ensures !HasEmail(db, a, email) {}
    assert AccountByEmail(db, email) == None;
  }

  /** The owner's requests about an account: transfer and addition always succeed, and a removal fails
      for the owner's own account and for an account that is no member. */
  lemma KnownEmailAnswer(db: Db, account: string, app: string, email: string, target: string)
    requires Integrity(db) && IsOwner(db, app, account) && HasEmail(db, target, email)
    ensures TransferApp(db, account, app, email) ==
      Outcome(db.(collaborators := db.collaborators[(app, account) := Collaborator][(app, target) := Owner]), None)
    ensures AddCollaborator(db, account, app, email) ==
      Outcome(db.(collaborators := db.collaborators[(app, target) := Collaborator]), None)
    ensures RemoveCollaborator(db, account, app, email) ==
      if target == account then Outcome(db, Some(Forbidden))
      else if (app, target) !in db.collaborators then Outcome(db, Some(NotFound))
      else Outcome(db.(collaborators := db.collaborators - {(app, target)}), None)
  {
    EmailUnique(db, email, target);
  }

  // ------------------------------------------------------------------ deployments

  /** The owner's new deployment is refused exactly when its id is in use, its key is in use
      anywhere, or its name is in use in the app. */
  lemma CreateDeploymentAnswer(db: Db, account: string, app: string, name: string, key: string, now: int, newId: string)
    requires Integrity(db) && IsOwner(db, app, account)
    ensures var free := newId !in db.deployments
                        && (forall d <- db.deployments :: db.deployments[d].key != key)
                        && (forall d :: !IsNamed(db, app, name, d));
      CreateDeployment(db, account, app, name, key, now, newId) ==
      if !free then Outcome(db, Some(Conflict))
      else Outcome(db.(deployments := db.deployments[newId := Deployment(app, name, key, now)]), None)
  {
    assert (app, account) in db.collaborators;
    if DeploymentClashes(db, app, name, key) {
      var d :| d in db.deployments && (db.deployments[d].key == key
                 || (db.deployments[d].appId == app && db.deployments[d].name == name));
      assert db.deployments[d].key == key || IsNamed(db, app, name, d);
    }
  }

  /** The owner's rename of a deployment is refused exactly when another deployment of the app has the
      name. It changes the name and nothing else; with no new name it changes nothing. */
  lemma RenameDeploymentAnswer(db: Db, account: string, app: string, name: string, newName: string, dep: string)
    requires Integrity(db) && IsOwner(db, app, account) && IsNamed(db, app, name, dep)
    ensures var target := if newName == "" then name else newName;
      var free := forall d | d in db.deployments && d != dep && db.deployments[d].appId == app ::
                    db.deployments[d].name != target;
      Perform(db, account, app, RenameTo(name, newName)) ==
      if !free then Outcome(db, Some(Internal))
      else Outcome(db.(deployments := db.deployments[dep := db.deployments[dep].(name := target)]), None)
    ensures newName == "" ==> Perform(db, account, app, RenameTo(name, newName)) == Outcome(db, None)
  {
    DeploymentUnique(db, app, name, dep);
    var target := if newName == "" then name else newName;
    if d :| d in db.deployments && d != dep && db.deployments[d].appId == app && db.deployments[d].name == target {
      assert IsNamed(db, app, target, d);
    }
    if newName == "" {
      assert db.deployments[dep := db.deployments[dep].(name := name)] == db.deployments;
    }
  }

  /** The owner's clear of a deployment the app has always succeeds and empties that history. */
  lemma ClearAnswer(db: Db, account: string, app: string, name: string, dep: string)
    requires Integrity(db) && IsOwner(db, app, account) && IsNamed(db, app, name, dep)
    ensures Perform(db, account, app, Clear(name)) == Outcome(db.(packages := db.packages - {dep}), None)
  {
    DeploymentUnique(db, app, name, dep);
  }

  /** A member's rollback answers as the rollback on the deployment's history does. */
  lemma RollbackAnswer(db: Db, account: string, app: string, name: string, dep: string, target: string, now: int,
                       id: string)
    requires Integrity(db) && IsMember(db, app, account) && IsNamed(db, app, name, dep)
    ensures var r := Perform(db, account, app, RollBack(name, target, now, id));
      match Rollback(HistoryOf(db, dep), name, target, now, id)
      case Failure(e) => r == Outcome(db, Some(e))
      case Success(c) => r == Outcome(db.(packages := db.packages[dep := c.history]), None)
  {
    DeploymentUnique(db, app, name, dep);
  }

  /** A member is told NotFound about a deployment the app does not have. */
  lemma MissingDeploymentAnswer(db: Db, account: string, app: string, op: Op)
    requires op.RenameTo? || op.DropDeployment? || op.Clear? || op.RollBack?
    requires IsMember(db, app, account) && forall d :: !IsNamed(db, app, op.dep, d)
    ensures Perform(db, account, app, op) == Outcome(db, Some(NotFound))
  {
  }

  // ------------------------------------------------------------------ failures, default creation

  /** A request on an app that answers with an error has changed nothing. */
  lemma FailureChangesNothing(db: Db, account: string, app: string, op: Op)
    requires Integrity(db) && Perform(db, account, app, op).error.Some?
    ensures Perform(db, account, app, op).db == db
  {
    if op.NewDeployment? {
      TryKeysExact(db, account, app, op.name, op.attempts, op.now);
    }
  }

  /** The key and the row id are in use by no deployment. */
  predicate Unused(db: Db, t: KeyAttempt) {
    t.id !in db.deployments && forall d <- db.deployments :: db.deployments[d].key != t.key
  }

  /** A default creation under a free name with unused, different keys succeeds at the first tries,
      whatever the deployments of other apps are called, and adds exactly its four rows. */
  lemma DefaultCreationAnswer(db: Db, account: string, name: string, now: int, newId: string,
                              production: seq<KeyAttempt>, staging: seq<KeyAttempt>)
    requires Integrity(db) && account in db.accounts && newId !in db.apps
    requires forall a | a in db.apps && (a, account) in db.collaborators :: db.apps[a].name != name
    requires production != [] && staging != [] && Unused(db, production[0]) && Unused(db, staging[0])
    requires production[0].key != staging[0].key && production[0].id != staging[0].id
    ensures var p, s := production[0], staging[0];
      Serve(db, Create(account, name, false, now, newId, production, staging)) ==
      Outcome(db.(apps := db.apps[newId := App(name, now)],
                  collaborators := db.collaborators[(newId, account) := Owner],
                  deployments := db.deployments[p.id := Deployment(newId, "Production", p.key, now)]
                                               [s.id := Deployment(newId, "Staging", s.key, now)]), None)
  {
    CreateAppAnswer(db, account, name, now, newId);
    CreateAppKeepsIntegrity(db, account, name, now, newId);
    var created := CreateApp(db, account, name, now, newId).db;
    assert created.deployments == db.deployments && IsOwner(created, newId, account);
    BothTaken(created, account, newId, now, production, staging);
  }

  lemma BothTaken(db: Db, account: string, app: string, now: int, production: seq<KeyAttempt>, staging: seq<KeyAttempt>)
    requires Integrity(db) && IsOwner(db, app, account) && forall d <- db.deployments :: db.deployments[d].appId != app
    requires production != [] && staging != [] && Unused(db, production[0]) && Unused(db, staging[0])
    requires production[0].key != staging[0].key && production[0].id != staging[0].id
    ensures var first := Added(db, app, "Production", production[0], now);
      && TryKeys(db, account, app, "Production", production, now) == Outcome(first, None)
      && TryKeys(first, account, app, "Staging", staging, now)
         == Outcome(Added(first, app, "Staging", staging[0], now), None)
  {
    FirstTryTaken(db, account, app, "Production", production, now);
    TryKeysKeepsIntegrity(db, account, app, "Production", production, now);
    FirstTryTaken(Added(db, app, "Production", production[0], now), account, app, "Staging", staging, now);
  }

  lemma FirstTryTaken(db: Db, account: string, app: string, name: string, attempts: seq<KeyAttempt>, now: int)
    requires Integrity(db) && IsOwner(db, app, account) && attempts != [] && Unused(db, attempts[0])
    requires forall d :: !IsNamed(db, app, name, d)
    ensures TryKeys(db, account, app, name, attempts, now) == Outcome(Added(db, app, name, attempts[0], now), None)
  {
    CreateDeploymentAnswer(db, account, app, name, attempts[0].key, now, attempts[0].id);
  }

  /** When every key for Production is in use, the creation answers Conflict, but the app is there. */
  lemma FailedDefaultsLeaveApp(db: Db, account: string, name: string, now: int, newId: string,
                               production: seq<KeyAttempt>, staging: seq<KeyAttempt>)
    requires Integrity(db) && account in db.accounts && newId !in db.apps
    requires forall a | a in db.apps && (a, account) in db.collaborators :: db.apps[a].name != name
    requires forall t <- production :: exists d <- db.deployments :: db.deployments[d].key == t.key
    ensures var r := Serve(db, Create(account, name, false, now, newId, production, staging));
      && r.error == Some(Conflict)
      && newId in r.db.apps && IsOwner(r.db, newId, account) && forall d :: !DeploymentOf(r.db, newId, d)
  {
    CreateAppAnswer(db, account, name, now, newId);
    CreateAppKeepsIntegrity(db, account, name, now, newId);
    var created := CreateApp(db, account, name, now, newId).db;
    TryKeysExact(created, account, newId, "Production", production, now);
    forall t <- production ensures Refused(created, newId, "Production", t) {
      var d :| d in db.deployments && db.deployments[d].key == t.key;
    }
  }
}

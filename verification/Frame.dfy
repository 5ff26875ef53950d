/** What a request may touch: nothing of an app its caller does not belong to, and little of an
    app its caller does not own. */
module Frame {
  import opened Common
  import opened Packages
  import opened Tables
  import opened Requests
  import opened Ownership

  function CallerOf(c: Call): string {
    c.account
  }

  ghost predicate DeploymentOf(db: Db, app: string, d: string) {
    d in db.deployments && db.deployments[d].appId == app
  }

  /** The app has the same row and the same deployments. */
  ghost predicate SameDeployments(before: Db, after: Db, app: string) {
    && app in before.apps && app in after.apps && after.apps[app] == before.apps[app]
    && (forall d :: DeploymentOf(after, app, d) <==> DeploymentOf(before, app, d))
    && (forall d :: DeploymentOf(before, app, d) ==>
          d in after.deployments && after.deployments[d] == before.deployments[d])
  }

  ghost predicate SameHistories(before: Db, after: Db, app: string) {
    forall d :: DeploymentOf(before, app, d) ==> HistoryOf(after, d) == HistoryOf(before, d)
  }

  ghost predicate SameApp(before: Db, after: Db, app: string) {
    SameDeployments(before, after, app) && SameHistories(before, after, app) && SameCollaborators(before, after, app)
  }

  lemma {:induction false} TryKeysElsewhere(db: Db, account: string, on: string, name: string,
                                            attempts: seq<KeyAttempt>, now: int, app: string)
    requires app in db.apps && on != app
    ensures SameApp(db, TryKeys(db, account, on, name, attempts, now).db, app)
    decreases |attempts|
  {
    if attempts != [] { TryKeysElsewhere(db, account, on, name, attempts[1..], now, app); }
  }

  lemma SameAppTransitive(a: Db, b: Db, c: Db, app: string)
    requires SameApp(a, b, app) && SameApp(b, c, app)
    ensures SameApp(a, c, app)
  {
    forall d | DeploymentOf(a, app, d)
      ensures d in c.deployments && c.deployments[d] == a.deployments[d] && HistoryOf(c, d) == HistoryOf(a, d)
    {
      assert DeploymentOf(b, app, d);
    }
  }

  lemma CreateElsewhere(db: Db, c: Call, app: string)
    requires Integrity(db) && c.Create? && app in db.apps
    ensures SameApp(db, Serve(db, c).db, app)
  {
    var created := CreateApp(db, c.account, c.name, c.now, c.newId);
    assert SameApp(db, created.db, app);
    if created.error.None? && !c.manual {
      TryKeysElsewhere(created.db, c.account, c.newId, "Production", c.production, c.now, app);
      var first := TryKeys(created.db, c.account, c.newId, "Production", c.production, c.now);
      SameAppTransitive(db, created.db, first.db, app);
      TryKeysElsewhere(first.db, c.account, c.newId, "Staging", c.staging, c.now, app);
      if first.error.None? {
        SameAppTransitive(db, first.db, Serve(db, c).db, app);
      }
    }
  }

  // The statements that filter by deployment id alone, given an id found in another app.
  lemma OnDeploymentElsewhere(db: Db, account: string, on: string, name: string, op: Op, app: string)
    requires op.RenameTo? || op.DropDeployment? || op.Clear? || op.RollBack?
    requires app in db.apps && on != app
    ensures SameApp(db, OnDeployment(db, account, on, name, op).db, app)
  {
    var dep := DeploymentByName(db, on, name);
    if dep.Some? {
      assert IsNamed(db, on, name, dep.value);
      OnlyThatDeployment(db, account, on, dep.value, name, op);
      OtherRowsKept(db, AtDeployment(db, account, on, dep.value, name, op).db, dep.value, app, on);
    }
  }

  /** After a step that concerns one deployment, every other has the same row and history, and the
      deployment itself, if it is still there, the same app. */
  ghost predicate OtherRowsSame(before: Db, after: Db, dep: string) {
    && after.apps == before.apps && after.collaborators == before.collaborators
    && (forall d | d != dep :: (d in after.deployments <==> d in before.deployments)
                               && (d in before.deployments ==> after.deployments[d] == before.deployments[d])
                               && HistoryOf(after, d) == HistoryOf(before, d))
    && (dep in before.deployments && dep in after.deployments
        ==> after.deployments[dep].appId == before.deployments[dep].appId)
  }

  lemma OnlyThatDeployment(db: Db, account: string, on: string, dep: string, name: string, op: Op)
    requires op.RenameTo? || op.DropDeployment? || op.Clear? || op.RollBack?
    ensures OtherRowsSame(db, AtDeployment(db, account, on, dep, name, op).db, dep)
  {
  }

  lemma OtherRowsKept(db: Db, after: Db, dep: string, app: string, on: string)
    requires app in db.apps && app != on && dep in db.deployments && db.deployments[dep].appId == on
    requires OtherRowsSame(db, after, dep)
    ensures SameApp(db, after, app)
  {
  }

  lemma AppRequestsElsewhere(db: Db, account: string, on: string, op: Op, app: string)
    requires !OnDeployments(op) && app in db.apps && on != app
    ensures SameApp(db, Perform(db, account, on, op).db, app)
  {
  }

  // A request on another app, whoever makes it.
  lemma ElsewhereUntouched(db: Db, c: Call, app: string)
    requires Integrity(db) && app in db.apps && (c.OnApp? ==> c.app != app)
    ensures SameApp(db, Serve(db, c).db, app)
  {
    if c.Create? {
      CreateElsewhere(db, c, app);
    } else if c.op.NewDeployment? {
      TryKeysElsewhere(db, c.account, c.app, c.op.name, c.op.attempts, c.op.now, app);
    } else if OnDeployments(c.op) {
      OnDeploymentElsewhere(db, c.account, c.app, c.op.dep, c.op, app);
    } else {
      AppRequestsElsewhere(db, c.account, c.app, c.op, app);
    }
  }

  lemma {:induction false} NotOwnerTryKeys(db: Db, account: string, app: string, name: string,
                                           attempts: seq<KeyAttempt>, now: int)
    requires !IsOwner(db, app, account)
    ensures TryKeys(db, account, app, name, attempts, now).db == db
    decreases |attempts|
  {
    if attempts != [] { NotOwnerTryKeys(db, account, app, name, attempts[1..], now); }
  }

  /** No request by an account without a collaborator row on an app changes the app's row, its
      collaborators, its deployments or their packages, although three of the statements behind
      these requests name a deployment by id alone. */
  lemma {:induction false} StrangersChangeNothing(db: Db, c: Call, app: string)
    requires Integrity(db) && app in db.apps && !IsMember(db, app, CallerOf(c))
    ensures SameApp(db, Serve(db, c).db, app)
  {
    if c.OnApp? && c.app == app {
      if c.op.NewDeployment? { NotOwnerTryKeys(db, c.account, app, c.op.name, c.op.attempts, c.op.now); }
      assert Serve(db, c).db == db;
    } else {
      ElsewhereUntouched(db, c, app);
    }
  }

  /** The app has the same row and deployments, the same members but perhaps for one account, and
      its histories have at most grown. */
  ghost predicate LeftOrAppended(before: Db, after: Db, app: string, account: string) {
    && SameDeployments(before, after, app)
    && (forall a | a != account ::
          IsMember(after, app, a) == IsMember(before, app, a) && IsOwner(after, app, a) == IsOwner(before, app, a))
    && (forall d | DeploymentOf(before, app, d) :: HistoryOf(before, d) <= HistoryOf(after, d))
  }

  lemma SameAppSuffices(before: Db, after: Db, app: string, account: string)
    requires SameApp(before, after, app)
    ensures LeftOrAppended(before, after, app, account)
  {
  }

  /** A member who is not the owner can change an app in two ways only: by leaving it, and by
      appending rollbacks to its histories. */
  lemma {:induction false} CollaboratorsOnlyAppend(db: Db, c: Call, app: string)
    requires Integrity(db) && app in db.apps && !IsOwner(db, app, CallerOf(c))
    ensures LeftOrAppended(db, Serve(db, c).db, app, CallerOf(c))
  {
    if c.OnApp? && c.app == app {
      OwnApp(db, c.account, app, c.op);
    } else {
      ElsewhereUntouched(db, c, app);
      SameAppSuffices(db, Serve(db, c).db, app, CallerOf(c));
    }
  }

  lemma OwnApp(db: Db, account: string, app: string, op: Op)
    requires Integrity(db) && app in db.apps && !IsOwner(db, app, account)
    ensures LeftOrAppended(db, Perform(db, account, app, op).db, app, account)
  {
    var after := Perform(db, account, app, op).db;
    if op.RollBack? {
      RollbackOnlyAppends(db, account, app, op.dep, op);
      AppendedSuffices(db, after, app, account);
    } else if op.Remove? {
      SelfRemoval(db, account, app, op.email);
      LeavingSuffices(db, after, app, account);
    } else {
      DeniedToNonOwners(db, account, app, op);
      LeavingSuffices(db, after, app, account);
    }
  }

  lemma AppendedSuffices(db: Db, after: Db, app: string, account: string)
    requires app in db.apps && after == db.(packages := after.packages)
    requires forall d :: HistoryOf(db, d) <= HistoryOf(after, d)
    ensures LeftOrAppended(db, after, app, account)
  {
  }

  lemma LeavingSuffices(db: Db, after: Db, app: string, account: string)
    requires app in db.apps
    requires after == db || after == db.(collaborators := db.collaborators - {(app, account)})
    ensures LeftOrAppended(db, after, app, account)
  {
  }

  // A non-owner's removal request removes the caller or nobody.
  lemma SelfRemoval(db: Db, account: string, app: string, email: string)
    requires !IsOwner(db, app, account)
    ensures var after := RemoveCollaborator(db, account, app, email).db;
      after == db || after == db.(collaborators := db.collaborators - {(app, account)})
  {
  }

  lemma DeniedToNonOwners(db: Db, account: string, app: string, op: Op)
    requires !IsOwner(db, app, account) && !op.RollBack? && !op.Remove?
    ensures Perform(db, account, app, op).db == db
  {
    if op.NewDeployment? { NotOwnerTryKeys(db, account, app, op.name, op.attempts, op.now); }
  }

  lemma RollbackOnlyAppends(db: Db, account: string, app: string, name: string, op: Op)
    requires Integrity(db) && op.RollBack? && app in db.apps
    ensures var after := OnDeployment(db, account, app, name, op).db;
      && after == db.(packages := after.packages)
      && (forall d :: HistoryOf(db, d) <= HistoryOf(after, d))
  {
    var dep := DeploymentByName(db, app, name);
    if dep.Some? { RollbackOnAppends(db, account, app, dep.value, name, op.target, op.now, op.id); }
  }

  lemma RollbackOnAppends(db: Db, account: string, app: string, dep: string, name: string, target: string, now: int,
                          id: string)
    requires Integrity(db)
    ensures var after := RollbackOn(db, account, app, dep, name, target, now, id).db;
      && after == db.(packages := after.packages)
      && (forall d :: HistoryOf(db, d) <= HistoryOf(after, d))
  {
    var t := RollbackTarget(HistoryOf(db, dep), target);
    if t.Success? { CommitAppends(db, account, app, dep, RollbackClone(t.value, name, now), id); }
  }

  lemma CommitAppends(db: Db, account: string, app: string, dep: string, p: Package, id: string)
    requires Integrity(db)
    ensures var after := CommitPackage(db, account, app, dep, p, id).db;
      && after == db.(packages := after.packages)
      && (forall d :: HistoryOf(db, d) <= HistoryOf(after, d))
  {
    assert WellKept(HistoryOf(db, dep));
    CommitExact(HistoryOf(db, dep), p, id);
  }

  /** What an account that does not own the app is told. A stranger finds nothing; a member may
      leave and roll back, and is refused everything else on whatever exists. */
  lemma {:induction false} RefusalsExact(db: Db, account: string, app: string, op: Op)
    requires Integrity(db) && !IsOwner(db, app, account) && !op.RollBack?
    requires op.NewDeployment? ==> op.attempts != []
    ensures var error := Perform(db, account, app, op).error;
      if !IsMember(db, app, account) then error == Some(NotFound)
      else if op.Remove? && AccountByEmail(db, op.email) == Some(account) then error == None
      else if (op.RenameTo? || op.DropDeployment? || op.Clear?) && DeploymentByName(db, app, op.dep) == None then
        error == Some(NotFound)
      else error == Some(Forbidden)
  {
  }

  /** Deleting an app succeeds exactly for its owner, and leaves no row of it, of its members or of
      its deployments and their packages. */
  lemma DeletedAppGone(db: Db, account: string, app: string)
    requires Integrity(db)
    ensures var r := Perform(db, account, app, Delete);
      && (r.error.None? <==> IsOwner(db, app, account))
      && (r.error.None? ==>
          && app !in r.db.apps
          && (forall a :: !IsMember(r.db, app, a))
          && (forall d :: !DeploymentOf(r.db, app, d))
          && (forall d :: DeploymentOf(db, app, d) ==> HistoryOf(r.db, d) == []))
  {
    DeleteAppKeepsIntegrity(db, account, app);
  }

  /** Deleting a deployment succeeds exactly for the owner of an app that has one of the name, and
      takes that deployment and its history only. */
  lemma DroppedDeploymentGone(db: Db, account: string, app: string, name: string)
    requires Integrity(db)
    ensures var r, dep := Perform(db, account, app, DropDeployment(name)), DeploymentByName(db, app, name);
      && (r.error.None? <==> IsOwner(db, app, account) && dep.Some?)
      && (r.error.None? ==>
          && DeploymentByName(r.db, app, name) == None
          && dep.value !in r.db.deployments
          && HistoryOf(r.db, dep.value) == []
          && OtherRowsSame(db, r.db, dep.value))
  {
    var dep := DeploymentByName(db, app, name);
    if dep.Some? {
      assert IsNamed(db, app, name, dep.value);
      forall d | IsNamed(db, app, name, d) ensures d == dep.value { DeploymentUnique(db, app, name, d); }
    }
  }

  /** And so for every run of requests none of which comes from a member of the app. */
  lemma {:induction false} StrangersRun(db: Db, calls: seq<Call>, app: string)
    requires Integrity(db) && app in db.apps
    requires forall c <- calls :: !IsMember(db, app, CallerOf(c))
    ensures SameApp(db, ServeAll(db, calls), app)
    decreases |calls|
  {
    if calls != [] {
      var after := Serve(db, calls[0]).db;
      ServeKeepsIntegrity(db, calls[0]);
      StrangersChangeNothing(db, calls[0], app);
      StrangersRun(after, calls[1..], app);
      SameAppTransitive(db, after, ServeAll(db, calls), app);
    }
  }
}

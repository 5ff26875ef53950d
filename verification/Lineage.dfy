/** The package histories of the whole database over runs of requests. */
module Lineage {
  import opened Common
  import opened Packages
  import opened Rollbacks
  import opened Tables
  import opened Requests
  import opened Ownership

  lemma {:induction false} TryKeysPackages(db: Db, account: string, app: string, name: string,
                                           attempts: seq<KeyAttempt>, now: int)
    ensures TryKeys(db, account, app, name, attempts, now).db.packages == db.packages
    decreases |attempts|
  {
    if attempts != [] { TryKeysPackages(db, account, app, name, attempts[1..], now); }
  }

  lemma RollbackIsAttempt(db: Db, account: string, app: string, dep: string, name: string, op: Op)
    requires op.RollBack? && Denied(db, account, app, Collaborator).None? && dep in db.deployments
    ensures var after := RollbackOn(db, account, app, dep, name, op.target, op.now, op.id).db;
      && HistoryOf(after, dep) == Attempt(HistoryOf(db, dep), Request(name, op.target, op.now, op.id))
      && forall d | d != dep :: HistoryOf(after, d) == HistoryOf(db, d)
  {
  }

  // The ways a request can leave a history.
  ghost predicate Evolved(h: History, after: History) {
    after == h || after == [] || exists r :: after == Attempt(h, r)
  }

  /** A request leaves each deployment's history alone, empties it, or makes one rollback attempt
      on it; there is no other way a history changes. */
  lemma HistoriesEvolve(db: Db, c: Call, d: string)
    requires Integrity(db)
    ensures Evolved(HistoryOf(db, d), HistoryOf(Serve(db, c).db, d))
  {
    if c.Create? {
      CreateKeepsPackages(db, c);
    } else if c.op.NewDeployment? {
      TryKeysPackages(db, c.account, c.app, c.op.name, c.op.attempts, c.op.now);
    } else if OnDeployments(c.op) {
      DeploymentHistories(db, c.account, c.app, c.op, d);
    } else {
      AppRequestHistories(db, c.account, c.app, c.op, d);
    }
  }

  lemma AppRequestHistories(db: Db, account: string, app: string, op: Op, d: string)
    requires !OnDeployments(op)
    ensures HistoryOf(Perform(db, account, app, op).db, d) == HistoryOf(db, d)
            || (op.Delete? && HistoryOf(Perform(db, account, app, op).db, d) == [])
  {
  }

  lemma CreateKeepsPackages(db: Db, c: Call)
    requires c.Create?
    ensures Serve(db, c).db.packages == db.packages
  {
    var created := CreateApp(db, c.account, c.name, c.now, c.newId).db;
    TryKeysPackages(created, c.account, c.newId, "Production", c.production, c.now);
    var first := TryKeys(created, c.account, c.newId, "Production", c.production, c.now).db;
    TryKeysPackages(first, c.account, c.newId, "Staging", c.staging, c.now);
  }

  lemma DeploymentHistories(db: Db, account: string, app: string, op: Op, d: string)
    requires OnDeployments(op) && !op.NewDeployment?
    ensures Evolved(HistoryOf(db, d), HistoryOf(OnDeployment(db, account, app, op.dep, op).db, d))
  {
    var dep := DeploymentByName(db, app, op.dep);
    if Denied(db, account, app, Collaborator).None? && dep.Some? {
      var after := OnDeployment(db, account, app, op.dep, op).db;
      if op.RollBack? {
        RollbackIsAttempt(db, account, app, dep.value, op.dep, op);
      } else {
        assert HistoryOf(after, d) == HistoryOf(db, d) || HistoryOf(after, d) == [];
      }
    }
  }

  /** Every package delivers what some package there at the start delivers. */
  ghost predicate NothingNew(before: History, after: History) {
    forall p <- after :: exists q <- before :: q.payload == p.payload
  }

  /** Nothing new is delivered, and provenance and numbering are kept, each where it held. */
  ghost predicate Inherits(before: History, after: History) {
    && NothingNew(before, after)
    && (Sourced(before) ==> Sourced(after))
    && (Dense(before) ==> Dense(after))
  }

  lemma AttemptKeepsDense(h: History, r: Request)
    requires Dense(h)
    ensures Dense(Attempt(h, r))
  {
    if Answer(h, r).Success? {
      CommitKeepsDense(h, RollbackClone(RollbackTarget(h, r.target).value, r.deploymentName, r.now), r.id);
    }
  }

  lemma AttemptAddsNothing(h: History, r: Request)
    requires WellKept(h)
    ensures NothingNew(h, Attempt(h, r))
  {
    RollbackExact(h, r.deploymentName, r.target, r.now, r.id);
    if Answer(h, r).Success? {
      var t: nat :| IsTarget(h, t, r.target);
      assert h[t] in h;
    }
  }

  lemma NothingNewTransitive(a: History, b: History, c: History)
    requires NothingNew(a, b) && NothingNew(b, c)
    ensures NothingNew(a, c)
  {
    forall p <- c ensures exists q <- a :: q.payload == p.payload {
      var r :| r in b && r.payload == p.payload;
    }
  }

  // One request on one deployment's history.
  lemma ServeHistory(db: Db, c: Call, d: string)
    requires Integrity(db)
    ensures Inherits(HistoryOf(db, d), HistoryOf(Serve(db, c).db, d))
  {
    var h, after := HistoryOf(db, d), HistoryOf(Serve(db, c).db, d);
    assert WellKept(h);
    HistoriesEvolve(db, c, d);
    if after != h && after != [] {
      var r :| after == Attempt(h, r);
      if Sourced(h) { AttemptGrows(h, r); }
      if Dense(h) { AttemptKeepsDense(h, r); }
      AttemptAddsNothing(h, r);
    }
  }

  /** Over every run of requests, whatever packages there were: a deployment never delivers anything
      it did not deliver at the start; where every rollback named an earlier package of the same
      payload, every rollback does; and where packages were numbered 1..n with matching labels,
      they are. */
  lemma {:induction false} HistoriesOverRuns(db: Db, calls: seq<Call>, d: string)
    requires Integrity(db)
    ensures Inherits(HistoryOf(db, d), HistoryOf(ServeAll(db, calls), d))
    decreases |calls|
  {
    if calls != [] {
      var next := Serve(db, calls[0]).db;
      ServeKeepsIntegrity(db, calls[0]);
      ServeHistory(db, calls[0], d);
      HistoriesOverRuns(next, calls[1..], d);
      NothingNewTransitive(HistoryOf(db, d), HistoryOf(next, d), HistoryOf(ServeAll(db, calls), d));
    }
  }

  // ------------------------------------------------------------------ requests to roll back

  predicate IsRollBack(c: Call) {
    c.OnApp? && c.op.RollBack?
  }

  /** A member's request to roll back the deployment of this name. */
  predicate RollsBack(db: Db, c: Call, app: string, name: string) {
    IsRollBack(c) && c.app == app && c.op.dep == name && IsMember(db, app, c.account)
  }

  predicate AllRollBack(db: Db, calls: seq<Call>, app: string, name: string)
    ensures AllRollBack(db, calls, app, name) ==> forall c <- calls :: IsRollBack(c)
  {
    forall c <- calls :: RollsBack(db, c, app, name)
  }

  function AttemptOf(c: Call): Request
    requires IsRollBack(c)
  {
    Request(c.op.dep, c.op.target, c.op.now, c.op.id)
  }

  function AttemptsOf(calls: seq<Call>): (rs: seq<Request>)
    requires forall c <- calls :: IsRollBack(c)
    ensures |rs| == |calls| && forall i | 0 <= i < |rs| :: rs[i] == AttemptOf(calls[i])
  {
    seq(|calls|, i requires 0 <= i < |calls| => AttemptOf(calls[i]))
  }

  lemma RollsBackStep(db: Db, c: Call, app: string, name: string, dep: string)
    requires Integrity(db) && RollsBack(db, c, app, name) && DeploymentByName(db, app, name) == Some(dep)
    ensures var after := Serve(db, c).db;
      && HistoryOf(after, dep) == Attempt(HistoryOf(db, dep), AttemptOf(c))
      && after.collaborators == db.collaborators
      && DeploymentByName(after, app, name) == Some(dep)
  {
    assert IsNamed(db, app, name, dep);
    RollbackIsAttempt(db, c.account, app, dep, name, c.op);
    RollbackOnTables(db, c.account, app, dep, name, c.op);
    ServeKeepsIntegrity(db, c);
    SameNames(db, Serve(db, c).db, app, name, dep);
  }

  lemma RollbackOnTables(db: Db, account: string, app: string, dep: string, name: string, op: Op)
    requires op.RollBack?
    ensures var after := RollbackOn(db, account, app, dep, name, op.target, op.now, op.id).db;
      after.deployments == db.deployments && after.collaborators == db.collaborators
  {
  }

  lemma SameNames(db: Db, after: Db, app: string, name: string, dep: string)
    requires Integrity(after) && after.deployments == db.deployments && IsNamed(db, app, name, dep)
    ensures DeploymentByName(after, app, name) == Some(dep)
  {
    DeploymentUnique(after, app, name, dep);
  }

  /** Members' rollback requests on one deployment do to its history what the rollbacks do one
      after another. */
  lemma {:induction false} RollbackRequests(db: Db, calls: seq<Call>, app: string, name: string, dep: string)
    requires Integrity(db) && DeploymentByName(db, app, name) == Some(dep)
    requires AllRollBack(db, calls, app, name)
    ensures HistoryOf(ServeAll(db, calls), dep) == RunAll(HistoryOf(db, dep), AttemptsOf(calls))
    decreases |calls|
  {
    if calls != [] {
      var next := Serve(db, calls[0]).db;
      RollsBackStep(db, calls[0], app, name, dep);
      ServeKeepsIntegrity(db, calls[0]);
      assert AllRollBack(next, calls[1..], app, name) by {
        forall c <- calls[1..] ensures RollsBack(next, c, app, name) { assert RollsBack(db, c, app, name); }
      }
      RollbackRequests(next, calls[1..], app, name, dep);
      assert AttemptsOf(calls)[1..] == AttemptsOf(calls[1..]);
    }
  }

  /** So k unlabelled requests on a history ending A, B with room append k packages, the newest
      delivering A's payload for odd k and B's for even k. */
  lemma {:induction false} AlternatingRequests(db: Db, calls: seq<Call>, app: string, name: string, dep: string)
    requires Integrity(db) && DeploymentByName(db, app, name) == Some(dep)
    requires AllRollBack(db, calls, app, name) && forall r <- AttemptsOf(calls) :: r.target == ""
    requires EndsInPair(HistoryOf(db, dep)) && Room(HistoryOf(db, dep), |calls|)
    ensures Alternated(HistoryOf(db, dep), HistoryOf(ServeAll(db, calls), dep), |calls|)
  {
    RollbackRequests(db, calls, app, name, dep);
    AlternatingRollback(HistoryOf(db, dep), AttemptsOf(calls));
  }
}

/** The application service: requests resolve the app by name, then the deployment, then act. */
module Service {
  import opened Common
  import opened MetricsKeys
  import opened MetricsStore
  import opened Packages
  import T = Tables
  import opened Requests
  import opened Resolution
  import R = Repository
  import U = UpdateCheck
  import K = Redis
  import L = ReportLog
  import P = Provisioning

  const MAX_KEY_ATTEMPTS := 3

  /** A request by app name: an unresolved name changes nothing, a resolved one does what
      `Perform` says on some app the name may mean. */
  ghost predicate Served(before: T.Db, account: string, appName: string, op: Op, after: T.Db, error: Option<Error>) {
    || (after == before && error.Some? && Resolves(before, account, appName, Failure(error.value)))
    || (exists app :: Resolves(before, account, appName, Success(app))
                      && Perform(before, account, app, op) == T.Outcome(after, error))
  }

  /** Whatever a served request does is a step of the request runs. */
  lemma ServedIsServe(before: T.Db, account: string, appName: string, op: Op, after: T.Db, error: Option<Error>)
    returns (c: Call)
    requires Served(before, account, appName, op, after, error)
    ensures after == before || (c.OnApp? && c.account == account && c.op == op && T.IsMember(before, c.app, account)
                                && after == Serve(before, c).db)
  {
    c := OnApp(account, "", op);
    if after != before {
      var app :| Resolves(before, account, appName, Success(app))
                 && Perform(before, account, app, op) == T.Outcome(after, error);
      c := OnApp(account, app, op);
    }
  }

  datatype Location = Location(app: string, dep: string)

  /** Where a request on a deployment ends up looking. */
  ghost predicate Located(db: T.Db, account: string, appName: string, name: string, r: Result<Location>) {
    match r
    case Success(p) =>
      Resolves(db, account, appName, Success(p.app)) && T.DeploymentByName(db, p.app, name) == Some(p.dep)
      && T.IsNamed(db, p.app, name, p.dep)
    case Failure(e) =>
      || Resolves(db, account, appName, Failure(e))
      || (e == NotFound && exists app ::
            Resolves(db, account, appName, Success(app)) && T.DeploymentByName(db, app, name) == None)
  }

  predicate OnNamedDeployment(op: Op) {
    op.RenameTo? || op.DropDeployment? || op.Clear? || op.RollBack?
  }

  lemma UnlocatedServed(db: T.Db, account: string, appName: string, op: Op, e: Error)
    requires OnNamedDeployment(op) && Located(db, account, appName, op.dep, Failure(e))
    ensures Served(db, account, appName, op, db, Some(e))
  {
    if !Resolves(db, account, appName, Failure(e)) {
      var app :| Resolves(db, account, appName, Success(app)) && T.DeploymentByName(db, app, op.dep) == None;
      assert Perform(db, account, app, op) == T.Outcome(db, Some(e));
    }
  }

  lemma LocatedServed(db: T.Db, account: string, appName: string, op: Op, p: Location, after: T.Db,
                      error: Option<Error>)
    requires OnNamedDeployment(op) && Located(db, account, appName, op.dep, Success(p))
    requires AtDeployment(db, account, p.app, p.dep, op.dep, op) == T.Outcome(after, error)
    ensures Served(db, account, appName, op, after, error)
  {
    assert Resolves(db, account, appName, Success(p.app));
  }

  ghost function ErrorOf<X>(r: Result<X>): Option<Error> {
    if r.Failure? then Some(r.error) else None
  }

  class Service {
    const store: R.Store
    const metrics: Metrics

    constructor (store: R.Store, metrics: Metrics)
      ensures this.store == store && this.metrics == metrics
    {
      this.store, this.metrics := store, metrics;
    }

    // ---------------------------------------------------------------- apps

    /** Try one generated key after another until the answer is not a conflict. */
    method CreateDeploymentWithGeneratedKey(account: string, app: string, name: string, attempts: seq<KeyAttempt>,
                                            now: int)
      returns (error: Option<Error>, used: nat)
      requires |attempts| == MAX_KEY_ATTEMPTS
      modifies store
      ensures T.Outcome(store.State(), error) == TryKeys(old(store.State()), account, app, name, attempts, now)
      ensures 1 <= used <= 3
      ensures error == Some(Conflict) ==> used == 3
    {
      ghost var start := store.State();
      used := 0;
      while used < MAX_KEY_ATTEMPTS
        invariant 0 <= used <= MAX_KEY_ATTEMPTS
        invariant store.State() == start
        invariant TryKeys(start, account, app, name, attempts, now)
                  == TryKeys(start, account, app, name, attempts[used..], now)
      {
        error := store.CreateDeployment(account, app, name, attempts[used].key, now, attempts[used].id);
        assert attempts[used..][1..] == attempts[used + 1..];
        used := used + 1;
        if error != Some(Conflict) {
          return;
        }
      }
      error := Some(Conflict);
    }

    /** Returns what the new app's name resolves to afterwards. */
    method CreateApp(account: string, name: string, manual: bool, now: int, newId: string,
                     production: seq<KeyAttempt>, staging: seq<KeyAttempt>)
      returns (r: Result<R.AppView>)
      requires store.Valid()
      requires |production| == |staging| == MAX_KEY_ATTEMPTS
      modifies store
      ensures var outcome := CreateWithDefaults(old(store.State()), account, name, manual, now, newId, production,
                                                staging);
        && store.State() == outcome.db
        && (if outcome.error.Some? then r == Failure(outcome.error.value)
            else Resolves(store.State(), account, name, R.IdOf(r)))
        && (r.Success? ==> R.IsView(store.State(), store.leq, account, r.value))
    {
      ghost var before := store.State();
      ghost var call := Create(account, name, manual, now, newId, production, staging);
      ServeKeepsIntegrity(before, call);
      var error := store.Create(account, name, now, newId);
      if error.Some? {
        return Failure(error.value);
      }
      if !manual {
        var used;
        error, used := CreateDeploymentWithGeneratedKey(account, newId, "Production", production, now);
        if error.Some? {
          return Failure(error.value);
        }
        error, used := CreateDeploymentWithGeneratedKey(account, newId, "Staging", staging, now);
        if error.Some? {
          return Failure(error.value);
        }
      }
      r := store.GetByName(account, name);
    }

    /** A failed re-read after the rename is reported although the rename has happened. */
    method UpdateApp(account: string, appName: string, newName: string)
      returns (r: Result<R.AppView>, ghost renamed: Option<Error>)
      requires store.Valid()
      modifies store
      ensures Served(old(store.State()), account, appName, Rename(newName), store.State(), renamed)
      ensures renamed.Some? ==> r == Failure(renamed.value)
      ensures renamed.None? && newName != "" ==> Resolves(store.State(), account, newName, R.IdOf(r))
      ensures renamed.None? && newName == "" ==>
        exists app :: Resolves(old(store.State()), account, appName, Success(app))
                      && app in old(store.apps)
                      && Resolves(store.State(), account, old(store.apps)[app].name, R.IdOf(r))
      ensures r.Success? ==> R.IsView(store.State(), store.leq, account, r.value)
    {
      ghost var before := store.State();
      var resolved := store.GetByName(account, appName);
      if resolved.Failure? {
        return resolved, Some(resolved.error);
      }
      var app := resolved.value.id;
      var name := if newName != "" then newName else resolved.value.app.name;
      var error := store.Update(account, app, name);
      renamed := error;
      if error.Some? {
        return Failure(error.value), renamed;
      }
      PerformKeepsIntegrity(before, account, app, Rename(newName));
      r := store.GetByName(account, name);
    }

    method DeleteApp(account: string, appName: string) returns (error: Option<Error>)
      requires store.Valid()
      modifies store
      ensures Served(old(store.State()), account, appName, Delete, store.State(), error)
    {
      var resolved := store.GetByName(account, appName);
      if resolved.Failure? {
        return Some(resolved.error);
      }
      error := store.Delete(account, resolved.value.id);
    }

    method TransferApp(account: string, appName: string, email: string) returns (error: Option<Error>)
      requires store.Valid()
      modifies store
      ensures Served(old(store.State()), account, appName, Transfer(email), store.State(), error)
    {
      var resolved := store.GetByName(account, appName);
      if resolved.Failure? {
        return Some(resolved.error);
      }
      error := store.Transfer(account, resolved.value.id, email);
    }

    method AddCollaborator(account: string, appName: string, email: string) returns (error: Option<Error>)
      requires store.Valid()
      modifies store
      ensures Served(old(store.State()), account, appName, Add(email), store.State(), error)
    {
      var resolved := store.GetByName(account, appName);
      if resolved.Failure? {
        return Some(resolved.error);
      }
      error := store.AddCollaborator(account, resolved.value.id, email);
    }

    method RemoveCollaborator(account: string, appName: string, email: string) returns (error: Option<Error>)
      requires store.Valid()
      modifies store
      ensures Served(old(store.State()), account, appName, Remove(email), store.State(), error)
    {
      var resolved := store.GetByName(account, appName);
      if resolved.Failure? {
        return Some(resolved.error);
      }
      error := store.RemoveCollaborator(account, resolved.value.id, email);
    }

    // ---------------------------------------------------------------- deployments

    method CreateDeployment(account: string, appName: string, name: string, key: string, attempts: seq<KeyAttempt>,
                            now: int, newId: string)
      returns (error: Option<Error>)
      requires store.Valid() && |attempts| == MAX_KEY_ATTEMPTS
      modifies store
      ensures Served(old(store.State()), account, appName,
                     NewDeployment(name, if key == "" then attempts else [KeyAttempt(key, newId)], now),
                     store.State(), error)
    {
      ghost var before := store.State();
      var resolved := store.GetByName(account, appName);
      if resolved.Failure? {
        return Some(resolved.error);
      }
      if key == "" {
        var used;
        error, used := CreateDeploymentWithGeneratedKey(account, resolved.value.id, name, attempts, now);
      } else {
        error := store.CreateDeployment(account, resolved.value.id, name, key, now, newId);
        OneKey(before, account, resolved.value.id, name, KeyAttempt(key, newId), now);
      }
    }

    /** Resolve the app, then the deployment inside it. */
    method Locate(account: string, appName: string, name: string) returns (r: Result<Location>)
      requires store.Valid()
      ensures Located(store.State(), account, appName, name, r)
    {
      var resolved := store.GetByName(account, appName);
      if resolved.Failure? {
        return Failure(resolved.error);
      }
      var dep := store.GetDeployment(account, resolved.value.id, name);
      if dep.Failure? {
        return Failure(dep.error);
      }
      return Success(Location(resolved.value.id, dep.value.id));
    }

    method UpdateDeployment(account: string, appName: string, name: string, newName: string)
      returns (r: Result<R.DeploymentView>, ghost renamed: Option<Error>)
      requires store.Valid()
      modifies store
      ensures Served(old(store.State()), account, appName, RenameTo(name, newName), store.State(), renamed)
      ensures renamed.Some? ==> r == Failure(renamed.value)
      ensures renamed.None? ==>
        && r.Success? && r.value.id in store.deployments && r.value == R.ViewOf(store.State(), r.value.id)
        && exists app :: Located(old(store.State()), account, appName, name, Success(Location(app, r.value.id)))
    {
      ghost var before := store.State();
      ghost var op := RenameTo(name, newName);
      var place := Locate(account, appName, name);
      if place.Failure? {
        UnlocatedServed(before, account, appName, op, place.error);
        return Failure(place.error), Some(place.error);
      }
      var target := if newName != "" then newName else name;
      var error := store.UpdateDeployment(account, place.value.app, place.value.dep, target);
      renamed := error;
      LocatedServed(before, account, appName, op, place.value, store.State(), error);
      if error.Some? {
        return Failure(error.value), renamed;
      }
      P.RenamedReadable(before, account, place.value.app, name, target);
      r := store.GetDeployment(account, place.value.app, target);
    }

    method DeleteDeployment(account: string, appName: string, name: string) returns (error: Option<Error>)
      requires store.Valid()
      modifies store
      ensures Served(old(store.State()), account, appName, DropDeployment(name), store.State(), error)
    {
      ghost var before := store.State();
      var place := Locate(account, appName, name);
      if place.Failure? {
        UnlocatedServed(before, account, appName, DropDeployment(name), place.error);
        return Some(place.error);
      }
      error := store.DeleteDeployment(account, place.value.app, place.value.dep);
      LocatedServed(before, account, appName, DropDeployment(name), place.value, store.State(), error);
    }

    // ---------------------------------------------------------------- history

    /** Clear the packages, then the metrics under the deployment's key. If the packages could
        not be cleared the metrics are not touched. */
    method ClearHistory(account: string, appName: string, name: string)
      returns (error: Option<Error>, ghost place: Result<Location>, ghost packageError: Option<Error>)
      requires store.Valid()
      modifies store, metrics
      ensures Located(old(store.State()), account, appName, name, place)
      ensures Served(old(store.State()), account, appName, Clear(name), store.State(), packageError)
      ensures packageError.Some? ==>
        error == packageError && store.State() == old(store.State()) && metrics.keyspace == old(metrics.keyspace)
      ensures packageError.None? ==>
        && place.Success? && place.value.dep in store.deployments
        && Cleared(old(store.State()), store.State(), place.value.dep)
        && (error.None? ==>
            metrics.keyspace == KeyCleared(old(metrics.keyspace), store.deployments[place.value.dep].key))
        && (error.Some? ==> metrics.keyspace == old(metrics.keyspace))
        && (Typed(old(metrics.keyspace), store.deployments[place.value.dep].key) ==> error.None?)
      ensures packageError.None? ==>
        forall log :: old(metrics.keyspace) == L.Run(log) && L.Apart(log, store.deployments[place.value.dep].key) ==>
          StartedOver(store.State(), place.value.dep, metrics.keyspace, store.deployments[place.value.dep].key)
    {
      ghost var before := store.State();
      var found := Locate(account, appName, name);
      place := found;
      if found.Failure? {
        UnlocatedServed(before, account, appName, Clear(name), found.error);
        error, packageError := Some(found.error), Some(found.error);
        return;
      }
      var key := store.deployments[found.value.dep].key;
      error := store.ClearHistory(account, found.value.app, found.value.dep);
      packageError := error;
      ClearedBy(before, account, found.value.app, found.value.dep);
      LocatedServed(before, account, appName, Clear(name), found.value, store.State(), error);
      if error.Some? {
        return;
      }
      ghost var ks := metrics.keyspace;
      var ok := metrics.Clear(key);
      if !ok {
        error := Some(Internal);
      }
      forall log | ks == L.Run(log) && L.Apart(log, key)
        ensures StartedOver(store.State(), found.value.dep, metrics.keyspace, key)
      {
        ClearedInLog(before, store.State(), found.value.dep, log, key, key);
      }
    }

    /** Roll back to the entry before the newest, or to the label given. */
    method Rollback(account: string, appName: string, name: string, targetLabel: string, now: int, id: string)
      returns (r: Result<Package>)
      requires store.Valid()
      modifies store
      ensures Served(old(store.State()), account, appName, RollBack(name, targetLabel, now, id), store.State(),
                     ErrorOf(r))
      ensures r.Success? ==>
        exists dep :: T.HistoryOf(store.State(), dep) == T.HistoryOf(old(store.State()), dep) + [r.value]
    {
      ghost var before := store.State();
      ghost var op := RollBack(name, targetLabel, now, id);
      var place := Locate(account, appName, name);
      if place.Failure? {
        UnlocatedServed(before, account, appName, op, place.error);
        return Failure(place.error);
      }
      var history := T.HistoryOf(store.State(), place.value.dep);
      var target := FindTarget(history, targetLabel);
      if target.Failure? {
        LocatedServed(before, account, appName, op, place.value, before, Some(target.error));
        return Failure(target.error);
      }
      var latest := history[|history| - 1];
      if latest.payload.appVersion != target.value.payload.appVersion {
        LocatedServed(before, account, appName, op, place.value, before, Some(Conflict));
        return Failure(Conflict);
      }
      var clone := target.value.(id := "", releaseMethod := RELEASE_ROLLBACK);
      clone := clone.(originalDeployment := name, originalLabel := target.value.tag, uploadTime := now);
      r := store.CommitRollback(account, place.value.app, place.value.dep, clone, id);
      LocatedServed(before, account, appName, op, place.value, store.State(), ErrorOf(r));
      CommitAppended(before, account, place.value.app, place.value.dep, clone, id);
    }

    /** The choice of target: the entry before the newest, or the first with the label. */
    method FindTarget(history: History, targetLabel: string) returns (target: Result<Package>)
      ensures target == RollbackTarget(history, targetLabel)
    {
      if |history| == 0 {
        return Failure(NotFound);
      }
      if targetLabel == "" {
        if |history| < 2 {
          return Failure(NotFound);
        }
        return Success(history[|history| - 2]);
      }
      for i := 0 to |history|
        invariant forall j | 0 <= j < i :: history[j].tag != targetLabel
      {
        if history[i].tag == targetLabel {
          return Success(history[i]);
        }
      }
      return Failure(NotFound);
    }

    /** What a client asking with a deployment key is offered. */
    method CheckForUpdate(o: U.Oracle, key: string, q: U.Query) returns (r: Result<U.Offer>)
      requires store.Valid()
      ensures r.Failure? ==> r.error == NotFound && forall d <- store.deployments :: store.deployments[d].key != key
      ensures r.Success? ==> exists d :: HasKey(store.State(), d, key)
      ensures r.Success? ==>
        forall d :: HasKey(store.State(), d, key) ==> r.value == U.Answer(o, T.HistoryOf(store.State(), d), q)
    {
      var found := store.GetByKey(key);
      if found.Failure? {
        return Failure(found.error);
      }
      var offer := U.CheckHistory(o, T.HistoryOf(store.State(), found.value.id), q);
      T.KeyUnique(store.State(), found.value.id);
      assert HasKey(store.State(), found.value.id, key);
      return Success(offer);
    }
  }

  lemma CommitAppended(db: T.Db, account: string, app: string, dep: string, p: Package, id: string)
    requires T.Integrity(db)
    ensures var r := T.CommitPackage(db, account, app, dep, p, id);
      var h := T.HistoryOf(db, dep);
      r.error.None? ==> Commit(h, p, id).Success? && T.HistoryOf(r.db, dep) == h + [Commit(h, p, id).value.package]
  {
    assert WellKept(T.HistoryOf(db, dep));
    CommitExact(T.HistoryOf(db, dep), p, id);
  }

  predicate HasKey(db: T.Db, d: string, key: string) {
    d in db.deployments && db.deployments[d].key == key
  }

  /** The deployment's history is empty and nothing else has changed. */
  ghost predicate Cleared(before: T.Db, after: T.Db, dep: string) {
    && after == before.(packages := after.packages)
    && T.HistoryOf(after, dep) == []
    && forall d | d != dep :: T.HistoryOf(after, d) == T.HistoryOf(before, d)
  }

  lemma ClearedBy(db: T.Db, account: string, app: string, dep: string)
    ensures var r := T.ClearHistory(db, account, app, dep);
      if r.error.None? then Cleared(db, r.db, dep) else r.db == db
  {
  }

  /** Both stores are as for a new deployment: no metrics under its key, and a first commit next. */
  ghost predicate StartedOver(db: T.Db, dep: string, ks: K.Keyspace, key: string) {
    && NextOrdinal(T.HistoryOf(db, dep)) == Success(1)
    && Snapshot(ks, key) == map[]
    && forall l, f :: Counter(ks, key, l, f) == 0
  }

  function KeyCleared(ks: K.Keyspace, key: string): K.Keyspace {
    AfterClear(ks, key, Labels(ks, key))
  }

  /** After a clear both stores start over for the deployment: no metrics under its key and the
      next commit numbered 1, with the metrics of every separated deployment as they were. */
  lemma ClearedStartsOver(before: T.Db, after: T.Db, dep: string, ks: K.Keyspace, key: string, other: string)
    requires Cleared(before, after, dep) && Typed(ks, key) && Indexed(ks, key)
    ensures StartedOver(after, dep, KeyCleared(ks, key), key)
    ensures Separated(other, key) ==> Snapshot(KeyCleared(ks, key), other) == Snapshot(ks, other)
  {
    L.ClearedReadings(ks, key);
    if Separated(other, key) {
      forall k | Owns(other, k) ensures K.SameAt(KeyCleared(ks, key), ks, k) {
        OtherDeploymentsUntouched(ks, other, k, StatusReport(key, "", "", "", ""), "", "", Labels(ks, key));
      }
      SnapshotFrame(ks, KeyCleared(ks, key), other);
    }
  }

  /** In every state the store can be in, then, clearing the key is one more event of the log, and
      both stores start over. */
  lemma ClearedInLog(before: T.Db, after: T.Db, dep: string, log: seq<L.Event>, key: string, other: string)
    requires Cleared(before, after, dep) && L.Apart(log, key)
    ensures Typed(L.Run(log), key)
    ensures var ks := L.Run(log + [L.Clear(key)]);
      && KeyCleared(L.Run(log), key) == ks
      && StartedOver(after, dep, ks, key)
      && (Separated(other, key) ==> Snapshot(ks, other) == Snapshot(L.Run(log), other))
  {
    ClearIsLogged(log, key);
    ClearedStartsOver(before, after, dep, L.Run(log), key, other);
  }

  lemma ClearIsLogged(log: seq<L.Event>, key: string)
    requires L.Apart(log, key)
    ensures Typed(L.Run(log), key) && Indexed(L.Run(log), key)
    ensures KeyCleared(L.Run(log), key) == L.Run(log + [L.Clear(key)])
  {
    L.LabelIndexComplete(log, key);
    assert (log + [L.Clear(key)])[..|log + [L.Clear(key)]| - 1] == log;
  }

  lemma SnapshotFrame(ks: K.Keyspace, after: K.Keyspace, d: string)
    requires forall k :: Owns(d, k) ==> K.SameAt(after, ks, k)
    ensures Snapshot(after, d) == Snapshot(ks, d)
  {
    assert Owns(d, LabelsKey(d));
    forall l ensures MetricsAt(after, d, l) == MetricsAt(ks, d, l) {
      assert Owns(d, CountersKey(d, l)) && Owns(d, ActiveSetKey(d, l));
    }
  }

  lemma OneKey(db: T.Db, account: string, app: string, name: string, attempt: KeyAttempt, now: int)
    ensures TryKeys(db, account, app, name, [attempt], now)
            == T.CreateDeployment(db, account, app, name, attempt.key, now, attempt.id)
  {
    assert [attempt][1..] == [];
  }
}

/** Management requests as the service serves them, one at a time, and what every run of them keeps. */
module Requests {
  import opened Common
  import opened Packages
  import opened Tables

  /** One try at creating a deployment: the key to use, and the row id the database would assign. */
  datatype KeyAttempt = KeyAttempt(key: string, id: string)

  /** What a request does to the app it names. Times, row ids and random keys are inputs. */
  datatype Op =
    | Rename(newName: string)
    | Delete
    | Transfer(email: string)
    | Add(email: string)
    | Remove(email: string)
    | NewDeployment(name: string, attempts: seq<KeyAttempt>, now: int)
    | RenameTo(dep: string, newName: string)
    | DropDeployment(dep: string)
    | Clear(dep: string)
    | RollBack(dep: string, target: string, now: int, id: string)

  /** Create with one key after another until the answer is not a conflict. */
  function TryKeys(db: Db, account: string, app: string, name: string, attempts: seq<KeyAttempt>, now: int): Outcome
    decreases |attempts|
  {
    if attempts == [] then Outcome(db, Some(Conflict))
    else
      var r := CreateDeployment(db, account, app, name, attempts[0].key, now, attempts[0].id);
      if r.error == Some(Conflict) then TryKeys(db, account, app, name, attempts[1..], now) else r
  }

  /** A request on an app that has already been resolved. */
  ghost function Perform(db: Db, account: string, app: string, op: Op): Outcome {
    match op
    case Rename(name) =>
      RenameApp(db, account, app, if name == "" && app in db.apps then db.apps[app].name else name)
    case Delete => DeleteApp(db, account, app)
    case Transfer(email) => TransferApp(db, account, app, email)
    case Add(email) => AddCollaborator(db, account, app, email)
    case Remove(email) => RemoveCollaborator(db, account, app, email)
    case NewDeployment(name, attempts, now) => TryKeys(db, account, app, name, attempts, now)
    case RenameTo(_, _) => OnDeployment(db, account, app, op.dep, op)
    case DropDeployment(_) => OnDeployment(db, account, app, op.dep, op)
    case Clear(_) => OnDeployment(db, account, app, op.dep, op)
    case RollBack(_, _, _, _) => OnDeployment(db, account, app, op.dep, op)
  }

  /** The deployment name is resolved inside the app before anything is written. */
  ghost function OnDeployment(db: Db, account: string, app: string, name: string, op: Op): Outcome
    requires op.RenameTo? || op.DropDeployment? || op.Clear? || op.RollBack?
  {
    var denied := Denied(db, account, app, Collaborator);
    var dep := DeploymentByName(db, app, name);
    if denied.Some? then Outcome(db, denied)
    else if dep.None? then Outcome(db, Some(NotFound))
    else AtDeployment(db, account, app, dep.value, name, op)
  }

  ghost function AtDeployment(db: Db, account: string, app: string, dep: string, name: string, op: Op): Outcome
    requires op.RenameTo? || op.DropDeployment? || op.Clear? || op.RollBack?
  {
    match op
    case RenameTo(_, newName) => RenameDeployment(db, account, app, dep, if newName == "" then name else newName)
    case DropDeployment(_) => DeleteDeployment(db, account, app, dep)
    case Clear(_) => ClearHistory(db, account, app, dep)
    case RollBack(_, target, now, id) => RollbackOn(db, account, app, dep, name, target, now, id)
  }

  function RollbackOn(db: Db, account: string, app: string, dep: string, name: string, target: string, now: int,
                      id: string): Outcome {
    var h := HistoryOf(db, dep);
    match RollbackTarget(h, target)
    case Failure(e) => Outcome(db, Some(e))
    case Success(t) =>
      if h[|h| - 1].payload.appVersion != t.payload.appVersion then Outcome(db, Some(Conflict))
      else CommitPackage(db, account, app, dep, RollbackClone(t, name, now), id)
  }

  /** Creating an app, with its two default deployments unless the caller provisions its own. */
  function CreateWithDefaults(db: Db, account: string, name: string, manual: bool, now: int, newId: string,
                              production: seq<KeyAttempt>, staging: seq<KeyAttempt>): Outcome {
    var created := CreateApp(db, account, name, now, newId);
    if created.error.Some? || manual then created
    else
      var first := TryKeys(created.db, account, newId, "Production", production, now);
      if first.error.Some? then first
      else TryKeys(first.db, account, newId, "Staging", staging, now)
  }

  datatype Call =
    | Create(account: string, name: string, manual: bool, now: int, newId: string,
             production: seq<KeyAttempt>, staging: seq<KeyAttempt>)
    | OnApp(account: string, app: string, op: Op)

  ghost function Serve(db: Db, c: Call): Outcome {
    match c
    case Create(account, name, manual, now, newId, production, staging) =>
      CreateWithDefaults(db, account, name, manual, now, newId, production, staging)
    case OnApp(account, app, op) => Perform(db, account, app, op)
  }

  /** Any sequence of requests. */
  ghost function ServeAll(db: Db, calls: seq<Call>): Db
    decreases |calls|
  {
    if calls == [] then db else ServeAll(Serve(db, calls[0]).db, calls[1..])
  }

  // ------------------------------------------------------------------ integrity

  lemma {:induction false} CommitKeepsIntegrity(db: Db, account: string, app: string, dep: string, p: Package,
                                                id: string)
    requires Integrity(db)
    ensures Integrity(CommitPackage(db, account, app, dep, p, id).db)
  {
    assert WellKept(HistoryOf(db, dep));
    CommitExact(HistoryOf(db, dep), p, id);
  }

  lemma {:induction false} TryKeysKeepsIntegrity(db: Db, account: string, app: string, name: string,
                                                 attempts: seq<KeyAttempt>, now: int)
    requires Integrity(db)
    ensures Integrity(TryKeys(db, account, app, name, attempts, now).db)
    decreases |attempts|
  {
    if attempts != [] {
      CreateDeploymentKeepsIntegrity(db, account, app, name, attempts[0].key, now, attempts[0].id);
      TryKeysKeepsIntegrity(db, account, app, name, attempts[1..], now);
    }
  }

  lemma CreateDeploymentKeepsIntegrity(db: Db, account: string, app: string, name: string, key: string, now: int,
                                       newId: string)
    requires Integrity(db)
    ensures Integrity(CreateDeployment(db, account, app, name, key, now, newId).db)
  {
  }

  lemma OnDeploymentKeepsIntegrity(db: Db, account: string, app: string, name: string, op: Op)
    requires Integrity(db)
    requires op.RenameTo? || op.DropDeployment? || op.Clear? || op.RollBack?
    ensures Integrity(OnDeployment(db, account, app, name, op).db)
  {
    if op.RollBack? {
      var dep := DeploymentByName(db, app, name);
      if dep.Some? && RollbackTarget(HistoryOf(db, dep.value), op.target).Success? {
        CommitKeepsIntegrity(db, account, app, dep.value,
          RollbackClone(RollbackTarget(HistoryOf(db, dep.value), op.target).value, name, op.now), op.id);
      }
    } else if op.RenameTo? {
      var dep := DeploymentByName(db, app, name);
      if dep.Some? {
        RenameDeploymentKeepsIntegrity(db, account, app, dep.value, if op.newName == "" then name else op.newName);
      }
    }
  }

  lemma RenameDeploymentKeepsIntegrity(db: Db, account: string, app: string, dep: string, name: string)
    requires Integrity(db)
    ensures Integrity(RenameDeployment(db, account, app, dep, name).db)
  {
    var after := RenameDeployment(db, account, app, dep, name).db;
    if after != db {
      forall d | d in db.deployments && d != dep ensures !IsNamed(db, db.deployments[dep].appId, name, d) {}
    }
  }

  lemma CreateAppKeepsIntegrity(db: Db, account: string, name: string, now: int, newId: string)
    requires Integrity(db)
    ensures Integrity(CreateApp(db, account, name, now, newId).db)
  {
  }

  lemma CreateKeepsIntegrity(db: Db, account: string, name: string, manual: bool, now: int, newId: string,
                             production: seq<KeyAttempt>, staging: seq<KeyAttempt>)
    requires Integrity(db)
    ensures Integrity(CreateWithDefaults(db, account, name, manual, now, newId, production, staging).db)
  {
    CreateAppKeepsIntegrity(db, account, name, now, newId);
    var created := CreateApp(db, account, name, now, newId).db;
    TryKeysKeepsIntegrity(created, account, newId, "Production", production, now);
    var first := TryKeys(created, account, newId, "Production", production, now).db;
    TryKeysKeepsIntegrity(first, account, newId, "Staging", staging, now);
  }

  lemma RenameAppKeepsIntegrity(db: Db, account: string, app: string, name: string)
    requires Integrity(db)
    ensures Integrity(RenameApp(db, account, app, name).db)
  {
  }

  lemma DeleteAppKeepsIntegrity(db: Db, account: string, app: string)
    requires Integrity(db)
    ensures Integrity(DeleteApp(db, account, app).db)
  {
  }

  lemma TransferAppKeepsIntegrity(db: Db, account: string, app: string, email: string)
    requires Integrity(db)
    ensures Integrity(TransferApp(db, account, app, email).db)
  {
  }

  lemma AddCollaboratorKeepsIntegrity(db: Db, account: string, app: string, email: string)
    requires Integrity(db)
    ensures Integrity(AddCollaborator(db, account, app, email).db)
  {
  }

  lemma RemoveCollaboratorKeepsIntegrity(db: Db, account: string, app: string, email: string)
    requires Integrity(db)
    ensures Integrity(RemoveCollaborator(db, account, app, email).db)
  {
  }

  /** The schema's keys and references hold after every request. */
  lemma {:induction false} ServeKeepsIntegrity(db: Db, c: Call)
    requires Integrity(db)
    ensures Integrity(Serve(db, c).db)
  {
    match c
    case Create(account, name, manual, now, newId, production, staging) =>
      CreateKeepsIntegrity(db, account, name, manual, now, newId, production, staging);
    case OnApp(account, app, op) => PerformKeepsIntegrity(db, account, app, op);
  }

  lemma PerformKeepsIntegrity(db: Db, account: string, app: string, op: Op)
    requires Integrity(db)
    ensures Integrity(Perform(db, account, app, op).db)
  {
    match op
    case Rename(name) =>
      RenameAppKeepsIntegrity(db, account, app, if name == "" && app in db.apps then db.apps[app].name else name);
    case Delete => DeleteAppKeepsIntegrity(db, account, app);
    case Transfer(email) => TransferAppKeepsIntegrity(db, account, app, email);
    case Add(email) => AddCollaboratorKeepsIntegrity(db, account, app, email);
    case Remove(email) => RemoveCollaboratorKeepsIntegrity(db, account, app, email);
    case NewDeployment(name, attempts, now) => TryKeysKeepsIntegrity(db, account, app, name, attempts, now);
    case RenameTo(dep, _) => OnDeploymentKeepsIntegrity(db, account, app, dep, op);
    case DropDeployment(dep) => OnDeploymentKeepsIntegrity(db, account, app, dep, op);
    case Clear(dep) => OnDeploymentKeepsIntegrity(db, account, app, dep, op);
    case RollBack(dep, _, _, _) => OnDeploymentKeepsIntegrity(db, account, app, dep, op);
  }

  /** So they hold after every run of requests. */
  lemma {:induction false} RunKeepsIntegrity(db: Db, calls: seq<Call>)
    requires Integrity(db)
    ensures Integrity(ServeAll(db, calls))
    decreases |calls|
  {
    if calls != [] {
      ServeKeepsIntegrity(db, calls[0]);
      RunKeepsIntegrity(Serve(db, calls[0]).db, calls[1..]);
    }
  }

  // ------------------------------------------------------------------ short runs

  function NewApp(account: string, name: string, now: int, newId: string): Call {
    Create(account, name, true, now, newId, [], [])
  }

  lemma ServeTwo(db: Db, c: Call, d: Call)
    ensures ServeAll(db, [c, d]) == Serve(Serve(db, c).db, d).db
  {
    assert [c, d][1..] == [d] && [d][1..] == [];
    assert ServeAll(Serve(db, c).db, [d]) == ServeAll(Serve(Serve(db, c).db, d).db, []);
  }

  lemma ServeThree(db: Db, c: Call, d: Call, e: Call)
    ensures ServeAll(db, [c, d, e]) == Serve(Serve(Serve(db, c).db, d).db, e).db
  {
    assert [c, d, e][1..] == [d, e];
    ServeTwo(Serve(db, c).db, d, e);
  }

  // Creating an app without deployments where nothing stands in the way.
  lemma CreatedNew(db: Db, account: string, name: string, now: int, newId: string)
    requires Integrity(db) && account in db.accounts && newId !in db.apps && !NameTaken(db, account, name, None)
    ensures var after := Serve(db, NewApp(account, name, now, newId)).db;
      && Integrity(after)
      && after == db.(apps := db.apps[newId := App(name, now)],
                      collaborators := db.collaborators[(newId, account) := Owner])
  {
    ServeKeepsIntegrity(db, NewApp(account, name, now, newId));
  }
}

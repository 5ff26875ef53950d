/** How many owners an app has, over every run of requests. */
module Ownership {
  import opened Common
  import opened Tables
  import opened Requests

  ghost predicate AtMostOneOwner(db: Db, app: string) {
    forall a, b | IsOwner(db, app, a) && IsOwner(db, app, b) :: a == b
  }

  ghost predicate Ownerless(db: Db, app: string) {
    forall a :: !IsOwner(db, app, a)
  }

  ghost predicate ExactlyOneOwner(db: Db, app: string) {
    AtMostOneOwner(db, app) && !Ownerless(db, app)
  }

  function Members(db: Db, app: string): set<string> {
    set k | k in db.collaborators && k.0 == app :: k.1
  }

  /** The owner of an app adds their own email as a collaborator. */
  ghost predicate AddsSelf(db: Db, c: Call, app: string) {
    c.OnApp? && c.app == app && c.op.Add? && IsOwner(db, app, c.account)
    && AccountByEmail(db, c.op.email) == Some(c.account)
  }

  ghost predicate SameCollaborators(before: Db, after: Db, app: string) {
    forall a ::
      && (IsMember(after, app, a) <==> IsMember(before, app, a))
      && (IsOwner(after, app, a) <==> IsOwner(before, app, a))
  }

  lemma {:induction false} TryKeysCollaborators(db: Db, account: string, app: string, name: string,
                                                attempts: seq<KeyAttempt>, now: int)
    ensures TryKeys(db, account, app, name, attempts, now).db.collaborators == db.collaborators
    ensures TryKeys(db, account, app, name, attempts, now).db.apps == db.apps
    decreases |attempts|
  {
    if attempts != [] { TryKeysCollaborators(db, account, app, name, attempts[1..], now); }
  }

  /** An account's standing on an app. */
  function RoleOf(db: Db, app: string, account: string): Option<Permission> {
    if IsMember(db, app, account) then Some(db.collaborators[(app, account)]) else None
  }

  /** Who holds which role after a collaborator request, and when the request succeeds. */
  lemma RolesAfter(db: Db, account: string, app: string, email: string, target: string)
    requires Integrity(db) && HasEmail(db, target, email)
    ensures var r := TransferApp(db, account, app, email);
      && r.db == db.(collaborators := r.db.collaborators)
      && (r.error.None? <==> RoleOf(db, app, account) == Some(Owner))
      && (r.error.None? ==> RoleOf(r.db, app, target) == Some(Owner))
      && (r.error.None? && account != target ==> RoleOf(r.db, app, account) == Some(Collaborator))
      && (r.error.None? ==> forall a | a != target && a != account :: RoleOf(r.db, app, a) == RoleOf(db, app, a))
    ensures var r := AddCollaborator(db, account, app, email);
      && r.db == db.(collaborators := r.db.collaborators)
      && (r.error.None? <==> RoleOf(db, app, account) == Some(Owner))
      && (r.error.None? ==>
          forall a :: RoleOf(r.db, app, a) == if a == target then Some(Collaborator) else RoleOf(db, app, a))
    ensures var r := RemoveCollaborator(db, account, app, email);
      && r.db == db.(collaborators := r.db.collaborators)
      && (r.error.None? <==> (RoleOf(db, app, target).Some?
                              && RoleOf(db, app, account) == Some(if target == account then Collaborator else Owner)))
      && (r.error.None? ==> forall a :: RoleOf(r.db, app, a) == if a == target then None else RoleOf(db, app, a))
  {
    EmailUnique(db, email, target);
  }

  // Creating deployments adds nothing to the tables an app creation wrote.
  lemma CreateTables(db: Db, c: Call)
    requires c.Create?
    ensures var created := CreateApp(db, c.account, c.name, c.now, c.newId).db;
      Serve(db, c).db.collaborators == created.collaborators && Serve(db, c).db.apps == created.apps
  {
    var created := CreateApp(db, c.account, c.name, c.now, c.newId).db;
    TryKeysCollaborators(created, c.account, c.newId, "Production", c.production, c.now);
    var first := TryKeys(created, c.account, c.newId, "Production", c.production, c.now).db;
    TryKeysCollaborators(first, c.account, c.newId, "Staging", c.staging, c.now);
  }

  predicate OnDeployments(op: Op) {
    op.NewDeployment? || op.RenameTo? || op.DropDeployment? || op.Clear? || op.RollBack?
  }

  lemma DeploymentTables(db: Db, account: string, app: string, op: Op)
    requires OnDeployments(op)
    ensures Perform(db, account, app, op).db.collaborators == db.collaborators
    ensures Perform(db, account, app, op).db.apps == db.apps
  {
    if op.NewDeployment? { TryKeysCollaborators(db, account, app, op.name, op.attempts, op.now); }
  }

  // Requests that do not touch the collaborators of an existing app at all.
  predicate LeavesCollaborators(c: Call, app: string) {
    c.Create? || c.app != app || c.op.Rename? || OnDeployments(c.op)
  }

  lemma OtherRequests(db: Db, c: Call, app: string)
    requires Integrity(db) && app in db.apps && LeavesCollaborators(c, app)
    ensures SameCollaborators(db, Serve(db, c).db, app) && app in Serve(db, c).db.apps
  {
    if c.Create? {
      CreateTables(db, c);
    } else if OnDeployments(c.op) {
      DeploymentTables(db, c.account, c.app, c.op);
    } else {
      OtherApps(db, c.account, c.app, c.op, app);
    }
  }

  lemma OtherApps(db: Db, account: string, on: string, op: Op, app: string)
    requires app in db.apps && !OnDeployments(op) && (on != app || op.Rename?)
    ensures SameCollaborators(db, Perform(db, account, on, op).db, app) && app in Perform(db, account, on, op).db.apps
  {
  }

  lemma TransferOwners(db: Db, account: string, app: string, email: string, after: Db)
    requires AtMostOneOwner(db, app) && after == TransferApp(db, account, app, email).db
    ensures AtMostOneOwner(after, app)
    ensures ExactlyOneOwner(db, app) ==> ExactlyOneOwner(after, app)
    ensures Ownerless(db, app) ==> after == db
  {
    var target := AccountByEmail(db, email);
    if after != db {
      assert IsOwner(db, app, account) && IsOwner(after, app, target.value);
      forall a | a != target.value ensures !IsOwner(after, app, a) { assert a != account ==> !IsOwner(db, app, a); }
    }
  }

  lemma AddOwners(db: Db, account: string, app: string, email: string, after: Db)
    requires AtMostOneOwner(db, app) && after == AddCollaborator(db, account, app, email).db
    ensures AtMostOneOwner(after, app)
    ensures IsOwner(db, app, account) && AccountByEmail(db, email) == Some(account) ==> Ownerless(after, app)
    ensures ExactlyOneOwner(db, app) && !(IsOwner(db, app, account) && AccountByEmail(db, email) == Some(account))
            ==> ExactlyOneOwner(after, app)
    ensures Ownerless(db, app) ==> after == db
  {
    var target := AccountByEmail(db, email);
    if Denied(db, account, app, Owner).None? && target.Some? {
      assert IsOwner(db, app, account);
      forall a ensures IsOwner(after, app, a) <==> IsOwner(db, app, a) && a != target.value {}
    }
  }

  lemma RemoveOwners(db: Db, account: string, app: string, email: string, after: Db)
    requires AtMostOneOwner(db, app) && after == RemoveCollaborator(db, account, app, email).db
    ensures AtMostOneOwner(after, app)
    ensures ExactlyOneOwner(db, app) ==> ExactlyOneOwner(after, app)
    ensures Ownerless(db, app) ==> Ownerless(after, app)
    ensures Members(after, app) <= Members(db, app)
  {
    forall a ensures IsOwner(after, app, a) <==> IsOwner(db, app, a) {
      if after != db {
        var target := AccountByEmail(db, email).value;
        assert IsOwner(db, app, target) ==> target != account && IsOwner(db, app, account);
      }
    }
  }

  /** Every request keeps each existing app at most one owner. An app with exactly one keeps
      exactly one, as long as it exists, unless the request is its owner adding their own email,
      which leaves it without any. */
  lemma OwnerKeptIff(db: Db, c: Call, app: string)
    requires Integrity(db) && app in db.apps && AtMostOneOwner(db, app)
    ensures AtMostOneOwner(Serve(db, c).db, app)
    ensures ExactlyOneOwner(db, app) && app in Serve(db, c).db.apps ==>
      (ExactlyOneOwner(Serve(db, c).db, app) <==> !AddsSelf(db, c, app))
  {
    if LeavesCollaborators(c, app) {
      OtherRequests(db, c, app);
    } else {
      match c.op
      case Transfer(email) => TransferOwners(db, c.account, app, email, Serve(db, c).db);
      case Add(email) => AddOwners(db, c.account, app, email, Serve(db, c).db);
      case Remove(email) => RemoveOwners(db, c.account, app, email, Serve(db, c).db);
      case Delete =>
        forall a ensures IsOwner(Serve(db, c).db, app, a) ==> IsOwner(db, app, a) {}
    }
  }

  /** From an ownerless state no request brings an owner back or adds a member, and the app itself
      can be neither renamed nor deleted. */
  lemma OwnerlessStep(db: Db, c: Call, app: string)
    requires Integrity(db) && app in db.apps && Ownerless(db, app)
    ensures var after := Serve(db, c).db;
      && Ownerless(after, app)
      && Members(after, app) <= Members(db, app)
      && app in after.apps && after.apps[app] == db.apps[app]
  {
    var after := Serve(db, c).db;
    if LeavesCollaborators(c, app) {
      OtherRequests(db, c, app);
      MembersFollow(db, after, app);
      OwnerlessName(db, c, app);
    } else {
      assert !IsOwner(db, app, c.account);
      match c.op
      case Transfer(email) => TransferOwners(db, c.account, app, email, after);
      case Add(email) => AddOwners(db, c.account, app, email, after);
      case Remove(email) => RemoveOwners(db, c.account, app, email, after);
      case Delete => assert after == db;
    }
  }

  lemma MembersFollow(db: Db, after: Db, app: string)
    requires SameCollaborators(db, after, app)
    ensures Members(after, app) <= Members(db, app)
    ensures Ownerless(db, app) ==> Ownerless(after, app)
  {
    forall a | a in Members(after, app) ensures a in Members(db, app) {
      assert IsMember(after, app, a) && (app, a) in db.collaborators;
    }
  }

  lemma OwnerlessName(db: Db, c: Call, app: string)
    requires app in db.apps && Ownerless(db, app) && LeavesCollaborators(c, app)
    ensures app in Serve(db, c).db.apps && Serve(db, c).db.apps[app] == db.apps[app]
  {
    if c.Create? {
      CreateTables(db, c);
    } else if OnDeployments(c.op) {
      DeploymentTables(db, c.account, c.app, c.op);
    } else {
      assert !IsOwner(db, app, c.account);
    }
  }

  /** A freshly created app has exactly one owner: its creator. */
  lemma CreatedOwned(db: Db, c: Call)
    requires Integrity(db) && c.Create? && c.newId !in db.apps && c.newId in Serve(db, c).db.apps
    ensures forall a :: IsOwner(Serve(db, c).db, c.newId, a) <==> a == c.account
  {
    CreateTables(db, c);
  }

  // An app that a request brings into being.
  lemma NewAppIsCreated(db: Db, c: Call, app: string)
    requires app !in db.apps && app in Serve(db, c).db.apps
    ensures c.Create? && c.newId == app
  {
    if c.Create? {
      CreateTables(db, c);
    } else if OnDeployments(c.op) {
      DeploymentTables(db, c.account, c.app, c.op);
    }
  }

  /** No owner in the run adds their own email to their app. */
  ghost predicate NoSelfAdds(db: Db, calls: seq<Call>)
    decreases |calls|
  {
    calls == []
    || ((forall app <- db.apps :: !AddsSelf(db, calls[0], app)) && NoSelfAdds(Serve(db, calls[0]).db, calls[1..]))
  }

  /** Once an app has lost its owner it never regains one: its members only dwindle, and its row
      stays as it is through every later run. */
  lemma {:induction false} OwnerlessForever(db: Db, calls: seq<Call>, app: string)
    requires Integrity(db) && app in db.apps && Ownerless(db, app)
    ensures var after := ServeAll(db, calls);
      && Ownerless(after, app)
      && Members(after, app) <= Members(db, app)
      && app in after.apps && after.apps[app] == db.apps[app]
    decreases |calls|
  {
    if calls != [] {
      ServeKeepsIntegrity(db, calls[0]);
      OwnerlessStep(db, calls[0], app);
      OwnerlessForever(Serve(db, calls[0]).db, calls[1..], app);
    }
  }

  ghost predicate AllOwned(db: Db) {
    forall app <- db.apps :: ExactlyOneOwner(db, app)
  }

  // One request: all apps stay owned, unless an owner adds their own email.
  lemma OwnersStep(db: Db, c: Call)
    requires Integrity(db) && forall app <- db.apps :: AtMostOneOwner(db, app)
    ensures forall app <- Serve(db, c).db.apps :: AtMostOneOwner(Serve(db, c).db, app)
    ensures AllOwned(db) && (forall app <- db.apps :: !AddsSelf(db, c, app)) ==> AllOwned(Serve(db, c).db)
  {
    var after := Serve(db, c).db;
    forall app <- after.apps
      ensures AtMostOneOwner(after, app)
      ensures (app in db.apps ==> ExactlyOneOwner(db, app) && !AddsSelf(db, c, app)) ==> ExactlyOneOwner(after, app)
    {
      if app in db.apps {
        OwnerKeptIff(db, c, app);
      } else {
        NewAppIsCreated(db, c, app);
        CreatedOwned(db, c);
        assert IsOwner(after, app, c.account);
      }
    }
  }

  // An owner's adding their own email costs the app its owner for the rest of the run.
  lemma SelfAddLoses(db: Db, c: Call, rest: seq<Call>, app: string)
    requires Integrity(db) && app in db.apps && AtMostOneOwner(db, app) && AddsSelf(db, c, app)
    ensures app in ServeAll(Serve(db, c).db, rest).apps && Ownerless(ServeAll(Serve(db, c).db, rest), app)
  {
    AddOwners(db, c.account, app, c.op.email, Serve(db, c).db);
    ServeKeepsIntegrity(db, c);
    OwnerlessForever(Serve(db, c).db, rest, app);
  }

  /** In every state of every run each app has at most one owner. If each had exactly one at the
      start, each has exactly one at the end if and only if no owner ever added their own email. */
  lemma {:induction false} OwnersOverRuns(db: Db, calls: seq<Call>)
    requires Integrity(db) && forall app <- db.apps :: AtMostOneOwner(db, app)
    ensures forall app <- ServeAll(db, calls).apps :: AtMostOneOwner(ServeAll(db, calls), app)
    ensures AllOwned(db) ==> (AllOwned(ServeAll(db, calls)) <==> NoSelfAdds(db, calls))
    decreases |calls|
  {
    if calls != [] {
      ServeKeepsIntegrity(db, calls[0]);
      OwnersStep(db, calls[0]);
      OwnersOverRuns(Serve(db, calls[0]).db, calls[1..]);
      if app :| app in db.apps && AddsSelf(db, calls[0], app) {
        SelfAddLoses(db, calls[0], calls[1..], app);
      }
    }
  }

  /** It happens in two requests: any account that may create an app can do so and then add its own
      email, and is left with an app nobody owns. */
  lemma OwnEmailRun(db: Db, account: string, name: string, now: int, newId: string) returns (calls: seq<Call>)
    requires Integrity(db) && account in db.accounts && newId !in db.apps && !NameTaken(db, account, name, None)
    ensures calls == [NewApp(account, name, now, newId), OnApp(account, newId, Add(db.accounts[account]))]
    ensures var after := ServeAll(db, calls);
      newId in after.apps && Ownerless(after, newId) && Members(after, newId) == {account}
  {
    var create, add := NewApp(account, name, now, newId), OnApp(account, newId, Add(db.accounts[account]));
    calls := [create, add];
    ServeTwo(db, create, add);
    OnlyCreator(db, account, name, now, newId);
    AddsOwn(Serve(db, create).db, account, newId);
  }

  lemma OnlyCreator(db: Db, account: string, name: string, now: int, newId: string)
    requires Integrity(db) && account in db.accounts && newId !in db.apps && !NameTaken(db, account, name, None)
    ensures var created := Serve(db, NewApp(account, name, now, newId)).db;
      && Integrity(created) && created.accounts == db.accounts
      && newId in created.apps && IsOwner(created, newId, account)
      && forall k <- created.collaborators :: k.0 == newId ==> k.1 == account
  {
    CreatedNew(db, account, name, now, newId);
  }

  lemma AddsOwn(db: Db, account: string, app: string)
    requires Integrity(db) && account in db.accounts && app in db.apps && IsOwner(db, app, account)
    requires forall k <- db.collaborators :: k.0 == app ==> k.1 == account
    ensures var after := AddCollaborator(db, account, app, db.accounts[account]).db;
      app in after.apps && Ownerless(after, app) && Members(after, app) == {account}
  {
    EmailUnique(db, db.accounts[account], account);
    var after := AddCollaborator(db, account, app, db.accounts[account]).db;
    assert (app, account) in after.collaborators;
  }
}

/** The repository object: the statements of the tables module run step by step over mutable
    tables, with the loops that read rows in whatever order the database yields them. */
module Repository {
  import opened Common
  import opened Decimal
  import opened Packages
  import T = Tables
  import opened Resolution

  datatype Properties = Properties(isCurrentAccount: bool, permission: T.Permission)

  /** An app with its deployments' names and its collaborators by email, as one account sees it. */
  datatype AppView = AppView(
    id: string, app: T.App, deployments: seq<string>, collaborators: map<string, Properties>)

  /** A deployment with its current package. */
  datatype DeploymentView = DeploymentView(id: string, deployment: T.Deployment, package: Option<Package>)

  /** A row of the collaborators joined with the accounts. */
  ghost predicate JoinedMember(db: T.Db, app: string, account: string, email: string) {
    (app, account) in db.collaborators && T.HasEmail(db, account, email)
  }

  function PropertiesOf(db: T.Db, viewer: string, app: string, account: string): Properties
    requires (app, account) in db.collaborators
  {
    Properties(account == viewer, db.collaborators[(app, account)])
  }

  /** The collaborator map of one app as one account sees it. */
  ghost predicate IsCollaboratorMap(db: T.Db, viewer: string, app: string, m: map<string, Properties>) {
    && (forall e :: e in m ==> exists a :: JoinedMember(db, app, a, e))
    && (forall a, e :: JoinedMember(db, app, a, e) ==> e in m && m[e] == PropertiesOf(db, viewer, app, a))
  }

  /** The database's collation. */
  ghost predicate TotalOrder(leq: (string, string) -> bool) {
    && (forall a, b :: leq(a, b) || leq(b, a))
    && (forall a, b :: leq(a, b) && leq(b, a) ==> a == b)
    && (forall a, b, c :: leq(a, b) && leq(b, c) ==> leq(a, c))
  }

  ghost predicate Ascending(leq: (string, string) -> bool, names: seq<string>) {
    forall i, j | 0 <= i < j < |names| :: leq(names[i], names[j]) && names[i] != names[j]
  }

  ghost predicate HasDeployment(db: T.Db, app: string, name: string) {
    exists d :: T.IsNamed(db, app, name, d)
  }

  /** What listing one app's deployments in name order gives. */
  ghost predicate IsNameList(db: T.Db, leq: (string, string) -> bool, app: string, names: seq<string>) {
    && Ascending(leq, names)
    && forall n :: n in names <==> HasDeployment(db, app, n)
  }

  ghost predicate IsView(db: T.Db, leq: (string, string) -> bool, viewer: string, v: AppView) {
    && v.id in db.apps && v.app == db.apps[v.id]
    && IsNameList(db, leq, v.id, v.deployments)
    && IsCollaboratorMap(db, viewer, v.id, v.collaborators)
  }

  function ViewOf(db: T.Db, dep: string): DeploymentView
    requires dep in db.deployments
  {
    DeploymentView(dep, db.deployments[dep], CurrentPackage(T.HistoryOf(db, dep)))
  }

  function IdOf(r: Result<AppView>): Result<string> {
    match r
    case Success(v) => Success(v.id)
    case Failure(e) => Failure(e)
  }

  function Ids(views: seq<AppView>): seq<string> {
    seq(|views|, i requires 0 <= i < |views| => views[i].id)
  }

  /** The rows of a set, in some order. */
  method Enumerate(s: set<string>) returns (rows: seq<string>)
    ensures forall x :: x in rows <==> x in s
    ensures forall i, j | 0 <= i < j < |rows| :: rows[i] != rows[j]
  {
    rows := [];
    var todo := s;
    while todo != {}
      invariant todo <= s
      invariant forall x :: x in rows <==> x in s - todo
      invariant forall i, j | 0 <= i < j < |rows| :: rows[i] != rows[j]
    {
      var x :| x in todo;
      assert x !in rows;
      rows, todo := rows + [x], todo - {x};
    }
  }

  lemma {:induction false} LeastExists(leq: (string, string) -> bool, names: set<string>) returns (least: string)
    requires TotalOrder(leq) && names != {}
    ensures least in names && forall n <- names :: leq(least, n)
  {
    least :| least in names;
    if names != {least} {
      var other := LeastExists(leq, names - {least});
      if leq(other, least) { least := other; }
    }
  }

  /** The views collected from some rows: of each app among them that the name may mean, once. */
  ghost predicate AreCandidates(db: T.Db, leq: (string, string) -> bool, viewer: string, appName: string,
                                rows: seq<string>, candidates: seq<AppView>) {
    && (forall a :: a in Ids(candidates) <==> a in rows && Candidate(db, viewer, appName, a))
    && (forall j, k | 0 <= j < k < |candidates| :: candidates[j].id != candidates[k].id)
    && (forall v <- candidates :: IsView(db, leq, viewer, v))
  }

  // The owner filter, read off the collaborator map.
  lemma CandidateByMap(db: T.Db, viewer: string, appName: string, app: string, m: map<string, Properties>)
    requires T.Integrity(db) && IsCollaboratorMap(db, viewer, app, m)
    requires app in db.apps && T.IsMember(db, app, viewer) && db.apps[app].name == Split(appName).name
    ensures var owner := Split(appName).owner;
      Candidate(db, viewer, appName, app) <==> owner == "" || (owner in m && m[owner].permission == T.Owner)
  {
    OwnerInMap(db, viewer, app, m, Split(appName).owner);
  }

  lemma CandidateSkipped(db: T.Db, leq: (string, string) -> bool, viewer: string, appName: string,
                         rows: seq<string>, candidates: seq<AppView>, app: string)
    requires AreCandidates(db, leq, viewer, appName, rows, candidates) && !Candidate(db, viewer, appName, app)
    ensures AreCandidates(db, leq, viewer, appName, rows + [app], candidates)
  {
  }

  lemma CandidateAdded(db: T.Db, leq: (string, string) -> bool, viewer: string, appName: string,
                       rows: seq<string>, candidates: seq<AppView>, v: AppView)
    requires AreCandidates(db, leq, viewer, appName, rows, candidates)
    requires v.id !in rows && Candidate(db, viewer, appName, v.id) && IsView(db, leq, viewer, v)
    ensures AreCandidates(db, leq, viewer, appName, rows + [v.id], candidates + [v])
  {
    assert Ids(candidates + [v]) == Ids(candidates) + [v.id];
    assert forall j | 0 <= j < |candidates| :: candidates[j].id == Ids(candidates)[j];
  }

  class Store {
    const leq: (string, string) -> bool
    var accounts: map<string, string>
    var apps: map<string, T.App>
    var collaborators: map<(string, string), T.Permission>
    var deployments: map<string, T.Deployment>
    var packages: map<string, History>

    function State(): T.Db
      reads this
    {
      T.Db(accounts, apps, collaborators, deployments, packages)
    }

    /** The schema holds, and ORDER BY on text has a meaning. */
    ghost predicate Valid()
      reads this
    {
      T.Integrity(State()) && TotalOrder(leq)
    }

    constructor (leq: (string, string) -> bool)
      requires TotalOrder(leq)
      ensures this.leq == leq && Valid() && State() == T.Db(map[], map[], map[], map[], map[])
    {
      this.leq := leq;
      accounts, apps, collaborators, deployments, packages := map[], map[], map[], map[], map[];
    }

    // ---------------------------------------------------------------- queries

    method GetByEmail(email: string) returns (account: Option<string>)
      requires Valid()
      ensures account == T.AccountByEmail(State(), email)
    {
      if a :| a in accounts && accounts[a] == email {
        T.EmailUnique(State(), email, a);
        return Some(a);
      }
      return None;
    }

    method ListCollaborators(viewer: string, app: string) returns (result: map<string, Properties>)
      requires Valid()
      ensures IsCollaboratorMap(State(), viewer, app, result)
    {
      var rows := Enumerate(set a | a in accounts && (app, a) in collaborators);
      result := map[];
      ghost var db := State();
      for i := 0 to |rows|
        invariant forall e :: e in result ==> exists a :: JoinedMember(db, app, a, e)
        invariant forall a, e :: a in rows[..i] && JoinedMember(db, app, a, e) ==>
          e in result && result[e] == PropertiesOf(db, viewer, app, a)
      {
        var account := rows[i];
        assert account in rows;
        assert rows[..i + 1] == rows[..i] + [account];
        assert JoinedMember(db, app, account, accounts[account]);
        assert account !in rows[..i];
        result := result[accounts[account] := Properties(account == viewer, collaborators[(app, account)])];
      }
      assert rows[..|rows|] == rows;
    }

    method MemberAppsNamed(account: string, name: string) returns (rows: seq<string>)
      ensures forall a :: a in rows <==> a in apps && (a, account) in collaborators && apps[a].name == name
      ensures forall i, j | 0 <= i < j < |rows| :: rows[i] != rows[j]
    {
      rows := Enumerate(set a | a in apps && (a, account) in collaborators && apps[a].name == name);
    }

    method IsUniqueAppName(account: string, name: string, exclude: Option<string>) returns (unique: bool)
      ensures unique <==> !T.NameTaken(State(), account, name, exclude)
      ensures unique <==>
        forall a | a in apps && (a, account) in collaborators && Some(a) != exclude :: apps[a].name != name
    {
      var rows := MemberAppsNamed(account, name);
      for i := 0 to |rows|
        invariant forall j | 0 <= j < i :: Some(rows[j]) == exclude
      {
        if Some(rows[i]) != exclude {
          assert rows[i] in rows;
          return false;
        }
      }
      return true;
    }

    /** The names of an app's deployments, in order. */
    method DeploymentNames(app: string) returns (names: seq<string>)
      requires TotalOrder(leq)
      ensures IsNameList(State(), leq, app, names)
    {
      var todo := set d | d in deployments && deployments[d].appId == app :: deployments[d].name;
      names := [];
      ghost var db := State();
      forall n ensures n in todo <==> HasDeployment(db, app, n) {
        if HasDeployment(db, app, n) {
          var d :| T.IsNamed(db, app, n, d);
          assert deployments[d].name in todo;
        } else if n in todo {
          var d :| d in deployments && deployments[d].appId == app && deployments[d].name == n;
          assert T.IsNamed(db, app, n, d);
        }
      }
      while todo != {}
        invariant forall n :: n in names || n in todo <==> HasDeployment(db, app, n)
        invariant Ascending(leq, names)
        invariant forall m, n | m in names && n in todo :: leq(m, n) && m != n
      {
        ghost var least := LeastExists(leq, todo);
        var n :| n in todo && forall m <- todo :: leq(n, m);
        forall m | m in names + [n] && m != n ensures m in names {}
        names, todo := names + [n], todo - {n};
      }
    }

    /** The apps a possibly owner-qualified name could mean, in row order. */
    method Candidates(account: string, appName: string) returns (candidates: seq<AppView>)
      requires Valid()
      ensures forall a :: a in Ids(candidates) <==> Candidate(State(), account, appName, a)
      ensures forall j, k | 0 <= j < k < |candidates| :: candidates[j].id != candidates[k].id
      ensures forall v <- candidates :: IsView(State(), leq, account, v)
    {
      var q := Split(appName);
      var rows := MemberAppsNamed(account, q.name);
      candidates := [];
      ghost var db := State();
      for i := 0 to |rows|
        invariant AreCandidates(db, leq, account, appName, rows[..i], candidates)
      {
        var app := rows[i];
        assert rows[..i + 1] == rows[..i] + [app] && app in rows && app !in rows[..i];
        var collabs := ListCollaborators(account, app);
        CandidateByMap(db, account, appName, app, collabs);
        if q.owner != "" && (q.owner !in collabs || collabs[q.owner].permission != T.Owner) {
          CandidateSkipped(db, leq, account, appName, rows[..i], candidates, app);
          continue;
        }
        var names := DeploymentNames(app);
        var view := AppView(app, apps[app], names, collabs);
        CandidateAdded(db, leq, account, appName, rows[..i], candidates, view);
        candidates := candidates + [view];
      }
      assert rows[..|rows|] == rows;
    }

    /** Resolve a name; among several candidates an owned one wins. */
    method GetByName(account: string, appName: string) returns (r: Result<AppView>)
      requires Valid()
      ensures Resolves(State(), account, appName, IdOf(r))
      ensures r.Success? ==> IsView(State(), leq, account, r.value)
    {
      var candidates := Candidates(account, appName);
      assert forall j | 0 <= j < |candidates| :: candidates[j].id == Ids(candidates)[j];
      if |candidates| == 0 {
        return Failure(NotFound);
      }
      assert Ids(candidates)[0] in Ids(candidates);
      if |candidates| == 1 {
        return Success(candidates[0]);
      }
      for i := 0 to |candidates|
        invariant forall j | 0 <= j < i :: !T.IsOwner(State(), candidates[j].id, account)
      {
        var app := candidates[i];
        assert Ids(candidates)[i] in Ids(candidates) && app in candidates;
        CallerOwns(State(), account, app.id, app.collaborators);
        if exists e <- app.collaborators ::
            app.collaborators[e].isCurrentAccount && app.collaborators[e].permission == T.Owner {
          return Success(app);
        }
      }
      assert Ids(candidates)[1] in Ids(candidates);
      return Failure(Conflict);
    }

    // ---------------------------------------------------------------- apps

    method Create(account: string, name: string, now: int, newId: string) returns (error: Option<Error>)
      modifies this
      ensures T.Outcome(State(), error) == T.CreateApp(old(State()), account, name, now, newId)
    {
      var unique := IsUniqueAppName(account, name, None);
      if !unique {
        return Some(Conflict);
      }
      if newId in apps || account !in accounts {
        return Some(Internal);
      }
      apps := apps[newId := T.App(name, now)];
      collaborators := collaborators[(newId, account) := T.Owner];
      return None;
    }

    method Update(account: string, app: string, name: string) returns (error: Option<Error>)
      modifies this
      ensures T.Outcome(State(), error) == T.RenameApp(old(State()), account, app, name)
    {
      var denied := T.Denied(State(), account, app, T.Owner);
      if denied.Some? {
        return denied;
      }
      var unique := IsUniqueAppName(account, name, Some(app));
      if !unique {
        return Some(Conflict);
      }
      if app !in apps {
        return Some(NotFound);
      }
      apps := apps[app := apps[app].(name := name)];
      return None;
    }

    method Delete(account: string, app: string) returns (error: Option<Error>)
      modifies this
      ensures T.Outcome(State(), error) == T.DeleteApp(old(State()), account, app)
    {
      var denied := T.Denied(State(), account, app, T.Owner);
      if denied.Some? {
        return denied;
      }
      if app !in apps {
        return Some(NotFound);
      }
      apps := apps - {app};
      collaborators := map k | k in collaborators && k.0 != app :: collaborators[k];
      packages := map d | d in packages && d in deployments && deployments[d].appId != app :: packages[d];
      deployments := map d | d in deployments && deployments[d].appId != app :: deployments[d];
      return None;
    }

    method Transfer(account: string, app: string, email: string) returns (error: Option<Error>)
      requires Valid()
      modifies this
      ensures T.Outcome(State(), error) == T.TransferApp(old(State()), account, app, email)
    {
      var denied := T.Denied(State(), account, app, T.Owner);
      if denied.Some? {
        return denied;
      }
      var target := GetByEmail(email);
      if target.None? {
        return Some(NotFound);
      }
      collaborators := collaborators[(app, account) := T.Collaborator];
      collaborators := collaborators[(app, target.value) := T.Owner];
      return None;
    }

    method AddCollaborator(account: string, app: string, email: string) returns (error: Option<Error>)
      requires Valid()
      modifies this
      ensures T.Outcome(State(), error) == T.AddCollaborator(old(State()), account, app, email)
    {
      var denied := T.Denied(State(), account, app, T.Owner);
      if denied.Some? {
        return denied;
      }
      var target := GetByEmail(email);
      if target.None? {
        return Some(NotFound);
      }
      collaborators := collaborators[(app, target.value) := T.Collaborator];
      return None;
    }

    method RemoveCollaborator(account: string, app: string, email: string) returns (error: Option<Error>)
      requires Valid()
      modifies this
      ensures T.Outcome(State(), error) == T.RemoveCollaborator(old(State()), account, app, email)
    {
      var collabs := ListCollaborators(account, app);
      SelfInMap(State(), account, app, collabs, email);
      if email in collabs && collabs[email].isCurrentAccount {
        if collabs[email].permission != T.Collaborator {
          return Some(Forbidden);
        }
      } else {
        var denied := T.Denied(State(), account, app, T.Owner);
        if denied.Some? {
          return denied;
        }
      }
      var target := GetByEmail(email);
      if target.None? {
        return Some(NotFound);
      }
      if (app, target.value) !in collaborators {
        return Some(NotFound);
      }
      collaborators := collaborators - {(app, target.value)};
      return None;
    }

    // ---------------------------------------------------------------- deployments

    method CreateDeployment(account: string, app: string, name: string, key: string, now: int, newId: string)
      returns (error: Option<Error>)
      modifies this
      ensures T.Outcome(State(), error) == T.CreateDeployment(old(State()), account, app, name, key, now, newId)
    {
      var denied := T.Denied(State(), account, app, T.Owner);
      if denied.Some? {
        return denied;
      }
      if newId in deployments || T.DeploymentClashes(State(), app, name, key) {
        return Some(Conflict);
      }
      if app !in apps {
        return Some(Internal);
      }
      deployments := deployments[newId := T.Deployment(app, name, key, now)];
      return None;
    }

    method GetDeployment(account: string, app: string, name: string) returns (r: Result<DeploymentView>)
      requires Valid()
      ensures r == match T.Denied(State(), account, app, T.Collaborator)
                   case Some(e) => Failure(e)
                   case None =>
                     match T.DeploymentByName(State(), app, name)
                     case Some(d) => Success(ViewOf(State(), d))
                     case None => Failure(NotFound)
    {
      var denied := T.Denied(State(), account, app, T.Collaborator);
      if denied.Some? {
        return Failure(denied.value);
      }
      if d :| d in deployments && deployments[d].appId == app && deployments[d].name == name {
        T.DeploymentUnique(State(), app, name, d);
        var package := QueryCurrentPackage(d);
        return Success(DeploymentView(d, deployments[d], package));
      }
      return Failure(NotFound);
    }

    method GetByKey(key: string) returns (r: Result<DeploymentView>)
      requires Valid()
      ensures r.Success? ==>
        r.value.id in deployments && deployments[r.value.id].key == key && r.value == ViewOf(State(), r.value.id)
      ensures r.Failure? ==> r.error == NotFound && forall d <- deployments :: deployments[d].key != key
    {
      if d :| d in deployments && deployments[d].key == key {
        var package := QueryCurrentPackage(d);
        return Success(DeploymentView(d, deployments[d], package));
      }
      return Failure(NotFound);
    }

    /** The row of greatest ordinal. */
    method QueryCurrentPackage(dep: string) returns (package: Option<Package>)
      requires Valid()
      ensures package.None? <==> T.HistoryOf(State(), dep) == []
      ensures package.Some? ==> IsNewest(T.HistoryOf(State(), dep), package.value)
      ensures package == CurrentPackage(T.HistoryOf(State(), dep))
    {
      var rows := T.HistoryOf(State(), dep);
      package := if rows == [] then None else Some(rows[|rows| - 1]);
      if rows != [] {
        NewestIsLast(rows, rows[|rows| - 1]);
      }
    }

    method UpdateDeployment(account: string, app: string, dep: string, name: string) returns (error: Option<Error>)
      modifies this
      ensures T.Outcome(State(), error) == T.RenameDeployment(old(State()), account, app, dep, name)
    {
      var denied := T.Denied(State(), account, app, T.Owner);
      if denied.Some? {
        return denied;
      }
      if dep !in deployments {
        return Some(NotFound);
      }
      if d :| d in deployments && d != dep
              && deployments[d].appId == deployments[dep].appId && deployments[d].name == name {
        assert T.IsNamed(State(), deployments[dep].appId, name, d);
        return Some(Internal);
      }
      deployments := deployments[dep := deployments[dep].(name := name)];
      return None;
    }

    method DeleteDeployment(account: string, app: string, dep: string) returns (error: Option<Error>)
      modifies this
      ensures T.Outcome(State(), error) == T.DeleteDeployment(old(State()), account, app, dep)
    {
      var denied := T.Denied(State(), account, app, T.Owner);
      if denied.Some? {
        return denied;
      }
      if dep !in deployments || deployments[dep].appId != app {
        return Some(NotFound);
      }
      deployments := deployments - {dep};
      packages := packages - {dep};
      return None;
    }

    // ---------------------------------------------------------------- packages

    method ClearHistory(account: string, app: string, dep: string) returns (error: Option<Error>)
      modifies this
      ensures T.Outcome(State(), error) == T.ClearHistory(old(State()), account, app, dep)
    {
      var denied := T.Denied(State(), account, app, T.Owner);
      if denied.Some? {
        return denied;
      }
      packages := packages - {dep};
      return None;
    }

    method CommitRollback(account: string, app: string, dep: string, p: Package, id: string)
      returns (r: Result<Package>)
      modifies this
      ensures T.Outcome(State(), if r.Success? then None else Some(r.error))
              == T.CommitPackage(old(State()), account, app, dep, p, id)
      ensures r.Success? ==> r.value == Commit(T.HistoryOf(old(State()), dep), p, id).value.package
    {
      var denied := T.Denied(State(), account, app, T.Collaborator);
      if denied.Some? {
        return Failure(denied.value);
      }
      var rows := T.HistoryOf(State(), dep);
      var next := NextOrdinal(rows);
      if next.Failure? {
        return Failure(next.error);
      }
      var row := p.(ordinal := next.value);
      row := row.(tag := VersionLabel(next.value), id := id);
      var inserted := Insert(rows, row);
      if inserted.Failure? {
        return Failure(inserted.error);
      }
      if dep !in deployments {
        return Failure(Internal);
      }
      packages := packages[dep := inserted.value];
      return Success(row);
    }
  }

  /** The map shows its viewer as owner exactly when the viewer owns the app. */
  lemma CallerOwns(db: T.Db, viewer: string, app: string, m: map<string, Properties>)
    requires T.Integrity(db) && IsCollaboratorMap(db, viewer, app, m)
    ensures (exists e <- m :: m[e].isCurrentAccount && m[e].permission == T.Owner) <==> T.IsOwner(db, app, viewer)
  {
    if e :| e in m && m[e].isCurrentAccount && m[e].permission == T.Owner {
      var a :| JoinedMember(db, app, a, e);
      assert m[e] == PropertiesOf(db, viewer, app, a);
    }
    if T.IsOwner(db, app, viewer) {
      var e := db.accounts[viewer];
      assert JoinedMember(db, app, viewer, e) && m[e] == PropertiesOf(db, viewer, app, viewer);
    }
  }

  // What the collaborator map says about one email.
  lemma OwnerInMap(db: T.Db, viewer: string, app: string, m: map<string, Properties>, email: string)
    requires T.Integrity(db) && IsCollaboratorMap(db, viewer, app, m)
    ensures email in m && m[email].permission == T.Owner <==> OwnedByEmail(db, app, email)
  {
    if email in m {
      var a :| JoinedMember(db, app, a, email);
      EmailsDiffer(db, a, email);
      assert m[email] == PropertiesOf(db, viewer, app, a);
      assert T.IsOwner(db, app, a) <==> m[email].permission == T.Owner;
    } else {
      forall a ensures !JoinedMember(db, app, a, email) {}
      forall a | T.HasEmail(db, a, email) ensures !T.IsOwner(db, app, a) {
        assert !JoinedMember(db, app, a, email);
      }
    }
  }

  lemma EmailsDiffer(db: T.Db, account: string, email: string)
    requires T.Integrity(db) && T.HasEmail(db, account, email)
    ensures forall a :: T.HasEmail(db, a, email) ==> a == account
  {
  }

  lemma SelfInMap(db: T.Db, viewer: string, app: string, m: map<string, Properties>, email: string)
    requires T.Integrity(db) && IsCollaboratorMap(db, viewer, app, m)
    ensures email in m && m[email].isCurrentAccount
            <==> T.AccountByEmail(db, email) == Some(viewer) && T.IsMember(db, app, viewer)
    ensures email in m && m[email].isCurrentAccount && T.IsMember(db, app, viewer)
            ==> m[email].permission == db.collaborators[(app, viewer)]
  {
    if email in m {
      var a :| JoinedMember(db, app, a, email);
      T.EmailUnique(db, email, a);
      assert m[email] == PropertiesOf(db, viewer, app, a);
    } else if T.AccountByEmail(db, email) == Some(viewer) {
      assert !JoinedMember(db, app, viewer, email);
    }
  }
}

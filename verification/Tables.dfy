/** The relational state and what each repository statement does to it. */
module Tables {
  import opened Common
  import opened Packages

  datatype Permission = Owner | Collaborator
  datatype App = App(name: string, createdAt: int)
  datatype Deployment = Deployment(appId: string, name: string, key: string, createdAt: int)

  /** Tables by primary key: accounts give the email, collaborators are keyed by (app, account),
      and packages hold each deployment's rows in ordinal order. */
  datatype Db = Db(
    accounts: map<string, string>,
    apps: map<string, App>,
    collaborators: map<(string, string), Permission>,
    deployments: map<string, Deployment>,
    packages: map<string, History>)

  datatype Outcome = Outcome(db: Db, error: Option<Error>)

  predicate IsMember(db: Db, app: string, account: string) {
    (app, account) in db.collaborators
  }

  predicate IsOwner(db: Db, app: string, account: string) {
    IsMember(db, app, account) && db.collaborators[(app, account)] == Owner
  }

  function HistoryOf(db: Db, dep: string): History {
    if dep in db.packages then db.packages[dep] else []
  }

  /** Keys and references of the schema: unique emails, deployment keys, deployment names within
      an app, the two package indexes, and the foreign keys. */
  ghost predicate Integrity(db: Db) {
    && (forall a, b | a in db.accounts && b in db.accounts && db.accounts[a] == db.accounts[b] :: a == b)
    && (forall k <- db.collaborators :: k.0 in db.apps && k.1 in db.accounts)
    && (forall d <- db.deployments :: db.deployments[d].appId in db.apps)
    && (forall d, e | d in db.deployments && e in db.deployments
          && db.deployments[d].key == db.deployments[e].key :: d == e)
    && (forall d, e | d in db.deployments && e in db.deployments && db.deployments[d].appId == db.deployments[e].appId
          && db.deployments[d].name == db.deployments[e].name :: d == e)
    && (forall d <- db.packages :: d in db.deployments && WellKept(db.packages[d]))
  }

  /** `requirePermission`: the error, if the account may not act on the app at this level. */
  function Denied(db: Db, account: string, app: string, level: Permission): Option<Error> {
    if (app, account) !in db.collaborators then Some(NotFound)
    else if db.collaborators[(app, account)] == Owner || level == Collaborator then None
    else Some(Forbidden)
  }

  ghost predicate HasEmail(db: Db, account: string, email: string) {
    account in db.accounts && db.accounts[account] == email
  }

  ghost function AccountByEmail(db: Db, email: string): Option<string> {
    if a :| HasEmail(db, a, email) then Some(a) else None
  }

  ghost predicate IsNamed(db: Db, app: string, name: string, dep: string) {
    dep in db.deployments && db.deployments[dep].appId == app && db.deployments[dep].name == name
  }

  ghost function DeploymentByName(db: Db, app: string, name: string): Option<string> {
    if d :| IsNamed(db, app, name, d) then Some(d) else None
  }

  /** Another app of this name the account collaborates on, the excluded one aside. */
  predicate NameTaken(db: Db, account: string, name: string, exclude: Option<string>) {
    exists app <- db.apps :: IsMember(db, app, account) && db.apps[app].name == name && Some(app) != exclude
  }

  predicate DeploymentClashes(db: Db, app: string, name: string, key: string) {
    exists d <- db.deployments :: db.deployments[d].key == key
                                  || (db.deployments[d].appId == app && db.deployments[d].name == name)
  }

  // ------------------------------------------------------------------ apps

  function CreateApp(db: Db, account: string, name: string, now: int, newId: string): Outcome {
    if NameTaken(db, account, name, None) then Outcome(db, Some(Conflict))
    else if newId in db.apps || account !in db.accounts then Outcome(db, Some(Internal))
    else
      Outcome(db.(apps := db.apps[newId := App(name, now)],
                  collaborators := db.collaborators[(newId, account) := Owner]), None)
  }

  function RenameApp(db: Db, account: string, app: string, name: string): Outcome {
    var denied := Denied(db, account, app, Owner);
    if denied.Some? then Outcome(db, denied)
    else if NameTaken(db, account, name, Some(app)) then Outcome(db, Some(Conflict))
    else if app !in db.apps then Outcome(db, Some(NotFound))
    else Outcome(db.(apps := db.apps[app := db.apps[app].(name := name)]), None)
  }

  /** Deleting an app takes its collaborators, deployments and packages with it. */
  function DeleteApp(db: Db, account: string, app: string): Outcome {
    var denied := Denied(db, account, app, Owner);
    if denied.Some? then Outcome(db, denied)
    else if app !in db.apps then Outcome(db, Some(NotFound))
    else
      Outcome(db.(
        apps := db.apps - {app},
        collaborators := map k | k in db.collaborators && k.0 != app :: db.collaborators[k],
        deployments := map d | d in db.deployments && db.deployments[d].appId != app :: db.deployments[d],
        packages := map d | d in db.packages && d in db.deployments && db.deployments[d].appId != app
                    :: db.packages[d]), None)
  }

  /** One transaction: the caller is demoted, then the account with the email becomes owner. */
  ghost function TransferApp(db: Db, account: string, app: string, email: string): Outcome {
    var denied := Denied(db, account, app, Owner);
    var target := AccountByEmail(db, email);
    if denied.Some? then Outcome(db, denied)
    else if target.None? then Outcome(db, Some(NotFound))
    else
      Outcome(db.(collaborators :=
        db.collaborators[(app, account) := Collaborator][(app, target.value) := Owner]), None)
  }

  /** An upsert: an existing row for the account is overwritten, an owner's included. */
  ghost function AddCollaborator(db: Db, account: string, app: string, email: string): Outcome {
    var denied := Denied(db, account, app, Owner);
    var target := AccountByEmail(db, email);
    if denied.Some? then Outcome(db, denied)
    else if target.None? then Outcome(db, Some(NotFound))
    else Outcome(db.(collaborators := db.collaborators[(app, target.value) := Collaborator]), None)
  }

  /** Collaborators may remove themselves; removing anyone else takes the owner. */
  ghost function RemoveCollaborator(db: Db, account: string, app: string, email: string): Outcome {
    var target := AccountByEmail(db, email);
    var self := target == Some(account) && IsMember(db, app, account);
    var denied := if self then (if IsOwner(db, app, account) then Some(Forbidden) else None)
                  else Denied(db, account, app, Owner);
    if denied.Some? then Outcome(db, denied)
    else if target.None? || !IsMember(db, app, target.value) then Outcome(db, Some(NotFound))
    else Outcome(db.(collaborators := db.collaborators - {(app, target.value)}), None)
  }

  // ------------------------------------------------------------------ deployments

  function CreateDeployment(db: Db, account: string, app: string, name: string, key: string, now: int,
                            newId: string): Outcome {
    var denied := Denied(db, account, app, Owner);
    if denied.Some? then Outcome(db, denied)
    else if newId in db.deployments || DeploymentClashes(db, app, name, key) then Outcome(db, Some(Conflict))
    else if app !in db.apps then Outcome(db, Some(Internal))
    else Outcome(db.(deployments := db.deployments[newId := Deployment(app, name, key, now)]), None)
  }

  /** The statement filters by deployment id alone. */
  ghost function RenameDeployment(db: Db, account: string, app: string, dep: string, name: string): Outcome {
    var denied := Denied(db, account, app, Owner);
    if denied.Some? then Outcome(db, denied)
    else if dep !in db.deployments then Outcome(db, Some(NotFound))
    else if exists d :: d != dep && IsNamed(db, db.deployments[dep].appId, name, d) then Outcome(db, Some(Internal))
    else Outcome(db.(deployments := db.deployments[dep := db.deployments[dep].(name := name)]), None)
  }

  function DeleteDeployment(db: Db, account: string, app: string, dep: string): Outcome {
    var denied := Denied(db, account, app, Owner);
    if denied.Some? then Outcome(db, denied)
    else if dep !in db.deployments || db.deployments[dep].appId != app then Outcome(db, Some(NotFound))
    else Outcome(db.(deployments := db.deployments - {dep}, packages := db.packages - {dep}), None)
  }

  // ------------------------------------------------------------------ packages

  /** The statement filters by deployment id alone. */
  function ClearHistory(db: Db, account: string, app: string, dep: string): Outcome {
    var denied := Denied(db, account, app, Owner);
    if denied.Some? then Outcome(db, denied) else Outcome(db.(packages := db.packages - {dep}), None)
  }

  /** The statement filters by deployment id alone. */
  function CommitPackage(db: Db, account: string, app: string, dep: string, p: Package, id: string): Outcome {
    var denied := Denied(db, account, app, Collaborator);
    if denied.Some? then Outcome(db, denied)
    else
      var c := Commit(HistoryOf(db, dep), p, id);
      if c.Failure? then Outcome(db, Some(c.error))
      else if dep !in db.deployments then Outcome(db, Some(Internal))
      else Outcome(db.(packages := db.packages[dep := c.value.history]), None)
  }

  // ------------------------------------------------------------------ lookups

  lemma EmailUnique(db: Db, email: string, account: string)
    requires Integrity(db) && HasEmail(db, account, email)
    ensures AccountByEmail(db, email) == Some(account)
  {
  }

  lemma DeploymentUnique(db: Db, app: string, name: string, dep: string)
    requires Integrity(db) && IsNamed(db, app, name, dep)
    ensures DeploymentByName(db, app, name) == Some(dep)
  {
  }

  lemma KeyUnique(db: Db, dep: string)
    requires Integrity(db) && dep in db.deployments
    ensures forall d <- db.deployments :: db.deployments[d].key == db.deployments[dep].key ==> d == dep
  {
  }
}

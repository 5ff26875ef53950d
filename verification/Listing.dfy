/** Batched listings. The results of the ordered queries come in as row sequences; the loops here
    group them, and each group is what the query for that one app or deployment would give. */
module Listing {
  import opened Common
  import opened Packages
  import opened Tables
  import opened Repository

  datatype NameRow = NameRow(app: string, name: string)
  datatype CollaboratorRow = CollaboratorRow(app: string, email: string, properties: Properties)
  datatype CurrentRow = CurrentRow(deployment: string, package: Package)

  /** SELECT app_id, name ... WHERE app_id = ANY(ids) ORDER BY app_id, name */
  ghost predicate IsNamesQuery(db: Db, leq: (string, string) -> bool, ids: seq<string>, rows: seq<NameRow>) {
    && (forall r :: r in rows <==> r.app in ids && HasDeployment(db, r.app, r.name))
    && (forall i, j | 0 <= i < j < |rows| :: leq(rows[i].app, rows[j].app) && rows[i] != rows[j]
          && (rows[i].app == rows[j].app ==> leq(rows[i].name, rows[j].name)))
  }

  ghost predicate ComesFromJoin(db: Db, viewer: string, r: CollaboratorRow) {
    exists a :: JoinedMember(db, r.app, a, r.email) && r.properties == PropertiesOf(db, viewer, r.app, a)
  }

  /** SELECT ac.app_id, a.email, ... WHERE ac.app_id = ANY(ids), in any order */
  ghost predicate IsCollaboratorsQuery(db: Db, viewer: string, ids: seq<string>, rows: seq<CollaboratorRow>) {
    && (forall r <- rows :: r.app in ids && ComesFromJoin(db, viewer, r))
    && (forall app, a, e :: app in ids && JoinedMember(db, app, a, e) ==>
          CollaboratorRow(app, e, PropertiesOf(db, viewer, app, a)) in rows)
  }

  /** SELECT DISTINCT ON (deployment_id) ... ORDER BY deployment_id, ordinal DESC */
  ghost predicate IsCurrentQuery(db: Db, ids: seq<string>, rows: seq<CurrentRow>) {
    && (forall r <- rows :: r.deployment in ids && IsNewest(HistoryOf(db, r.deployment), r.package))
    && (forall i, j | 0 <= i < j < |rows| :: rows[i].deployment != rows[j].deployment)
    && (forall d <- ids :: HistoryOf(db, d) != [] ==> exists r <- rows :: r.deployment == d)
  }

  // ------------------------------------------------------------------ deployment names

  /** The names among the rows of one app, in row order. */
  function NamesFor(rows: seq<NameRow>, app: string): seq<string> {
    if rows == [] then []
    else
      var before, r := NamesFor(rows[..|rows| - 1], app), rows[|rows| - 1];
      if r.app == app then before + [r.name] else before
  }

  method GroupNames(rows: seq<NameRow>) returns (result: map<string, seq<string>>)
    ensures forall app :: (if app in result then result[app] else []) == NamesFor(rows, app)
  {
    result := map[];
    for i := 0 to |rows|
      invariant forall app :: (if app in result then result[app] else []) == NamesFor(rows[..i], app)
    {
      var r := rows[i];
      assert rows[..i + 1][..i] == rows[..i];
      result := result[r.app := (if r.app in result then result[r.app] else []) + [r.name]];
    }
    assert rows[..|rows|] == rows;
  }

  lemma {:induction false} NamesForMembers(rows: seq<NameRow>, app: string)
    ensures forall n :: n in NamesFor(rows, app) <==> NameRow(app, n) in rows
  {
    if rows != [] {
      NamesForMembers(rows[..|rows| - 1], app);
      assert rows == rows[..|rows| - 1] + [rows[|rows| - 1]];
    }
  }

  lemma {:induction false} NamesForAscending(leq: (string, string) -> bool, rows: seq<NameRow>, app: string)
    requires forall i, j | 0 <= i < j < |rows| ::
      rows[i] != rows[j] && (rows[i].app == rows[j].app ==> leq(rows[i].name, rows[j].name))
    ensures Ascending(leq, NamesFor(rows, app))
  {
    if rows != [] {
      var before, r := rows[..|rows| - 1], rows[|rows| - 1];
      NamesForAscending(leq, before, app);
      NamesForMembers(before, app);
      if r.app == app {
        forall i | 0 <= i < |NamesFor(before, app)|
          ensures leq(NamesFor(before, app)[i], r.name) && NamesFor(before, app)[i] != r.name
        {
          assert NameRow(app, NamesFor(before, app)[i]) in before;
        }
      }
    }
  }

  /** Each group of the batched query is the list of that one app. */
  lemma BatchedNamesAgree(db: Db, leq: (string, string) -> bool, ids: seq<string>, rows: seq<NameRow>, app: string)
    requires IsNamesQuery(db, leq, ids, rows) && app in ids
    ensures IsNameList(db, leq, app, NamesFor(rows, app))
  {
    NamesForMembers(rows, app);
    NamesForAscending(leq, rows, app);
  }

  /** Two ascending lists of the same names are the same list. */
  lemma {:induction false} AscendingUnique(leq: (string, string) -> bool, a: seq<string>, b: seq<string>)
    requires TotalOrder(leq) && Ascending(leq, a) && Ascending(leq, b)
    requires forall n :: n in a <==> n in b
    ensures a == b
  {
    assert |a| > 0 ==> a[0] in a;
    assert |b| > 0 ==> b[0] in b;
    if a != [] && b != [] {
      var x, y := a[|a| - 1], b[|b| - 1];
      assert x in b && y in a;
      assert leq(x, y) && leq(y, x);
      var fa, fb := a[..|a| - 1], b[..|b| - 1];
      assert a == fa + [x] && b == fb + [y];
      forall n ensures n in fa <==> n in fb { assert n in a <==> n in b; }
      AscendingUnique(leq, fa, fb);
    }
  }

  // ------------------------------------------------------------------ collaborators

  method GroupCollaborators(rows: seq<CollaboratorRow>) returns (result: map<string, map<string, Properties>>)
    requires forall r, s | r in rows && s in rows && r.app == s.app && r.email == s.email :: r == s
    ensures forall app, e, p ::
      app in result && e in result[app] && result[app][e] == p <==> CollaboratorRow(app, e, p) in rows
  {
    result := map[];
    for i := 0 to |rows|
      invariant forall app, e, p ::
        app in result && e in result[app] && result[app][e] == p <==> CollaboratorRow(app, e, p) in rows[..i]
    {
      var r := rows[i];
      assert rows[..i + 1] == rows[..i] + [r] && r in rows;
      assert forall s <- rows[..i] :: s in rows;
      if r.app !in result {
        result := result[r.app := map[]];
      }
      result := result[r.app := result[r.app][r.email := r.properties]];
    }
    assert rows[..|rows|] == rows;
  }

  lemma CollaboratorRowsDiffer(db: Db, viewer: string, ids: seq<string>, rows: seq<CollaboratorRow>)
    requires Integrity(db) && IsCollaboratorsQuery(db, viewer, ids, rows)
    ensures forall r, s | r in rows && s in rows && r.app == s.app && r.email == s.email :: r == s
  {
    forall r, s | r in rows && s in rows && r.app == s.app && r.email == s.email ensures r == s {
      var a :| JoinedMember(db, r.app, a, r.email) && r.properties == PropertiesOf(db, viewer, r.app, a);
      EmailsDiffer(db, a, r.email);
    }
  }

  /** A group of the batched query, or the empty map if there is none, is the collaborator map of
      that one app. */
  lemma BatchedCollaboratorsAgree(db: Db, viewer: string, ids: seq<string>, rows: seq<CollaboratorRow>,
                                  grouped: map<string, map<string, Properties>>, app: string)
    requires Integrity(db) && IsCollaboratorsQuery(db, viewer, ids, rows) && app in ids
    requires forall k, e, p ::
      k in grouped && e in grouped[k] && grouped[k][e] == p <==> CollaboratorRow(k, e, p) in rows
    ensures IsCollaboratorMap(db, viewer, app, if app in grouped then grouped[app] else map[])
  {
    var m := if app in grouped then grouped[app] else map[];
    forall e | e in m ensures exists a :: JoinedMember(db, app, a, e) {
      assert CollaboratorRow(app, e, m[e]) in rows;
    }
    forall a, e | JoinedMember(db, app, a, e) ensures e in m && m[e] == PropertiesOf(db, viewer, app, a) {
      assert CollaboratorRow(app, e, PropertiesOf(db, viewer, app, a)) in rows;
    }
  }

  /** The collaborator map is determined by the tables. */
  lemma CollaboratorMapUnique(db: Db, viewer: string, app: string, m: map<string, Properties>,
                              n: map<string, Properties>)
    requires IsCollaboratorMap(db, viewer, app, m) && IsCollaboratorMap(db, viewer, app, n)
    ensures m == n
  {
    forall e | e in m ensures e in n && n[e] == m[e] {
      var a :| JoinedMember(db, app, a, e);
    }
    forall e | e in n ensures e in m {
      var a :| JoinedMember(db, app, a, e);
    }
  }

  // ------------------------------------------------------------------ current packages

  method GroupCurrent(rows: seq<CurrentRow>) returns (result: map<string, Package>)
    requires forall i, j | 0 <= i < j < |rows| :: rows[i].deployment != rows[j].deployment
    ensures forall d, p :: d in result && result[d] == p <==> CurrentRow(d, p) in rows
  {
    result := map[];
    for i := 0 to |rows|
      invariant forall d, p :: d in result && result[d] == p <==> CurrentRow(d, p) in rows[..i]
    {
      assert rows[..i + 1] == rows[..i] + [rows[i]];
      assert forall p :: CurrentRow(rows[i].deployment, p) !in rows[..i];
      result := result[rows[i].deployment := rows[i].package];
    }
    assert rows[..|rows|] == rows;
  }

  /** The batched current package of a deployment is the last entry of its history. */
  lemma BatchedCurrentAgrees(db: Db, ids: seq<string>, rows: seq<CurrentRow>, grouped: map<string, Package>, d: string)
    requires Integrity(db) && IsCurrentQuery(db, ids, rows) && d in ids
    requires forall e, p :: e in grouped && grouped[e] == p <==> CurrentRow(e, p) in rows
    ensures (if d in grouped then Some(grouped[d]) else None) == CurrentPackage(HistoryOf(db, d))
  {
    if HistoryOf(db, d) != [] {
      var r :| r in rows && r.deployment == d;
      assert CurrentRow(d, r.package) in rows;
    }
    if d in grouped {
      assert CurrentRow(d, grouped[d]) in rows;
      NewestIsLast(HistoryOf(db, d), grouped[d]);
    }
  }

  // ------------------------------------------------------------------ the listings

  /** The apps of an account. `apps` are the rows of the first query; every listed app carries
      the deployment names and collaborators that asking for it alone would give. */
  method ListApps(ghost db: Db, ghost leq: (string, string) -> bool, viewer: string,
                  ids: seq<string>, apps: map<string, App>, nameRows: seq<NameRow>,
                  collaboratorRows: seq<CollaboratorRow>)
    returns (result: seq<AppView>)
    requires Integrity(db) && apps == db.apps && forall id :: id in ids <==> id in apps && IsMember(db, id, viewer)
    requires IsNamesQuery(db, leq, ids, nameRows) && IsCollaboratorsQuery(db, viewer, ids, collaboratorRows)
    ensures |result| == |ids|
    ensures forall i | 0 <= i < |ids| ::
      && result[i].id == ids[i] && result[i].app == db.apps[ids[i]]
      && IsNameList(db, leq, ids[i], result[i].deployments)
      && IsCollaboratorMap(db, viewer, ids[i], result[i].collaborators)
  {
    result := [];
    var names := GroupNames(nameRows);
    CollaboratorRowsDiffer(db, viewer, ids, collaboratorRows);
    var collaborators := GroupCollaborators(collaboratorRows);
    for i := 0 to |ids|
      invariant |result| == i
      invariant forall j | 0 <= j < i ::
        && result[j].id == ids[j] && result[j].app == db.apps[ids[j]]
        && IsNameList(db, leq, ids[j], result[j].deployments)
        && IsCollaboratorMap(db, viewer, ids[j], result[j].collaborators)
    {
      var id := ids[i];
      assert id in ids;
      BatchedNamesAgree(db, leq, ids, nameRows, id);
      BatchedCollaboratorsAgree(db, viewer, ids, collaboratorRows, collaborators, id);
      assert (if id in names then names[id] else []) == NamesFor(nameRows, id);
      result := result + [AppView(id, apps[id], if id in names then names[id] else [],
                                    if id in collaborators then collaborators[id] else map[])];
    }
  }

  /** The deployments of an app, each with its current package. */
  method ListDeployments(ghost db: Db, ids: seq<string>, deployments: map<string, Deployment>,
                         currentRows: seq<CurrentRow>)
    returns (result: seq<DeploymentView>)
    requires Integrity(db) && deployments == db.deployments && forall id <- ids :: id in deployments
    requires IsCurrentQuery(db, ids, currentRows)
    ensures |result| == |ids|
    ensures forall i | 0 <= i < |ids| ::
      result[i] == DeploymentView(ids[i], db.deployments[ids[i]], CurrentPackage(HistoryOf(db, ids[i])))
  {
    result := [];
    var current := GroupCurrent(currentRows);
    for i := 0 to |ids|
      invariant |result| == i
      invariant forall j | 0 <= j < i ::
        result[j] == DeploymentView(ids[j], db.deployments[ids[j]], CurrentPackage(HistoryOf(db, ids[j])))
    {
      BatchedCurrentAgrees(db, ids, currentRows, current, ids[i]);
      result := result + [DeploymentView(ids[i], deployments[ids[i]],
                                           if ids[i] in current then Some(current[ids[i]]) else None)];
    }
  }
}

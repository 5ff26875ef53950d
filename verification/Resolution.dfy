/** Resolving an app name for an account. Where several rows match, which one the database yields
    first is open, so resolution is a relation. */
module Resolution {
  import opened Common
  import opened Tables
  import opened Requests
  import opened Ownership

  datatype Qualified = Qualified(owner: string, name: string)

  predicate HasColon(s: string) {
    ':' in s
  }

  /** `strings.SplitN(s, ":", 2)`: owner email and name, or just the name. */
  function Split(s: string): Qualified {
    if !HasColon(s) then Qualified("", s)
    else
      var i := FirstColon(s);
      Qualified(s[..i], s[i + 1..])
  }

  function FirstColon(s: string): (i: nat)
    requires HasColon(s)
    ensures i < |s| && s[i] == ':' && ':' !in s[..i]
  {
    if s[0] == ':' then 0 else
      assert s == [s[0]] + s[1..];
      1 + FirstColon(s[1..])
  }

  ghost predicate OwnedByEmail(db: Db, app: string, email: string) {
    exists a :: HasEmail(db, a, email) && IsOwner(db, app, a)
  }

  /** An app the name could mean. */
  ghost predicate Candidate(db: Db, account: string, appName: string, app: string) {
    var q := Split(appName);
    && app in db.apps
    && IsMember(db, app, account)
    && db.apps[app].name == q.name
    && (q.owner != "" ==> OwnedByEmail(db, app, q.owner))
  }

  /** The answers `GetByName` may give: the only candidate, else one the account owns. */
  ghost predicate Resolves(db: Db, account: string, appName: string, r: Result<string>) {
    match r
    case Success(app) =>
      && Candidate(db, account, appName, app)
      && ((forall b :: Candidate(db, account, appName, b) ==> b == app) || IsOwner(db, app, account))
    case Failure(NotFound) =>
      forall b :: !Candidate(db, account, appName, b)
    case Failure(Conflict) =>
      && (exists a, b :: a != b && Candidate(db, account, appName, a) && Candidate(db, account, appName, b))
      && (forall b :: Candidate(db, account, appName, b) ==> !IsOwner(db, b, account))
    case Failure(_) => false
  }

  lemma SomeAnswer(db: Db, account: string, appName: string) returns (r: Result<string>)
    ensures Resolves(db, account, appName, r)
  {
    if a :| Candidate(db, account, appName, a) && IsOwner(db, a, account) {
      r := Success(a);
    } else if a :| Candidate(db, account, appName, a) {
      if b :| Candidate(db, account, appName, b) && b != a {
        r := Failure(Conflict);
      } else {
        r := Success(a);
      }
    } else {
      r := Failure(NotFound);
    }
  }

  /** The name resolves to this app and can resolve to nothing else. */
  ghost predicate ResolvesOnlyTo(db: Db, account: string, appName: string, app: string) {
    forall r :: Resolves(db, account, appName, r) <==> r == Success(app)
  }

  /** NotFound if no app is meant, the app if one is, an owned one if more are, and Conflict if none
      of those is owned. */
  ghost predicate AnswersFor(db: Db, account: string, meant: set<string>, r: Result<string>) {
    var owned := set a | a in meant && (a, account) in db.collaborators && db.collaborators[(a, account)] == Owner;
    if meant == {} then r == Failure(NotFound)
    else if owned != {} then r.Success? && r.value in owned
    else if |meant| == 1 then r.Success? && r.value in meant
    else r == Failure(Conflict)
  }

  lemma AnswersFromCandidates(db: Db, account: string, appName: string, meant: set<string>, r: Result<string>)
    requires Resolves(db, account, appName, r) && forall a :: Candidate(db, account, appName, a) <==> a in meant
    ensures AnswersFor(db, account, meant, r)
  {
    if a, b :| a in meant && b in meant && a != b {
      assert {a, b} <= meant && |meant - {a, b}| == |meant| - 2;
    } else if a :| a in meant {
      assert meant == {a};
    }
  }

  /** A name without a colon means the apps of that name the account belongs to. */
  lemma PlainNameAnswers(db: Db, account: string, name: string, r: Result<string>)
    requires !HasColon(name) && Resolves(db, account, name, r)
    ensures var meant := set a | a in db.apps && (a, account) in db.collaborators && db.apps[a].name == name;
      AnswersFor(db, account, meant, r)
  {
    var meant := set a | a in db.apps && (a, account) in db.collaborators && db.apps[a].name == name;
    AnswersFromCandidates(db, account, name, meant, r);
  }

  lemma OwnerRow(db: Db, app: string, email: string)
    ensures OwnedByEmail(db, app, email)
            <==> exists o <- db.accounts :: db.accounts[o] == email && (app, o) in db.collaborators
                                            && db.collaborators[(app, o)] == Owner
  {
    if OwnedByEmail(db, app, email) {
      var o :| HasEmail(db, o, email) && IsOwner(db, app, o);
      assert o in db.accounts && db.accounts[o] == email;
    }
    if o :| o in db.accounts && db.accounts[o] == email && (app, o) in db.collaborators
            && db.collaborators[(app, o)] == Owner {
      assert HasEmail(db, o, email) && IsOwner(db, app, o);
    }
  }

  /** A name qualified by an email means those of them whose owner has that email. */
  lemma QualifiedNameAnswers(db: Db, account: string, email: string, name: string, r: Result<string>)
    requires Integrity(db) && !HasColon(email) && email != "" && Resolves(db, account, email + ":" + name, r)
    ensures var meant := set a | a in db.apps && (a, account) in db.collaborators && db.apps[a].name == name
                                 && exists o <- db.accounts :: db.accounts[o] == email && (a, o) in db.collaborators
                                                               && db.collaborators[(a, o)] == Owner;
      AnswersFor(db, account, meant, r)
  {
    var full := email + ":" + name;
    assert full[|email|] == ':' && full[..|email|] == email && full[|email| + 1..] == name;
    FirstColonIs(full, |email|);
    var meant := set a | a in db.apps && (a, account) in db.collaborators && db.apps[a].name == name
                         && exists o <- db.accounts :: db.accounts[o] == email && (a, o) in db.collaborators
                                                       && db.collaborators[(a, o)] == Owner;
    forall a ensures Candidate(db, account, full, a) <==> a in meant { OwnerRow(db, a, email); }
    AnswersFromCandidates(db, account, full, meant, r);
  }

  // Right after a request named an app so that no other app of the account has the name.
  lemma NamedResolvesIff(db: Db, account: string, name: string, app: string)
    requires app in db.apps && db.apps[app].name == name && IsMember(db, app, account)
    requires forall b | b in db.apps && b != app && IsMember(db, b, account) :: db.apps[b].name != name
    ensures ResolvesOnlyTo(db, account, name, app) <==> !HasColon(name)
  {
    if HasColon(name) {
      assert |Split(name).name| < |name|;
      var r := SomeAnswer(db, account, name);
      assert r != Success(app);
    } else {
      assert Candidate(db, account, name, app);
      forall b | Candidate(db, account, name, b) ensures b == app {}
    }
  }

  /** After a successful creation the app's name resolves, for its creator, to that very app and
      nothing else, exactly when the name has no colon. */
  lemma CreatedResolvesIff(db: Db, account: string, name: string, now: int, newId: string)
    requires Integrity(db) && CreateApp(db, account, name, now, newId).error.None?
    ensures ResolvesOnlyTo(CreateApp(db, account, name, now, newId).db, account, name, newId) <==> !HasColon(name)
  {
    var after := CreateApp(db, account, name, now, newId).db;
    forall b | b in after.apps && b != newId && IsMember(after, b, account) ensures after.apps[b].name != name {
      assert b in db.apps && IsMember(db, b, account);
    }
    NamedResolvesIff(after, account, name, newId);
  }

  /** After a successful rename the new name resolves, for the owner, to the renamed app and
      nothing else, exactly when it has no colon. */
  lemma RenamedResolvesIff(db: Db, account: string, app: string, name: string)
    requires RenameApp(db, account, app, name).error.None?
    ensures ResolvesOnlyTo(RenameApp(db, account, app, name).db, account, name, app) <==> !HasColon(name)
  {
    NamedResolvesIff(RenameApp(db, account, app, name).db, account, name, app);
  }

  lemma {:induction false} FirstColonIs(s: string, i: nat)
    requires i < |s| && s[i] == ':' && ':' !in s[..i]
    ensures HasColon(s) && FirstColon(s) == i
  {
    if i > 0 {
      assert s[..i][0] == s[0];
      assert s[1..][..i - 1] == s[..i][1..];
      FirstColonIs(s[1..], i - 1);
    }
  }

  /** A name qualified by the owner's email reaches that owner's app even if the caller has others
      of the name. */
  lemma QualifiedReaches(db: Db, account: string, email: string, name: string, app: string, r: Result<string>)
    requires Integrity(db) && !HasColon(email) && email != ""
    requires app in db.apps && db.apps[app].name == name && IsMember(db, app, account)
    requires OwnedByEmail(db, app, email)
    requires forall b | b in db.apps && b != app && OwnedByEmail(db, b, email) :: db.apps[b].name != name
    ensures Resolves(db, account, email + ":" + name, r) <==> r == Success(app)
  {
    var full := email + ":" + name;
    assert full[|email|] == ':' && HasColon(full);
    assert full[..|email|] == email && full[|email| + 1..] == name;
    FirstColonIs(full, |email|);
    assert Candidate(db, account, full, app);
    forall b | Candidate(db, account, full, b) ensures b == app {}
  }

  // ------------------------------------------------------------------ ambiguity

  /** Resolution has one answer exactly unless two candidates are both owned by the account. */
  lemma OneAnswerIff(db: Db, account: string, appName: string)
    ensures (forall r, s :: Resolves(db, account, appName, r) && Resolves(db, account, appName, s) ==> r == s)
            <==> (forall a, b | Candidate(db, account, appName, a) && Candidate(db, account, appName, b)
                                && IsOwner(db, a, account) && IsOwner(db, b, account) :: a == b)
  {
    if a, b :| Candidate(db, account, appName, a) && Candidate(db, account, appName, b)
               && IsOwner(db, a, account) && IsOwner(db, b, account) && a != b {
      assert Resolves(db, account, appName, Success(a)) && Resolves(db, account, appName, Success(b));
    } else {
      forall r, s | Resolves(db, account, appName, r) && Resolves(db, account, appName, s) ensures r == s {
        assert r.Success? ==> Candidate(db, account, appName, r.value);
        assert s.Success? ==> Candidate(db, account, appName, s.value);
      }
    }
  }

  /** No account owns two apps of one name. */
  ghost predicate OwnedNamesUnique(db: Db) {
    forall acct, a, b | a in db.apps && b in db.apps && IsOwner(db, a, acct) && IsOwner(db, b, acct)
                        && db.apps[a].name == db.apps[b].name :: a == b
  }

  ghost predicate OwnsAnotherNamed(db: Db, account: string, name: string, app: string) {
    exists b :: b in db.apps && b != app && IsOwner(db, b, account) && db.apps[b].name == name
  }

  /** Some name is ambiguous to some account, whatever order the rows come in, exactly when an
      account owns two apps of one name. */
  lemma OneAnswerEverywhereIff(db: Db)
    ensures (forall acct, name, r, s :: Resolves(db, acct, name, r) && Resolves(db, acct, name, s) ==> r == s)
            <==> OwnedNamesUnique(db)
  {
    if OwnedNamesUnique(db) {
      forall acct, name, r, s | Resolves(db, acct, name, r) && Resolves(db, acct, name, s) ensures r == s {
        OneAnswerIff(db, acct, name);
      }
    } else {
      var acct, a, b :| a in db.apps && b in db.apps && IsOwner(db, a, acct) && IsOwner(db, b, acct)
                        && db.apps[a].name == db.apps[b].name && a != b;
      TwoAnswers(db, acct, a, b);
    }
  }

  // A leading colon is an empty owner, so it reaches any app by its plain name.
  lemma TwoAnswers(db: Db, account: string, a: string, b: string)
    requires a in db.apps && b in db.apps && IsOwner(db, a, account) && IsOwner(db, b, account)
    requires db.apps[a].name == db.apps[b].name && a != b
    ensures Resolves(db, account, ":" + db.apps[a].name, Success(a))
    ensures Resolves(db, account, ":" + db.apps[a].name, Success(b))
  {
    var name := ":" + db.apps[a].name;
    assert name[0] == ':' && name[..0] == "" && name[1..] == db.apps[a].name;
    FirstColonIs(name, 0);
  }

  /** A transfer checks no names: it keeps owned names unique, and so every name unambiguous,
      exactly when the new owner does not already own another app of the name. */
  lemma TransferNamesUniqueIff(db: Db, account: string, app: string, email: string)
    requires Integrity(db) && OwnedNamesUnique(db) && app in db.apps
    requires TransferApp(db, account, app, email).error.None?
    ensures var after := TransferApp(db, account, app, email).db;
      var duplicate := OwnsAnotherNamed(db, AccountByEmail(db, email).value, db.apps[app].name, app);
      && (OwnedNamesUnique(after) <==> !duplicate)
      && ((forall acct, name, r, s :: Resolves(after, acct, name, r) && Resolves(after, acct, name, s) ==> r == s)
          <==> !duplicate)
  {
    var target, after := AccountByEmail(db, email).value, TransferApp(db, account, app, email).db;
    OneAnswerEverywhereIff(after);
    assert IsOwner(after, app, target);
    forall a, b ensures IsOwner(after, b, a) ==> IsOwner(db, b, a) || (b == app && a == target) {}
    forall a, b ensures b != app ==> (IsOwner(after, b, a) <==> IsOwner(db, b, a)) {}
    if OwnsAnotherNamed(db, target, db.apps[app].name, app) {
      var b :| b in db.apps && b != app && IsOwner(db, b, target) && db.apps[b].name == db.apps[app].name;
      assert IsOwner(after, b, target) && IsOwner(after, app, target);
    }
  }

  // ------------------------------------------------------------------ requests that do check

  /** No app gains an owner or changes its name. */
  ghost predicate OwnsNoMore(before: Db, after: Db) {
    forall app, a :: app in after.apps && IsOwner(after, app, a) ==>
      app in before.apps && IsOwner(before, app, a) && after.apps[app].name == before.apps[app].name
  }

  lemma OwnsNoMoreKeeps(before: Db, after: Db)
    requires OwnedNamesUnique(before) && OwnsNoMore(before, after)
    ensures OwnedNamesUnique(after)
  {
  }

  lemma CreateNames(db: Db, account: string, name: string, now: int, newId: string)
    requires Integrity(db) && OwnedNamesUnique(db)
    ensures OwnedNamesUnique(CreateApp(db, account, name, now, newId).db)
  {
    var after := CreateApp(db, account, name, now, newId).db;
    if after != db {
      forall app, a | app != newId ensures IsOwner(after, app, a) <==> IsOwner(db, app, a) {}
      forall a ensures IsOwner(after, newId, a) <==> a == account {}
      forall b | b in db.apps && IsMember(db, b, account) ensures db.apps[b].name != name {}
    }
  }

  lemma RenameNames(db: Db, account: string, app: string, name: string)
    requires Integrity(db) && OwnedNamesUnique(db) && (app in db.apps ==> AtMostOneOwner(db, app))
    ensures OwnedNamesUnique(RenameApp(db, account, app, name).db)
  {
    var after := RenameApp(db, account, app, name).db;
    if after != db {
      assert IsOwner(db, app, account);
      forall b, a ensures IsOwner(after, b, a) <==> IsOwner(db, b, a) {}
      forall a ensures IsOwner(after, app, a) <==> a == account {}
      forall b | b in db.apps && b != app && IsMember(db, b, account) ensures db.apps[b].name != name {}
    }
  }

  lemma {:induction false} RestNames(db: Db, account: string, app: string, op: Op)
    requires Integrity(db) && (op.Delete? || op.Add? || op.Remove? || OnDeployments(op))
    ensures OwnsNoMore(db, Perform(db, account, app, op).db)
  {
    if OnDeployments(op) { DeploymentTables(db, account, app, op); }
  }

  /** Every other request keeps owned names unique: creation and renaming by their checks, the
      rest because they give no app another owner or another name. */
  lemma NamesKept(db: Db, c: Call)
    requires Integrity(db) && OwnedNamesUnique(db) && forall app <- db.apps :: AtMostOneOwner(db, app)
    requires !(c.OnApp? && c.op.Transfer?)
    ensures OwnedNamesUnique(Serve(db, c).db)
  {
    if c.Create? {
      CreateNames(db, c.account, c.name, c.now, c.newId);
      CreateTables(db, c);
      OwnsNoMoreKeeps(CreateApp(db, c.account, c.name, c.now, c.newId).db, Serve(db, c).db);
    } else if c.op.Rename? {
      var keep := c.op.newName == "" && c.app in db.apps;
      RenameNames(db, c.account, c.app, if keep then db.apps[c.app].name else c.op.newName);
    } else {
      RestNames(db, c.account, c.app, c.op);
      OwnsNoMoreKeeps(db, Serve(db, c).db);
    }
  }

  // ------------------------------------------------------------------ short runs

  /** Two accounts create an app of one name each and the first transfers its own to the second, who
      then has a name with two answers. */
  lemma TransferRun(db: Db, giver: string, taker: string, name: string, now: int, first: string, second: string)
    returns (calls: seq<Call>)
    requires Integrity(db) && giver in db.accounts && taker in db.accounts && giver != taker
    requires first !in db.apps && second !in db.apps && first != second
    requires !NameTaken(db, giver, name, None) && !NameTaken(db, taker, name, None)
    ensures calls == [NewApp(giver, name, now, first), NewApp(taker, name, now, second),
                      OnApp(giver, first, Transfer(db.accounts[taker]))]
    ensures Resolves(ServeAll(db, calls), taker, ":" + name, Success(first))
    ensures Resolves(ServeAll(db, calls), taker, ":" + name, Success(second))
  {
    var a, b := NewApp(giver, name, now, first), NewApp(taker, name, now, second);
    var c := OnApp(giver, first, Transfer(db.accounts[taker]));
    calls := [a, b, c];
    ServeThree(db, a, b, c);
    TwoApps(db, giver, taker, name, now, first, second);
    TransferTakes(Serve(Serve(db, a).db, b).db, giver, taker, first, second);
  }

  lemma TwoApps(db: Db, giver: string, taker: string, name: string, now: int, first: string, second: string)
    requires Integrity(db) && giver in db.accounts && taker in db.accounts && giver != taker
    requires first !in db.apps && second !in db.apps && first != second
    requires !NameTaken(db, giver, name, None) && !NameTaken(db, taker, name, None)
    ensures var two := Serve(Serve(db, NewApp(giver, name, now, first)).db, NewApp(taker, name, now, second)).db;
      && Integrity(two) && two.accounts == db.accounts
      && IsOwner(two, first, giver) && IsOwner(two, second, taker)
      && first in two.apps && second in two.apps && two.apps[first].name == two.apps[second].name == name
  {
    CreatedNew(db, giver, name, now, first);
    var one := Serve(db, NewApp(giver, name, now, first)).db;
    StillFree(db, one, giver, taker, name, now, first);
    CreatedNew(one, taker, name, now, second);
    assert (first, giver) != (second, taker);
  }

  lemma StillFree(db: Db, one: Db, giver: string, taker: string, name: string, now: int, first: string)
    requires first !in db.apps && giver != taker && !NameTaken(db, taker, name, None)
    requires one.apps == db.apps[first := App(name, now)]
    requires one.collaborators == db.collaborators[(first, giver) := Owner]
    requires Integrity(db)
    ensures !NameTaken(one, taker, name, None)
  {
    assert !IsMember(db, first, taker);
  }

  lemma TransferTakes(db: Db, giver: string, taker: string, first: string, second: string)
    requires Integrity(db) && taker in db.accounts && giver != taker && first != second
    requires IsOwner(db, first, giver) && IsOwner(db, second, taker)
    requires first in db.apps && second in db.apps && db.apps[first].name == db.apps[second].name
    ensures var after := TransferApp(db, giver, first, db.accounts[taker]).db;
      && Resolves(after, taker, ":" + db.apps[first].name, Success(first))
      && Resolves(after, taker, ":" + db.apps[first].name, Success(second))
  {
    EmailUnique(db, db.accounts[taker], taker);
    var after := TransferApp(db, giver, first, db.accounts[taker]).db;
    assert IsOwner(after, first, taker) && IsOwner(after, second, taker);
    TwoAnswers(after, taker, first, second);
  }

  /** An account that belongs to no app creates one with a colon in its name: the app is there, but
      its name has the one answer NotFound. */
  lemma ColonRun(db: Db, account: string, name: string, now: int, newId: string)
    requires Integrity(db) && account in db.accounts && newId !in db.apps && HasColon(name)
    requires forall app :: !IsMember(db, app, account)
    ensures var after := ServeAll(db, [NewApp(account, name, now, newId)]);
      && newId in after.apps && after.apps[newId].name == name && IsOwner(after, newId, account)
      && forall r :: Resolves(after, account, name, r) <==> r == Failure(NotFound)
  {
    var c := NewApp(account, name, now, newId);
    assert [c][1..] == [];
    assert ServeAll(db, [c]) == ServeAll(Serve(db, c).db, []);
    assert !NameTaken(db, account, name, None);
    CreatedNew(db, account, name, now, newId);
    var after := Serve(db, c).db;
    assert |Split(name).name| < |name|;
    forall b ensures !Candidate(after, account, name, b) {
      if b != newId { assert !IsMember(db, b, account) && !IsMember(after, b, account); }
    }
  }
}

/** Package rows of one deployment: the numbered history, committing to it, and rolling back. */
module Packages {
  import opened Common
  import opened Decimal

  const MAX_INT32: nat := 0x7fff_ffff
  const RELEASE_ROLLBACK := "Rollback"

  /** The ordinal column is a 32-bit integer; nothing negative is ever written to it. */
  type Ordinal = n: nat | n <= MAX_INT32

  /** What a package delivers. */
  datatype Payload = Payload(
    appVersion: string, description: string, isDisabled: bool, isMandatory: bool, packageHash: string,
    blobURL: string, manifestBlobURL: string, rollout: Option<int>, size: int, releasedBy: string)

  datatype Package = Package(
    id: string, ordinal: Ordinal, tag: string, payload: Payload, uploadTime: int,
    releaseMethod: string, originalLabel: string, originalDeployment: string)

  /** The rows of one deployment in the order of their ordinals. */
  type History = seq<Package>

  /** The two unique indexes, on (deployment, ordinal) and on (deployment, label). */
  ghost predicate WellKept(h: History) {
    && (forall i, j | 0 <= i < j < |h| :: h[i].ordinal < h[j].ordinal)
    && (forall i, j | 0 <= i < j < |h| :: h[i].tag != h[j].tag)
  }

  ghost predicate Dense(h: History) {
    forall i | 0 <= i < |h| :: h[i].ordinal == i + 1 && h[i].tag == VersionLabel(i + 1)
  }

  /** The row with the greatest ordinal. */
  ghost predicate IsNewest(h: History, p: Package) {
    p in h && forall q <- h :: q.ordinal <= p.ordinal
  }

  /** SELECT ... ORDER BY ordinal DESC LIMIT 1 */
  function CurrentPackage(h: History): Option<Package> {
    if h == [] then None else Some(h[|h| - 1])
  }

  /** COALESCE(MAX(ordinal), 0) */
  function MaxOrdinal(h: History): Ordinal {
    if h == [] then 0
    else
      var rest := MaxOrdinal(h[..|h| - 1]);
      if rest > h[|h| - 1].ordinal then rest else h[|h| - 1].ordinal
  }

  /** The ordinal a commit reads before inserting; past the column's range the query fails. */
  function NextOrdinal(h: History): Result<Ordinal> {
    if MaxOrdinal(h) == MAX_INT32 then Failure(Internal) else Success(MaxOrdinal(h) + 1)
  }

  function Place(h: History, p: Package): History {
    if h == [] || h[|h| - 1].ordinal < p.ordinal then h + [p]
    else Place(h[..|h| - 1], p) + [h[|h| - 1]]
  }

  predicate Clashes(h: History, ordinal: nat, tag: string) {
    exists q <- h :: q.ordinal == ordinal || q.tag == tag
  }

  /** INSERT under the unique indexes; a violation comes back unmapped. */
  function Insert(h: History, p: Package): Result<History> {
    if Clashes(h, p.ordinal, p.tag) then Failure(Internal) else Success(Place(h, p))
  }

  datatype Committed = Committed(history: History, package: Package)

  /** Number and label a package, then insert it; `id` is the row id the database generates. */
  function Commit(h: History, p: Package, id: string): Result<Committed> {
    match NextOrdinal(h)
    case Failure(e) => Failure(e)
    case Success(n) =>
      var row := p.(id := id, ordinal := n, tag := VersionLabel(n));
      match Insert(h, row)
      case Failure(e) => Failure(e)
      case Success(after) => Success(Committed(after, row))
  }

  /** The position of the first entry with the label, or |h|. */
  function FirstWithLabel(h: History, tag: string): (i: nat)
    ensures i <= |h|
    ensures i < |h| ==> h[i].tag == tag
    ensures forall j | 0 <= j < i :: h[j].tag != tag
  {
    if h == [] then 0
    else
      var i := FirstWithLabel(h[..|h| - 1], tag);
      if i < |h| - 1 || h[|h| - 1].tag == tag then i else |h|
  }

  /** What to roll back to: the entry before the newest, or the entry with the label given. */
  function RollbackTarget(h: History, target: string): Result<Package> {
    if h == [] then Failure(NotFound)
    else if target == "" then (if |h| < 2 then Failure(NotFound) else Success(h[|h| - 2]))
    else
      var i := FirstWithLabel(h, target);
      if i == |h| then Failure(NotFound) else Success(h[i])
  }

  function RollbackClone(target: Package, deploymentName: string, now: int): Package {
    target.(id := "", releaseMethod := RELEASE_ROLLBACK, originalDeployment := deploymentName,
      originalLabel := target.tag, uploadTime := now)
  }

  function Rollback(h: History, deploymentName: string, target: string, now: int, id: string): Result<Committed> {
    match RollbackTarget(h, target)
    case Failure(e) => Failure(e)
    case Success(t) =>
      if h[|h| - 1].payload.appVersion != t.payload.appVersion then Failure(Conflict)
      else Commit(h, RollbackClone(t, deploymentName, now), id)
  }

  /** No entry holds the label of this ordinal. */
  predicate Free(h: History, ordinal: nat) {
    forall q <- h :: q.tag != VersionLabel(ordinal)
  }

  // ------------------------------------------------------------------ committing

  lemma {:induction false} MaxOrdinalIsLast(h: History)
    requires WellKept(h)
    ensures MaxOrdinal(h) == if h == [] then 0 else h[|h| - 1].ordinal
    ensures forall q <- h :: q.ordinal <= MaxOrdinal(h)
  {
    if |h| > 1 { MaxOrdinalIsLast(h[..|h| - 1]); }
  }

  /** A commit succeeds exactly when the next label is free and the ordinal column has room;
      it then appends one row, numbered one past the newest, and changes no other. */
  lemma CommitExact(h: History, p: Package, id: string)
    requires WellKept(h)
    ensures var last := if h == [] then 0 else h[|h| - 1].ordinal;
      && (Commit(h, p, id).Success? <==> last < MAX_INT32 && Free(h, last + 1))
      && (Commit(h, p, id).Failure? ==> Commit(h, p, id).error == Internal)
      && (Commit(h, p, id).Success? ==>
          var c := Commit(h, p, id).value;
          && c.package == p.(id := id, ordinal := last + 1, tag := VersionLabel(last + 1))
          && c.history == h + [c.package]
          && WellKept(c.history))
  {
    MaxOrdinalIsLast(h);
  }

  /** Dense histories stay dense, and run out of room only at the column's maximum. */
  lemma CommitKeepsDense(h: History, p: Package, id: string)
    requires Dense(h)
    ensures WellKept(h)
    ensures Commit(h, p, id).Success? <==> |h| < MAX_INT32
    ensures Commit(h, p, id).Success? ==>
      Dense(Commit(h, p, id).value.history) && |Commit(h, p, id).value.history| == |h| + 1
  {
    DenseWellKept(h);
    CommitExact(h, p, id);
    forall i | 0 <= i < |h| ensures h[i].tag != VersionLabel(|h| + 1) { VersionLabelInjective(i + 1, |h| + 1); }
  }

  lemma DenseWellKept(h: History)
    requires Dense(h)
    ensures WellKept(h)
  {
    forall i, j | 0 <= i < j < |h| ensures h[i].tag != h[j].tag { VersionLabelInjective(i + 1, j + 1); }
  }

  /** The row of greatest ordinal is the last of the history. */
  lemma NewestIsLast(h: History, p: Package)
    requires WellKept(h)
    ensures IsNewest(h, p) <==> CurrentPackage(h) == Some(p)
  {
    if h != [] {
      assert h[|h| - 1] in h;
    }
  }

  // ------------------------------------------------------------------ rolling back

  /** An entry that may be rolled back to. */
  predicate IsTarget(h: History, i: nat, target: string) {
    && i < |h|
    && (if target == "" then |h| >= 2 && i == |h| - 2 else h[i].tag == target)
  }

  /** A rollback appends one clone of its target, or fails for the stated reason. */
  lemma RollbackExact(h: History, name: string, target: string, now: int, id: string)
    requires WellKept(h)
    ensures var r := Rollback(h, name, target, now, id);
      && (r == Failure(NotFound) <==> !exists i: nat :: IsTarget(h, i, target))
      && (forall i: nat | IsTarget(h, i, target) ::
           && (r == Failure(Conflict) <==> h[|h| - 1].payload.appVersion != h[i].payload.appVersion)
           && (r.Success? <==>
               && h[|h| - 1].payload.appVersion == h[i].payload.appVersion
               && h[|h| - 1].ordinal < MAX_INT32
               && Free(h, h[|h| - 1].ordinal + 1))
           && (r.Success? ==>
               && WellKept(r.value.history)
               && r.value.history == h + [r.value.package]
               && r.value.package == Package(id, h[|h| - 1].ordinal + 1, VersionLabel(h[|h| - 1].ordinal + 1),
                    h[i].payload, now, "Rollback", h[i].tag, name)))
  {
    var r := RollbackTarget(h, target);
    if target == "" {
      if |h| >= 2 { assert IsTarget(h, |h| - 2, target); }
    } else {
      var k := FirstWithLabel(h, target);
      if k < |h| { assert IsTarget(h, k, target); }
    }
    forall i: nat | IsTarget(h, i, target) ensures r == Success(h[i]) {}
    if r.Success? {
      CommitExact(h, RollbackClone(r.value, name, now), id);
    }
  }
}

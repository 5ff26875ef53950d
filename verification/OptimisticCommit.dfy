/** Concurrent commits: each reads the next ordinal in one statement and inserts in a later one,
    while other commits and clears run in between. Only the unique indexes guard the insert. */
module OptimisticCommit {
  import opened Common
  import opened Decimal
  import opened Packages

  datatype Pending = Pending(deployment: string, ordinal: Ordinal)
  datatype State = State(rows: map<string, History>, pending: map<nat, Pending>)

  datatype Action =
    | ReadNext(id: nat, deployment: string)
    | InsertRow(id: nat, package: Package, rowId: string)
    | ClearRows(deployment: string)

  function RowsOf(s: State, d: string): History {
    if d in s.rows then s.rows[d] else []
  }

  function RowFor(p: Package, ordinal: Ordinal, rowId: string): Package {
    p.(id := rowId, ordinal := ordinal, tag := VersionLabel(ordinal))
  }

  predicate Enabled(s: State, a: Action) {
    match a
    case ReadNext(id, _) => id !in s.pending
    case InsertRow(id, _, _) => id in s.pending
    case ClearRows(_) => true
  }

  /** The outcome of an insert against the rows as they are when it happens. */
  function InsertOutcome(s: State, a: Action): Result<History>
    requires a.InsertRow? && a.id in s.pending
  {
    var p := s.pending[a.id];
    Insert(RowsOf(s, p.deployment), RowFor(a.package, p.ordinal, a.rowId))
  }

  function Next(s: State, a: Action): State {
    if !Enabled(s, a) then s
    else match a
      case ReadNext(id, d) =>
        var n := NextOrdinal(RowsOf(s, d));
        if n.Success? then s.(pending := s.pending[id := Pending(d, n.value)]) else s
      case InsertRow(id, _, _) =>
        var r := InsertOutcome(s, a);
        State(if r.Success? then s.rows[s.pending[id].deployment := r.value] else s.rows, s.pending - {id})
      case ClearRows(d) => s.(rows := s.rows[d := []])
  }

  function After(start: State, trace: seq<Action>): State {
    if trace == [] then start else Next(After(start, trace[..|trace| - 1]), trace[|trace| - 1])
  }

  // ------------------------------------------------------------------ inserting by ordinal

  lemma {:induction false} PlaceMembers(h: History, p: Package)
    ensures forall q :: q in Place(h, p) <==> q in h || q == p
  {
    if h != [] && h[|h| - 1].ordinal >= p.ordinal {
      PlaceMembers(h[..|h| - 1], p);
      assert h == h[..|h| - 1] + [h[|h| - 1]];
    }
  }

  lemma {:induction false} PlaceKeeps(h: History, p: Package)
    requires WellKept(h) && !Clashes(h, p.ordinal, p.tag)
    ensures WellKept(Place(h, p))
  {
    if h != [] && h[|h| - 1].ordinal >= p.ordinal {
      var front, last := h[..|h| - 1], h[|h| - 1];
      assert last in h && forall q <- front :: q in h;
      PlaceKeeps(front, p);
      PlaceMembers(front, p);
      WellKeptSnoc(Place(front, p), last);
    } else {
      forall q <- h ensures q.ordinal < p.ordinal && q.tag != p.tag {}
      WellKeptSnoc(h, p);
    }
  }

  lemma WellKeptSnoc(h: History, last: Package)
    requires WellKept(h) && forall q <- h :: q.ordinal < last.ordinal && q.tag != last.tag
    ensures WellKept(h + [last])
  {
    forall i | 0 <= i < |h| ensures h[i].ordinal < last.ordinal && h[i].tag != last.tag { assert h[i] in h; }
  }

  ghost predicate Labelled(h: History) {
    forall q <- h :: q.tag == VersionLabel(q.ordinal)
  }

  /** Among version-labelled rows a label is taken exactly when its ordinal is. */
  lemma LabelClashIsOrdinalClash(h: History, n: Ordinal)
    requires Labelled(h)
    ensures (exists q <- h :: q.tag == VersionLabel(n)) <==> (exists q <- h :: q.ordinal == n)
  {
    forall q <- h ensures q.tag == VersionLabel(n) <==> q.ordinal == n { VersionLabelInjective(q.ordinal, n); }
  }

  // ------------------------------------------------------------------ no duplicates

  ghost predicate AllWellKept(s: State) {
    forall d :: WellKept(RowsOf(s, d))
  }

  ghost predicate AllLabelled(s: State) {
    forall d :: Labelled(RowsOf(s, d))
  }

  // What a step leaves of one deployment's rows.
  lemma RowsAfter(s: State, a: Action, d: string)
    ensures var h, after := RowsOf(s, d), RowsOf(Next(s, a), d);
      || after == h
      || after == []
      || (exists p, n, rowId :: Insert(h, RowFor(p, n, rowId)) == Success(after))
  {
    if a.InsertRow? && Enabled(s, a) && InsertOutcome(s, a).Success? {
      var p := s.pending[a.id];
      assert RowsOf(Next(s, a), d) == if d == p.deployment then InsertOutcome(s, a).value else RowsOf(s, d);
    }
  }

  /** The deployment an action concerns. */
  function Concerns(s: State, a: Action): string
    requires Enabled(s, a)
  {
    if a.InsertRow? then s.pending[a.id].deployment else a.deployment
  }

  /** A read changes no rows, a clear empties its deployment, and neither they nor an insert touch
      another deployment. A failed insert changes nothing. */
  lemma StepRows(s: State, a: Action, d: string)
    requires Enabled(s, a)
    ensures var h, after := RowsOf(s, d), RowsOf(Next(s, a), d);
      after == if d != Concerns(s, a) || a.ReadNext? then h
               else if a.ClearRows? then []
               else if exists q <- h :: q.ordinal == s.pending[a.id].ordinal
                                        || q.tag == VersionLabel(s.pending[a.id].ordinal) then h
               else Place(h, RowFor(a.package, s.pending[a.id].ordinal, a.rowId))
  {
  }

  lemma WellKeptStep(s: State, a: Action)
    requires AllWellKept(s)
    ensures AllWellKept(Next(s, a))
  {
    forall d ensures WellKept(RowsOf(Next(s, a), d)) {
      var h, after := RowsOf(s, d), RowsOf(Next(s, a), d);
      RowsAfter(s, a, d);
      if after != h && after != [] {
        var p, n, rowId :| Insert(h, RowFor(p, n, rowId)) == Success(after);
        PlaceKeeps(h, RowFor(p, n, rowId));
      }
    }
  }

  lemma LabelledStep(s: State, a: Action)
    requires AllLabelled(s)
    ensures AllLabelled(Next(s, a))
  {
    forall d ensures Labelled(RowsOf(Next(s, a), d)) {
      var h, after := RowsOf(s, d), RowsOf(Next(s, a), d);
      RowsAfter(s, a, d);
      if after != h && after != [] {
        var p, n, rowId :| Insert(h, RowFor(p, n, rowId)) == Success(after);
        PlaceMembers(h, RowFor(p, n, rowId));
      }
    }
  }

  lemma {:induction false} WellKeptAlways(start: State, trace: seq<Action>)
    requires AllWellKept(start)
    ensures AllWellKept(After(start, trace))
  {
    if trace != [] {
      WellKeptAlways(start, trace[..|trace| - 1]);
      WellKeptStep(After(start, trace[..|trace| - 1]), trace[|trace| - 1]);
    }
  }

  /** Where every label is "v" and the ordinal, it stays so. */
  lemma {:induction false} LabelledAlways(start: State, trace: seq<Action>)
    requires AllLabelled(start)
    ensures AllLabelled(After(start, trace))
  {
    if trace != [] {
      LabelledAlways(start, trace[..|trace| - 1]);
      LabelledStep(After(start, trace[..|trace| - 1]), trace[|trace| - 1]);
    }
  }

  /** In no interleaving of commits and clears do two rows of a deployment share an ordinal or a
      label, whatever labels the first rows had. If those were "v" and the ordinal, all are. */
  lemma NoDuplicates(start: State, trace: seq<Action>, d: string, i: nat, j: nat)
    requires AllWellKept(start) && i < j < |RowsOf(After(start, trace), d)|
    ensures var h := RowsOf(After(start, trace), d);
      && h[i].ordinal < h[j].ordinal
      && h[i].tag != h[j].tag
      && (AllLabelled(start) ==> h[i].tag == VersionLabel(h[i].ordinal))
  {
    WellKeptAlways(start, trace);
    if AllLabelled(start) { LabelledAlways(start, trace); }
    assert RowsOf(After(start, trace), d)[i] in RowsOf(After(start, trace), d);
  }

  // ------------------------------------------------------------------ dense numbering

  /** A commit that reads n before inserting into a dense history of k rows: it fails if n is
      taken, and keeps the numbering 1..k+1 exactly when n is still the next ordinal. */
  lemma StaleInsertExact(h: History, p: Package, n: Ordinal, rowId: string)
    requires Dense(h) && n >= 1
    ensures var r := Insert(h, RowFor(p, n, rowId));
      && (r.Success? <==> n > |h|)
      && (r.Success? ==> r.value == h + [RowFor(p, n, rowId)])
      && (r.Success? ==> (Dense(r.value) <==> n == |h| + 1))
  {
    forall i | 0 <= i < |h| ensures h[i].tag == VersionLabel(n) <==> h[i].ordinal == n {
      VersionLabelInjective(i + 1, n);
    }
    if n <= |h| { assert h[n - 1] in h && h[n - 1].ordinal == n; }
    if Insert(h, RowFor(p, n, rowId)).Success? {
      var after := h + [RowFor(p, n, rowId)];
      assert after[|h|].ordinal == n;
    }
  }

  ghost predicate AllDense(s: State) {
    && (forall d :: Dense(RowsOf(s, d)))
    && (forall id <- s.pending :: InRange(s, s.pending[id]))
  }

  predicate InRange(s: State, p: Pending) {
    1 <= p.ordinal <= |RowsOf(s, p.deployment)| + 1
  }

  /** No commit on the deployment is between its read and its insert. */
  predicate Idle(s: State, d: string) {
    forall id <- s.pending :: s.pending[id].deployment != d
  }

  /** No clear falls between a commit's read and its insert on the same deployment. */
  predicate Undisturbed(start: State, trace: seq<Action>) {
    trace == [] ||
    (Undisturbed(start, trace[..|trace| - 1]) &&
     (trace[|trace| - 1].ClearRows? ==> Idle(After(start, trace[..|trace| - 1]), trace[|trace| - 1].deployment)))
  }

  lemma {:induction false} DenseStep(s: State, a: Action)
    requires AllDense(s)
    requires a.ClearRows? ==> Idle(s, a.deployment)
    ensures AllDense(Next(s, a))
  {
    if Enabled(s, a) {
      match a
      case ReadNext(id, d) =>
        DenseWellKept(RowsOf(s, d));
        MaxOrdinalIsLast(RowsOf(s, d));
        forall e ensures RowsOf(Next(s, a), e) == RowsOf(s, e) {}
      case InsertRow(id, package, rowId) =>
        DenseInsertStep(s, a);
      case ClearRows(d) =>
        forall e ensures RowsOf(Next(s, a), e) == if e == d then [] else RowsOf(s, e) {}
    }
  }

  lemma {:induction false} DenseInsertStep(s: State, a: Action)
    requires AllDense(s) && a.InsertRow? && a.id in s.pending
    ensures AllDense(Next(s, a))
  {
    var p := s.pending[a.id];
    var h, r := RowsOf(s, p.deployment), InsertOutcome(s, a);
    assert InRange(s, p);
    StaleInsertExact(h, a.package, p.ordinal, a.rowId);
    forall d
      ensures RowsOf(Next(s, a), d) == if d == p.deployment && r.Success? then r.value else RowsOf(s, d)
      ensures Dense(RowsOf(Next(s, a), d)) && |RowsOf(Next(s, a), d)| >= |RowsOf(s, d)|
    {
    }
    forall id <- Next(s, a).pending ensures InRange(Next(s, a), s.pending[id]) {
      assert InRange(s, s.pending[id]);
    }
  }

  /** However commits interleave, if no clear comes between a commit's read and its insert then
      every deployment's ordinals are exactly 1..n, each labelled "v" and its ordinal. */
  lemma {:induction false} DenseAlways(start: State, trace: seq<Action>)
    requires AllDense(start) && Undisturbed(start, trace)
    ensures AllDense(After(start, trace))
  {
    if trace != [] {
      DenseAlways(start, trace[..|trace| - 1]);
      DenseStep(After(start, trace[..|trace| - 1]), trace[|trace| - 1]);
    }
  }

  ghost predicate RowsDense(s: State) {
    forall d :: Dense(RowsOf(s, d))
  }

  predicate PendingPositive(s: State) {
    forall id <- s.pending :: s.pending[id].ordinal >= 1
  }

  /** The action is not an insert past the next free ordinal, as one is whose rows were cleared. */
  predicate InTime(s: State, a: Action) {
    a.InsertRow? && a.id in s.pending ==>
      s.pending[a.id].ordinal <= |RowsOf(s, s.pending[a.id].deployment)| + 1
  }

  predicate AllInTime(start: State, trace: seq<Action>) {
    trace == [] ||
    (AllInTime(start, trace[..|trace| - 1]) && InTime(After(start, trace[..|trace| - 1]), trace[|trace| - 1]))
  }

  lemma DenseStepIff(s: State, a: Action)
    requires RowsDense(s) && PendingPositive(s)
    ensures PendingPositive(Next(s, a))
    ensures RowsDense(Next(s, a)) <==> InTime(s, a)
  {
    if Enabled(s, a) {
      match a
      case ReadNext(id, d) =>
        forall e ensures RowsOf(Next(s, a), e) == RowsOf(s, e) {}
      case InsertRow(id, package, rowId) =>
        DenseInsertIff(s, a);
      case ClearRows(d) =>
        forall e ensures RowsOf(Next(s, a), e) == if e == d then [] else RowsOf(s, e) {}
    }
  }

  lemma DenseInsertIff(s: State, a: Action)
    requires RowsDense(s) && PendingPositive(s) && a.InsertRow? && a.id in s.pending
    ensures RowsDense(Next(s, a)) <==> InTime(s, a)
  {
    var p := s.pending[a.id];
    var r := InsertOutcome(s, a);
    StaleInsertExact(RowsOf(s, p.deployment), a.package, p.ordinal, a.rowId);
    forall d ensures RowsOf(Next(s, a), d) == if d == p.deployment && r.Success? then r.value else RowsOf(s, d) {}
    if r.Success? { assert RowsOf(Next(s, a), p.deployment) == r.value; }
  }

  lemma {:induction false} InTimeDense(start: State, trace: seq<Action>)
    requires RowsDense(start) && PendingPositive(start) && AllInTime(start, trace)
    ensures RowsDense(After(start, trace)) && PendingPositive(After(start, trace))
  {
    if trace != [] {
      InTimeDense(start, trace[..|trace| - 1]);
      DenseStepIff(After(start, trace[..|trace| - 1]), trace[|trace| - 1]);
    }
  }

  lemma {:induction false} InTimePrefix(start: State, trace: seq<Action>, n: nat)
    requires n <= |trace| && AllInTime(start, trace)
    ensures AllInTime(start, trace[..n])
  {
    if n < |trace| {
      InTimePrefix(start, trace[..|trace| - 1], n);
      assert trace[..|trace| - 1][..n] == trace[..n];
    } else {
      assert trace[..n] == trace;
    }
  }

  // The first insert past the next ordinal, and the gap it leaves.
  lemma {:induction false} FirstGap(start: State, trace: seq<Action>) returns (n: nat)
    requires RowsDense(start) && PendingPositive(start) && !AllInTime(start, trace)
    ensures n <= |trace| && !RowsDense(After(start, trace[..n]))
  {
    var before := trace[..|trace| - 1];
    if AllInTime(start, before) {
      InTimeDense(start, before);
      DenseStepIff(After(start, before), trace[|trace| - 1]);
      n := |trace|;
      assert trace[..n] == trace;
    } else {
      n := FirstGap(start, before);
      assert before[..n] == trace[..n];
    }
  }

  /** In an interleaving of commits and clears every deployment is numbered 1..n at every moment
      exactly when no insert comes in past the ordinal that is next by then. */
  lemma {:induction false} DenseThroughoutIff(start: State, trace: seq<Action>)
    requires RowsDense(start) && PendingPositive(start)
    ensures (forall n: nat | n <= |trace| :: RowsDense(After(start, trace[..n]))) <==> AllInTime(start, trace)
  {
    if AllInTime(start, trace) {
      forall n: nat | n <= |trace| ensures RowsDense(After(start, trace[..n])) {
        InTimePrefix(start, trace, n);
        InTimeDense(start, trace[..n]);
      }
    } else {
      var n := FirstGap(start, trace);
    }
  }

  lemma AfterSnoc(start: State, trace: seq<Action>, a: Action)
    ensures After(start, trace + [a]) == Next(After(start, trace), a)
  {
    assert (trace + [a])[..|trace + [a]| - 1] == trace;
  }

  /** It happens: a clear between a commit's read and its insert leaves a history of one package
      that carries the number and label after the cleared ones. */
  lemma ClearDuringCommit(d: string, h: History, id: nat, p: Package, rowId: string) returns (trace: seq<Action>)
    requires Dense(h) && 0 < |h| < MAX_INT32
    ensures trace == [ReadNext(id, d), ClearRows(d), InsertRow(id, p, rowId)]
    ensures var rows := RowsOf(After(State(map[d := h], map[]), trace), d);
      rows == [RowFor(p, |h| + 1, rowId)] && !Dense(rows)
  {
    var start := State(map[d := h], map[]);
    var read, clear, insert := ReadNext(id, d), ClearRows(d), InsertRow(id, p, rowId);
    DenseWellKept(h);
    MaxOrdinalIsLast(h);
    AfterSnoc(start, [], read);
    AfterSnoc(start, [read], clear);
    AfterSnoc(start, [read] + [clear], insert);
    assert [] + [read] == [read];
    trace := [read] + [clear] + [insert];
    assert After(start, [read]) == State(map[d := h], map[id := Pending(d, |h| + 1)]);
    assert RowsOf(After(start, [read] + [clear]), d) == [];
    assert RowsOf(After(start, trace), d)[0].ordinal == |h| + 1;
  }

  /** In such an interleaving an insert succeeds exactly when the deployment has no more rows than
      the commit's read saw, that is when no other commit got in first. */
  lemma FirstInsertWins(start: State, trace: seq<Action>, a: Action)
    requires AllDense(start) && Undisturbed(start, trace)
    requires a.InsertRow? && a.id in After(start, trace).pending
    ensures var s := After(start, trace);
      InsertOutcome(s, a).Success?
      <==> |RowsOf(s, s.pending[a.id].deployment)| == s.pending[a.id].ordinal - 1
  {
    DenseAlways(start, trace);
    var s := After(start, trace);
    var p := s.pending[a.id];
    assert InRange(s, p);
    StaleInsertExact(RowsOf(s, p.deployment), a.package, p.ordinal, a.rowId);
  }

  /** With nothing in between, reading and inserting is the one-step commit. */
  lemma AtomicCommit(s: State, id: nat, d: string, p: Package, rowId: string)
    requires id !in s.pending && NextOrdinal(RowsOf(s, d)).Success?
    ensures var after := Next(Next(s, ReadNext(id, d)), InsertRow(id, p, rowId));
      var c := Commit(RowsOf(s, d), p, rowId);
      && after.pending == s.pending
      && RowsOf(after, d) == (if c.Success? then c.value.history else RowsOf(s, d))
  {
  }
}

/** Interleaved requests. A report reads its client's pointer in one step and runs its transaction
    in a later one; a clear reads the label list in one step and deletes in a later one. Any other
    steps may come between. At most one report per deployment and client is in flight. */
module ReportProtocol {
  import opened MetricsKeys
  import opened Redis
  import opened MetricsStore
  import opened ReportLog

  datatype PendingReport = PendingReport(report: StatusReport, prev: string)
  datatype PendingClear = PendingClear(deployment: string, labels: set<string>)

  datatype System = System(
    ks: Keyspace,
    reports: map<(string, string), PendingReport>,
    clears: map<nat, PendingClear>)

  datatype Action =
    | ReadPointer(report: StatusReport)
    | ExecReport(deployment: string, client: string)
    | AnonymousReport(report: StatusReport)
    | ExecDownload(deployment: string, lbl: string)
    | ReadLabels(id: nat, deployment: string)
    | DeleteKeys(id: nat)

  const START := System(map[], map[], map[])

  predicate Enabled(s: System, a: Action, deployments: set<string>) {
    match a
    case ReadPointer(r) =>
      r.deploymentKey in deployments && r.client != "" && (r.deploymentKey, r.client) !in s.reports
    case ExecReport(d, c) => (d, c) in s.reports
    case AnonymousReport(r) => r.deploymentKey in deployments && r.client == ""
    case ExecDownload(d, _) => d in deployments
    case ReadLabels(id, d) => d in deployments && id !in s.clears
    case DeleteKeys(id) => id in s.clears
  }

  /** The state after an action; an action that is not enabled does nothing. */
  function Next(s: System, a: Action, deployments: set<string>): System {
    if !Enabled(s, a, deployments) then s
    else match a
    case ReadPointer(r) =>
      s.(reports := s.reports[(r.deploymentKey, r.client) :=
           PendingReport(r, Pointer(s.ks, r.deploymentKey, r.client))])
    case ExecReport(d, c) =>
      var p := s.reports[(d, c)];
      s.(ks := AfterReport(s.ks, p.report, p.prev), reports := s.reports - {(d, c)})
    case AnonymousReport(r) => s.(ks := AfterReport(s.ks, r, Pointer(s.ks, r.deploymentKey, r.client)))
    case ExecDownload(d, lbl) => s.(ks := AfterDownload(s.ks, d, lbl))
    case ReadLabels(id, d) => s.(clears := s.clears[id := PendingClear(d, Labels(s.ks, d))])
    case DeleteKeys(id) =>
      var c := s.clears[id];
      s.(ks := AfterClear(s.ks, c.deployment, c.labels), clears := s.clears - {id})
  }

  /** The interleavings: each action is enabled where it happens. */
  predicate Possible(trace: seq<Action>, deployments: set<string>) {
    trace == [] ||
    (Possible(trace[..|trace| - 1], deployments) &&
     Enabled(After(trace[..|trace| - 1], deployments), trace[|trace| - 1], deployments))
  }

  function After(trace: seq<Action>, deployments: set<string>): System {
    if trace == [] then START
    else Next(After(trace[..|trace| - 1], deployments), trace[|trace| - 1], deployments)
  }

  ghost predicate PairwiseSeparated(deployments: set<string>) {
    forall d, e | d in deployments && e in deployments && d != e :: Separated(d, e)
  }

  // ------------------------------------------------------------------ invariant

  /** Whoever is in the active set of a non-empty label has a pointer naming that label. */
  ghost predicate MembersPointed(ks: Keyspace, d: string) {
    forall l, c :: l != "" && c in Active(ks, d, l) ==> Pointer(ks, d, c) == l
  }

  ghost predicate Inv(s: System, deployments: set<string>) {
    && PairwiseSeparated(deployments)
    && (forall d <- deployments :: Typed(s.ks, d) && MembersPointed(s.ks, d))
    && (forall k <- s.reports :: k.0 in deployments && k.1 != ""
          && s.reports[k].report.deploymentKey == k.0 && s.reports[k].report.client == k.1
          && s.reports[k].prev == Pointer(s.ks, k.0, k.1))
    && (forall id <- s.clears :: s.clears[id].deployment in deployments)
  }

  // A deployment whose keys a step did not touch.
  lemma Untouched(before: Keyspace, after: Keyspace, d: string)
    requires Typed(before, d) && MembersPointed(before, d)
    requires forall k :: Owns(d, k) ==> SameAt(after, before, k)
    ensures Typed(after, d) && MembersPointed(after, d)
    ensures forall c :: Pointer(after, d, c) == Pointer(before, d, c)
  {
    assert Owns(d, LabelsKey(d));
    forall x
      ensures SameAt(after, before, CountersKey(d, x))
      ensures SameAt(after, before, ActiveSetKey(d, x)) && Active(after, d, x) == Active(before, d, x)
      ensures SameAt(after, before, ClientKey(d, x)) && Pointer(after, d, x) == Pointer(before, d, x)
    {
      assert Owns(d, CountersKey(d, x)) && Owns(d, ActiveSetKey(d, x)) && Owns(d, ClientKey(d, x));
    }
  }

  // A report built on the pointer as it still is.
  lemma FreshReportKeepsPointers(ks: Keyspace, r: StatusReport)
    requires Typed(ks, r.deploymentKey) && MembersPointed(ks, r.deploymentKey)
    ensures MembersPointed(AfterReport(ks, r, Pointer(ks, r.deploymentKey, r.client)), r.deploymentKey)
  {
    ReportEffect(ks, r, Pointer(ks, r.deploymentKey, r.client));
  }

  // What a step writes, on the deployment it concerns and on any other.
  ghost predicate Writes(s: System, after: Keyspace, d: string, client: string, deployments: set<string>) {
    && Typed(after, d)
    && MembersPointed(after, d)
    && (forall c :: c != client ==> Pointer(after, d, c) == Pointer(s.ks, d, c))
    && (forall e <- deployments :: e != d ==> forall k :: Owns(e, k) ==> SameAt(after, s.ks, k))
  }

  lemma WritesKeepInv(s: System, after: Keyspace, d: string, client: string, deployments: set<string>)
    requires Inv(s, deployments) && d in deployments && Writes(s, after, d, client, deployments)
    ensures forall e <- deployments :: Typed(after, e) && MembersPointed(after, e)
    ensures forall e <- deployments :: forall c :: e != d || c != client ==> Pointer(after, e, c) == Pointer(s.ks, e, c)
  {
    forall e <- deployments | e != d
      ensures Typed(after, e) && MembersPointed(after, e)
      ensures forall c :: Pointer(after, e, c) == Pointer(s.ks, e, c)
    {
      Untouched(s.ks, after, e);
    }
  }

  lemma ReportWrites(s: System, r: StatusReport, deployments: set<string>)
    requires Inv(s, deployments) && r.deploymentKey in deployments
    ensures Writes(s, AfterReport(s.ks, r, Pointer(s.ks, r.deploymentKey, r.client)), r.deploymentKey, r.client,
                   deployments)
  {
    var d, prev := r.deploymentKey, Pointer(s.ks, r.deploymentKey, r.client);
    ReportEffect(s.ks, r, prev);
    FreshReportKeepsPointers(s.ks, r);
    forall e, k | e in deployments && e != d && Owns(e, k) ensures SameAt(AfterReport(s.ks, r, prev), s.ks, k) {
      OtherDeploymentsUntouched(s.ks, e, k, r, prev, "", {});
    }
  }

  lemma DownloadWrites(s: System, d: string, lbl: string, deployments: set<string>)
    requires Inv(s, deployments) && d in deployments
    ensures Writes(s, AfterDownload(s.ks, d, lbl), d, "", deployments)
    ensures Pointer(AfterDownload(s.ks, d, lbl), d, "") == Pointer(s.ks, d, "")
  {
    DownloadEffect(s.ks, d, lbl);
    forall e, k | e in deployments && e != d && Owns(e, k) ensures SameAt(AfterDownload(s.ks, d, lbl), s.ks, k) {
      OtherDeploymentsUntouched(s.ks, e, k, StatusReport(d, "", "", "", ""), "", lbl, {});
    }
  }

  lemma ClearWrites(s: System, d: string, labels: set<string>, deployments: set<string>)
    requires Inv(s, deployments) && d in deployments
    ensures Writes(s, AfterClear(s.ks, d, labels), d, "", deployments)
  {
    ClearEffect(s.ks, d, labels);
    forall e, k | e in deployments && e != d && Owns(e, k) ensures SameAt(AfterClear(s.ks, d, labels), s.ks, k) {
      OtherDeploymentsUntouched(s.ks, e, k, StatusReport(d, "", "", "", ""), "", "", labels);
    }
  }

  lemma ExecReportKeepsInv(s: System, d: string, c: string, deployments: set<string>)
    requires Inv(s, deployments) && (d, c) in s.reports
    ensures Inv(Next(s, ExecReport(d, c), deployments), deployments)
  {
    var r := s.reports[(d, c)].report;
    var after := AfterReport(s.ks, r, Pointer(s.ks, d, c));
    ReportWrites(s, r, deployments);
    WritesKeepInv(s, after, d, c, deployments);
    forall k <- s.reports | k != (d, c) ensures Pointer(after, k.0, k.1) == Pointer(s.ks, k.0, k.1) {}
  }

  lemma StepKeepsInv(s: System, a: Action, deployments: set<string>)
    requires Inv(s, deployments) && Enabled(s, a, deployments)
    ensures Inv(Next(s, a, deployments), deployments)
  {
    match a
    case ReadPointer(r) =>
    case ReadLabels(id, d) =>
    case ExecReport(d, c) => ExecReportKeepsInv(s, d, c, deployments);
    case AnonymousReport(r) =>
      ReportWrites(s, r, deployments);
      WritesKeepInv(s, AfterReport(s.ks, r, Pointer(s.ks, r.deploymentKey, r.client)), r.deploymentKey, "",
                    deployments);
    case ExecDownload(d, lbl) =>
      DownloadWrites(s, d, lbl, deployments);
      WritesKeepInv(s, AfterDownload(s.ks, d, lbl), d, "", deployments);
    case DeleteKeys(id) =>
      var c := s.clears[id];
      ClearWrites(s, c.deployment, c.labels, deployments);
      WritesKeepInv(s, AfterClear(s.ks, c.deployment, c.labels), c.deployment, "", deployments);
  }

  lemma {:induction false} ReachableInv(trace: seq<Action>, deployments: set<string>)
    requires PairwiseSeparated(deployments) && Possible(trace, deployments)
    ensures Inv(After(trace, deployments), deployments)
  {
    if trace != [] {
      ReachableInv(trace[..|trace| - 1], deployments);
      StepKeepsInv(After(trace[..|trace| - 1], deployments), trace[|trace| - 1], deployments);
    }
  }

  /** In every interleaving, each client is in at most one active set of a deployment (leaving the
      empty label aside), and that set is the one its pointer names. */
  lemma OneActiveSetPerClient(trace: seq<Action>, deployments: set<string>, d: string, c: string, l: string, m: string)
    requires PairwiseSeparated(deployments) && Possible(trace, deployments) && d in deployments
    requires l != "" && m != ""
    requires c in Active(After(trace, deployments).ks, d, l) && c in Active(After(trace, deployments).ks, d, m)
    ensures l == m == Pointer(After(trace, deployments).ks, d, c)
  {
    ReachableInv(trace, deployments);
    MemberPointed(After(trace, deployments).ks, d, l, c);
    MemberPointed(After(trace, deployments).ks, d, m, c);
  }

  lemma MemberPointed(ks: Keyspace, d: string, l: string, c: string)
    requires MembersPointed(ks, d) && l != "" && c in Active(ks, d, l)
    ensures Pointer(ks, d, c) == l
  {
  }

  // ------------------------------------------------------------------ serial equivalence

  /** The requests of a trace in the order their writing steps happen. */
  function Serial(trace: seq<Action>, deployments: set<string>): seq<Event> {
    if trace == [] then []
    else
      var before, a := trace[..|trace| - 1], trace[|trace| - 1];
      Serial(before, deployments) + Request(After(before, deployments), a, deployments)
  }

  function Request(s: System, a: Action, deployments: set<string>): seq<Event> {
    if !Enabled(s, a, deployments) then []
    else match a
    case ReadPointer(_) => []
    case ReadLabels(_, _) => []
    case ExecReport(d, c) => [Report(s.reports[(d, c)].report)]
    case AnonymousReport(r) => [Report(r)]
    case ExecDownload(d, lbl) => [Download(d, lbl)]
    case DeleteKeys(id) => [Clear(s.clears[id].deployment)]
  }

  /** Every deletion covers the labels listed by then: no label is new since the clear read them. */
  predicate Covered(trace: seq<Action>, deployments: set<string>) {
    trace == [] ||
    (Covered(trace[..|trace| - 1], deployments) &&
     Covers(After(trace[..|trace| - 1], deployments), trace[|trace| - 1]))
  }

  predicate Covers(s: System, a: Action) {
    a.DeleteKeys? && a.id in s.clears ==> Labels(s.ks, s.clears[a.id].deployment) <= s.clears[a.id].labels
  }

  // Deleting the keys of more labels than are listed is the same as deleting the listed ones.
  lemma CoveredClear(ks: Keyspace, d: string, labels: set<string>)
    requires Typed(ks, d) && Indexed(ks, d) && Labels(ks, d) <= labels
    ensures AfterClear(ks, d, labels) == AfterClear(ks, d, Labels(ks, d))
  {
    forall k | k in ClearKeys(d, labels) && k in ks ensures k in ClearKeys(d, Labels(ks, d)) {
      if k != LabelsKey(d) {
        var l :| l in labels && (k == CountersKey(d, l) || k == ActiveSetKey(d, l));
        assert l in Labels(ks, d);
      }
    }
    assert ClearKeys(d, Labels(ks, d)) <= ClearKeys(d, labels);
  }

  /** Every interleaving whose clears are covered ends in exactly the state of running the same
      requests one at a time, each at the moment of its writing step. */
  lemma {:induction false} Serializable(trace: seq<Action>, deployments: set<string>)
    requires PairwiseSeparated(deployments) && Possible(trace, deployments) && Covered(trace, deployments)
    ensures After(trace, deployments).ks == Run(Serial(trace, deployments))
    ensures forall e <- Serial(trace, deployments) :: Target(e) in deployments
  {
    if trace != [] {
      var before, a := trace[..|trace| - 1], trace[|trace| - 1];
      var s, log := After(before, deployments), Serial(before, deployments);
      Serializable(before, deployments);
      ReachableInv(before, deployments);
      SerialStep(s, a, deployments, log);
      var e := Request(s, a, deployments);
      assert e != [] ==> (log + e)[..|log + e| - 1] == log;
    }
  }

  lemma SerialStep(s: System, a: Action, deployments: set<string>, log: seq<Event>)
    requires Inv(s, deployments) && Enabled(s, a, deployments) && Covers(s, a)
    requires s.ks == Run(log) && forall e <- log :: Target(e) in deployments
    ensures Next(s, a, deployments).ks == Run(log + Request(s, a, deployments))
    ensures forall e <- Request(s, a, deployments) :: Target(e) in deployments
  {
    match a
    case ReadPointer(_) => assert log + [] == log;
    case ReadLabels(_, _) => assert log + [] == log;
    case ExecReport(d, c) => RunSnoc(log, Report(s.reports[(d, c)].report));
    case AnonymousReport(r) => RunSnoc(log, Report(r));
    case ExecDownload(d, lbl) => RunSnoc(log, Download(d, lbl));
    case DeleteKeys(id) =>
      RunSnoc(log, Clear(s.clears[id].deployment));
      SerialClear(log, s.clears[id].deployment, s.clears[id].labels);
  }

  lemma SerialClear(log: seq<Event>, d: string, labels: set<string>)
    requires Apart(log, d) && Labels(Run(log), d) <= labels
    ensures AfterClear(Run(log), d, labels) == Step(Run(log), Clear(d))
  {
    LabelIndexComplete(log, d);
    CoveredClear(Run(log), d, labels);
  }

  lemma RunSnoc(log: seq<Event>, e: Event)
    ensures Run(log + [e]) == Step(Run(log), e)
  {
    assert (log + [e])[..|log + [e]| - 1] == log;
  }

  /** So the metrics after such an interleaving are the replay of its requests in writing order. */
  lemma {:induction false} InterleavedReplay(trace: seq<Action>, deployments: set<string>, d: string)
    requires PairwiseSeparated(deployments) && Possible(trace, deployments) && Covered(trace, deployments)
    requires d in deployments
    ensures Snapshot(After(trace, deployments).ks, d) == ReplayMetrics(Window(Serial(trace, deployments), d))
  {
    Serializable(trace, deployments);
    ReplayRefinement(Serial(trace, deployments), d);
  }

  // ------------------------------------------------------------------ exactly which interleavings

  /** Every listed label has counters: whatever lists a label counts under it too. */
  ghost predicate Counted(ks: Keyspace, d: string) {
    forall l <- Labels(ks, d) :: CountersKey(d, l) in ks
  }

  ghost predicate AllCounted(s: System, deployments: set<string>) {
    forall d <- deployments :: Counted(s.ks, d)
  }

  ghost predicate AllIndexed(s: System, deployments: set<string>) {
    forall d <- deployments :: Indexed(s.ks, d)
  }

  lemma CountedUntouched(before: Keyspace, after: Keyspace, d: string)
    requires forall k :: Owns(d, k) ==> SameAt(after, before, k)
    ensures Counted(before, d) ==> Counted(after, d)
    ensures Indexed(before, d) ==> Indexed(after, d)
  {
    assert Owns(d, LabelsKey(d));
    forall l ensures SameAt(after, before, CountersKey(d, l)) && SameAt(after, before, ActiveSetKey(d, l)) {
      assert Owns(d, CountersKey(d, l)) && Owns(d, ActiveSetKey(d, l));
    }
  }

  // A step that writes to one deployment only, and keeps both readings there.
  lemma WritesKeepReadings(s: System, after: Keyspace, d: string, client: string, deployments: set<string>)
    requires d in deployments && Writes(s, after, d, client, deployments)
    ensures AllCounted(s, deployments) && Counted(after, d) ==> AllCounted(s.(ks := after), deployments)
    ensures AllIndexed(s, deployments) && Indexed(after, d) ==> AllIndexed(s.(ks := after), deployments)
  {
    forall e <- deployments | e != d
      ensures Counted(s.ks, e) ==> Counted(after, e)
      ensures Indexed(s.ks, e) ==> Indexed(after, e)
    {
      CountedUntouched(s.ks, after, e);
    }
  }

  lemma ReportKeepsCounted(ks: Keyspace, r: StatusReport, prev: string)
    requires Typed(ks, r.deploymentKey) && Counted(ks, r.deploymentKey)
    ensures Counted(AfterReport(ks, r, prev), r.deploymentKey)
  {
    var d, lbl, after := r.deploymentKey, EffectiveLabel(r), AfterReport(ks, r, prev);
    ReportAtLabels(ks, r, prev);
    ReportKeysDiffer(r, prev);
    ExecAt(ks, ReportTx(r, prev), 1, CountersKey(d, lbl));
    forall l | l != lbl ensures SameAt(after, ks, CountersKey(d, l)) { ReportFrameCounters(ks, r, prev, l); }
  }

  lemma DownloadKeepsCounted(ks: Keyspace, d: string, lbl: string)
    requires Typed(ks, d) && Counted(ks, d)
    ensures Counted(AfterDownload(ks, d, lbl), d)
  {
    var tx := DownloadTx(d, lbl);
    DownloadEffect(ks, d, lbl);
    BuildersInjective(d, lbl, lbl);
    ExecAt(ks, tx, 0, CountersKey(d, lbl));
    forall l | l != lbl ensures SameAt(AfterDownload(ks, d, lbl), ks, CountersKey(d, l)) {
      BuildersInjective(d, l, lbl);
      BuildersInjective(d, l, l);
      ExecFrame(ks, tx, CountersKey(d, l));
    }
  }

  // Every step keeps labels counted, and keeps them indexed unless it is a clear that covers too little.
  lemma StepReadings(s: System, a: Action, deployments: set<string>)
    requires Inv(s, deployments) && Enabled(s, a, deployments) && AllCounted(s, deployments)
    ensures AllCounted(Next(s, a, deployments), deployments)
    ensures AllIndexed(s, deployments) ==> (AllIndexed(Next(s, a, deployments), deployments) <==> Covers(s, a))
  {
    match a
    case ReadPointer(r) =>
    case ReadLabels(id, d) =>
    case ExecReport(d, c) => ReportReadings(s, s.reports[(d, c)].report, deployments);
    case AnonymousReport(r) => ReportReadings(s, r, deployments);
    case ExecDownload(d, lbl) =>
      DownloadWrites(s, d, lbl, deployments);
      DownloadEffect(s.ks, d, lbl);
      DownloadKeepsCounted(s.ks, d, lbl);
      WritesKeepReadings(s, AfterDownload(s.ks, d, lbl), d, "", deployments);
    case DeleteKeys(id) =>
      ClearReadings(s, s.clears[id].deployment, s.clears[id].labels, deployments);
  }

  lemma ReportReadings(s: System, r: StatusReport, deployments: set<string>)
    requires Inv(s, deployments) && r.deploymentKey in deployments && AllCounted(s, deployments)
    ensures var after := s.(ks := AfterReport(s.ks, r, Pointer(s.ks, r.deploymentKey, r.client)));
      AllCounted(after, deployments) && (AllIndexed(s, deployments) ==> AllIndexed(after, deployments))
  {
    var prev := Pointer(s.ks, r.deploymentKey, r.client);
    ReportWrites(s, r, deployments);
    ReportEffect(s.ks, r, prev);
    ReportKeepsCounted(s.ks, r, prev);
    WritesKeepReadings(s, AfterReport(s.ks, r, prev), r.deploymentKey, r.client, deployments);
  }

  lemma ClearReadings(s: System, d: string, labels: set<string>, deployments: set<string>)
    requires Inv(s, deployments) && d in deployments && AllCounted(s, deployments)
    ensures var after := s.(ks := AfterClear(s.ks, d, labels));
      && AllCounted(after, deployments)
      && (AllIndexed(s, deployments) ==> (AllIndexed(after, deployments) <==> Labels(s.ks, d) <= labels))
  {
    ClearEffect(s.ks, d, labels);
    ClearWrites(s, d, labels, deployments);
    WritesKeepReadings(s, AfterClear(s.ks, d, labels), d, "", deployments);
    if l :| l in Labels(s.ks, d) && l !in labels {
      assert CountersKey(d, l) in AfterClear(s.ks, d, labels);
    }
  }

  /** The state is what serving the requests so far one at a time would give. */
  ghost predicate IsSerial(trace: seq<Action>, deployments: set<string>) {
    After(trace, deployments).ks == Run(Serial(trace, deployments))
  }

  lemma {:induction false} ReachableCounted(trace: seq<Action>, deployments: set<string>)
    requires PairwiseSeparated(deployments) && Possible(trace, deployments)
    ensures AllCounted(After(trace, deployments), deployments)
  {
    if trace != [] {
      var before := trace[..|trace| - 1];
      ReachableCounted(before, deployments);
      ReachableInv(before, deployments);
      StepReadings(After(before, deployments), trace[|trace| - 1], deployments);
    }
  }

  lemma {:induction false} CoveredPrefix(trace: seq<Action>, deployments: set<string>, n: nat)
    requires n <= |trace|
    ensures Covered(trace, deployments) ==> Covered(trace[..n], deployments)
    ensures Possible(trace, deployments) ==> Possible(trace[..n], deployments)
  {
    if n < |trace| {
      CoveredPrefix(trace[..|trace| - 1], deployments, n);
      assert trace[..|trace| - 1][..n] == trace[..n];
    } else {
      assert trace[..n] == trace;
    }
  }

  // A trace that is not covered has a first clear that deletes too little, right before which all is well.
  lemma {:induction false} FirstUncovered(trace: seq<Action>, deployments: set<string>) returns (n: nat)
    requires !Covered(trace, deployments)
    ensures n < |trace| && Covered(trace[..n], deployments)
    ensures !Covers(After(trace[..n], deployments), trace[n])
  {
    n := |trace| - 1;
    if !Covered(trace[..n], deployments) {
      var before := trace[..n];
      n := FirstUncovered(before, deployments);
      assert before[..n] == trace[..n];
    }
  }

  lemma {:induction false} CoveredIndexed(trace: seq<Action>, deployments: set<string>)
    requires PairwiseSeparated(deployments) && Possible(trace, deployments) && Covered(trace, deployments)
    ensures AllIndexed(After(trace, deployments), deployments)
  {
    if trace != [] {
      var before := trace[..|trace| - 1];
      CoveredIndexed(before, deployments);
      ReachableInv(before, deployments);
      ReachableCounted(before, deployments);
      StepReadings(After(before, deployments), trace[|trace| - 1], deployments);
    }
  }

  // Right after the first clear that deletes too little, labels are lost and no serial run gives the state.
  lemma {:induction false} UncoveredLoses(trace: seq<Action>, deployments: set<string>, n: nat)
    requires PairwiseSeparated(deployments) && Possible(trace, deployments) && n < |trace|
    requires Covered(trace[..n], deployments) && !Covers(After(trace[..n], deployments), trace[n])
    ensures !AllIndexed(After(trace[..n + 1], deployments), deployments)
    ensures !IsSerial(trace[..n + 1], deployments)
  {
    var before, upto := trace[..n], trace[..n + 1];
    CoveredPrefix(trace, deployments, n);
    CoveredPrefix(trace, deployments, n + 1);
    assert upto[..|upto| - 1] == before;
    ReachableInv(before, deployments);
    ReachableCounted(before, deployments);
    CoveredIndexed(before, deployments);
    StepReadings(After(before, deployments), trace[n], deployments);
    forall d | d in deployments && IsSerial(upto, deployments) ensures Indexed(After(upto, deployments).ks, d) {
      SerialTargets(upto, deployments);
      LabelIndexComplete(Serial(upto, deployments), d);
    }
  }

  lemma {:induction false} SerialTargets(trace: seq<Action>, deployments: set<string>)
    requires PairwiseSeparated(deployments) && Possible(trace, deployments)
    ensures forall e <- Serial(trace, deployments) :: Target(e) in deployments
  {
    if trace != [] {
      SerialTargets(trace[..|trace| - 1], deployments);
      ReachableInv(trace[..|trace| - 1], deployments);
    }
  }

  /** In an interleaving every label stays found by later clears, at every moment, exactly when each
      deletion covers the labels listed by then. */
  lemma {:induction false} IndexedThroughoutIff(trace: seq<Action>, deployments: set<string>)
    requires PairwiseSeparated(deployments) && Possible(trace, deployments)
    ensures (forall n: nat | n <= |trace| :: AllIndexed(After(trace[..n], deployments), deployments))
            <==> Covered(trace, deployments)
  {
    if Covered(trace, deployments) {
      forall n: nat | n <= |trace| ensures AllIndexed(After(trace[..n], deployments), deployments) {
        CoveredPrefix(trace, deployments, n);
        CoveredIndexed(trace[..n], deployments);
      }
    } else {
      var n := FirstUncovered(trace, deployments);
      UncoveredLoses(trace, deployments, n);
    }
  }

  /** And it is at every moment the state of its requests served one at a time exactly then. */
  lemma {:induction false} SerialThroughoutIff(trace: seq<Action>, deployments: set<string>)
    requires PairwiseSeparated(deployments) && Possible(trace, deployments)
    ensures (forall n: nat | n <= |trace| :: IsSerial(trace[..n], deployments)) <==> Covered(trace, deployments)
  {
    if Covered(trace, deployments) {
      forall n: nat | n <= |trace| ensures IsSerial(trace[..n], deployments) {
        CoveredPrefix(trace, deployments, n);
        Serializable(trace[..n], deployments);
      }
    } else {
      var n := FirstUncovered(trace, deployments);
      UncoveredLoses(trace, deployments, n);
    }
  }

  // The keyspace after a download and a clear that read its label list before it.
  function Missed(d: string, lbl: string): Keyspace {
    AfterClear(AfterDownload(map[], d, lbl), d, {})
  }

  lemma ClearMisses(ks: Keyspace, d: string, labels: set<string>, lbl: string)
    requires Typed(ks, d) && lbl !in labels
    ensures Typed(AfterClear(ks, d, labels), d)
    ensures Labels(AfterClear(ks, d, labels), d) == {}
    ensures forall f :: Counter(AfterClear(ks, d, labels), d, lbl, f) == Counter(ks, d, lbl, f)
  {
    ClearEffect(ks, d, labels);
  }

  lemma MissedReadings(d: string, lbl: string)
    ensures Typed(Missed(d, lbl), d)
    ensures Labels(Missed(d, lbl), d) == {}
    ensures Counter(Missed(d, lbl), d, lbl, "downloaded") == 1
  {
    RefinesEmpty(d);
    DownloadEffect(map[], d, lbl);
    assert Counter(map[], d, lbl, "downloaded") == 0;
    ClearMisses(AfterDownload(map[], d, lbl), d, {}, lbl);
  }

  lemma MissedStays(d: string, lbl: string)
    ensures var cleared := Step(Missed(d, lbl), Clear(d));
      && Typed(cleared, d) && Labels(cleared, d) == {} && Counter(cleared, d, lbl, "downloaded") == 1
  {
    MissedReadings(d, lbl);
    ClearMisses(Missed(d, lbl), d, {}, lbl);
  }

  lemma MissedReturns(ks: Keyspace, d: string, lbl: string)
    requires Typed(ks, d) && Labels(ks, d) == {} && Counter(ks, d, lbl, "downloaded") == 1
    ensures var m := Snapshot(AfterDownload(ks, d, lbl), d);
      m.Keys == {lbl} && m[lbl].downloaded == 2
  {
    DownloadEffect(ks, d, lbl);
    assert Counter(AfterDownload(ks, d, lbl), d, lbl, "downloaded") == 2;
  }

  lemma AfterSnoc(trace: seq<Action>, a: Action, deployments: set<string>)
    ensures After(trace + [a], deployments) == Next(After(trace, deployments), a, deployments)
    ensures Possible(trace + [a], deployments)
            <==> Possible(trace, deployments) && Enabled(After(trace, deployments), a, deployments)
    ensures Covered(trace + [a], deployments)
            <==> Covered(trace, deployments) && Covers(After(trace, deployments), a)
  {
    assert (trace + [a])[..|trace + [a]| - 1] == trace;
  }

  lemma MissedTrace(d: string, lbl: string) returns (trace: seq<Action>)
    ensures trace == [ReadLabels(0, d), ExecDownload(d, lbl), DeleteKeys(0)]
    ensures Possible(trace, {d}) && !Covered(trace, {d})
    ensures After(trace, {d}).ks == Missed(d, lbl)
  {
    var read, download, delete := ReadLabels(0, d), ExecDownload(d, lbl), DeleteKeys(0);
    AfterSnoc([], read, {d});
    AfterSnoc([read], download, {d});
    AfterSnoc([read] + [download], delete, {d});
    trace := [read] + [download] + [delete];
    assert [] + [read] == [read];
    RefinesEmpty(d);
    DownloadEffect(map[], d, lbl);
  }

  /** It happens: a download of a new label between a clear's two steps is counted but listed
      nowhere, is missed by the next clear too, and turns up in the count of a later download. */
  lemma DownloadDuringClear(d: string, lbl: string) returns (trace: seq<Action>)
    ensures trace == [ReadLabels(0, d), ExecDownload(d, lbl), DeleteKeys(0)]
    ensures Possible(trace, {d}) && !Covered(trace, {d})
    ensures var ks := After(trace, {d}).ks;
      var cleared := Step(ks, Clear(d));
      var later := Snapshot(AfterDownload(cleared, d, lbl), d);
      && Snapshot(ks, d) == map[] && Counter(ks, d, lbl, "downloaded") == 1
      && Snapshot(cleared, d) == map[] && Counter(cleared, d, lbl, "downloaded") == 1
      && later.Keys == {lbl} && later[lbl].downloaded == 2
  {
    trace := MissedTrace(d, lbl);
    MissedReadings(d, lbl);
    MissedStays(d, lbl);
    MissedReturns(Step(Missed(d, lbl), Clear(d)), d, lbl);
  }

  // ------------------------------------------------------------------ what the premises buy

  /** A clear that deletes by an outdated label list keeps the label index complete exactly when
      every label still counted or active was on that list. */
  lemma OutdatedClearExact(ks: Keyspace, d: string, labels: set<string>)
    requires Typed(ks, d)
    ensures Indexed(AfterClear(ks, d, labels), d)
            <==> forall l :: CountersKey(d, l) in ks || ActiveSetKey(d, l) in ks ==> l in labels
  {
    ClearEffect(ks, d, labels);
  }

  /** A report whose pointer value is out of date still leaves every member pointed at exactly
      when the client has nothing to leave, is staying, or the value happens to be right. */
  lemma StaleReadExact(ks: Keyspace, r: StatusReport, prev: string)
    requires Typed(ks, r.deploymentKey) && MembersPointed(ks, r.deploymentKey) && r.client != ""
    ensures var d, p := r.deploymentKey, Pointer(ks, r.deploymentKey, r.client);
      MembersPointed(AfterReport(ks, r, prev), d)
      <==> p == "" || p == EffectiveLabel(r) || p == prev || r.client !in Active(ks, d, p)
  {
    var d, c, p := r.deploymentKey, r.client, Pointer(ks, r.deploymentKey, r.client);
    ReportEffect(ks, r, prev);
    var after := AfterReport(ks, r, prev);
    assert Active(after, d, p) == ActiveAfter(Active(ks, d, p), p, r, prev);
    if p != "" && p != EffectiveLabel(r) && p != prev && c in Active(ks, d, p) {
      assert c in Active(after, d, p);
    }
  }
}

/** The report log, its replay, and the proof that the incremental store agrees with the replay. */
module ReportLog {
  import opened Common
  import opened Decimal
  import opened MetricsKeys
  import opened Redis
  import opened MetricsStore

  datatype Event =
    | Download(deployment: string, lbl: string)
    | Report(report: StatusReport)
    | Clear(deployment: string)

  function Target(e: Event): string {
    if e.Report? then e.report.deploymentKey else e.deployment
  }

  /** One request against the store, as the adapter's methods leave the keyspace. */
  function Step(ks: Keyspace, e: Event): Keyspace {
    match e
    case Download(d, lbl) => AfterDownload(ks, d, lbl)
    case Report(r) => AfterReport(ks, r, Pointer(ks, r.deploymentKey, r.client))
    case Clear(d) => if SMembers(ks, LabelsKey(d)).Success? then AfterClear(ks, d, Labels(ks, d)) else ks
  }

  /** The store after a whole log, starting empty. */
  function Run(log: seq<Event>): Keyspace {
    if log == [] then map[] else Step(Run(log[..|log| - 1]), log[|log| - 1])
  }

  // ------------------------------------------------------------------ replay

  /** What happened to one deployment since it was last cleared. */
  function Window(log: seq<Event>, d: string): (w: seq<Event>)
    ensures forall e <- w :: !e.Clear? && Target(e) == d
  {
    if log == [] then []
    else Advance(Window(log[..|log| - 1], d), log[|log| - 1], d)
  }

  function Advance(w: seq<Event>, e: Event, d: string): seq<Event> {
    if Target(e) != d then w else if e.Clear? then [] else w + [e]
  }

  function LabelOf(e: Event): string
    requires !e.Clear?
  {
    if e.Report? then EffectiveLabel(e.report) else e.lbl
  }

  function FieldOf(e: Event): string
    requires !e.Clear?
  {
    if e.Report? then ReportField(e.report) else "downloaded"
  }

  function ClientOf(e: Event): string {
    if e.Report? then e.report.client else ""
  }

  type Reports = w: seq<Event> | forall e <- w :: !e.Clear?

  function LabelsOf(w: Reports): set<string> {
    set e | e in w :: LabelOf(e)
  }

  function Count(w: Reports, lbl: string, field: string): nat {
    if w == [] then 0
    else
      var e := w[|w| - 1];
      Count(w[..|w| - 1], lbl, field) + (if LabelOf(e) == lbl && FieldOf(e) == field then 1 else 0)
  }

  /** The clients that named themselves in some report. */
  function Clients(w: Reports): set<string> {
    set e | e in w && ClientOf(e) != "" :: ClientOf(e)
  }

  /** The label of a client's latest report. */
  function Latest(w: Reports, client: string): Option<string> {
    if w == [] || client == "" then None
    else if ClientOf(w[|w| - 1]) == client then Some(LabelOf(w[|w| - 1]))
    else Latest(w[..|w| - 1], client)
  }

  predicate EverEmpty(w: Reports, client: string) {
    exists e <- w :: ClientOf(e) == client && LabelOf(e) == ""
  }

  /** The clients whose latest report carries the label. */
  function LatestOn(w: Reports, lbl: string): set<string> {
    set c | c in Clients(w) && Latest(w, c) == Some(lbl)
  }

  /** The clients a label's active set holds. Leaving the empty label goes unnoticed, so its set
      keeps everyone who ever reported it. */
  function ActiveOn(w: Reports, lbl: string): set<string> {
    if lbl == "" then set c | c in Clients(w) && EverEmpty(w, c) else LatestOn(w, lbl)
  }

  function Saturated(n: nat): Word {
    if n <= MAX_INT64 then n else MAX_INT64
  }

  function ReplayMetrics(w: Reports): map<string, UpdateMetrics> {
    map l | l in LabelsOf(w) :: ReplayAt(w, l)
  }

  function ReplayAt(w: Reports, l: string): UpdateMetrics {
    UpdateMetrics(
      |ActiveOn(w, l)|, Saturated(Count(w, l, "downloaded")), Saturated(Count(w, l, "failed")),
      Saturated(Count(w, l, "installed")))
  }

  // ------------------------------------------------------------------ refinement

  ghost predicate CountersAgree(ks: Keyspace, d: string, w: Reports) {
    forall l, f :: Counter(ks, d, l, f) == Saturated(Count(w, l, f))
  }

  ghost predicate ActiveAgree(ks: Keyspace, d: string, w: Reports) {
    forall l :: Active(ks, d, l) == ActiveOn(w, l)
  }

  ghost predicate PointersAgree(ks: Keyspace, d: string, w: Reports) {
    forall c :: Latest(w, c).Some? ==> Pointer(ks, d, c) == Latest(w, c).value
  }

  ghost predicate Refines(ks: Keyspace, d: string, w: Reports) {
    && Typed(ks, d)
    && Indexed(ks, d)
    && Labels(ks, d) == LabelsOf(w)
    && CountersAgree(ks, d, w)
    && ActiveAgree(ks, d, w)
    && PointersAgree(ks, d, w)
  }

  lemma LatestKnown(w: Reports, c: string)
    ensures Latest(w, c).Some? <==> c in Clients(w)
    ensures Latest(w, c) == Some("") ==> EverEmpty(w, c)
  {
    if w != [] {
      var e := w[|w| - 1];
      LatestKnown(w[..|w| - 1], c);
      assert w == w[..|w| - 1] + [e];
    }
  }

  // How the replay's readings grow by one event.
  lemma Grow(w: Reports, e: Event)
    requires !e.Clear?
    ensures LabelsOf(w + [e]) == LabelsOf(w) + {LabelOf(e)}
    ensures Clients(w + [e]) == Clients(w) + (if ClientOf(e) == "" then {} else {ClientOf(e)})
    ensures forall l, f ::
      Count(w + [e], l, f) == Count(w, l, f) + (if LabelOf(e) == l && FieldOf(e) == f then 1 else 0)
    ensures forall c :: Latest(w + [e], c) == if c != "" && c == ClientOf(e) then Some(LabelOf(e)) else Latest(w, c)
    ensures forall c :: EverEmpty(w + [e], c) <==> EverEmpty(w, c) || (c == ClientOf(e) && LabelOf(e) == "")
  {
    var w' := w + [e];
    assert w'[..|w'| - 1] == w && w'[|w'| - 1] == e;
    assert forall x :: x in w' <==> x in w || x == e;
  }

  lemma GrowActive(w: Reports, e: Event, l: string)
    requires !e.Clear?
    ensures ActiveOn(w + [e], l) ==
      if ClientOf(e) == "" then ActiveOn(w, l)
      else if l == LabelOf(e) then ActiveOn(w, l) + {ClientOf(e)}
      else if l != "" then ActiveOn(w, l) - {ClientOf(e)}
      else ActiveOn(w, l)
  {
    Grow(w, e);
    LatestKnown(w, ClientOf(e));
  }

  lemma CountersStep(ks: Keyspace, after: Keyspace, d: string, w: Reports, e: Event)
    requires !e.Clear? && CountersAgree(ks, d, w)
    requires forall l, f :: Counter(after, d, l, f)
                            == (if l == LabelOf(e) && f == FieldOf(e) then Bump(Counter(ks, d, l, f))
                                else Counter(ks, d, l, f))
    ensures CountersAgree(after, d, w + [e])
  {
    forall l, f ensures Counter(after, d, l, f) == Saturated(Count(w + [e], l, f)) {
      Grow(w, e);
      assert Counter(ks, d, l, f) == Saturated(Count(w, l, f));
    }
  }

  lemma ActiveStep(ks: Keyspace, d: string, w: Reports, r: StatusReport, l: string)
    requires Active(ks, d, l) == ActiveOn(w, l)
    requires Latest(w, r.client).Some? ==> Pointer(ks, d, r.client) == Latest(w, r.client).value
    ensures ActiveAfter(Active(ks, d, l), l, r, Pointer(ks, d, r.client)) == ActiveOn(w + [Report(r)], l)
  {
    GrowActive(w, Report(r), l);
    LatestKnown(w, r.client);
  }

  lemma RefinesDownload(ks: Keyspace, d: string, w: Reports, lbl: string)
    requires Refines(ks, d, w)
    ensures Refines(AfterDownload(ks, d, lbl), d, w + [Download(d, lbl)])
  {
    var e, after := Download(d, lbl), AfterDownload(ks, d, lbl);
    DownloadEffect(ks, d, lbl);
    CountersStep(ks, after, d, w, e);
    Grow(w, e);
    forall l ensures Active(after, d, l) == ActiveOn(w + [e], l) { GrowActive(w, e, l); }
  }

  lemma RefinesReport(ks: Keyspace, w: Reports, r: StatusReport)
    requires Refines(ks, r.deploymentKey, w)
    ensures Refines(Step(ks, Report(r)), r.deploymentKey, w + [Report(r)])
  {
    var d, e, prev := r.deploymentKey, Report(r), Pointer(ks, r.deploymentKey, r.client);
    var after := AfterReport(ks, r, prev);
    ReportEffect(ks, r, prev);
    assert CountersAgree(after, d, w + [e]) by { CountersStep(ks, after, d, w, e); }
    assert ActiveAgree(after, d, w + [e]) by {
      forall l ensures Active(after, d, l) == ActiveOn(w + [e], l) { ActiveStep(ks, d, w, r, l); }
    }
    Grow(w, e);
  }

  // With a complete label index, clearing leaves no label, counter or active client.
  lemma ClearedReadings(ks: Keyspace, d: string)
    requires Typed(ks, d) && Indexed(ks, d)
    ensures var after := AfterClear(ks, d, Labels(ks, d));
      && Typed(after, d)
      && Labels(after, d) == {}
      && (forall l :: CountersKey(d, l) !in after && ActiveSetKey(d, l) !in after)
  {
    ClearEffect(ks, d, Labels(ks, d));
  }

  lemma RefinesClear(ks: Keyspace, d: string, w: Reports)
    requires Refines(ks, d, w)
    ensures Refines(Step(ks, Clear(d)), d, [])
  {
    ClearedReadings(ks, d);
    var after := AfterClear(ks, d, Labels(ks, d));
    assert Step(ks, Clear(d)) == after;
    forall l ensures Active(after, d, l) == ActiveOn([], l) {}
  }

  lemma RefinesOther(ks: Keyspace, after: Keyspace, d: string, w: Reports)
    requires Refines(ks, d, w)
    requires forall k :: Owns(d, k) ==> SameAt(after, ks, k)
    ensures Refines(after, d, w)
  {
    assert Owns(d, LabelsKey(d));
    forall x
      ensures SameAt(after, ks, CountersKey(d, x)) && SameAt(after, ks, ActiveSetKey(d, x))
          && SameAt(after, ks, ClientKey(d, x))
      ensures forall f :: Counter(after, d, x, f) == Counter(ks, d, x, f)
      ensures Active(after, d, x) == Active(ks, d, x) && Pointer(after, d, x) == Pointer(ks, d, x)
    {
      assert Owns(d, CountersKey(d, x)) && Owns(d, ActiveSetKey(d, x)) && Owns(d, ClientKey(d, x));
    }
    assert CountersAgree(after, d, w);
    assert ActiveAgree(after, d, w);
    assert PointersAgree(after, d, w);
  }

  lemma StepElsewhere(ks: Keyspace, e: Event, d: string, k: string)
    requires Owns(d, k) && Separated(d, Target(e))
    ensures SameAt(Step(ks, e), ks, k)
  {
    var r := if e.Report? then e.report else StatusReport(Target(e), "", "", "", "");
    OtherDeploymentsUntouched(ks, d, k, r, Pointer(ks, r.deploymentKey, r.client),
                              if e.Download? then e.lbl else "", Labels(ks, Target(e)));
  }

  lemma RefinesStep(ks: Keyspace, e: Event, d: string, w: Reports)
    requires Refines(ks, d, w) && (Target(e) == d || Separated(d, Target(e)))
    ensures Refines(Step(ks, e), d, Advance(w, e, d))
  {
    if Target(e) != d {
      forall k | Owns(d, k) ensures SameAt(Step(ks, e), ks, k) { StepElsewhere(ks, e, d, k); }
      RefinesOther(ks, Step(ks, e), d, w);
    } else {
      match e
      case Download(_, lbl) => RefinesDownload(ks, d, w, lbl);
      case Report(r) => RefinesReport(ks, w, r);
      case Clear(_) => RefinesClear(ks, d, w);
    }
  }

  lemma RefinesEmpty(d: string)
    ensures Refines(map[], d, [])
  {
    assert forall l :: Active(map[], d, l) == {};
  }

  lemma {:induction false} SnapshotIsReplay(ks: Keyspace, d: string, w: Reports)
    requires Refines(ks, d, w)
    ensures Snapshot(ks, d) == ReplayMetrics(w)
  {
    forall l ensures MetricsAt(ks, d, l) == ReplayAt(w, l) { RefinesAt(ks, d, w, l); }
  }

  lemma RefinesAt(ks: Keyspace, d: string, w: Reports, l: string)
    requires CountersAgree(ks, d, w) && ActiveAgree(ks, d, w)
    ensures MetricsAt(ks, d, l) == ReplayAt(w, l)
  {
    assert Active(ks, d, l) == ActiveOn(w, l);
  }

  /** Every other deployment named in the log has keys of its own. */
  ghost predicate Apart(log: seq<Event>, d: string) {
    forall e <- log :: Target(e) == d || Separated(d, Target(e))
  }

  lemma {:induction false} RunRefines(log: seq<Event>, d: string)
    requires Apart(log, d)
    ensures Refines(Run(log), d, Window(log, d))
  {
    if log == [] {
      RefinesEmpty(d);
    } else {
      var before, e := log[..|log| - 1], log[|log| - 1];
      RunRefines(before, d);
      RefinesStep(Run(before), e, d, Window(before, d));
    }
  }

  /** After every log of downloads, reports and clears, of any length and over any separated
      deployments, the store answers for a deployment what replaying its own events since its
      last clear gives, however many stale client pointers earlier clears left behind. */
  lemma {:induction false} ReplayRefinement(log: seq<Event>, d: string)
    requires Apart(log, d)
    ensures Snapshot(Run(log), d) == ReplayMetrics(Window(log, d))
  {
    RunRefines(log, d);
    SnapshotIsReplay(Run(log), d, Window(log, d));
  }

  // A label that is not listed has no counts.
  lemma {:induction false} UnlistedCount(w: Reports, l: string, f: string)
    requires l !in LabelsOf(w)
    ensures Count(w, l, f) == 0
  {
    if w != [] {
      var before, e := w[..|w| - 1], w[|w| - 1];
      assert w == before + [e];
      Grow(before, e);
      UnlistedCount(before, l, f);
    }
  }

  function CountsOf(m: map<string, UpdateMetrics>, l: string): (int, int, int) {
    if l in m then (m[l].downloaded, m[l].installed, m[l].failed) else (0, 0, 0)
  }

  function OneMore(n: int): int {
    if n < 0x7fff_ffff_ffff_ffff then n + 1 else n
  }

  function Triple(ks: Keyspace, d: string, l: string): (int, int, int) {
    (Counter(ks, d, l, "downloaded"), Counter(ks, d, l, "installed"), Counter(ks, d, l, "failed"))
  }

  lemma CountsAre(ks: Keyspace, d: string, w: Reports, l: string)
    requires Refines(ks, d, w)
    ensures CountsOf(Snapshot(ks, d), l) == Triple(ks, d, l)
  {
    if l !in LabelsOf(w) {
      UnlistedCount(w, l, "downloaded");
      UnlistedCount(w, l, "installed");
      UnlistedCount(w, l, "failed");
    }
  }

  /** The counts of a label after a report. */
  function CountsAfter(counts: (int, int, int), r: StatusReport, l: string): (int, int, int) {
    var (downloaded, installed, failed) := counts;
    if l != (if r.releaseLabel != "" then r.releaseLabel else r.appVersion) then counts
    else if r.status == "DeploymentFailed" then (downloaded, installed, OneMore(failed))
    else (downloaded, OneMore(installed), failed)
  }

  /** What one report adds to the answer after any log. It is filed under its label, or under its
      app version if it has none. There "failed" goes up by one if the status is
      "DeploymentFailed" and "installed" does otherwise; no other count changes. */
  lemma {:induction false} ReportCounted(log: seq<Event>, r: StatusReport, l: string)
    requires Apart(log, r.deploymentKey)
    ensures var d := r.deploymentKey;
      var lbl := if r.releaseLabel != "" then r.releaseLabel else r.appVersion;
      var before, after := Snapshot(Run(log), d), Snapshot(Run(log + [Report(r)]), d);
      && after.Keys == before.Keys + {lbl}
      && CountsOf(after, l) == CountsAfter(CountsOf(before, l), r, l)
  {
    var d, now := r.deploymentKey, log + [Report(r)];
    assert now[..|now| - 1] == log;
    assert Apart(now, d);
    CountsOver(log, d, l);
    CountsOver(now, d, l);
    assert Typed(Run(log), d) by { RunRefines(log, d); }
    TripleStep(Run(log), r, Pointer(Run(log), d, r.client), l);
    Grow(Window(log, d), Report(r));
  }

  lemma {:induction false} CountsOver(log: seq<Event>, d: string, l: string)
    requires Apart(log, d)
    ensures Snapshot(Run(log), d).Keys == LabelsOf(Window(log, d))
    ensures CountsOf(Snapshot(Run(log), d), l) == Triple(Run(log), d, l)
  {
    RunRefines(log, d);
    CountsAre(Run(log), d, Window(log, d), l);
  }

  lemma TripleStep(ks: Keyspace, r: StatusReport, prev: string, l: string)
    requires Typed(ks, r.deploymentKey)
    ensures Triple(AfterReport(ks, r, prev), r.deploymentKey, l) == CountsAfter(Triple(ks, r.deploymentKey, l), r, l)
  {
    ReportAtCounters(ks, r, prev, l);
  }

  /** In every reachable state the label index is complete. */
  lemma LabelIndexComplete(log: seq<Event>, d: string)
    requires Apart(log, d)
    ensures Typed(Run(log), d) && Indexed(Run(log), d)
  {
    RunRefines(log, d);
  }

  /** A clear right after any log leaves nothing of the deployment but client pointers. */
  lemma ClearLeavesOnlyPointers(log: seq<Event>, d: string, k: string)
    requires Apart(log, d)
    requires Owns(d, k) && k in Step(Run(log), Clear(d))
    ensures exists c :: k == ClientKey(d, c)
  {
    LabelIndexComplete(log, d);
    var ks := Run(log);
    ClearedReadings(ks, d);
    assert LabelsKey(d) in ClearKeys(d, Labels(ks, d));
  }

  /** The active sets are exactly "whose latest report carries this label" if and only if no
      client that ever reported an empty label has since moved to another one. */
  lemma ActiveIsLatestIff(log: seq<Event>, d: string)
    requires Apart(log, d)
    ensures (forall l :: Active(Run(log), d, l) == LatestOn(Window(log, d), l))
            <==> forall c <- Clients(Window(log, d)) ::
                   EverEmpty(Window(log, d), c) ==> Latest(Window(log, d), c) == Some("")
  {
    RunRefines(log, d);
    var w := Window(log, d);
    forall c ensures Latest(w, c) == Some("") ==> EverEmpty(w, c) { LatestKnown(w, c); }
    if forall l :: Active(Run(log), d, l) == LatestOn(w, l) {
      assert Active(Run(log), d, "") == LatestOn(w, "");
      forall c <- Clients(w) | EverEmpty(w, c) ensures Latest(w, c) == Some("") {
        assert c in ActiveOn(w, "");
      }
    }
  }

  lemma TwoSteps(x: Event, y: Event, d: string)
    ensures Run([x, y]) == Step(Step(map[], x), y)
    ensures Window([x, y], d) == Advance(Advance([], x, d), y, d)
  {
    var one, two := [x], [x, y];
    assert one[..|one| - 1] == [] && two[..|two| - 1] == one;
    assert Run([]) == map[] && Window([], d) == [];
    assert Run(one) == Step(Run([]), x) && Window(one, d) == Advance(Window([], d), x, d);
  }

  // One client's reports of two labels, and the replay of them.
  lemma TwoReports(a: StatusReport, b: StatusReport)
    requires a.deploymentKey == b.deploymentKey && a.client == b.client != ""
    ensures var d, log := a.deploymentKey, [Report(a), Report(b)];
      && Window(log, d) == log
      && Clients(log) == {a.client}
      && Latest(log, a.client) == Some(EffectiveLabel(b))
      && (EverEmpty(log, a.client) <==> EffectiveLabel(a) == "" || EffectiveLabel(b) == "")
      && forall l :: Active(Run(log), d, l) == ActiveOn(log, l)
  {
    var d, x, y := a.deploymentKey, Report(a), Report(b);
    TwoSteps(x, y, d);
    assert [] + [x] == [x] && [x] + [y] == [x, y];
    Grow([], x);
    Grow([x], y);
    RunRefines([x, y], d);
  }

  /** A failed deploy takes its client out of the label it ran before and into the label that failed. */
  lemma FailedDeployMovesClient(d: string, client: string, before: string, failed: string) returns (log: seq<Event>)
    requires client != "" && before != "" && failed != "" && before != failed
    ensures log == [Report(StatusReport(d, before, "", client, DEPLOY_SUCCEEDED)),
                    Report(StatusReport(d, failed, "", client, DEPLOY_FAILED))]
    ensures var ks := Run(log);
      && Active(ks, d, before) == {} && Active(ks, d, failed) == {client}
      && Counter(ks, d, failed, "failed") == 1 && Counter(ks, d, failed, "installed") == 0
  {
    var a := StatusReport(d, before, "", client, DEPLOY_SUCCEEDED);
    var b := StatusReport(d, failed, "", client, DEPLOY_FAILED);
    log := [Report(a), Report(b)];
    TwoReports(a, b);
    TwoCounts(log[0], log[1], failed, "failed");
    TwoCounts(log[0], log[1], failed, "installed");
  }

  lemma TwoCounts(x: Event, y: Event, l: string, f: string)
    requires x.Report? && y.Report? && x.report.deploymentKey == y.report.deploymentKey
    ensures Counter(Run([x, y]), Target(x), l, f)
            == (if LabelOf(x) == l && FieldOf(x) == f then 1 else 0)
               + (if LabelOf(y) == l && FieldOf(y) == f then 1 else 0)
  {
    TwoSteps(x, y, Target(x));
    assert [] + [x] == [x] && [x] + [y] == [x, y];
    Grow([], x);
    Grow([x], y);
    RunRefines([x, y], Target(x));
    assert Counter(Run([x, y]), Target(x), l, f) == Saturated(Count([x, y], l, f));
  }

  /** A client that reports an empty label and then another one is active on both. */
  lemma EmptyLabelKeepsClient(d: string, client: string, next: string) returns (log: seq<Event>)
    requires client != "" && next != ""
    ensures log == [Report(StatusReport(d, "", "", client, "")), Report(StatusReport(d, next, "", client, ""))]
    ensures Active(Run(log), d, "") == {client} && Active(Run(log), d, next) == {client}
    ensures LatestOn(Window(log, d), "") == {}
  {
    var a, b := StatusReport(d, "", "", client, ""), StatusReport(d, next, "", client, "");
    log := [Report(a), Report(b)];
    TwoReports(a, b);
  }

  // ------------------------------------------------------------------ separation is needed

  ghost predicate AgreesOn(log: seq<Event>, d: string) {
    Snapshot(Run(log), d) == ReplayMetrics(Window(log, d))
  }

  ghost predicate Over(log: seq<Event>, d: string, e: string) {
    forall x <- log :: Target(x) == d || Target(x) == e
  }

  lemma OneDownload(d: string, lbl: string)
    ensures var m := ReplayMetrics([Download(d, lbl)]); lbl in m && m[lbl].downloaded == 1
  {
    var e := Download(d, lbl);
    Grow([], e);
    assert [] + [e] == [e];
  }

  lemma SharedCounterTwice(d: string, lbl: string, e: string, other: string)
    requires CountersKey(d, lbl) == CountersKey(e, other)
    ensures Counter(AfterDownload(AfterDownload(map[], e, other), d, lbl), d, lbl, "downloaded") == 2
  {
    RefinesEmpty(e);
    DownloadEffect(map[], e, other);
    var ks := AfterDownload(map[], e, other);
    assert Counter(ks, e, other, "downloaded") == 1;
    BuildersInjective(d, lbl, lbl);
    ExecAt(ks, DownloadTx(d, lbl), 0, CountersKey(d, lbl));
  }

  lemma PointerBlocksLabels(d: string, client: string, e: string)
    requires client != "" && ClientKey(d, client) == LabelsKey(e)
    ensures Labels(AfterDownload(AfterReport(map[], StatusReport(d, "v1", "", client, ""), ""), e, "v1"), e) == {}
  {
    var r := StatusReport(d, "v1", "", client, "");
    RefinesEmpty(d);
    ReportEffect(map[], r, "");
    var ks := AfterReport(map[], r, "");
    assert Pointer(ks, d, client) == "v1";
    BuildersInjective(e, "v1", "v1");
    ExecAt(ks, DownloadTx(e, "v1"), 1, LabelsKey(e));
  }

  // A counter shared by two deployments is counted twice.
  lemma SharedCounterMiscounts(d: string, lbl: string, e: string, other: string) returns (log: seq<Event>)
    requires d != e && CountersKey(d, lbl) == CountersKey(e, other)
    ensures Over(log, d, e) && !AgreesOn(log, d)
  {
    log := [Download(e, other), Download(d, lbl)];
    TwoSteps(log[0], log[1], d);
    SharedCounterTwice(d, lbl, e, other);
    assert Window(log, d) == [log[1]];
    OneDownload(d, lbl);
  }

  // With a label segment between them the keys share a counter, and either deployment may lose by it.
  lemma LabelShadowMiscounts(d: string, e: string) returns (log: seq<Event>, logE: seq<Event>)
    requires d != e && d + ":label:" <= e + ":"
    ensures Over(log, d, e) && !AgreesOn(log, d)
    ensures Over(logE, d, e) && !AgreesOn(logE, e)
  {
    var l := LabelShadow(d, e);
    log := SharedCounterMiscounts(d, l, e, "");
    logE := SharedCounterMiscounts(e, "", d, l);
  }

  // A client pointer in the place of a label list keeps labels from being listed.
  lemma ClientShadowMiscounts(d: string, e: string) returns (log: seq<Event>)
    requires d != e && d + ":client:" <= e + ":"
    ensures Over(log, d, e) && !AgreesOn(log, e)
  {
    var c := ClientShadow(d, e);
    var r := StatusReport(d, "v1", "", c, "");
    log := [Report(r), Download(e, "v1")];
    TwoSteps(log[0], log[1], e);
    PointerBlocksLabels(d, c, e);
    assert Window(log, e) == [log[1]];
    OneDownload(e, "v1");
  }

  lemma ThreeSteps(x: Event, y: Event, z: Event, d: string)
    ensures Run([x, y, z]) == Step(Run([x, y]), z)
    ensures Window([x, y, z], d) == Advance(Window([x, y], d), z, d)
  {
    assert [x, y, z][..|[x, y, z]| - 1] == [x, y];
  }

  // What becomes of the first deployment's client when its pointer is overwritten.
  lemma StaysInSet(d: string, e: string, c: string, first: StatusReport, foreign: StatusReport, second: StatusReport)
    requires d + ":client:" <= e + ":" && c != "" && ClientKey(d, c) == ClientKey(e, "x")
    requires first == StatusReport(d, "v1", "", c, "")
    requires foreign == StatusReport(e, "v2", "", "x", "")
    requires second == StatusReport(d, "v3", "", c, "")
    ensures c in Active(Run([Report(first), Report(foreign), Report(second)]), d, "v1")
  {
    TwoSteps(Report(first), Report(foreign), d);
    ThreeSteps(Report(first), Report(foreign), Report(second), d);
    RefinesEmpty(d);
    ReportEffect(map[], first, "");
    var one := AfterReport(map[], first, "");
    assert Active(one, d, "v1") == ActiveAfter({}, "v1", first, "");
    var prev := Pointer(one, e, "x");
    ForeignReport(d, e, one, foreign, prev);
    var two := AfterReport(one, foreign, prev);
    assert Pointer(two, d, c) == "v2";
    ReportFrameActive(two, second, "v2", "v1");
  }

  // A report on e writes only where d keeps client pointers, and leaves its own pointer there.
  lemma ForeignReport(d: string, e: string, ks: Keyspace, r: StatusReport, prev: string)
    requires d + ":client:" <= e + ":" && r.deploymentKey == e && r.client != ""
    ensures Active(AfterReport(ks, r, prev), d, "v1") == Active(ks, d, "v1")
    ensures Pointer(AfterReport(ks, r, prev), e, r.client) == EffectiveLabel(r)
  {
    var tx := ReportTx(r, prev);
    forall c <- tx ensures KeyOf(c) != ActiveSetKey(d, "v1") {
      assert Owns(e, KeyOf(c));
      var client := OwnedAreClients(d, e, KeyOf(c));
      BuildersInjective(d, "v1", client);
    }
    ExecFrame(ks, tx, ActiveSetKey(d, "v1"));
    ReportKeysDiffer(r, prev);
    ExecAt(ks, tx, |tx| - 2, ClientKey(e, r.client));
  }

  // With a client segment between them all of e's keys are client pointers of d. A report on e
  // can overwrite the pointer of a client of d, who then stays in the set it should leave.
  lemma PointerOverwritten(d: string, e: string) returns (log: seq<Event>)
    requires d != e && d + ":client:" <= e + ":"
    ensures Over(log, d, e) && !AgreesOn(log, d)
  {
    var c := SharedPointer(d, e, "x");
    var first, foreign, second :=
      StatusReport(d, "v1", "", c, ""), StatusReport(e, "v2", "", "x", ""), StatusReport(d, "v3", "", c, "");
    log := [Report(first), Report(foreign), Report(second)];
    ThreeSteps(log[0], log[1], log[2], d);
    TwoSteps(log[0], log[1], d);
    assert [] + [log[0]] == [log[0]] && [log[0]] + [log[2]] == [log[0], log[2]];
    StaysInSet(d, e, c, first, foreign, second);
    TwoReports(first, second);
    assert ActiveOn([log[0], log[2]], "v1") == {};
    if AgreesOn(log, d) { AgreedActive(log, d, log[0]); }
  }

  lemma AgreedActive(log: seq<Event>, d: string, e: Event)
    requires AgreesOn(log, d) && e in Window(log, d)
    ensures |Active(Run(log), d, LabelOf(e))| == |ActiveOn(Window(log, d), LabelOf(e))|
  {
    var l := LabelOf(e);
    assert l in LabelsOf(Window(log, d));
    assert Snapshot(Run(log), d)[l] == ReplayMetrics(Window(log, d))[l];
  }

  /** A deployment is answered correctly after every log about it and one other exactly when
      their keys are separated; so either both always are, or neither. */
  lemma ReplayNeedsSeparation(d: string, e: string)
    requires d != e
    ensures (forall log :: Over(log, d, e) ==> AgreesOn(log, d)) <==> Separated(d, e)
    ensures (forall log :: Over(log, d, e) ==> AgreesOn(log, d) && AgreesOn(log, e)) <==> Separated(d, e)
  {
    if Separated(d, e) {
      forall log | Over(log, d, e) ensures AgreesOn(log, d) && AgreesOn(log, e) {
        ReplayRefinement(log, d);
        ReplayRefinement(log, e);
      }
    } else {
      var log, other;
      if d + ":label:" <= e + ":" { log, other := LabelShadowMiscounts(d, e); }
      else if e + ":label:" <= d + ":" { other, log := LabelShadowMiscounts(e, d); }
      else if d + ":client:" <= e + ":" { log := PointerOverwritten(d, e); }
      else { log := ClientShadowMiscounts(e, d); }
    }
  }
}

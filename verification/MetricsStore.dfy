/** The Redis-backed metrics store: downloads, status reports, and clearing a deployment. */
module MetricsStore {
  import opened Common
  import opened Decimal
  import opened MetricsKeys
  import opened Redis

  const DEPLOY_SUCCEEDED := "DeploymentSucceeded"
  const DEPLOY_FAILED := "DeploymentFailed"

  datatype StatusReport = StatusReport(
    deploymentKey: string, releaseLabel: string, appVersion: string, client: string, status: string)

  datatype UpdateMetrics = UpdateMetrics(active: int, downloaded: int, failed: int, installed: int)

  function EffectiveLabel(r: StatusReport): string {
    if r.releaseLabel == "" then r.appVersion else r.releaseLabel
  }

  /** The counter a report bumps: everything but an explicit failure counts as installed. */
  function ReportField(r: StatusReport): string {
    if r.status == DEPLOY_FAILED then "failed" else "installed"
  }

  // What the keyspace says about one deployment.
  function Labels(ks: Keyspace, d: string): set<string> {
    MembersAt(ks, LabelsKey(d))
  }

  function Counter(ks: Keyspace, d: string, lbl: string, field: string): Word {
    FieldAt(ks, CountersKey(d, lbl), field)
  }

  function Active(ks: Keyspace, d: string, lbl: string): set<string> {
    MembersAt(ks, ActiveSetKey(d, lbl))
  }

  function Pointer(ks: Keyspace, d: string, client: string): string {
    Get(ks, ClientKey(d, client))
  }

  /** The deployment's keys hold the kinds of value the store puts there. */
  ghost predicate Typed(ks: Keyspace, d: string) {
    && (LabelsKey(d) in ks ==> ks[LabelsKey(d)].Members?)
    && (forall l :: CountersKey(d, l) in ks ==> ks[CountersKey(d, l)].Fields?)
    && (forall l :: ActiveSetKey(d, l) in ks ==> ks[ActiveSetKey(d, l)].Members?)
    && (forall c :: ClientKey(d, c) in ks ==> ks[ClientKey(d, c)].Text?)
  }

  /** The label index is complete: whatever is counted or active is listed. */
  ghost predicate Indexed(ks: Keyspace, d: string) {
    && (forall l :: CountersKey(d, l) in ks ==> l in Labels(ks, d))
    && (forall l :: ActiveSetKey(d, l) in ks ==> l in Labels(ks, d))
  }

  // The transactions the store sends.
  function DownloadTx(d: string, lbl: string): seq<Command> {
    [HIncrBy(CountersKey(d, lbl), "downloaded"), SAdd(LabelsKey(d), lbl)]
  }

  function CountTx(r: StatusReport): seq<Command> {
    var d, lbl := r.deploymentKey, EffectiveLabel(r);
    [SAdd(LabelsKey(d), lbl), HIncrBy(CountersKey(d, lbl), ReportField(r))]
  }

  /** The transaction of a report, given the pointer value read before it. */
  function ReportTx(r: StatusReport, prev: string): seq<Command> {
    var d, lbl := r.deploymentKey, EffectiveLabel(r);
    CountTx(r)
    + (if r.client == "" then []
       else
         (if prev != "" && prev != lbl then [SRem(ActiveSetKey(d, prev), r.client)] else [])
         + [Assign(ClientKey(d, r.client), lbl), SAdd(ActiveSetKey(d, lbl), r.client)])
  }

  function ClearKeys(d: string, labels: set<string>): set<string> {
    {LabelsKey(d)}
    + (set l | l in labels :: CountersKey(d, l))
    + (set l | l in labels :: ActiveSetKey(d, l))
  }

  function AfterDownload(ks: Keyspace, d: string, lbl: string): Keyspace {
    Exec(ks, DownloadTx(d, lbl)).ks
  }

  function AfterReport(ks: Keyspace, r: StatusReport, prev: string): Keyspace {
    Exec(ks, ReportTx(r, prev)).ks
  }

  function AfterClear(ks: Keyspace, d: string, labels: set<string>): Keyspace {
    Del(ks, ClearKeys(d, labels))
  }

  /** The metrics of one deployment as the keyspace stands. */
  function Snapshot(ks: Keyspace, d: string): map<string, UpdateMetrics> {
    map l | l in Labels(ks, d) :: MetricsAt(ks, d, l)
  }

  function MetricsAt(ks: Keyspace, d: string, lbl: string): UpdateMetrics {
    UpdateMetrics(|Active(ks, d, lbl)|, Counter(ks, d, lbl, "downloaded"), Counter(ks, d, lbl, "failed"),
                  Counter(ks, d, lbl, "installed"))
  }

  // ------------------------------------------------------------------ effects

  /** What a download does to its deployment: one counter up (unless it is at the 64-bit
      maximum), the label listed, nothing else. */
  lemma DownloadEffect(ks: Keyspace, d: string, lbl: string)
    requires Typed(ks, d)
    ensures Typed(AfterDownload(ks, d, lbl), d)
    ensures Indexed(ks, d) ==> Indexed(AfterDownload(ks, d, lbl), d)
    ensures Labels(AfterDownload(ks, d, lbl), d) == Labels(ks, d) + {lbl}
    ensures forall l, f :: Counter(AfterDownload(ks, d, lbl), d, l, f)
                           == (if l == lbl && f == "downloaded" then Bump(Counter(ks, d, l, f))
                               else Counter(ks, d, l, f))
    ensures forall l :: Active(AfterDownload(ks, d, lbl), d, l) == Active(ks, d, l)
    ensures forall c :: Pointer(AfterDownload(ks, d, lbl), d, c) == Pointer(ks, d, c)
  {
    var tx, after := DownloadTx(d, lbl), AfterDownload(ks, d, lbl);
    BuildersInjective(d, lbl, lbl);
    ExecAt(ks, tx, 0, CountersKey(d, lbl));
    ExecAt(ks, tx, 1, LabelsKey(d));
    forall l
      ensures l != lbl ==> SameAt(after, ks, CountersKey(d, l))
      ensures SameAt(after, ks, ActiveSetKey(d, l))
      ensures SameAt(after, ks, ClientKey(d, l))
    {
      BuildersInjective(d, l, lbl);
      BuildersInjective(d, lbl, l);
      BuildersInjective(d, l, l);
      if l != lbl { ExecFrame(ks, tx, CountersKey(d, l)); }
      ExecFrame(ks, tx, ActiveSetKey(d, l));
      ExecFrame(ks, tx, ClientKey(d, l));
    }
    forall l, f ensures Counter(after, d, l, f)
                        == (if l == lbl && f == "downloaded" then Bump(Counter(ks, d, l, f))
                            else Counter(ks, d, l, f)) {
    }
  }

  /** What a report's transaction does to its deployment, whatever pointer value it was built
      with: the label listed, one counter up, and for a named client the pointer and the
      active set of the new label, and removal from the active set of `prev`. */
  lemma ReportEffect(ks: Keyspace, r: StatusReport, prev: string)
    requires Typed(ks, r.deploymentKey)
    ensures Typed(AfterReport(ks, r, prev), r.deploymentKey)
    ensures Indexed(ks, r.deploymentKey) ==> Indexed(AfterReport(ks, r, prev), r.deploymentKey)
    ensures Labels(AfterReport(ks, r, prev), r.deploymentKey) == Labels(ks, r.deploymentKey) + {EffectiveLabel(r)}
    ensures forall l, f :: Counter(AfterReport(ks, r, prev), r.deploymentKey, l, f)
                           == (if l == EffectiveLabel(r) && f == ReportField(r)
                               then Bump(Counter(ks, r.deploymentKey, l, f)) else Counter(ks, r.deploymentKey, l, f))
    ensures forall l :: Active(AfterReport(ks, r, prev), r.deploymentKey, l)
                        == ActiveAfter(Active(ks, r.deploymentKey, l), l, r, prev)
    ensures forall c :: Pointer(AfterReport(ks, r, prev), r.deploymentKey, c)
                        == (if c == r.client && c != "" then EffectiveLabel(r) else Pointer(ks, r.deploymentKey, c))
  {
    var d, after := r.deploymentKey, AfterReport(ks, r, prev);
    ReportAtLabels(ks, r, prev);
    forall l
      ensures CountersKey(d, l) in after ==> after[CountersKey(d, l)].Fields?
      ensures CountersKey(d, l) in after ==> CountersKey(d, l) in ks || l == EffectiveLabel(r)
      ensures forall f :: Counter(after, d, l, f) == (if l == EffectiveLabel(r) && f == ReportField(r)
                                                      then Bump(Counter(ks, d, l, f)) else Counter(ks, d, l, f))
    {
      ReportAtCounters(ks, r, prev, l);
    }
    forall l
      ensures ActiveSetKey(d, l) in after ==> after[ActiveSetKey(d, l)].Members?
      ensures ActiveSetKey(d, l) in after ==> ActiveSetKey(d, l) in ks || l == EffectiveLabel(r)
      ensures Active(after, d, l) == ActiveAfter(Active(ks, d, l), l, r, prev)
    {
      ReportAtActive(ks, r, prev, l);
    }
    forall c
      ensures ClientKey(d, c) in after ==> after[ClientKey(d, c)].Text?
      ensures Pointer(after, d, c) == (if c == r.client && c != "" then EffectiveLabel(r) else Pointer(ks, d, c))
    {
      ReportAtPointer(ks, r, prev, c);
    }
  }

  lemma ReportAtCounters(ks: Keyspace, r: StatusReport, prev: string, l: string)
    requires Typed(ks, r.deploymentKey)
    ensures var d, after := r.deploymentKey, AfterReport(ks, r, prev);
      && (CountersKey(d, l) in after ==> after[CountersKey(d, l)].Fields?)
      && (CountersKey(d, l) in after ==> CountersKey(d, l) in ks || l == EffectiveLabel(r))
      && (forall f :: Counter(after, d, l, f) == (if l == EffectiveLabel(r) && f == ReportField(r)
                                                 then Bump(Counter(ks, d, l, f)) else Counter(ks, d, l, f)))
  {
    var d, lbl, tx := r.deploymentKey, EffectiveLabel(r), ReportTx(r, prev);
    if l != lbl {
      ReportFrameCounters(ks, r, prev, l);
    } else {
      BuildersInjective(d, lbl, prev);
      BuildersInjective(d, lbl, r.client);
      BuildersInjective(d, lbl, lbl);
      ExecAt(ks, tx, 1, CountersKey(d, lbl));
    }
  }

  lemma ReportAtLabels(ks: Keyspace, r: StatusReport, prev: string)
    requires Typed(ks, r.deploymentKey)
    ensures var d, after := r.deploymentKey, AfterReport(ks, r, prev);
      && LabelsKey(d) in after && after[LabelsKey(d)].Members?
      && Labels(after, d) == Labels(ks, d) + {EffectiveLabel(r)}
  {
    var d, lbl := r.deploymentKey, EffectiveLabel(r);
    BuildersInjective(d, lbl, lbl);
    BuildersInjective(d, prev, prev);
    BuildersInjective(d, r.client, r.client);
    ExecAt(ks, ReportTx(r, prev), 0, LabelsKey(d));
  }

  lemma ReportAtActive(ks: Keyspace, r: StatusReport, prev: string, l: string)
    requires Typed(ks, r.deploymentKey)
    ensures var d, after := r.deploymentKey, AfterReport(ks, r, prev);
      && (ActiveSetKey(d, l) in after ==> after[ActiveSetKey(d, l)].Members?)
      && (ActiveSetKey(d, l) in after ==> ActiveSetKey(d, l) in ks || l == EffectiveLabel(r))
      && Active(after, d, l) == ActiveAfter(Active(ks, d, l), l, r, prev)
  {
    var d, lbl, tx := r.deploymentKey, EffectiveLabel(r), ReportTx(r, prev);
    if r.client == "" || (l != lbl && (prev == "" || l != prev)) {
      ReportFrameActive(ks, r, prev, l);
    } else {
      BuildersInjective(d, l, r.client);
      BuildersInjective(d, lbl, l);
      BuildersInjective(d, l, l);
      BuildersInjective(d, prev, l);
      var i := if l == lbl then |tx| - 1 else 2;
      ExecAt(ks, tx, i, ActiveSetKey(d, l));
    }
  }

  lemma ReportAtPointer(ks: Keyspace, r: StatusReport, prev: string, c: string)
    requires Typed(ks, r.deploymentKey)
    ensures var d, after := r.deploymentKey, AfterReport(ks, r, prev);
      && (ClientKey(d, c) in after ==> after[ClientKey(d, c)].Text?)
      && Pointer(after, d, c) == (if c == r.client && c != "" then EffectiveLabel(r) else Pointer(ks, d, c))
  {
    var d, lbl, tx := r.deploymentKey, EffectiveLabel(r), ReportTx(r, prev);
    if c == r.client && c != "" {
      BuildersInjective(d, lbl, c);
      BuildersInjective(d, prev, c);
      BuildersInjective(d, c, c);
      ExecAt(ks, tx, |tx| - 2, ClientKey(d, c));
    } else {
      ReportFrameClient(ks, r, prev, c);
    }
  }

  /** A label's active set after a report. */
  function ActiveAfter(before: set<string>, lbl: string, r: StatusReport, prev: string): set<string> {
    if r.client == "" then before
    else if lbl == EffectiveLabel(r) then before + {r.client}
    else if lbl == prev && prev != "" then before - {r.client}
    else before
  }

  lemma ReportFrameCounters(ks: Keyspace, r: StatusReport, prev: string, x: string)
    requires x != EffectiveLabel(r)
    ensures SameAt(AfterReport(ks, r, prev), ks, CountersKey(r.deploymentKey, x))
  {
    var d, lbl := r.deploymentKey, EffectiveLabel(r);
    BuildersInjective(d, x, lbl);
    BuildersInjective(d, x, prev);
    BuildersInjective(d, x, r.client);
    BuildersInjective(d, x, x);
    ExecFrame(ks, ReportTx(r, prev), CountersKey(d, x));
  }

  lemma ReportFrameActive(ks: Keyspace, r: StatusReport, prev: string, x: string)
    requires r.client == "" || (x != EffectiveLabel(r) && (prev == "" || x != prev))
    ensures SameAt(AfterReport(ks, r, prev), ks, ActiveSetKey(r.deploymentKey, x))
  {
    var d, lbl := r.deploymentKey, EffectiveLabel(r);
    BuildersInjective(d, lbl, x);
    BuildersInjective(d, x, prev);
    BuildersInjective(d, x, r.client);
    BuildersInjective(d, x, x);
    BuildersInjective(d, x, lbl);
    ExecFrame(ks, ReportTx(r, prev), ActiveSetKey(d, x));
  }

  lemma ReportFrameClient(ks: Keyspace, r: StatusReport, prev: string, x: string)
    requires r.client == "" || x != r.client
    ensures SameAt(AfterReport(ks, r, prev), ks, ClientKey(r.deploymentKey, x))
  {
    var d, lbl := r.deploymentKey, EffectiveLabel(r);
    BuildersInjective(d, lbl, x);
    BuildersInjective(d, prev, x);
    BuildersInjective(d, x, r.client);
    BuildersInjective(d, x, x);
    ExecFrame(ks, ReportTx(r, prev), ClientKey(d, x));
  }

  /** Clearing with a given label list removes the labels key, and the counters and active sets
      of the listed labels; it removes nothing else, in particular no client pointer. */
  lemma ClearEffect(ks: Keyspace, d: string, labels: set<string>)
    requires Typed(ks, d)
    ensures Typed(AfterClear(ks, d, labels), d)
    ensures Labels(AfterClear(ks, d, labels), d) == {}
    ensures forall l :: CountersKey(d, l) in AfterClear(ks, d, labels) <==> CountersKey(d, l) in ks && l !in labels
    ensures forall l :: ActiveSetKey(d, l) in AfterClear(ks, d, labels) <==> ActiveSetKey(d, l) in ks && l !in labels
    ensures forall l, f ::
      Counter(AfterClear(ks, d, labels), d, l, f) == (if l in labels then 0 else Counter(ks, d, l, f))
    ensures forall l :: Active(AfterClear(ks, d, labels), d, l) == (if l in labels then {} else Active(ks, d, l))
    ensures forall c :: Pointer(AfterClear(ks, d, labels), d, c) == Pointer(ks, d, c)
  {
    forall x
      ensures CountersKey(d, x) in ClearKeys(d, labels) <==> x in labels
      ensures ActiveSetKey(d, x) in ClearKeys(d, labels) <==> x in labels
      ensures ClientKey(d, x) !in ClearKeys(d, labels)
    {
      BuildersInjective(d, x, x);
      forall l ensures CountersKey(d, l) == CountersKey(d, x) ==> l == x
        ensures ActiveSetKey(d, l) == ActiveSetKey(d, x) ==> l == x
        ensures CountersKey(d, l) != ActiveSetKey(d, x) && ActiveSetKey(d, l) != CountersKey(d, x)
        ensures CountersKey(d, l) != ClientKey(d, x) && ActiveSetKey(d, l) != ClientKey(d, x)
      {
        BuildersInjective(d, l, x);
        BuildersInjective(d, x, l);
      }
    }
  }

  /** Every operation on one deployment leaves the keys of a separated deployment as they were. */
  lemma OtherDeploymentsUntouched(ks: Keyspace, e: string, k: string, r: StatusReport, prev: string, lbl: string,
                                  labels: set<string>)
    requires Owns(e, k) && Separated(e, r.deploymentKey)
    ensures SameAt(AfterDownload(ks, r.deploymentKey, lbl), ks, k)
    ensures SameAt(AfterReport(ks, r, prev), ks, k)
    ensures SameAt(AfterClear(ks, r.deploymentKey, labels), ks, k)
  {
    var d := r.deploymentKey;
    KeysDisjointIff(e, d);
    assert Owns(d, LabelsKey(d));
    forall c <- DownloadTx(d, lbl) ensures Owns(d, KeyOf(c)) {}
    ExecFrame(ks, DownloadTx(d, lbl), k);
    forall c <- ReportTx(r, prev) ensures Owns(d, KeyOf(c)) {}
    ExecFrame(ks, ReportTx(r, prev), k);
    forall c <- ClearKeys(d, labels) ensures Owns(d, c) {}
  }

  /** A report is answered with an error exactly when its counter already sits at the maximum;
      the rest of its transaction is applied all the same. */
  lemma ReportOkIff(ks: Keyspace, r: StatusReport, prev: string)
    requires Typed(ks, r.deploymentKey)
    ensures Exec(ks, ReportTx(r, prev)).ok
            <==> Counter(ks, r.deploymentKey, EffectiveLabel(r), ReportField(r)) < MAX_INT64
  {
    var tx := ReportTx(r, prev);
    var count := tx[1];
    ReportKeysDiffer(r, prev);
    ExecOkIff(ks, tx);
    CountOkIff(ks, r);
    assert count in tx && count == CountTx(r)[1];
    forall c | c in tx && c != count ensures Apply(ks, c).ok {
      assert !c.HIncrBy?;
      SetCommandOk(ks, r, prev, c);
    }
  }

  lemma CountOkIff(ks: Keyspace, r: StatusReport)
    requires Typed(ks, r.deploymentKey)
    ensures Apply(ks, CountTx(r)[1]).ok
            <==> Counter(ks, r.deploymentKey, EffectiveLabel(r), ReportField(r)) < MAX_INT64
  {
  }

  /** The same holds for a download. */
  lemma DownloadOkIff(ks: Keyspace, d: string, lbl: string)
    requires Typed(ks, d)
    ensures Exec(ks, DownloadTx(d, lbl)).ok <==> Counter(ks, d, lbl, "downloaded") < MAX_INT64
  {
    BuildersInjective(d, lbl, lbl);
    ExecOkIff(ks, DownloadTx(d, lbl));
    assert DownloadTx(d, lbl)[0] in DownloadTx(d, lbl);
  }

  /** A report's status decides which counter it raises and nothing else: with another status the
      transaction leaves every other key the same, and every other field of that one. */
  lemma StatusOnlyCounts(ks: Keyspace, r: StatusReport, status: string, prev: string, k: string)
    requires Typed(ks, r.deploymentKey)
    ensures var d, lbl, other := r.deploymentKey, EffectiveLabel(r), r.(status := status);
      var a, b := AfterReport(ks, r, prev), AfterReport(ks, other, prev);
      && (k != CountersKey(d, lbl) ==> SameAt(a, b, k))
      && (forall f :: f !in {ReportField(r), ReportField(other)} ==> Counter(a, d, lbl, f) == Counter(b, d, lbl, f))
  {
    var other := r.(status := status);
    var x, y := ReportTx(r, prev), ReportTx(other, prev);
    ReportEffect(ks, r, prev);
    ReportEffect(ks, other, prev);
    ReportKeysDiffer(r, prev);
    ReportKeysDiffer(other, prev);
    assert |x| == |y| && forall j | 0 <= j < |x| && j != 1 :: x[j] == y[j];
    if k != CountersKey(r.deploymentKey, EffectiveLabel(r)) {
      if i :| 0 <= i < |x| && KeyOf(x[i]) == k {
        ExecAt(ks, x, i, k);
        ExecAt(ks, y, i, k);
      } else {
        ExecFrame(ks, x, k);
        ExecFrame(ks, y, k);
      }
    }
  }

  /** A report leaves all active sets as they were exactly when it names no client, or its client is
      in the set of the reported label already and in no other set that its pointer makes it leave. */
  lemma ActiveSetsKeptIff(ks: Keyspace, r: StatusReport)
    requires Typed(ks, r.deploymentKey)
    ensures var d, lbl, p := r.deploymentKey, EffectiveLabel(r), Pointer(ks, r.deploymentKey, r.client);
      (forall l :: Active(AfterReport(ks, r, p), d, l) == Active(ks, d, l))
      <==> (r.client == ""
            || (r.client in Active(ks, d, lbl) && (p == "" || p == lbl || r.client !in Active(ks, d, p))))
  {
    var d, lbl, p := r.deploymentKey, EffectiveLabel(r), Pointer(ks, r.deploymentKey, r.client);
    ReportEffect(ks, r, p);
    var after := AfterReport(ks, r, p);
    assert Active(after, d, lbl) == ActiveAfter(Active(ks, d, lbl), lbl, r, p);
    assert Active(after, d, p) == ActiveAfter(Active(ks, d, p), p, r, p);
  }

  lemma SetCommandOk(ks: Keyspace, r: StatusReport, prev: string, c: Command)
    requires Typed(ks, r.deploymentKey) && c in ReportTx(r, prev) && !c.HIncrBy?
    ensures Apply(ks, c).ok
  {
    var d := r.deploymentKey;
    if c.key != LabelsKey(d) && !c.Assign? {
      assert c.key == ActiveSetKey(d, prev) || c.key == ActiveSetKey(d, EffectiveLabel(r));
    }
  }

  lemma ReportKeysDiffer(r: StatusReport, prev: string)
    ensures var tx := ReportTx(r, prev);
      forall i, j | 0 <= i < j < |tx| :: KeyOf(tx[i]) != KeyOf(tx[j])
  {
    var d, lbl := r.deploymentKey, EffectiveLabel(r);
    BuildersInjective(d, lbl, prev);
    BuildersInjective(d, lbl, lbl);
    BuildersInjective(d, lbl, r.client);
    BuildersInjective(d, prev, r.client);
    BuildersInjective(d, r.client, r.client);
    BuildersInjective(d, prev, prev);
  }

  /** The adapter object. `keyspace` stands for the Redis database it talks to. */
  class Metrics {
    var keyspace: Keyspace

    constructor ()
      ensures keyspace == map[]
    {
      keyspace := map[];
    }

    method IncrementDownload(deploymentKey: string, lbl: string) returns (ok: bool)
      modifies this
      ensures keyspace == AfterDownload(old(keyspace), deploymentKey, lbl)
      ensures Typed(old(keyspace), deploymentKey) ==>
        (ok <==> Counter(old(keyspace), deploymentKey, lbl, "downloaded") < MAX_INT64)
    {
      if Typed(keyspace, deploymentKey) {
        DownloadOkIff(keyspace, deploymentKey, lbl);
      }
      var pipe: seq<Command> := [];
      pipe := pipe + [HIncrBy(CountersKey(deploymentKey, lbl), "downloaded")];
      pipe := pipe + [SAdd(LabelsKey(deploymentKey), lbl)];
      var reply := Exec(keyspace, pipe);
      keyspace, ok := reply.ks, reply.ok;
    }

    method ReportDeploy(report: StatusReport) returns (ok: bool)
      modifies this
      ensures keyspace == AfterReport(old(keyspace), report,
                                      Pointer(old(keyspace), report.deploymentKey, report.client))
      ensures Typed(old(keyspace), report.deploymentKey) ==>
        (ok <==> Counter(old(keyspace), report.deploymentKey, EffectiveLabel(report), ReportField(report)) < MAX_INT64)
    {
      var d, lbl := report.deploymentKey, report.releaseLabel;
      if lbl == "" {
        lbl := report.appVersion;
      }
      var pipe: seq<Command> := [SAdd(LabelsKey(d), lbl)];
      if report.status == "" || report.status == DEPLOY_SUCCEEDED {
        pipe := pipe + [HIncrBy(CountersKey(d, lbl), "installed")];
      } else if report.status == DEPLOY_FAILED {
        pipe := pipe + [HIncrBy(CountersKey(d, lbl), "failed")];
      } else {
        pipe := pipe + [HIncrBy(CountersKey(d, lbl), "installed")];
      }
      assert pipe == CountTx(report);
      ghost var prev := Pointer(keyspace, d, report.client);
      if report.client != "" {
        var currentKey := ClientKey(d, report.client);
        var previous := Get(keyspace, currentKey);
        if previous != "" && previous != lbl {
          pipe := pipe + [SRem(ActiveSetKey(d, previous), report.client)];
        }
        pipe := pipe + [Assign(currentKey, lbl)];
        pipe := pipe + [SAdd(ActiveSetKey(d, lbl), report.client)];
      }
      assert pipe == ReportTx(report, prev);
      var reply := Exec(keyspace, pipe);
      assert reply == Exec(keyspace, ReportTx(report, prev));
      if Typed(keyspace, d) { ReportOkIff(keyspace, report, prev); }
      keyspace, ok := reply.ks, reply.ok;
    }

    method GetMetrics(deploymentKey: string) returns (r: Result<map<string, UpdateMetrics>>)
      ensures Typed(keyspace, deploymentKey) ==> r.Success?
      ensures r.Success? <==>
        && (LabelsKey(deploymentKey) in keyspace ==> keyspace[LabelsKey(deploymentKey)].Members?)
        && forall l <- Labels(keyspace, deploymentKey) ::
             && (CountersKey(deploymentKey, l) in keyspace ==> keyspace[CountersKey(deploymentKey, l)].Fields?)
             && (ActiveSetKey(deploymentKey, l) in keyspace ==> keyspace[ActiveSetKey(deploymentKey, l)].Members?)
      ensures r.Success? ==> r.value == Snapshot(keyspace, deploymentKey)
    {
      var labels := SMembers(keyspace, LabelsKey(deploymentKey));
      if labels.Failure? {
        return Failure(labels.error);
      }
      var result: map<string, UpdateMetrics> := map[];
      var todo := labels.value;
      while todo != {}
        invariant todo <= labels.value == Labels(keyspace, deploymentKey)
        invariant result.Keys == labels.value - todo
        invariant forall l <- result :: result[l] == MetricsAt(keyspace, deploymentKey, l)
        invariant forall l <- labels.value - todo ::
          && (CountersKey(deploymentKey, l) in keyspace ==> keyspace[CountersKey(deploymentKey, l)].Fields?)
          && (ActiveSetKey(deploymentKey, l) in keyspace ==> keyspace[ActiveSetKey(deploymentKey, l)].Members?)
      {
        var lbl :| lbl in todo;
        var counters := HGetAll(keyspace, CountersKey(deploymentKey, lbl));
        if counters.Failure? {
          return Failure(counters.error);
        }
        var active := SMembers(keyspace, ActiveSetKey(deploymentKey, lbl));
        if active.Failure? {
          return Failure(active.error);
        }
        result := result[lbl := UpdateMetrics(
          |active.value|,
          Lookup(counters.value, "downloaded"), Lookup(counters.value, "failed"), Lookup(counters.value, "installed"))];
        CountersReadBack(keyspace, deploymentKey, lbl);
        todo := todo - {lbl};
      }
      return Success(result);
    }

    method Clear(deploymentKey: string) returns (ok: bool)
      modifies this
      ensures ok <==> old(LabelsKey(deploymentKey) in keyspace ==> keyspace[LabelsKey(deploymentKey)].Members?)
      ensures ok ==> keyspace == AfterClear(old(keyspace), deploymentKey, Labels(old(keyspace), deploymentKey))
      ensures !ok ==> keyspace == old(keyspace)
    {
      var labels := SMembers(keyspace, LabelsKey(deploymentKey));
      if labels.Failure? {
        return false;
      }
      var keys := {LabelsKey(deploymentKey)};
      var todo := labels.value;
      while todo != {}
        invariant todo <= labels.value == Labels(keyspace, deploymentKey)
        invariant keys == ClearKeys(deploymentKey, labels.value - todo)
        invariant keyspace == old(keyspace)
      {
        var lbl :| lbl in todo;
        var done := labels.value - todo;
        keys := keys + {CountersKey(deploymentKey, lbl), ActiveSetKey(deploymentKey, lbl)};
        todo := todo - {lbl};
        assert labels.value - todo == done + {lbl};
      }
      assert labels.value - todo == labels.value;
      keyspace := Del(keyspace, keys);
      return true;
    }
  }

  // Reading a field of a Go map of strings as a counter: a missing field is "".
  function Lookup(counters: map<string, string>, field: string): int {
    ParseCounter(if field in counters then counters[field] else "")
  }

  lemma CountersReadBack(ks: Keyspace, d: string, lbl: string)
    requires HGetAll(ks, CountersKey(d, lbl)).Success?
    ensures forall f :: Lookup(HGetAll(ks, CountersKey(d, lbl)).value, f) == Counter(ks, d, lbl, f)
  {
    forall f ensures Lookup(HGetAll(ks, CountersKey(d, lbl)).value, f) == Counter(ks, d, lbl, f) {
      ParseCounterOfRender(Counter(ks, d, lbl, f));
    }
  }
}

/** Totals over a deployment's metrics: nothing reported is lost and nothing is counted twice. */
module Conservation {
  import opened Common
  import opened Decimal
  import opened MetricsStore
  import opened ReportLog

  ghost function Sum(m: map<string, int>): int
    decreases |m|
  {
    if m == map[] then 0
    else
      var k :| k in m;
      m[k] + Sum(m - {k})
  }

  lemma {:induction false} SumSplit(m: map<string, int>, k: string)
    requires k in m
    ensures Sum(m) == m[k] + Sum(m - {k})
    decreases |m|
  {
    var j :| j in m && Sum(m) == m[j] + Sum(m - {j});
    if j != k {
      SumSplit(m - {j}, k);
      SumSplit(m - {k}, j);
      assert m - {j} - {k} == m - {k} - {j};
    }
  }

  lemma {:induction false} SumMonotone(a: map<string, int>, b: map<string, int>)
    requires a.Keys == b.Keys && forall k <- a :: a[k] <= b[k]
    ensures Sum(a) <= Sum(b)
    decreases |a|
  {
    if a != map[] {
      var k :| k in a;
      SumSplit(a, k);
      SumSplit(b, k);
      SumMonotone(a - {k}, b - {k});
    }
  }

  // Below b everywhere, a reaches the same total only as b itself.
  lemma {:induction false} SumEqualIff(a: map<string, int>, b: map<string, int>)
    requires a.Keys == b.Keys && forall k <- a :: a[k] <= b[k]
    ensures Sum(a) == Sum(b) <==> a == b
    decreases |a|
  {
    if k :| k in a && a[k] < b[k] {
      SumSplit(a, k);
      SumSplit(b, k);
      SumMonotone(a - {k}, b - {k});
    }
  }

  // ------------------------------------------------------------------ counters

  function Occurrences(w: Reports, field: string): nat {
    if w == [] then 0
    else Occurrences(w[..|w| - 1], field) + (if FieldOf(w[|w| - 1]) == field then 1 else 0)
  }

  function DownloadReports(w: Reports): nat {
    if w == [] then 0 else DownloadReports(w[..|w| - 1]) + (if w[|w| - 1].Download? then 1 else 0)
  }

  function DeployReports(w: Reports): nat {
    if w == [] then 0 else DeployReports(w[..|w| - 1]) + (if w[|w| - 1].Report? then 1 else 0)
  }

  lemma {:induction false} OccurrencesByKind(w: Reports)
    ensures Occurrences(w, "downloaded") == DownloadReports(w)
    ensures Occurrences(w, "installed") + Occurrences(w, "failed") == DeployReports(w)
  {
    if w != [] { OccurrencesByKind(w[..|w| - 1]); }
  }

  function Counts(w: Reports, labels: set<string>, field: string): map<string, int> {
    map l | l in labels :: Count(w, l, field)
  }

  lemma {:induction false} CountsTotal(w: Reports, labels: set<string>, field: string)
    requires LabelsOf(w) <= labels
    ensures Sum(Counts(w, labels, field)) == Occurrences(w, field)
  {
    if w == [] {
      ZeroTotal(labels, field);
    } else {
      var before, e := w[..|w| - 1], w[|w| - 1];
      assert w == before + [e];
      Grow(before, e);
      CountsTotal(before, labels, field);
      SumUpdated(Counts(before, labels, field), Counts(w, labels, field), LabelOf(e));
    }
  }

  lemma SumUpdated(a: map<string, int>, b: map<string, int>, k: string)
    requires a.Keys == b.Keys && k in a && forall l <- a | l != k :: a[l] == b[l]
    ensures Sum(b) == Sum(a) - a[k] + b[k]
  {
    SumSplit(a, k);
    SumSplit(b, k);
    assert a - {k} == b - {k};
  }

  lemma {:induction false} ZeroTotal(labels: set<string>, field: string)
    ensures Sum(Counts([], labels, field)) == 0
  {
    if l :| l in labels {
      SumSplit(Counts([], labels, field), l);
      ZeroTotal(labels - {l}, field);
      assert Counts([], labels, field) - {l} == Counts([], labels - {l}, field);
    }
  }

  lemma {:induction false} CountBounded(w: Reports, l: string, field: string)
    ensures Count(w, l, field) <= |w|
  {
    if w != [] { CountBounded(w[..|w| - 1], l, field); }
  }

  // The columns of a metrics answer.
  function Downloaded(m: map<string, UpdateMetrics>): map<string, int> { map l | l in m :: m[l].downloaded }
  function Installed(m: map<string, UpdateMetrics>): map<string, int> { map l | l in m :: m[l].installed }
  function Failed(m: map<string, UpdateMetrics>): map<string, int> { map l | l in m :: m[l].failed }
  function ActiveClients(m: map<string, UpdateMetrics>): map<string, int> { map l | l in m :: m[l].active }

  /** No label has more events of this kind than a counter can hold. */
  predicate Fits(w: Reports, field: string) {
    forall l <- LabelsOf(w) :: Count(w, l, field) <= MAX_INT64
  }

  // A column never exceeds its counts, and equals them exactly while every count fits.
  lemma ColumnAgainstCounts(w: Reports, column: map<string, int>, field: string)
    requires column.Keys == LabelsOf(w) && forall l <- column :: column[l] == Saturated(Count(w, l, field))
    ensures Sum(column) <= Occurrences(w, field)
    ensures Sum(column) == Occurrences(w, field) <==> Fits(w, field)
  {
    var exact := Counts(w, LabelsOf(w), field);
    CountsTotal(w, LabelsOf(w), field);
    ColumnIsExactIff(w, column, field);
    SumMonotone(column, exact);
    SumEqualIff(column, exact);
  }

  lemma ColumnIsExactIff(w: Reports, column: map<string, int>, field: string)
    requires column.Keys == LabelsOf(w) && forall l <- column :: column[l] == Saturated(Count(w, l, field))
    ensures var exact := Counts(w, LabelsOf(w), field);
      && column.Keys == exact.Keys
      && (forall l <- column :: column[l] <= exact[l])
      && (column == exact <==> Fits(w, field))
  {
    var exact := Counts(w, LabelsOf(w), field);
    forall l <- column ensures exact[l] == Count(w, l, field) {}
    if column == exact {
      forall l <- LabelsOf(w) ensures Count(w, l, field) <= MAX_INT64 { assert column[l] == exact[l]; }
    }
  }

  lemma ShortLogFits(w: Reports, field: string)
    requires |w| <= MAX_INT64
    ensures Fits(w, field)
  {
    forall l <- LabelsOf(w) ensures Count(w, l, field) <= MAX_INT64 { CountBounded(w, l, field); }
  }

  /** Summed over all labels, installs and failures account for every deploy report since the
      last clear and downloads for every download report, exactly as long as no label has more
      events of a kind than a 64-bit counter holds; beyond that the totals fall short. */
  lemma {:induction false} CountersConserved(log: seq<Event>, d: string)
    requires Apart(log, d)
    ensures var m, w := Snapshot(Run(log), d), Window(log, d);
      && Sum(Downloaded(m)) <= DownloadReports(w)
      && Sum(Installed(m)) + Sum(Failed(m)) <= DeployReports(w)
      && (Sum(Downloaded(m)) == DownloadReports(w) <==> Fits(w, "downloaded"))
      && (Sum(Installed(m)) + Sum(Failed(m)) == DeployReports(w) <==> Fits(w, "installed") && Fits(w, "failed"))
      && (|w| <= MAX_INT64 ==> forall f :: Fits(w, f))
  {
    ReplayRefinement(log, d);
    var m, w := ReplayMetrics(Window(log, d)), Window(log, d);
    OccurrencesByKind(w);
    ColumnAgainstCounts(w, Downloaded(m), "downloaded");
    ColumnAgainstCounts(w, Installed(m), "installed");
    ColumnAgainstCounts(w, Failed(m), "failed");
    if |w| <= MAX_INT64 {
      forall f ensures Fits(w, f) { ShortLogFits(w, f); }
    }
  }

  // ------------------------------------------------------------------ active clients

  function Sizes(m: map<string, set<string>>): map<string, int> {
    map l | l in m :: |m[l]|
  }

  ghost predicate InSome(m: map<string, set<string>>, c: string) {
    exists l <- m :: c in m[l]
  }

  /** The sets are disjoint, and together they are the whole. */
  ghost predicate Partition(m: map<string, set<string>>, all: set<string>) {
    && (forall a, b | a in m && b in m && a != b :: m[a] !! m[b])
    && (forall c :: c in all <==> InSome(m, c))
  }

  // The sizes of disjoint sets add up to the size of what they cover together.
  lemma {:induction false} DisjointSizes(m: map<string, set<string>>, all: set<string>)
    requires Partition(m, all)
    ensures Sum(Sizes(m)) == |all|
    decreases |m|
  {
    if m == map[] {
      NothingCovered(all);
    } else {
      var l :| l in m;
      PartitionRest(m, all, l);
      DisjointSizes(m - {l}, all - m[l]);
      SumSplit(Sizes(m), l);
      PartSize(all, m[l]);
    }
  }

  lemma NothingCovered(all: set<string>)
    requires Partition(map[], all)
    ensures all == {} && Sizes(map[]) == map[]
  {
    forall c ensures c !in all { assert !InSome(map[], c); }
  }

  lemma PartitionRest(m: map<string, set<string>>, all: set<string>, l: string)
    requires Partition(m, all) && l in m
    ensures m[l] <= all
    ensures Partition(m - {l}, all - m[l])
    ensures Sizes(m) - {l} == Sizes(m - {l})
  {
    forall c ensures c in all - m[l] <==> InSome(m - {l}, c) { InRest(m, l, c); }
    forall c <- m[l] ensures c in all { assert InSome(m, c); }
  }

  lemma PartSize(all: set<string>, part: set<string>)
    requires part <= all
    ensures |all| == |part| + |all - part|
  {
    assert all == part + (all - part);
  }

  lemma InRest(m: map<string, set<string>>, l: string, c: string)
    requires l in m && forall a, b | a in m && b in m && a != b :: m[a] !! m[b]
    ensures InSome(m - {l}, c) <==> InSome(m, c) && c !in m[l]
  {
    if InSome(m - {l}, c) {
      var k :| k in m - {l} && c in (m - {l})[k];
      assert InSome(m, c) && m[k] !! m[l];
    } else if InSome(m, c) {
      var k :| k in m && c in m[k];
      assert k !in m - {l};
    }
  }

  /** The clients that reported an empty label at some time and carry another one now. */
  function MovedOffEmpty(w: Reports): set<string> {
    set c | c in Clients(w) && EverEmpty(w, c) && Latest(w, c) != Some("")
  }

  function Settled(w: Reports): set<string> {
    set c | c in Clients(w) && Latest(w, c) != Some("")
  }

  function NamedSets(w: Reports): map<string, set<string>> {
    map l | l in LabelsOf(w) && l != "" :: LatestOn(w, l)
  }

  lemma NamedSetsCoverSettled(w: Reports)
    ensures Sum(Sizes(NamedSets(w))) == |Settled(w)|
  {
    var m := NamedSets(w);
    forall c ensures c in Settled(w) <==> InSome(m, c) {
      LatestKnown(w, c);
      LatestListed(w, c);
      if c in Settled(w) {
        assert c in m[Latest(w, c).value];
      }
    }
    DisjointSizes(m, Settled(w));
  }

  lemma SettledAndEmpty(w: Reports)
    ensures |Settled(w)| + |ActiveOn(w, "")| == |Clients(w)| + |MovedOffEmpty(w)|
    ensures "" !in LabelsOf(w) ==> ActiveOn(w, "") == {}
  {
    forall c ensures Latest(w, c) == Some("") ==> EverEmpty(w, c) { LatestKnown(w, c); }
    assert Settled(w) + ActiveOn(w, "") == Clients(w);
    assert Settled(w) * ActiveOn(w, "") == MovedOffEmpty(w);
    if c :| c in ActiveOn(w, "") {
      var e :| e in w && ClientOf(e) == c && LabelOf(e) == "";
    }
  }

  /** Summed over all labels, the active sets count every distinct named client of the deployment
      once, plus once more each client that has moved off an empty label. */
  lemma {:induction false} ActiveConserved(log: seq<Event>, d: string)
    requires Apart(log, d)
    ensures Sum(ActiveClients(Snapshot(Run(log), d)))
            == |Clients(Window(log, d))| + |MovedOffEmpty(Window(log, d))|
  {
    ReplayRefinement(log, d);
    var w := Window(log, d);
    assert ActiveClients(ReplayMetrics(w)) == ActiveSizes(w);
    ActiveTotal(w);
  }

  function ActiveSizes(w: Reports): map<string, int> {
    map l | l in LabelsOf(w) :: ReplayAt(w, l).active
  }

  lemma ActiveTotal(w: Reports)
    ensures Sum(ActiveSizes(w)) == |Clients(w)| + |MovedOffEmpty(w)|
  {
    NamedSetsCoverSettled(w);
    SettledAndEmpty(w);
    SizesAgree(w);
    SumApart(ActiveSizes(w), Sizes(NamedSets(w)), "");
  }

  lemma SizesAgree(w: Reports)
    ensures Sizes(NamedSets(w)).Keys == ActiveSizes(w).Keys - {""}
    ensures forall l <- Sizes(NamedSets(w)) :: Sizes(NamedSets(w))[l] == ActiveSizes(w)[l]
    ensures ActiveSizes(w).Keys == LabelsOf(w)
    ensures "" in LabelsOf(w) ==> ActiveSizes(w)[""] == |ActiveOn(w, "")|
  {
    var sets := NamedSets(w);
    assert sets.Keys == LabelsOf(w) - {""};
    forall l <- sets ensures Sizes(sets)[l] == ActiveSizes(w)[l] {
      assert sets[l] == ActiveOn(w, l);
    }
  }

  lemma SumApart(all: map<string, int>, rest: map<string, int>, k: string)
    requires rest.Keys == all.Keys - {k} && forall l <- rest :: rest[l] == all[l]
    ensures Sum(all) == Sum(rest) + (if k in all then all[k] else 0)
  {
    assert rest == all - {k};
    if k in all {
      SumSplit(all, k);
    } else {
      assert rest == all;
    }
  }

  lemma {:induction false} LatestListed(w: Reports, c: string)
    ensures Latest(w, c).Some? ==> Latest(w, c).value in LabelsOf(w)
  {
    if w != [] {
      LatestListed(w[..|w| - 1], c);
      assert w == w[..|w| - 1] + [w[|w| - 1]];
    }
  }
}

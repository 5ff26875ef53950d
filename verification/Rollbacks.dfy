/** Runs of rollbacks: where each package comes from, and what repeating a rollback does. */
module Rollbacks {
  import opened Common
  import opened Decimal
  import opened Packages

  datatype Request = Request(deploymentName: string, target: string, now: int, id: string)

  function Answer(h: History, r: Request): Result<Committed> {
    Rollback(h, r.deploymentName, r.target, r.now, r.id)
  }

  /** The history after a request; a failed rollback changes nothing. */
  function Attempt(h: History, r: Request): History {
    if Answer(h, r).Success? then Answer(h, r).value.history else h
  }

  function RunAll(h: History, rs: seq<Request>): History
    decreases |rs|
  {
    if rs == [] then h else RunAll(Attempt(h, rs[0]), rs[1..])
  }

  // ------------------------------------------------------------------ provenance

  predicate IsRollback(p: Package) {
    p.releaseMethod == RELEASE_ROLLBACK
  }

  /** Entry j is what rollback i says it came from: earlier, of that label, with that payload. */
  predicate IsSource(h: History, i: nat, j: nat) {
    j < i < |h| && h[j].tag == h[i].originalLabel && h[j].payload == h[i].payload
  }

  ghost predicate HasSource(h: History, i: nat) {
    exists j: nat :: IsSource(h, i, j)
  }

  /** Every rollback names an earlier entry with the same payload. */
  ghost predicate Sourced(h: History) {
    forall i: nat | i < |h| && IsRollback(h[i]) :: HasSource(h, i)
  }

  /** Following original labels from an entry ends at a package that is not a rollback and
      delivers the same payload. */
  ghost function Root(h: History, i: nat): (j: nat)
    requires Sourced(h) && i < |h|
    ensures j <= i && !IsRollback(h[j]) && h[j].payload == h[i].payload
  {
    if !IsRollback(h[i]) then i
    else
      assert HasSource(h, i);
      var j: nat :| IsSource(h, i, j);
      Root(h, j)
  }

  /** How a history may grow: every new entry is a rollback, and the app version of the newest
      entry stays. */
  ghost predicate Grown(h: History, after: History) {
    && h <= after
    && (forall i | |h| <= i < |after| :: IsRollback(after[i]))
    && (h != [] ==> after[|after| - 1].payload.appVersion == h[|h| - 1].payload.appVersion)
  }

  lemma AttemptGrows(h: History, r: Request)
    requires WellKept(h) && Sourced(h)
    ensures WellKept(Attempt(h, r)) && Sourced(Attempt(h, r)) && Grown(h, Attempt(h, r))
  {
    RollbackExact(h, r.deploymentName, r.target, r.now, r.id);
    var after := Attempt(h, r);
    if Answer(h, r).Success? {
      var t: nat :| IsTarget(h, t, r.target);
      forall i: nat | i < |after| && IsRollback(after[i]) ensures HasSource(after, i) {
        if i == |h| {
          assert IsSource(after, i, t);
        } else {
          assert HasSource(h, i);
          var j: nat :| IsSource(h, i, j);
          assert IsSource(after, i, j);
        }
      }
    }
  }

  lemma GrownTransitive(a: History, b: History, c: History)
    requires Grown(a, b) && Grown(b, c)
    ensures Grown(a, c)
  {
    forall i | |a| <= i < |c| ensures IsRollback(c[i]) {
      if i < |b| { assert c[i] == b[i]; }
    }
  }

  /** Any run of rollbacks, successful or not, only grows the history by rollbacks that each name
      an earlier entry of the same payload, and never changes the newest app version. */
  lemma {:induction false} Provenance(h: History, rs: seq<Request>)
    requires WellKept(h) && Sourced(h)
    ensures WellKept(RunAll(h, rs)) && Sourced(RunAll(h, rs)) && Grown(h, RunAll(h, rs))
    decreases |rs|
  {
    if rs != [] {
      AttemptGrows(h, rs[0]);
      Provenance(Attempt(h, rs[0]), rs[1..]);
      GrownTransitive(h, Attempt(h, rs[0]), RunAll(h, rs));
    }
  }

  /** So from a history without rollbacks no run delivers anything new: each entry's root is one
      of the original packages. */
  lemma {:induction false} NoNewPayload(h: History, rs: seq<Request>, i: nat)
    requires WellKept(h) && (forall p <- h :: !IsRollback(p))
    requires i < |RunAll(h, rs)|
    ensures Sourced(RunAll(h, rs)) && Root(RunAll(h, rs), i) < |h|
    ensures RunAll(h, rs)[i].payload == h[Root(RunAll(h, rs), i)].payload
  {
    Provenance(h, rs);
  }

  /** Each new entry's original label names an entry of smaller ordinal with the same payload. */
  lemma {:induction false} SourceOfNewEntry(h: History, rs: seq<Request>, i: nat) returns (source: Package)
    requires WellKept(h) && (forall p <- h :: !IsRollback(p))
    requires |h| <= i < |RunAll(h, rs)|
    ensures source in RunAll(h, rs)[..i]
    ensures source.tag == RunAll(h, rs)[i].originalLabel && source.payload == RunAll(h, rs)[i].payload
    ensures source.ordinal < RunAll(h, rs)[i].ordinal
  {
    Provenance(h, rs);
    var after := RunAll(h, rs);
    assert HasSource(after, i);
    var j: nat :| IsSource(after, i, j);
    source := after[j];
    assert after[..i][j] == source;
  }

  // ------------------------------------------------------------------ repeated rollback

  predicate AllSucceed(h: History, rs: seq<Request>)
    decreases |rs|
  {
    rs == [] || (Answer(h, rs[0]).Success? && AllSucceed(Attempt(h, rs[0]), rs[1..]))
  }

  /** The next k ordinals fit the column and no existing entry holds one of their labels. */
  ghost predicate Room(h: History, k: nat)
    requires h != []
  {
    var last := h[|h| - 1].ordinal;
    && last + k <= MAX_INT32
    && forall n | last < n <= last + k :: Free(h, n)
  }

  /** A history ending in two packages of one app version, ready for unlabelled rollbacks. */
  ghost predicate EndsInPair(h: History) {
    WellKept(h) && |h| >= 2 && h[|h| - 2].payload.appVersion == h[|h| - 1].payload.appVersion
  }

  /** k rollbacks without a label all succeed exactly when there is room for k more entries. */
  lemma {:induction false} UnlabelledSucceedIff(h: History, rs: seq<Request>)
    requires EndsInPair(h) && forall r <- rs :: r.target == ""
    ensures AllSucceed(h, rs) <==> Room(h, |rs|)
    decreases |rs|
  {
    if rs != [] {
      UnlabelledStep(h, rs[0]);
      if Answer(h, rs[0]).Success? {
        RoomStep(h, Attempt(h, rs[0]), |rs|);
        UnlabelledSucceedIff(Attempt(h, rs[0]), rs[1..]);
      } else {
        if Room(h, |rs|) { RoomNow(h, |rs|); }
      }
    }
  }

  /** A history ending A, B has grown by k entries, the newest delivering A for odd k, B for even k. */
  predicate Alternated(h: History, after: History, k: nat) {
    && |h| >= 2 && h <= after && |after| == |h| + k
    && Newest(after) == (if Odd(k) then h[|h| - 2].payload else h[|h| - 1].payload)
  }

  /** They then append exactly k entries to a history ending A, B, and the newest delivers A's
      payload for odd k and B's for even k. */
  lemma {:induction false} AlternatingRollback(h: History, rs: seq<Request>)
    requires EndsInPair(h) && Room(h, |rs|) && forall r <- rs :: r.target == ""
    ensures Alternated(h, RunAll(h, rs), |rs|)
    decreases |rs|
  {
    if rs != [] {
      var next := Attempt(h, rs[0]);
      AlternatingStep(h, rs[0], |rs|);
      AlternatingRollback(next, rs[1..]);
      assert RunAll(h, rs) == RunAll(next, rs[1..]);
      OddStep(|rs|);
    }
  }

  // One step: B becomes the older of the newest two, and A is delivered again.
  lemma AlternatingStep(h: History, r: Request, k: nat)
    requires EndsInPair(h) && k > 0 && Room(h, k) && r.target == ""
    ensures var next := Attempt(h, r);
      && EndsInPair(next) && Room(next, k - 1)
      && h <= next && |next| == |h| + 1
      && next[|next| - 1].payload == h[|h| - 2].payload
      && next[|next| - 2].payload == h[|h| - 1].payload
  {
    RoomNow(h, k);
    UnlabelledStep(h, r);
    RoomStep(h, Attempt(h, r), k);
  }

  predicate Odd(k: nat) {
    k % 2 == 1
  }

  lemma OddStep(k: nat)
    requires k > 0
    ensures Odd(k) <==> !Odd(k - 1)
  {
  }

  lemma RoomNow(h: History, k: nat)
    requires h != [] && k > 0 && Room(h, k)
    ensures h[|h| - 1].ordinal < MAX_INT32 && Free(h, h[|h| - 1].ordinal + 1)
  {
  }

  function Newest(h: History): Payload
    requires h != []
  {
    h[|h| - 1].payload
  }

  lemma {:induction false} UnlabelledStep(h: History, r: Request)
    requires EndsInPair(h) && r.target == ""
    ensures var n, next := h[|h| - 1].ordinal, Attempt(h, r);
      && (Answer(h, r).Success? <==> n < MAX_INT32 && Free(h, n + 1))
      && (Answer(h, r).Success? ==>
          && EndsInPair(next) && |next| == |h| + 1 && h <= next
          && next[|h|].ordinal == n + 1 && next[|h|].tag == VersionLabel(n + 1)
          && next[|h|].payload == h[|h| - 2].payload)
  {
    RollbackExact(h, r.deploymentName, "", r.now, r.id);
    assert IsTarget(h, |h| - 2, "");
  }

  lemma RoomStep(h: History, next: History, k: nat)
    requires h != [] && k > 0 && |next| == |h| + 1 && h <= next
    requires h[|h| - 1].ordinal < MAX_INT32 && Free(h, h[|h| - 1].ordinal + 1)
    requires next[|h|].ordinal == h[|h| - 1].ordinal + 1 && next[|h|].tag == VersionLabel(next[|h|].ordinal)
    ensures Room(h, k) <==> Room(next, k - 1)
  {
    var last := h[|h| - 1].ordinal;
    forall n | n > last + 1 ensures Free(h, n) <==> Free(next, n) {
      VersionLabelInjective(last + 1, n);
      assert forall q <- next :: q in h || q == next[|h|];
      assert forall q <- h :: q in next;
    }
  }

  /** A dense history always has room up to the column's maximum. */
  lemma DenseHasRoom(h: History, k: nat)
    requires Dense(h) && h != []
    ensures Room(h, k) <==> |h| + k <= MAX_INT32
  {
    forall n | |h| < n <= |h| + k ensures Free(h, n) {
      forall i | 0 <= i < |h| ensures h[i].tag != VersionLabel(n) { VersionLabelInjective(i + 1, n); }
    }
  }
}

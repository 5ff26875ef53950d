/** What a client is offered: the newest package it is eligible for, searched from the end. */
module UpdateCheck {
  import opened Common
  import opened Packages

  type Word32 = n: nat | n < 0x1_0000_0000

  /** The parts the search takes as given: the version matcher, and the first four bytes of the
      SHA-1 digest of a text as a big-endian number. */
  datatype Oracle = Oracle(matches: (string, string) -> bool, digest: string -> Word32)

  datatype Query = Query(appVersion: string, packageHash: string, client: string)

  datatype Offer =
    | NoUpdate
    | Update(tag: string, appVersion: string, description: string, isDisabled: bool, isMandatory: bool,
             packageHash: string, downloadURL: string, packageSize: int, targetBinaryRange: string)

  /** The rollout test on a digest word. */
  predicate InRollout(word: Word32, rollout: int) {
    word % 100 + 1 <= rollout
  }

  predicate SelectedForRollout(o: Oracle, client: string, rollout: int, tag: string) {
    InRollout(o.digest(client + ":" + tag), rollout)
  }

  predicate Eligible(o: Oracle, p: Package, q: Query) {
    && !p.payload.isDisabled
    && o.matches(p.payload.appVersion, q.appVersion)
    && (p.payload.rollout.Some? && p.payload.rollout.value < 100 ==>
          q.client != "" && SelectedForRollout(o, q.client, p.payload.rollout.value, p.tag))
  }

  /** One past the position of the last eligible package; 0 if there is none. */
  function Selected(o: Oracle, h: History, q: Query): (n: nat)
    ensures n <= |h|
    ensures n > 0 ==> Eligible(o, h[n - 1], q)
    ensures forall i | n <= i < |h| :: !Eligible(o, h[i], q)
  {
    if h == [] then 0
    else if Eligible(o, h[|h| - 1], q) then |h|
    else Selected(o, h[..|h| - 1], q)
  }

  function OfferOf(p: Package): Offer {
    Update(p.tag, p.payload.appVersion, p.payload.description, p.payload.isDisabled, p.payload.isMandatory,
           p.payload.packageHash, p.payload.blobURL, p.payload.size, p.payload.appVersion)
  }

  /** The answer to an update check. */
  function Answer(o: Oracle, h: History, q: Query): Offer {
    var n := Selected(o, h, q);
    if n == 0 || h[n - 1].payload.packageHash == q.packageHash then NoUpdate else OfferOf(h[n - 1])
  }

  predicate IsLastEligible(o: Oracle, h: History, q: Query, i: int) {
    0 <= i < |h| && Eligible(o, h[i], q) && forall j | i < j < |h| :: !Eligible(o, h[j], q)
  }

  /** The backwards search. */
  method SelectPackage(o: Oracle, history: History, q: Query) returns (found: Option<Package>)
    ensures found.None? <==> forall p <- history :: !Eligible(o, p, q)
    ensures found.Some? ==> exists i :: IsLastEligible(o, history, q, i) && history[i] == found.value
  {
    var i := |history| - 1;
    while i >= 0
      invariant -1 <= i < |history|
      invariant forall j | i < j < |history| :: !Eligible(o, history[j], q)
    {
      var pkg := history[i];
      if pkg.payload.isDisabled || !o.matches(pkg.payload.appVersion, q.appVersion) {
        i := i - 1;
        continue;
      }
      if pkg.payload.rollout.Some? && pkg.payload.rollout.value < 100 {
        if q.client == "" || !SelectedForRollout(o, q.client, pkg.payload.rollout.value, pkg.tag) {
          i := i - 1;
          continue;
        }
      }
      assert IsLastEligible(o, history, q, i);
      return Some(pkg);
    }
    return None;
  }

  /** The answer for a history: the package found, unless the client already has it. */
  method CheckHistory(o: Oracle, history: History, q: Query) returns (offer: Offer)
    ensures offer == Answer(o, history, q)
  {
    var selected := SelectPackage(o, history, q);
    if selected.None? {
      SelectedUnique(o, history, q, 0);
      return NoUpdate;
    }
    AnswerFrom(o, history, q, selected.value);
    if selected.value.payload.packageHash == q.packageHash {
      return NoUpdate;
    }
    return OfferOf(selected.value);
  }

  lemma AnswerFrom(o: Oracle, h: History, q: Query, p: Package)
    requires exists i :: IsLastEligible(o, h, q, i) && h[i] == p
    ensures Answer(o, h, q) == if p.payload.packageHash == q.packageHash then NoUpdate else OfferOf(p)
  {
    var i :| IsLastEligible(o, h, q, i) && h[i] == p;
    SelectedUnique(o, h, q, i + 1);
  }

  lemma {:induction false} SelectedUnique(o: Oracle, h: History, q: Query, n: nat)
    requires n <= |h| && (n > 0 ==> Eligible(o, h[n - 1], q)) && forall i | n <= i < |h| :: !Eligible(o, h[i], q)
    ensures Selected(o, h, q) == n
  {
    if n < |h| { SelectedUnique(o, h[..|h| - 1], q, n); }
  }

  /** The newest package decides. A client gets it if it is enabled, matches the client's version and
      is rolled out in full or to this client by name; the offer repeats its fields, and nothing is
      offered to a client that has it. Otherwise the answer is that of the history before it. */
  lemma {:induction false} NewestDecides(o: Oracle, h: History, p: Package, q: Query)
    ensures Answer(o, [], q) == NoUpdate
    ensures var d := p.payload;
      var gets := !d.isDisabled && o.matches(d.appVersion, q.appVersion)
                  && (d.rollout.None? || d.rollout.value >= 100
                      || (q.client != "" && o.digest(q.client + ":" + p.tag) % 100 + 1 <= d.rollout.value));
      Answer(o, h + [p], q) ==
      if !gets then Answer(o, h, q)
      else if d.packageHash == q.packageHash then NoUpdate
      else Update(tag := p.tag, appVersion := d.appVersion, description := d.description,
                  isDisabled := d.isDisabled, isMandatory := d.isMandatory, packageHash := d.packageHash,
                  downloadURL := d.blobURL, packageSize := d.size, targetBinaryRange := d.appVersion)
  {
    AppendChangesIff(o, h, p, q);
    assert (h + [p])[|h|] == p;
  }

  /** Whatever is offered is an enabled package of the history that matches the client's version and
      is rolled out to it, described as it is. */
  lemma {:induction false} OfferedAreAllowed(o: Oracle, h: History, q: Query) returns (p: Package)
    requires Answer(o, h, q).Update?
    ensures p in h && !p.payload.isDisabled && o.matches(p.payload.appVersion, q.appVersion)
    ensures p.payload.rollout.None? || p.payload.rollout.value >= 100
            || (q.client != "" && o.digest(q.client + ":" + p.tag) % 100 + 1 <= p.payload.rollout.value)
    ensures p.payload.packageHash != q.packageHash
    ensures var a := Answer(o, h, q);
      && a.tag == p.tag && a.appVersion == p.payload.appVersion && a.description == p.payload.description
      && a.isDisabled == p.payload.isDisabled && a.isMandatory == p.payload.isMandatory
      && a.packageHash == p.payload.packageHash && a.downloadURL == p.payload.blobURL
      && a.packageSize == p.payload.size && a.targetBinaryRange == p.payload.appVersion
  {
    p := h[Selected(o, h, q) - 1];
  }

  // ------------------------------------------------------------------ growth

  /** Appending a package changes what a client is directed to exactly when the client is
      eligible for it, and then to that package. */
  lemma {:induction false} AppendChangesIff(o: Oracle, h: History, p: Package, q: Query)
    ensures Selected(o, h + [p], q) == if Eligible(o, p, q) then |h| + 1 else Selected(o, h, q)
    ensures Selected(o, h + [p], q) != Selected(o, h, q) <==> Eligible(o, p, q)
    ensures !Eligible(o, p, q) ==> Answer(o, h + [p], q) == Answer(o, h, q)
  {
    assert (h + [p])[..|h + [p]| - 1] == h;
  }

  /** A client that adopts the package it is offered is offered nothing more. */
  lemma {:induction false} AdoptionSettles(o: Oracle, h: History, q: Query)
    requires Answer(o, h, q).Update?
    ensures Answer(o, h, q.(packageHash := Answer(o, h, q).packageHash)) == NoUpdate
  {
    var settled := q.(packageHash := Answer(o, h, q).packageHash);
    SelectedUnique(o, h, settled, Selected(o, h, q));
  }

  /** After a rollback to an enabled, fully rolled-out package every version-matching client is
      offered that package's hash, or has it already; every other client's answer is as before. */
  lemma {:induction false} RollbackRedirects(o: Oracle, h: History, name: string, target: string, now: int,
                                             id: string, i: nat, q: Query)
    requires WellKept(h) && IsTarget(h, i, target) && Rollback(h, name, target, now, id).Success?
    requires !h[i].payload.isDisabled && (h[i].payload.rollout.Some? ==> h[i].payload.rollout.value >= 100)
    ensures var t, after := h[i].payload, Rollback(h, name, target, now, id).value.history;
      if o.matches(t.appVersion, q.appVersion) then
        if q.packageHash == t.packageHash then Answer(o, after, q) == NoUpdate
        else
          && Answer(o, after, q).Update?
          && Answer(o, after, q).packageHash == t.packageHash
          && Answer(o, after, q).downloadURL == t.blobURL
          && Answer(o, after, q).packageSize == t.size
          && Answer(o, after, q).targetBinaryRange == t.appVersion
          && Answer(o, after, q).tag == after[|h|].tag
      else Answer(o, after, q) == Answer(o, h, q)
  {
    RollbackExact(h, name, target, now, id);
    AppendChangesIff(o, h, Rollback(h, name, target, now, id).value.package, q);
  }

  // ------------------------------------------------------------------ rollout

  function WithRollout(p: Package, rollout: Option<int>): Package {
    p.(payload := p.payload.(rollout := rollout))
  }

  /** None stands for a full rollout. */
  predicate AtLeast(a: Option<int>, b: Option<int>) {
    a.None? || (if b.Some? then a.value >= b.value else a.value >= 100)
  }

  /** Raising one package's rollout moves a client only forward, and only to that package. */
  lemma {:induction false} RaisingRollout(o: Oracle, h: History, i: nat, rollout: Option<int>, q: Query)
    requires i < |h| && AtLeast(rollout, h[i].payload.rollout)
    ensures var after := h[i := WithRollout(h[i], rollout)];
      && Selected(o, after, q) >= Selected(o, h, q)
      && (Selected(o, after, q) != Selected(o, h, q) ==> Selected(o, after, q) == i + 1)
  {
    var after, n := h[i := WithRollout(h[i], rollout)], Selected(o, h, q);
    assert Eligible(o, h[i], q) ==> Eligible(o, after[i], q);
    SelectedUnique(o, after, q, if i + 1 > n && Eligible(o, after[i], q) then i + 1 else n);
  }

  /** How many of the words 0..n-1 a rollout percentage selects. */
  function CountSelected(n: nat, rollout: int): nat
    requires n <= 0x1_0000_0000
  {
    if n == 0 then 0 else CountSelected(n - 1, rollout) + (if InRollout(n - 1, rollout) then 1 else 0)
  }

  function Clamp(rollout: int): nat {
    if rollout < 0 then 0 else if rollout > 100 then 100 else rollout
  }

  function Min(a: nat, b: nat): nat {
    if a < b then a else b
  }

  /** Exactly r of every full hundred words are selected, and of a partial hundred the first r. */
  lemma {:induction false} RolloutExact(n: nat, rollout: int)
    requires n <= 0x1_0000_0000
    ensures CountSelected(n, rollout) == (n / 100) * Clamp(rollout) + Min(n % 100, Clamp(rollout))
  {
    if n > 0 {
      RolloutExact(n - 1, rollout);
      var r := Clamp(rollout);
      assert InRollout(n - 1, rollout) <==> (n - 1) % 100 < r;
      Hundreds(n, r);
    }
  }

  // Counting up by one either fills a hundred or moves on inside it.
  lemma Hundreds(n: nat, r: nat)
    requires n > 0
    ensures n % 100 == 0 ==> (n - 1) % 100 == 99 && (n / 100) * r == ((n - 1) / 100) * r + r
    ensures n % 100 != 0 ==> (n - 1) % 100 == n % 100 - 1 && (n / 100) * r == ((n - 1) / 100) * r
  {
    var q, m := n / 100, n % 100;
    assert n == 100 * q + m;
    if m == 0 {
      Quotient(n - 1, q - 1, 99);
      assert q * r == (q - 1) * r + r;
    } else {
      Quotient(n - 1, q, m - 1);
    }
  }

  lemma Quotient(n: int, q: int, m: int)
    requires n == 100 * q + m && 0 <= m < 100
    ensures n / 100 == q && n % 100 == m
  {
  }

  /** Over all 2^32 digest words a rollout of r percent selects r percent of them, to within 3.84
      words, and never fewer. */
  lemma RolloutShare(rollout: int)
    requires 0 <= rollout <= 100
    ensures 0 <= 100 * CountSelected(0x1_0000_0000, rollout) - rollout * 0x1_0000_0000 <= 384
  {
    RolloutExact(0x1_0000_0000, rollout);
    assert 0x1_0000_0000 / 100 == 42949672 && 0x1_0000_0000 % 100 == 96;
  }
}

/** The Redis key builders of the metrics store, and exactly when two deployments' keys collide. */
module MetricsKeys {
  function LabelsKey(deployment: string): string {
    "metrics:" + deployment + ":labels"
  }

  function CountersKey(deployment: string, lbl: string): string {
    "metrics:" + deployment + ":label:" + lbl + ":counters"
  }

  function ActiveSetKey(deployment: string, lbl: string): string {
    "metrics:" + deployment + ":label:" + lbl + ":active"
  }

  function ClientKey(deployment: string, client: string): string {
    "metrics:" + deployment + ":client:" + client
  }

  /** Some builder, given this deployment key, can produce k. */
  ghost predicate Owns(d: string, k: string) {
    || k == LabelsKey(d)
    || (exists l :: k == CountersKey(d, l))
    || (exists l :: k == ActiveSetKey(d, l))
    || (exists c :: k == ClientKey(d, c))
  }

  /** e continues d with a ":client" or ":label" segment, so e's keys look like d's. */
  predicate Shadows(d: string, e: string) {
    d + ":client:" <= e + ":" || d + ":label:" <= e + ":"
  }

  predicate Separated(d: string, e: string) {
    d != e && !Shadows(d, e) && !Shadows(e, d)
  }

  predicate ColonFree(s: string) {
    ':' !in s
  }

  // What follows "metrics:" and the deployment key.
  predicate IsTail(s: string) {
    || s == ":labels"
    || (":label:" <= s && |s| >= 14)
    || ":client:" <= s
  }

  function Join(d: string, tail: string): string {
    "metrics:" + (d + tail)
  }

  // Every builder appends a tail to the deployment key.
  lemma BuilderForms(d: string, x: string)
    ensures LabelsKey(d) == Join(d, ":labels")
    ensures CountersKey(d, x) == Join(d, ":label:" + x + ":counters")
    ensures ActiveSetKey(d, x) == Join(d, ":label:" + x + ":active")
    ensures ClientKey(d, x) == Join(d, ":client:" + x)
  {
  }

  lemma OwnedKeyForm(d: string, k: string) returns (tail: string)
    requires Owns(d, k)
    ensures k == Join(d, tail) && IsTail(tail)
  {
    var x := "";
    tail := ":labels";
    if k != LabelsKey(d) {
      if l :| k == CountersKey(d, l) {
        x, tail := l, ":label:" + l + ":counters";
      } else if l :| k == ActiveSetKey(d, l) {
        x, tail := l, ":label:" + l + ":active";
      } else {
        x :| k == ClientKey(d, x);
        tail := ":client:" + x;
      }
    }
    BuilderForms(d, x);
  }

  // Two readings of one string as a deployment key and what follows it.
  lemma TailsShadow(d: string, e: string, s: string, t: string)
    requires d + s == e + t && |d| < |e| && IsTail(s) && IsTail(t)
    ensures Shadows(d, e)
  {
    var b, n := d + s, |e| - |d|;
    assert e == b[..|e|] && b[|e|] == ':';
    assert e + ":" == b[..|e| + 1];
    assert s == b[|d|..] && t == b[|e|..];
    assert |s| == n + |t| && s[n] == ':';
    if ":client:" <= s {
      assert n >= 7;
      assert d + ":client:" == b[..|d| + 8];
    } else {
      assert n >= 6;
      assert d + ":label:" == b[..|d| + 7];
    }
  }

  // Two owners of one key, the shorter deployment key first.
  lemma SharedKeyShadows(d: string, e: string, k: string)
    requires Owns(d, k) && Owns(e, k) && |d| <= |e| && d != e
    ensures Shadows(d, e)
  {
    var s := OwnedKeyForm(d, k);
    var t := OwnedKeyForm(e, k);
    SamePrefix("metrics:", d + s, e + t);
    assert (d + s)[..|d|] == d && (e + t)[..|e|] == e;
    TailsShadow(d, e, s, t);
  }

  lemma SamePrefix(p: string, a: string, b: string)
    requires p + a == p + b
    ensures a == b
  {
    assert a == (p + a)[|p|..] && b == (p + b)[|p|..];
  }

  // A shadowing deployment key really does share a key, one of two ways.
  lemma ClientShadow(d: string, e: string) returns (client: string)
    requires d + ":client:" <= e + ":"
    ensures client != "" && ClientKey(d, client) == LabelsKey(e)
  {
    var rest := (e + ":")[|d| + 8..];
    client := rest + "labels";
    BuilderForms(e, "");
    BuilderForms(d, client);
    Resplit(d, ":client:", rest, e, "labels");
  }

  // Then every key of e is a client pointer of d.
  lemma OwnedAreClients(d: string, e: string, k: string) returns (client: string)
    requires d + ":client:" <= e + ":" && Owns(e, k)
    ensures k == ClientKey(d, client)
  {
    var tail := OwnedKeyForm(e, k);
    var rest := (e + ":")[|d| + 8..];
    assert tail[0] == ':' && tail == ":" + tail[1..];
    Resplit(d, ":client:", rest, e, tail[1..]);
    client := rest + tail[1..];
    BuilderForms(d, client);
  }

  lemma SharedPointer(d: string, e: string, client: string) returns (other: string)
    requires d + ":client:" <= e + ":"
    ensures other != "" && ClientKey(d, other) == ClientKey(e, client)
  {
    other := (e + ":")[|d| + 8..] + ("client:" + client);
    BuilderForms(d, other);
    BuilderForms(e, client);
    Resplit(d, ":client:", (e + ":")[|d| + 8..], e, "client:" + client);
    assert ":" + ("client:" + client) == ":client:" + client;
  }

  lemma LabelShadow(d: string, e: string) returns (lbl: string)
    requires d + ":label:" <= e + ":"
    ensures CountersKey(d, lbl) == CountersKey(e, "")
  {
    var rest := (e + ":")[|d| + 7..];
    lbl := rest + "label:";
    BuilderForms(e, "");
    BuilderForms(d, lbl);
    Resplit(d, ":label:", rest, e, "label::counters");
    assert ":" + "label::counters" == ":label:" + "" + ":counters";
    assert ":label:" + (rest + "label::counters") == ":label:" + lbl + ":counters";
  }

  lemma ShadowsShareKey(d: string, e: string) returns (k: string)
    requires Shadows(d, e)
    ensures Owns(d, k) && Owns(e, k)
  {
    if d + ":client:" <= e + ":" {
      var c := ClientShadow(d, e);
      k := LabelsKey(e);
    } else {
      var l := LabelShadow(d, e);
      k := CountersKey(e, "");
    }
  }

  lemma Resplit(d: string, mid: string, rest: string, e: string, last: string)
    requires d + mid <= e + ":" && rest == (e + ":")[|d + mid|..]
    ensures e + (":" + last) == d + (mid + (rest + last))
  {
    assert e + ":" == d + mid + rest;
    assert e + (":" + last) == (e + ":") + last;
  }

  /** Two deployments never share a Redis key exactly when their keys are separated,
      whatever labels and client ids are in use. */
  lemma KeysDisjointIff(d: string, e: string)
    ensures (forall k :: !(Owns(d, k) && Owns(e, k))) <==> Separated(d, e)
  {
    if Separated(d, e) {
      forall k ensures !(Owns(d, k) && Owns(e, k)) {
        if Owns(d, k) && Owns(e, k) {
          if |d| <= |e| { SharedKeyShadows(d, e, k); } else { SharedKeyShadows(e, d, k); }
        }
      }
    } else if d == e {
      assert Owns(d, LabelsKey(d));
    } else if Shadows(d, e) {
      var k := ShadowsShareKey(d, e);
    } else {
      var k := ShadowsShareKey(e, d);
    }
  }

  /** Colon-free deployment keys, such as the generated hexadecimal ones, are always separated. */
  lemma ColonFreeSeparated(d: string, e: string)
    requires ColonFree(d) && ColonFree(e) && d != e
    ensures Separated(d, e)
  {
    ColonFreeNotShadowed(d, e);
    ColonFreeNotShadowed(e, d);
  }

  lemma ColonFreeNotShadowed(d: string, e: string)
    ensures Shadows(d, e) ==> !ColonFree(e)
  {
    if Shadows(d, e) {
      assert (e + ":")[|d|] == ':' && |d| < |e|;
      assert e[|d|] == ':';
    }
  }

  /** Inside one deployment the four builders are injective and never meet, for every
      deployment key, label and client id. */
  lemma BuildersInjective(d: string, a: string, b: string)
    ensures CountersKey(d, a) == CountersKey(d, b) ==> a == b
    ensures ActiveSetKey(d, a) == ActiveSetKey(d, b) ==> a == b
    ensures ClientKey(d, a) == ClientKey(d, b) ==> a == b
    ensures CountersKey(d, a) != ActiveSetKey(d, b)
    ensures CountersKey(d, a) != ClientKey(d, b)
    ensures ActiveSetKey(d, a) != ClientKey(d, b)
    ensures LabelsKey(d) !in {CountersKey(d, a), ActiveSetKey(d, a), ClientKey(d, a)}
  {
    var n := 8 + |d|;
    assert CountersKey(d, a)[n + 7..|CountersKey(d, a)| - 9] == a;
    assert CountersKey(d, b)[n + 7..|CountersKey(d, b)| - 9] == b;
    assert ActiveSetKey(d, a)[n + 7..|ActiveSetKey(d, a)| - 7] == a;
    assert ActiveSetKey(d, b)[n + 7..|ActiveSetKey(d, b)| - 7] == b;
    assert ClientKey(d, a)[n + 8..] == a && ClientKey(d, b)[n + 8..] == b;
    assert CountersKey(d, a)[|CountersKey(d, a)| - 1] == 's';
    assert ActiveSetKey(d, b)[|ActiveSetKey(d, b)| - 1] == 'e';
    assert CountersKey(d, a)[n + 1] == 'l' && ActiveSetKey(d, a)[n + 1] == 'l' && ClientKey(d, b)[n + 1] == 'c';
    assert CountersKey(d, a)[n + 6] == ':' && ActiveSetKey(d, a)[n + 6] == ':' && LabelsKey(d)[n + 6] == 's';
    assert ClientKey(d, a)[n + 1] == 'c' && LabelsKey(d)[n + 1] == 'l';
  }
}

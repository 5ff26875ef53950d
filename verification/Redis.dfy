/** The part of Redis the metrics store uses: one flat keyspace of typed values.
    A MULTI/EXEC transaction runs every queued command; a command that fails (wrong type,
    counter overflow) changes nothing and does not undo the others. */
module Redis {
  import opened Common
  import opened Decimal

  /** A counter: HINCRBY refuses to leave the signed 64-bit range. */
  type Word = n: nat | n <= MAX_INT64

  datatype Value =
    | Text(text: string)
    | Members(members: set<string>)
    | Fields(fields: map<string, Word>)

  type Keyspace = map<string, Value>

  datatype Command =
    | HIncrBy(key: string, field: string)
    | SAdd(key: string, member: string)
    | SRem(key: string, member: string)
    | Assign(key: string, text: string)

  datatype Reply = Reply(ks: Keyspace, ok: bool)

  function Apply(ks: Keyspace, c: Command): Reply {
    match c
    case HIncrBy(key, field) =>
      if key in ks && !ks[key].Fields? then Reply(ks, false)
      else
        var fields := if key in ks then ks[key].fields else map[];
        var n := if field in fields then fields[field] else 0;
        if n == MAX_INT64 then Reply(ks, false)
        else Reply(ks[key := Fields(fields[field := n + 1])], true)
    case SAdd(key, member) =>
      if key in ks && !ks[key].Members? then Reply(ks, false)
      else
        var members := if key in ks then ks[key].members else {};
        Reply(ks[key := Members(members + {member})], true)
    case SRem(key, member) =>
      if key !in ks then Reply(ks, true)
      else if !ks[key].Members? then Reply(ks, false)
      else if ks[key].members - {member} == {} then Reply(ks - {key}, true)
      else Reply(ks[key := Members(ks[key].members - {member})], true)
    case Assign(key, text) =>
      Reply(ks[key := Text(text)], true)
  }

  /** EXEC: all commands in order; ok only if each of them was. */
  function Exec(ks: Keyspace, commands: seq<Command>): Reply
    decreases |commands|
  {
    if commands == [] then Reply(ks, true)
    else
      var first := Apply(ks, commands[0]);
      var rest := Exec(first.ks, commands[1..]);
      Reply(rest.ks, first.ok && rest.ok)
  }

  /** SMEMBERS */
  function SMembers(ks: Keyspace, key: string): Result<set<string>> {
    if key !in ks then Success({})
    else if ks[key].Members? then Success(ks[key].members)
    else Failure(Internal)
  }

  /** HGETALL: Redis hands every field back as text. */
  function HGetAll(ks: Keyspace, key: string): Result<map<string, string>> {
    if key !in ks then Success(map[])
    else if ks[key].Fields? then Success(map f | f in ks[key].fields :: Render(ks[key].fields[f]))
    else Failure(Internal)
  }

  /** GET with the error dropped, as the caller does: a missing key reads as "". */
  function Get(ks: Keyspace, key: string): string {
    if key in ks && ks[key].Text? then ks[key].text else ""
  }

  /** DEL */
  function Del(ks: Keyspace, keys: set<string>): Keyspace {
    ks - keys
  }

  // Total readings of a key, used to state what the commands did.
  function MembersAt(ks: Keyspace, key: string): set<string> {
    if key in ks && ks[key].Members? then ks[key].members else {}
  }

  function FieldAt(ks: Keyspace, key: string, field: string): Word {
    if key in ks && ks[key].Fields? && field in ks[key].fields then ks[key].fields[field] else 0
  }

  function Bump(n: Word): Word {
    if n == MAX_INT64 then n else n + 1
  }

  function KeyOf(c: Command): string {
    match c
    case HIncrBy(key, _) => key
    case SAdd(key, _) => key
    case SRem(key, _) => key
    case Assign(key, _) => key
  }

  predicate SameAt(a: Keyspace, b: Keyspace, k: string) {
    (k in a <==> k in b) && (k in a && k in b ==> a[k] == b[k])
  }

  /** A transaction touches only the keys its commands name. */
  lemma {:induction false} ExecFrame(ks: Keyspace, commands: seq<Command>, k: string)
    requires forall c <- commands :: KeyOf(c) != k
    ensures SameAt(Exec(ks, commands).ks, ks, k)
    decreases |commands|
  {
    if commands != [] {
      assert commands[0] in commands;
      ExecFrame(Apply(ks, commands[0]).ks, commands[1..], k);
    }
  }

  /** A key named by one command only is left as that command alone would leave it. */
  lemma {:induction false} ExecAt(ks: Keyspace, commands: seq<Command>, i: nat, k: string)
    requires i < |commands| && KeyOf(commands[i]) == k
    requires forall j | 0 <= j < |commands| && j != i :: KeyOf(commands[j]) != k
    ensures SameAt(Exec(ks, commands).ks, Apply(ks, commands[i]).ks, k)
    decreases |commands|
  {
    var first := Apply(ks, commands[0]).ks;
    if i == 0 {
      ExecFrame(first, commands[1..], k);
    } else {
      ExecAt(first, commands[1..], i - 1, k);
      assert SameAt(first, ks, k);
    }
  }

  /** When the commands name different keys, EXEC succeeds exactly when each would on its own. */
  lemma {:induction false} ExecOkIff(ks: Keyspace, commands: seq<Command>)
    requires forall i, j | 0 <= i < j < |commands| :: KeyOf(commands[i]) != KeyOf(commands[j])
    ensures Exec(ks, commands).ok <==> forall c <- commands :: Apply(ks, c).ok
    decreases |commands|
  {
    if commands != [] {
      var first, rest := Apply(ks, commands[0]).ks, commands[1..];
      ExecOkIff(first, rest);
      forall c <- rest ensures Apply(first, c).ok == Apply(ks, c).ok {
        assert SameAt(first, ks, KeyOf(c));
      }
      assert forall c <- commands :: c == commands[0] || c in rest;
    }
  }
}

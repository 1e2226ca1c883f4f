/**
 * The part of the key-value store the record layer talks to: hashes, sets,
 * per-key time-to-live values, and batches of commands applied in order.
 */
module Redis {
  import opened Wrappers

  /** One queued pipeline command. */
  datatype Command =
    | HSet(name: string, mapping: map<string, string>)
    | Expire(name: string, time: nat)
    | SAdd(name: string, member: string)
    | Del(names: seq<string>)
    | SRem(name: string, members: seq<string>)
    | HGetAll(name: string)
    | HMGet(name: string, fields: seq<string>)
  {
    /** True of the commands that only read. */
    predicate IsRead() {
      HGetAll? || HMGet?
    }
  }

  /** The per-command result a pipeline returns. */
  datatype Reply =
    | Count(n: nat)
    | Hash(fields: map<string, string>)
    | Values(values: seq<Option<string>>)

  /** The store's content: hashes, sets and recorded expiry times, by key. */
  datatype StoreState = StoreState(
    hashes: map<string, map<string, string>>,
    sets: map<string, set<string>>,
    ttl: map<string, nat>)

  /** The hash stored at `k` (empty when there is none). */
  function HashAt(s: StoreState, k: string): map<string, string> {
    if k in s.hashes then s.hashes[k] else map[]
  }

  /** The members of the set stored at `k` (empty when there is none). */
  function Members(s: StoreState, k: string): set<string> {
    if k in s.sets then s.sets[k] else {}
  }

  /** The expiry time recorded for `k`, if any. */
  function TtlOf(s: StoreState, k: string): Option<nat> {
    if k in s.ttl then Some(s.ttl[k]) else None
  }

  predicate Exists(s: StoreState, k: string) {
    k in s.hashes || k in s.sets
  }

  function SetOf(names: seq<string>): set<string> {
    set k | k in names
  }

  /** The effect and reply of one command. */
  function Apply(s: StoreState, c: Command): (StoreState, Reply) {
    match c
    case HSet(name, mapping) => ApplyHSet(s, name, mapping)
    case Expire(name, time) => ApplyExpire(s, name, time)
    case SAdd(name, member) => ApplySAdd(s, name, member)
    case Del(names) => ApplyDel(s, names)
    case SRem(name, members) => ApplySRem(s, name, members)
    case HGetAll(name) => (s, Hash(HashAt(s, name)))
    case HMGet(name, fields) => (s, Values(HashValues(HashAt(s, name), fields)))
  }

  /** `HSET name mapping`: merges the fields into the hash; replies with the number of new fields. */
  function ApplyHSet(s: StoreState, name: string, mapping: map<string, string>): (StoreState, Reply) {
    if mapping == map[] then (s, Count(0))
    else
      var prev := HashAt(s, name);
      (s.(hashes := s.hashes[name := prev + mapping]), Count(|mapping.Keys - prev.Keys|))
  }

  /** `EXPIRE name time`: records the time of an existing key; replies 1, or 0 for a missing key. */
  function ApplyExpire(s: StoreState, name: string, time: nat): (StoreState, Reply) {
    if Exists(s, name) then (s.(ttl := s.ttl[name := time]), Count(1)) else (s, Count(0))
  }

  /** `SADD name member`: replies 1 when the member is new, else 0. */
  function ApplySAdd(s: StoreState, name: string, member: string): (StoreState, Reply) {
    var prev := Members(s, name);
    (s.(sets := s.sets[name := prev + {member}]), Count(if member in prev then 0 else 1))
  }

  /** `DEL names...`: removes the keys; replies with how many existed. */
  function ApplyDel(s: StoreState, names: seq<string>): (StoreState, Reply) {
    var gone := SetOf(names);
    var existed := set k | k in gone && Exists(s, k);
    (StoreState(s.hashes - gone, s.sets - gone, s.ttl - gone), Count(|existed|))
  }

  /** `SREM name members...`: a set left empty is removed; replies with how many were members. */
  function ApplySRem(s: StoreState, name: string, members: seq<string>): (StoreState, Reply) {
    var prev := Members(s, name);
    var removed := prev * SetOf(members);
    var rest := prev - removed;
    if name !in s.sets then (s, Count(0))
    else if rest == {} then (s.(sets := s.sets - {name}, ttl := s.ttl - {name}), Count(|removed|))
    else (s.(sets := s.sets[name := rest]), Count(|removed|))
  }

  /** `HMGET`: the value of each requested field, None for a field the hash lacks. */
  function HashValues(h: map<string, string>, fields: seq<string>): seq<Option<string>> {
    seq(|fields|, i requires 0 <= i < |fields| => if fields[i] in h then Some(h[fields[i]]) else None)
  }

  /** `hmget` answers each requested field with its value, or None when the hash lacks it. */
  lemma HashValuesRead(h: map<string, string>, fields: seq<string>)
    ensures |HashValues(h, fields)| == |fields|
    ensures forall i :: 0 <= i < |fields| ==> (HashValues(h, fields)[i].Some? <==> fields[i] in h)
    ensures forall i :: 0 <= i < |fields| && fields[i] in h ==> HashValues(h, fields)[i] == Some(h[fields[i]])
  {
  }

  /** The state after a batch and the replies of its commands, in order. */
  function ApplyAll(s: StoreState, batch: seq<Command>): (StoreState, seq<Reply>)
    decreases |batch|
  {
    if batch == [] then (s, [])
    else
      var first := Apply(s, batch[0]);
      var rest := ApplyAll(first.0, batch[1..]);
      (rest.0, [first.1] + rest.1)
  }

  /** A batch's replies come one per command. */
  lemma {:induction false} ApplyAllReplies(s: StoreState, batch: seq<Command>)
    ensures |ApplyAll(s, batch).1| == |batch|
    ensures forall i :: 0 <= i < |batch| && batch[i].HGetAll? ==> ApplyAll(s, batch).1[i].Hash?
    ensures forall i :: 0 <= i < |batch| && batch[i].HMGet? ==>
      ApplyAll(s, batch).1[i].Values? && |ApplyAll(s, batch).1[i].values| == |batch[i].fields|
    decreases |batch|
  {
    if batch != [] {
      ApplyAllReplies(Apply(s, batch[0]).0, batch[1..]);
    }
  }

  /** Applying `a + b` is applying `a`, then `b`. */
  lemma {:induction false} ApplyAllConcat(s: StoreState, a: seq<Command>, b: seq<Command>)
    ensures ApplyAll(s, a + b).0 == ApplyAll(ApplyAll(s, a).0, b).0
    decreases |a|
  {
    if a == [] {
      assert a + b == b;
    } else {
      assert (a + b)[0] == a[0];
      assert (a + b)[1..] == a[1..] + b;
      ApplyAllConcat(Apply(s, a[0]).0, a[1..], b);
    }
  }

  /** The replies to `a + b` are the replies to `a`, then those to `b` from the state `a` leaves. */
  lemma {:induction false} ApplyAllConcatReplies(s: StoreState, a: seq<Command>, b: seq<Command>)
    ensures ApplyAll(s, a + b).1 == ApplyAll(s, a).1 + ApplyAll(ApplyAll(s, a).0, b).1
    decreases |a|
  {
    if a == [] {
      assert a + b == b;
    } else {
      assert (a + b)[0] == a[0];
      assert (a + b)[1..] == a[1..] + b;
      var first := Apply(s, a[0]);
      ApplyAllConcatReplies(first.0, a[1..], b);
      var mid := ApplyAll(first.0, a[1..]);
      var tail := ApplyAll(mid.0, b);
      assert ApplyAll(s, a + b).1 == [first.1] + (mid.1 + tail.1);
      assert ApplyAll(s, a).1 == [first.1] + mid.1;
    }
  }

  /** A batch of one command is that command. */
  lemma ApplyAllSingle(s: StoreState, c: Command)
    ensures ApplyAll(s, [c]) == (Apply(s, c).0, [Apply(s, c).1])
  {
    var first := Apply(s, c);
    assert [c][1..] == [];
    assert ApplyAll(first.0, []) == (first.0, []);
    assert [first.1] + [] == [first.1];
    assert ApplyAll(s, [c]) == (ApplyAll(first.0, [c][1..]).0, [first.1] + ApplyAll(first.0, [c][1..]).1);
  }

  /** `hset` merges the mapping into one hash and touches nothing else. */
  lemma HSetEffect(s: StoreState, name: string, mapping: map<string, string>)
    ensures var t := Apply(s, HSet(name, mapping)).0;
      t.sets == s.sets && t.ttl == s.ttl &&
      HashAt(t, name) == HashAt(s, name) + mapping &&
      (Exists(t, name) <==> mapping != map[] || Exists(s, name)) &&
      forall k :: k != name ==> HashAt(t, k) == HashAt(s, k)
  {
    assert Apply(s, HSet(name, mapping)) == ApplyHSet(s, name, mapping);
    if mapping == map[] {
      HSetEmpty(s, name);
    } else {
      HSetMerge(s, name, mapping);
      HashStored(s, name, HashAt(s, name) + mapping);
    }
  }

  /** Storing hash `h` at `name` changes the hash there and nowhere else. */
  lemma HashStored(s: StoreState, name: string, h: map<string, string>)
    ensures var t := s.(hashes := s.hashes[name := h]);
      t.sets == s.sets && t.ttl == s.ttl && HashAt(t, name) == h && Exists(t, name) &&
      forall k :: k != name ==> HashAt(t, k) == HashAt(s, k)
  {
  }

  /** `hset` with no fields changes nothing. */
  lemma HSetEmpty(s: StoreState, name: string)
    ensures ApplyHSet(s, name, map[]).0 == s
    ensures HashAt(s, name) + map[] == HashAt(s, name)
  {
  }

  /** `hset` with fields stores the merged hash at `name`, which then exists. */
  lemma HSetMerge(s: StoreState, name: string, mapping: map<string, string>)
    requires mapping != map[]
    ensures ApplyHSet(s, name, mapping).0 == s.(hashes := s.hashes[name := HashAt(s, name) + mapping])
  {
  }

  /**
   * `expire` records the time of an existing key, does nothing for a missing
   * one, and touches no hash, no set and no other key's expiry.
   */
  lemma ExpireEffect(s: StoreState, name: string, time: nat)
    ensures var t := Apply(s, Expire(name, time)).0;
      t.hashes == s.hashes && t.sets == s.sets &&
      t.ttl == (if Exists(s, name) then s.ttl[name := time] else s.ttl)
  {
  }

  /** `sadd` adds one member to one set and touches nothing else. */
  lemma SAddEffect(s: StoreState, name: string, member: string)
    ensures var t := Apply(s, SAdd(name, member)).0;
      t.hashes == s.hashes && t.ttl == s.ttl &&
      Members(t, name) == Members(s, name) + {member} && name in t.sets &&
      forall n :: n != name ==> Members(t, n) == Members(s, n)
  {
  }

  /** `del` removes every listed key, of either kind, with its expiry, and touches nothing else. */
  lemma DelEffect(s: StoreState, names: seq<string>)
    ensures var t := Apply(s, Del(names)).0;
      (forall k :: k in names ==> k !in t.hashes && k !in t.sets && k !in t.ttl) &&
      (forall k :: k !in names ==> HashAt(t, k) == HashAt(s, k) && Members(t, k) == Members(s, k))
  {
  }

  /** `srem` takes the listed members out of one set and touches no hash and no other set. */
  lemma SRemEffect(s: StoreState, name: string, members: seq<string>)
    ensures var t := Apply(s, SRem(name, members)).0;
      t.hashes == s.hashes && t.ttl.Keys <= s.ttl.Keys &&
      Members(t, name) == Members(s, name) - SetOf(members) &&
      forall n :: n != name ==> Members(t, n) == Members(s, n)
  {
    assert Apply(s, SRem(name, members)) == ApplySRem(s, name, members);
    SRemCases(s, name, members);
  }

  /** The three outcomes of `srem`: a missing set, a set left empty, and a set with members left. */
  lemma SRemCases(s: StoreState, name: string, members: seq<string>)
    ensures var t := ApplySRem(s, name, members).0;
      t.hashes == s.hashes && t.ttl.Keys <= s.ttl.Keys &&
      Members(t, name) == Members(s, name) - SetOf(members) &&
      forall n :: n != name ==> Members(t, n) == Members(s, n)
  {
    var prev := Members(s, name);
    var rest := prev - prev * SetOf(members);
    assert rest == prev - SetOf(members);
    if name !in s.sets {
      assert ApplySRem(s, name, members).0 == s;
    } else if rest == {} {
      assert ApplySRem(s, name, members).0 == s.(sets := s.sets - {name}, ttl := s.ttl - {name});
      SetDropped(s, name);
    } else {
      assert ApplySRem(s, name, members).0 == s.(sets := s.sets[name := rest]);
      SetStored(s, name, rest);
    }
  }

  /** Dropping a set key (and its expiry) empties that set and leaves the others. */
  lemma SetDropped(s: StoreState, name: string)
    ensures var t := s.(sets := s.sets - {name}, ttl := s.ttl - {name});
      t.hashes == s.hashes && t.ttl.Keys <= s.ttl.Keys && Members(t, name) == {} &&
      forall n :: n != name ==> Members(t, n) == Members(s, n)
  {
  }

  /** Storing members under a set key changes that set only. */
  lemma SetStored(s: StoreState, name: string, rest: set<string>)
    ensures var t := s.(sets := s.sets[name := rest]);
      t.hashes == s.hashes && t.ttl == s.ttl && Members(t, name) == rest &&
      forall n :: n != name ==> Members(t, n) == Members(s, n)
  {
  }

  /** A batch of reads leaves the store as it was, and the i-th reply reads the i-th key. */
  lemma {:induction false} ReadsChangeNothing(s: StoreState, batch: seq<Command>)
    requires forall c :: c in batch ==> c.IsRead()
    ensures ApplyAll(s, batch).0 == s
    ensures |ApplyAll(s, batch).1| == |batch|
    ensures forall i :: 0 <= i < |batch| ==> ApplyAll(s, batch).1[i] == Apply(s, batch[i]).1
    decreases |batch|
  {
    if batch != [] {
      assert batch[0] in batch;
      assert Apply(s, batch[0]).0 == s by {
        match batch[0]
        case HGetAll(_) =>
        case HMGet(_, _) =>
      }
      assert forall c :: c in batch[1..] ==> c in batch;
      ReadsChangeNothing(s, batch[1..]);
      var rest := ApplyAll(s, batch[1..]);
      assert ApplyAll(s, batch).1 == [Apply(s, batch[0]).1] + rest.1;
      forall i | 0 < i < |batch|
        ensures ApplyAll(s, batch).1[i] == Apply(s, batch[i]).1
      {
        assert batch[i] == batch[1..][i - 1];
      }
    }
  }

  /**
   * The store server. A pipeline sent with `execute()` is applied command by
   * command, in the order the commands were queued.
   */
  class Server {
    var hashes: map<string, map<string, string>>
    var sets: map<string, set<string>>
    var ttl: map<string, nat>

    function State(): StoreState
      reads this
    {
      StoreState(hashes, sets, ttl)
    }

    constructor (init: StoreState)
      ensures State() == init
    {
      hashes, sets, ttl := init.hashes, init.sets, init.ttl;
    }

    /** `pipeline.execute()` of a batch that writes. */
    method Execute(batch: seq<Command>) returns (replies: seq<Reply>)
      modifies this
      ensures State() == ApplyAll(old(State()), batch).0
      ensures replies == ApplyAll(old(State()), batch).1
      ensures |replies| == |batch|
    {
      var (s, rs) := ApplyAll(State(), batch);
      ApplyAllReplies(State(), batch);
      hashes, sets, ttl := s.hashes, s.sets, s.ttl;
      replies := rs;
    }

    /** `pipeline.execute()` of a batch of reads: one reply per command, nothing changes. */
    method Query(batch: seq<Command>) returns (replies: seq<Reply>)
      requires forall c :: c in batch ==> c.IsRead()
      ensures |replies| == |batch|
      ensures forall i :: 0 <= i < |batch| ==> replies[i] == Apply(State(), batch[i]).1
    {
      replies := ApplyAll(State(), batch).1;
      ApplyAllReplies(State(), batch);
      ReadsChangeNothing(State(), batch);
    }

    /** The index scan: the members of the set at `name`, each once, in no particular order. */
    method Scan(name: string) returns (members: seq<string>)
      ensures multiset(members) == multiset(Members(State(), name))
    {
      var rest := Members(State(), name);
      members := [];
      while rest != {}
        invariant rest <= Members(State(), name)
        invariant multiset(members) + multiset(rest) == multiset(Members(State(), name))
        decreases rest
      {
        var k :| k in rest;
        members := members + [k];
        rest := rest - {k};
      }
    }
  }
}

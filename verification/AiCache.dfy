/** The cache of AI responses (src/ai_cache.c): a linked list of entries that expire, with an eviction that
    sorts pointers to the entries and unlinks the first of them. */
module AiCache {
  import opened Wrappers

  const AI_CACHE_EXPIRE_TIME := 3600

  // ----- What the list holds -----

  datatype Record = Record(key: string, response: string, expiresAt: int)

  ghost predicate UniqueKeys(s: seq<Record>) {
    forall i, j :: 0 <= i < j < |s| ==> s[i].key != s[j].key
  }

  predicate HasKey(s: seq<Record>, key: string) {
    exists i :: 0 <= i < |s| && s[i].key == key
  }

  /** The first record with the key. */
  function Find(s: seq<Record>, key: string): (r: Option<Record>)
    ensures r.Some? ==> r.value in s && r.value.key == key
    ensures r.None? <==> !HasKey(s, key)
  {
    if s == [] then None
    else if s[0].key == key then Some(s[0])
    else
      var rest := Find(s[1..], key);
      assert rest.None? ==> forall i :: 0 <= i < |s| - 1 ==> s[1..][i] == s[i + 1];
      rest
  }

  /** The list after the first record with the key got a new response and a new time. */
  function Refresh(s: seq<Record>, key: string, response: string, now: int): (r: seq<Record>)
    ensures |r| == |s|
  {
    if s == [] then []
    else if s[0].key == key then [Record(key, response, now + AI_CACHE_EXPIRE_TIME)] + s[1..]
    else [s[0]] + Refresh(s[1..], key, response, now)
  }

  /** The records that have not expired, in order. */
  function Live(s: seq<Record>, now: int): seq<Record> {
    if s == [] then []
    else if s[0].expiresAt > now then [s[0]] + Live(s[1..], now)
    else Live(s[1..], now)
  }

  /** The records whose keys are not in `gone`, in order. */
  function Without(s: seq<Record>, gone: set<string>): seq<Record> {
    if s == [] then []
    else if s[0].key !in gone then [s[0]] + Without(s[1..], gone)
    else Without(s[1..], gone)
  }

  lemma {:induction false} LiveMembers(s: seq<Record>, now: int)
    ensures forall x :: x in Live(s, now) <==> x in s && x.expiresAt > now
    ensures |Live(s, now)| <= |s|
  {
    if s != [] {
      LiveMembers(s[1..], now);
      assert s == [s[0]] + s[1..];
    }
  }

  lemma {:induction false} WithoutMembers(s: seq<Record>, gone: set<string>)
    ensures forall x :: x in Without(s, gone) <==> x in s && x.key !in gone
    ensures |Without(s, gone)| <= |s|
  {
    if s != [] {
      WithoutMembers(s[1..], gone);
      assert s == [s[0]] + s[1..];
    }
  }

  /** How many of n unexpired entries the removal loop takes away: its bound shrinks as it runs. */
  function Removals(n: nat, limit: nat): nat {
    if n <= limit then 0
    else if n - limit <= (n + 1) / 2 then n - limit
    else (n + 1) / 2
  }

  /** What the second pass may remove from a list of unexpired records. */
  ghost predicate EvictsFrom(live: seq<Record>, s': seq<Record>, limit: nat, gone: set<string>) {
    && s' == Without(live, gone)
    && |live| - |s'| == Removals(|live|, limit)
    && forall x, y :: x in live && y in live && x.key in gone && y.key !in gone ==> x.expiresAt <= y.expiresAt
  }

  /** What a cleanup may do: keep the unexpired records except as many as the loop takes away, none of which
      expires later than a record that is kept. */
  ghost predicate Evicts(s: seq<Record>, s': seq<Record>, now: int, limit: nat, gone: set<string>) {
    EvictsFrom(Live(s, now), s', limit, gone)
  }

  ghost predicate Cleaned(s: seq<Record>, s': seq<Record>, now: int, limit: nat) {
    exists gone :: Evicts(s, s', now, limit, gone)
  }

  /** The cleanup reaches the limit exactly when the unexpired entries number at most twice the limit and one. */
  lemma CleanupReachesLimit(s: seq<Record>, s': seq<Record>, now: int, limit: nat)
    requires Cleaned(s, s', now, limit)
    ensures |s'| <= limit <==> |Live(s, now)| <= 2 * limit + 1
  {
  }

  // ----- Operations and runs -----

  /** The clock is read when an operation starts; a store that has to clean up reads it again. */
  datatype Op = Store(key: string, response: string, now: int, later: int) | Clear | Cleanup(now: int)

  ghost predicate Step(s: seq<Record>, op: Op, s': seq<Record>, limit: nat) {
    match op
    case Store(key, response, now, later) =>
      if HasKey(s, key) then s' == Refresh(s, key, response, now)
      else
        var added := [Record(key, response, now + AI_CACHE_EXPIRE_TIME)] + s;
        if |added| > limit then Cleaned(added, s', later, limit) else s' == added
    case Clear => s' == []
    case Cleanup(now) => Cleaned(s, s', now, limit)
  }

  /** The states a run goes through, starting with an empty list. */
  ghost predicate IsRun(ops: seq<Op>, states: seq<seq<Record>>, limit: nat) {
    && |states| == |ops| + 1 && states[0] == []
    && forall i :: 0 <= i < |ops| ==> Step(states[i], ops[i], states[i + 1], limit)
  }

  /** The last response stored under a key since the last clear, and when. */
  function LastStore(ops: seq<Op>, key: string): Option<(string, int)> {
    if ops == [] then None
    else
      match ops[|ops| - 1]
      case Store(k, response, now, _) => if k == key then Some((response, now)) else LastStore(ops[..|ops| - 1], key)
      case Clear => None
      case Cleanup(_) => LastStore(ops[..|ops| - 1], key)
  }

  /** The lookup: the response of an unexpired entry. */
  function Get(s: seq<Record>, key: string, now: int): Option<string> {
    match Find(s, key)
    case None => None
    case Some(r) => if r.expiresAt > now then Some(r.response) else None
  }

  /** Every record is the last one stored under its key. */
  ghost predicate Faithful(s: seq<Record>, ops: seq<Op>) {
    forall r :: r in s ==> LastStore(ops, r.key) == Some((r.response, r.expiresAt - AI_CACHE_EXPIRE_TIME))
  }

  lemma {:induction false} FiltersKeepUnique(s: seq<Record>, now: int, gone: set<string>)
    requires UniqueKeys(s)
    ensures UniqueKeys(Live(s, now)) && UniqueKeys(Without(s, gone))
  {
    if s != [] {
      FiltersKeepUnique(s[1..], now, gone);
      LiveMembers(s[1..], now);
      WithoutMembers(s[1..], gone);
      UniqueCons(s[0], s[1..], Live(s[1..], now));
      UniqueCons(s[0], s[1..], Without(s[1..], gone));
    }
  }

  lemma UniqueCons(x: Record, s: seq<Record>, t: seq<Record>)
    requires UniqueKeys([x] + s) && UniqueKeys(t) && forall y :: y in t ==> y in s
    ensures UniqueKeys([x] + t)
  {
    forall j | 0 <= j < |t|
      ensures x.key != t[j].key
    {
      assert t[j] in s;
      var k :| 0 <= k < |s| && s[k] == t[j];
      assert ([x] + s)[0] == x && ([x] + s)[k + 1] == s[k];
    }
  }

  lemma {:induction false} RefreshFacts(s: seq<Record>, key: string, response: string, now: int)
    requires UniqueKeys(s) && HasKey(s, key)
    ensures UniqueKeys(Refresh(s, key, response, now))
    ensures forall r :: r in Refresh(s, key, response, now) <==>
              r == Record(key, response, now + AI_CACHE_EXPIRE_TIME) || (r in s && r.key != key)
  {
    var r := Record(key, response, now + AI_CACHE_EXPIRE_TIME);
    var i := RefreshIsUpdate(s, key, response, now);
    assert forall j :: 0 <= j < |s| && j != i ==> s[j].key != key;
    assert s[i := r][i] == r;
    forall x | x in s && x.key != key
      ensures x in s[i := r]
    {
      var j :| 0 <= j < |s| && s[j] == x;
      assert s[i := r][j] == x;
    }
  }

  lemma {:induction false} RefreshIsUpdate(s: seq<Record>, key: string, response: string, now: int) returns (i: nat)
    requires HasKey(s, key)
    ensures i < |s| && s[i].key == key
    ensures Refresh(s, key, response, now) == s[i := Record(key, response, now + AI_CACHE_EXPIRE_TIME)]
  {
    if s[0].key == key {
      i := 0;
    } else {
      assert forall j :: 1 <= j < |s| ==> s[1..][j - 1] == s[j];
      var j := RefreshIsUpdate(s[1..], key, response, now);
      i := j + 1;
    }
  }

  /** One operation keeps keys unique, the size within the limit, and every record the last one stored. */
  lemma StepKeeps(s: seq<Record>, op: Op, s': seq<Record>, ops: seq<Op>, limit: nat)
    requires Step(s, op, s', limit) && UniqueKeys(s) && |s| <= limit && Faithful(s, ops)
    ensures UniqueKeys(s') && |s'| <= limit && Faithful(s', ops + [op])
  {
    assert (ops + [op])[..|ops|] == ops;
    match op
    case Store(key, response, now, later) =>
      var r := Record(key, response, now + AI_CACHE_EXPIRE_TIME);
      if HasKey(s, key) {
        RefreshFacts(s, key, response, now);
      } else {
        var added := [r] + s;
        assert UniqueKeys(added);
        assert Faithful(added, ops + [op]) by {
          forall x | x in added
            ensures LastStore(ops + [op], x.key) == Some((x.response, x.expiresAt - AI_CACHE_EXPIRE_TIME))
          {
            if x in s {
              var i :| 0 <= i < |s| && s[i] == x;
            }
          }
        }
        if |added| > limit {
          CleanupKeeps(added, s', later, limit);
        }
      }
    case Clear =>
    case Cleanup(now) =>
      CleanupKeeps(s, s', now, limit);
  }

  lemma CleanupKeeps(s: seq<Record>, s': seq<Record>, now: int, limit: nat)
    requires Cleaned(s, s', now, limit) && UniqueKeys(s)
    ensures UniqueKeys(s') && forall x :: x in s' ==> x in s && x.expiresAt > now
    ensures |s| <= limit + 1 ==> |s'| <= limit
  {
    var gone :| Evicts(s, s', now, limit, gone);
    LiveMembers(s, now);
    WithoutMembers(Live(s, now), gone);
    FiltersKeepUnique(s, now, {});
    FiltersKeepUnique(Live(s, now), now, gone);
    CleanupReachesLimit(s, s', now, limit);
  }

  /** Over any run: keys are unique, the size is within the limit, and every record is the last one stored. */
  lemma {:induction false} RunKeeps(ops: seq<Op>, states: seq<seq<Record>>, limit: nat)
    requires IsRun(ops, states, limit)
    ensures var s := states[|ops|]; UniqueKeys(s) && |s| <= limit && Faithful(s, ops)
  {
    if ops != [] {
      var n := |ops| - 1;
      assert ops[..n] + [ops[n]] == ops;
      assert forall i :: 0 <= i < n ==> Step(states[..n + 1][i], ops[..n][i], states[..n + 1][i + 1], limit);
      RunKeeps(ops[..n], states[..n + 1], limit);
      StepKeeps(states[n], ops[n], states[n + 1], ops[..n], limit);
    }
  }

  /** A hit is the response most recently stored under the key, less than an hour before. */
  lemma HitIsLastStore(ops: seq<Op>, states: seq<seq<Record>>, limit: nat, key: string, now: int)
    requires IsRun(ops, states, limit) && Get(states[|ops|], key, now).Some?
    ensures var last := LastStore(ops, key);
            && last.Some? && Get(states[|ops|], key, now) == Some(last.value.0)
            && now < last.value.1 + AI_CACHE_EXPIRE_TIME
  {
    RunKeeps(ops, states, limit);
  }

  // ----- A cache that is large enough is a map -----

  /** The keys stored since the last clear. */
  function StoredKeys(ops: seq<Op>): set<string> {
    if ops == [] then {}
    else
      match ops[|ops| - 1]
      case Store(k, _, _, _) => StoredKeys(ops[..|ops| - 1]) + {k}
      case Clear => {}
      case Cleanup(_) => StoredKeys(ops[..|ops| - 1])
  }

  ghost predicate NoLaterThan(ops: seq<Op>, now: int) {
    forall op :: op in ops && !op.Clear? ==> op.now <= now && (op.Store? ==> op.later <= now)
  }

  /** What a map would answer: the last response stored since the last clear, for an hour. */
  function MapGet(ops: seq<Op>, key: string, now: int): Option<string> {
    match LastStore(ops, key)
    case None => None
    case Some(last) => if now < last.1 + AI_CACHE_EXPIRE_TIME then Some(last.0) else None
  }

  /** Nothing that the map still answers is missing from the list. */
  ghost predicate Complete(s: seq<Record>, ops: seq<Op>, now: int) {
    forall key :: MapGet(ops, key, now).Some? ==>
      Record(key, LastStore(ops, key).value.0, LastStore(ops, key).value.1 + AI_CACHE_EXPIRE_TIME) in s
  }

  lemma {:induction false} UniqueKeysBound(s: seq<Record>, keys: set<string>)
    requires UniqueKeys(s) && forall r :: r in s ==> r.key in keys
    ensures |s| <= |keys|
  {
    if s != [] {
      var rest := keys - {s[0].key};
      forall r | r in s[1..]
        ensures r.key in rest
      {
        var i :| 0 <= i < |s[1..]| && s[1..][i] == r;
        assert s[0].key != s[i + 1].key;
      }
      UniqueKeysBound(s[1..], rest);
      assert keys == rest + {s[0].key};
    }
  }

  lemma {:induction false} NothingGone(s: seq<Record>, gone: set<string>)
    requires |Without(s, gone)| == |s|
    ensures Without(s, gone) == s
  {
    if s != [] {
      WithoutMembers(s[1..], gone);
      NothingGone(s[1..], gone);
    }
  }

  lemma {:induction false} StoredKeysAreStored(ops: seq<Op>, key: string)
    ensures LastStore(ops, key).Some? ==> key in StoredKeys(ops)
  {
    if ops != [] {
      StoredKeysAreStored(ops[..|ops| - 1], key);
    }
  }

  lemma NoEviction(s: seq<Record>, s': seq<Record>, now: int, limit: nat)
    requires Cleaned(s, s', now, limit) && |s| <= limit
    ensures s' == Live(s, now)
  {
    var gone :| Evicts(s, s', now, limit, gone);
    LiveMembers(s, now);
    NothingGone(Live(s, now), gone);
  }

  lemma StepComplete(s: seq<Record>, op: Op, s': seq<Record>, ops: seq<Op>, limit: nat, now: int)
    requires Step(s, op, s', limit) && UniqueKeys(s) && |s| <= limit && Faithful(s, ops)
    requires !op.Clear? ==> Complete(s, ops, now) && op.now <= now
    requires |StoredKeys(ops + [op])| <= limit
    ensures Complete(s', ops + [op], now)
  {
    assert (ops + [op])[..|ops|] == ops;
    match op
    case Clear =>
    case Cleanup(t) =>
      NoEviction(s, s', t, limit);
      LiveMembers(s, t);
    case Store(key, response, t, _) =>
      if HasKey(s, key) {
        RefreshFacts(s, key, response, t);
      } else {
        var added := [Record(key, response, t + AI_CACHE_EXPIRE_TIME)] + s;
        AddedFits(s, ops, op, limit);
        assert s' == added;
      }
  }

  lemma AddedFits(s: seq<Record>, ops: seq<Op>, op: Op, limit: nat)
    requires UniqueKeys(s) && Faithful(s, ops) && op.Store? && !HasKey(s, op.key)
    requires |StoredKeys(ops + [op])| <= limit
    ensures |s| + 1 <= limit
  {
    assert (ops + [op])[..|ops|] == ops;
    var added := [Record(op.key, op.response, op.now + AI_CACHE_EXPIRE_TIME)] + s;
    forall r | r in added
      ensures r.key in StoredKeys(ops + [op])
    {
      if r in s {
        StoredKeysAreStored(ops, r.key);
      }
    }
    UniqueKeysBound(added, StoredKeys(ops + [op]));
  }

  lemma {:induction false} RunComplete(ops: seq<Op>, states: seq<seq<Record>>, limit: nat, now: int)
    requires IsRun(ops, states, limit) && NoLaterThan(ops, now) && |StoredKeys(ops)| <= limit
    ensures Complete(states[|ops|], ops, now)
  {
    if ops != [] {
      var n := |ops| - 1;
      assert ops[..n] + [ops[n]] == ops;
      assert forall i :: 0 <= i < n ==> Step(states[..n + 1][i], ops[..n][i], states[..n + 1][i + 1], limit);
      RunKeeps(ops[..n], states[..n + 1], limit);
      if !ops[n].Clear? {
        KeysGrow(ops);
        RunComplete(ops[..n], states[..n + 1], limit, now);
      }
      StepComplete(states[n], ops[n], states[n + 1], ops[..n], limit, now);
    }
  }

  lemma KeysGrow(ops: seq<Op>)
    requires ops != [] && !ops[|ops| - 1].Clear?
    ensures |StoredKeys(ops[..|ops| - 1])| <= |StoredKeys(ops)|
  {
    var before := StoredKeys(ops[..|ops| - 1]);
    if ops[|ops| - 1].Store? && ops[|ops| - 1].key in before {
      assert StoredKeys(ops) == before;
    }
  }

  /** As long as no more keys are stored than the limit, the cache answers exactly as a map would. */
  lemma CacheIsMap(ops: seq<Op>, states: seq<seq<Record>>, limit: nat, key: string, now: int)
    requires IsRun(ops, states, limit) && NoLaterThan(ops, now) && |StoredKeys(ops)| <= limit
    ensures Get(states[|ops|], key, now) == MapGet(ops, key, now)
  {
    var s := states[|ops|];
    RunKeeps(ops, states, limit);
    RunComplete(ops, states, limit, now);
    if MapGet(ops, key, now).Some? {
      var r := Record(key, LastStore(ops, key).value.0, LastStore(ops, key).value.1 + AI_CACHE_EXPIRE_TIME);
      var i :| 0 <= i < |s| && s[i] == r;
      assert HasKey(s, key);
    }
  }

  // ----- The linked list -----

  class Entry {
    var key: string
    var response: string
    var expiresAt: int
    var next: Entry?

    constructor (key: string, response: string, expiresAt: int)
      ensures this.key == key && this.response == response && this.expiresAt == expiresAt && next == null
    {
      this.key, this.response, this.expiresAt, next := key, response, expiresAt, null;
    }

    ghost function Rec(): Record
      reads this
    {
      Record(key, response, expiresAt)
    }
  }

  /** The entries are different, and all of them belong to the cache. */
  ghost predicate Proper(nodes: seq<Entry>, owned: set<Entry>) {
    && (forall i, j :: 0 <= i < j < |nodes| ==> nodes[i] != nodes[j])
    && forall i :: 0 <= i < |nodes| ==> nodes[i] in owned
  }

  /** The entries are linked in this order, and the last one ends the list. */
  ghost predicate Chained(first: Entry?, nodes: seq<Entry>, owned: set<Entry>)
    requires Proper(nodes, owned)
    reads owned
  {
    && first == NodeAt(nodes, 0)
    && forall i :: 0 <= i < |nodes| ==> nodes[i].next == NodeAt(nodes, i + 1)
  }

  function NodeAt(nodes: seq<Entry>, i: nat): Entry? {
    if i < |nodes| then nodes[i] else null
  }

  /** The records of the entries, in list order. */
  ghost predicate Holds(nodes: seq<Entry>, s: seq<Record>, owned: set<Entry>)
    requires Proper(nodes, owned)
    reads owned
  {
    |nodes| == |s| && forall i :: 0 <= i < |nodes| ==> nodes[i].Rec() == s[i]
  }

  lemma RemoveKeepsProper(nodes: seq<Entry>, owned: set<Entry>, k: nat)
    requires Proper(nodes, owned) && k < |nodes|
    ensures Proper(RemoveAt(nodes, k), owned)
  {
  }

  function RemoveAt<T>(s: seq<T>, k: nat): (r: seq<T>)
    requires k < |s|
    ensures |r| == |s| - 1
    ensures forall i :: 0 <= i < |r| ==> r[i] == s[if i < k then i else i + 1]
  {
    s[..k] + s[k + 1..]
  }

  class Cache {
    /** AI_MAX_CACHE_SIZE. */
    const limit: nat
    var head: Entry?
    var size: int
    ghost var nodes: seq<Entry>
    ghost var contents: seq<Record>
    ghost var owned: set<Entry>

    constructor (limit: nat)
      ensures Valid() && contents == [] && this.limit == limit && owned == {}
    {
      this.limit := limit;
      head, size, nodes, contents, owned := null, 0, [], [], {};
    }

    /** The list holds the contents, and the counter counts them. */
    ghost predicate Linked()
      reads this, owned
    {
      Proper(nodes, owned) && Chained(head, nodes, owned) && Holds(nodes, contents, owned) && size == |nodes|
    }

    ghost predicate Valid()
      reads this, owned
    {
      Linked() && UniqueKeys(contents) && size <= limit
    }

    /** Unlinks the entry after `prev`, or the first one. */
    method Unlink(prev: Entry?, entry: Entry, ghost k: nat)
      requires Linked() && k < |nodes| && nodes[k] == entry
      requires prev == if k == 0 then null else nodes[k - 1]
      modifies this, owned
      ensures Linked() && owned == old(owned)
      ensures nodes == RemoveAt(old(nodes), k) && contents == RemoveAt(old(contents), k)
      ensures forall n :: n in owned ==> n.Rec() == old(n.Rec())
    {
      RemoveKeepsProper(nodes, owned, k);
      Bypass(prev, entry, k);
      size := size - 1;
      nodes, contents := RemoveAt(nodes, k), RemoveAt(contents, k);
    }

    /** Unlinking an entry leaves the entries before it where they are and brings the next one to its place. */
    method UnlinkAfter(prev: Entry?, entry: Entry, ghost k: nat)
      requires Linked() && k < |nodes| && nodes[k] == entry
      requires prev == if k == 0 then null else nodes[k - 1]
      modifies this, owned
      ensures Linked() && owned == old(owned)
      ensures contents == RemoveAt(old(contents), k)
      ensures NodeAt(nodes, k) == NodeAt(old(nodes), k + 1) && (k > 0 ==> NodeAt(nodes, k - 1) == prev)
    {
      Unlink(prev, entry, k);
    }

    /** The pointer surgery of Unlink. */
    method Bypass(prev: Entry?, entry: Entry, ghost k: nat)
      requires Linked() && k < |nodes| && nodes[k] == entry
      requires prev == if k == 0 then null else nodes[k - 1]
      requires Proper(RemoveAt(nodes, k), owned)
      modifies `head, owned
      ensures Chained(head, RemoveAt(nodes, k), owned)
      ensures forall n :: n in owned ==> n.Rec() == old(n.Rec())
    {
      assert entry.next == NodeAt(nodes, k + 1);
      if prev != null {
        prev.next := entry.next;
      } else {
        head := entry.next;
      }
      ghost var rest := RemoveAt(nodes, k);
      forall i | 0 <= i < |rest|
        ensures rest[i].next == NodeAt(rest, i + 1)
      {
        var j := if i < k then i else i + 1;
        assert old(nodes[j].next) == NodeAt(nodes, j + 1);
        assert i + 1 == k || rest[i] != prev;
      }
    }

    /** Looks a key up; an expired entry stays where it is. */
    method Lookup(key: string, now: int) returns (r: Option<string>)
      requires Valid()
      ensures r == Get(contents, key, now)
    {
      var entry := head;
      ghost var k := 0;
      while entry != null
        invariant 0 <= k <= |nodes| && entry == NodeAt(nodes, k)
        invariant Find(contents, key) == Find(contents[k..], key)
        decreases |nodes| - k
      {
        assert contents[k..][1..] == contents[k + 1..];
        if entry.key == key {
          return if entry.expiresAt > now then Some(entry.response) else None;
        }
        entry, k := entry.next, k + 1;
      }
      return None;
    }

    /** Forgets everything. */
    method ClearAll()
      requires Valid()
      modifies this
      ensures Valid() && contents == []
    {
      var entry := head;
      ghost var k := 0;
      while entry != null
        invariant Linked() && 0 <= k <= |nodes| && entry == NodeAt(nodes, k)
        decreases |nodes| - k
      {
        entry, k := entry.next, k + 1;
      }
      head, size, nodes, contents := null, 0, [], [];
    }

    /** The first pass of the cleanup: unlinks the expired entries. */
    method RemoveExpired(now: int)
      requires Linked()
      modifies this, owned
      ensures Linked() && owned == old(owned) && contents == Live(old(contents), now)
    {
      var entry, prev: Entry? := head, null;
      ghost var live := Live(contents, now);
      ghost var kept, rest: seq<Record> := [], contents;
      while entry != null
        invariant Linked() && owned == old(owned)
        invariant Sweeping(entry, prev, live, kept, rest, now)
        decreases |rest|
      {
        entry, prev, kept, rest := SweepOne(entry, prev, now, live, kept, rest);
      }
      assert kept + [] == kept;
    }

    /** The records before `entry` are kept, those from it on are still to see. */
    ghost predicate Sweeping(entry: Entry?, prev: Entry?, live: seq<Record>, kept: seq<Record>, rest: seq<Record>,
                             now: int)
      reads this
    {
      && Split(contents, live, kept, rest, now)
      && entry == NodeAt(nodes, |kept|) && prev == if kept == [] then null else NodeAt(nodes, |kept| - 1)
    }

    method SweepOne(entry: Entry, prev: Entry?, now: int, ghost live: seq<Record>, ghost kept: seq<Record>,
                    ghost rest: seq<Record>)
      returns (next: Entry?, prev': Entry?, ghost kept': seq<Record>, ghost rest': seq<Record>)
      requires Linked() && Sweeping(entry, prev, live, kept, rest, now)
      modifies this, owned
      ensures Linked() && owned == old(owned)
      ensures Sweeping(next, prev', live, kept', rest', now) && |rest'| < |rest|
    {
      next := entry.next;
      SplitStep(contents, live, kept, rest, now);
      rest' := rest[1..];
      assert rest[0] == entry.Rec() && next == NodeAt(nodes, |kept| + 1);
      if entry.expiresAt <= now {
        UnlinkAfter(prev, entry, |kept|);
        prev', kept' := prev, kept;
      } else {
        prev', kept' := entry, kept + [rest[0]];
      }
    }

    /** Copies the list into an array of pointers. */
    method Pointers() returns (a: array<Entry>)
      requires Linked() && head != null
      ensures fresh(a) && a[..] == nodes
    {
      var first: Entry := head;
      a := new Entry[size](_ => first);
      var entry := head;
      var i := 0;
      while entry != null && i < size
        invariant 0 <= i <= size == a.Length && entry == NodeAt(nodes, i)
        invariant forall k :: 0 <= k < i ==> a[k] == nodes[k]
        decreases size - i
      {
        a[i] := entry;
        entry, i := entry.next, i + 1;
      }
    }

    /** Finds an entry of the list, with the entry before it. */
    method FindEntry(entry: Entry) returns (prev: Entry?, ghost k: nat)
      requires Linked() && entry in nodes
      ensures k < |nodes| && nodes[k] == entry && prev == if k == 0 then null else nodes[k - 1]
    {
      var curr := head;
      prev, k := null, 0;
      while curr != null
        invariant k <= |nodes| && curr == NodeAt(nodes, k) && prev == if k == 0 then null else nodes[k - 1]
        invariant forall p :: 0 <= p < k ==> nodes[p] != entry
        decreases |nodes| - k
      {
        if curr == entry {
          return;
        }
        prev, curr, k := curr, curr.next, k + 1;
      }
      assert false;
    }

    /** Unlinks the first entries of the sorted array.  The bound of the loop shrinks with the list. */
    method RemoveFirst(a: array<Entry>, toRemove: nat, ghost p: seq<Entry>, ghost order: seq<Record>)
      requires Linked() && UniqueKeys(contents) && limit + toRemove == size == a.Length
      requires a[..] == p && Proper(p, owned) && Holds(p, order, owned) && InList(p, 0)
      modifies this, owned
      ensures Linked() && owned == old(owned) && size <= old(size)
      ensures Evicted(old(contents), order, Removals(old(size), limit), contents)
      ensures size == old(size) - Removals(old(size), limit)
    {
      ghost var s0 := contents;
      NothingEvicted(s0, order);
      var i := 0;
      while i < toRemove && i < size
        invariant 0 <= i <= toRemove && size == a.Length - i && (i > 0 ==> 2 * (i - 1) < a.Length)
        invariant Linked() && owned == old(owned) && a[..] == p
        invariant Evicted(s0, order, i, contents) && Holds(p, order, owned) && InList(p, i)
      {
        assert a[i] == p[i];
        RemoveOne(a[i], p, order, i, s0);
        i := i + 1;
      }
      LoopRemoves(a.Length, limit, i);
    }

    /** The pointers from index i on are in the list. */
    ghost predicate InList(p: seq<Entry>, i: nat)
      reads this
    {
      forall j :: i <= j < |p| ==> p[j] in nodes
    }

    /** Unlinks one entry of the sorted array. */
    method RemoveOne(entry: Entry, ghost a: seq<Entry>, ghost order: seq<Record>, ghost i: nat, ghost s0: seq<Record>)
      requires Linked() && Proper(a, owned) && Holds(a, order, owned) && i < |a| && entry == a[i]
      requires InList(a, i) && Evicted(s0, order, i, contents)
      modifies this, owned
      ensures Linked() && owned == old(owned) && size == old(size) - 1
      ensures Evicted(s0, order, i + 1, contents)
      ensures Holds(a, order, owned) && InList(a, i + 1)
    {
      var prev, k := FindEntry(entry);
      assert contents[k] == order[i];
      EvictOne(s0, order, i, contents, k);
      OthersRemain(nodes, a, i, k);
      Unlink(prev, entry, k);
    }

    /** The second pass of the cleanup: removes the entries that expire first while the list is too long. */
    method EvictOldest()
      requires Linked() && UniqueKeys(contents)
      modifies this, owned
      ensures Linked() && owned == old(owned) && size <= old(size)
      ensures exists gone :: EvictsFrom(old(contents), contents, limit, gone)
    {
      ghost var s0 := contents;
      if size > limit {
        var toRemove := size - limit;
        var sorted := Pointers();
        ghost var order := PartialSort(sorted, toRemove, nodes, contents, owned);
        ghost var p := sorted[..];
        SortedHasAll(nodes, contents, p, order, owned);
        RemoveFirst(sorted, toRemove, p, order);
        OldestAreGone(s0, order, Removals(|s0|, limit), contents, limit);
      } else {
        WithoutNothing(contents);
        assert EvictsFrom(s0, contents, limit, {});
      }
    }

    /** The whole cleanup. */
    method Cleanup(now: int)
      requires Linked() && UniqueKeys(contents)
      modifies this, owned
      ensures Linked() && owned == old(owned)
      ensures Cleaned(old(contents), contents, now, limit)
      ensures UniqueKeys(contents) && (old(size) <= limit + 1 ==> size <= limit)
    {
      ghost var s0 := contents;
      FiltersKeepUnique(contents, now, {});
      RemoveExpired(now);
      EvictOldest();
      ghost var gone :| EvictsFrom(Live(s0, now), contents, limit, gone);
      assert Evicts(s0, contents, now, limit, gone);
      CleanupKeeps(s0, contents, now, limit);
    }

    /** Stores a response: an existing entry is refreshed where it is, a new one goes to the head of the list. */
    method StoreResponse(key: string, response: string, now: int, later: int)
      requires Valid()
      modifies this, owned
      ensures Valid() && fresh(owned - old(owned))
      ensures Step(old(contents), Store(key, response, now, later), contents, limit)
    {
      ghost var s0 := contents;
      var found := RefreshEntry(key, response, now);
      if found {
        RefreshFacts(s0, key, response, now);
        return;
      }
      StoreNew(key, response, now, later);
    }

    /** Stores a response under a new key, and cleans up when the list has become too long. */
    method StoreNew(key: string, response: string, now: int, later: int)
      requires Valid() && !HasKey(contents, key)
      modifies this, owned
      ensures Valid() && fresh(owned - old(owned))
      ensures Step(old(contents), Store(key, response, now, later), contents, limit)
    {
      ghost var s0 := contents;
      NewKeyIsUnique(s0, Record(key, response, now + AI_CACHE_EXPIRE_TIME));
      AddEntry(key, response, now);
      ghost var added := contents;
      if size > limit {
        Cleanup(later);
      }
      StoreIsStep(s0, key, response, now, later, added, contents, limit);
    }

    /** The search for an existing entry, which gets the new response. */
    method RefreshEntry(key: string, response: string, now: int) returns (found: bool)
      requires Linked()
      modifies this, owned
      ensures Linked() && owned == old(owned) && size == old(size)
      ensures found == HasKey(old(contents), key)
      ensures contents == if found then Refresh(old(contents), key, response, now) else old(contents)
    {
      var entry := head;
      ghost var k := 0;
      while entry != null
        invariant Linked() && owned == old(owned) && contents == old(contents) && size == old(size)
        invariant k <= |nodes| && entry == NodeAt(nodes, k)
        invariant forall i :: 0 <= i < k ==> contents[i].key != key
        decreases |nodes| - k
      {
        if entry.key == key {
          RefreshAt(contents, k, key, response, now);
          SetEntry(entry, response, now, k);
          return true;
        }
        entry, k := entry.next, k + 1;
      }
      return false;
    }

    method SetEntry(entry: Entry, response: string, now: int, ghost k: nat)
      requires Linked() && k < |nodes| && nodes[k] == entry
      modifies this`contents, owned
      ensures Linked()
      ensures contents == old(contents)[k := Record(entry.key, response, now + AI_CACHE_EXPIRE_TIME)]
      ensures entry.key == old(entry.key)
    {
      entry.response, entry.expiresAt := response, now + AI_CACHE_EXPIRE_TIME;
      contents := contents[k := Record(entry.key, response, now + AI_CACHE_EXPIRE_TIME)];
    }

    /** Puts a new entry at the head of the list. */
    method AddEntry(key: string, response: string, now: int)
      requires Linked()
      modifies this
      ensures Linked() && fresh(owned - old(owned)) && old(owned) <= owned && size == old(size) + 1
      ensures contents == [Record(key, response, now + AI_CACHE_EXPIRE_TIME)] + old(contents)
    {
      var entry := new Entry(key, response, now + AI_CACHE_EXPIRE_TIME);
      entry.next := head;
      head, size := entry, size + 1;
      nodes, contents, owned := [entry] + nodes, [entry.Rec()] + contents, owned + {entry};
      assert Proper(nodes, owned);
      forall i | 0 < i < |nodes|
        ensures nodes[i].next == NodeAt(nodes, i + 1) && nodes[i].Rec() == contents[i]
      {
        assert nodes[i] == old(nodes)[i - 1] && old(nodes)[i - 1].next == NodeAt(old(nodes), i);
      }
    }
  }

  lemma NewKeyIsUnique(s: seq<Record>, r: Record)
    requires UniqueKeys(s) && !HasKey(s, r.key)
    ensures UniqueKeys([r] + s)
  {
  }

  lemma StoreIsStep(s: seq<Record>, key: string, response: string, now: int, later: int, added: seq<Record>,
                    s': seq<Record>, limit: nat)
    requires !HasKey(s, key) && added == [Record(key, response, now + AI_CACHE_EXPIRE_TIME)] + s
    requires if |added| > limit then Cleaned(added, s', later, limit) else s' == added
    ensures Step(s, Store(key, response, now, later), s', limit)
  {
  }

  lemma RefreshAt(s: seq<Record>, k: nat, key: string, response: string, now: int)
    requires k < |s| && s[k].key == key && forall i :: 0 <= i < k ==> s[i].key != key
    ensures Refresh(s, key, response, now) == s[k := Record(key, response, now + AI_CACHE_EXPIRE_TIME)]
  {
    if k > 0 {
      RefreshAt(s[1..], k - 1, key, response, now);
    }
  }

  // ----- The partial selection sort -----

  /** The first n records expire no later than any record after them. */
  ghost predicate OldestFirst(r: seq<Record>, n: nat) {
    forall i, j :: 0 <= i < n && i < j < |r| ==> r[i].expiresAt <= r[j].expiresAt
  }

  function Swap<T>(s: seq<T>, i: nat, j: nat): (r: seq<T>)
    requires i < |s| && j < |s|
    ensures |r| == |s| && forall k :: 0 <= k < |s| ==> r[k] == s[if k == i then j else if k == j then i else k]
  {
    s[i := s[j]][j := s[i]]
  }

  lemma SwapKeepsElements<T>(s: seq<T>, i: nat, j: nat)
    requires i < |s| && j < |s|
    ensures forall x :: x in Swap(s, i, j) <==> x in s
  {
    forall x | x in s
      ensures x in Swap(s, i, j)
    {
      var k :| 0 <= k < |s| && s[k] == x;
      assert Swap(s, i, j)[if k == i then j else if k == j then i else k] == x;
    }
  }

  lemma SwapSorts(r: seq<Record>, i: nat, m: nat)
    requires OldestFirst(r, i) && i <= m < |r| && forall j :: i <= j < |r| ==> r[m].expiresAt <= r[j].expiresAt
    ensures OldestFirst(Swap(r, i, m), i + 1)
  {
  }

  method IndexOfOldest(a: array<Entry>, i: nat, ghost r: seq<Record>, ghost owned: set<Entry>) returns (m: nat)
    requires i < a.Length && Proper(a[..], owned) && Holds(a[..], r, owned)
    ensures i <= m < a.Length && forall j :: i <= j < a.Length ==> r[m].expiresAt <= r[j].expiresAt
  {
    m := i;
    for j := i + 1 to a.Length
      invariant i <= m < a.Length
      invariant forall k :: i <= k < j ==> r[m].expiresAt <= r[k].expiresAt
    {
      assert a[..][j].Rec() == r[j] && a[..][m].Rec() == r[m];
      if a[j].expiresAt < a[m].expiresAt {
        m := j;
      }
    }
  }

  /** Brings the entries that expire first to the front, as many as are to be removed. */
  method PartialSort(a: array<Entry>, toRemove: nat, ghost nodes: seq<Entry>, ghost s: seq<Record>,
                     ghost owned: set<Entry>)
    returns (ghost order: seq<Record>)
    requires a[..] == nodes && Proper(nodes, owned) && Holds(nodes, s, owned)
    modifies a
    ensures Proper(a[..], owned) && Holds(a[..], order, owned) && |a[..]| == |nodes|
    ensures forall x :: x in a[..] <==> x in nodes
    ensures OldestFirst(order, toRemove)
  {
    order := s;
    var i := 0;
    while i < a.Length - 1 && i < toRemove
      invariant 0 <= i && (i < a.Length || i == 0) && i <= toRemove
      invariant Proper(a[..], owned) && Holds(a[..], order, owned) && |a[..]| == |nodes|
      invariant forall x :: x in a[..] <==> x in nodes
      invariant OldestFirst(order, i)
    {
      var m := IndexOfOldest(a, i, order, owned);
      ghost var p := a[..];
      SwapSorts(order, i, m);
      SwapKeepsElements(p, i, m);
      if m != i {
        var temp := a[i];
        a[i] := a[m];
        a[m] := temp;
      }
      assert a[..] == Swap(p, i, m);
      order := Swap(order, i, m);
      i := i + 1;
    }
  }

  lemma SortedHasAll(nodes: seq<Entry>, s: seq<Record>, p: seq<Entry>, order: seq<Record>, owned: set<Entry>)
    requires Proper(nodes, owned) && Proper(p, owned) && Holds(nodes, s, owned) && Holds(p, order, owned)
    requires forall x :: x in p <==> x in nodes
    ensures forall x :: x in order <==> x in s
  {
    forall x | x in order
      ensures x in s
    {
      var i :| 0 <= i < |order| && order[i] == x;
      assert p[i] in nodes;
      var j :| 0 <= j < |nodes| && nodes[j] == p[i];
      assert s[j] == x;
    }
    forall x | x in s
      ensures x in order
    {
      var i :| 0 <= i < |s| && s[i] == x;
      assert nodes[i] in p;
      var j :| 0 <= j < |p| && p[j] == nodes[i];
      assert order[j] == x;
    }
  }

  lemma OldestAreGone(live: seq<Record>, order: seq<Record>, n: nat, s': seq<Record>, limit: nat)
    requires UniqueKeys(live) && Evicted(live, order, n, s') && OldestFirst(order, n)
    requires forall x :: x in order <==> x in live
    requires n == Removals(|live|, limit) == |live| - |s'|
    ensures EvictsFrom(live, s', limit, KeysBefore(order, n))
  {
    var gone := KeysBefore(order, n);
    forall x, y | x in live && y in live && x.key in gone && y.key !in gone
      ensures x.expiresAt <= y.expiresAt
    {
      var i :| 0 <= i < n && order[i].key == x.key;
      var j :| 0 <= j < |order| && order[j] == y;
      assert order[i] in live;
      SameKeySameRecord(live, x, order[i]);
    }
  }

  lemma SameKeySameRecord(s: seq<Record>, x: Record, y: Record)
    requires UniqueKeys(s) && x in s && y in s && x.key == y.key
    ensures x == y
  {
    var i :| 0 <= i < |s| && s[i] == x;
    var j :| 0 <= j < |s| && s[j] == y;
  }

  /** The first i records of the order have been removed from the list. */
  ghost predicate Evicted(s0: seq<Record>, order: seq<Record>, i: nat, s: seq<Record>) {
    i <= |order| && UniqueKeys(s) && s == Without(s0, KeysBefore(order, i))
  }

  lemma NothingEvicted(s: seq<Record>, order: seq<Record>)
    requires UniqueKeys(s)
    ensures Evicted(s, order, 0, s)
  {
    WithoutNothing(s);
    assert KeysBefore(order, 0) == {};
  }

  /** Where the removal loop stops. */
  lemma LoopRemoves(n: nat, limit: nat, i: nat)
    requires limit <= n && i <= n - limit && (i > 0 ==> 2 * (i - 1) < n) && (i == n - limit || i >= n - i)
    ensures i == Removals(n, limit)
  {
  }

  lemma EvictOne(s0: seq<Record>, order: seq<Record>, i: nat, s: seq<Record>, k: nat)
    requires Evicted(s0, order, i, s) && i < |order| && k < |s| && s[k] == order[i]
    ensures Evicted(s0, order, i + 1, RemoveAt(s, k))
  {
    RemoveIsWithout(s0, KeysBefore(order, i), s, k);
    assert KeysBefore(order, i + 1) == KeysBefore(order, i) + {order[i].key};
  }

  /** The keys of the first n records. */
  ghost function KeysBefore(order: seq<Record>, n: nat): set<string>
    requires n <= |order|
  {
    set j | 0 <= j < n :: order[j].key
  }

  lemma {:induction false} WithoutNothing(s: seq<Record>)
    ensures Without(s, {}) == s
  {
    if s != [] {
      WithoutNothing(s[1..]);
    }
  }

  /** Removing one record more is leaving out its key as well. */
  lemma RemoveIsWithout(s: seq<Record>, gone: set<string>, s': seq<Record>, k: nat)
    requires UniqueKeys(s') && s' == Without(s, gone) && k < |s'|
    ensures UniqueKeys(RemoveAt(s', k)) && RemoveAt(s', k) == Without(s, gone + {s'[k].key})
  {
    WithoutTwice(s, gone, s'[k].key);
    WithoutOne(s', k);
  }

  lemma {:induction false} WithoutTwice(s: seq<Record>, gone: set<string>, key: string)
    ensures Without(Without(s, gone), {key}) == Without(s, gone + {key})
  {
    if s != [] {
      WithoutTwice(s[1..], gone, key);
      if s[0].key !in gone {
        assert ([s[0]] + Without(s[1..], gone))[1..] == Without(s[1..], gone);
      }
    }
  }

  lemma {:induction false} WithoutOne(s: seq<Record>, k: nat)
    requires UniqueKeys(s) && k < |s|
    ensures Without(s, {s[k].key}) == RemoveAt(s, k)
  {
    assert UniqueKeys(s[1..]);
    if k == 0 {
      KeepAll(s[1..], s[0].key);
      assert RemoveAt(s, 0) == s[1..];
    } else {
      assert s[1..][k - 1] == s[k] && s[0].key != s[k].key;
      WithoutOne(s[1..], k - 1);
      assert RemoveAt(s, k) == [s[0]] + RemoveAt(s[1..], k - 1);
    }
  }

  lemma {:induction false} KeepAll(s: seq<Record>, key: string)
    requires forall i :: 0 <= i < |s| ==> s[i].key != key
    ensures Without(s, {key}) == s
  {
    if s != [] {
      KeepAll(s[1..], key);
    }
  }

  /** Removing one of several different entries leaves the others in the list. */
  lemma OthersRemain(nodes: seq<Entry>, a: seq<Entry>, i: nat, k: nat)
    requires i < |a| && k < |nodes| && nodes[k] == a[i]
    requires forall p, q :: 0 <= p < q < |a| ==> a[p] != a[q]
    requires forall j :: i <= j < |a| ==> a[j] in nodes
    ensures forall j :: i < j < |a| ==> a[j] in RemoveAt(nodes, k)
  {
    forall j | i < j < |a|
      ensures a[j] in RemoveAt(nodes, k)
    {
      var p :| 0 <= p < |nodes| && nodes[p] == a[j];
      assert RemoveAt(nodes, k)[if p < k then p else p - 1] == a[j];
    }
  }

  /** The records kept so far and those still to see. */
  ghost predicate Split(contents: seq<Record>, live: seq<Record>, kept: seq<Record>, rest: seq<Record>, now: int) {
    contents == kept + rest && live == kept + Live(rest, now)
  }

  lemma SplitStep(contents: seq<Record>, live: seq<Record>, kept: seq<Record>, rest: seq<Record>, now: int)
    requires Split(contents, live, kept, rest, now) && |kept| < |contents|
    ensures rest != [] && rest[0] == contents[|kept|]
    ensures if rest[0].expiresAt > now then Split(contents, live, kept + [rest[0]], rest[1..], now)
            else Split(RemoveAt(contents, |kept|), live, kept, rest[1..], now)
  {
    LiveStep(kept, rest, now);
    SplitAt(kept, rest);
  }

  /** One entry of the first pass, on the records. */
  lemma LiveStep(kept: seq<Record>, rest: seq<Record>, now: int)
    requires rest != []
    ensures kept + Live(rest, now) ==
              if rest[0].expiresAt > now then (kept + [rest[0]]) + Live(rest[1..], now) else kept + Live(rest[1..], now)
  {
    if rest[0].expiresAt > now {
      Regroup(kept, rest[0], Live(rest[1..], now));
    }
  }

  lemma Regroup(kept: seq<Record>, x: Record, rest: seq<Record>)
    ensures kept + ([x] + rest) == (kept + [x]) + rest
  {
  }

  lemma SplitAt(kept: seq<Record>, rest: seq<Record>)
    requires rest != []
    ensures kept + rest == (kept + [rest[0]]) + rest[1..]
    ensures RemoveAt(kept + rest, |kept|) == kept + rest[1..]
  {
  }
}

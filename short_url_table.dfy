/**
 The short-URL table of the service as a value: the id counter, the table from
 original URL to short id, and the order in which the table's keys were
 inserted (the order in which a `for...in` scan visits them). The class in
 module Shortener keeps exactly these three things in its fields; the
 functions here are its specification, and the lemmas state what the
 service promises about registering and resolving.
 */
module ShortUrlTable {

  type Url = string

  /** The path parameter of a lookup, after JavaScript's loose `==` has
      converted it to a number: an integer, or something that equals no id. */
  datatype RequestedId = Numeric(n: int) | NonNumeric

  /** What a lookup tells the request layer: redirect (301) or not found (404). */
  datatype Lookup = Redirect(url: Url) | NotFound

  /** `count` is the next id to hand out, `db` the table from URL to id,
      `keys` the table's keys in insertion order. */
  datatype Table = Table(count: nat, keys: seq<Url>, db: map<Url, nat>)

  /** The invariant every reachable table keeps: the i-th key inserted holds
      id i + 1, the counter is one past the last id, and the keys in order are
      exactly the table's domain. */
  ghost predicate Valid(t: Table) {
    && t.count == |t.keys| + 1
    && (forall i :: 0 <= i < |t.keys| ==> t.keys[i] in t.db && t.db[t.keys[i]] == i + 1)
    && (forall u :: u in t.db ==> u in t.keys)
  }

  /** Keys visited by a scan are always keys of the table. */
  ghost predicate KeysInTable(keys: seq<Url>, db: map<Url, nat>) {
    forall k :: k in keys ==> k in db
  }

  /** The state when the service starts: counter 1, empty table. */
  function Init(): (t: Table)
    ensures Valid(t) && t.count == 1 && |t.db| == 0
  {
    Table(1, [], map[])
  }

  /** The JavaScript test `if (urlDatabase[u])`: the key is present and its
      value is truthy, i.e. a number other than 0. */
  function Truthy(db: map<Url, nat>, u: Url): (b: bool) {
    u in db && db[u] != 0
  }

  /** Register-or-get, as the POST handler does it once validation passed:
      a known URL gives back its stored id; otherwise the current counter value
      becomes the URL's id, the counter advances and the URL is inserted.
      Assigning to a key that is already present keeps its position in the
      key order. */
  function Register(t: Table, u: Url): (r: (Table, nat)) {
    if Truthy(t.db, u) then (t, t.db[u])
    else
      var keys := if u in t.db then t.keys else t.keys + [u];
      (Table(t.count + 1, keys, t.db[u := t.count]), t.count)
  }

  /** Does the stored id equal the requested one under loose `==`? */
  function Matches(id: nat, q: RequestedId): (b: bool) {
    q.Numeric? && q.n == id
  }

  /** The `for...in` loop of the GET handler: the first key, in insertion
      order, whose stored id matches the request. */
  function Scan(keys: seq<Url>, db: map<Url, nat>, q: RequestedId): (r: Lookup)
    requires KeysInTable(keys, db)
    ensures r.Redirect? ==> r.url in keys && Matches(db[r.url], q)
    ensures r.Redirect? ==>
      exists i :: 0 <= i < |keys| && keys[i] == r.url &&
        forall j :: 0 <= j < i ==> !Matches(db[keys[j]], q)
    ensures r.NotFound? <==> forall k :: k in keys ==> !Matches(db[k], q)
  {
    if keys == [] then NotFound
    else if Matches(db[keys[0]], q) then Redirect(keys[0])
    else
      var r := Scan(keys[1..], db, q);
      assert forall k :: k in keys ==> k == keys[0] || k in keys[1..];
      assert forall i :: 0 <= i < |keys| - 1 ==> keys[1..][i] == keys[i + 1];
      r
  }

  /** Lookup of a requested id in a table. */
  function Resolve(t: Table, q: RequestedId): (r: Lookup)
    requires KeysInTable(t.keys, t.db)
  {
    Scan(t.keys, t.db, q)
  }

  /** A sequence of successful POSTs, one after the other: the final table and
      the id each one returned. */
  function RegisterAll(t: Table, urls: seq<Url>): (r: (Table, seq<nat>))
    decreases |urls|
  {
    if urls == [] then (t, [])
    else
      var (t1, k) := Register(t, urls[0]);
      var (t2, ks) := RegisterAll(t1, urls[1..]);
      (t2, [k] + ks)
  }

  /** `keys` followed by each URL of `urls` that is not yet among them, in
      order of first appearance. */
  function AppendNew(keys: seq<Url>, urls: seq<Url>): (keys': seq<Url>)
    decreases |urls|
  {
    if urls == [] then keys
    else AppendNew(if urls[0] in keys then keys else keys + [urls[0]], urls[1..])
  }

  // ---------------------------------------------------------------------------
  // What the invariant implies

  /** A sequence without repeated elements has as many distinct elements as
      positions. */
  lemma {:induction false} DistinctCardinality(s: seq<Url>)
    requires forall i, j :: 0 <= i < j < |s| ==> s[i] != s[j]
    ensures |set x | x in s| == |s|
  {
    if s != [] {
      DistinctCardinality(s[1..]);
      var rest := set x | x in s[1..];
      assert (set x | x in s) == rest + {s[0]};
      assert s[0] !in rest;
    }
  }

  /** In a valid table every stored id lies in [1, count), no two URLs share
      an id, the truthiness test is plain membership, and there are exactly
      count - 1 entries. */
  lemma ValidTable(t: Table)
    requires Valid(t)
    ensures KeysInTable(t.keys, t.db)
    ensures forall u :: u in t.db ==> 1 <= t.db[u] < t.count
    ensures forall u :: Truthy(t.db, u) <==> u in t.db
    ensures forall u, v :: u in t.db && v in t.db && t.db[u] == t.db[v] ==> u == v
    ensures forall u :: u in t.db ==> t.keys[t.db[u] - 1] == u
    ensures |t.db| == t.count - 1
  {
    forall u | u in t.db
      ensures 1 <= t.db[u] < t.count && t.keys[t.db[u] - 1] == u
    {
      var i :| 0 <= i < |t.keys| && t.keys[i] == u;
    }
    assert forall i, j :: 0 <= i < j < |t.keys| ==> t.db[t.keys[i]] != t.db[t.keys[j]];
    DistinctCardinality(t.keys);
    assert t.db.Keys == set x | x in t.keys;
  }

  // ---------------------------------------------------------------------------
  // Registration

  /** Register-or-get keeps the invariant. A known URL gets its stored id back
      and nothing changes; a new URL gets the old counter value, the counter
      advances by exactly one, the URL is appended to the key order and no
      other entry changes. */
  lemma RegisterSpec(t: Table, u: Url)
    requires Valid(t)
    ensures var (t', k) := Register(t, u);
      && Valid(t')
      && u in t'.db && t'.db[u] == k && 1 <= k < t'.count
      && (u in t.db ==> t' == t && k == t.db[u])
      && (u !in t.db ==>
            && k == t.count && t'.count == t.count + 1
            && t'.keys == t.keys + [u] && t'.db == t.db[u := k])
  {
    ValidTable(t);
    if u !in t.db {
      var t' := Register(t, u).0;
      assert u !in t.keys;
      forall v | v in t'.db ensures v in t'.keys {
        if v != u { assert v in t.keys; }
      }
    }
  }

  /** Registering the same URL twice in a row gives the same id both times,
      the second call changes nothing, and the counter advanced at most once. */
  lemma RegisterIdempotent(t: Table, u: Url)
    requires Valid(t)
    ensures var (t1, k1) := Register(t, u);
      var (t2, k2) := Register(t1, u);
      k2 == k1 && t2 == t1 && t1.count <= t.count + 1
  {
    RegisterSpec(t, u);
    RegisterSpec(Register(t, u).0, u);
  }

  // ---------------------------------------------------------------------------
  // Lookup

  /** In a valid table the scan returns the key holding the requested id: the
      URL registered as the n-th when 1 <= n < count, and NotFound for every
      other request (0, negative, at or beyond the counter, not a number). */
  lemma ResolveValid(t: Table, q: RequestedId)
    requires Valid(t)
    ensures KeysInTable(t.keys, t.db)
    ensures Resolve(t, q) ==
      if q.Numeric? && 1 <= q.n < t.count then Redirect(t.keys[q.n - 1]) else NotFound
  {
    ValidTable(t);
    var r := Resolve(t, q);
    if q.Numeric? && 1 <= q.n < t.count {
      var k := t.keys[q.n - 1];
      assert Matches(t.db[k], q);
      assert r.Redirect?;
    }
  }

  /** Lookup inverts registration: after registering u and receiving k,
      resolving k redirects to u. */
  lemma ResolveAfterRegister(t: Table, u: Url)
    requires Valid(t)
    ensures var (t', k) := Register(t, u);
      KeysInTable(t'.keys, t'.db) && Resolve(t', Numeric(k)) == Redirect(u)
  {
    RegisterSpec(t, u);
    var (t', k) := Register(t, u);
    ResolveValid(t', Numeric(k));
    ValidTable(t');
  }

  /** A valid table resolves every id it has handed out to its URL, and every
      URL it holds is reached through its own id. */
  lemma ResolveInvertsTable(t: Table, u: Url)
    requires Valid(t) && u in t.db
    ensures KeysInTable(t.keys, t.db)
    ensures Resolve(t, Numeric(t.db[u])) == Redirect(u)
  {
    ValidTable(t);
    ResolveValid(t, Numeric(t.db[u]));
  }

  // ---------------------------------------------------------------------------
  // Sequences of registrations

  /** A run of registrations keeps the invariant, inserts the new URLs in
      order of first appearance, never changes an existing entry, and every
      returned id is the one the final table holds for that URL. */
  lemma {:induction false} RegisterAllExtends(t: Table, urls: seq<Url>)
    requires Valid(t)
    ensures var (t', ids) := RegisterAll(t, urls);
      && Valid(t')
      && t'.keys == AppendNew(t.keys, urls)
      && |ids| == |urls|
      && (forall i :: 0 <= i < |urls| ==> urls[i] in t'.db && ids[i] == t'.db[urls[i]])
      && (forall u :: u in t.db ==> u in t'.db && t'.db[u] == t.db[u])
    decreases |urls|
  {
    if urls != [] {
      RegisterSpec(t, urls[0]);
      ValidTable(t);
      var (t1, k) := Register(t, urls[0]);
      assert t1.keys == (if urls[0] in t.keys then t.keys else t.keys + [urls[0]]);
      RegisterAllExtends(t1, urls[1..]);
      var (t2, ks) := RegisterAll(t1, urls[1..]);
      forall i | 0 <= i < |urls|
        ensures urls[i] in t2.db && ([k] + ks)[i] == t2.db[urls[i]]
      {
        if i > 0 { assert urls[i] == urls[1..][i - 1]; }
      }
    }
  }

  /** From the initial table, the id returned for each URL of a run is its
      position, counted from 1, in the order of first appearance: new URLs
      receive 1, 2, 3, ... as they first occur. */
  lemma FirstAppearanceIds(urls: seq<Url>)
    ensures |RegisterAll(Init(), urls).1| == |urls|
    ensures forall i :: 0 <= i < |urls| ==>
              var id := RegisterAll(Init(), urls).1[i];
              1 <= id <= |AppendNew([], urls)| && AppendNew([], urls)[id - 1] == urls[i]
  {
    RegisterAllExtends(Init(), urls);
    ValidTable(RegisterAll(Init(), urls).0);
  }

  /** The key order before a run of registrations is a prefix of the key
      order after it. */
  lemma {:induction false} AppendNewKeepsPrefix(keys: seq<Url>, urls: seq<Url>)
    ensures |keys| <= |AppendNew(keys, urls)| && AppendNew(keys, urls)[..|keys|] == keys
    decreases |urls|
  {
    if urls != [] {
      var next := if urls[0] in keys then keys else keys + [urls[0]];
      AppendNewKeepsPrefix(next, urls[1..]);
      assert next[..|keys|] == keys;
    }
  }

  /** A URL unknown when a run of registrations starts gets an id no smaller
      than the counter at the start: ids are never reused. */
  lemma RegisterAllFreshIds(t: Table, urls: seq<Url>)
    requires Valid(t)
    ensures |RegisterAll(t, urls).1| == |urls|
    ensures forall j :: 0 <= j < |urls| && urls[j] !in t.db ==> t.count <= RegisterAll(t, urls).1[j]
  {
    RegisterAllExtends(t, urls);
    var (t', ids) := RegisterAll(t, urls);
    ValidTable(t');
    AppendNewKeepsPrefix(t.keys, urls);
    forall j | 0 <= j < |urls| && urls[j] !in t.db
      ensures t.count <= ids[j]
    {
      assert t'.keys[ids[j] - 1] == urls[j] && urls[j] !in t.keys;
    }
  }

  /** Ids are allocated in increasing order: a URL seen for the first time,
      and unknown to the table, gets an id strictly larger than every id
      returned before it. From the initial table the first new URL therefore
      gets 1, the next new one 2, and so on. */
  lemma {:induction false} RegisterAllIncreasing(t: Table, urls: seq<Url>)
    requires Valid(t)
    ensures |RegisterAll(t, urls).1| == |urls|
    ensures forall i, j :: 0 <= i < j < |urls| && urls[j] !in t.db && urls[j] !in urls[..j] ==>
              RegisterAll(t, urls).1[i] < RegisterAll(t, urls).1[j]
    decreases |urls|
  {
    RegisterAllFreshIds(t, urls);
    if urls != [] {
      RegisterSpec(t, urls[0]);
      var (t1, k) := Register(t, urls[0]);
      RegisterAllIncreasing(t1, urls[1..]);
      RegisterAllFreshIds(t1, urls[1..]);
      var ks := RegisterAll(t1, urls[1..]).1;
      assert RegisterAll(t, urls).1 == [k] + ks;
      forall i, j | 0 <= i < j < |urls| && urls[j] !in t.db && urls[j] !in urls[..j]
        ensures ([k] + ks)[i] < ([k] + ks)[j]
      {
        assert urls[j] == urls[1..][j - 1];
        assert urls[0] in urls[..j];
        assert urls[j] !in t1.db;
        if i > 0 {
          assert urls[1..][..j - 1] == urls[1..j];
          assert urls[1..][i - 1] == urls[i];
        }
      }
    }
  }
}

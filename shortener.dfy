/**
 The service's in-memory registry and its two route handlers. The module-level
 `urlCount` and `urlDatabase` of the service become the fields of one
 `Registry` object; the key order of `urlDatabase`, which the lookup loop
 depends on, is kept in `insertionOrder`. The validation steps in front of
 registration (the URL-format check and the network existence check) are
 outside the model: their verdicts arrive as booleans.
 */
module Shortener {
  import opened ShortUrlTable

  /** The JSON body of a POST reply: the invalid-url error, or the original
      URL with its short id. */
  datatype PostResult = InvalidUrl | Shortened(originalUrl: Url, shortUrl: nat)

  class Registry {
    var urlCount: nat
    var urlDatabase: map<Url, nat>
    var insertionOrder: seq<Url>

    /** The registry's state as a table value. */
    function Snapshot(): Table
      reads this
    {
      Table(urlCount, insertionOrder, urlDatabase)
    }

    ghost predicate Valid()
      reads this
    {
      ShortUrlTable.Valid(Snapshot())
    }

    /** A fresh registry: counter 1 and an empty table. */
    constructor ()
      ensures Valid() && Snapshot() == Init()
      ensures urlCount == 1 && urlDatabase == map[] && insertionOrder == []
    {
      urlCount := 1;
      urlDatabase := map[];
      insertionOrder := [];
    }

    /** Register-or-get for a URL that passed validation. A known URL returns
        its stored id and changes nothing; a new URL takes the current counter
        value, the counter advances by one, and the URL is inserted. */
    method RegisterOrGet(u: Url) returns (id: nat)
      requires Valid()
      modifies this
      ensures Valid()
      ensures (Snapshot(), id) == Register(old(Snapshot()), u)
      ensures old(u in urlDatabase) ==>
        id == old(urlDatabase[u]) && unchanged(this)
      ensures old(u !in urlDatabase) ==>
        && id == old(urlCount) && urlCount == old(urlCount) + 1
        && urlDatabase == old(urlDatabase)[u := id]
        && insertionOrder == old(insertionOrder) + [u]
    {
      RegisterSpec(Snapshot(), u);
      if u in urlDatabase && urlDatabase[u] != 0 {
        id := urlDatabase[u];
        return;
      }
      id := urlCount;
      urlCount := urlCount + 1;
      if u !in urlDatabase {
        insertionOrder := insertionOrder + [u];
      }
      urlDatabase := urlDatabase[u := id];
    }

    /** The POST handler: either validation verdict false gives the
        invalid-url error and leaves the registry untouched; otherwise the URL
        is registered or found and returned with its id. */
    method Post(u: Url, isUrl: bool, reachable: bool) returns (r: PostResult)
      requires Valid()
      modifies this
      ensures Valid()
      ensures !isUrl || !reachable ==> r == InvalidUrl && unchanged(this)
      ensures isUrl && reachable ==>
        var (t, k) := Register(old(Snapshot()), u);
        r == Shortened(u, k) && Snapshot() == t
    {
      if !isUrl {
        return InvalidUrl;
      }
      if !reachable {
        return InvalidUrl;
      }
      var id := RegisterOrGet(u);
      r := Shortened(u, id);
    }

    /** The GET handler's loop: visit the keys in insertion order and redirect
        to the first whose id matches the request; NotFound when none does.
        It reads the registry and changes nothing. */
    method Resolve(q: RequestedId) returns (r: Lookup)
      requires Valid()
      ensures r.Redirect? ==> r.url in urlDatabase && Matches(urlDatabase[r.url], q)
      ensures r.NotFound? <==> forall u :: u in urlDatabase ==> !Matches(urlDatabase[u], q)
      ensures r == if q.Numeric? && 1 <= q.n < urlCount
                   then Redirect(insertionOrder[q.n - 1]) else NotFound
    {
      ResolveValid(Snapshot(), q);
      var i := 0;
      while i < |insertionOrder|
        invariant 0 <= i <= |insertionOrder|
        invariant KeysInTable(insertionOrder[i..], urlDatabase)
        invariant Scan(insertionOrder, urlDatabase, q) == Scan(insertionOrder[i..], urlDatabase, q)
      {
        var u := insertionOrder[i];
        if Matches(urlDatabase[u], q) {
          return Redirect(u);
        }
        assert insertionOrder[i..][1..] == insertionOrder[i + 1..];
        i := i + 1;
      }
      r := NotFound;
    }
  }
}

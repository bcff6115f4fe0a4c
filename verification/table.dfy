/** An id-keyed table: the part of an EF Core `DbSet` that both services use
    (find by key, enumerate, add under a fresh key). */
module Table {
  import opened Common

  /** Finding by key (`FirstOrDefaultAsync(r => r.Id == id)` / `FindAsync(id)`). */
  function Lookup<R>(m: map<Id, R>, id: Id): (r: Option<R>)
    ensures r.Some? <==> id in m
    ensures r.Some? ==> r.value == m[id]
  {
    if id in m then Some(m[id]) else None
  }

  /** `m'` agrees with `m` on every key except `id`, and has the same keys. */
  ghost predicate AgreeExcept<R>(m: map<Id, R>, m': map<Id, R>, id: Id)
  {
    && m'.Keys == m.Keys
    && forall k :: k in m && k != id ==> m'[k] == m[k]
  }

  /** Stand-in for `Guid.NewGuid()`: a key that is not `Guid.Empty` and not in use.
      It is one above the largest key of the table. */
  method FreshKey<R>(m: map<Id, R>) returns (id: Id)
    ensures id != EmptyId
    ensures id !in m
    ensures forall k :: k in m ==> k < id
  {
    id := 1;
    var todo := m.Keys;
    while todo != {}
      invariant todo <= m.Keys
      invariant id != EmptyId
      invariant forall k :: k in m && k !in todo ==> k < id
      decreases todo
    {
      var k :| k in todo;
      if id <= k {
        id := k + 1;
      }
      todo := todo - {k};
    }
  }

  /** Enumeration of a table (`ToListAsync()`): every key exactly once, each with its record. */
  method Enumerate<R>(m: map<Id, R>) returns (ks: seq<Id>, rs: seq<R>)
    ensures |ks| == |rs| == |m|
    ensures forall i :: 0 <= i < |ks| ==> ks[i] in m && rs[i] == m[ks[i]]
    ensures forall i, j :: 0 <= i < j < |ks| ==> ks[i] != ks[j]
    ensures forall k :: k in m ==> k in ks
  {
    ks, rs := [], [];
    var todo := m.Keys;
    ghost var done: set<Id> := {};
    while todo != {}
      invariant todo !! done
      invariant todo + done == m.Keys
      invariant |ks| == |rs| == |done|
      invariant forall i :: 0 <= i < |ks| ==> ks[i] in done && rs[i] == m[ks[i]]
      invariant forall i, j :: 0 <= i < j < |ks| ==> ks[i] != ks[j]
      invariant forall k :: k in done ==> k in ks
      decreases todo
    {
      var k :| k in todo;
      ks, rs := ks + [k], rs + [m[k]];
      todo, done := todo - {k}, done + {k};
    }
  }
}

/** The cache of prepared statements (src/connection/stmt_cache.rs): a map that forgets the
    least recently used entry, beside a set of its keys. */
module StmtCache {
  import opened Wrappers

  // ---------------------------------------------------------------- the map

  /** Entries from the least to the most recently used. */
  datatype Lru<T> = Lru(entries: seq<(string, T)>, capacity: nat) {
    ghost predicate Valid() {
      |entries| <= capacity
      && forall i, j :: 0 <= i < j < |entries| ==> entries[i].0 != entries[j].0
    }

    ghost function Keys(): set<string> {
      set i | 0 <= i < |entries| :: entries[i].0
    }
  }

  /** The statements of some entries, with multiplicity. */
  function Statements<T>(entries: seq<(string, T)>): multiset<T> {
    if entries == [] then multiset{} else multiset{entries[0].1} + Statements(entries[1..])
  }

  function FindKey<T>(entries: seq<(string, T)>, key: string): (k: nat)
    ensures k <= |entries|
    ensures k < |entries| ==> entries[k].0 == key
    ensures forall i :: 0 <= i < k ==> entries[i].0 != key
  {
    if entries == [] || entries[0].0 == key then 0 else 1 + FindKey(entries[1..], key)
  }

  /** Takes an entry out. */
  function Remove<T>(m: Lru<T>, key: string): (Lru<T>, Option<T>) {
    var k := FindKey(m.entries, key);
    if k == |m.entries| then (m, None)
    else (m.(entries := m.entries[..k] + m.entries[k + 1..]), Some(m.entries[k].1))
  }

  /** Puts an entry at the most recently used end and returns the one it replaces. When the map
      has grown over its capacity the oldest entry is forgotten; it is the third result here,
      but the map does not hand it out. */
  function Put<T>(m: Lru<T>, key: string, stmt: T): (Lru<T>, Option<T>, Option<T>) {
    var (rest, replaced) := Remove(m, key);
    var entries := rest.entries + [(key, stmt)];
    if |entries| > m.capacity then (m.(entries := entries[1..]), replaced, Some(entries[0].1))
    else (m.(entries := entries), replaced, None)
  }

  function ToMultiset<T>(o: Option<T>): multiset<T> {
    if o.Some? then multiset{o.value} else multiset{}
  }

  lemma {:induction false} StatementsConcat<T>(a: seq<(string, T)>, b: seq<(string, T)>)
    ensures Statements(a + b) == Statements(a) + Statements(b)
  {
    if a == [] {
      assert a + b == b;
    } else {
      assert (a + b)[1..] == a[1..] + b;
      StatementsConcat(a[1..], b);
    }
  }

  lemma SingleStatement<T>(key: string, stmt: T)
    ensures Statements([(key, stmt)]) == multiset{stmt}
  {
  }

  /** Taking an entry out takes out its statement and its key. */
  lemma RemoveConserves<T>(m: Lru<T>, key: string)
    requires m.Valid()
    ensures var (m', taken) := Remove(m, key);
            && m'.Valid() && m'.capacity == m.capacity && m'.Keys() == m.Keys() - {key}
            && (taken.Some? <==> key in m.Keys())
            && |m'.entries| == |m.entries| - (if taken.Some? then 1 else 0)
            && Statements(m.entries) == Statements(m'.entries) + ToMultiset(taken)
  {
    hide Statements;
    var k := FindKey(m.entries, key);
    if k < |m.entries| {
      StatementsWithout(m.entries, k);
      assert m.entries[k].0 in m.Keys();
      KeysWithout(m, k);
    }
  }

  lemma StatementsWithout<T>(entries: seq<(string, T)>, k: nat)
    requires k < |entries|
    ensures Statements(entries) == Statements(entries[..k] + entries[k + 1..]) + multiset{entries[k].1}
  {
    hide Statements;
    var a, b := entries[..k], entries[k + 1..];
    assert entries == a + ([entries[k]] + b);
    StatementsConcat(a, [entries[k]] + b);
    StatementsConcat([entries[k]], b);
    StatementsConcat(a, b);
    SingleStatement(entries[k].0, entries[k].1);
  }

  lemma KeysWithout<T>(m: Lru<T>, k: nat)
    requires m.Valid() && k < |m.entries|
    ensures m.(entries := m.entries[..k] + m.entries[k + 1..]).Keys() == m.Keys() - {m.entries[k].0}
    ensures m.(entries := m.entries[..k] + m.entries[k + 1..]).Valid()
  {
    var rest := m.entries[..k] + m.entries[k + 1..];
    forall x | x in m.Keys() && x != m.entries[k].0
      ensures x in m.(entries := rest).Keys()
    {
      var i :| 0 <= i < |m.entries| && m.entries[i].0 == x;
      assert rest[if i < k then i else i - 1] == m.entries[i];
    }
  }

  /** Every statement put in is afterwards in the map, or replaced, or forgotten; it is
      forgotten exactly when the map was full of other keys. */
  lemma PutConserves<T>(m: Lru<T>, key: string, stmt: T)
    requires m.Valid()
    ensures var (m', replaced, forgotten) := Put(m, key, stmt);
            && m'.Valid() && m'.capacity == m.capacity
            && m'.Keys() <= m.Keys() + {key}
            && (m.capacity > 0 ==> key in m'.Keys())
            && (replaced.Some? <==> key in m.Keys())
            && (forgotten.Some? <==> key !in m.Keys() && |m.entries| == m.capacity)
            && (forgotten.None? ==> m'.Keys() == m.Keys() + {key})
            && (forgotten.Some? && m.capacity > 0 ==>
                  m'.Keys() == m.Keys() - {m.entries[0].0} + {key} && forgotten.value == m.entries[0].1)
            && Statements(m.entries) + multiset{stmt}
            == Statements(m'.entries) + ToMultiset(replaced) + ToMultiset(forgotten)
  {
    hide Remove, Statements;
    RemoveConserves(m, key);
    var (rest, replaced) := Remove(m, key);
    StatementsConcat(rest.entries, [(key, stmt)]);
    SingleStatement(key, stmt);
    AppendedKeys(rest, key, stmt);
    var entries := rest.entries + [(key, stmt)];
    SameKeys(entries, m.capacity, m.capacity + 1);
    if |entries| > m.capacity {
      assert rest == m by { NothingRemoved(m, key); }
      OldestForgotten(entries, m.capacity);
      if m.capacity > 0 {
        assert entries[0] == m.entries[0] && m.entries[0].0 in m.Keys();
      }
    }
  }

  /** What is taken out leaves the others in their order. */
  lemma RemoveMeans<T>(m: Lru<T>, key: string)
    requires m.Valid()
    ensures key !in m.Keys() ==> Remove(m, key) == (m, None)
    ensures forall k :: 0 <= k < |m.entries| && m.entries[k].0 == key ==>
              Remove(m, key) == (m.(entries := m.entries[..k] + m.entries[k + 1..]), Some(m.entries[k].1))
  {
    var k := FindKey(m.entries, key);
    if k < |m.entries| {
      assert m.entries[k].0 in m.Keys();
    }
  }

  /** What is put in comes last, behind all others in their order; the first of them is forgotten
      when there are too many. */
  lemma PutMeans<T>(m: Lru<T>, key: string, stmt: T)
    requires m.Valid()
    ensures var (m', replaced, forgotten) := Put(m, key, stmt);
            var others := Remove(m, key).0.entries;
            && m'.capacity == m.capacity && replaced == Remove(m, key).1
            && if |others| < m.capacity then m'.entries == others + [(key, stmt)] && forgotten.None?
               else if m.capacity > 0 then m'.entries == others[1..] + [(key, stmt)] && forgotten == Some(others[0].1)
               else m'.entries == [] && forgotten == Some(stmt)
  {
    hide Remove, Statements, Lru.Keys;
    RemoveConserves(m, key);
    OneMore(Remove(m, key).0.entries, (key, stmt));
  }

  lemma OneMore<T>(others: seq<T>, last: T)
    ensures others != [] ==> (others + [last])[1..] == others[1..] + [last] && (others + [last])[0] == others[0]
    ensures others == [] ==> (others + [last])[1..] == [] && (others + [last])[0] == last
  {
  }

  lemma NothingRemoved<T>(m: Lru<T>, key: string)
    requires Remove(m, key).1.None?
    ensures Remove(m, key).0 == m
  {
  }

  lemma SameKeys<T>(entries: seq<(string, T)>, a: nat, b: nat)
    ensures Lru(entries, a).Keys() == Lru(entries, b).Keys()
  {
  }

  /** A map that has grown one over its capacity, without its oldest entry. */
  lemma OldestForgotten<T>(entries: seq<(string, T)>, capacity: nat)
    requires Lru(entries, capacity + 1).Valid() && |entries| == capacity + 1
    ensures Lru(entries[1..], capacity).Valid()
    ensures Lru(entries[1..], capacity).Keys() == Lru(entries, capacity + 1).Keys() - {entries[0].0}
    ensures Statements(entries) == multiset{entries[0].1} + Statements(entries[1..])
  {
  }

  lemma AppendedKeys<T>(m: Lru<T>, key: string, stmt: T)
    requires m.Valid() && key !in m.Keys()
    ensures Lru(m.entries + [(key, stmt)], m.capacity + 1).Valid()
    ensures Lru(m.entries + [(key, stmt)], m.capacity + 1).Keys() == m.Keys() + {key}
  {
    var entries := m.entries + [(key, stmt)];
    forall i | 0 <= i < |m.entries| ensures m.entries[i].0 in m.Keys() {
    }
    assert entries[|m.entries|].0 == key;
    forall x | x in m.Keys() ensures x in Lru(entries, m.capacity + 1).Keys() {
      var i :| 0 <= i < |m.entries| && m.entries[i].0 == x;
      assert entries[i] == m.entries[i];
    }
  }

  // ---------------------------------------------------------------- what the cache does

  datatype Cache<T> = Cache(lru: Lru<T>, sqls: set<string>) {
    /** Every cached statement has its key in the set. This is what `get` relies on. */
    ghost predicate Valid() {
      lru.Valid() && lru.Keys() <= sqls
    }

    /** The set holds the keys of the cache and nothing else. */
    ghost predicate Exact() {
      lru.Valid() && lru.Keys() == sqls
    }

    ghost function Held(): multiset<T> {
      Statements(lru.entries)
    }

    ghost predicate Full() {
      |lru.entries| == lru.capacity
    }
  }

  /** The cache after an operation, the statement handed to the caller, and the one the map
      forgot on its own, which nobody will close. */
  datatype Step<T> = Step(cache: Cache<T>, returned: Option<T>, lost: Option<T>)

  function Taking<T>(c: Cache<T>, sql: string): Step<T> {
    var (lru, taken) := Remove(c.lru, sql);
    Step(if taken.Some? then Cache(lru, c.sqls - {sql}) else c, taken, None)
  }

  function Inserting<T>(c: Cache<T>, sql: string, stmt: T): Step<T> {
    if sql in c.sqls then
      var (lru, replaced, lost) := Put(c.lru, sql, stmt);
      Step(Cache(lru, c.sqls), replaced, lost)
    else if |c.lru.entries| == c.lru.capacity && c.lru.entries != [] then
      var (lru, _, lost) := Put(c.lru.(entries := c.lru.entries[1..]), sql, stmt);
      Step(Cache(lru, c.sqls + {sql} - {c.lru.entries[0].0}), Some(c.lru.entries[0].1), lost)
    else
      var (lru, _, lost) := Put(c.lru, sql, stmt);
      Step(Cache(lru, c.sqls + {sql}), None, lost)
  }

  /** `insert_and_close` puts the key into the set before it inserts. */
  function InsertingAndClosing<T>(c: Cache<T>, sql: string, stmt: T): Step<T> {
    Inserting(c.(sqls := c.sqls + {sql}), sql, stmt)
  }

  /** A hit leaves the cache with its key; a miss changes nothing. */
  lemma TakingConserves<T>(c: Cache<T>, sql: string)
    requires c.Valid()
    ensures var s := Taking(c, sql);
            && s.cache.Valid() && s.cache.lru.capacity == c.lru.capacity
            && (c.Exact() ==> s.cache.Exact())
            && (s.returned.Some? <==> sql in c.lru.Keys())
            && s.cache.lru.Keys() == c.lru.Keys() - {sql}
            && c.Held() == s.cache.Held() + ToMultiset(s.returned)
  {
    hide Remove, Statements;
    RemoveConserves(c.lru, sql);
  }

  /** An insert never drops a statement silently, unless the set already had a key the full map
      does not have, or the map can hold nothing. */
  lemma InsertingConserves<T>(c: Cache<T>, sql: string, stmt: T)
    requires c.Valid()
    ensures var s := Inserting(c, sql, stmt);
            && s.cache.Valid() && s.cache.lru.capacity == c.lru.capacity
            && (c.Exact() && c.lru.capacity > 0 ==> s.cache.Exact())
            && (c.lru.capacity > 0 ==> sql in s.cache.lru.Keys())
            && c.Held() + multiset{stmt} == s.cache.Held() + ToMultiset(s.returned) + ToMultiset(s.lost)
            && (s.lost.Some? <==>
                sql !in c.lru.Keys() && c.Full() && (sql in c.sqls || c.lru.capacity == 0))
            && (s.returned.Some? <==>
                sql in c.lru.Keys() || (sql !in c.sqls && c.Full() && c.lru.capacity > 0))
  {
    hide Put, Remove, Statements;
    if sql !in c.sqls && c.Full() && c.lru.entries != [] {
      Evicting(c.lru, sql, stmt);
    } else {
      PutConserves(c.lru, sql, stmt);
    }
  }

  /** Making room for a new key in a full map loses nothing. */
  lemma Evicting<T>(m: Lru<T>, key: string, stmt: T)
    requires m.Valid() && |m.entries| == m.capacity && m.entries != [] && key !in m.Keys()
    ensures var (m', replaced, forgotten) := Put(m.(entries := m.entries[1..]), key, stmt);
            && m'.Valid() && m'.capacity == m.capacity && forgotten.None?
            && m'.Keys() == m.Keys() - {m.entries[0].0} + {key}
            && Statements(m.entries) + multiset{stmt} == Statements(m'.entries) + multiset{m.entries[0].1}
  {
    hide Put, Remove, Statements;
    OldestLeaves(m);
    var shorter := m.(entries := m.entries[1..]);
    PutConserves(shorter, key, stmt);
    var put := Put(shorter, key, stmt);
    assert put.1.None? && put.2.None?;
    assert Statements(shorter.entries) + multiset{stmt} == Statements(put.0.entries);
  }

  /** `remove_lru`. */
  lemma OldestLeaves<T>(m: Lru<T>)
    requires m.Valid() && m.entries != []
    ensures var m' := m.(entries := m.entries[1..]);
            && m'.Valid() && m'.Keys() == m.Keys() - {m.entries[0].0}
            && Statements(m.entries) == Statements(m'.entries) + multiset{m.entries[0].1}
  {
  }

  /** What an insert hands out, and the order it leaves: the statement it replaces, or the least
      recently used one of a full cache; the new one becomes the most recently used. */
  lemma InsertingMeans<T>(c: Cache<T>, sql: string, stmt: T)
    requires c.Valid() && c.lru.capacity > 0
    ensures var s := Inserting(c, sql, stmt);
            var others := Remove(c.lru, sql).0.entries;
            && s.cache.lru.entries == (if |others| < c.lru.capacity then others else others[1..]) + [(sql, stmt)]
            && (sql in c.lru.Keys() ==> s.returned == Remove(c.lru, sql).1)
            && (sql !in c.lru.Keys() && s.returned.Some? ==> s.returned == Some(c.lru.entries[0].1))
            && (sql !in c.sqls ==> s.cache.sqls == c.sqls + {sql} - (if c.Full() then {c.lru.entries[0].0} else {}))
            && (sql in c.sqls ==> s.cache.sqls == c.sqls)
  {
    hide Put, Remove;
    RemoveMeans(c.lru, sql);
    PutMeans(c.lru, sql, stmt);
    if sql !in c.sqls && c.Full() {
      OldestLeaves(c.lru);
      var shorter := c.lru.(entries := c.lru.entries[1..]);
      RemoveMeans(shorter, sql);
      PutMeans(shorter, sql, stmt);
    }
  }

  /** `insert_and_close` loses a statement, without closing it, exactly when the key is new and
      the cache is full. */
  lemma ClosingLosesIff<T>(c: Cache<T>, sql: string, stmt: T)
    requires c.Valid()
    ensures var s := InsertingAndClosing(c, sql, stmt);
            && s.cache.Valid() && s.cache.lru.capacity == c.lru.capacity
            && c.Held() + multiset{stmt} == s.cache.Held() + ToMultiset(s.returned) + ToMultiset(s.lost)
            && (s.lost.Some? <==> sql !in c.lru.Keys() && c.Full())
            && (s.lost.Some? && c.lru.capacity > 0 ==> s.lost == Some(c.lru.entries[0].1))
  {
    hide Put, Remove, Statements;
    InsertingConserves(c.(sqls := c.sqls + {sql}), sql, stmt);
    PutConserves(c.lru, sql, stmt);
  }

  // ---------------------------------------------------------------- runs

  datatype Op<T> = Take(sql: string) | Insert(sql: string, stmt: T) | Close(sql: string, stmt: T)

  function Do<T>(c: Cache<T>, op: Op<T>): Step<T> {
    match op
    case Take(sql) => Taking(c, sql)
    case Insert(sql, stmt) => Inserting(c, sql, stmt)
    case Close(sql, stmt) => InsertingAndClosing(c, sql, stmt)
  }

  datatype Run<T> = Run(cache: Cache<T>, returned: multiset<T>, lost: multiset<T>)

  function DoAll<T>(c: Cache<T>, ops: seq<Op<T>>): Run<T>
    decreases ops
  {
    if ops == [] then Run(c, multiset{}, multiset{})
    else
      var s := Do(c, ops[0]);
      var r := DoAll(s.cache, ops[1..]);
      Run(r.cache, ToMultiset(s.returned) + r.returned, ToMultiset(s.lost) + r.lost)
  }

  function Inserted<T>(ops: seq<Op<T>>): multiset<T> {
    if ops == [] then multiset{}
    else (if ops[0].Take? then multiset{} else multiset{ops[0].stmt}) + Inserted(ops[1..])
  }

  lemma StepConserves<T>(c: Cache<T>, op: Op<T>)
    requires c.Valid()
    ensures var s := Do(c, op);
            && s.cache.Valid() && s.cache.lru.capacity == c.lru.capacity
            && c.Held() + (if op.Take? then multiset{} else multiset{op.stmt})
            == s.cache.Held() + ToMultiset(s.returned) + ToMultiset(s.lost)
            && (c.Exact() && c.lru.capacity > 0 && !op.Close? ==> s.cache.Exact() && s.lost.None?)
  {
    hide Put, Remove, Statements, Inserting, InsertingAndClosing;
    match op
    case Take(sql) => TakingConserves(c, sql);
    case Insert(sql, stmt) => InsertingConserves(c, sql, stmt);
    case Close(sql, stmt) => ClosingLosesIff(c, sql, stmt);
  }

  /** Over every run, with any capacity: the cache never exceeds its capacity, `get` always
      finds the key it takes, and every statement is in exactly one place, cached, handed out
      or lost. */
  lemma {:induction false} RunConserves<T>(c: Cache<T>, ops: seq<Op<T>>)
    requires c.Valid()
    ensures var r := DoAll(c, ops);
            && r.cache.Valid() && r.cache.lru.capacity == c.lru.capacity
            && c.Held() + Inserted(ops) == r.cache.Held() + r.returned + r.lost
    decreases ops
  {
    hide Do, Statements;
    if ops == [] {
    } else {
      StepConserves(c, ops[0]);
      var s := Do(c, ops[0]);
      RunConserves(s.cache, ops[1..]);
      var r := DoAll(s.cache, ops[1..]);
      var put := if ops[0].Take? then multiset{} else multiset{ops[0].stmt};
      assert c.Held() + Inserted(ops) == (c.Held() + put) + Inserted(ops[1..]);
      assert c.Held() + Inserted(ops)
          == (r.cache.Held() + r.returned + r.lost) + ToMultiset(s.returned) + ToMultiset(s.lost);
    }
  }

  /** Over every run of `get` and `insert` of a cache that can hold something, nothing is ever
      lost and the set is exactly the set of cached keys. */
  lemma {:induction false} GetsAndInsertsLoseNothing<T>(c: Cache<T>, ops: seq<Op<T>>)
    requires c.Exact() && c.lru.capacity > 0
    requires forall i :: 0 <= i < |ops| ==> !ops[i].Close?
    ensures DoAll(c, ops).lost == multiset{} && DoAll(c, ops).cache.Exact()
    decreases ops
  {
    hide Do, Statements;
    if ops != [] {
      StepConserves(c, ops[0]);
      GetsAndInsertsLoseNothing(Do(c, ops[0]).cache, ops[1..]);
    }
  }

  // ---------------------------------------------------------------- the class

  class StmtCache<T> {
    var cache: Lru<T>
    var sqls: set<string>

    constructor (capacity: nat)
      ensures Value() == Cache(Lru([], capacity), {}) && Value().Exact()
    {
      cache := Lru([], capacity);
      sqls := {};
    }

    function Value(): Cache<T>
      reads this
    {
      Cache(cache, sqls)
    }

    /** `get`. The key of a hit is in the set, so taking it from there cannot fail. */
    method Get(sql: string) returns (r: Option<T>)
      requires Value().Valid()
      modifies this
      ensures Value() == Taking(old(Value()), sql).cache && r == Taking(old(Value()), sql).returned
      ensures Value().Valid() && (r.Some? <==> sql in old(cache.Keys()))
    {
      TakingConserves(Value(), sql);
      var (rest, taken) := Remove(cache, sql);
      if taken.Some? {
        assert sql in sqls;
        cache := rest;
        sqls := sqls - {sql};
        return taken;
      }
      return None;
    }

    method Insert(sql: string, stmt: T) returns (displaced: Option<T>)
      requires Value().Valid()
      modifies this
      ensures Value() == Inserting(old(Value()), sql, stmt).cache
      ensures displaced == Inserting(old(Value()), sql, stmt).returned
      ensures Value().Valid()
    {
      hide Put, Remove;
      InsertingConserves(Value(), sql, stmt);
      if sql in sqls {
        var put := Put(cache, sql, stmt);
        cache := put.0;
        return put.1;
      }
      sqls := sqls + {sql};
      displaced := None;
      if |cache.entries| == cache.capacity {
        if cache.entries != [] {
          var (oldest, evicted) := cache.entries[0];
          cache := cache.(entries := cache.entries[1..]);
          sqls := sqls - {oldest};
          displaced := Some(evicted);
        }
      }
      var put := Put(cache, sql, stmt);
      cache := put.0;
    }

    /** `insert_and_close`: the statement to close. */
    method InsertAndClose(sql: string, stmt: T) returns (closed: Option<T>)
      requires Value().Valid()
      modifies this
      ensures Value() == InsertingAndClosing(old(Value()), sql, stmt).cache
      ensures closed == InsertingAndClosing(old(Value()), sql, stmt).returned
      ensures Value().Valid()
    {
      hide Inserting;
      sqls := sqls + {sql};
      closed := Insert(sql, stmt);
    }

    /** `get_or_prepare`: a cached statement, or a newly prepared one, which can fail. */
    method GetOrPrepare(sql: string, prepared: Option<T>) returns (r: Option<T>)
      requires Value().Valid()
      modifies this
      ensures Value() == Taking(old(Value()), sql).cache && Value().Valid()
      ensures r == if sql in old(cache.Keys()) then Taking(old(Value()), sql).returned else prepared
    {
      r := Get(sql);
      if r.None? {
        r := prepared;
      }
    }
  }
}

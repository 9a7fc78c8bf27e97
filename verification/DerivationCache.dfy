/**
 The write-invalidated cache of derived answers (`src/domain/service/cache.rs`) and
 the service that answers through it, one call at a time.

 The documents are one value of type `S`; what an endpoint computes from them is a
 function of the documents and the query. Instants are milliseconds, and the
 generation is unbounded.
 */
module DerivationCache {
  import opened Wrappers
  import opened CacheKeys

  const MAX_AGE := 45_000

  datatype Entry<V> = Entry(generation: nat, written: nat, value: V)

  /** Time since an instant, which is never negative. */
  function Elapsed(since: nat, now: nat): nat { if now >= since then now - since else 0 }

  /// The cache as a value
  /// --------------------

  /** An entry may answer under the generation it was stored under, until it is too old. */
  predicate Answers<V>(e: Entry<V>, generation: nat, now: nat) {
    e.generation == generation && Elapsed(e.written, now) < MAX_AGE
  }

  function Lookup<V>(entries: map<string, Entry<V>>, generation: nat, key: string, now: nat): Option<V> {
    if key in entries && Answers(entries[key], generation, now) then Some(entries[key].value) else None
  }

  function Remember<V>(entries: map<string, Entry<V>>, generation: nat, key: string, value: V, now: nat)
    : map<string, Entry<V>>
  {
    (map k | k in entries && entries[k].generation == generation :: entries[k])[key := Entry(generation, now, value)]
  }

  /** A remembered value answers its key until it reaches the age bound and no longer; every other key
      answers as before, so the entries dropped on the way are never missed. */
  lemma RememberedAnswers<V>(entries: map<string, Entry<V>>, generation: nat, key: string, value: V, written: nat,
                             asked: string, now: nat)
    ensures Lookup(Remember(entries, generation, key, value, written), generation, asked, now)
         == if asked != key then Lookup(entries, generation, asked, now)
            else if Elapsed(written, now) < MAX_AGE then Some(value)
            else None
  {
  }

  /** After an invalidation no entry answers any key, now or later, until something is remembered. */
  lemma NothingAnswersAfterInvalidation<V>(entries: map<string, Entry<V>>, generation: nat, key: string, now: nat)
    requires forall k :: k in entries ==> entries[k].generation <= generation
    ensures Lookup(entries, generation + 1, key, now).None?
  {
  }

  datatype Event<V> = Remembered(key: string, value: V, at: nat) | Invalidated

  datatype Contents<V> = Contents(entries: map<string, Entry<V>>, generation: nat)

  function After<V>(events: seq<Event<V>>): Contents<V> {
    if events == [] then Contents(map[], 0)
    else
      var before := After(events[..|events| - 1]);
      match events[|events| - 1]
      case Remembered(key, value, at) => before.(entries := Remember(before.entries, before.generation, key, value, at))
      case Invalidated => before.(generation := before.generation + 1)
  }

  /** What was last remembered for the key since the last invalidation. */
  function LastRemembered<V>(events: seq<Event<V>>, key: string): Option<Event<V>> {
    if events == [] || events[|events| - 1].Invalidated? then None
    else if events[|events| - 1].key == key then Some(events[|events| - 1])
    else LastRemembered(events[..|events| - 1], key)
  }

  /** Over every sequence of stores and invalidations a look-up answers what was last remembered for
      its key since the last invalidation, unless that has reached the age bound. */
  lemma {:induction false} AnswersTheLastRemembered<V>(events: seq<Event<V>>, key: string, now: nat)
    ensures forall k :: k in After(events).entries ==> After(events).entries[k].generation <= After(events).generation
    ensures Lookup(After(events).entries, After(events).generation, key, now)
         == match LastRemembered(events, key)
            case None => None
            case Some(event) => if event.Remembered? && now - event.at < 45_000 then Some(event.value) else None
  {
    if events != [] {
      var before := After(events[..|events| - 1]);
      AnswersTheLastRemembered(events[..|events| - 1], key, now);
      match events[|events| - 1]
      case Remembered(k, value, at) =>
        RememberedAnswers(before.entries, before.generation, k, value, at, key, now);
      case Invalidated =>
        NothingAnswersAfterInvalidation(before.entries, before.generation, key, now);
    }
  }

  class Cache<V(==)> {
    var generation: nat
    var entries: map<string, Entry<V>>

    constructor ()
      ensures generation == 0 && entries == map[]
    {
      generation := 0;
      entries := map[];
    }

    function Get(key: string, now: nat): (hit: Option<V>)
      reads this
    {
      Lookup(entries, generation, key, now)
    }

    /** Entries of earlier generations go, so after one call alone every entry is of the current one. */
    method Put(key: string, value: V, now: nat)
      modifies this`entries
      ensures forall k :: k in entries <==> k == key || (k in old(entries) && old(entries)[k].generation == generation)
      ensures forall k :: k in entries ==> entries[k] == if k == key then Entry(generation, now, value) else old(entries)[k]
      ensures forall k :: k in entries ==> entries[k].generation == generation
      ensures entries == Remember(old(entries), generation, key, value, now)
    {
      var kept := map k | k in entries && entries[k].generation == generation :: entries[k];
      entries := kept[key := Entry(generation, now, value)];
    }

    method Invalidate()
      modifies this`generation
      ensures generation == old(generation) + 1
    {
      generation := generation + 1;
    }
  }

  class Service<S, V(==), E> {
    const answer: (S, Query) -> Result<V, E>
    const derivations: Cache<V>
    var documents: S

    /** Whatever the cache would hand out for a query, computing it now would give too. */
    ghost predicate Valid()
      reads this, derivations
    {
      && (forall k :: k in derivations.entries ==> derivations.entries[k].generation <= derivations.generation)
      && forall q :: Routed(q) && KeyOf(q) in derivations.entries
                     && derivations.entries[KeyOf(q)].generation == derivations.generation
           ==> answer(documents, q) == Ok(derivations.entries[KeyOf(q)].value)
    }

    constructor (documents: S, answer: (S, Query) -> Result<V, E>)
      ensures Valid() && fresh(derivations) && this.documents == documents && this.answer == answer
    {
      this.documents := documents;
      this.answer := answer;
      this.derivations := new Cache();
    }

    /** A write publishes new documents and retires every entry. */
    method Write(documents': S)
      requires Valid()
      modifies this`documents, derivations
      ensures Valid() && documents == documents'
    {
      documents := documents';
      derivations.Invalidate();
    }

    /** Every answer, cached or computed, is what the documents give now; failures are not kept. */
    method Answer(q: Query, now: nat) returns (r: Result<V, E>)
      requires Valid() && Routed(q)
      modifies derivations
      ensures Valid() && r == answer(documents, q)
      ensures r.Err? ==> derivations.entries == old(derivations.entries)
      ensures r.Ok? ==> derivations.Get(KeyOf(q), now) == Some(r.value)
      ensures old(derivations.Get(KeyOf(q), now)).Some? ==> derivations.entries == old(derivations.entries)
    {
      var key := KeyOf(q);
      var hit := derivations.Get(key, now);
      if hit.Some? {
        return Ok(hit.value);
      }
      r := answer(documents, q);
      if r.Ok? {
        forall p | Routed(p) && KeyOf(p) == key ensures p == q {
          RoutedKeysAreInjective(p, q);
        }
        derivations.Put(key, r.value, now);
      }
    }
  }
}

/**
 The derivation cache under concurrent requests (`src/domain/service/cache.rs`,
 `src/domain/service/mod.rs`).

 A write publishes documents and only then bumps the generation. A reader computes
 an answer, later loads the generation, and later still takes the lock and stores
 under the generation it loaded. Any other step may fall in between. Age only makes
 a reader compute sooner, so it is left out of what an entry may answer.

 `history(n)` is the documents after the `n`-th write, so a schedule of steps says
 nothing about documents or answers, and whether it is safe is a question about the
 order of its steps.
 */
module CacheInterleaving {
  import opened Wrappers
  import opened CacheKeys

  datatype Action =
    | Commit
    | Invalidate
    | Compute(thread: nat, query: Query)
    | Load(thread: nat)
    | Store(thread: nat)

  /// Schedules
  /// ---------

  /** A reader between its computation and its store: how many writes it had seen, and the
      generation it loaded. */
  datatype Reader = Reader(query: Query, computed: nat, tag: Option<nat>)

  /** How many writes were published, how many still owe their invalidation, and who is reading. */
  datatype Clock = Clock(commits: nat, generation: nat, owed: nat, readers: map<nat, Reader>)

  const START := Clock(0, 0, 0, map[])

  predicate MayStore(c: Clock, t: nat) { t in c.readers && c.readers[t].tag.Some? }

  function Tick(c: Clock, a: Action): Clock {
    match a
    case Commit => c.(commits := c.commits + 1, owed := c.owed + 1)
    case Invalidate => if c.owed > 0 then c.(generation := c.generation + 1, owed := c.owed - 1) else c
    case Compute(t, q) =>
      if t in c.readers || !Routed(q) then c else c.(readers := c.readers[t := Reader(q, c.commits, None)])
    case Load(t) =>
      if t !in c.readers || c.readers[t].tag.Some? then c
      else c.(readers := c.readers[t := c.readers[t].(tag := Some(c.generation))])
    case Store(t) => if MayStore(c, t) then c.(readers := c.readers - {t}) else c
  }

  /** No write was published between the computation and the store, unless a write still owes its
      invalidation at the store, or one fell between the load of the generation and the store. */
  predicate Punctual(c: Clock, a: Action) {
    a.Store? && MayStore(c, a.thread) ==>
      var reader := c.readers[a.thread];
      reader.computed == c.commits || c.owed > 0 || reader.tag != Some(c.generation)
  }

  predicate AlwaysPunctual(c: Clock, schedule: seq<Action>)
    decreases |schedule|
  {
    schedule != [] ==> Punctual(c, schedule[0]) && AlwaysPunctual(Tick(c, schedule[0]), schedule[1..])
  }

  /// The cache along a schedule
  /// --------------------------

  datatype Entry<V> = Entry(generation: nat, value: V)

  datatype State<V> = State(clock: Clock, entries: map<string, Entry<V>>)

  /** Storing keeps only entries of the generation loaded; a failed computation stores nothing. */
  function Step<S, V, E>(answer: (S, Query) -> Result<V, E>, history: nat -> S, s: State<V>, a: Action): State<V> {
    var clock := Tick(s.clock, a);
    if !a.Store? || !MayStore(s.clock, a.thread) then State(clock, s.entries)
    else
      var reader := s.clock.readers[a.thread];
      match answer(history(reader.computed), reader.query)
      case Err(_) => State(clock, s.entries)
      case Ok(value) =>
        var tag := reader.tag.value;
        var kept := map k | k in s.entries && s.entries[k].generation == tag :: s.entries[k];
        State(clock, kept[KeyOf(reader.query) := Entry(tag, value)])
  }

  /** While no write owes its invalidation, every entry that may answer is what computing it would give. */
  ghost predicate Right<S, V, E>(answer: (S, Query) -> Result<V, E>, history: nat -> S, s: State<V>) {
    s.clock.owed == 0 ==>
      forall q :: Routed(q) && KeyOf(q) in s.entries && s.entries[KeyOf(q)].generation == s.clock.generation ==>
        answer(history(s.clock.commits), q) == Ok(s.entries[KeyOf(q)].value)
  }

  ghost predicate AlwaysRight<S, V, E>(answer: (S, Query) -> Result<V, E>, history: nat -> S, s: State<V>, schedule: seq<Action>)
    decreases |schedule|
  {
    && Right(answer, history, s)
    && (schedule != [] ==> AlwaysRight(answer, history, Step(answer, history, s, schedule[0]), schedule[1..]))
  }

  ghost predicate WellFormed<V>(s: State<V>) {
    && (forall k :: k in s.entries ==> s.entries[k].generation <= s.clock.generation)
    && forall t :: t in s.clock.readers ==>
         var reader := s.clock.readers[t];
         Routed(reader.query) && (reader.tag.Some? ==> reader.tag.value <= s.clock.generation)
  }

  lemma StepIsWellFormed<S, V, E>(answer: (S, Query) -> Result<V, E>, history: nat -> S, s: State<V>, a: Action)
    requires WellFormed(s)
    ensures WellFormed(Step(answer, history, s, a))
    ensures Step(answer, history, s, a).clock == Tick(s.clock, a)
  {
  }

  /** A store leaves entries of one generation only: the current one, unless an invalidation fell
      between its load and its store. */
  lemma StoreLeavesOneGeneration<S, V, E>(answer: (S, Query) -> Result<V, E>, history: nat -> S, s: State<V>, t: nat)
    requires MayStore(s.clock, t) && answer(history(s.clock.readers[t].computed), s.clock.readers[t].query).Ok?
    ensures var s' := Step(answer, history, s, Store(t));
            var tag := s.clock.readers[t].tag;
            && (forall k :: k in s'.entries ==> Some(s'.entries[k].generation) == tag)
            && (tag == Some(s'.clock.generation) <==> forall k :: k in s'.entries ==> s'.entries[k].generation == s'.clock.generation)
  {
    var s' := Step(answer, history, s, Store(t));
    assert KeyOf(s.clock.readers[t].query) in s'.entries;
  }

  /// Safe schedules, exactly
  /// -----------------------

  lemma EntriesAfterStore<S, V, E>(answer: (S, Query) -> Result<V, E>, history: nat -> S, s: State<V>, t: nat, q: Query)
    requires WellFormed(s) && MayStore(s.clock, t) && Routed(q)
    requires answer(history(s.clock.readers[t].computed), s.clock.readers[t].query).Ok?
    ensures var s' := Step(answer, history, s, Store(t));
            var reader := s.clock.readers[t];
            var key := KeyOf(q);
            && (key in s'.entries <==>
                  q == reader.query || (key in s.entries && Some(s.entries[key].generation) == reader.tag))
            && (key in s'.entries ==>
                  s'.entries[key] == if q == reader.query
                                     then Entry(reader.tag.value, answer(history(reader.computed), q).value)
                                     else s.entries[key])
  {
    RoutedKeysAreInjective(q, s.clock.readers[t].query);
  }

  /** From a right state a punctual step leads to a right state, whatever the documents and answers. */
  lemma PunctualStepIsRight<S, V, E>(answer: (S, Query) -> Result<V, E>, history: nat -> S, s: State<V>, a: Action)
    requires WellFormed(s) && Right(answer, history, s) && Punctual(s.clock, a)
    ensures Right(answer, history, Step(answer, history, s, a))
  {
    if a.Store? && MayStore(s.clock, a.thread) {
      var reader := s.clock.readers[a.thread];
      if answer(history(reader.computed), reader.query).Ok? {
        var s' := Step(answer, history, s, a);
        forall q | Routed(q) && KeyOf(q) in s'.entries && s'.entries[KeyOf(q)].generation == s'.clock.generation
                   && s'.clock.owed == 0
          ensures answer(history(s'.clock.commits), q) == Ok(s'.entries[KeyOf(q)].value)
        {
          EntriesAfterStore(answer, history, s, a.thread, q);
        }
      }
    }
  }

  /** Every query succeeds on every version of the documents, with a different answer on each. */
  ghost predicate TellsVersionsApart<S(!new), V(!new), E(!new)>(answer: (S, Query) -> Result<V, E>, history: nat -> S) {
    && (forall n, q :: answer(history(n), q).Ok?)
    && forall m, n, q :: answer(history(m), q) == answer(history(n), q) ==> m == n
  }

  /** Where versions are told apart, a step that is not punctual leaves a wrong answer behind. */
  lemma LateStepIsWrong<S(!new), V(!new), E(!new)>(answer: (S, Query) -> Result<V, E>, history: nat -> S, s: State<V>, a: Action)
    requires WellFormed(s) && TellsVersionsApart(answer, history) && !Punctual(s.clock, a)
    ensures !Right(answer, history, Step(answer, history, s, a))
  {
    var reader := s.clock.readers[a.thread];
    assert Routed(reader.query);
    EntriesAfterStore(answer, history, s, a.thread, reader.query);
    assert answer(history(reader.computed), reader.query) != answer(history(s.clock.commits), reader.query);
  }

  /** A schedule of punctual stores gives right answers throughout, whatever the documents and
      whatever is computed from them. */
  lemma {:induction false} PunctualSchedulesAreRight<S, V, E>(answer: (S, Query) -> Result<V, E>, history: nat -> S,
                                                              s: State<V>, schedule: seq<Action>)
    requires WellFormed(s) && Right(answer, history, s) && AlwaysPunctual(s.clock, schedule)
    ensures AlwaysRight(answer, history, s, schedule)
    decreases |schedule|
  {
    if schedule != [] {
      StepIsWellFormed(answer, history, s, schedule[0]);
      PunctualStepIsRight(answer, history, s, schedule[0]);
      PunctualSchedulesAreRight(answer, history, Step(answer, history, s, schedule[0]), schedule[1..]);
    }
  }

  /** Where versions are told apart, a schedule gives right answers throughout exactly when every one
      of its stores is punctual. */
  lemma {:induction false} RightExactlyWhenPunctual<S(!new), V(!new), E(!new)>(
      answer: (S, Query) -> Result<V, E>, history: nat -> S, s: State<V>, schedule: seq<Action>)
    requires WellFormed(s) && Right(answer, history, s) && TellsVersionsApart(answer, history)
    ensures AlwaysRight(answer, history, s, schedule) <==> AlwaysPunctual(s.clock, schedule)
    decreases |schedule|
  {
    if schedule != [] {
      var s' := Step(answer, history, s, schedule[0]);
      StepIsWellFormed(answer, history, s, schedule[0]);
      if Punctual(s.clock, schedule[0]) {
        PunctualStepIsRight(answer, history, s, schedule[0]);
        RightExactlyWhenPunctual(answer, history, s', schedule[1..]);
      } else {
        LateStepIsWrong(answer, history, s, schedule[0]);
      }
    }
  }

  /** A schedule from an empty cache is right for every history and every answer exactly when every
      one of its stores is punctual. */
  lemma SafeSchedulesExactly(schedule: seq<Action>)
    ensures (forall answer: (nat, Query) -> Result<nat, ()>, history: nat -> nat ::
               AlwaysRight(answer, history, State(START, map[]), schedule))
       <==> AlwaysPunctual(START, schedule)
  {
    var empty: State<nat> := State(START, map[]);
    if AlwaysPunctual(START, schedule) {
      forall answer: (nat, Query) -> Result<nat, ()>, history: nat -> nat
        ensures AlwaysRight(answer, history, empty, schedule)
      {
        PunctualSchedulesAreRight(answer, history, empty, schedule);
      }
    }
    var versions: (nat, Query) -> Result<nat, ()> := (n, q) => Ok(n);
    var counting: nat -> nat := n => n;
    RightExactlyWhenPunctual(versions, counting, empty, schedule);
  }

  function Run<S, V, E>(answer: (S, Query) -> Result<V, E>, history: nat -> S, s: State<V>, schedule: seq<Action>): State<V>
    decreases |schedule|
  {
    if schedule == [] then s else Run(answer, history, Step(answer, history, s, schedule[0]), schedule[1..])
  }

  /** The tag is taken after the computation: a write completed in between goes unnoticed, and if it
      changed the answer the outdated value answers until the next write. */
  lemma WriteInBetweenGoesUnnoticed<S, V, E>(answer: (S, Query) -> Result<V, E>, history: nat -> S, q: Query)
    requires Routed(q) && answer(history(0), q).Ok? && answer(history(1), q) != answer(history(0), q)
    ensures var s := Run(answer, history, State(START, map[]), [Compute(0, q), Commit, Invalidate, Load(0), Store(0)]);
            && s.clock.owed == 0 && s.clock.commits == 1 && !Right(answer, history, s)
            && KeyOf(q) in s.entries && s.entries[KeyOf(q)] == Entry(s.clock.generation, answer(history(0), q).value)
  {
    var schedule := [Compute(0, q), Commit, Invalidate, Load(0), Store(0)];
    var s1 := Step(answer, history, State(START, map[]), schedule[0]);
    var s2 := Step(answer, history, s1, schedule[1]);
    var s3 := Step(answer, history, s2, schedule[2]);
    var s4 := Step(answer, history, s3, schedule[3]);
    var s5 := Step(answer, history, s4, schedule[4]);
    assert schedule[1..][1..] == schedule[2..] && schedule[2..][1..] == schedule[3..]
           && schedule[3..][1..] == schedule[4..] && schedule[4..][1..] == [];
    assert Run(answer, history, s1, schedule[1..]) == Run(answer, history, s2, schedule[2..]);
    assert Run(answer, history, s3, schedule[3..]) == Run(answer, history, s4, schedule[4..]);
    assert Run(answer, history, s4, schedule[4..]) == s5;
  }

  /** A write is missed when it completes between the computation and the load; one that was only
      published before the computation, or completes after the load, is not. */
  lemma WritesMissedAndNoticed(q: Query)
    requires Routed(q)
    ensures !AlwaysPunctual(START, [Compute(0, q), Commit, Invalidate, Load(0), Store(0)])
    ensures AlwaysPunctual(START, [Commit, Compute(0, q), Invalidate, Load(0), Store(0)])
    ensures AlwaysPunctual(START, [Compute(0, q), Load(0), Commit, Invalidate, Store(0)])
  {
    FiveSteps(Compute(0, q), Commit, Invalidate, Load(0), Store(0));
    FiveSteps(Commit, Compute(0, q), Invalidate, Load(0), Store(0));
    FiveSteps(Compute(0, q), Load(0), Commit, Invalidate, Store(0));
  }

  lemma FiveSteps(a: Action, b: Action, c: Action, d: Action, e: Action)
    ensures var c1 := Tick(START, a);
            var c2 := Tick(c1, b);
            var c3 := Tick(c2, c);
            var c4 := Tick(c3, d);
            AlwaysPunctual(START, [a, b, c, d, e])
            <==> Punctual(START, a) && Punctual(c1, b) && Punctual(c2, c) && Punctual(c3, d) && Punctual(c4, e)
  {
    var all := [a, b, c, d, e];
    assert all[1..] == [b, c, d, e] && [b, c, d, e][1..] == [c, d, e] && [c, d, e][1..] == [d, e]
           && [d, e][1..] == [e] && [e][1..] == [];
    var c1 := Tick(START, a);
    var c2 := Tick(c1, b);
    var c3 := Tick(c2, c);
    var c4 := Tick(c3, d);
    assert AlwaysPunctual(c4, [e]) <==> Punctual(c4, e);
    assert AlwaysPunctual(c3, [d, e]) <==> Punctual(c3, d) && AlwaysPunctual(c4, [e]);
    assert AlwaysPunctual(c2, [c, d, e]) <==> Punctual(c2, c) && AlwaysPunctual(c3, [d, e]);
  }
}

/** The settings store, its generation counter, and the cache each thread keeps of the settings it has read. */
module SettingsCache {

  /** How a setting is read at a type: the conversion from what the store holds, and the type's default. */
  datatype Reading<!V, T> = Reading(convert: V -> T, default: T)

  /** The value of a setting, straight from the store; an unknown key reads as the default. */
  function Uncached<V, T>(rd: Reading<V, T>, settings: map<string, V>, key: string): T {
    if key in settings then rd.convert(settings[key]) else rd.default
  }

  /** What is set reads as its conversion, other keys read as before, and a key never set reads as the default. */
  lemma SetThenRead<V, T>(rd: Reading<V, T>, settings: map<string, V>, key: string, value: V, other: string)
    ensures Uncached(rd, settings[key := value], key) == rd.convert(value)
    ensures other != key ==> Uncached(rd, settings[key := value], other) == Uncached(rd, settings, other)
    ensures Uncached(rd, map[], key) == rd.default
  {
  }

  /** A cached value, and the generation it was read under. */
  datatype Memo<T> = Memo(tag: nat, value: T)

  predicate Hit<T>(cache: map<string, Memo<T>>, key: string, gen: nat) {
    key in cache && cache[key].tag == gen
  }

  // ---- One thread at a time ------------------------------------------------------------------------------

  class Store<V> {
    var settings: map<string, V>
    var generation: nat

    constructor ()
      ensures settings == map[] && generation == 0
    {
      settings, generation := map[], 0;
    }

    method Set(key: string, value: V)
      modifies this
      ensures settings == old(settings)[key := value] && generation == old(generation) + 1
    {
      settings := settings[key := value];
      generation := generation + 1;
    }
  }

  /** What is cached under the current generation is what the store says; nothing is cached ahead of it. */
  ghost predicate Coherent<V, T>(rd: Reading<V, T>, cache: map<string, Memo<T>>, settings: map<string, V>, gen: nat) {
    forall key | key in cache ::
      cache[key].tag <= gen && (cache[key].tag == gen ==> cache[key].value == Uncached(rd, settings, key))
  }

  class ReadCache<V, T> {
    const rd: Reading<V, T>
    var cache: map<string, Memo<T>>

    constructor (rd: Reading<V, T>)
      ensures this.rd == rd && cache == map[]
    {
      this.rd := rd;
      cache := map[];
    }

    /**
     * A hit changes nothing; anything else is read from the store and kept. A coherent cache stays so and answers
     * right.
     */
    method Get(store: Store<V>, key: string) returns (value: T)
      modifies this
      ensures Hit(old(cache), key, store.generation) ==> value == old(cache)[key].value && cache == old(cache)
      ensures !Hit(old(cache), key, store.generation) ==>
                && value == (if key in store.settings then rd.convert(store.settings[key]) else rd.default)
                && cache == old(cache)[key := Memo(store.generation, value)]
      ensures old(Coherent(rd, cache, store.settings, store.generation)) ==>
                && value == Uncached(rd, store.settings, key)
                && Coherent(rd, cache, store.settings, store.generation)
    {
      var gen := store.generation;
      if key in cache {
        if cache[key].tag == gen {
          return cache[key].value;
        }
        cache := cache[key := Memo(gen, cache[key].value)];
        cache := cache[key := Memo(gen, Uncached(rd, store.settings, key))];
        return cache[key].value;
      }
      value := Uncached(rd, store.settings, key);
      cache := cache[key := Memo(gen, value)];
    }
  }

  // ---- Many readers and writers --------------------------------------------------------------------------

  /**
   * Where a reader is in its get: before it, after loading the generation, after reading the store for a value it
   * has yet to cache, and with its answer.
   */
  datatype Phase<T> =
    | Idle
    | Loaded(key: string, gen: nat)
    | Fetched(key: string, gen: nat, value: T)
    | Answered(key: string, gen: nat, value: T)

  datatype Reader<T> = Reader(phase: Phase<T>, cache: map<string, Memo<T>>)

  /**
   * Every store there has been, the last one current; for each generation, which of them was current when it began;
   * the writers that have written and not yet counted their generation; and the readers.
   */
  datatype System<V, T> =
    System(log: seq<map<string, V>>, starts: seq<nat>, dirty: set<nat>, readers: seq<Reader<T>>)
  {
    predicate WellFormed() {
      |log| > 0 && |starts| > 0
    }

    function Settings(): map<string, V>
      requires WellFormed()
    {
      log[|log| - 1]
    }

    function Generation(): nat
      requires WellFormed()
    {
      |starts| - 1
    }

    function WithReader(r: nat, phase: Phase<T>, cache: map<string, Memo<T>>): System<V, T>
      requires r < |readers|
    {
      this.(readers := readers[r := Reader(phase, cache)])
    }
  }

  /** One atomic step. A set is one Write and one Bump; a reload is any number of Writes and one Bump. */
  datatype Action<V> =
    | Load(r: nat, key: string)
    | Find(r: nat)
    | Fetch(r: nat)
    | Keep(r: nat)
    | Return(r: nat)
    | Write(w: nat, settings: map<string, V>)
    | Bump(w: nat)

  ghost predicate Enabled<V, T>(s: System<V, T>, a: Action<V>)
    requires s.WellFormed()
  {
    match a
    case Load(r, key) => r < |s.readers| && s.readers[r].phase.Idle?
    case Find(r) =>
      r < |s.readers| && var me := s.readers[r]; me.phase.Loaded? && Hit(me.cache, me.phase.key, me.phase.gen)
    case Fetch(r) =>
      r < |s.readers| && var me := s.readers[r]; me.phase.Loaded? && !Hit(me.cache, me.phase.key, me.phase.gen)
    case Keep(r) => r < |s.readers| && s.readers[r].phase.Fetched?
    case Return(r) => r < |s.readers| && s.readers[r].phase.Answered?
    case Write(w, settings) => true
    case Bump(w) => w in s.dirty
  }

  function Step<V, T>(rd: Reading<V, T>, s: System<V, T>, a: Action<V>): (s': System<V, T>)
    requires s.WellFormed() && Enabled(s, a)
    ensures s'.WellFormed()
  {
    match a
    case Load(r, key) => s.WithReader(r, Loaded(key, s.Generation()), s.readers[r].cache)
    case Find(r) =>
      var me := s.readers[r];
      s.WithReader(r, Answered(me.phase.key, me.phase.gen, me.cache[me.phase.key].value), me.cache)
    case Fetch(r) =>
      var me := s.readers[r];
      s.WithReader(r, Fetched(me.phase.key, me.phase.gen, Uncached(rd, s.Settings(), me.phase.key)), me.cache)
    case Keep(r) =>
      var Reader(Fetched(key, gen, value), cache) := s.readers[r];
      s.WithReader(r, Answered(key, gen, value), cache[key := Memo(gen, value)])
    case Return(r) => s.WithReader(r, Idle, s.readers[r].cache)
    case Write(w, settings) => s.(log := s.log + [settings], dirty := s.dirty + {w})
    case Bump(w) => s.(starts := s.starts + [|s.log| - 1], dirty := s.dirty - {w})
  }

  // ---- What every step keeps -----------------------------------------------------------------------------

  /** A setting had this value in some store from version `from` on. */
  ghost predicate HadSince<V, T>(rd: Reading<V, T>, log: seq<map<string, V>>, from: nat, key: string, value: T) {
    exists v :: from <= v < |log| && Uncached(rd, log[v], key) == value
  }

  ghost predicate Vouched<V, T>(rd: Reading<V, T>, s: System<V, T>, key: string, gen: nat, value: T) {
    gen < |s.starts| && HadSince(rd, s.log, s.starts[gen], key, value)
  }

  ghost predicate ReaderOk<V, T>(rd: Reading<V, T>, s: System<V, T>, me: Reader<T>) {
    && (forall key | key in me.cache :: Vouched(rd, s, key, me.cache[key].tag, me.cache[key].value))
    && match me.phase
       case Idle => true
       case Loaded(key, gen) => gen < |s.starts|
       case Fetched(key, gen, value) => Vouched(rd, s, key, gen, value)
       case Answered(key, gen, value) => Vouched(rd, s, key, gen, value)
  }

  ghost predicate Inv<V, T>(rd: Reading<V, T>, s: System<V, T>) {
    && s.WellFormed()
    && (forall g | 0 <= g < |s.starts| :: s.starts[g] < |s.log|)
    && (s.dirty == {} ==> s.starts[s.Generation()] == |s.log| - 1)
    && (forall r | 0 <= r < |s.readers| :: ReaderOk(rd, s, s.readers[r]))
  }

  /** The history only grows. */
  ghost predicate Extends<V, T>(s: System<V, T>, s': System<V, T>) {
    s.log <= s'.log && s.starts <= s'.starts
  }

  lemma VouchedStays<V, T>(rd: Reading<V, T>, s: System<V, T>, s': System<V, T>, key: string, gen: nat, value: T)
    requires Extends(s, s') && Vouched(rd, s, key, gen, value)
    ensures Vouched(rd, s', key, gen, value)
  {
    var v :| s.starts[gen] <= v < |s.log| && Uncached(rd, s.log[v], key) == value;
    assert s'.log[v] == s.log[v];
  }

  lemma ReaderStaysOk<V, T>(rd: Reading<V, T>, s: System<V, T>, s': System<V, T>, me: Reader<T>)
    requires Extends(s, s') && ReaderOk(rd, s, me)
    ensures ReaderOk(rd, s', me)
  {
    hide Vouched;
    forall key | key in me.cache ensures Vouched(rd, s', key, me.cache[key].tag, me.cache[key].value) {
      VouchedStays(rd, s, s', key, me.cache[key].tag, me.cache[key].value);
    }
    if me.phase.Fetched? || me.phase.Answered? {
      VouchedStays(rd, s, s', me.phase.key, me.phase.gen, me.phase.value);
    }
  }

  lemma StepKeepsInv<V, T>(rd: Reading<V, T>, s: System<V, T>, a: Action<V>)
    requires Inv(rd, s) && Enabled(s, a)
    ensures Inv(rd, Step(rd, s, a)) && Extends(s, Step(rd, s, a))
  {
    hide ReaderOk;
    var s' := Step(rd, s, a);
    forall r | 0 <= r < |s.readers| ensures ReaderOk(rd, s', s.readers[r]) {
      ReaderStaysOk(rd, s, s', s.readers[r]);
    }
    if !a.Write? && !a.Bump? {
      ReaderStepOk(rd, s, a);
    }
  }

  lemma ReaderStepOk<V, T>(rd: Reading<V, T>, s: System<V, T>, a: Action<V>)
    requires Inv(rd, s) && Enabled(s, a) && !a.Write? && !a.Bump?
    ensures ReaderOk(rd, Step(rd, s, a), Step(rd, s, a).readers[a.r])
  {
    var s', me := Step(rd, s, a), s.readers[a.r];
    assert ReaderOk(rd, s, me);
    ReaderStaysOk(rd, s, s', me);
    if a.Fetch? {
      var key, gen := me.phase.key, me.phase.gen;
      assert Uncached(rd, s.log[|s.log| - 1], key) == Uncached(rd, s.Settings(), key);
      assert Vouched(rd, s', key, gen, Uncached(rd, s.Settings(), key));
    }
  }

  // ---- Every run -----------------------------------------------------------------------------------------

  /** Some store, its first generation, and readers that have cached nothing. */
  ghost predicate Start<V, T>(s: System<V, T>) {
    && |s.log| == 1 && s.starts == [0] && s.dirty == {}
    && (forall r | 0 <= r < |s.readers| :: s.readers[r] == Reader(Idle, map[]))
  }

  ghost predicate Run<V, T>(rd: Reading<V, T>, states: seq<System<V, T>>, actions: seq<Action<V>>) {
    && |states| == |actions| + 1 && Start(states[0])
    && (forall i | 0 <= i < |actions| ::
          states[i].WellFormed() && Enabled(states[i], actions[i]) && states[i + 1] == Step(rd, states[i], actions[i]))
  }

  lemma {:induction false} RunKeepsInv<V, T>(
    rd: Reading<V, T>, states: seq<System<V, T>>, actions: seq<Action<V>>, i: nat)
    requires Run(rd, states, actions) && i < |states|
    ensures Inv(rd, states[i])
    decreases i
  {
    if i > 0 {
      RunKeepsInv(rd, states, actions, i - 1);
      StepKeepsInv(rd, states[i - 1], actions[i - 1]);
    }
  }

  /** At every moment of every run with no update under way, what is cached under the current generation is current. */
  lemma CurrentWhenQuiet<V, T>(
    rd: Reading<V, T>, states: seq<System<V, T>>, actions: seq<Action<V>>, i: nat, r: nat, key: string)
    requires Run(rd, states, actions) && i < |states| && states[i].dirty == {}
    requires var s := states[i]; r < |s.readers| && s.WellFormed() && Hit(s.readers[r].cache, key, s.Generation())
    ensures states[i].readers[r].cache[key].value == Uncached(rd, states[i].Settings(), key)
  {
    RunKeepsInv(rd, states, actions, i);
    var s := states[i];
    assert ReaderOk(rd, s, s.readers[r]);
    assert Vouched(rd, s, key, s.Generation(), s.readers[r].cache[key].value);
  }

  /** While a get is under way, every step but its own return leaves its key and generation alone. */
  lemma GetKeepsItsGeneration<V, T>(rd: Reading<V, T>, s: System<V, T>, a: Action<V>, r: nat)
    requires s.WellFormed() && Enabled(s, a) && r < |s.readers| && !s.readers[r].phase.Idle? && a != Return(r)
    ensures var s' := Step(rd, s, a);
            && r < |s'.readers| && !s'.readers[r].phase.Idle?
            && s'.readers[r].phase.key == s.readers[r].phase.key
            && s'.readers[r].phase.gen == s.readers[r].phase.gen
  {
  }

  /** The get that reader r begins with step i, up to state j. */
  ghost predicate During<V, T>(
    rd: Reading<V, T>, states: seq<System<V, T>>, actions: seq<Action<V>>, i: nat, j: nat, r: nat, key: string)
  {
    && Run(rd, states, actions) && i < j < |states|
    && actions[i] == Load(r, key)
    && (forall k | i <= k < j :: actions[k] != Return(r))
  }

  lemma {:induction false} GetSoFar<V, T>(
    rd: Reading<V, T>, states: seq<System<V, T>>, actions: seq<Action<V>>, i: nat, j: nat, r: nat, key: string)
    requires During(rd, states, actions, i, j, r, key)
    ensures Extends(states[i], states[j]) && states[i].WellFormed() && r < |states[j].readers|
    ensures var phase := states[j].readers[r].phase;
            !phase.Idle? && phase.key == key && phase.gen == states[i].Generation()
    decreases j
  {
    hide Inv, Vouched, ReaderOk;
    RunKeepsInv(rd, states, actions, j - 1);
    StepKeepsInv(rd, states[j - 1], actions[j - 1]);
    if j > i + 1 {
      GetSoFar(rd, states, actions, i, j - 1, r, key);
      GetKeepsItsGeneration(rd, states[j - 1], actions[j - 1], r);
    }
  }

  /**
   * In every interleaving a get answers with a value the setting had since the generation current as the get began:
   * no update that was counted by then is missed. If no update was under way as it began, it answers with a value
   * the setting had at some moment between its beginning and its answer.
   */
  lemma GetSeesFinishedUpdates<V, T>(
    rd: Reading<V, T>, states: seq<System<V, T>>, actions: seq<Action<V>>, i: nat, j: nat, r: nat, key: string)
    requires During(rd, states, actions, i, j, r, key)
    requires r < |states[j].readers| && states[j].readers[r].phase.Answered?
    ensures var s, answer := states[i], states[j].readers[r].phase.value;
            && s.WellFormed()
            && HadSince(rd, states[j].log, s.starts[s.Generation()], key, answer)
            && (s.dirty == {} ==> HadSince(rd, states[j].log, |s.log| - 1, key, answer))
  {
    GetSoFar(rd, states, actions, i, j, r, key);
    RunKeepsInv(rd, states, actions, i);
    RunKeepsInv(rd, states, actions, j);
    assert ReaderOk(rd, states[j], states[j].readers[r]);
    assert Vouched(rd, states[j], key, states[i].Generation(), states[j].readers[r].phase.value);
  }

  /**
   * If nothing is written from a get's beginning to its answer and no update was under way, it equals the uncached
   * read.
   */
  lemma QuietGetIsUncached<V, T>(
    rd: Reading<V, T>, states: seq<System<V, T>>, actions: seq<Action<V>>, i: nat, j: nat, r: nat, key: string)
    requires During(rd, states, actions, i, j, r, key)
    requires r < |states[j].readers| && states[j].readers[r].phase.Answered?
    requires states[i].dirty == {} && states[j].log == states[i].log
    ensures states[j].WellFormed()
    ensures states[j].readers[r].phase.value == Uncached(rd, states[j].Settings(), key)
  {
    GetSeesFinishedUpdates(rd, states, actions, i, j, r, key);
    RunKeepsInv(rd, states, actions, j);
  }

  // ---- Cached reads while an update is under way -----------------------------------------------------------

  /**
   * Reader r holds the value under the current generation, and every get of the key it has under way will answer
   * it.
   */
  ghost predicate Pinned<V, T>(s: System<V, T>, r: nat, key: string, gen: nat, value: T) {
    && s.WellFormed() && s.Generation() == gen && r < |s.readers|
    && key in s.readers[r].cache && s.readers[r].cache[key] == Memo(gen, value)
    && match s.readers[r].phase
       case Idle => true
       case Loaded(k, g) => k == key ==> g == gen
       case Fetched(k, _, _) => k != key
       case Answered(k, _, v) => k == key ==> v == value
  }

  lemma StepKeepsPinned<V, T>(
    rd: Reading<V, T>, s: System<V, T>, a: Action<V>, r: nat, key: string, gen: nat, value: T)
    requires Pinned(s, r, key, gen, value) && Enabled(s, a) && !a.Bump?
    ensures Pinned(Step(rd, s, a), r, key, gen, value)
  {
  }

  /**
   * From a moment when no get of the key is under way and it is cached under the current generation, no bump up to
   * state j.
   */
  ghost predicate CachedSince<V, T>(
    rd: Reading<V, T>, states: seq<System<V, T>>, actions: seq<Action<V>>, i: nat, j: nat, r: nat, key: string)
  {
    && Run(rd, states, actions) && i <= j < |states|
    && states[i].WellFormed() && r < |states[i].readers|
    && (states[i].readers[r].phase.Idle? || states[i].readers[r].phase.key != key)
    && Hit(states[i].readers[r].cache, key, states[i].Generation())
    && (forall k | i <= k < j :: !actions[k].Bump?)
  }

  /** Whatever readers and writers do, the cached value stays, and every get of the key answers it, until a bump. */
  lemma {:induction false} PinnedUntilBump<V, T>(
    rd: Reading<V, T>, states: seq<System<V, T>>, actions: seq<Action<V>>, i: nat, j: nat, r: nat, key: string)
    requires CachedSince(rd, states, actions, i, j, r, key)
    ensures Pinned(states[j], r, key, states[i].Generation(), states[i].readers[r].cache[key].value)
    decreases j
  {
    hide Pinned, Step;
    if i < j {
      PinnedUntilBump(rd, states, actions, i, j - 1, r, key);
      StepKeepsPinned(rd, states[j - 1], actions[j - 1], r, key, states[i].Generation(),
                      states[i].readers[r].cache[key].value);
    } else {
      PinnedNow(states[i], r, key);
    }
  }

  lemma PinnedNow<V, T>(s: System<V, T>, r: nat, key: string)
    requires s.WellFormed() && r < |s.readers| && Hit(s.readers[r].cache, key, s.Generation())
    requires s.readers[r].phase.Idle? || s.readers[r].phase.key != key
    ensures Pinned(s, r, key, s.Generation(), s.readers[r].cache[key].value)
  {
  }

  /**
   * In every run, take a setting cached while no update was under way.  At every later moment before the next bump,
   * through any writes and any other steps, what is cached, and what a get of it answers, is the uncached read if
   * and only if the store reads the setting as it did then.
   */
  lemma StaleUntilBump<V, T>(
    rd: Reading<V, T>, states: seq<System<V, T>>, actions: seq<Action<V>>, i: nat, j: nat, r: nat, key: string)
    requires CachedSince(rd, states, actions, i, j, r, key) && states[i].dirty == {}
    ensures states[j].WellFormed() && r < |states[j].readers| && key in states[j].readers[r].cache
    ensures var me, now := states[j].readers[r], Uncached(rd, states[j].Settings(), key);
            var same := Uncached(rd, states[i].Settings(), key) == now;
            && (me.cache[key].value == now <==> same)
            && (me.phase.Answered? && me.phase.key == key ==> (me.phase.value == now <==> same))
  {
    hide Run, Step;
    CurrentWhenQuiet(rd, states, actions, i, r, key);
    PinnedUntilBump(rd, states, actions, i, j, r, key);
  }

  /** For every change of a setting there is a run in which a get begun after the write answers the value before it. */
  lemma StaleRun<V, T>(rd: Reading<V, T>, before: map<string, V>, after: map<string, V>, key: string)
    returns (states: seq<System<V, T>>, actions: seq<Action<V>>)
    requires Uncached(rd, before, key) != Uncached(rd, after, key)
    ensures Run(rd, states, actions) && |states| == 8 && |states[7].readers| == 1
    ensures states[5].WellFormed() && states[7].WellFormed()
    ensures actions[5] == Load(0, key) && states[5].Settings() == states[7].Settings() == after
    ensures states[7].readers[0].phase.Answered? && states[7].readers[0].phase.key == key
    ensures states[7].readers[0].phase.value == Uncached(rd, before, key) != Uncached(rd, states[7].Settings(), key)
  {
    var s0 := System([before], [0], {}, [Reader(Idle, map[])]);
    var s1 := Step(rd, s0, Load(0, key));
    var s2 := Step(rd, s1, Fetch(0));
    var s3 := Step(rd, s2, Keep(0));
    var s4 := Step(rd, s3, Return(0));
    var s5 := Step(rd, s4, Write(0, after));
    var s6 := Step(rd, s5, Load(0, key));
    var s7 := Step(rd, s6, Find(0));
    states := [s0, s1, s2, s3, s4, s5, s6, s7];
    actions := [Load(0, key), Fetch(0), Keep(0), Return(0), Write(0, after), Load(0, key), Find(0)];
  }
}

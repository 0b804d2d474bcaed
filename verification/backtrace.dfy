/** The backtrace: an event ring and a trace ring that share one sequence counter, merged on read. */
module Backtrace {
  import opened Words
  import opened RingBuffer
  import opened Numerals

  datatype Entry = Entry(file: seq<byte>, line: int, sequence: nat, message: seq<byte>)
  datatype Kind = Event | Trace
  datatype Push = Push(kind: Kind, entry: Entry)

  const TRACE_CAPACITY: nat := 512
  const EVENT_CAPACITY: nat := 64

  // ---- The history of pushes ----------------------------------------------------------------------

  /** Pushes carry consecutive sequence numbers from 0. */
  predicate Numbered(h: seq<Push>) {
    forall i | 0 <= i < |h| :: h[i].entry.sequence == i
  }

  function Entries(h: seq<Push>): (r: seq<Entry>)
    ensures |r| == |h| && forall i | 0 <= i < |h| :: r[i] == h[i].entry
  {
    seq(|h|, i requires 0 <= i < |h| => h[i].entry)
  }

  /** The entries of one ring, in order. */
  function OfKind(h: seq<Push>, k: Kind): (r: seq<Entry>)
    ensures |r| <= |h|
  {
    if h == [] then []
    else
      var last := h[|h| - 1];
      OfKind(h[..|h| - 1], k) + if last.kind == k then [last.entry] else []
  }

  /** The history in order, keeping the last `e` events and the last `t` traces. */
  function Kept(h: seq<Push>, e: nat, t: nat): (r: seq<Push>)
    ensures |r| <= |h|
  {
    if h == [] then []
    else
      var front, last := h[..|h| - 1], h[|h| - 1];
      if last.kind.Event? then (if e == 0 then Kept(front, e, t) else Kept(front, e - 1, t) + [last])
      else (if t == 0 then Kept(front, e, t) else Kept(front, e, t - 1) + [last])
  }

  predicate Increasing(s: seq<Entry>) {
    forall i, j | 0 <= i < j < |s| :: s[i].sequence < s[j].sequence
  }

  predicate NonDecreasing(s: seq<Entry>) {
    forall i, j | 0 <= i < j < |s| :: s[i].sequence <= s[j].sequence
  }

  predicate Below(s: seq<Entry>, n: nat) {
    forall i | 0 <= i < |s| :: s[i].sequence < n
  }

  lemma {:induction false} KeptIncreases(h: seq<Push>, e: nat, t: nat)
    requires Numbered(h)
    ensures Increasing(Entries(Kept(h, e, t))) && Below(Entries(Kept(h, e, t)), |h|)
  {
    hide Kept, Entries, Increasing, Below;
    KeptUnfolds(h, e, t);
    if h == [] {
      NothingIncreases();
    } else {
      var front, last := h[..|h| - 1], h[|h| - 1];
      if (if last.kind.Event? then e else t) == 0 {
        KeptIncreases(front, e, t);
        BelowMore(Entries(Kept(front, e, t)), |front|);
      } else {
        var e' := if last.kind.Event? then e - 1 else e;
        var t' := if last.kind.Event? then t else t - 1;
        KeptIncreases(front, e', t');
        assert Entries(Kept(front, e', t') + [last]) == Entries(Kept(front, e', t')) + [last.entry];
        IncreasingAppend(Entries(Kept(front, e', t')), last.entry);
      }
    }
  }

  lemma NothingIncreases()
    ensures Increasing([]) && Below([], 0) && Entries([]) == []
  {
  }

  lemma BelowMore(s: seq<Entry>, n: nat)
    requires Below(s, n)
    ensures Below(s, n + 1)
  {
  }

  lemma IncreasingAppend(s: seq<Entry>, x: Entry)
    requires Increasing(s) && Below(s, x.sequence)
    ensures Increasing(s + [x]) && Below(s + [x], x.sequence + 1)
  {
  }

  /** Within a ring, sequence numbers strictly increase. */
  lemma {:induction false} RingIncreases(h: seq<Push>, k: Kind)
    requires Numbered(h)
    ensures Increasing(OfKind(h, k)) && Below(OfKind(h, k), |h|)
  {
    if h != [] {
      RingIncreases(h[..|h| - 1], k);
    }
  }

  lemma LastNAppend<T>(s: seq<T>, x: T, n: nat)
    ensures LastN(s + [x], n) == if n == 0 then [] else LastN(s, n - 1) + [x]
  {
  }

  lemma LastNNothing<T>(s: seq<T>, n: nat)
    ensures LastN(s, 0) == [] && LastN<T>([], n) == []
  {
  }

  /** However many pushes of the other kind there are, a ring keeps its own last entries: traces never evict events. */
  lemma {:induction false} NoEvictionAcrossRings(h: seq<Push>, e: nat, t: nat, k: Kind)
    ensures OfKind(Kept(h, e, t), k) == LastN(OfKind(h, k), if k.Event? then e else t)
  {
    hide LastN, Kept, OfKind;
    var n := if k.Event? then e else t;
    KeptUnfolds(h, e, t);
    OfKindUnfolds(h, k);
    LastNNothing(OfKind(h, k), n);
    if h != [] {
      var front, last := h[..|h| - 1], h[|h| - 1];
      LastNAppend(OfKind(front, k), last.entry, n);
      if (if last.kind.Event? then e else t) == 0 {
        NoEvictionAcrossRings(front, e, t, k);
        LastNNothing(OfKind(front, k), n);
      } else {
        var e' := if last.kind.Event? then e - 1 else e;
        var t' := if last.kind.Event? then t else t - 1;
        NoEvictionAcrossRings(front, e', t', k);
        OfKindAppend(Kept(front, e', t'), last, k);
      }
    }
  }

  lemma KeptUnfolds(h: seq<Push>, e: nat, t: nat)
    ensures h == [] ==> Kept(h, e, t) == []
    ensures h != [] ==>
              var front, last := h[..|h| - 1], h[|h| - 1];
              Kept(h, e, t) ==
              if last.kind.Event? then (if e == 0 then Kept(front, e, t) else Kept(front, e - 1, t) + [last])
              else (if t == 0 then Kept(front, e, t) else Kept(front, e, t - 1) + [last])
  {
  }

  lemma OfKindUnfolds(h: seq<Push>, k: Kind)
    ensures h == [] ==> OfKind(h, k) == []
    ensures h != [] ==>
              var front, last := h[..|h| - 1], h[|h| - 1];
              OfKind(h, k) == if last.kind == k then OfKind(front, k) + [last.entry] else OfKind(front, k)
  {
  }

  lemma OfKindAppend(h: seq<Push>, p: Push, k: Kind)
    ensures OfKind(h + [p], k) == if p.kind == k then OfKind(h, k) + [p.entry] else OfKind(h, k)
  {
    assert (h + [p])[..|h|] == h;
  }

  /** A history is its events and its traces. */
  lemma {:induction false} BothKinds(h: seq<Push>)
    ensures multiset(Entries(h)) == multiset(OfKind(h, Event)) + multiset(OfKind(h, Trace))
  {
    hide OfKind, Entries;
    OfKindUnfolds(h, Event);
    OfKindUnfolds(h, Trace);
    if h == [] {
      assert Entries(h) == [];
    } else {
      var front, last := h[..|h| - 1], h[|h| - 1];
      BothKinds(front);
      assert Entries(h) == Entries(front) + [last.entry];
      if last.kind.Event? {
        assert last.kind != Trace;
      } else {
        assert last.kind == Trace;
      }
    }
  }

  /** A sorted permutation of a strictly increasing sequence is that sequence. */
  lemma {:induction false} SortedUnique(s: seq<Entry>, r: seq<Entry>)
    requires Increasing(s) && NonDecreasing(r) && multiset(s) == multiset(r)
    ensures s == r
  {
    SameSize(s, r);
    if s != [] {
      SameHead(s, r);
      TailMultiset(s);
      TailMultiset(r);
      SortedUnique(s[1..], r[1..]);
    }
  }

  lemma {:induction false} SameHead(s: seq<Entry>, r: seq<Entry>)
    requires Increasing(s) && NonDecreasing(r) && multiset(s) == multiset(r) && s != [] && r != []
    ensures s[0] == r[0]
  {
    assert r[0] in multiset(s) && s[0] in multiset(r);
    var i :| 0 <= i < |s| && s[i] == r[0];
    var j :| 0 <= j < |r| && r[j] == s[0];
  }

  lemma TailMultiset(s: seq<Entry>)
    requires s != []
    ensures multiset(s[1..]) == multiset(s) - multiset{s[0]}
  {
    assert s == [s[0]] + s[1..];
  }

  lemma SameSize(s: seq<Entry>, r: seq<Entry>)
    requires multiset(s) == multiset(r)
    ensures |s| == |r|
  {
    assert |multiset(s)| == |s| && |multiset(r)| == |r|;
  }

  /** The merge of the two rings' contents, however sorted, is the history as `Kept` has it. */
  lemma {:induction false} MergeIsHistory(h: seq<Push>, e: nat, t: nat, r: seq<Entry>)
    requires Numbered(h) && NonDecreasing(r)
    requires multiset(r) == multiset(LastN(OfKind(h, Event), e)) + multiset(LastN(OfKind(h, Trace), t))
    ensures r == Entries(Kept(h, e, t))
  {
    hide Kept, OfKind, Entries, LastN;
    KeptIncreases(h, e, t);
    NoEvictionAcrossRings(h, e, t, Event);
    NoEvictionAcrossRings(h, e, t, Trace);
    BothKinds(Kept(h, e, t));
    SortedUnique(Entries(Kept(h, e, t)), r);
  }

  // ---- Sorting -----------------------------------------------------------------------------------

  method Inserted(r: seq<Entry>, x: Entry) returns (s: seq<Entry>)
    requires NonDecreasing(r)
    ensures NonDecreasing(s) && multiset(s) == multiset(r) + multiset{x}
  {
    hide NonDecreasing;
    var k := |r|;
    while k > 0 && x.sequence < r[k - 1].sequence
      invariant 0 <= k <= |r|
      invariant forall m | k <= m < |r| :: x.sequence < r[m].sequence
    {
      k := k - 1;
    }
    Insert(r, k, x);
    s := r[..k] + [x] + r[k..];
  }

  /** Stands for std::sort with the sequence comparison: an insertion sort. */
  method Sort(entries: seq<Entry>) returns (r: seq<Entry>)
    ensures NonDecreasing(r) && multiset(r) == multiset(entries)
  {
    r := [];
    NothingIncreases();
    for i := 0 to |entries|
      invariant NonDecreasing(r) && multiset(r) == multiset(entries[..i])
    {
      assert entries[..i + 1] == entries[..i] + [entries[i]];
      r := Inserted(r, entries[i]);
    }
    assert entries[..|entries|] == entries;
  }

  lemma {:induction false} Insert(r: seq<Entry>, k: nat, x: Entry)
    requires NonDecreasing(r) && k <= |r|
    requires k > 0 ==> r[k - 1].sequence <= x.sequence
    requires forall m | k <= m < |r| :: x.sequence < r[m].sequence
    ensures NonDecreasing(r[..k] + [x] + r[k..])
    ensures multiset(r[..k] + [x] + r[k..]) == multiset(r) + multiset{x}
  {
    hide NonDecreasing;
    InsertMultiset(r, k, x);
    if k > 0 {
      UpToLast(r, k - 1);
    }
    InsertSorted(r, r[..k] + [x] + r[k..], k, x);
  }

  lemma UpToLast(r: seq<Entry>, k: nat)
    requires NonDecreasing(r) && k < |r|
    ensures forall m | 0 <= m <= k :: r[m].sequence <= r[k].sequence
  {
  }

  lemma InsertMultiset(r: seq<Entry>, k: nat, x: Entry)
    requires k <= |r|
    ensures multiset(r[..k] + [x] + r[k..]) == multiset(r) + multiset{x}
  {
    assert r == r[..k] + r[k..];
  }

  lemma {:induction false} InsertSorted(r: seq<Entry>, s: seq<Entry>, k: nat, x: Entry)
    requires NonDecreasing(r) && k <= |r| && |s| == |r| + 1
    requires forall m | 0 <= m < k :: s[m] == r[m] && r[m].sequence <= x.sequence
    requires s[k] == x
    requires forall m | k < m < |s| :: s[m] == r[m - 1]
    requires forall m | k <= m < |r| :: x.sequence < r[m].sequence
    ensures NonDecreasing(s)
  {
    forall i, j | 0 <= i < j < |s|
      ensures s[i].sequence <= s[j].sequence
    {
      if i < k && j > k {
        assert r[i].sequence <= r[j - 1].sequence;
      }
    }
  }

  // ---- The log's object -----------------------------------------------------------------------------

  function Format(e: Entry): seq<byte> {
    e.file + ([0x3A] + (Signed(e.line) + ([0x3A, 0x20] + e.message)))
  }

  lemma FormatIs(e: Entry)
    ensures Format(e) == e.file + [':' as int] + Signed(e.line) + [':' as int, ' ' as int] + e.message
  {
    hide Signed;
  }

  function FormatAll(es: seq<Entry>): (r: seq<seq<byte>>)
    ensures |r| == |es| && forall i | 0 <= i < |es| :: r[i] == Format(es[i])
  {
    seq(|es|, i requires 0 <= i < |es| => Format(es[i]))
  }

  class Log {
    const traceBuffer: CircularBuffer<Entry>
    const eventBuffer: CircularBuffer<Entry>
    var sequence: nat
    /** Every push, in the order its sequence number was drawn. */
    ghost var history: seq<Push>

    ghost predicate Valid()
      reads this, traceBuffer, eventBuffer, traceBuffer.buffer, eventBuffer.buffer
    {
      && traceBuffer != eventBuffer && traceBuffer.buffer != eventBuffer.buffer
      && traceBuffer.Valid() && traceBuffer.capacity == TRACE_CAPACITY
      && eventBuffer.Valid() && eventBuffer.capacity == EVENT_CAPACITY
      && Numbered(history) && sequence == |history|
      && traceBuffer.written == OfKind(history, Trace)
      && eventBuffer.written == OfKind(history, Event)
    }

    constructor ()
      ensures Valid() && history == []
    {
      Capacities();
      traceBuffer := new CircularBuffer<Entry>(TRACE_CAPACITY);
      eventBuffer := new CircularBuffer<Entry>(EVENT_CAPACITY);
      sequence := 0;
      history := [];
    }

    method PushTraceEntry(file: seq<byte>, line: int, message: seq<byte>)
      requires Valid()
      modifies this, traceBuffer, traceBuffer.buffer
      ensures Valid() && history == old(history) + [Push(Trace, Entry(file, line, old(sequence), message))]
    {
      hide Stored, IsPowerOfTwo;
      var drawn := sequence;
      sequence := sequence + 1;
      traceBuffer.Emplace(_ => Entry(file, line, drawn, message));
      ghost var push := Push(Trace, Entry(file, line, drawn, message));
      OfKindAppend(history, push, Trace);
      OfKindAppend(history, push, Event);
      history := history + [push];
    }

    method PushEventEntry(file: seq<byte>, line: int, message: seq<byte>)
      requires Valid()
      modifies this, eventBuffer, eventBuffer.buffer
      ensures Valid() && history == old(history) + [Push(Event, Entry(file, line, old(sequence), message))]
    {
      hide Stored, IsPowerOfTwo;
      var drawn := sequence;
      sequence := sequence + 1;
      eventBuffer.Emplace(_ => Entry(file, line, drawn, message));
      ghost var push := Push(Event, Entry(file, line, drawn, message));
      OfKindAppend(history, push, Trace);
      OfKindAppend(history, push, Event);
      history := history + [push];
    }

    /** The last 64 events and the last 512 traces, as the whole history interleaved them. */
    method GetBacktrace() returns (backtrace: seq<seq<byte>>)
      requires Valid()
      ensures backtrace == FormatAll(Entries(Kept(history, 64, 512)))
    {
      hide Stored, IsPowerOfTwo, Kept, Entries, OfKind, LastN;
      var entries := eventBuffer.Snapshot();
      var traces := traceBuffer.Snapshot();
      entries := entries + traces;
      entries := Sort(entries);
      MergeIsHistory(history, EVENT_CAPACITY, TRACE_CAPACITY, entries);
      backtrace := [];
      for i := 0 to |entries|
        invariant backtrace == FormatAll(entries[..i])
      {
        var e := entries[i];
        backtrace := backtrace + [e.file + [':' as int] + Signed(e.line) + [':' as int, ' ' as int] + e.message];
        FormatIs(e);
      }
      assert entries[..|entries|] == entries;
    }
  }

  lemma Capacities()
    ensures IsPowerOfTwo(TRACE_CAPACITY) && IsPowerOfTwo(EVENT_CAPACITY)
  {
    assert Pow2(6) == 64;
    assert Pow2(9) == 512;
  }

  // ---- Concurrent pushes ------------------------------------------------------------------------------

  /**
   * Pushes to the two rings run concurrently.  A push holds its ring's lock while it draws a sequence
   * number and until its slot is committed, so each ring has at most one push in flight.
   */
  datatype Shared = Shared(sequence: nat, events: seq<Entry>, traces: seq<Entry>,
                           eventInFlight: seq<Entry>, traceInFlight: seq<Entry>, history: seq<Push>) {
    function Ring(k: Kind): seq<Entry> {
      if k.Event? then events else traces
    }

    function InFlight(k: Kind): seq<Entry> {
      if k.Event? then eventInFlight else traceInFlight
    }
  }

  datatype Step = Draw(kind: Kind, file: seq<byte>, line: int, message: seq<byte>) | Commit(kind: Kind)

  /** A step is possible when the ring's lock allows it. */
  predicate Enabled(s: Shared, step: Step) {
    match step
    case Draw(k, _, _, _) => s.InFlight(k) == []
    case Commit(k) => s.InFlight(k) != []
  }

  function Next(s: Shared, step: Step): Shared
    requires Enabled(s, step)
  {
    match step
    case Draw(k, f, l, m) =>
      var e := Entry(f, l, s.sequence, m);
      var drawn := s.(sequence := s.sequence + 1, history := s.history + [Push(k, e)]);
      if k.Event? then drawn.(eventInFlight := [e]) else drawn.(traceInFlight := [e])
    case Commit(k) =>
      if k.Event? then s.(events := s.events + s.eventInFlight, eventInFlight := [])
      else s.(traces := s.traces + s.traceInFlight, traceInFlight := [])
  }

  const QUIET := Shared(0, [], [], [], [], [])

  predicate Reaches(s: Shared, steps: seq<Step>, t: Shared)
    decreases |steps|
  {
    if steps == [] then s == t
    else Enabled(s, steps[0]) && Reaches(Next(s, steps[0]), steps[1..], t)
  }

  /** Each ring followed by its push in flight is its part of the history. */
  predicate Consistent(s: Shared) {
    && Numbered(s.history) && s.sequence == |s.history|
    && s.events + s.eventInFlight == OfKind(s.history, Event)
    && s.traces + s.traceInFlight == OfKind(s.history, Trace)
  }

  lemma {:induction false} StepKeepsConsistent(s: Shared, step: Step)
    requires Consistent(s) && Enabled(s, step)
    ensures Consistent(Next(s, step)) && s.history <= Next(s, step).history
  {
    hide OfKind;
    match step
    case Draw(k, f, l, m) =>
      var p := Push(k, Entry(f, l, s.sequence, m));
      OfKindAppend(s.history, p, Event);
      OfKindAppend(s.history, p, Trace);
      assert s.events + [] == s.events && s.traces + [] == s.traces;
    case Commit(_) =>
  }

  lemma {:induction false} RunKeepsConsistent(s: Shared, steps: seq<Step>, t: Shared)
    requires Consistent(s) && Reaches(s, steps, t)
    ensures Consistent(t) && s.history <= t.history
    decreases |steps|
  {
    hide Next, Enabled, Consistent;
    if steps != [] {
      StepKeepsConsistent(s, steps[0]);
      RunKeepsConsistent(Next(s, steps[0]), steps[1..], t);
    }
  }

  /** In every reachable state each ring is strictly increasing in sequence. */
  lemma {:induction false} RingsAlwaysIncrease(steps: seq<Step>, t: Shared, k: Kind)
    requires Reaches(QUIET, steps, t)
    ensures Increasing(t.Ring(k))
  {
    hide Increasing, Below, Reaches;
    assert Consistent(QUIET);
    RunKeepsConsistent(QUIET, steps, t);
    RingIncreases(t.history, k);
    IncreasingPrefix(t.Ring(k), t.InFlight(k));
  }

  lemma IncreasingPrefix(s: seq<Entry>, x: seq<Entry>)
    requires Increasing(s + x)
    ensures Increasing(s)
  {
    forall i, j | 0 <= i < j < |s|
      ensures s[i].sequence < s[j].sequence
    {
      assert (s + x)[i].sequence < (s + x)[j].sequence;
    }
  }

  /**
   * Once no push is in flight, however they interleaved, the merged read is the history with its last events and
   * traces.
   */
  lemma {:induction false} QuietReadIsHistory(steps: seq<Step>, t: Shared, r: seq<Entry>)
    requires Reaches(QUIET, steps, t) && t.eventInFlight == [] && t.traceInFlight == []
    requires NonDecreasing(r)
    requires multiset(r) == multiset(LastN(t.events, EVENT_CAPACITY)) + multiset(LastN(t.traces, TRACE_CAPACITY))
    ensures r == Entries(Kept(t.history, EVENT_CAPACITY, TRACE_CAPACITY))
  {
    hide Reaches, LastN, Kept, Entries, NonDecreasing;
    assert Consistent(QUIET);
    RunKeepsConsistent(QUIET, steps, t);
    assert t.events + [] == t.events && t.traces + [] == t.traces;
    MergeIsHistory(t.history, EVENT_CAPACITY, TRACE_CAPACITY, r);
  }

  /**
   * A read racing with pushes takes the events first and the traces later.  What it returns is still in
   * history order without repetition, and every entry was pushed by then.
   */
  lemma {:induction false} RacingReadIsOrdered(before: seq<Step>, s: Shared, during: seq<Step>, t: Shared,
                                               r: seq<Entry>)
    requires Reaches(QUIET, before, s) && Reaches(s, during, t)
    requires NonDecreasing(r)
    requires multiset(r) == multiset(LastN(s.events, EVENT_CAPACITY)) + multiset(LastN(t.traces, TRACE_CAPACITY))
    ensures forall i | 0 <= i < |r| :: r[i].sequence < |t.history| && r[i] == t.history[r[i].sequence].entry
    ensures forall i, j | 0 <= i < j < |r| :: r[i].sequence < r[j].sequence
  {
    hide Reaches, LastN, OfKind, NonDecreasing;
    assert Consistent(QUIET);
    RunKeepsConsistent(QUIET, before, s);
    RunKeepsConsistent(s, during, t);
    var events, traces := LastN(s.events, EVENT_CAPACITY), LastN(t.traces, TRACE_CAPACITY);
    LastNLogged(s.history, s.events, s.eventInFlight, EVENT_CAPACITY, Event);
    LastNLogged(t.history, t.traces, t.traceInFlight, TRACE_CAPACITY, Trace);
    assert Logged(events, t.history, Event);
    LoggedMerge(events, traces, t.history, r);
  }

  /** How many of a ring's entries were pushed after number `q`. */
  function LaterThan(ring: seq<Entry>, q: nat): (n: nat)
    ensures n <= |ring|
  {
    if ring == [] then 0 else LaterThan(ring[..|ring| - 1], q) + if ring[|ring| - 1].sequence > q then 1 else 0
  }

  lemma {:induction false} LaterThanAt(ring: seq<Entry>, i: nat)
    requires Increasing(ring) && i < |ring|
    ensures LaterThan(ring, ring[i].sequence) == |ring| - 1 - i
  {
    var front := ring[..|ring| - 1];
    if i < |front| {
      assert front[i] == ring[i];
      LaterThanAt(front, i);
    } else {
      LaterThanNone(front, ring[i].sequence);
    }
  }

  lemma {:induction false} LaterThanNone(ring: seq<Entry>, q: nat)
    requires Below(ring, q)
    ensures LaterThan(ring, q) == 0
  {
    if ring != [] {
      LaterThanNone(ring[..|ring| - 1], q);
    }
  }

  /** A ring still holds the entries that fewer than its capacity of its own follow. */
  predicate StillHeld(ring: seq<Entry>, n: nat, e: Entry) {
    e in ring && LaterThan(ring, e.sequence) < n
  }

  lemma {:induction false} LastNHeld(ring: seq<Entry>, n: nat, e: Entry)
    requires Increasing(ring)
    ensures e in LastN(ring, n) <==> StillHeld(ring, n, e)
  {
    var last := LastN(ring, n);
    var first := |ring| - |last|;
    assert last == ring[first..];
    if e in ring {
      var i :| 0 <= i < |ring| && ring[i] == e;
      LaterThanAt(ring, i);
      assert i >= first ==> last[i - first] == e;
      if e in last {
        var k :| 0 <= k < |last| && last[k] == e;
        assert ring[first + k].sequence == ring[i].sequence;
      }
    }
  }

  /**
   * What a racing read returns, exactly: the events committed as it took the events, and the traces committed as it
   * took the traces, each unless its ring's capacity of later ones of its kind had overwritten it by then.
   */
  lemma {:induction false} RacingReadContains(before: seq<Step>, s: Shared, during: seq<Step>, t: Shared,
                                              r: seq<Entry>, e: Entry)
    requires Reaches(QUIET, before, s) && Reaches(s, during, t)
    requires multiset(r) == multiset(LastN(s.events, EVENT_CAPACITY)) + multiset(LastN(t.traces, TRACE_CAPACITY))
    ensures e in r <==> StillHeld(s.events, EVENT_CAPACITY, e) || StillHeld(t.traces, TRACE_CAPACITY, e)
  {
    hide LastN, LaterThan, Increasing, Reaches, StillHeld;
    RingsAlwaysIncrease(before, s, Event);
    RunJoins(QUIET, before, s, during, t);
    RingsAlwaysIncrease(before + during, t, Trace);
    LastNHeld(s.events, EVENT_CAPACITY, e);
    LastNHeld(t.traces, TRACE_CAPACITY, e);
    assert e in r <==> e in multiset(r);
  }

  lemma {:induction false} RunJoins(u: Shared, before: seq<Step>, s: Shared, during: seq<Step>, t: Shared)
    requires Reaches(u, before, s) && Reaches(s, during, t)
    ensures Reaches(u, before + during, t)
    decreases |before|
  {
    hide Next, Enabled;
    if before == [] {
      assert before + during == during;
    } else {
      RunJoins(Next(u, before[0]), before[1..], s, during, t);
      assert (before + during)[1..] == before[1..] + during;
    }
  }

  /**
   * What was committed to a ring stays ahead of everything committed later: a trace is missed only if 512 others
   * follow it.
   */
  lemma {:induction false} CommittedStays(s: Shared, during: seq<Step>, t: Shared, k: Kind)
    requires Reaches(s, during, t)
    ensures s.Ring(k) <= t.Ring(k)
    decreases |during|
  {
    hide Enabled;
    if during != [] {
      assert Enabled(s, during[0]);
      assert s.Ring(k) <= Next(s, during[0]).Ring(k);
      CommittedStays(Next(s, during[0]), during[1..], t, k);
    }
  }

  /** Entries of one kind found in the history at their sequence numbers, in strict order. */
  predicate Logged(s: seq<Entry>, h: seq<Push>, k: Kind) {
    && (forall i | 0 <= i < |s| :: s[i].sequence < |h| && h[s[i].sequence] == Push(k, s[i]))
    && Increasing(s)
  }

  lemma {:induction false} KindLogged(h: seq<Push>, k: Kind)
    requires Numbered(h)
    ensures Logged(OfKind(h, k), h, k)
  {
    RingIncreases(h, k);
    if h != [] {
      KindLogged(h[..|h| - 1], k);
    }
  }

  lemma {:induction false} LastNLogged(h: seq<Push>, ring: seq<Entry>, inFlight: seq<Entry>, n: nat, k: Kind)
    requires Numbered(h) && ring + inFlight == OfKind(h, k)
    ensures Logged(LastN(ring, n), h, k)
  {
    KindLogged(h, k);
    var first := |ring| - |LastN(ring, n)|;
    assert LastN(ring, n) == (ring + inFlight)[first..|ring|];
    hide OfKind, LastN;
    LoggedSlice(ring + inFlight, h, k, first, |ring|);
  }

  lemma LoggedSlice(s: seq<Entry>, h: seq<Push>, k: Kind, i: nat, j: nat)
    requires Logged(s, h, k) && i <= j <= |s|
    ensures Logged(s[i..j], h, k)
  {
    var t := s[i..j];
    forall m | 0 <= m < |t|
      ensures t[m] == s[i + m]
    {
    }
  }

  lemma {:induction false} LoggedMerge(events: seq<Entry>, traces: seq<Entry>, h: seq<Push>, r: seq<Entry>)
    requires Numbered(h) && Logged(events, h, Event) && Logged(traces, h, Trace) && NonDecreasing(r)
    requires multiset(r) == multiset(events) + multiset(traces)
    ensures forall i | 0 <= i < |r| :: r[i].sequence < |h| && r[i] == h[r[i].sequence].entry
    ensures forall i, j | 0 <= i < j < |r| :: r[i].sequence < r[j].sequence
  {
    forall i | 0 <= i < |r|
      ensures r[i].sequence < |h| && r[i] == h[r[i].sequence].entry
    {
      assert r[i] in multiset(r);
      assert r[i] in events || r[i] in traces;
    }
    forall i, j | 0 <= i < j < |r|
      ensures r[i].sequence < r[j].sequence
    {
      if r[i].sequence == r[j].sequence {
        var x := r[i];
        assert r[j] == x;
        TwiceIn(r, i, j);
        OnceIn(events, x);
        OnceIn(traces, x);
        assert false;
      }
    }
  }

  lemma {:induction false} TwiceIn(r: seq<Entry>, i: nat, j: nat)
    requires i < j < |r| && r[i] == r[j]
    ensures multiset(r)[r[i]] >= 2
  {
    assert r == r[..j] + r[j..];
    assert r[i] in r[..j] && r[j] in r[j..];
  }

  lemma {:induction false} OnceIn(s: seq<Entry>, x: Entry)
    requires Increasing(s)
    ensures multiset(s)[x] <= 1 && (x !in s ==> multiset(s)[x] == 0)
  {
    if s != [] {
      OnceIn(s[1..], x);
      assert s == [s[0]] + s[1..];
      if s[0] == x {
        assert x !in s[1..];
      }
    }
  }
}

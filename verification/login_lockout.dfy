/** The login lockout: failures counted per address, and the order in which an attempt checks, records and clears. */
module LoginLockout {

  /** Clock readings are in nanoseconds. */
  const WINDOW: int := 60_000_000_000
  const LIMIT: nat := 5

  /** Failures counted, in eight bits, and when the last was recorded. */
  datatype Entry = Entry(count: nat, last: int)

  type Failures = map<string, Entry>

  /** What happened to an attempt the lockout let through. Rejected: a banned account, or a wrong one-time password. */
  datatype Outcome = BadPassword | Rejected | LoggedIn

  /** One attempt, with the clock as it is checked, as its failure is weighed, and as its failure is stamped. */
  datatype Attempt = Attempt(ip: string, check: int, mark: int, stamp: int, outcome: Outcome)

  // ---- What the three operations do to the table --------------------------------------------------------

  predicate LockedOut(f: Failures, ip: string, now: int) {
    ip in f && now <= f[ip].last + WINDOW && f[ip].count >= LIMIT
  }

  /** A check forgets failures older than the window. */
  function Checked(f: Failures, ip: string, now: int): Failures {
    if ip in f && now > f[ip].last + WINDOW then f - {ip} else f
  }

  /** An address without an entry is given one with no failures, at the clock's zero. */
  function Recorded(f: Failures, ip: string, mark: int, stamp: int): Failures {
    var e := if ip in f then f[ip] else Entry(0, 0);
    f[ip := Entry(((if mark > e.last + WINDOW then 0 else e.count) + 1) % 256, stamp)]
  }

  predicate Admitted(f: Failures, a: Attempt) {
    !LockedOut(f, a.ip, a.check)
  }

  function Next(f: Failures, a: Attempt): Failures {
    var checked := Checked(f, a.ip, a.check);
    if !Admitted(f, a) then checked
    else
      match a.outcome
      case BadPassword => Recorded(checked, a.ip, a.mark, a.stamp)
      case Rejected => checked
      case LoggedIn => checked - {a.ip}
  }

  class LoginFailures {
    var failures: Failures

    constructor ()
      ensures failures == map[]
    {
      failures := map[];
    }

    method IsLoginLockedOut(ip: string, now: int) returns (locked: bool)
      modifies this
      ensures failures == Checked(old(failures), ip, now)
      ensures locked == LockedOut(old(failures), ip, now)
    {
      if ip !in failures {
        return false;
      }
      if now > failures[ip].last + WINDOW {
        failures := failures - {ip};
        return false;
      }
      return failures[ip].count >= LIMIT;
    }

    method RecordLoginFailure(ip: string, mark: int, stamp: int)
      modifies this
      ensures failures == Recorded(old(failures), ip, mark, stamp)
    {
      if ip !in failures {
        failures := failures[ip := Entry(0, 0)];
      }
      var count := failures[ip].count;
      if mark > failures[ip].last + WINDOW {
        count := 0;
      }
      count := (count + 1) % 256;
      failures := failures[ip := Entry(count, stamp)];
    }

    method ClearLoginFailures(ip: string)
      modifies this
      ensures failures == old(failures) - {ip}
    {
      failures := failures - {ip};
    }

    /** The LOGIN_ATTEMPT command, as far as the lockout goes. */
    method LoginAttempt(a: Attempt) returns (admitted: bool)
      modifies this
      ensures admitted == Admitted(old(failures), a)
      ensures failures == Next(old(failures), a)
    {
      var locked := IsLoginLockedOut(a.ip, a.check);
      if locked {
        return false;
      }
      match a.outcome {
        case BadPassword => RecordLoginFailure(a.ip, a.mark, a.stamp);
        case Rejected =>
        case LoggedIn => ClearLoginFailures(a.ip);
      }
      return true;
    }
  }

  // ---- Whole runs ------------------------------------------------------------------------------------------

  /** The table after a run of attempts. */
  function After(run: seq<Attempt>): Failures {
    if run == [] then map[] else Next(After(run[..|run| - 1]), run[|run| - 1])
  }

  /** What an address' attempts left behind: recorded failures and successful logins. */
  datatype Event = Failed(mark: int, stamp: int) | Cleared

  function EventsOf(f: Failures, a: Attempt, ip: string): (h: seq<Event>)
    ensures |h| <= 1
  {
    if a.ip != ip || !Admitted(f, a) then []
    else
      match a.outcome
      case BadPassword => [Failed(a.mark, a.stamp)]
      case Rejected => []
      case LoggedIn => [Cleared]
  }

  function History(run: seq<Attempt>, ip: string): seq<Event> {
    if run == [] then []
    else
      var before := run[..|run| - 1];
      History(before, ip) + EventsOf(After(before), run[|run| - 1], ip)
  }

  /** The clock does not run backwards, and attempts are handled one after the other. */
  predicate Clocked(run: seq<Attempt>) {
    && (forall i | 0 <= i < |run| :: run[i].check <= run[i].mark <= run[i].stamp)
    && (forall i, j | 0 <= i < j < |run| :: run[i].stamp <= run[j].check)
  }

  /** The failures at the end of a history, each no more than the window after the one before it. */
  function Streak(h: seq<Event>): (n: nat)
    ensures n <= |h|
  {
    if h == [] || h[|h| - 1].Cleared? then 0
    else
      var before := h[..|h| - 1];
      1 + if Recent(before, h[|h| - 1].mark) then Streak(before) else 0
  }

  /** A history's last event is a failure, at most the window ago. */
  predicate Recent(h: seq<Event>, now: int) {
    h != [] && h[|h| - 1].Failed? && now <= h[|h| - 1].stamp + WINDOW
  }

  /** An address' entry, against its history. */
  predicate EntryTells(f: Failures, ip: string, h: seq<Event>, now: int) {
    if ip in f then h != [] && h[|h| - 1].Failed? && f[ip] == Entry(Streak(h), h[|h| - 1].stamp)
    else !Recent(h, now)
  }

  // ---- One attempt ---------------------------------------------------------------------------------------------

  lemma StreakOfOneMore(h: seq<Event>, e: Event)
    ensures Streak(h + [e]) == if e.Cleared? then 0 else 1 + if Recent(h, e.mark) then Streak(h) else 0
  {
    assert (h + [e])[..|h|] == h;
  }

  lemma CheckTells(f: Failures, ip: string, h: seq<Event>, now: int)
    requires EntryTells(f, ip, h, now) && Streak(h) <= LIMIT
    ensures EntryTells(Checked(f, ip, now), ip, h, now)
    ensures ip in Checked(f, ip, now) ==> Recent(h, now)
    ensures LockedOut(f, ip, now) <==> Recent(h, now) && Streak(h) == LIMIT
  {
    hide Streak;
  }

  lemma RecordTells(f: Failures, ip: string, h: seq<Event>, mark: int, stamp: int)
    requires EntryTells(f, ip, h, mark) && mark <= stamp
    requires Streak(h) <= LIMIT && !(Recent(h, mark) && Streak(h) == LIMIT)
    ensures EntryTells(Recorded(f, ip, mark, stamp), ip, h + [Failed(mark, stamp)], stamp)
    ensures Streak(h + [Failed(mark, stamp)]) <= LIMIT
  {
    StreakOfOneMore(h, Failed(mark, stamp));
    hide Streak;
  }

  /** One attempt of the address itself keeps entry and history together, and the streak within the limit. */
  lemma OwnAttempt(f: Failures, a: Attempt, h: seq<Event>, now: int)
    requires now <= a.check <= a.mark <= a.stamp
    requires EntryTells(f, a.ip, h, now) && Streak(h) <= LIMIT
    ensures Admitted(f, a) <==> !(Recent(h, a.check) && Streak(h) == LIMIT)
    ensures var h' := h + EventsOf(f, a, a.ip); EntryTells(Next(f, a), a.ip, h', a.stamp) && Streak(h') <= LIMIT
  {
    hide Streak, Recorded, Checked, LockedOut;
    assert h + [] == h;
    assert EntryTells(f, a.ip, h, a.check);
    CheckTells(f, a.ip, h, a.check);
    var checked := Checked(f, a.ip, a.check);
    if Admitted(f, a) && a.outcome.BadPassword? {
      RecordTells(checked, a.ip, h, a.mark, a.stamp);
    }
    StreakOfOneMore(h, Cleared);
  }

  lemma OthersAttempt(f: Failures, a: Attempt, ip: string, h: seq<Event>, now: int)
    requires ip != a.ip && now <= a.stamp && EntryTells(f, ip, h, now)
    ensures h + EventsOf(f, a, ip) == h && EntryTells(Next(f, a), ip, h, a.stamp)
  {
  }

  // ---- Every run -------------------------------------------------------------------------------------------------

  /** At every moment of every run, an address' entry tells its history. */
  lemma {:induction false} RunTells(run: seq<Attempt>, ip: string, now: int)
    requires Clocked(run) && (run != [] ==> run[|run| - 1].stamp <= now)
    ensures EntryTells(After(run), ip, History(run, ip), now) && Streak(History(run, ip)) <= LIMIT
  {
    if run != [] {
      var before, a := run[..|run| - 1], run[|run| - 1];
      RunTells(before, ip, a.check);
      var f, h := After(before), History(before, ip);
      if a.ip == ip {
        OwnAttempt(f, a, h, a.check);
      } else {
        OthersAttempt(f, a, ip, h, a.check);
      }
    }
  }

  /** No address is ever charged more than five failures, so its eight-bit count never wraps. */
  lemma CountWithinLimit(run: seq<Attempt>, ip: string)
    requires Clocked(run) && ip in After(run)
    ensures 1 <= After(run)[ip].count <= 5
  {
    RunTells(run, ip, if run == [] then 0 else run[|run| - 1].stamp);
    var h := History(run, ip);
    assert 1 <= Streak(h);
  }

  /** The last `m` events are failures, each weighed at most 60 seconds after the one before it was stamped. */
  predicate RunTogether(h: seq<Event>, m: nat) {
    && m <= |h|
    && (forall k | |h| - m <= k < |h| :: h[k].Failed?)
    && (forall k | |h| - m < k < |h| :: h[k].mark <= h[k - 1].stamp + 60_000_000_000)
  }

  lemma {:induction false} StreakRunsTogether(h: seq<Event>, m: nat)
    ensures Streak(h) >= m <==> RunTogether(h, m)
  {
    if m > 0 && h != [] && h[|h| - 1].Failed? {
      var front, last := h[..|h| - 1], h[|h| - 1];
      StreakRunsTogether(front, m - 1);
      assert forall k | 0 <= k < |front| :: front[k] == h[k];
      assert Streak(h) == 1 + if Recent(front, last.mark) then Streak(front) else 0;
      hide Streak;
      if m > 1 && RunTogether(h, m) {
        assert h[|h| - 2].Failed? && last.mark <= h[|h| - 2].stamp + 60_000_000_000;
        assert front[|front| - 1] == h[|h| - 2];
        assert RunTogether(front, m - 1);
      }
      if m > 1 && RunTogether(front, m - 1) && Recent(front, last.mark) {
        forall k | |h| - m <= k < |h|
          ensures h[k].Failed? && (k > |h| - m ==> h[k].mark <= h[k - 1].stamp + 60_000_000_000)
        {
          if k < |front| {
            assert front[k].Failed?;
          }
        }
      }
    }
  }

  /**
   * After any run, an attempt is refused if and only if the address' last five events are failures that run together
   * within 60 seconds of one another, and the last was stamped no more than 60 seconds ago.
   */
  lemma RefusedIff(run: seq<Attempt>, a: Attempt)
    requires Clocked(run + [a])
    ensures var h := History(run, a.ip);
            !Admitted(After(run), a) <==> RunTogether(h, 5) && a.check <= h[|h| - 1].stamp + 60_000_000_000
  {
    StreakRunsTogether(History(run, a.ip), 5);
    hide RunTogether;
    assert (run + [a])[..|run|] == run;
    assert (run + [a])[|run|] == a;
    assert Clocked(run) by {
      assert forall i | 0 <= i < |run| :: (run + [a])[i] == run[i];
    }
    assert run != [] ==> run[|run| - 1].stamp <= a.check by {
      assert run != [] ==> (run + [a])[|run| - 1] == run[|run| - 1];
    }
    RunTells(run, a.ip, a.check);
    OwnAttempt(After(run), a, History(run, a.ip), a.check);
  }

  /** An address is let in again once the window has passed since its last recorded failure. */
  lemma ReadmittedAfterWindow(run: seq<Attempt>, a: Attempt)
    requires Clocked(run + [a])
    requires var h := History(run, a.ip); h != [] && h[|h| - 1].Failed? ==> a.check > h[|h| - 1].stamp + 60_000_000_000
    ensures Admitted(After(run), a)
  {
    RefusedIff(run, a);
  }

  // ---- At most five failures in a window ------------------------------------------------------------------------

  /** A history's failures are in clock order, and none is later than now. */
  ghost predicate InOrder(h: seq<Event>, now: int) {
    && (forall i | 0 <= i < |h| && h[i].Failed? :: h[i].mark <= h[i].stamp <= now)
    && (forall i, j | 0 <= i < j < |h| && h[i].Failed? && h[j].Failed? :: h[i].stamp <= h[j].mark)
  }

  lemma {:induction false} HistoryInOrder(run: seq<Attempt>, ip: string, now: int)
    requires Clocked(run) && (run != [] ==> run[|run| - 1].stamp <= now)
    ensures InOrder(History(run, ip), now)
  {
    if run != [] {
      var a := run[|run| - 1];
      HistoryInOrder(run[..|run| - 1], ip, a.check);
    }
  }

  lemma {:induction false} StreaksWithinLimit(run: seq<Attempt>, ip: string, k: nat)
    requires Clocked(run) && k <= |History(run, ip)|
    ensures Streak(History(run, ip)[..k]) <= LIMIT
  {
    var h := History(run, ip);
    if k == |h| {
      assert h[..k] == h;
      RunTells(run, ip, if run == [] then 0 else run[|run| - 1].stamp);
    } else {
      var before := run[..|run| - 1];
      StreaksWithinLimit(before, ip, k);
      assert h[..k] == History(before, ip)[..k];
    }
  }

  /** Failures that lie within one window, with no login between them, all belong to the streak. */
  lemma {:induction false} StreakSpans(h: seq<Event>, i: nat, j: nat, now: int)
    requires i < j <= |h| && InOrder(h, now)
    requires forall k | i <= k < j :: h[k].Failed?
    requires h[j - 1].stamp <= h[i].stamp + WINDOW
    ensures Streak(h[..j]) >= j - i
  {
    assert h[..j] == h[..j - 1] + [h[j - 1]];
    StreakOfOneMore(h[..j - 1], h[j - 1]);
    if i < j - 1 {
      StreakSpans(h, i, j - 1, now);
      assert h[i].stamp <= h[j - 2].stamp;
    }
  }

  /** Over any run, no span of the window's length without a successful login holds more than five failures. */
  lemma FiveInAWindow(run: seq<Attempt>, ip: string, i: nat, j: nat)
    requires Clocked(run) && i < j <= |History(run, ip)|
    requires forall k | i <= k < j :: History(run, ip)[k].Failed?
    requires History(run, ip)[j - 1].stamp <= History(run, ip)[i].stamp + 60_000_000_000
    ensures j - i <= 5
  {
    var now := if run == [] then 0 else run[|run| - 1].stamp;
    HistoryInOrder(run, ip, now);
    StreakSpans(History(run, ip), i, j, now);
    StreaksWithinLimit(run, ip, j);
  }

  // ---- Addresses do not disturb one another ---------------------------------------------------------------------

  /** The attempts of one address. */
  function Only(run: seq<Attempt>, ip: string): seq<Attempt> {
    if run == [] then []
    else
      var a := run[|run| - 1];
      Only(run[..|run| - 1], ip) + if a.ip == ip then [a] else []
  }

  predicate SameEntry(f: Failures, g: Failures, ip: string) {
    (ip in f <==> ip in g) && (ip in f ==> f[ip] == g[ip])
  }

  lemma SameNext(f: Failures, g: Failures, a: Attempt)
    requires SameEntry(f, g, a.ip)
    ensures SameEntry(Next(f, a), Next(g, a), a.ip) && EventsOf(f, a, a.ip) == EventsOf(g, a, a.ip)
  {
    assert SameEntry(Checked(f, a.ip, a.check), Checked(g, a.ip, a.check), a.ip);
  }

  lemma OtherNext(f: Failures, a: Attempt, ip: string)
    requires a.ip != ip
    ensures SameEntry(Next(f, a), f, ip) && EventsOf(f, a, ip) == []
  {
  }

  lemma OneMore(run: seq<Attempt>, a: Attempt, ip: string)
    ensures After(run + [a]) == Next(After(run), a)
    ensures History(run + [a], ip) == History(run, ip) + EventsOf(After(run), a, ip)
    ensures Only(run + [a], ip) == if a.ip == ip then Only(run, ip) + [a] else Only(run, ip)
  {
    assert (run + [a])[..|run|] == run;
  }

  /** An address' entry and history come from its own attempts alone. */
  lemma {:induction false} OthersDoNotMatter(run: seq<Attempt>, ip: string)
    ensures SameEntry(After(run), After(Only(run, ip)), ip)
    ensures History(run, ip) == History(Only(run, ip), ip)
  {
    if run != [] {
      hide After, History, Only, Next, EventsOf;
      var before, a := run[..|run| - 1], run[|run| - 1];
      OthersDoNotMatter(before, ip);
      assert run == before + [a];
      OneMore(before, a, ip);
      if a.ip == ip {
        OneMore(Only(before, ip), a, ip);
        SameNext(After(before), After(Only(before, ip)), a);
      } else {
        OtherNext(After(before), a, ip);
      }
    }
  }
}

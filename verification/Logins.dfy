/** Login lockout: the web handler clears the failure count when a lock has run out, the Go handler
    does not.  Times are whole seconds on one clock. */
module Logins {
  import opened Options
  import opened Spans

  const MAX_ATTEMPTS := 5
  const LOCKOUT := 30 * 60

  datatype Account = Account(active: bool, failed: int, lockedUntil: Option<int>)

  datatype Engine = Web | Go

  /** One request: which handler gets it and when, whether both fields are filled in, whether the password
      is right. */
  datatype Attempt = Attempt(engine: Engine, at: int, given: bool, correct: bool)

  datatype Answer =
    | BadRequest
    | Refused              // unknown or inactive account
    | Locked
    | Wrong(failed: int)
    | Welcome

  predicate IsLocked(a: Account, now: int) {
    a.lockedUntil.Some? && a.lockedUntil.value > now
  }

  /** The effect of one request on the account. */
  function Step(a: Account, x: Attempt): (Answer, Account) {
    if !x.given then (BadRequest, a)
    else if !a.active then (Refused, a)
    else if IsLocked(a, x.at) then (Locked, a)
    else
      var b := if x.engine == Web && a.lockedUntil.Some? then Account(a.active, 0, None) else a;
      if x.correct then (Welcome, Account(a.active, 0, None))
      else (Wrong(b.failed + 1),
            Account(a.active, b.failed + 1, if b.failed + 1 >= MAX_ATTEMPTS then Some(x.at + LOCKOUT) else b.lockedUntil))
  }

  /** The password hash was compared. */
  predicate Compared(r: Answer) {
    r.Wrong? || r.Welcome?
  }

  // ---------- the handlers ----------

  /** A row of the users table. */
  class User {
    var active: bool
    var failed: int
    var lockedUntil: Option<int>

    ghost function View(): Account
      reads this
    {
      Account(active, failed, lockedUntil)
    }

    constructor ()
      ensures View() == Account(true, 0, None)
    {
      active, failed, lockedUntil := true, 0, None;
    }

    /** The web handler; failedAttempts is its own copy of the count. */
    method WebLogin(now: int, given: bool, correct: bool) returns (r: Answer)
      modifies this`failed, this`lockedUntil
      ensures (r, View()) == Step(old(View()), Attempt(Web, now, given, correct))
    {
      if !given { return BadRequest; }
      if !active { return Refused; }
      var failedAttempts := failed;
      if lockedUntil.Some? {
        if lockedUntil.value > now { return Locked; }
        failed, lockedUntil := 0, None;
        failedAttempts := 0;
      }
      if !correct {
        var attempts := failedAttempts + 1;
        failed := attempts;
        if attempts >= MAX_ATTEMPTS { lockedUntil := Some(now + LOCKOUT); }
        return Wrong(attempts);
      }
      failed, lockedUntil := 0, None;
      return Welcome;
    }

    /** The Go handler. */
    method GoLogin(now: int, given: bool, correct: bool) returns (r: Answer)
      modifies this`failed, this`lockedUntil
      ensures (r, View()) == Step(old(View()), Attempt(Go, now, given, correct))
    {
      if !given { return BadRequest; }
      if !active { return Refused; }
      if lockedUntil.Some? && lockedUntil.value > now { return Locked; }
      if !correct {
        var f := failed + 1;
        failed := f;
        if f >= 5 { lockedUntil := Some(now + LOCKOUT); }
        return Wrong(f);
      }
      failed, lockedUntil := 0, None;
      return Welcome;
    }
  }

  // ---------- runs ----------

  function Run(a: Account, xs: seq<Attempt>): Account
    decreases |xs|
  {
    if xs == [] then a else Run(Step(a, xs[0]).1, xs[1..])
  }

  function Comparisons(a: Account, xs: seq<Attempt>): nat
    decreases |xs|
  {
    if xs == [] then 0
    else (if Compared(Step(a, xs[0]).0) then 1 else 0) + Comparisons(Step(a, xs[0]).1, xs[1..])
  }

  predicate NoSuccess(a: Account, xs: seq<Attempt>)
    decreases |xs|
  {
    xs == [] || (!Step(a, xs[0]).0.Welcome? && NoSuccess(Step(a, xs[0]).1, xs[1..]))
  }

  /** Requests arrive in order of time, within from .. to. */
  predicate Within(xs: seq<Attempt>, from: int, to: int)
    decreases |xs|
  {
    xs == [] || (from <= xs[0].at <= to && Within(xs[1..], xs[0].at, to))
  }

  /** All requests go to one handler. */
  ghost predicate Only(e: Engine, xs: seq<Attempt>) {
    forall x :: x in xs ==> x.engine == e
  }

  /** A lock time is set exactly from the fifth failure on. */
  ghost predicate LockMatches(a: Account) {
    a.failed >= 0 && (a.lockedUntil.Some? <==> a.failed >= MAX_ATTEMPTS)
  }

  lemma StepKeepsLock(a: Account, x: Attempt)
    requires LockMatches(a)
    ensures LockMatches(Step(a, x).1)
    ensures x.engine == Web && a.failed <= MAX_ATTEMPTS ==> Step(a, x).1.failed <= MAX_ATTEMPTS
  {
  }

  lemma {:induction false} RunKeepsLock(a: Account, xs: seq<Attempt>)
    requires LockMatches(a)
    ensures LockMatches(Run(a, xs))
    ensures Only(Web, xs) && a.failed <= MAX_ATTEMPTS ==> Run(a, xs).failed <= MAX_ATTEMPTS
    decreases |xs|
  {
    hide LockMatches, Step;
    if xs != [] {
      StepKeepsLock(a, xs[0]);
      RunKeepsLock(Step(a, xs[0]).1, xs[1..]);
    }
  }

  /** After every request, to either handler, a lock time is set exactly from five failures on. */
  lemma LockFromFive(active: bool, xs: seq<Attempt>)
    ensures var a := Run(Account(active, 0, None), xs);
            a.lockedUntil.Some? <==> a.failed >= MAX_ATTEMPTS
  {
    RunKeepsLock(Account(active, 0, None), xs);
  }

  /** Where the web handler gets them all, exactly when failed_attempts is 5. */
  lemma WebLockIsFive(active: bool, xs: seq<Attempt>)
    requires Only(Web, xs)
    ensures var a := Run(Account(active, 0, None), xs);
            a.lockedUntil.Some? <==> a.failed == MAX_ATTEMPTS
  {
    RunKeepsLock(Account(active, 0, None), xs);
  }

  function Wrongs(n: nat, at: int): seq<Attempt> {
    seq(n, _ => Attempt(Web, at, true, false))
  }

  lemma {:induction false} WrongsCount(n: nat, at: int, failed: int)
    requires 0 <= failed && failed + n <= MAX_ATTEMPTS && n > 0
    ensures Run(Account(true, failed, None), Wrongs(n, at)) ==
              Account(true, failed + n, if failed + n == MAX_ATTEMPTS then Some(at + LOCKOUT) else None)
    decreases n
  {
    var xs := Wrongs(n, at);
    assert xs[1..] == Wrongs(n - 1, at);
    if n > 1 { WrongsCount(n - 1, at, failed + 1); }
  }

  /** Not so on an account both handlers see: the Go handler locks again at six. */
  lemma GoLocksPastFive()
    ensures var a := Run(Account(true, 0, None), Wrongs(5, 0));
            a.failed == 5 && Step(a, Attempt(Go, LOCKOUT, true, false)) == (Wrong(6), Account(true, 6, Some(2 * LOCKOUT)))
  {
    WrongsCount(5, 0, 0);
  }

  // ---------- how many passwords are compared ----------

  /** How many comparisons a lock that runs out makes room for: five if the web handler may get the next
      request, one if it is the Go handler. */
  predicate MakesRoom(per: int, xs: seq<Attempt>) {
    per == MAX_ATTEMPTS || (per == 1 && forall i :: 0 <= i < |xs| ==> xs[i].engine == Go)
  }

  function Lockouts(len: int): int {
    len / LOCKOUT
  }

  /** The comparisons an account can still undergo from now to the end of a span without a success. */
  ghost function Budget(per: int, a: Account, now: int, end: int): int {
    if a.lockedUntil.None? then MAX_ATTEMPTS - a.failed + per * Lockouts(end - now)
    else if end < a.lockedUntil.value then 0
    else
      var from := if a.lockedUntil.value < now then now else a.lockedUntil.value;
      per * (1 + Lockouts(end - from))
  }

  lemma LockoutsMonotone(shorter: int, longer: int)
    requires 0 <= shorter <= longer
    ensures 0 <= Lockouts(shorter) <= Lockouts(longer)
  {
  }

  lemma OneLockout(len: int)
    ensures Lockouts(len) == Lockouts(len - LOCKOUT) + 1
  {
    OneLess(len, LOCKOUT);
  }

  lemma TimePasses(per: int, a: Account, now: int, later: int, end: int)
    requires now <= later <= end && (per == 1 || per == MAX_ATTEMPTS)
    ensures Budget(per, a, later, end) <= Budget(per, a, now, end)
    ensures LockMatches(a) ==> Budget(per, a, now, end) >= 0
  {
    hide Lockouts;
    LockoutsMonotone(end - later, end - now);
    if a.lockedUntil.Some? && a.lockedUntil.value <= end {
      var u := a.lockedUntil.value;
      LockoutsMonotone(end - (if u < later then later else u), end - (if u < now then now else u));
    }
  }

  /** A comparison that fails is paid for by the budget. */
  lemma StepSpends(per: int, a: Account, x: Attempt, end: int)
    requires LockMatches(a) && MakesRoom(per, [x]) && x.at <= end && !Step(a, x).0.Welcome?
    ensures var (r, b) := Step(a, x);
            (if Compared(r) then 1 else 0) + Budget(per, b, x.at, end) <= Budget(per, a, x.at, end)
  {
    assert per == 1 ==> [x][0].engine == Go;
    hide Lockouts;
    OneLockout(end - x.at);
    LockoutsMonotone(0, end - x.at);
  }

  lemma {:induction false} RunSpends(per: int, a: Account, xs: seq<Attempt>, now: int, end: int)
    requires LockMatches(a) && MakesRoom(per, xs) && now <= end && Within(xs, now, end) && NoSuccess(a, xs)
    ensures Comparisons(a, xs) <= Budget(per, a, now, end)
    decreases |xs|
  {
    hide LockMatches, Step, Budget, Compared;
    TimePasses(per, a, now, now, end);
    if xs != [] {
      var x := xs[0];
      TimePasses(per, a, now, x.at, end);
      StepSpends(per, a, x, end);
      StepKeepsLock(a, x);
      RunSpends(per, Step(a, x).1, xs[1..], x.at, end);
    }
  }

  /** In any span without a success an account undergoes at most five comparisons a lockout begun, whichever
      handlers get the requests, before and in the span. */
  lemma AnyComparisons(active: bool, before: seq<Attempt>, xs: seq<Attempt>, start: int, len: nat)
    requires var a := Run(Account(active, 0, None), before);
             Within(xs, start, start + len) && NoSuccess(a, xs)
    ensures var a := Run(Account(active, 0, None), before);
            Comparisons(a, xs) <= 5 * (len / LOCKOUT + 1)
  {
    SpanBound(MAX_ATTEMPTS, active, before, xs, start, len);
  }

  /** Where the Go handler gets those of the span, five, and one more for each lock that runs out. */
  lemma GoComparisons(active: bool, before: seq<Attempt>, xs: seq<Attempt>, start: int, len: nat)
    requires var a := Run(Account(active, 0, None), before);
             Only(Go, xs) && Within(xs, start, start + len) && NoSuccess(a, xs)
    ensures var a := Run(Account(active, 0, None), before);
            Comparisons(a, xs) <= 5 + len / LOCKOUT
  {
    SpanBound(1, active, before, xs, start, len);
  }

  lemma SpanBound(per: int, active: bool, before: seq<Attempt>, xs: seq<Attempt>, start: int, len: nat)
    requires var a := Run(Account(active, 0, None), before);
             MakesRoom(per, xs) && Within(xs, start, start + len) && NoSuccess(a, xs)
    ensures var a := Run(Account(active, 0, None), before);
            Comparisons(a, xs) <= MAX_ATTEMPTS + per * Lockouts(len)
  {
    hide Lockouts;
    var a := Run(Account(active, 0, None), before);
    RunKeepsLock(Account(active, 0, None), before);
    RunSpends(per, a, xs, start, start + len);
    LockoutsMonotone(0, len);
    if a.lockedUntil.Some? && a.lockedUntil.value <= start + len {
      var u := a.lockedUntil.value;
      LockoutsMonotone(start + len - (if u < start then start else u), len);
    }
  }

  // ---------- what the count counts ----------

  /** Wrong passwords compared since the last success. */
  function WrongSinceSuccess(a: Account, xs: seq<Attempt>, sofar: int): int
    decreases |xs|
  {
    if xs == [] then sofar
    else
      var (r, b) := Step(a, xs[0]);
      WrongSinceSuccess(b, xs[1..], if r.Welcome? then 0 else if r.Wrong? then sofar + 1 else sofar)
  }

  /** The Go login never forgets a failure: failed_attempts is the number of wrong passwords compared
      since the last success, however many locks have run out. */
  lemma {:induction false} GoCountsEveryFailure(a: Account, xs: seq<Attempt>)
    requires Only(Go, xs)
    ensures Run(a, xs).failed == WrongSinceSuccess(a, xs, a.failed)
    decreases |xs|
  {
    if xs != [] {
      assert xs[0] in xs;
      GoCountsEveryFailure(Step(a, xs[0]).1, xs[1..]);
    }
  }

  // ---------- when a request is refused as locked ----------

  /** Neither handler answers an active account as locked from its lock time on: the right password is
      welcome and clears the account, and a wrong one is counted, by the web handler from one again. */
  lemma LockRunsOut(a: Account, x: Attempt)
    requires x.given && a.active && (a.lockedUntil == None || a.lockedUntil.value <= x.at)
    ensures x.correct ==> Step(a, x) == (Welcome, Account(true, 0, None))
    ensures !x.correct ==>
              Step(a, x).0 == Wrong(if x.engine == Web && a.lockedUntil != None then 1 else a.failed + 1)
    ensures !x.correct ==> Step(a, x).0 == Wrong(Step(a, x).1.failed)
  {
  }

  /** When the last wrong answer from the fifth on was given, if no success came after it. */
  function LastLock(a: Account, xs: seq<Attempt>, last: Option<int>): Option<int>
    decreases |xs|
  {
    if xs == [] then last
    else
      var (r, b) := Step(a, xs[0]);
      LastLock(b, xs[1..], match r
                           case Wrong(n) => if n >= 5 then Some(xs[0].at) else last
                           case Welcome => None
                           case _ => last)
  }

  /** What the account and the last lock have to do with each other, at this time and later. */
  ghost predicate LockIsLast(a: Account, last: Option<int>, now: int) {
    match a.lockedUntil
    case Some(u) => last == Some(u - 1800)
    case None => last.Some? ==> now - last.value >= 1800
  }

  lemma {:induction false} RunLockIsLast(a: Account, xs: seq<Attempt>, last: Option<int>, now: int, end: int)
    requires LockIsLast(a, last, now) && now <= end && Within(xs, now, end)
    ensures LockIsLast(Run(a, xs), LastLock(a, xs, last), end)
    ensures Run(a, xs).active == a.active
    decreases |xs|
  {
    if xs != [] {
      assert LockIsLast(Step(a, xs[0]).1, LastLock(a, xs[..1], last), xs[0].at);
      RunLockIsLast(Step(a, xs[0]).1, xs[1..], LastLock(a, xs[..1], last), xs[0].at, end);
    }
  }

  /** Over any run of requests to both handlers, in order of time, the next one is bad exactly when it is not
      filled in and refused exactly when the account is inactive; otherwise it is answered as locked if and
      only if less than 1800 seconds have passed since the last wrong answer from the fifth on, with no
      success since, and if it is not, welcomed exactly when the password is right, which clears the account. */
  lemma LockedExactly(active: bool, xs: seq<Attempt>, start: int, x: Attempt)
    requires Within(xs, start, x.at) && start <= x.at
    ensures var a := Account(active, 0, None);
            var last := LastLock(a, xs, None);
            var locked := last.Some? && x.at - last.value < 1800;
            && (Step(Run(a, xs), x).0 == BadRequest <==> !x.given)
            && (Step(Run(a, xs), x).0 == Refused <==> x.given && !active)
            && (Step(Run(a, xs), x).0 == Locked <==> x.given && active && locked)
            && (Step(Run(a, xs), x).0 == Welcome <==> x.given && active && !locked && x.correct)
            && (Step(Run(a, xs), x).0 == Welcome ==> Run(a, xs + [x]) == a)
  {
    RunLockIsLast(Account(active, 0, None), xs, None, start, x.at);
    RunSnoc(Account(active, 0, None), xs, x);
  }

  lemma {:induction false} RunSnoc(a: Account, xs: seq<Attempt>, x: Attempt)
    ensures Run(a, xs + [x]) == Step(Run(a, xs), x).1
    decreases |xs|
  {
    hide Step;
    if xs == [] {
      assert (xs + [x])[1..] == [];
    } else {
      assert (xs + [x])[1..] == xs[1..] + [x];
      RunSnoc(Step(a, xs[0]).1, xs[1..], x);
    }
  }
}

/** The host's wait for a CONFIG confirmation: poll, retry every five milliseconds, give up at the deadline. */
module StateControl {
  import L = LinkState
  import opened Bytes

  const RETRY_MS := 5

  /** One turn of the loop: the clock, the confirmed mode and the number of confirmations it sees. */
  datatype Poll = Poll(now: nat, mode: L.Mode, confirmations: nat)

  /** `Waiting` stands for a loop that is still polling when the given polls end. */
  datatype Result = Ok | InvalidArgument | UnexpectedState | Timeout | Waiting

  /** A monotonic clock read at the start and at every poll. */
  ghost predicate Monotonic(polls: seq<Poll>, started: nat) {
    && (forall i :: 0 <= i < |polls| ==> started <= polls[i].now)
    && forall i, j :: 0 <= i < j < |polls| ==> polls[i].now <= polls[j].now
  }

  /** The loop goes past the first `n` polls. */
  ghost predicate Passes(polls: seq<Poll>, n: nat, goal: Poll -> bool, deadline: nat)
    requires n <= |polls|
  {
    forall i :: 0 <= i < n ==> !goal(polls[i]) && polls[i].now < deadline
  }

  /** How the loop ends is decided by its first poll that sees the goal or the deadline; the goal wins a tie. */
  ghost predicate Decided(polls: seq<Poll>, goal: Poll -> bool, deadline: nat, result: Result, n: nat) {
    n <= |polls| && Passes(polls, n, goal, deadline) &&
    match result
    case Ok => n < |polls| && goal(polls[n])
    case Timeout => n < |polls| && !goal(polls[n]) && polls[n].now >= deadline
    case Waiting => n == |polls|
    case _ => false
  }

  ghost predicate Spaced(attempts: seq<nat>) {
    forall i, j :: 0 <= i < j < |attempts| ==> attempts[j] >= attempts[i] + RETRY_MS
  }

  /** Some attempt was made at `now` or less than one retry interval before it. */
  ghost predicate Covered(attempts: seq<nat>, now: nat) {
    exists k :: 0 <= k < |attempts| && attempts[k] <= now < attempts[k] + RETRY_MS
  }

  lemma AttemptAdded(attempts: seq<nat>, now: nat)
    requires Spaced(attempts) && (attempts != [] ==> now >= attempts[|attempts| - 1] + RETRY_MS)
    ensures Spaced(attempts + [now]) && Covered(attempts + [now], now)
    ensures forall t: nat :: Covered(attempts, t) ==> Covered(attempts + [now], t)
  {
    var more := attempts + [now];
    assert more[|attempts|] == now;
    forall t: nat | Covered(attempts, t)
      ensures Covered(more, t)
    {
      var k :| 0 <= k < |attempts| && attempts[k] <= t < attempts[k] + RETRY_MS;
      assert more[k] == attempts[k];
    }
    forall i | 0 <= i < |attempts|
      ensures now >= more[i] + RETRY_MS
    {
      assert more[i] == attempts[i] <= attempts[|attempts| - 1];
    }
  }

  lemma NoAttempts()
    ensures Spaced([])
  {
  }

  lemma LastCovers(attempts: seq<nat>, now: nat)
    requires attempts != [] && attempts[|attempts| - 1] <= now < attempts[|attempts| - 1] + RETRY_MS
    ensures Covered(attempts, now)
  {
  }

  /** The loop shared by the two waits. `turns` counts the polls it passed. */
  method Retry(polls: seq<Poll>, started: nat, timeout: nat, goal: Poll -> bool)
    returns (result: Result, attempts: seq<nat>, turns: nat)
    requires Monotonic(polls, started)
    ensures Decided(polls, goal, started + timeout, result, turns)
    ensures Spaced(attempts) && RETRY_MS * |attempts| <= timeout + RETRY_MS - 1
    ensures forall k :: 0 <= k < |attempts| ==> started <= attempts[k] < started + timeout
    ensures forall i :: 0 <= i < turns ==> Covered(attempts, polls[i].now)
  {
    hide Spaced, Covered;
    NoAttempts();
    var deadline := started + timeout;
    var nextAttempt := started;
    attempts, turns := [], 0;
    while turns < |polls|
      invariant turns <= |polls| && Passes(polls, turns, goal, deadline)
      invariant Spaced(attempts)
      invariant forall k :: 0 <= k < |attempts| ==> started <= attempts[k] < deadline
      invariant forall i :: 0 <= i < turns ==> Covered(attempts, polls[i].now)
      invariant started + RETRY_MS * |attempts| <= nextAttempt
      invariant if attempts == [] then nextAttempt == started && turns == 0
        else nextAttempt == attempts[|attempts| - 1] + RETRY_MS && turns > 0 && attempts[|attempts| - 1] <= polls[turns - 1].now
    {
      var poll := polls[turns];
      if goal(poll) {
        return Ok, attempts, turns;
      }
      if poll.now >= deadline {
        return Timeout, attempts, turns;
      }
      if poll.now >= nextAttempt {
        AttemptAdded(attempts, poll.now);
        attempts := attempts + [poll.now];
        nextAttempt := poll.now + RETRY_MS;
      } else {
        LastCovers(attempts, poll.now);
      }
      turns := turns + 1;
    }
    result := Waiting;
  }

  function CommandMode(command: Byte): L.Mode {
    if command == L.ENABLE then L.Enabled else if command == L.STREAM then L.Streaming else L.Disabled
  }

  /** The mode waited for is the one the command's confirmation leads to, whenever the link admits it. */
  lemma CommandModeIsConfirmed(mode: L.Mode, command: Byte)
    requires L.IsCommand(command)
    ensures L.ConfirmedMode(mode, command) == None || L.ConfirmedMode(mode, command) == Some(CommandMode(command))
    ensures L.ConfirmedMode(mode, command) == None <==> command == 3 && mode.Disabled?
  {
  }

  /** Moves the board from an expected mode to a command's mode. */
  method Transition(mode: L.Mode, expected: L.Mode, command: Byte, polls: seq<Poll>, started: nat, timeout: nat)
    returns (result: Result, attempts: seq<nat>, turns: nat)
    requires Monotonic(polls, started)
    ensures result.InvalidArgument? <==> timeout == 0 || !L.IsCommand(command)
    ensures result.UnexpectedState? <==> timeout != 0 && L.IsCommand(command) && mode != expected
    ensures result.InvalidArgument? || result.UnexpectedState? ==> attempts == []
    ensures !result.InvalidArgument? && !result.UnexpectedState? ==>
      Decided(polls, (p: Poll) => p.mode == CommandMode(command), started + timeout, result, turns)
    ensures Spaced(attempts) && RETRY_MS * |attempts| <= timeout + RETRY_MS - 1
    ensures forall k :: 0 <= k < |attempts| ==> started <= attempts[k] < started + timeout
    ensures turns <= |polls| && forall i :: 0 <= i < turns ==> Covered(attempts, polls[i].now)
  {
    if timeout == 0 || !L.IsCommand(command) {
      return InvalidArgument, [], 0;
    }
    if mode != expected {
      return UnexpectedState, [], 0;
    }
    result, attempts, turns := Retry(polls, started, timeout, (p: Poll) => p.mode == CommandMode(command));
  }

  /** Waits for a confirmation newer than the ones counted at the start, in the disabled mode. */
  method ConfirmDisable(counted: nat, polls: seq<Poll>, started: nat, timeout: nat)
    returns (result: Result, attempts: seq<nat>, turns: nat)
    requires Monotonic(polls, started)
    ensures result.InvalidArgument? <==> timeout == 0
    ensures !result.InvalidArgument? ==>
      Decided(polls, (p: Poll) => p.confirmations > counted && p.mode == L.Disabled, started + timeout, result, turns)
    ensures Spaced(attempts) && RETRY_MS * |attempts| <= timeout + RETRY_MS - 1
    ensures forall k :: 0 <= k < |attempts| ==> started <= attempts[k] < started + timeout
    ensures turns <= |polls| && forall i :: 0 <= i < turns ==> Covered(attempts, polls[i].now)
  {
    if timeout == 0 {
      return InvalidArgument, [], 0;
    }
    result, attempts, turns := Retry(polls, started, timeout, (p: Poll) => p.confirmations > counted && p.mode == L.Disabled);
  }

  /** A clock that moves on at every poll ends the wait within one poll per millisecond of the timeout. */
  lemma {:induction false} WaitEnds(polls: seq<Poll>, started: nat, timeout: nat, goal: Poll -> bool, result: Result, n: nat)
    requires Monotonic(polls, started)
    requires forall i :: 0 <= i < |polls| - 1 ==> polls[i].now < polls[i + 1].now
    requires |polls| > timeout && Decided(polls, goal, started + timeout, result, n)
    ensures result.Ok? || result.Timeout?
    ensures n <= timeout
  {
    ClockAdvances(polls, started, timeout);
  }

  lemma {:induction false} ClockAdvances(polls: seq<Poll>, started: nat, k: nat)
    requires Monotonic(polls, started) && k < |polls|
    requires forall i :: 0 <= i < |polls| - 1 ==> polls[i].now < polls[i + 1].now
    ensures polls[k].now >= started + k
  {
    if k > 0 {
      ClockAdvances(polls, started, k - 1);
    }
  }
}

/** Waiting for a byte from the keyboard controller (BiosKeyboard/BiosKeyboard.c). */
module KeyboardWait {
  import opened Arithmetic
  import opened LittleEndian

  // The bytes that the controller will still supply: each becomes ready after so many polls that find nothing,
  // counted from when the byte before it was read.
  datatype Arrival = Arrival(polls: nat, byte: Byte)

  // KEYBOARD_TIMEOUT, and the polls of one round: 0, 30, 60, ... below it
  const TIMEOUT: nat := 65536
  const ROUND: nat := 2185

  function Polls(events: seq<Arrival>, k: nat): nat
    requires k <= |events|
  {
    if k == 0 then 0 else Polls(events, k - 1) + events[k - 1].polls
  }

  // The microseconds counted when the round begins in which byte k is read.
  function Waited(events: seq<Arrival>, k: nat): nat
    requires k < |events|
  {
    30 * (Polls(events, k) + ROUND * (events[k].polls / ROUND))
  }

  ghost predicate FirstIs(events: seq<Arrival>, k: nat, value: Byte) {
    k < |events| && events[k].byte == value && forall i :: 0 <= i < k ==> events[i].byte != value
  }

  // Byte k is waited for: it is in the first round, or the time counted before its round is below the limit.
  predicate InTime(events: seq<Arrival>, k: nat, limit: nat)
    requires k < |events|
  {
    (k == 0 && events[0].polls < ROUND) || Waited(events, k) < limit
  }

  // The polls that find nothing before byte k is read, in all
  function PollsBefore(events: seq<Arrival>, k: nat): nat
    requires k < |events|
  {
    if k == 0 then events[0].polls else PollsBefore(events, k - 1) + events[k].polls
  }

  lemma {:induction false} PollsBeforeIs(events: seq<Arrival>, k: nat)
    requires k < |events|
    ensures PollsBefore(events, k) == Polls(events, k) + events[k].polls
  {
    if k > 0 {
      PollsBeforeIs(events, k - 1);
    }
  }

  /**
   * The time is counted at 30 microseconds a poll and compared after each round of 2185 polls or each byte: byte k is
   * waited for if it comes in the first round, or if the limit is above the time of all polls but those of its round.
   */
  lemma InTimeMeans(events: seq<Arrival>, k: nat, limit: nat)
    requires k < |events|
    ensures InTime(events, k, limit) <==>
      (k == 0 && events[0].polls < 2185) || 30 * (PollsBefore(events, k) - events[k].polls % 2185) < limit
  {
    PollsBeforeIs(events, k);
    assert events[k].polls == events[k].polls / 2185 * 2185 + events[k].polls % 2185;
  }

  lemma {:induction false} PollsGrow(events: seq<Arrival>, k: nat, l: nat)
    requires k <= l <= |events|
    ensures Polls(events, k) <= Polls(events, l)
    decreases l
  {
    if k < l {
      PollsGrow(events, k, l - 1);
    }
  }

  class Keyboard {
    var events: seq<Arrival>

    // KeyReadStatusRegister: is there a byte?
    method ReadStatus() returns (ready: bool)
      modifies this
      ensures ready <==> old(events) != [] && old(events)[0].polls == 0
      ensures ready || old(events) == [] ==> events == old(events)
      ensures !ready && old(events) != [] ==>
        events == old(events)[0 := old(events)[0].(polls := old(events)[0].polls - 1)]
    {
      ready := events != [] && events[0].polls == 0;
      if !ready && events != [] {
        events := events[0 := events[0].(polls := events[0].polls - 1)];
      }
    }

    // KeyReadDataRegister
    method ReadData() returns (data: Byte)
      requires events != []
      modifies this
      ensures data == old(events)[0].byte && events == old(events)[1..]
    {
      data := events[0].byte;
      events := events[1..];
    }

    // What is left when `used` polls have gone by since byte k-1 of `all` was read.
    ghost predicate Reached(all: seq<Arrival>, k: nat, used: nat)
      reads this
    {
      && k <= |all|
      && if k == |all| then events == []
         else used <= all[k].polls && events == [all[k].(polls := all[k].polls - used)] + all[k + 1..]
    }

    // One round: polls until there is a byte, or the round is over
    method Round(ghost all: seq<Arrival>, ghost k: nat, ghost used: nat) returns (timeOut: nat, got: bool, data: Byte)
      requires Reached(all, k, used)
      modifies this
      ensures got <==> k < |all| && all[k].polls - used < ROUND
      ensures got ==> data == all[k].byte && timeOut == 30 * (all[k].polls - used) && Reached(all, k + 1, 0)
      ensures !got ==> timeOut == 30 * ROUND && Reached(all, k, used + ROUND)
    {
      timeOut, got, data := 0, false, 0;
      ghost var n: nat := 0;
      while timeOut < TIMEOUT
        invariant timeOut == 30 * n && n <= ROUND && Reached(all, k, used + n)
        decreases ROUND - n
      {
        ghost var left := if k < |all| then all[k].polls - (used + n) else 0;
        var ready := ReadStatus();
        if ready {
          data := ReadData();
          got := true;
          assert events == all[k + 1..];
          return;
        }
        assert k < |all| ==> events == [all[k].(polls := left - 1)] + all[k + 1..];
        timeOut, n := timeOut + 30, n + 1;
      }
    }

    /**
     * KeyboardWaitForValue succeeds if and only if the first byte equal to the value is read in time.  It ends after
     * at most one round for each byte read and one for each 65550 microseconds of the limit.
     */
    method WaitForValue(value: Byte, limit: nat) returns (ok: bool, ghost read: nat, ghost rounds: nat)
      requires limit + 30 * ROUND <= 0x1_0000_0000
      modifies this
      ensures read <= |old(events)| && (forall k :: 0 <= k < read - 1 ==> old(events)[k].byte != value)
      ensures ok <==> read > 0 && old(events)[read - 1].byte == value
      ensures ok <==> exists k :: FirstIs(old(events), k, value) && InTime(old(events), k, limit)
      ensures rounds <= read + limit / (30 * ROUND) + 1
    {
      ghost var all, m: nat, idle: nat := events, 0, 0;
      ok, read, rounds := false, 0, 0;
      var data: Byte := if value == 0 then 1 else 0;
      var sumTimeOut: nat := 0;
      while true
        invariant Reached(all, read, ROUND * m) && Counted(all, read, m, idle, sumTimeOut, value)
        invariant rounds == read + idle && (if rounds > 0 then sumTimeOut < limit else sumTimeOut == 0) && data != value
        decreases |all| - read, limit - sumTimeOut
      {
        var timeOut, got, byte := Round(all, read, ROUND * m);
        CountedNext(all, read, m, idle, sumTimeOut, value, limit, timeOut, got);
        rounds, sumTimeOut := rounds + 1, sumTimeOut + timeOut;
        assert sumTimeOut < 0x1_0000_0000;
        if got {
          data, read, m := byte, read + 1, 0;
        } else {
          m, idle := m + 1, idle + 1;
        }
        if data == value {
          ok := true;
          break;
        }
        if sumTimeOut >= limit {
          TooLate(all, read, m, value, limit);
          break;
        }
      }
    }
  }

  // So many bytes have been read, none of them the value, and so many rounds have gone by since and in all.
  ghost predicate Counted(all: seq<Arrival>, read: nat, m: nat, idle: nat, sum: nat, value: Byte) {
    && read <= |all| && sum == 30 * (Polls(all, read) + ROUND * m) && 30 * ROUND * idle <= sum
    && (read == 0 ==> m == idle) && forall i :: 0 <= i < read ==> all[i].byte != value
  }

  lemma CountedNext(all: seq<Arrival>, read: nat, m: nat, idle: nat, sum: nat, value: Byte, limit: nat, timeOut: nat,
                    got: bool)
    requires Counted(all, read, m, idle, sum, value) && (if read + idle > 0 then sum < limit else sum == 0)
    requires got ==> read < |all| && ROUND * m <= all[read].polls < ROUND * m + ROUND
    requires timeOut == if got then 30 * (all[read].polls - ROUND * m) else 30 * ROUND
    ensures got && all[read].byte != value ==> Counted(all, read + 1, 0, idle, sum + timeOut, value)
    ensures got && all[read].byte == value ==> FirstIs(all, read, value) && InTime(all, read, limit)
    ensures !got ==> Counted(all, read, m + 1, idle + 1, sum + timeOut, value)
    ensures read + idle + 1 <= (if got then read + 1 else read) + limit / (30 * ROUND) + 1
  {
    if got {
      Found(all, read, m, limit);
    }
    QuotientIs(limit, 30 * ROUND, limit / (30 * ROUND), limit % (30 * ROUND));
  }

  lemma Found(all: seq<Arrival>, k: nat, m: nat, limit: nat)
    requires k < |all| && ROUND * m <= all[k].polls < ROUND * m + ROUND
    requires (k == 0 && m == 0) || 30 * (Polls(all, k) + ROUND * m) < limit
    ensures InTime(all, k, limit)
  {
    QuotientIs(all[k].polls, ROUND, m, all[k].polls - ROUND * m);
  }

  lemma RoundsAtLeast(polls: nat, m: nat)
    requires ROUND * m <= polls
    ensures polls / ROUND >= m
  {
    QuotientIs(polls, ROUND, polls / ROUND, polls % ROUND);
  }

  lemma TooLate(all: seq<Arrival>, k: nat, m: nat, value: Byte, limit: nat)
    requires k <= |all| && (k < |all| ==> ROUND * m <= all[k].polls) && (k == 0 ==> m > 0)
    requires 30 * (Polls(all, k) + ROUND * m) >= limit
    requires forall i :: 0 <= i < k ==> all[i].byte != value
    ensures !exists l :: FirstIs(all, l, value) && InTime(all, l, limit)
  {
    forall l | FirstIs(all, l, value) ensures !InTime(all, l, limit) {
      if k < l {
        PollsGrow(all, k + 1, l);
      } else {
        RoundsAtLeast(all[k].polls, m);
      }
    }
  }
}

/** Time-ordered ids: 41 bits of milliseconds, 10 of worker, 12 of sequence. */
module Snowflakes {

  const EPOCH: int := 1735689600000
  const MAX_WORKER: nat := 1023
  const SEQUENCES: nat := 4096
  const MAX_CLOCK_WAIT: int := 5000

  /** What the generator remembers between calls. */
  datatype State = State(last: int, sequence: nat)

  datatype Outcome =
    | Id(id: nat)
    | Failed    // the clock moved backwards by too much
    | Waiting   // every reading given has been used, and the call has not returned

  /** The three fields side by side in 64 bits. */
  function Pack(timestamp: int, worker: nat, sequence: nat): nat {
    (timestamp - EPOCH) * 0x40_0000 % 0x1_0000_0000_0000_0000 + worker * 0x1000 + sequence
  }

  function ExtractTimestamp(id: nat): int { id / 0x40_0000 + EPOCH }

  function ExtractWorker(id: nat): nat { id / 0x1000 % 0x400 }

  function ExtractSequence(id: nat): nat { id % 0x1000 }

  predicate InWindow(timestamp: int) {
    0 <= timestamp - EPOCH < 0x200_0000_0000
  }

  predicate Ready(s: State) {
    s.sequence < SEQUENCES
  }

  // ---- What a call does with the clock readings it takes ----

  datatype Wait = Until(timestamp: int) | TooLong | NoReading

  /** After a backward jump each turn reads the clock twice: once for the deadline, once for the time. */
  function CatchUp(t: int, last: int, clock: seq<int>): Wait
    decreases |clock|
  {
    if t > last then Until(t)
    else if clock == [] then NoReading
    else if clock[0] > last + MAX_CLOCK_WAIT then TooLong
    else if |clock| == 1 then NoReading
    else CatchUp(clock[1], last, clock[2..])
  }

  /** When the sequence is used up the call waits for the next millisecond. */
  function NextMillisecond(t: int, last: int, clock: seq<int>): Wait
    decreases |clock|
  {
    if t > last then Until(t) else if clock == [] then NoReading else NextMillisecond(clock[0], last, clock[1..])
  }

  function Call(s: State, worker: nat, clock: seq<int>): (State, Outcome) {
    if clock == [] then (s, Waiting)
    else
      var t := clock[0];
      if t < s.last then Finish(s, worker, CatchUp(t, s.last, clock[1..]))
      else if t > s.last then Finish(s, worker, Until(t))
      else if (s.sequence + 1) % SEQUENCES != 0 then
        (State(t, (s.sequence + 1) % SEQUENCES), Id(Pack(t, worker, (s.sequence + 1) % SEQUENCES)))
      else Finish(s, worker, NextMillisecond(t, s.last, clock[1..]))
  }

  function Finish(s: State, worker: nat, w: Wait): (State, Outcome) {
    match w
    case Until(t) => (State(t, 0), Id(Pack(t, worker, 0)))
    case TooLong => (s, Failed)
    case NoReading => (s, Waiting)
  }

  class SnowflakeGenerator {
    const worker: nat
    var last: int
    var sequence: nat

    function View(): State
      reads this
    {
      State(last, sequence)
    }

    constructor (worker: nat)
      requires worker <= MAX_WORKER
      ensures this.worker == worker && View() == State(-1, 0)
    {
      this.worker, last, sequence := worker, -1, 0;
    }

    /** nextId, given the readings the clock will show. */
    method NextId(clock: seq<int>) returns (r: Outcome)
      requires sequence < SEQUENCES
      modifies this
      ensures r == Call(old(View()), worker, clock).1
      ensures !r.Waiting? ==> View() == Call(old(View()), worker, clock).0
      ensures sequence < SEQUENCES
    {
      var n := 0;
      if clock == [] { return Waiting; }
      var timestamp := clock[0];
      n := 1;
      if timestamp < last {
        while timestamp <= last
          invariant 1 <= n <= |clock| && CatchUp(clock[0], last, clock[1..]) == CatchUp(timestamp, last, clock[n..])
          invariant View() == old(View())
          decreases |clock| - n
        {
          if n == |clock| { return Waiting; }
          if clock[n] > last + MAX_CLOCK_WAIT { return Failed; }
          if n + 1 == |clock| { return Waiting; }
          assert clock[n..][2..] == clock[n + 2..];
          timestamp := clock[n + 1];
          n := n + 2;
        }
      }
      if timestamp == last {
        sequence := (sequence + 1) % SEQUENCES;
        if sequence == 0 {
          while timestamp <= last
            invariant last == old(last) && sequence == 0
            invariant 1 <= n <= |clock| &&
                      NextMillisecond(clock[0], last, clock[1..]) == NextMillisecond(timestamp, last, clock[n..])
            decreases |clock| - n
          {
            if n == |clock| { return Waiting; }
            assert clock[n..][1..] == clock[n + 1..];
            timestamp := clock[n];
            n := n + 1;
          }
        }
      } else {
        sequence := 0;
      }
      last := timestamp;
      r := Id(Pack(last, worker, sequence));
    }
  }

  // ---- Fields ----

  lemma FieldsBack(timestamp: int, worker: nat, sequence: nat)
    requires InWindow(timestamp) && worker <= MAX_WORKER && sequence < SEQUENCES
    ensures var id := Pack(timestamp, worker, sequence);
            ExtractTimestamp(id) == timestamp && ExtractWorker(id) == worker && ExtractSequence(id) == sequence &&
            id < 0x8000_0000_0000_0000 && id == (timestamp - 1735689600000) * 4194304 + worker * 4096 + sequence
  {
    var e := timestamp - EPOCH;
    assert Pack(timestamp, worker, sequence) == e * 0x40_0000 + worker * 0x1000 + sequence;
    Digits(e, worker, sequence);
  }

  lemma Digits(e: nat, w: nat, s: nat)
    requires w < 0x400 && s < 0x1000
    ensures var id := e * 0x40_0000 + w * 0x1000 + s;
            id / 0x40_0000 == e && id / 0x1000 % 0x400 == w && id % 0x1000 == s
  {
    var id := e * 0x40_0000 + w * 0x1000 + s;
    assert id == 0x1000 * (e * 0x400 + w) + s;
    assert id / 0x1000 == e * 0x400 + w;
  }

  /** Generators with different worker ids never give out the same id. */
  lemma WorkersNeverCollide(t1: int, w1: nat, s1: nat, t2: int, w2: nat, s2: nat)
    requires InWindow(t1) && InWindow(t2) && w1 <= MAX_WORKER && w2 <= MAX_WORKER && s1 < SEQUENCES && s2 < SEQUENCES
    requires w1 != w2
    ensures Pack(t1, w1, s1) != Pack(t2, w2, s2)
  {
    FieldsBack(t1, w1, s1);
    FieldsBack(t2, w2, s2);
  }

  // ---- Order ----

  predicate Later(a: State, b: State) {
    b.last > a.last || (b.last == a.last && b.sequence > a.sequence)
  }

  lemma {:induction false} CatchUpIsLater(t: int, last: int, clock: seq<int>)
    ensures CatchUp(t, last, clock).Until? ==> CatchUp(t, last, clock).timestamp > last
    decreases |clock|
  {
    if t <= last && |clock| >= 2 { CatchUpIsLater(clock[1], last, clock[2..]); }
  }

  lemma {:induction false} NextMillisecondIsLater(t: int, last: int, clock: seq<int>)
    ensures NextMillisecond(t, last, clock).Until? ==> NextMillisecond(t, last, clock).timestamp > last
    decreases |clock|
  {
    if t <= last && clock != [] { NextMillisecondIsLater(clock[0], last, clock[1..]); }
  }

  /** Whatever the clock does, a call that returns an id moves the state forward. */
  lemma CallMovesForward(s: State, worker: nat, clock: seq<int>)
    requires Ready(s)
    ensures var r := Call(s, worker, clock);
            Ready(r.0) && (r.1.Id? ==> Later(s, r.0) && r.1.id == Pack(r.0.last, worker, r.0.sequence)) &&
            (!r.1.Id? ==> r.0 == s)
  {
    if clock != [] {
      CatchUpIsLater(clock[0], s.last, clock[1..]);
      NextMillisecondIsLater(clock[0], s.last, clock[1..]);
    }
  }

  lemma LaterIsGreater(a: State, b: State, worker: nat)
    requires Later(a, b) && Ready(a) && Ready(b) && worker <= MAX_WORKER && InWindow(a.last) && InWindow(b.last)
    ensures Pack(a.last, worker, a.sequence) < Pack(b.last, worker, b.sequence)
  {
    var d, e := a.last - EPOCH, b.last - EPOCH;
    assert Pack(a.last, worker, a.sequence) == d * 0x40_0000 + worker * 0x1000 + a.sequence;
    assert Pack(b.last, worker, b.sequence) == e * 0x40_0000 + worker * 0x1000 + b.sequence;
  }

  /** The outcome of the i-th of a series of calls. */
  function OutcomeAt(s: State, worker: nat, clocks: seq<seq<int>>, i: nat): Outcome
    requires i < |clocks|
  {
    Call(StateAt(s, worker, clocks[..i]), worker, clocks[i]).1
  }

  function StateAt(s: State, worker: nat, clocks: seq<seq<int>>): State {
    if clocks == [] then s else Call(StateAt(s, worker, clocks[..|clocks| - 1]), worker, clocks[|clocks| - 1]).0
  }

  lemma {:induction false} StatesOnlyGrow(s: State, worker: nat, clocks: seq<seq<int>>, i: nat, j: nat)
    requires Ready(s) && i <= j <= |clocks|
    ensures Ready(StateAt(s, worker, clocks[..j])) && Ready(StateAt(s, worker, clocks[..i]))
    ensures var a, b := StateAt(s, worker, clocks[..i]), StateAt(s, worker, clocks[..j]); a == b || Later(a, b)
    decreases j
  {
    if i < j {
      StatesOnlyGrow(s, worker, clocks, i, j - 1);
      assert clocks[..j][..j - 1] == clocks[..j - 1];
      CallMovesForward(StateAt(s, worker, clocks[..j - 1]), worker, clocks[j - 1]);
    } else if i > 0 {
      StatesOnlyGrow(s, worker, clocks, i - 1, i - 1);
      assert clocks[..i][..i - 1] == clocks[..i - 1];
      CallMovesForward(StateAt(s, worker, clocks[..i - 1]), worker, clocks[i - 1]);
    }
  }

  /** Over any series of calls, with any clock, later ids are greater. */
  lemma IdsStrictlyIncrease(s: State, worker: nat, clocks: seq<seq<int>>, i: nat, j: nat)
    requires Ready(s) && worker <= MAX_WORKER && i < j < |clocks|
    requires OutcomeAt(s, worker, clocks, i).Id? && OutcomeAt(s, worker, clocks, j).Id?
    requires InWindow(StateAt(s, worker, clocks[..i + 1]).last) && InWindow(StateAt(s, worker, clocks[..j + 1]).last)
    ensures OutcomeAt(s, worker, clocks, i).id < OutcomeAt(s, worker, clocks, j).id
  {
    StatesOnlyGrow(s, worker, clocks, i + 1, j);
    StatesOnlyGrow(s, worker, clocks, i, i);
    assert clocks[..i + 1][..i] == clocks[..i] && clocks[..j + 1][..j] == clocks[..j];
    CallMovesForward(StateAt(s, worker, clocks[..i]), worker, clocks[i]);
    CallMovesForward(StateAt(s, worker, clocks[..j]), worker, clocks[j]);
    LaterIsGreater(StateAt(s, worker, clocks[..i + 1]), StateAt(s, worker, clocks[..j + 1]), worker);
  }

  // ---- The cap on waiting ----

  /** The deadline reading of turn j is past the cap, and no time read before it was past the last id. */
  predicate OverAt(last: int, clock: seq<int>, j: nat) {
    2 * j < |clock| && clock[2 * j] > last + MAX_CLOCK_WAIT && BehindUntil(last, clock, j)
  }

  predicate BehindUntil(last: int, clock: seq<int>, j: nat)
    requires 2 * j < |clock|
    decreases j
  {
    j == 0 || (clock[2 * (j - 1) + 1] <= last && BehindUntil(last, clock, j - 1))
  }

  lemma {:induction false} BehindShift(last: int, clock: seq<int>, j: nat)
    requires |clock| >= 2 && 2 * (j + 1) < |clock|
    ensures BehindUntil(last, clock, j + 1) <==> clock[1] <= last && BehindUntil(last, clock[2..], j)
  {
    if j > 0 {
      BehindShift(last, clock, j - 1);
      assert clock[2..][2 * (j - 1) + 1] == clock[2 * j + 1];
    }
  }

  lemma OverShift(last: int, clock: seq<int>, j: nat)
    requires |clock| >= 2
    ensures OverAt(last, clock, j + 1) <==> clock[1] <= last && OverAt(last, clock[2..], j)
  {
    if 2 * (j + 1) < |clock| {
      BehindShift(last, clock, j);
      assert clock[2..][2 * j] == clock[2 * (j + 1)];
    }
  }

  /** A wait for the clock fails exactly if a deadline reading past the cap comes before
      any time reading past the last id. */
  lemma {:induction false} FailsExactly(t: int, last: int, clock: seq<int>)
    requires t <= last
    ensures CatchUp(t, last, clock).TooLong? <==> exists j: nat :: OverAt(last, clock, j)
    decreases |clock|
  {
    if exists j: nat :: OverAt(last, clock, j) {
      var j: nat :| OverAt(last, clock, j);
      if j > 0 {
        OverShift(last, clock, j - 1);
        if clock[0] <= last + MAX_CLOCK_WAIT { FailsExactly(clock[1], last, clock[2..]); }
      }
    }
    if CatchUp(t, last, clock).TooLong? {
      if clock[0] > last + MAX_CLOCK_WAIT {
        assert OverAt(last, clock, 0);
      } else {
        FailsLater(last, clock);
        FailsExactly(clock[1], last, clock[2..]);
        var j: nat :| OverAt(last, clock[2..], j);
        OverShift(last, clock, j);
        assert OverAt(last, clock, j + 1);
      }
    }
  }

  lemma FailsLater(last: int, clock: seq<int>)
    requires |clock| >= 2 && CatchUp(clock[1], last, clock[2..]).TooLong?
    ensures clock[1] <= last
  {
  }

  /** The cap is compared with the clock itself, so a clock that stays behind is waited
      for without end: the call fails only when a reading is already past the deadline. */
  lemma {:induction false} FailsOnlyAhead(t: int, last: int, clock: seq<int>)
    ensures CatchUp(t, last, clock).TooLong? ==> exists c :: c in clock && c > last + MAX_CLOCK_WAIT
    ensures t <= last && (forall c :: c in clock ==> c <= last) ==> CatchUp(t, last, clock).NoReading?
    decreases |clock|
  {
    if clock != [] { assert clock[0] in clock; }
    if t <= last && |clock| >= 2 {
      assert clock[1] in clock && forall c :: c in clock[2..] ==> c in clock;
      FailsOnlyAhead(clock[1], last, clock[2..]);
    }
  }

  // ---- What a call gives ----

  /** The id carries these fields. */
  predicate Carries(r: Outcome, timestamp: int, worker: nat, sequence: nat) {
    r.Id? && ExtractTimestamp(r.id) == timestamp && ExtractWorker(r.id) == worker && ExtractSequence(r.id) == sequence
  }

  /** The first reading past the last id. */
  ghost predicate FirstPast(last: int, clock: seq<int>, j: nat) {
    j < |clock| && clock[j] > last && forall i :: 0 <= i < j ==> clock[i] <= last
  }

  /** The j-th time reading of the wait is the first past the last id, and no deadline reading
      up to it is past the cap. */
  ghost predicate CaughtUpAt(last: int, clock: seq<int>, j: nat) {
    && 2 * j + 1 < |clock| && clock[2 * j + 1] > last
    && (forall i: nat :: i < j ==> TimeAt(clock, i) <= last)
    && (forall i: nat :: i <= j ==> DeadlineAt(clock, i) <= last + 5000)
  }

  function TimeAt(clock: seq<int>, i: nat): int {
    if 2 * i + 1 < |clock| then clock[2 * i + 1] else 0
  }

  function DeadlineAt(clock: seq<int>, i: nat): int {
    if 2 * i < |clock| then clock[2 * i] else 0
  }

  lemma {:induction false} NextMillisecondIs(t: int, last: int, clock: seq<int>)
    requires t <= last
    ensures forall j: nat :: FirstPast(last, clock, j) ==> NextMillisecond(t, last, clock) == Until(clock[j])
    ensures (forall j: nat :: !FirstPast(last, clock, j)) ==> NextMillisecond(t, last, clock) == NoReading
    decreases |clock|
  {
    if clock != [] && clock[0] <= last {
      NextMillisecondIs(clock[0], last, clock[1..]);
      forall j: nat ensures FirstPast(last, clock, j + 1) <==> FirstPast(last, clock[1..], j) {
        assert j < |clock[1..]| ==> clock[1..][j] == clock[j + 1];
        if FirstPast(last, clock[1..], j) {
          assert forall i :: 0 < i < j + 1 ==> clock[i] == clock[1..][i - 1];
        }
      }
      forall j: nat | FirstPast(last, clock, j) ensures NextMillisecond(t, last, clock) == Until(clock[j]) {
        assert FirstPast(last, clock, (j - 1) + 1);
      }
      if forall j: nat :: !FirstPast(last, clock, j) {
        forall j: nat ensures !FirstPast(last, clock[1..], j) { assert !FirstPast(last, clock, j + 1); }
      }
    } else if clock != [] {
      assert FirstPast(last, clock, 0);
    }
  }

  lemma CaughtUpShift(last: int, clock: seq<int>, j: nat)
    requires |clock| >= 2
    ensures CaughtUpAt(last, clock, j + 1) <==>
            clock[0] <= last + 5000 && clock[1] <= last && CaughtUpAt(last, clock[2..], j)
  {
    var rest := clock[2..];
    forall i: nat
      ensures TimeAt(rest, i) == TimeAt(clock, i + 1) && DeadlineAt(rest, i) == DeadlineAt(clock, i + 1)
    {
    }
    if CaughtUpAt(last, clock, j + 1) {
      assert DeadlineAt(clock, 0) <= last + 5000 && TimeAt(clock, 0) <= last;
      forall i: nat | i <= j ensures DeadlineAt(rest, i) <= last + 5000 {
        assert DeadlineAt(clock, i + 1) <= last + 5000;
      }
      forall i: nat | i < j ensures TimeAt(rest, i) <= last { assert TimeAt(clock, i + 1) <= last; }
    }
    if clock[0] <= last + 5000 && clock[1] <= last && CaughtUpAt(last, rest, j) {
      forall i: nat | i <= j + 1 ensures DeadlineAt(clock, i) <= last + 5000 {
        if i > 0 { assert DeadlineAt(rest, i - 1) <= last + 5000; }
      }
      forall i: nat | i < j + 1 ensures TimeAt(clock, i) <= last {
        if i > 0 { assert TimeAt(rest, i - 1) <= last; }
      }
    }
  }

  lemma {:induction false} CatchUpIs(t: int, last: int, clock: seq<int>)
    requires t <= last
    ensures forall j: nat :: CaughtUpAt(last, clock, j) ==> CatchUp(t, last, clock) == Until(TimeAt(clock, j))
    ensures CatchUp(t, last, clock).Until? ==> exists j: nat :: CaughtUpAt(last, clock, j)
    decreases |clock|
  {
    hide CaughtUpAt;
    if |clock| >= 2 {
      CaughtUpFirst(last, clock);
      forall j: nat { CaughtUpShift(last, clock, j); }
      if clock[1] <= last { CatchUpIs(clock[1], last, clock[2..]); }
      forall j: nat | CaughtUpAt(last, clock, j) ensures CatchUp(t, last, clock) == Until(TimeAt(clock, j)) {
        if j > 0 {
          CaughtUpShift(last, clock, j - 1);
          CaughtUpInside(last, clock[2..], j - 1);
        } else {
          CaughtUpFirst(last, clock);
        }
      }
      if CatchUp(t, last, clock).Until? {
        if clock[1] > last {
          assert CaughtUpAt(last, clock, 0);
        } else {
          var j: nat :| CaughtUpAt(last, clock[2..], j);
          CaughtUpShift(last, clock, j);
          assert CaughtUpAt(last, clock, j + 1);
        }
      }
    } else {
      forall j: nat ensures !CaughtUpAt(last, clock, j) {
        if CaughtUpAt(last, clock, j) { CaughtUpInside(last, clock, j); }
      }
    }
  }

  lemma CaughtUpFirst(last: int, clock: seq<int>)
    requires |clock| >= 2
    ensures CaughtUpAt(last, clock, 0) <==> clock[0] <= last + 5000 && clock[1] > last
    ensures forall j: nat :: CaughtUpAt(last, clock, j) ==> clock[0] <= last + 5000
  {
    assert DeadlineAt(clock, 0) == clock[0];
  }

  lemma CaughtUpInside(last: int, clock: seq<int>, j: nat)
    requires CaughtUpAt(last, clock, j)
    ensures 2 * j + 1 < |clock|
  {
  }

  /** A clock that has moved on, or stands still, gives an id; with the sequence used up, the
      first later reading does, or the call waits. */
  lemma CallGives(s: State, worker: nat, clock: seq<int>)
    requires Ready(s) && worker <= 1023 && clock != [] && clock[0] >= s.last && forall t :: t in clock ==> InWindow(t)
    ensures var r := Call(s, worker, clock).1;
            && (clock[0] > s.last ==> Carries(r, clock[0], worker, 0))
            && (clock[0] == s.last && s.sequence < 4095 ==> Carries(r, s.last, worker, s.sequence + 1))
            && (clock[0] == s.last && s.sequence == 4095 ==>
                  (forall j: nat :: FirstPast(s.last, clock, j) ==> Carries(r, clock[j], worker, 0)) &&
                  ((forall j: nat :: !FirstPast(s.last, clock, j)) ==> r.Waiting?))
  {
    FieldsBack(clock[0], worker, 0);
    if clock[0] == s.last {
      if s.sequence < 4095 {
        FieldsBack(clock[0], worker, s.sequence + 1);
      } else {
        NextMillisecondIs(clock[0], s.last, clock);
        assert NextMillisecond(clock[0], s.last, clock) == NextMillisecond(clock[0], s.last, clock[1..]);
        forall j: nat | FirstPast(s.last, clock, j) ensures Carries(Call(s, worker, clock).1, clock[j], worker, 0) {
          FieldsBack(clock[j], worker, 0);
        }
      }
    }
  }

  /** A clock that has moved backwards: an id exactly if a time reading comes past the last id before
      any deadline reading is past the cap, failure exactly if it is the other way round. */
  lemma CallBehind(s: State, worker: nat, clock: seq<int>)
    requires Ready(s) && worker <= 1023 && clock != [] && clock[0] < s.last && forall t :: t in clock ==> InWindow(t)
    ensures var r, rest := Call(s, worker, clock).1, clock[1..];
            && (forall j: nat :: CaughtUpAt(s.last, rest, j) ==> Carries(r, rest[2 * j + 1], worker, 0))
            && (r.Id? <==> exists j: nat :: CaughtUpAt(s.last, rest, j))
            && (r.Failed? <==> exists j: nat :: OverAt(s.last, rest, j))
  {
    var rest := clock[1..];
    hide CaughtUpAt, OverAt;
    CatchUpIs(clock[0], s.last, rest);
    FailsExactly(clock[0], s.last, rest);
    forall j: nat | CaughtUpAt(s.last, rest, j) ensures Carries(Call(s, worker, clock).1, rest[2 * j + 1], worker, 0) {
      CaughtUpInside(s.last, rest, j);
      assert rest[2 * j + 1] in clock;
      FieldsBack(rest[2 * j + 1], worker, 0);
    }
  }

  /** Only a clock that has moved backwards fails. */
  lemma FailsOnlyBehind(s: State, worker: nat, clock: seq<int>)
    ensures Call(s, worker, clock).1.Failed? <==>
            clock != [] && clock[0] < s.last && exists j: nat :: OverAt(s.last, clock[1..], j)
  {
    if clock != [] {
      if clock[0] < s.last { FailsExactly(clock[0], s.last, clock[1..]); }
      NextMillisecondIs(s.last, s.last, clock[1..]);
    }
  }
}

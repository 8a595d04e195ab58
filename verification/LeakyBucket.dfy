/** The leaky bucket: a bounded queue that a producer writes to and that a clock
    empties at a fixed rate. */
module LeakyBucket {
  import opened DiskBytes
  import opened Streams

  const DELAY_BETWEEN_TRANSMISSION: nat := 50

  /** The bytes a tick may send, for a rate in bytes per second. */
  function AmountFor(outputRate: nat): (r: nat)
    ensures 20 * r <= outputRate < 20 * (r + 1)
  {
    outputRate / (1000 / DELAY_BETWEEN_TRANSMISSION)
  }

  /** The eight low-order bits of an int. */
  function LowByte(b: int): (r: Byte)
    ensures (r - b) % 256 == 0 && (0 <= b < 256 ==> r == b)
  {
    b % 256
  }

  datatype Event = Write(b: int) | Tick

  datatype State = State(queue: seq<Byte>, sent: seq<Byte>, dropped: nat)

  function Min(a: nat, b: nat): nat {
    if a < b then a else b
  }

  /** One write or one successful tick. */
  function Step(s: State, capacity: nat, amount: nat, e: Event): State {
    match e
    case Write(b) =>
      if |s.queue| < capacity then s.(queue := s.queue + [LowByte(b)]) else s.(dropped := s.dropped + 1)
    case Tick =>
      var k := Min(amount, |s.queue|);
      s.(queue := s.queue[k..], sent := s.sent + s.queue[..k])
  }

  function Run(s: State, capacity: nat, amount: nat, events: seq<Event>): State
    decreases |events|
  {
    if events == [] then s else Run(Step(s, capacity, amount, events[0]), capacity, amount, events[1..])
  }

  class Bucket {
    const capacity: nat
    const amountToSend: nat
    var queue: seq<Byte>
    var dataToSend: seq<Byte>
    var bytesDropped: nat
    /** What arrived at the output stream. */
    var out: seq<Byte>
    var cancelled: bool

    ghost predicate Valid()
      reads this
    {
      |queue| <= capacity
    }

    ghost function Abstract(): State
      reads this
    {
      State(queue, out, bytesDropped)
    }

    constructor (queueSize: nat, outputRate: nat)
      requires queueSize >= 1
      ensures Valid() && !cancelled && Abstract() == State([], [], 0)
      ensures capacity == queueSize && amountToSend == AmountFor(outputRate)
      ensures 20 * amountToSend <= outputRate < 20 * (amountToSend + 1)
    {
      capacity, amountToSend := queueSize, AmountFor(outputRate);
      queue, dataToSend, out := [], [], [];
      bytesDropped, cancelled := 0, false;
    }

    method WriteByte(b: int)
      requires Valid()
      modifies this
      ensures Valid() && cancelled == old(cancelled)
      ensures Abstract() == Step(old(Abstract()), capacity, amountToSend, Write(b))
      ensures |old(queue)| == capacity ==> queue == old(queue) && bytesDropped == old(bytesDropped) + 1
      ensures |old(queue)| < capacity ==>
        && |queue| == |old(queue)| + 1 && queue[..|old(queue)|] == old(queue) && bytesDropped == old(bytesDropped)
        && var last: int := queue[|old(queue)|]; (last - b) % 256 == 0 && (0 <= b < 256 ==> last == b)
    {
      if capacity - |queue| != 0 {
        queue := queue + [LowByte(b)];
      } else {
        bytesDropped := bytesDropped + 1;
      }
    }

    /** Moves at most amountToSend bytes from the queue to dataToSend. */
    method Drain()
      modifies this`queue, this`dataToSend
      ensures var k := Min(amountToSend, |old(queue)|);
        dataToSend == old(queue)[..k] && queue == old(queue)[k..]
    {
      dataToSend := [];
      while |dataToSend| < amountToSend && queue != []
        invariant |dataToSend| <= amountToSend && dataToSend + queue == old(queue)
        decreases |queue|
      {
        dataToSend := dataToSend + [queue[0]];
        queue := queue[1..];
      }
    }

    /** A tick of the clock.  If the stream fails, the rest of dataToSend is lost. */
    method Transmit(fate: Fate)
      requires Valid() && !cancelled
      requires fate.FailsAfter? ==> fate.n < Min(amountToSend, |queue|)
      modifies this
      ensures Valid() && cancelled == !fate.Succeeds?
      ensures fate.Succeeds? ==> Abstract() == Step(old(Abstract()), capacity, amountToSend, Tick)
      ensures fate.Succeeds? ==>
        && out + queue == old(out) + old(queue) && bytesDropped == old(bytesDropped)
        && (if |old(queue)| <= amountToSend then queue == [] else |out| == |old(out)| + amountToSend)
      ensures !fate.Succeeds? ==>
        var k := Min(amountToSend, |old(queue)|);
        var n := if fate.FailsAfter? then fate.n else k;
        Abstract() == State(old(queue)[k..], old(out) + old(queue)[..n], old(bytesDropped) + 1)
    {
      Drain();
      var i := 0;
      while i < |dataToSend| && fate != FailsAfter(i)
        invariant i <= |dataToSend| && (fate.FailsAfter? ==> i <= fate.n)
        invariant out == old(out) + dataToSend[..i]
        invariant queue == old(queue)[Min(amountToSend, |old(queue)|)..] && bytesDropped == old(bytesDropped) && !cancelled
        invariant dataToSend == old(queue)[..Min(amountToSend, |old(queue)|)]
      {
        out := out + [dataToSend[i]];
        i := i + 1;
      }
      if !fate.Succeeds? {
        bytesDropped := bytesDropped + 1;
        cancelled := true;
      }
    }
  }

  // ----- over every interleaving of writes and ticks

  function Inputs(events: seq<Event>): seq<Byte>
    decreases |events|
  {
    if events == [] then []
    else (if events[0].Write? then [LowByte(events[0].b)] else []) + Inputs(events[1..])
  }

  function Ticks(events: seq<Event>): nat
    decreases |events|
  {
    if events == [] then 0 else (if events[0].Tick? then 1 else 0) + Ticks(events[1..])
  }

  /** The bytes that found room in the queue. */
  function Accepted(s: State, capacity: nat, amount: nat, events: seq<Event>): seq<Byte>
    decreases |events|
  {
    if events == [] then []
    else
      (if events[0].Write? && |s.queue| < capacity then [LowByte(events[0].b)] else [])
      + Accepted(Step(s, capacity, amount, events[0]), capacity, amount, events[1..])
  }

  /** The numbers that were written, as they were given. */
  function Written(events: seq<Event>): seq<int>
    decreases |events|
  {
    if events == [] then []
    else (if events[0].Write? then [events[0].b] else []) + Written(events[1..])
  }

  /** a is what remains of b after leaving some elements out. */
  ghost predicate Subsequence(a: seq<int>, b: seq<int>)
    decreases |b|
  {
    if a == [] then true
    else if b == [] then false
    else (a[0] == b[0] && Subsequence(a[1..], b[1..])) || Subsequence(a, b[1..])
  }

  lemma {:induction false} EmptySubsequence(b: seq<int>)
    ensures Subsequence([], b)
  {
  }

  /** Bytes leave in the order in which they came, none of them twice; the queue
      never overflows. */
  lemma {:induction false} InOrder(s: State, capacity: nat, amount: nat, events: seq<Event>)
    requires |s.queue| <= capacity
    ensures var s' := Run(s, capacity, amount, events);
      && |s'.queue| <= capacity
      && s'.sent + s'.queue == s.sent + s.queue + Accepted(s, capacity, amount, events)
    decreases |events|
  {
    if events == [] {
      assert Accepted(s, capacity, amount, events) == [];
    } else {
      var t := Step(s, capacity, amount, events[0]);
      var rest := Accepted(t, capacity, amount, events[1..]);
      hide Step;
      var first := if events[0].Write? && |s.queue| < capacity then [LowByte(events[0].b)] else [];
      InOrder(t, capacity, amount, events[1..]);
      StepInOrder(s, capacity, amount, events[0]);
      Regrouped(s.sent + s.queue, first, rest);
    }
  }

  lemma StepInOrder(s: State, capacity: nat, amount: nat, e: Event)
    requires |s.queue| <= capacity
    ensures var t := Step(s, capacity, amount, e);
      && |t.queue| <= capacity
      && t.sent + t.queue == s.sent + s.queue + if e.Write? && |s.queue| < capacity then [LowByte(e.b)] else []
  {
  }

  lemma Regrouped(a: seq<Byte>, b: seq<Byte>, c: seq<Byte>)
    ensures a + b + c == a + (b + c)
  {
  }

  /** The accepted bytes are the written ones without the dropped ones. */
  lemma {:induction false} AcceptedOrDropped(s: State, capacity: nat, amount: nat, events: seq<Event>)
    ensures var s', accepted := Run(s, capacity, amount, events), Accepted(s, capacity, amount, events);
      && |Inputs(events)| == |accepted| + (s'.dropped - s.dropped) && s'.dropped >= s.dropped
      && Subsequence(accepted, Inputs(events))
    decreases |events|
  {
    if events == [] {
      EmptySubsequence([]);
    } else {
      var t := Step(s, capacity, amount, events[0]);
      var rest, inputs := Accepted(t, capacity, amount, events[1..]), Inputs(events[1..]);
      AcceptedOrDropped(t, capacity, amount, events[1..]);
      if events[0].Tick? {
        assert Accepted(s, capacity, amount, events) == rest && Inputs(events) == inputs;
      } else {
        var b := LowByte(events[0].b);
        assert Inputs(events) == [b] + inputs && ([b] + inputs)[1..] == inputs;
        if |s.queue| < capacity {
          assert Accepted(s, capacity, amount, events) == [b] + rest && ([b] + rest)[1..] == rest;
        } else {
          assert Accepted(s, capacity, amount, events) == rest;
          SkippedSubsequence(rest, b, inputs);
        }
      }
    }
  }

  lemma SkippedSubsequence(a: seq<int>, x: int, b: seq<int>)
    requires Subsequence(a, b)
    ensures Subsequence(a, [x] + b)
  {
    assert ([x] + b)[1..] == b;
  }

  /** Starting with an empty bucket: every byte written was sent, is queued, or was
      dropped; what was sent and what is queued are the accepted bytes in order. */
  lemma Conservation(capacity: nat, amount: nat, events: seq<Event>)
    ensures var s := Run(State([], [], 0), capacity, amount, events);
      && |Inputs(events)| == |s.sent| + |s.queue| + s.dropped && |s.queue| <= capacity
      && Subsequence(s.sent + s.queue, Inputs(events))
  {
    var s0 := State([], [], 0);
    InOrder(s0, capacity, amount, events);
    AcceptedOrDropped(s0, capacity, amount, events);
    assert [] + [] + Accepted(s0, capacity, amount, events) == Accepted(s0, capacity, amount, events);
    var s := Run(s0, capacity, amount, events);
    assert |s.sent + s.queue| == |s.sent| + |s.queue|;
  }

  /** The inputs are the low bytes of the numbers written: for byte values, the
      numbers themselves. */
  lemma {:induction false} InputsAreLowBytes(events: seq<Event>)
    ensures |Inputs(events)| == |Written(events)|
    ensures forall i: nat {:trigger Inputs(events)[i]} :: i < |Inputs(events)| ==> IsLowByte(Inputs(events)[i], Written(events)[i])
    decreases |events|
  {
    hide IsLowByte;
    if events != [] {
      InputsAreLowBytes(events[1..]);
      if events[0].Write? {
        TakesLowByte(events[0].b);
      }
    }
  }

  /** b is w modulo 256; a byte value is itself. */
  ghost predicate IsLowByte(b: Byte, w: int) {
    (b - w) % 256 == 0 && (0 <= w < 256 ==> b == w)
  }

  lemma TakesLowByte(b: int)
    ensures IsLowByte(LowByte(b), b)
  {
  }

  /** When only byte values are written, what was sent and what is queued are the
      written numbers themselves, in order, without the dropped ones. */
  lemma NumbersConserved(capacity: nat, amount: nat, events: seq<Event>)
    requires forall e :: e in events && e.Write? ==> 0 <= e.b < 256
    ensures var s := Run(State([], [], 0), capacity, amount, events);
      |Written(events)| == |s.sent| + |s.queue| + s.dropped && Subsequence(s.sent + s.queue, Written(events))
  {
    Conservation(capacity, amount, events);
    InputsAreLowBytes(events);
    WrittenInRange(events);
    var inputs: seq<int>, written := Inputs(events), Written(events);
    forall i: nat | i < |inputs| ensures inputs[i] == written[i] {
      assert written[i] in written && IsLowByte(Inputs(events)[i], written[i]);
    }
    assert inputs == written;
  }

  lemma {:induction false} WrittenInRange(events: seq<Event>)
    requires forall e :: e in events && e.Write? ==> 0 <= e.b < 256
    ensures forall w :: w in Written(events) ==> 0 <= w < 256
    decreases |events|
  {
    if events != [] {
      WrittenInRange(events[1..]);
    }
  }

  /** In any stretch of a run, k ticks send at most k times the amount, and not less
      than what was queued unless every tick sends the full amount. */
  lemma {:induction false} RateBound(s: State, capacity: nat, amount: nat, events: seq<Event>)
    requires |s.queue| <= capacity
    ensures var s', most := Run(s, capacity, amount, events), Ticks(events) * amount;
      && s.sent <= s'.sent && |s'.sent| - |s.sent| <= most
      && (|s'.sent| - |s.sent| >= |s.queue| || |s'.sent| - |s.sent| == most)
    decreases |events|
  {
    if events != [] {
      var t := Step(s, capacity, amount, events[0]);
      RateBound(t, capacity, amount, events[1..]);
      MoreTicks(Ticks(events[1..]), amount);
      SentGrows(s.sent, t.sent, Run(s, capacity, amount, events).sent);
    }
  }

  lemma MoreTicks(k: nat, amount: nat)
    ensures (k + 1) * amount == k * amount + amount
  {
  }

  lemma SentGrows(a: seq<Byte>, b: seq<Byte>, c: seq<Byte>)
    requires a <= b && b <= c
    ensures a <= c
  {
  }

  /** A queued byte, at place p of the queue, is the next but p to be sent. */
  lemma KeepsItsTurn(s: State, capacity: nat, amount: nat, events: seq<Event>, p: nat)
    requires |s.queue| <= capacity && p < |s.queue|
    ensures var s' := Run(s, capacity, amount, events);
      |s'.sent| > |s.sent| + p ==> s'.sent[|s.sent| + p] == s.queue[p]
  {
    var s' := Run(s, capacity, amount, events);
    InOrder(s, capacity, amount, events);
    if |s'.sent| > |s.sent| + p {
      assert (s'.sent + s'.queue)[|s.sent| + p] == (s.sent + s.queue + Accepted(s, capacity, amount, events))[|s.sent| + p];
    }
  }

  function CeilDiv(a: nat, b: nat): (r: nat)
    requires b > 0
    ensures a <= b * r < a + b
  {
    (a + b - 1) / b
  }

  lemma CeilDivCovers(a: nat, b: nat, k: nat)
    requires b > 0 && k >= CeilDiv(a, b)
    ensures k * b >= a
  {
    var q := CeilDiv(a, b);
    assert b * q >= a by {
      assert a + b - 1 == b * ((a + b - 1) / b) + (a + b - 1) % b;
    }
    assert k * b >= q * b;
  }

  /** Whatever is queued, n ticks later it has been sent, whatever is written meanwhile. */
  ghost predicate LeavesWithin(n: nat, capacity: nat, amount: nat) {
    forall s: State, events: seq<Event>, p: nat ::
      p < |s.queue| <= capacity && Ticks(events) >= n ==> SentAt(s, Run(s, capacity, amount, events), p)
  }

  /** Every queued byte is sent within the number of ticks that empty a full queue. */
  lemma DelayBound(capacity: nat, amount: nat)
    requires amount > 0
    ensures LeavesWithin(CeilDiv(capacity, amount), capacity, amount)
  {
    forall s: State, events: seq<Event>, p: nat |
      p < |s.queue| <= capacity && Ticks(events) >= CeilDiv(capacity, amount)
      ensures SentAt(s, Run(s, capacity, amount, events), p)
    {
      RateBound(s, capacity, amount, events);
      CeilDivCovers(capacity, amount, Ticks(events));
      KeepsItsTurn(s, capacity, amount, events, p);
    }
  }

  /** There is a bound on the delay if and only if the rate is at least 20 bytes per
      second: below that a tick sends nothing. */
  lemma DelayIsBounded(capacity: nat, outputRate: nat)
    requires capacity >= 1
    ensures (exists n: nat :: LeavesWithin(n, capacity, AmountFor(outputRate))) <==> outputRate >= 20
  {
    if outputRate >= 20 {
      DelayBound(capacity, AmountFor(outputRate));
    } else {
      var amount := AmountFor(outputRate);
      assert amount == 0;
      forall n: nat ensures !LeavesWithin(n, capacity, amount) {
        NothingLeaves(n, capacity);
      }
    }
  }

  lemma NothingLeaves(n: nat, capacity: nat)
    requires capacity >= 1
    ensures !LeavesWithin(n, capacity, 0)
  {
    var s, events := State([0], [], 0), seq(n, _ => Tick);
    OnlyTicks(n);
    RateBound(s, capacity, 0, events);
    assert 0 < |s.queue| <= capacity && Ticks(events) >= n && !SentAt(s, Run(s, capacity, 0, events), 0);
  }

  /** The byte at place p of the queue of s has been sent in s'. */
  ghost predicate SentAt(s: State, s': State, p: nat) {
    p < |s.queue| && |s'.sent| > |s.sent| + p && s'.sent[|s.sent| + p] == s.queue[p]
  }

  lemma {:induction false} OnlyTicks(n: nat)
    ensures Ticks(seq(n, _ => Tick)) == n
  {
    if n > 0 {
      assert seq(n, _ => Tick)[1..] == seq(n - 1, _ => Tick);
      OnlyTicks(n - 1);
    }
  }

  /** A tick whose stream fails counts one byte as dropped: the account of the bytes
      stays right if and only if exactly one byte was lost. */
  lemma FailureMiscounts(s: State, s': State, amount: nat, fate: Fate)
    requires !fate.Succeeds? && (fate.FailsAfter? ==> fate.n < Min(amount, |s.queue|))
    requires var k := Min(amount, |s.queue|);
      var n := if fate.FailsAfter? then fate.n else k;
      s' == State(s.queue[k..], s.sent + s.queue[..n], s.dropped + 1)
    ensures |s'.sent| + |s'.queue| + s'.dropped == |s.sent| + |s.queue| + s.dropped
      <==> fate.FailsAfter? && fate.n + 1 == Min(amount, |s.queue|)
  {
  }
}

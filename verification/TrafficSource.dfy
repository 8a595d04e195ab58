/** The traffic source: every tick it sends the next stretch of a file to a stream,
    starting over at the end of the file. */
module TrafficSource {
  import opened Arithmetic
  import opened DiskBytes
  import opened Streams

  const CBR_AMOUNT: nat := 800
  const BURST_AMOUNT: nat := 15000

  /** n bytes of the endlessly repeated data, from position at on. */
  function Cycled(data: seq<Byte>, at: nat, n: nat): (r: seq<Byte>)
    requires data != []
    ensures |r| == n
  {
    seq(n, k requires 0 <= k < n => data[(at + k) % |data|])
  }

  /** The bytes sent are those of the endlessly repeated data. */
  ghost predicate IsCycled(data: seq<Byte>, sent: seq<Byte>) {
    data != [] && forall k: nat :: k < |sent| ==> sent[k] == data[k % |data|]
  }

  class Source {
    const data: seq<Byte>
    const dataSize: nat
    var offset: nat
    var out: seq<Byte>
    var cancelled: bool
    /** The number of successful ticks so far. */
    ghost var ticks: nat

    /** The closed form of every reachable state. */
    ghost predicate Valid()
      reads this
    {
      && 0 < dataSize <= |data|
      && IsCycled(data, out)
      && (!cancelled ==> |out| == ticks * dataSize && offset == |out| % |data|)
    }

    constructor (data: seq<Byte>, kind: nat)
      requires |data| >= if kind == 0 then CBR_AMOUNT else BURST_AMOUNT
      ensures Valid() && !cancelled && ticks == 0 && this.data == data
      ensures dataSize == if kind == 0 then CBR_AMOUNT else BURST_AMOUNT
    {
      this.data := data;
      dataSize := if kind == 0 then CBR_AMOUNT else BURST_AMOUNT;
      offset, out, cancelled, ticks := 0, [], false, 0;
    }

    /** out.write(data, from, n), when the stream takes only the first limit bytes of
        this tick and has taken done of them; true if it threw an exception. */
    method WriteOut(from: nat, n: nat, done: nat, fate: Fate) returns (failed: bool)
      requires from + n <= |data| && (fate.FailsAfter? ==> done <= fate.n)
      modifies this`out
      ensures failed <==> fate.FailsAfter? && fate.n < done + n
      ensures out == old(out) + data[from..from + if failed then fate.n - done else n]
    {
      failed := fate.FailsAfter? && fate.n < done + n;
      out := out + data[from..from + if failed then fate.n - done else n];
    }

    /** A tick.  Afterwards out has grown by the next bytes of the cycle: all of
        dataSize, or as many as the stream took before it failed. */
    method Tick(fate: Fate)
      requires Valid() && !cancelled && (fate.FailsAfter? ==> fate.n < dataSize)
      modifies this
      ensures Valid() && cancelled == !fate.Succeeds?
      ensures ticks == if fate.Succeeds? then old(ticks) + 1 else old(ticks)
      ensures out == old(out) + Cycled(data, old(offset), if fate.FailsAfter? then fate.n else dataSize)
      ensures offset == if fate.FailsAfter? then old(offset) else (old(offset) + dataSize) % |data|
    {
      hide IsCycled, Cycled;
      ghost var emitted := if fate.FailsAfter? then fate.n else dataSize;
      Wrapped(data, offset, emitted);
      StillCycled(data, out, offset, emitted);
      NextOffset(offset, dataSize, |data|);
      OffsetAdvances(ticks, dataSize, |data|, offset);
      SendTick(fate);
      if !cancelled {
        ticks := ticks + 1;
      }
    }

    /** The body of the tick. */
    method SendTick(fate: Fate)
      requires 0 < dataSize <= |data| && offset < |data| && !cancelled && (fate.FailsAfter? ==> fate.n < dataSize)
      modifies this`out, this`offset, this`cancelled
      ensures cancelled == !fate.Succeeds?
      ensures var n, rest := if fate.FailsAfter? then fate.n else dataSize, |data| - old(offset);
        out == old(out) + if n < rest then data[old(offset)..old(offset) + n] else data[old(offset)..] + data[..n - rest]
      ensures offset == if fate.FailsAfter? then old(offset)
        else if old(offset) + dataSize < |data| then old(offset) + dataSize else old(offset) + dataSize - |data|
    {
      var bytesUntilEOF := |data| - offset;
      if bytesUntilEOF > dataSize {
        cancelled := WriteOut(offset, dataSize, 0, fate);
        if !cancelled {
          offset := offset + dataSize;
        }
      } else {
        var bytesFromBeginning := dataSize - bytesUntilEOF;
        cancelled := WriteOut(offset, bytesUntilEOF, 0, fate);
        if !cancelled {
          cancelled := WriteOut(0, bytesFromBeginning, bytesUntilEOF, fate);
          if !cancelled {
            offset := bytesFromBeginning;
          }
        }
      }
      if fate.FlushFails? {
        cancelled := true;
      }
    }
  }

  lemma NextOffset(offset: nat, size: nat, n: nat)
    requires offset < n && size <= n
    ensures (offset + size) % n == if offset + size < n then offset + size else offset + size - n
  {
    if offset + size < n {
      SmallMod(offset + size, n);
    } else {
      WrapMod(offset + size, n);
    }
  }

  /** A tick that reaches the end of the data and goes on from the beginning. */
  lemma Wrapped(data: seq<Byte>, offset: nat, n: nat)
    requires offset < |data| && n <= |data|
    ensures var rest := |data| - offset;
      && (n < rest ==> data[offset..offset + n] == Cycled(data, offset, n))
      && (n >= rest ==> data[offset..] + data[..n - rest] == Cycled(data, offset, n))
  {
    var rest := |data| - offset;
    if n >= rest {
      var parts := data[offset..] + data[..n - rest];
      forall k: nat | k < n ensures parts[k] == Cycled(data, offset, n)[k] {
        if k < rest {
          SmallMod(offset + k, |data|);
        } else {
          WrapMod(offset + k, |data|);
        }
      }
    } else {
      forall k: nat | k < n ensures data[offset..offset + n][k] == Cycled(data, offset, n)[k] {
        SmallMod(offset + k, |data|);
      }
    }
  }

  lemma StillCycled(data: seq<Byte>, sent: seq<Byte>, offset: nat, n: nat)
    requires IsCycled(data, sent) && offset == |sent| % |data|
    ensures IsCycled(data, sent + Cycled(data, offset, n))
  {
    var sent' := sent + Cycled(data, offset, n);
    forall k: nat | k < |sent'| ensures sent'[k] == data[k % |data|] {
      if k >= |sent| {
        ModShift(|sent|, k - |sent|, |data|);
      }
    }
  }

  lemma OffsetAdvances(ticks: nat, size: nat, n: nat, offset: nat)
    requires n > 0 && offset == (ticks * size) % n
    ensures (ticks + 1) * size == ticks * size + size
    ensures (offset + size) % n == ((ticks + 1) * size) % n
  {
    ModShift(ticks * size, size, n);
  }
}

/**
 * The flow control of `oss_write_thread` (simple_synth.c:327-356): once the
 * device is open, the loop keeps `rem`, the number of samples of the current
 * block not yet written. A new block is generated when `rem` reaches 0; a
 * write is attempted only while the device queue holds less than one block;
 * a would-block answer waits and retries, any other failure closes the
 * device, and a successful write moves `rem` on by whole samples.
 *
 * The device is not modelled: each pass of the loop is given a `Reply`
 * holding what the `SNDCTL_DSP_GETODELAY` ioctl left in `odly`, what
 * `write` returned and whether `errno` read `EWOULDBLOCK` afterwards.
 * Samples are `int32_t`, four bytes each; `buf_size` samples make a block.
 */
module Writer {

  /** `sizeof(buf[0])`. */
  const SampleBytes: nat := 4

  /** The device's side of one pass of the loop. */
  datatype Reply = Reply(odelay: int, result: int, wouldBlock: bool)

  /** What one pass of the loop did. */
  datatype Outcome =
    | Continue(rem: int, generated: bool, attempted: bool, delivered: nat, accepted: nat)
    | Close(generated: bool, attempted: bool, delivered: nat)

  /**
   * `odly < sizeof(buf)` compares an `int` with a `size_t`: a negative
   * queue depth converts to a huge unsigned value and counts as full.
   */
  predicate QueueHasRoom(bufSize: nat, odelay: int)
  {
    0 <= odelay < SampleBytes * bufSize
  }

  /** `rem` after the block refill at the top of the loop. */
  function Refilled(bufSize: nat, rem: int): int
  {
    if rem == 0 then bufSize else rem
  }

  /** The bytes the write asks for: the rest of the block. */
  function Request(bufSize: nat, rem: int): int
  {
    SampleBytes * Refilled(bufSize, rem)
  }

  /** One pass of the inner loop (simple_synth.c:329-355). */
  function Step(bufSize: nat, rem: int, reply: Reply): (o: Outcome)
    ensures o.generated <==> rem == 0
    ensures o.attempted <==> QueueHasRoom(bufSize, reply.odelay)
    ensures !QueueHasRoom(bufSize, reply.odelay) ==>
              o == Continue(Refilled(bufSize, rem), rem == 0, false, 0, 0)
    ensures o.Close? <==> o.attempted && reply.result < SampleBytes && !reply.wouldBlock
    ensures o.Continue? ==> o.rem == Refilled(bufSize, rem) - o.accepted
    ensures o.Continue? ==> SampleBytes * o.accepted <= o.delivered
    ensures o.Continue? ==> (SampleBytes * o.accepted == o.delivered <==> o.delivered % SampleBytes == 0)
    ensures o.attempted && 0 < reply.result ==> o.delivered == reply.result
  {
    var generated := rem == 0;
    var rem1 := Refilled(bufSize, rem);
    var attempted := QueueHasRoom(bufSize, reply.odelay);
    var err := if attempted then reply.result else -1;
    var wouldBlock := if attempted then reply.wouldBlock else true;
    var delivered: nat := if err > 0 then err else 0;
    if err < SampleBytes as int then
      if wouldBlock then Continue(rem1, generated, attempted, delivered, 0)
      else Close(generated, attempted, delivered)
    else
      Continue(rem1 - err / SampleBytes, generated, attempted, delivered, err / SampleBytes)
  }

  /** The device writes no more than it is asked to. */
  predicate Honest(bufSize: nat, rem: int, reply: Reply)
  {
    reply.result <= Request(bufSize, rem)
  }

  /** With an honest device, `rem` stays within the block. */
  lemma StepInRange(bufSize: nat, rem: int, reply: Reply)
    requires 0 <= rem <= bufSize && Honest(bufSize, rem, reply)
    ensures Step(bufSize, rem, reply).Continue? ==> 0 <= Step(bufSize, rem, reply).rem <= bufSize
  {
  }

  /**
   * A write of one to three bytes is treated as a failure: with `errno`
   * left at `EWOULDBLOCK` the same samples are offered again, otherwise the
   * device is closed. Either way those bytes were taken by the device and
   * `rem` does not account for them.
   */
  lemma ShortWrite(bufSize: nat, rem: int, reply: Reply)
    requires QueueHasRoom(bufSize, reply.odelay) && 0 < reply.result < SampleBytes
    ensures var o := Step(bufSize, rem, reply);
            && o.delivered == reply.result
            && (reply.wouldBlock ==> o.Continue? && o.rem == Refilled(bufSize, rem) && o.accepted == 0)
            && (!reply.wouldBlock ==> o.Close?)
  {
  }

  /**
   * A write that ends inside a sample moves `rem` on by the whole samples
   * only: the bytes of the partial sample are sent again with the next write.
   */
  lemma PartialSample(bufSize: nat, rem: int, reply: Reply)
    requires QueueHasRoom(bufSize, reply.odelay) && reply.result >= SampleBytes
    requires reply.result % SampleBytes != 0
    ensures var o := Step(bufSize, rem, reply);
            o.Continue? && SampleBytes * o.accepted < o.delivered &&
            o.delivered - SampleBytes * o.accepted == reply.result % SampleBytes
  {
  }

  /** A device that claims more than it was asked for drives `rem` below 0, where no block is ever refilled. */
  lemma OverlongWrite(bufSize: nat)
    requires bufSize > 0
    ensures Step(bufSize, 0, Reply(0, SampleBytes * (bufSize + 1), false)).rem == -1
  {
  }

  // ---------------------------------------------------------------------
  // Runs of the loop
  // ---------------------------------------------------------------------

  /** The state when the replies run out or the device is closed. */
  datatype Run = Run(rem: int, blocks: nat, accepted: nat, closed: bool)

  /** The inner loop, one reply per pass, until the device is closed or the replies end. */
  function Loop(bufSize: nat, rem: int, replies: seq<Reply>): (r: Run)
    ensures r.closed ==> |replies| > 0
    ensures |replies| == 0 ==> r == Run(rem, 0, 0, false)
    decreases |replies|
  {
    if |replies| == 0 then Run(rem, 0, 0, false)
    else
      var o := Step(bufSize, rem, replies[0]);
      var gen := if o.generated then 1 else 0;
      match o
      case Close(_, _, _) => Run(Refilled(bufSize, rem), gen, 0, true)
      case Continue(rem', _, _, _, acc) =>
        var r := Loop(bufSize, rem', replies[1..]);
        Run(r.rem, r.blocks + gen, r.accepted + acc, r.closed)
  }

  /** Every reply of a run is honest about the request it answers. */
  predicate HonestRun(bufSize: nat, rem: int, replies: seq<Reply>)
    decreases |replies|
  {
    |replies| == 0 ||
    (Honest(bufSize, rem, replies[0]) &&
     match Step(bufSize, rem, replies[0])
     case Close(_, _, _) => true
     case Continue(rem', _, _, _, _) => HonestRun(bufSize, rem', replies[1..]))
  }

  /**
   * Samples are neither lost nor invented by the counter: what is still
   * owed is what was owed, plus a block per refill, minus the samples the
   * device accepted.
   */
  lemma {:induction false} LoopConservation(bufSize: nat, rem: int, replies: seq<Reply>)
    ensures var r := Loop(bufSize, rem, replies);
            r.rem == rem + bufSize * r.blocks - r.accepted
    decreases |replies|
  {
    if |replies| > 0 {
      var o := Step(bufSize, rem, replies[0]);
      var gen := if o.generated then 1 else 0;
      assert Refilled(bufSize, rem) == rem + bufSize * gen;
      if o.Continue? {
        var r := Loop(bufSize, o.rem, replies[1..]);
        LoopConservation(bufSize, o.rem, replies[1..]);
        assert r.rem == Refilled(bufSize, rem) - o.accepted + bufSize * r.blocks - r.accepted;
        Distribute(bufSize, r.blocks, gen);
        assert Loop(bufSize, rem, replies) == Run(r.rem, r.blocks + gen, r.accepted + o.accepted, r.closed);
      }
    }
  }

  lemma Distribute(a: nat, b: nat, c: nat)
    ensures a * (b + c) == a * b + a * c
  {
  }

  /**
   * The loop consumes its replies one at a time: running over `a + b` is
   * running over `a` and then, unless the device was closed, over `b` from
   * where `a` left `rem`. Once closed, no later reply is looked at.
   */
  lemma {:induction false} LoopConcat(bufSize: nat, rem: int, a: seq<Reply>, b: seq<Reply>)
    ensures var r := Loop(bufSize, rem, a);
            Loop(bufSize, rem, a + b) ==
              if r.closed then r
              else
                var r' := Loop(bufSize, r.rem, b);
                Run(r'.rem, r.blocks + r'.blocks, r.accepted + r'.accepted, r'.closed)
    decreases |a|
  {
    if |a| == 0 {
      assert a + b == b;
    } else {
      assert (a + b)[0] == a[0] && (a + b)[1..] == a[1..] + b;
      var o := Step(bufSize, rem, a[0]);
      if o.Continue? {
        LoopConcat(bufSize, o.rem, a[1..], b);
      }
    }
  }

  /** With an honest device, `rem` stays in [0, buf_size] for the whole run. */
  lemma {:induction false} LoopInRange(bufSize: nat, rem: int, replies: seq<Reply>)
    requires 0 <= rem <= bufSize && HonestRun(bufSize, rem, replies)
    ensures 0 <= Loop(bufSize, rem, replies).rem <= bufSize
    decreases |replies|
  {
    if |replies| > 0 {
      var o := Step(bufSize, rem, replies[0]);
      StepInRange(bufSize, rem, replies[0]);
      if o.Continue? {
        LoopInRange(bufSize, o.rem, replies[1..]);
      }
    }
  }

  /** While the queue stays full, nothing is written, nothing is refilled and nothing closes. */
  lemma {:induction false} FullQueueWaits(bufSize: nat, rem: int, replies: seq<Reply>)
    requires rem != 0
    requires forall i :: 0 <= i < |replies| ==> !QueueHasRoom(bufSize, replies[i].odelay)
    ensures Loop(bufSize, rem, replies) == Run(rem, 0, 0, false)
    decreases |replies|
  {
    if |replies| > 0 {
      FullQueueWaits(bufSize, rem, replies[1..]);
    }
  }
}

/**
 * What the transfer loop guarantees over a whole run: the shape of every
 * pass, when and why it stops, which bytes every exchange sends, read-only
 * mode, and the end-to-end copy through an echoing device.
 */
module TransferProps {
  import opened Basics
  import opened Environment
  import opened Transfer

  /** Byte i of the transmit buffer once the first n reads have been
      copied into its front, each over what the earlier ones left: the
      byte of the latest read that reached position i, or the 0 of the
      initial memset when none did. */
  function Latest(stdin: seq<ReadResult>, n: nat, i: nat): (x: byte)
  {
    if n == 0 then 0
    else
      var d := Delivered(ReadAt(stdin, n - 1));
      if i < |d| then d[i] else Latest(stdin, n - 1, i)
  }

  /** Byte i of the transmit buffer after n passes. */
  function TxByte(readonly: bool, env: Env, n: nat, i: nat): (x: byte)
  {
    if readonly then 0 else Latest(env.stdin, n, i)
  }

  /** Every pass in the log did what the code makes it do. */
  ghost predicate FaithfulLog(b: nat, readonly: bool, env: Env, log: seq<Iteration>)
  {
    forall j :: 0 <= j < |log| ==> Faithful(log[j], j, b, readonly, env)
  }

  /** Every pass but the last let the loop go on, and the loop has stopped
      exactly when the last one did not. */
  ghost predicate StopsOnlyAtEnd(s: State)
  {
    && (forall j :: 0 <= j < |s.log| - 1 ==> Continues(s.log[j]))
    && (s.status == Stopped <==> |s.log| > 0 && !Continues(s.log[|s.log| - 1]))
  }

  /** The transmit buffer holds what the reads so far left in it. */
  ghost predicate TxIsLatest(b: nat, readonly: bool, env: Env, s: State)
  {
    |s.tx| == b && forall i :: 0 <= i < b ==> s.tx[i] == TxByte(readonly, env, |s.log|, i)
  }

  /** Each exchange sent what the reads up to its pass left in the buffer. */
  ghost predicate SentIsLatest(readonly: bool, env: Env, log: seq<Iteration>)
  {
    forall j, i :: 0 <= j < |log| && log[j].exchange.Exchange? && 0 <= i < |log[j].exchange.sent| ==>
      log[j].exchange.sent[i] == TxByte(readonly, env, j + 1, i)
  }

  /** The facts that hold of every state the loop reaches from Initial. */
  ghost predicate Reachable(b: nat, readonly: bool, env: Env, s: State)
  {
    && |s.tx| == b && |s.rx| == b
    && FaithfulLog(b, readonly, env, s.log)
    && StopsOnlyAtEnd(s)
    && TxIsLatest(b, readonly, env, s)
    && SentIsLatest(readonly, env, s.log)
  }

  /** What Step promises about one pass from s to t, as a relation. */
  ghost predicate StepsTo(b: nat, readonly: bool, env: Env, s: State, t: State)
  {
    var n := |s.log|;
    var d := if readonly then [] else Delivered(ReadAt(env.stdin, n));
    && |s.tx| == b && |t.tx| == b && |t.rx| == b
    && |t.log| == n + 1 && t.log[..n] == s.log
    && Faithful(t.log[n], n, b, readonly, env)
    && (t.status == Running <==> Continues(t.log[n]))
    && |d| <= b && t.tx[..|d|] == d && t.tx[|d|..] == s.tx[|d|..]
    && (t.log[n].exchange.Exchange? ==> t.log[n].exchange.sent == t.tx)
  }

  lemma StepsToKeepsLog(b: nat, readonly: bool, env: Env, s: State, t: State)
    requires StepsTo(b, readonly, env, s, t)
    ensures forall j :: 0 <= j < |s.log| ==> t.log[j] == s.log[j]
  {
  }

  lemma StepsToKeepsFaithful(b: nat, readonly: bool, env: Env, s: State, t: State)
    requires StepsTo(b, readonly, env, s, t)
    requires FaithfulLog(b, readonly, env, s.log)
    ensures FaithfulLog(b, readonly, env, t.log)
  {
  }

  lemma StepsToKeepsStops(b: nat, readonly: bool, env: Env, s: State, t: State)
    requires StepsTo(b, readonly, env, s, t)
    requires StopsOnlyAtEnd(s) && s.status == Running
    ensures StopsOnlyAtEnd(t)
  {
  }

  lemma StepsToKeepsTx(b: nat, readonly: bool, env: Env, s: State, t: State)
    requires StepsTo(b, readonly, env, s, t)
    requires TxIsLatest(b, readonly, env, s)
    requires SentIsLatest(readonly, env, s.log)
    ensures TxIsLatest(b, readonly, env, t)
    ensures SentIsLatest(readonly, env, t.log)
  {
  }

  lemma StepsToKeepsReachable(b: nat, readonly: bool, env: Env, s: State, t: State)
    requires Reachable(b, readonly, env, s) && s.status == Running
    requires StepsTo(b, readonly, env, s, t)
    ensures Reachable(b, readonly, env, t)
  {
    StepsToKeepsFaithful(b, readonly, env, s, t);
    StepsToKeepsStops(b, readonly, env, s, t);
    StepsToKeepsTx(b, readonly, env, s, t);
  }

  lemma StepKeepsReachable(b: nat, readonly: bool, env: Env, s: State)
    requires Fits(env, b)
    requires Reachable(b, readonly, env, s) && s.status == Running
    ensures Reachable(b, readonly, env, Step(b, readonly, env, s))
  {
    StepsToKeepsReachable(b, readonly, env, s, Step(b, readonly, env, s));
  }

  lemma {:induction false} LoopKeepsReachable(b: nat, readonly: bool, env: Env, s: State, fuel: nat)
    requires Fits(env, b)
    requires Reachable(b, readonly, env, s)
    ensures Reachable(b, readonly, env, Loop(b, readonly, env, s, fuel))
    decreases fuel - |s.log|
  {
    if s.status == Running && |s.log| < fuel {
      StepKeepsReachable(b, readonly, env, s);
      LoopKeepsReachable(b, readonly, env, Step(b, readonly, env, s), fuel);
    }
  }

  /** Every pass of a run does what the code makes it do (see Faithful):
      each read asks for exactly blocksize bytes, each exchange and each
      write moves exactly blocksize bytes, each write hands over the bytes
      just received. Every pass but the last lets the loop go on; the loop
      has stopped exactly when its last pass did not, and otherwise it has
      made all fuel passes (RunStopsOrUsesFuel). */
  lemma RunIsFaithful(b: nat, readonly: bool, env: Env, fuel: nat)
    requires Fits(env, b)
    ensures FaithfulLog(b, readonly, env, Run(b, readonly, env, fuel).log)
    ensures StopsOnlyAtEnd(Run(b, readonly, env, fuel))
  {
    LoopKeepsReachable(b, readonly, env, Initial(b), fuel);
  }

  /** The loop only leaves by a break: a run is still going exactly when
      it has made all fuel passes and the last of them let the loop go on,
      and it has stopped exactly when its last pass did not. */
  lemma RunStopsOrUsesFuel(b: nat, readonly: bool, env: Env, fuel: nat)
    requires Fits(env, b)
    ensures var t := Run(b, readonly, env, fuel);
            t.status == Running <==> |t.log| == fuel && (fuel == 0 || Continues(t.log[fuel - 1]))
    ensures var t := Run(b, readonly, env, fuel);
            t.status == Stopped <==> |t.log| > 0 && !Continues(t.log[|t.log| - 1])
  {
    var t := Run(b, readonly, env, fuel);
    RunIsFaithful(b, readonly, env, fuel);
    var n := |t.log|;
    assert n <= fuel;
    assert StopsOnlyAtEnd(t);
    if t.status == Running {
      assert n >= fuel;
      assert n == 0 || Continues(t.log[n - 1]);
    } else {
      assert n > 0 && !Continues(t.log[n - 1]);
    }
  }

  /** The three ways out of the loop. A read returning 0 or less ends the
      loop with no exchange and no write in that pass; a failed exchange
      ends it with no write; a write returning 0 or less ends it. Nothing
      happens after any of them. */
  lemma StopConditions(b: nat, readonly: bool, env: Env, fuel: nat)
    requires Fits(env, b)
    ensures var t := Run(b, readonly, env, fuel);
            forall j :: 0 <= j < |t.log| ==>
              && (t.log[j].read.Read? && Count(t.log[j].read.result) <= 0 ==>
                    t.log[j].exchange == NoExchange && t.log[j].write == NoWrite && j == |t.log| - 1 && t.status == Stopped)
              && (t.log[j].exchange.Exchange? && t.log[j].exchange.reply == Failed ==>
                    t.log[j].write == NoWrite && j == |t.log| - 1 && t.status == Stopped)
              && (t.log[j].write.Write? && t.log[j].write.returned <= 0 ==>
                    j == |t.log| - 1 && t.status == Stopped)
  {
    var t := Run(b, readonly, env, fuel);
    RunIsFaithful(b, readonly, env, fuel);
    forall j | 0 <= j < |t.log|
      ensures Faithful(t.log[j], j, b, readonly, env)
      ensures !Continues(t.log[j]) ==> j == |t.log| - 1 && t.status == Stopped
    {
    }
  }

  /** The short-read property: in read/write mode, byte i of the block
      sent by the j-th exchange is byte i of the latest of reads 0..j that
      delivered more than i bytes (0 if none did). A short read thus sends
      stale bytes from earlier passes beyond what it delivered. */
  lemma SentBlockIsLatestInput(b: nat, env: Env, fuel: nat)
    requires Fits(env, b)
    ensures var t := Run(b, false, env, fuel);
            forall j, i :: 0 <= j < |t.log| && t.log[j].exchange.Exchange? && 0 <= i < |t.log[j].exchange.sent| ==>
              t.log[j].exchange.sent[i] == Latest(env.stdin, j + 1, i)
  {
    LoopKeepsReachable(b, false, env, Initial(b), fuel);
  }

  /** In read-only mode standard input is never read and every exchange
      sends blocksize zero bytes. */
  lemma ReadonlySendsZeros(b: nat, env: Env, fuel: nat)
    requires Fits(env, b)
    ensures var t := Run(b, true, env, fuel);
            forall j :: 0 <= j < |t.log| ==>
              t.log[j].read == NoRead && (t.log[j].exchange.Exchange? ==> t.log[j].exchange.sent == Zeros(b))
  {
    var t := Run(b, true, env, fuel);
    LoopKeepsReachable(b, true, env, Initial(b), fuel);
    forall j | 0 <= j < |t.log| && t.log[j].exchange.Exchange?
      ensures t.log[j].exchange.sent == Zeros(b)
    {
      assert forall i :: 0 <= i < b ==> t.log[j].exchange.sent[i] == TxByte(true, env, j + 1, i);
    }
  }

  /** A blocksize of 0 passes the range check. Every pass then asks for
      0 bytes: in read/write mode the read returns at most 0 and breaks;
      in read-only mode the empty exchange either fails and breaks, or the
      write of 0 bytes returns at most 0 and breaks. Either way the loop
      makes exactly one pass. */
  lemma ZeroBlocksizeStopsAtOnce(readonly: bool, env: Env, fuel: nat)
    requires Fits(env, 0) && 0 < fuel
    ensures Run(0, readonly, env, fuel).status == Stopped
    ensures |Run(0, readonly, env, fuel).log| == 1
  {
    var t := Step(0, readonly, env, Initial(0));
    assert Run(0, readonly, env, fuel) == Loop(0, readonly, env, t, fuel);
  }

  /** The bytes handed to write(2), pass after pass. */
  function Written(log: seq<Iteration>): (bytes: seq<byte>)
  {
    if log == [] then []
    else
      var last := log[|log| - 1];
      Written(log[..|log| - 1]) + (if last.write.Write? then last.write.data else [])
  }

  /** The bytes standard input delivers, read after read. */
  function Inputs(stdin: seq<ReadResult>): (bytes: seq<byte>)
  {
    if stdin == [] then [] else Inputs(stdin[..|stdin| - 1]) + Delivered(stdin[|stdin| - 1])
  }

  /** A device that sends back what it is sent. */
  ghost predicate Echoes(env: Env)
  {
    forall k: nat, tx: seq<byte> :: env.device(k, tx) == Received(tx)
  }

  lemma {:induction false} EchoLoop(b: nat, env: Env, s: State, fuel: nat)
    requires Fits(env, b) && Echoes(env)
    requires forall k :: 0 <= k < |env.stdin| ==> |Delivered(env.stdin[k])| == b
    requires forall k: nat :: env.stdout(k) > 0
    requires |env.stdin| < fuel
    requires |s.tx| == b && |s.rx| == b
    requires s.status == Running && |s.log| <= |env.stdin|
    requires Written(s.log) == Inputs(env.stdin[..|s.log|])
    ensures Loop(b, false, env, s, fuel).status == Stopped
    ensures Written(Loop(b, false, env, s, fuel).log) == Inputs(env.stdin)
    decreases fuel - |s.log|
  {
    var t := Step(b, false, env, s);
    var k := |s.log|;
    assert t.log == s.log + [t.log[k]];
    assert t.log[..k] == s.log;
    if k < |env.stdin| {
      var d := Delivered(env.stdin[k]);
      assert t.tx == t.tx[..|d|] == d;
      assert env.stdin[..k + 1][..k] == env.stdin[..k];
      EchoLoop(b, env, t, fuel);
    } else {
      assert env.stdin[..k] == env.stdin;
    }
  }

  /** End to end: with a device that echoes, reads that each deliver a
      full block and writes that all succeed, the run stops once input
      is exhausted and the bytes written are exactly the bytes read. */
  lemma EchoCopiesInput(b: nat, env: Env, fuel: nat)
    requires Fits(env, b) && Echoes(env)
    requires forall k :: 0 <= k < |env.stdin| ==> |Delivered(env.stdin[k])| == b
    requires forall k: nat :: env.stdout(k) > 0
    requires |env.stdin| < fuel
    ensures Run(b, false, env, fuel).status == Stopped
    ensures Written(Run(b, false, env, fuel).log) == Inputs(env.stdin)
  {
    assert env.stdin[..0] == [];
    EchoLoop(b, env, Initial(b), fuel);
  }
}

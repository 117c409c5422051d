/**
 * The block transfer loop of spi-pipe, as a function of the environment.
 * Each pass (offset reset to 0) reads up to blocksize bytes into the front
 * of the transmit buffer unless in read-only mode, exchanges the whole
 * transmit buffer with the device, and writes the whole receive buffer to
 * standard output. A read returning <= 0, a failed exchange or a write
 * returning <= 0 stops the loop.
 */
module Transfer {
  import opened Basics
  import opened Environment

  /** The calls one pass made, in order. */
  datatype ReadCall = NoRead | Read(requested: int, result: ReadResult)
  datatype ExchangeCall = NoExchange | Exchange(sent: seq<byte>, reply: Reply)
  datatype WriteCall = NoWrite | Write(data: seq<byte>, returned: int)
  datatype Iteration = Iteration(read: ReadCall, exchange: ExchangeCall, write: WriteCall)

  datatype Status = Running | Stopped

  /** The loop's state: both buffers, whether it goes on, and the log of
      the passes made so far (|log| is the number of the next pass). */
  datatype State = State(tx: seq<byte>, rx: seq<byte>, status: Status, log: seq<Iteration>)

  /** Both buffers zeroed, nothing done yet. */
  function Initial(b: nat): (s: State)
  {
    State(Zeros(b), Zeros(b), Running, [])
  }

  /** A pass after which the loop goes on: its exchange succeeded and its
      write returned a positive count. */
  predicate Continues(it: Iteration)
  {
    it.exchange.Exchange? && it.exchange.reply.Received? && it.write.Write? && it.write.returned > 0
  }

  /** What the code makes the j-th pass with blocksize b do: read (unless
      read-only) exactly b bytes' worth into the buffer front; exchange
      exactly when not read-only or the read returned a positive count,
      sending b bytes that begin with what was read; write exactly when the
      exchange succeeded, b bytes, those received. */
  ghost predicate Faithful(it: Iteration, j: nat, b: nat, readonly: bool, env: Env)
  {
    && (if readonly then it.read == NoRead else it.read == Read(b, ReadAt(env.stdin, j)))
    && (it.exchange.Exchange? <==> readonly || Count(it.read.result) > 0)
    && (it.exchange.Exchange? ==>
          && |it.exchange.sent| == b
          && it.exchange.reply == env.device(j, it.exchange.sent)
          && (!readonly ==> Delivered(it.read.result) <= it.exchange.sent))
    && (it.write.Write? <==> it.exchange.Exchange? && it.exchange.reply.Received?)
    && (it.write.Write? ==> |it.write.data| == b && it.write == Write(it.exchange.reply.rx, env.stdout(j)))
  }

  /** Exchange the transmit buffer tx, then write what came back. */
  function Transact(env: Env, read: ReadCall, tx: seq<byte>, s: State): (t: State)
  {
    var k := |s.log|;
    match env.device(k, tx)
    case Failed =>
      State(tx, s.rx, Stopped, s.log + [Iteration(read, Exchange(tx, Failed), NoWrite)])
    case Received(rx) =>
      var w := env.stdout(k);
      State(tx, rx, if w > 0 then Running else Stopped,
            s.log + [Iteration(read, Exchange(tx, Received(rx)), Write(rx, w))])
  }

  /** One pass of the loop. */
  function Step(b: nat, readonly: bool, env: Env, s: State): (t: State)
    requires Fits(env, b)
    requires |s.tx| == b && |s.rx| == b
    ensures |t.tx| == b && |t.rx| == b
    ensures |t.log| == |s.log| + 1 && t.log[..|s.log|] == s.log
    ensures Faithful(t.log[|s.log|], |s.log|, b, readonly, env)
    ensures t.status == Running <==> Continues(t.log[|s.log|])
    // a read that delivered d overwrites the first |d| bytes of tx and
    // leaves the rest as the previous pass left them
    ensures var d := if readonly then [] else Delivered(ReadAt(env.stdin, |s.log|));
            |d| <= b && t.tx[..|d|] == d && t.tx[|d|..] == s.tx[|d|..]
    ensures t.log[|s.log|].exchange.Exchange? ==> t.log[|s.log|].exchange.sent == t.tx
  {
    if readonly then
      Transact(env, NoRead, s.tx, s)
    else
      var r := ReadAt(env.stdin, |s.log|);
      if Count(r) <= 0 then
        State(s.tx, s.rx, Stopped, s.log + [Iteration(Read(b, r), NoExchange, NoWrite)])
      else
        Transact(env, Read(b, r), r.bytes + s.tx[|r.bytes|..], s)
  }

  /** Passes from s until the loop stops or fuel passes have been made in
      all; fuel stands in for the unbounded while (1). */
  function Loop(b: nat, readonly: bool, env: Env, s: State, fuel: nat): (t: State)
    requires Fits(env, b)
    requires |s.tx| == b && |s.rx| == b
    ensures |t.tx| == b && |t.rx| == b
    ensures |s.log| <= |t.log| && t.log[..|s.log|] == s.log
    ensures |t.log| <= if |s.log| < fuel then fuel else |s.log|
    ensures t.status == Running ==> s.status == Running && |t.log| >= fuel
    decreases fuel - |s.log|
  {
    if s.status == Stopped || |s.log| >= fuel then s
    else Loop(b, readonly, env, Step(b, readonly, env, s), fuel)
  }

  /** The loop from freshly zeroed buffers. */
  function Run(b: nat, readonly: bool, env: Env, fuel: nat): (t: State)
    requires Fits(env, b)
  {
    Loop(b, readonly, env, Initial(b), fuel)
  }
}

/**
 * main of spi-pipe: handle the options, allocate and zero the two
 * buffers, check that a device was given, open it, and run the block
 * transfer loop over the arrays until one of its three breaks.
 */
module SpiPipe {
  import opened Basics
  import opened Config
  import opened Environment
  import opened Transfer

  /** Where the process is: still in the transfer loop once the fuel
      bound is reached, or returned/exited with a code. */
  datatype ProcessStatus = InLoop | Exited(code: ExitCode)

  /** openedPath: the path open(2) was called on, if it was called at all. */
  datatype Outcome = Outcome(openedPath: Option<string>, status: ProcessStatus, log: seq<Iteration>)

  /** Allocate the receive and transmit buffers of b bytes, zero both,
      and record b as the transfer length. */
  method Setup(b: nat) returns (rx: array<byte>, tx: array<byte>, len: nat)
    ensures fresh(rx) && fresh(tx) && rx != tx
    ensures rx[..] == Zeros(b) && tx[..] == Zeros(b) && len == b
  {
    rx := new byte[b];
    tx := new byte[b];
    forall i | 0 <= i < b {
      rx[i] := 0;
    }
    forall i | 0 <= i < b {
      tx[i] := 0;
    }
    len := b;
  }

  /** The whole program. allocOk and openOk stand for malloc and open(2)
      succeeding; env for standard input, the device and standard output;
      fuel bounds the number of passes of the transfer loop. */
  method Execute(opts: seq<Opt>, allocOk: bool, openOk: bool, env: Env, fuel: nat) returns (o: Outcome)
    requires Configure(opts).Settings? ==> Fits(env, Configure(opts).blocksize)
    // -h, -v, an unknown option or a rejected -b: exit before anything else
    ensures Configure(opts).Exit? ==> o == Outcome(None, Exited(Configure(opts).code), [])
    // no buffers: exit with failure
    ensures Configure(opts).Settings? && !allocOk ==> o == Outcome(None, Exited(Failure), [])
    // no device: exit with failure, without calling open
    ensures Configure(opts).Settings? && allocOk && Configure(opts).device.None? ==>
              o == Outcome(None, Exited(Failure), [])
    // the device does not open: exit with failure
    ensures Configure(opts).Settings? && allocOk && Configure(opts).device.Some? && !openOk ==>
              o == Outcome(Configure(opts).device, Exited(Failure), [])
    // otherwise the loop runs from zeroed buffers, and however it stops the
    // program returns success
    ensures var c := Configure(opts);
            c.Settings? && allocOk && c.device.Some? && openOk ==>
              var t := Run(c.blocksize, c.readonly, env, fuel);
              && o.openedPath == c.device
              && o.log == t.log
              && o.status == (if t.status == Stopped then Exited(Success) else InLoop)
  {
    var c := ParseOptions(opts);
    if c.Exit? {
      return Outcome(None, Exited(c.code), []);
    }
    var blocksize := c.blocksize;
    var readonly := c.readonly;
    if !allocOk {
      return Outcome(None, Exited(Failure), []);
    }
    var rx, tx, len := Setup(blocksize);
    if c.device.None? {
      return Outcome(None, Exited(Failure), []);
    }
    if !openOk {
      return Outcome(c.device, Exited(Failure), []);
    }

    var stopped, log := TransferLoop(rx, tx, len, readonly, env, fuel);
    // both buffers are released and main returns success
    o := Outcome(c.device, if stopped then Exited(Success) else InLoop, log);
  }

  /** read(2) on standard input of count bytes into buf from offset on,
      with outcome r: the bytes it delivers land in buf[offset..offset+nb)
      and the rest of buf is left as it was. */
  method ReadInto(buf: array<byte>, offset: nat, count: nat, r: ReadResult) returns (nb: int)
    requires offset + count <= buf.Length && |Delivered(r)| <= count
    modifies buf
    ensures nb == Count(r)
    ensures buf[..] == old(buf[..offset]) + Delivered(r) + old(buf[offset + |Delivered(r)|..])
  {
    nb := Count(r);
    var d := Delivered(r);
    forall i | 0 <= i < |d| {
      buf[offset + i] := d[i];
    }
  }

  /** The SPI_IOC_MESSAGE(1) ioctl as the k-th exchange: the device is sent
      tx[..len] and, when it succeeds, its reply fills rx[..len]. */
  method ExchangeInto(rx: array<byte>, tx: array<byte>, len: nat, device: (nat, seq<byte>) -> Reply, k: nat)
    returns (reply: Reply)
    requires rx != tx && len == rx.Length == tx.Length
    requires device(k, tx[..]).Received? ==> |device(k, tx[..]).rx| == len
    modifies rx
    ensures reply == device(k, tx[..])
    ensures rx[..] == if reply.Received? then reply.rx else old(rx[..])
  {
    ghost var sent := tx[..];
    assert tx[..len] == sent;
    reply := device(k, tx[..len]);
    if reply.Received? {
      forall i | 0 <= i < len {
        rx[i] := reply.rx[i];
      }
    }
    assert tx[..] == sent;
  }

  /** One pass of the while (1) loop of main: reset offset, read into the
      front of tx unless read-only, exchange, write rx. go is false where
      the code breaks out of the loop. */
  method Pass(rx: array<byte>, tx: array<byte>, len: nat, readonly: bool, env: Env, log: seq<Iteration>)
    returns (go: bool, log': seq<Iteration>)
    requires rx != tx && len == tx.Length == rx.Length
    requires Fits(env, len)
    modifies rx, tx
    ensures State(tx[..], rx[..], if go then Running else Stopped, log')
            == Step(len, readonly, env, State(old(tx[..]), old(rx[..]), Running, log))
    // the bytes read land in the front of tx; the rest keeps its old bytes
    ensures var d := if readonly then [] else Delivered(ReadAt(env.stdin, |log|));
            forall i :: 0 <= i < len ==> tx[i] == if i < |d| then d[i] else old(tx[i])
  {
    var blocksize := len;
    ghost var s := State(tx[..], rx[..], Running, log);
    var offset := 0;
    var read := NoRead;
    if !readonly {
      var r := ReadAt(env.stdin, |log|);
      var nb := ReadInto(tx, offset, blocksize - offset, r);
      read := Read(blocksize - offset, r);
      if nb <= 0 {
        return false, log + [Iteration(read, NoExchange, NoWrite)];
      }
      assert tx[..] == r.bytes + s.tx[nb..];
      assert forall i :: 0 <= i < len ==> tx[i] == tx[..][i];
      offset := offset + nb;
    }
    assert rx[..] == s.rx;
    var reply := ExchangeInto(rx, tx, len, env.device, |log|);
    if reply.Failed? {
      return false, log + [Iteration(read, Exchange(tx[..], reply), NoWrite)];
    }
    var w := env.stdout(|log|);
    go := w > 0;
    log' := log + [Iteration(read, Exchange(tx[..], reply), Write(rx[..], w))];
  }

  /** The while (1) loop of main over the zeroed buffers, cut off after
      fuel passes. stopped tells whether it left by one of its breaks. */
  method TransferLoop(rx: array<byte>, tx: array<byte>, len: nat, readonly: bool, env: Env, fuel: nat)
    returns (stopped: bool, log: seq<Iteration>)
    requires rx != tx && len == tx.Length == rx.Length
    requires Fits(env, len)
    requires rx[..] == Zeros(len) && tx[..] == Zeros(len)
    modifies rx, tx
    ensures Run(len, readonly, env, fuel) == State(tx[..], rx[..], if stopped then Stopped else Running, log)
    // read-only: tx keeps the zeros of the memset
    ensures readonly ==> tx[..] == Zeros(len)
  {
    log := [];
    stopped := false;
    while |log| < fuel
      // read-only: tx keeps the zeros of the memset
      invariant readonly ==> tx[..] == Zeros(len)
      invariant Loop(len, readonly, env, State(tx[..], rx[..], Running, log), fuel) == Run(len, readonly, env, fuel)
      decreases fuel - |log|
    {
      var go;
      go, log := Pass(rx, tx, len, readonly, env, log);
      if !go {
        stopped := true;
        break;
      }
    }
  }
}

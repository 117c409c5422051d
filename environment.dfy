/**
 * The three operating-system calls the transfer loop makes, as oracles.
 * The k-th pass of the loop performs the k-th read, the k-th exchange and
 * the k-th write, so each oracle is indexed by the pass number.
 */
module Environment {
  import opened Basics

  /** Outcome of one read(2) on standard input: Data(bs) returned |bs|
      bytes (Data([]) is end of input, a return of 0); ReadError is -1. */
  datatype ReadResult = Data(bytes: seq<byte>) | ReadError

  /** Outcome of one SPI_IOC_MESSAGE(1) exchange: the bytes clocked in
      from the device, or a negative return of ioctl. */
  datatype Reply = Received(rx: seq<byte>) | Failed

  /** stdin: the outcomes of the successive reads (end of input once they
      run out); device: the reply to the k-th exchange sending tx;
      stdout: what the k-th write(2) returns. */
  datatype Env = Env(stdin: seq<ReadResult>, device: (nat, seq<byte>) -> Reply, stdout: nat -> int)

  /** The value read(2) returns. */
  function Count(r: ReadResult): (n: int)
    ensures n <= 0 <==> Delivered(r) == []
  {
    match r
    case Data(bs) => |bs|
    case ReadError => -1
  }

  /** The bytes a read stores into the buffer. */
  function Delivered(r: ReadResult): (bytes: seq<byte>)
  {
    match r
    case Data(bs) => bs
    case ReadError => []
  }

  /** The outcome of the k-th read. */
  function ReadAt(stdin: seq<ReadResult>, k: nat): (r: ReadResult)
  {
    if k < |stdin| then stdin[k] else Data([])
  }

  /** What the kernel guarantees for requests of b bytes: no read returns
      more than b bytes, a successful exchange of a b-byte transmit buffer
      fills exactly b receive bytes, and no write reports more than the b
      bytes it was given. */
  ghost predicate Fits(env: Env, b: nat)
  {
    && (forall k :: 0 <= k < |env.stdin| ==> |Delivered(env.stdin[k])| <= b)
    && (forall k: nat, tx: seq<byte> :: |tx| == b && env.device(k, tx).Received? ==> |env.device(k, tx).rx| == b)
    && (forall k: nat :: env.stdout(k) <= b)
  }
}

# spi-pipe in Dafny

spi-pipe copies standard input to an SPI bus through a spidev character
device and copies the bytes clocked back to standard output, one block of
`blocksize` bytes at a time. This project models its `main`:

- the option switch, reduced to its effect on the configuration
  (`Config`): `-b` accepts only values in 0..16384, with a default of 1. `-d` names
  the device and `-r` selects read-only mode. `-h` and `-v` exit with success, and an
  unknown option exits with failure;
- the setup: both buffers are allocated and zeroed, the transfer length is set to
  `blocksize`, and a missing device is rejected before `open` is called
  (`SpiPipe.Setup`, `SpiPipe.Execute`);
- the block transfer loop (`Transfer`, `SpiPipe.TransferLoop`). Each pass
  resets `offset` to 0. Unless the mode is read-only, it reads up to `blocksize`
  bytes into the front of the transmit buffer. It then does one full-duplex exchange
  that fills the receive buffer, and writes the whole receive buffer to standard
  output. A read returning 0 or less, a failed exchange, or a write returning 0 or
  less breaks out of the loop, and every break leads to a return of success.

Files:

- `basics.dfy`: `byte`, `Option`, `Zeros`.
- `config.dfy`: the option switch, a method over the options, its
  specification `Configure`, and lemmas about it.
- `environment.dfy`: the three system calls as oracles. The k-th pass makes the
  k-th read (an outcome from a finite sequence, end of input afterwards), the k-th
  exchange (a function of the pass number and the bytes sent) and the k-th write
  (the count it returns).
- `transfer.dfy`: the loop as functions on values. `Step` is one pass, `Loop` is the passes
  from a given state, and `Run` is `Loop` from zeroed buffers. Each pass leaves an `Iteration` record in a log
  of the calls made.
- `transfer_props.dfy`: what holds of every run: the shape of each pass, how the
  loop stops, which bytes each exchange sends, read-only mode, and the end-to-end
  copy through an echoing device.
- `spi_pipe.dfy`: `main` over real arrays: `Setup`, `ReadInto` (read(2)
  into the buffer), `ExchangeInto` (the ioctl), `Pass` (one pass of the loop with
  its three breaks), `TransferLoop` and `Execute`. `Pass`, `TransferLoop` and
  `Execute` are proved equal to `Step` and `Run` in `transfer.dfy`. `Setup`, `ReadInto`
  and `ExchangeInto` state their effect on the arrays in terms of `Zeros`, the read
  outcome (`Count`, `Delivered`) and the reply of the exchange oracle.

A `blocksize` of 0 passes the range check (spi-pipe.c:96) and is modelled.
Every pass then moves 0 bytes. In read/write mode the read returns at most 0
and breaks. In read-only mode the empty exchange either fails, or the write of
0 bytes returns at most 0; either way the loop breaks. So the loop makes exactly
one pass and `main` returns success. The missing-device check comes after the
buffers are allocated (spi-pipe.c:108-125), so an allocation failure wins over
a missing device, and the model keeps that order.

## Model

| member | source | states |
|---|---|---|
| `Config.ParseOptions` | spi-pipe.c:80-106 | The option loop handles the options in order and stops at the first one that exits. Its result is the configuration `Configure` defines. |
| `Config.ConfigureSucceedsIff` | spi-pipe.c:81-105 | The program reaches buffer allocation exactly when no option exits: no `-h`, no `-v`, no unknown option and no rejected `-b`. |
| `Config.ConfigureSettings` | spi-pipe.c:60-100 | When the options lead on, `blocksize` is the last accepted `-b` value (1 when `-b` is absent) and lies in 0..16384. The device is the last `-d` path, and read-only mode is on exactly when `-r` was given. |
| `Config.ConfigureExitsAtFirst` | spi-pipe.c:82-104 | The first exiting option decides the exit code: `-h` and `-v` give success. A `-b` that does not convert or lies outside 0..16384 gives failure, and so does an unknown option. |
| `SpiPipe.Setup` | spi-pipe.c:108-120 | Two new, distinct buffers of exactly `blocksize` bytes, both all zero, and a transfer length equal to `blocksize`. |
| `SpiPipe.Execute` | spi-pipe.c:46-153 | An exiting option ends the program with its code before anything is allocated. Allocation failure exits with failure. A missing device exits with failure without calling `open`, and so does a device that fails to open. Otherwise the log and the status are those of `Run` from zeroed buffers, and every way out of the loop returns success. |
| `SpiPipe.ReadInto` | spi-pipe.c:136 | read(2) stores the bytes it delivers at `offset` and leaves the rest of the buffer unchanged. It returns their count, or -1 on error. |
| `SpiPipe.ExchangeInto` | spi-pipe.c:142 | The exchange sends the whole transmit buffer. On success the reply fills the receive buffer. |
| `SpiPipe.Pass` | spi-pipe.c:134-147 | One pass over the arrays ends in the state `Step` gives. The bytes a read delivers overwrite the front of `tx`, and the rest of `tx` keeps its old bytes. |
| `SpiPipe.TransferLoop` | spi-pipe.c:133-148 | The loop over the arrays ends in the state `Run` gives, either by a break or when the pass bound is reached. In read-only mode `tx` stays all zero. |
| `Transfer.Step` | spi-pipe.c:134-147 | One pass keeps both buffers at `blocksize` bytes and adds one record to the log, and that record is `Faithful`. The loop goes on exactly when the exchange succeeded and the write returned a positive count. A read that delivered d bytes rewrites `tx[0..d)` and leaves `tx[d..blocksize)` as the previous pass left it. The exchange sends `tx`. |
| `Transfer.Loop` | spi-pipe.c:133-148 | Passes keep both buffers at `blocksize` bytes and only extend the log. The loop still runs only when the pass bound is used up. |
| `TransferProps.RunIsFaithful` | spi-pipe.c:133-148 | Every pass of a run does what the code makes it do. Every read requests exactly `blocksize` bytes (offset is 0). An exchange happens exactly when the mode is read-only or the read returned a positive count, and it sends `blocksize` bytes that begin with the bytes read. A write happens exactly when the exchange succeeded, and it writes the `blocksize` bytes received. All passes but the last let the loop go on, and the loop has stopped exactly when its last pass did not. |
| `TransferProps.RunStopsOrUsesFuel` | spi-pipe.c:133-148 | The loop only leaves by a break. A run is still going exactly when it has made all `fuel` passes and the last of them let the loop go on, and it has stopped exactly when its last pass did not let the loop go on. |
| `TransferProps.StopConditions` | spi-pipe.c:136-147 | A read returning 0 or less ends the loop with no exchange and no write in that pass. A failed exchange ends it with no write. A write returning 0 or less ends it. In each case no later pass exists. |
| `TransferProps.SentBlockIsLatestInput` | spi-pipe.c:134-139 | In read/write mode, byte i of the j-th block sent is byte i of the latest of reads 0..j that reached position i, or 0 when none did. A short read therefore sends stale bytes from earlier passes beyond its end. |
| `TransferProps.ReadonlySendsZeros` | spi-pipe.c:115-142 | In read-only mode standard input is never read, and every exchange sends `blocksize` zero bytes. |
| `TransferProps.ZeroBlocksizeStopsAtOnce` | spi-pipe.c:96-146 | With a `blocksize` of 0, in either mode, the loop stops after exactly one pass. |
| `TransferProps.EchoCopiesInput` | spi-pipe.c:133-148 | Take a device that echoes, reads that each deliver a full block, and writes that succeed. The loop then stops once input is exhausted, and the bytes written are exactly the bytes read. |

## Left out

- Tokenising argv with `getopt_long` and converting the `-b` argument with `sscanf("%d")` are not modelled. Each option arrives decoded, and `-b` carries the converted value or "did not convert". The behaviour of `%d` on values outside the C `int` range is library behaviour.
- The usage text, the version text and every `fprintf`/`perror` message are left out, because they are output only.
- `open`, `ioctl(SPI_IOC_MESSAGE(1))` and the `spi_ioc_transfer` layout (delay, speed and word size left at 0) are foreign calls. They are replaced by the flag `openOk` and the exchange oracle.
- Standard input is a sequence of per-read outcomes rather than a byte stream. The model does not say how the kernel splits the stream into reads.
- Partial writes are not modelled byte by byte. A write is recorded as a request of `blocksize` bytes plus the count it returned, and `Written` counts the bytes handed to write(2), not the bytes that reached standard output. The only constraint on the returned count is that it is at most `blocksize` (`Environment.Fits`).
- The failure of either `malloc` is one flag, `allocOk`.
- `free` and closing the device are not modelled, because Dafny has no manual memory management. Signals and external termination are left out as well.
- The unbounded `while (1)` is cut off after `fuel` passes. A run that reaches the bound is reported as still in the loop (`InLoop`), and nothing is said about the passes beyond it.
- `SpiPipe.ExchangeInto`: assumes a failed ioctl leaves the receive buffer unchanged. The loop breaks right after a failed exchange, so no write observes it.
- `TransferProps.EchoCopiesInput`: says nothing about a `blocksize` of 0. With 0, a write returns at most 0 (`Environment.Fits`), so the premise that every write succeeds already excludes it. `TransferProps.ZeroBlocksizeStopsAtOnce` covers that case.

# snap-issue-reproducer: probe format and echo loops, modelled in Dafny

The repository is a small diagnostic tool for SCION datagram transport. A
client sends a probe every 100 ms. The probe is the 16-byte ASCII tag
`Ping send_count=` followed by the decimal text of a 64-bit send counter. The
client also classifies every datagram it receives. An echo server sends every
non-empty datagram it receives back to its source. Both loops reuse one
64 KiB receive buffer.

This model covers:

- the probe wire format: encoding, and the four-way classification of an
  inbound datagram, including Rust's `parse::<u64>` on the counter text;
- the client's per-iteration step: the send counter and the receive buffer;
- the server's per-iteration echo step on its reused buffer;
- the server's check of the bound address against the requested one.

Modules, one file each:

- `Results`: Option and Result.
- `Bytes`: the byte type.
- `Decimal`: `u64::to_string` and `str::parse::<u64>`, on bytes.
- `Probe`: the tag, `Encode`, `Classify`.
- `Transport`: addresses, the 64 KiB buffer, the effect of `recv_from`.
- `ClientLoop`: the `Client` class.
- `ServerLoop`: the `EchoServer` class.
- `Exchange`: the two roles together.

## Modelling choices

- **Events.** Each loop iteration handles one event, and the caller supplies
  it. A client event is `Tick(sendOk)`, `Recv(data, src)` or `RecvErr`. A
  server event is `Recv(data, src, sendOk)` or `RecvErr`. The outcome of
  `send_to` arrives as the flag `sendOk`, so the caller's choice of events
  stands in for the `tokio::select!` race.
- **Outcomes.** A step returns an outcome value naming the branch that the
  source logs.
- **Buffers.** Both buffers are `array<Byte>` of length 65536, zeroed at
  start like `vec![0u8; 65536]`. `Transport.ReceiveInto` writes a received
  datagram over the buffer's prefix and leaves the bytes after it in place.
  The client classifies `buf[..len]`, and the server echoes `buf[..len]`.
- **Counter parse.** `parse::<u64>` is modelled directly on bytes.
  - It takes an optional `+` and then the digits, accumulated left to right.
  - A non-digit gives `InvalidDigit`. This is checked before the multiply and
    add overflow checks, which give `PosOverflow`.
  - The empty text gives `Empty`, and a lone sign gives `InvalidDigit`.
- **Lossy UTF-8.** The source parses `String::from_utf8_lossy(&buf[16..len])`.
  Lossy decoding keeps every ASCII byte as it is. A valid multi-byte sequence
  becomes one character, and each maximal invalid subpart becomes one U+FFFD.
  Either way, every byte it produces for a non-ASCII run is 0x80 or above, so
  it is never a digit or a sign. The ASCII bytes before the first non-ASCII
  byte are unchanged, and the text stays empty or non-empty. So parsing the
  raw bytes gives the same result and the same error kind.
- **Failed receive in the client.** A failed `recv_from` does not match the
  `Ok((len, src))` pattern, so `tokio::select!` disables that branch for the
  iteration and keeps waiting for the tick. The model makes it a `RecvErr`
  step that changes nothing. Whatever event ends the iteration follows it.
- **Counter text.** `parse::<u64>` accepts exactly an optional `+` followed by
  digits whose value is at most 2^64 − 1.
- **Buffer contents over a run.** `Transport.ReceiveAll` is the buffer after a
  sequence of datagrams was received into it, one `Overwrite` each. Each loop
  lists the datagrams its events deliver with its own `Datagrams` function.

## Model

| member | source | states |
|---|---|---|
| `Decimal.DecimalDigits` | src/client/mod.rs:76 | `send_count.to_string()` is one or more ASCII digits, starts with '0' only for the value 0, and denotes exactly the counter |
| `Decimal.DecimalDigitsUnique` | src/client/mod.rs:76 | every digit string without a leading zero is the `to_string` of its own value: the counter text is canonical |
| `Decimal.Accumulate` | src/client/mod.rs:56-57 | the digit loop of `parse::<u64>` never reports `Empty`, and a success is at least the value already accumulated |
| `Decimal.AccumulateDigits` | src/client/mod.rs:56-57 | all-digit text after an already-read prefix yields the value of prefix plus text, or `PosOverflow` exactly when that value exceeds 2^64 − 1 |
| `Decimal.AccumulateNonDigit` | src/client/mod.rs:56-57 | any non-digit byte in the counter text makes the parse fail |
| `Decimal.ParseU64Accepts` | src/client/mod.rs:56-57 | the counter parse succeeds iff the text is an optional '+' then one or more digits of value at most 2^64 − 1, so the empty text, a lone '+', '-', whitespace, other non-digits and overflow are all rejected |
| `Decimal.ParseU64Value` | src/client/mod.rs:56-57 | on such text the parse returns the value of the digits, with or without the '+' |
| `Decimal.ParseU64Errors` | src/client/mod.rs:56-57 | over-large all-digit counter text is `PosOverflow`, and only the empty text is `Empty` |
| `Decimal.ParseDecimalDigits` | src/client/mod.rs:56-57 | parsing the `to_string` text of any `u64` gives back that number |
| `Decimal.ParseU64` | src/client/mod.rs:56-57 | has no `ensures` of its own. Its contract is carried by `ParseU64Accepts`, `ParseU64Value` and `ParseU64Errors` below |
| `Probe.TagSpellsTagText` | src/client/mod.rs:55 | the tag bytes are the ASCII codes of `Ping send_count=`, 16 of them |
| `Probe.Encode` | src/client/mod.rs:75-78 | has no `ensures` of its own. Its contract is carried by `EncodeSpec` and `EncodeUnique` below |
| `Probe.EncodeSpec` | src/client/mod.rs:75-78 | the probe for counter n is the 16-byte tag followed by the shortest decimal digits of n, with no sign and no padding |
| `Probe.EncodeUnique` | src/client/mod.rs:75-78 | any message made of the tag and unpadded digits of n is the probe for n |
| `Probe.Classify` | src/client/mod.rs:50-69 | has no `ensures` of its own. Its contract is carried by `ClassifyCases` and `ClassifyCounterIff` below |
| `Probe.ClassifyCases` | src/client/mod.rs:50-69 | fewer than 16 bytes is "too short" whatever the bytes; 16 or more bytes without the tag is "unknown format" carrying `buf[..len]`; a tagged datagram is a counter or a parse error |
| `Probe.ClassifyReadsOnlyPrefix` | src/client/mod.rs:55-56 | buffers that agree on `buf[..len]` classify the same: stale bytes at index len or beyond never matter |
| `Probe.ClassifyEncode` | src/client/mod.rs:55-60 | round trip over the full `u64` range: the probe for n, received with its own length and any stale bytes after it, is classified as counter n |
| `Probe.ClassifyCounterIff` | src/client/mod.rs:55-63 | a datagram yields a counter iff it is tagged and its remainder is well-formed `u64` text, and then it yields the value of the digits, whether or not a '+' precedes them |
| `Probe.ClassifyTagOnly` | src/client/mod.rs:55-63 | exactly the tag with nothing after it is a parse error (`Empty`), not a crash |
| `ClientLoop.SentCountersConsecutive` | src/client/mod.rs:79-85 | over any run of events, the sent probes carry consecutive counters from the initial one, with none skipped or repeated, whatever failed sends and receives come between |
| `ClientLoop.SentMessagesEncode` | src/client/mod.rs:75-82 | over any run of events, the bytes each sent probe puts on the wire are the probe format for the counter it records, so the consecutive counters above are what the wire carries |
| `ClientLoop.Client.constructor` | src/client/mod.rs:42-44 | the loop starts with send counter 0 and a zeroed 65536-byte buffer |
| `ClientLoop.Client.Step` | src/client/mod.rs:46-86 | one iteration. A successful tick sends the probe for the current counter to the remote and then adds exactly 1. A failed send leaves the counter unchanged. A receive overwrites the buffer prefix, is classified on the datagram alone and leaves the counter unchanged. A failed receive changes nothing |
| `ClientLoop.Client.Run` | src/client/mod.rs:45-88 | a sequence of iterations: the counter grows by the number of successful sends, the outcomes are those of the steps in order, and the final buffer is `ReceiveAll` of the datagrams received |
| `Transport.ReceiveInto` | src/server/mod.rs:55-58 | a receive writes the datagram at the start of the reused buffer and keeps the bytes after it |
| `Transport.ReceiveAll` | src/server/mod.rs:55-58 | receiving datagrams one after another into the reused buffer keeps its size, and afterwards the buffer starts with the last datagram received |
| `ServerLoop.ListenAddressCheck` | src/server/mod.rs:48-53 | a warning is produced exactly when the bound address differs from the requested listen address, and names both |
| `ServerLoop.Reply` | src/server/mod.rs:61-66 | has no `ensures` of its own. Its contract is carried by `ReplyIsDatagram` below |
| `ServerLoop.ReplyIsDatagram` | src/server/mod.rs:61-66 | after a receive, the reply read from `buf[..len]` is the datagram itself sent to its source, whatever earlier datagrams left in the buffer; an empty datagram gets no reply |
| `ServerLoop.EchoServer.constructor` | src/server/mod.rs:55 | the loop starts with a zeroed 65536-byte buffer |
| `ServerLoop.EchoServer.Step` | src/server/mod.rs:57-71 | one iteration. A failed receive sends nothing. A zero-length datagram is discarded. Otherwise exactly the received bytes go back to the source. A failed send is reported and the step returns normally |
| `ServerLoop.EchoServer.Serve` | src/server/mod.rs:56-72 | over any sequence of iterations, each outcome depends on its own event only: no bytes from earlier datagrams ever reach a later echo. The final buffer is `ReceiveAll` of the datagrams received |
| `Exchange.ProbeEchoedBack` | src/client/mod.rs:55-60 | a probe echoed by the server comes back to the client and is recognised as carrying its counter, and the client's counter is left alone |

## Left out

- src/main.rs is not part of this model: CLI parsing, tracing initialisation and the tokio runtime wiring are plumbing.
- Stack setup is not modelled: `ScionStackBuilder`, the auth token, `build`, `local_addresses`, `bind`, the ports 10111 and 4433, and the fatal setup errors. These are foreign networking calls; their results appear only as the addresses and datagrams the events carry.
- The 100 ms `tokio::time::interval` and the `select!` race are timing and scheduling. Which event an iteration handles is the caller's choice.
- Log text and levels are left out. Each step returns an outcome value naming the branch that logs.
- Full UTF-8 lossy decoding of the unknown-format payload is left out. It only feeds a log line, so the outcome carries the raw bytes `buf[..len]`.
- `SocketAddr` is a plain record compared for equality. The SCION address structure and its text form are not modelled.
- ClientLoop.Client.Step: does not model what `send_count += 1` does at 2^64 − 1, which is a panic in a debug build or a wrap to 0 in a release build; a successful tick requires `sendCount < U64Max`, which excludes both.
- ClientLoop.Client.Run: requires the run's successful sends to keep the counter within 2^64 − 1, for the same reason.
- Receive lengths: `recv_from` never reports more bytes than the 65536-byte buffer holds. Both steps require this of a received datagram instead of modelling truncation.
- A failed `recv_from` is assumed to leave the buffer unchanged.
- The loops never end. `Run` and `Serve` model any finite prefix of the iterations.

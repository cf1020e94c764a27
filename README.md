# barnowl-laird decoder core, modelled in Dafny

barnowl-laird turns the text a Laird radio module prints on its serial port
into raddecs: records saying which transmitter was heard, with which
identifier type and at which signal strength (RSSI). This project models the
three pieces of sequential logic under the serial and timer plumbing:

- **The serial packet decoder** (`lib/serialpacketdecoder.js`), module
  `SerialPacket`. A line `adv:<header><address> <payload> <rssi>` is split at
  single spaces. It yields a raddec only when it has exactly three elements
  and the first starts with `adv:`. The two characters after the prefix are
  the header: `03` means a random 48-bit address, anything else EUI-48. The
  rest of the first element, lower-cased, is the transmitter id. The raddec
  carries one decoding: no receiver, type unknown, and the `parseInt` of the
  third element as RSSI. `decode` splits a queue at `\n` and collects, in
  order, the raddecs of all pieces, the unterminated last one included.
  `DecodeSerialPacket` is a function. `Decode` is a method with the source's
  loop, proved equal to the function `DecodeQueue`.
- **The Laird decoder** (`lib/lairddecoder.js`), module `Decoder`, class
  `LairdDecoder`. It keeps one text queue per origin in a `map` field.
  `HandleSerialData` creates or extends the origin's queue, decodes the
  **whole** queue, and hands each raddec in order to the sink. The sink is
  the barnowl instance's `handleRaddec`, modelled as appending to the
  `forwarded` sequence. The queue is never trimmed, so every later chunk from
  the same origin forwards earlier lines again. `DecodedAgainAfterTerminatedQueue`,
  `TerminatedLinesForwardedAgain` and `Simulation.TestQueueAfterTicks` state
  this.
- **The test listener** (`lib/testlistener.js`), module `Simulation`, class
  `TestListener`. On each tick it builds a fixed `adv:` line from the RSSI
  before the update. It then adds a random step to each entry of its RSSI
  array in place and clamps the entry to [-80, -60]. Finally it hands the
  line to the decoder under the origin `1a14d00b1654/2`. The tick time and
  the random steps are parameters. A step is an integer from -3 to 2, the
  values `Math.floor(Math.random() * 5 - 2.5)` can take.

The JavaScript builtins the decoder relies on are written out in module
`JsString`. These are `split` with a one-character separator, `substring`
with its clamping of out-of-range ends, `toLowerCase`, `parseInt` without a
radix, and the decimal form of an integer. `Wrappers` holds `Option`, which
stands for a value or `null`, and `FilterMap`, the in-order collection of the
values a function gives for a sequence, which the `forEach` loop of `decode`
computes. For the RSSI, `None` stands for `NaN`.

Four points of the code shape the model:

- The queue is never cut back: nothing is written back to
  `queuesByOrigin` after `decode` (`lib/lairddecoder.js:45-49`).
- The packet is not rebuilt from header, address and payload; that is only
  a TODO (`lib/serialpacketdecoder.js:45`).
- The receiver of every decoding is `null` with type unknown
  (`lib/serialpacketdecoder.js:47-48`).
- The transmitter id is everything after the header, whatever its length
  (`lib/serialpacketdecoder.js:35`).

## Model

| member | source | states |
|---|---|---|
| `JsString.Split` | lib/serialpacketdecoder.js:25 | `split` with a one-character separator; always at least one piece. Its meaning is stated by the split lemmas below. |
| `JsString.SplitLength` | lib/serialpacketdecoder.js:67 | A split has exactly one more piece than the string has separators. |
| `JsString.SplitWithoutSeparator` | lib/serialpacketdecoder.js:25 | A string without the separator splits into itself alone. |
| `JsString.SplitPiecesAreFree` | lib/serialpacketdecoder.js:25 | No piece of a split contains the separator. |
| `JsString.JoinSplit` | lib/serialpacketdecoder.js:25 | Joining the pieces with the separator gives back the string. |
| `JsString.SplitJoin` | lib/serialpacketdecoder.js:25 | Splitting separator-free pieces joined by the separator gives back the pieces. |
| `JsString.SplitConcat` | lib/serialpacketdecoder.js:67 | Splitting `a + sep + b` is splitting `a`, then splitting `b`. |
| `JsString.SplitAppend` | lib/serialpacketdecoder.js:67 | Appending text to a string keeps every terminated piece; only the last piece grows. |
| `JsString.Substring` | lib/serialpacketdecoder.js:29-37 | `substring(from, to)` clamps to the length: exact when `to` is in range, the suffix from `from` when only `to` is past the end, empty when `from` is at or past the end. |
| `JsString.SubstringFrom` | lib/serialpacketdecoder.js:33-35 | `substring(from)` is the suffix from `from`, or empty past the end. |
| `JsString.ToLower` | lib/serialpacketdecoder.js:35 | Lower-casing keeps the length and lower-cases each character in place. |
| `JsString.ParseInt` | lib/serialpacketdecoder.js:43 | `parseInt` without a radix: leading whitespace skipped, optional sign, `0x` prefix for hexadecimal, the longest run of digits, `None` for NaN. Its properties are stated by `ParseIntDigits` and `ParseIntToString`. |
| `JsString.IntToString` | lib/testlistener.js:47-48 | The decimal text of an integer, as `+` on a string and a number writes it: digits only for a non-negative value, a minus sign and digits otherwise. |
| `JsString.ParseIntDigits` | lib/serialpacketdecoder.js:43 | `parseInt` of decimal digits, with or without a minus sign, is their (negated) value. |
| `JsString.ParseIntToString` | lib/serialpacketdecoder.js:43 | `parseInt` reads back the decimal string of every integer. |
| `SerialPacket.DecodeSerialPacket` | lib/serialpacketdecoder.js:24-56 | `decodeSerialPacket`, the same branches as the source; its behaviour is stated by `DecodeSerialPacketSpec`. |
| `SerialPacket.RaddecOf` | lib/serialpacketdecoder.js:35-49 | The raddec built from header, address and RSSI text; characterised through `DecodeSerialPacketSpec` and `DecodeWellFormedLine`. |
| `SerialPacket.DecodeSerialPacketSpec` | lib/serialpacketdecoder.js:24-56 | A raddec exactly for three space-separated elements whose first starts with `adv:`, and none otherwise. Type RND48 exactly when `03` follows the prefix, else EUI48. Id is the lower-cased rest after prefix and header, empty for a short first element. One decoding: receiver null, type unknown, RSSI the `parseInt` of the third element. |
| `SerialPacket.DecodeWellFormedLine` | lib/serialpacketdecoder.js:24-51 | `adv:` + 2-character header + address, payload and RSSI text joined by spaces decodes to the raddec of those fields, NaN RSSI included. |
| `SerialPacket.DecodedLineShape` | lib/serialpacketdecoder.js:25-33 | Conversely, a line that decodes is three space-free elements joined by single spaces, the first starting with `adv:`. |
| `SerialPacket.PayloadIsIgnored` | lib/serialpacketdecoder.js:24-51 | Replacing the space-free payload element never changes the result. |
| `Wrappers.FilterMap` | lib/serialpacketdecoder.js:70-76 | The in-order collection of the values a function gives, skipping elements it gives none for; never longer than its input. |
| `SerialPacket.DecodeAll` | lib/serialpacketdecoder.js:70-76 | At most one raddec per line. |
| `SerialPacket.DecodeQueue` | lib/serialpacketdecoder.js:66-79 | `decode` as a function: the raddecs of the `\n`-separated pieces of the queue, last piece included; stated by the `DecodeQueue…` lemmas below. |
| `SerialPacket.Decode` | lib/serialpacketdecoder.js:66-79 | The loop over the `\n`-separated pieces returns exactly `DecodeQueue` of the queue. |
| `SerialPacket.DecodeAllConcat` | lib/serialpacketdecoder.js:70-76 | Decoding two runs of lines is decoding each run and concatenating, in order. |
| `SerialPacket.DecodeAllMembers` | lib/serialpacketdecoder.js:70-76 | A raddec is in the result iff some line decodes to it. |
| `SerialPacket.DecodeQueueBound` | lib/serialpacketdecoder.js:66-78 | A queue yields at most one raddec more than it has newlines. |
| `SerialPacket.DecodeQueueEmpty` | lib/serialpacketdecoder.js:66-78 | The empty queue yields no raddec. |
| `SerialPacket.DecodeQueueConcat` | lib/serialpacketdecoder.js:67-76 | Decoding `a + "\n" + b` is decoding `a`, then decoding `b`. |
| `SerialPacket.DecodeTerminatedLine` | lib/serialpacketdecoder.js:67-76 | A single line plus `\n` yields that line's raddec, if any; the trailing empty piece yields nothing. |
| `SerialPacket.DecodeQueueLine` | lib/serialpacketdecoder.js:67-76 | A newline-free line, a newline and more text decode to the line's raddec, if any, followed by what the rest decodes to. |
| `SerialPacket.DecodeQueueAppend` | lib/serialpacketdecoder.js:67-76 | After appending text, the terminated lines decode as before, ahead of the last piece read together with the new text. |
| `SerialPacket.DecodeAllIgnoresContext` | lib/serialpacketdecoder.js:66-76 | Origin, time and options never change the result. |
| `Decoder.Enqueue` | lib/lairddecoder.js:38-44 | The origin's queue becomes `data` if the origin was new, else old queue + `data`. Every other queue is unchanged. The key set gains at most the origin. |
| `Decoder.EnqueueAll` | lib/lairddecoder.js:36-44 | A run of chunks adds the origin to the key set, and nothing else. |
| `Decoder.EnqueueAllAccumulates` | lib/lairddecoder.js:38-46 | After chunks `d1 … dn` from one origin, its queue is its earlier text followed by `d1 + … + dn`. Other queues are unchanged; nothing is ever removed. |
| `Decoder.DecodedAgainAfterTerminatedQueue` | lib/lairddecoder.js:45-49 | When the queue ends in a newline, the next call forwards all the queue's raddecs again, then those of the new data. |
| `Decoder.TerminatedLinesForwardedAgain` | lib/lairddecoder.js:45-49 | Whatever the queue held, the raddecs of its terminated lines are a prefix of what the next call forwards. |
| `Decoder.LairdDecoder.constructor` | lib/lairddecoder.js:22-27 | A new decoder has no queues and has forwarded nothing. |
| `Decoder.LairdDecoder.HandleRaddec` | lib/barnowllaird.js:51-54 | The sink appends the raddec to what it has received. |
| `Decoder.LairdDecoder.Forward` | lib/lairddecoder.js:47-49 | The sink receives the given raddecs, in order, after what it had. |
| `Decoder.LairdDecoder.HandleSerialData` | lib/lairddecoder.js:36-50 | The queues become `Enqueue` of the old queues. The sink receives, in order and after what it had, `DecodeQueue` of the whole new queue, with origin, time and options passed through. |
| `Simulation.ClampedStep` | lib/testlistener.js:62-69 | The result lies in [-80, -60]. It is `old + step` when that is in range, otherwise the nearer bound. From an in-range value it never moves past `old + step`. |
| `Simulation.Stepped` | lib/testlistener.js:61-70 | An update keeps the length and leaves every entry in [-80, -60]. |
| `Simulation.SteppedAt` | lib/testlistener.js:61-70 | Entry `i` after an update depends only on entry `i` and step `i`. |
| `Simulation.TestListener.UpdateSimulatedRssi` | lib/testlistener.js:60-71 | The array, updated in place, becomes `Stepped` of its old contents; every entry ends in [-80, -60]. |
| `Simulation.TestListener.EmitRadioDecodings` | lib/testlistener.js:45-53 | The line is built from the RSSI before the update. The array is updated. The decoder receives that line under the test origin with the listener's options. |
| `Simulation.TestListener.constructor` | lib/testlistener.js:26-36 | The RSSI array starts as `[-70]`, which is in range. A missing or zero period becomes 1000 ms; missing options become empty. |
| `Simulation.SimulatedLine` | lib/testlistener.js:47-48 | The fixed `adv:02FEE150BADA55` line with the fixed payload and the RSSI in decimal, without the newline. |
| `Simulation.SimulatedSerialData` | lib/testlistener.js:47-48 | The simulated line followed by `\n`, the chunk sent on each tick. |
| `Simulation.SimulatedLineDecodes` | lib/testlistener.js:47-48 | The simulated line decodes to id `fee150bada55`, type EUI48, RSSI equal to the RSSI it was built from. |
| `Simulation.SimulatedSerialDataDecodes` | lib/testlistener.js:47-48 | Decoding the emitted chunk gives exactly that one raddec; the trailing empty piece gives nothing. |
| `Simulation.SimulatedStreamStep` | lib/testlistener.js:45-51 | The first simulated line of a run decodes to its raddec, ahead of the rest of the run. |
| `Simulation.SimulatedStreamDecodes` | lib/testlistener.js:45-51 | A run of simulated lines decodes to one raddec per line, in order. |
| `Simulation.TestQueueAfterTicks` | lib/testlistener.js:45-53 | After `n` ticks on a fresh origin, the test origin's queue decodes to the `n` raddecs of all ticks so far. So the `n`-th call forwards every earlier raddec again. |

## Left out

- Serial port handling (`lib/seriallistener.js`): opening the port,
  auto-detecting an FTDI device, and logging are all I/O. That listener
  forwards `data.toString('hex')`, that is hex text rather than the ASCII
  lines; the model starts from the text handed to `handleSerialData`.
- Event emission (`lib/barnowllaird.js`): the EventEmitter, listener
  registration and `handleInfrastructureMessage` are plumbing. Only
  `handleRaddec` is modelled, as appending to a sequence.
- Timers, clock and randomness: `setInterval` and `new Date().getTime()` are
  left out; the period is stored but no timer runs, and the tick time is a
  parameter. `Math.random` is replaced by integer steps given by the caller.
- The raddec library: `new Raddec` and `addDecoding` are modelled as building
  a plain value with the id, its type and a list of decodings. The unused
  `advlib-identifier` import is not modelled.
- Packet reconstruction: the source only has a TODO (`lib/serialpacketdecoder.js:45`).
- Receiver identity from the origin: the source hard-codes null and unknown.
- Trimming consumed lines from a queue: the source never does it.
- JsString.ParseInt: does not model the loss of precision of numbers above
  2^53, because JavaScript numbers are doubles and the model uses unbounded
  integers. `NaN` is `None` and `-0` is 0.
- JsString.ToLower: lower-cases only the ASCII letters A to Z, because
  JavaScript's full Unicode case mapping is not modelled.
- JsString.IntToString: writes every integer in plain decimal. JavaScript
  switches to exponent notation from 10^21, a magnitude the bounded RSSI
  never reaches.
- Strings are modelled as sequences of Unicode code points, whereas
  JavaScript's `substring` counts UTF-16 code units and strings may hold lone
  surrogates. The model is exact for ASCII input, the documented input of the
  decoder (`lib/serialpacketdecoder.js:19`); outside the 16-bit range the
  positions of `Substring` and `SubstringFrom` differ from the source.
- JsString.Substring: requires `from <= to`; JavaScript swaps the two
  arguments otherwise, a case the decoder never meets since it only calls
  `substring(0, 4)` and `substring(0, 2)`.
- Decoder.Enqueue: treats the queue object as a plain map. The special
  behaviour of a JavaScript object for keys such as `__proto__` is not
  modelled.

/**
 * The test listener: a simulated Laird module that, on every tick, sends one
 * fixed `adv:` line carrying its current RSSI to the decoder, then moves each
 * simulated RSSI by a random step, clamped to [-80, -60]. The timer and the
 * random number generator are outside the model: the time of a tick and the
 * steps are parameters.
 */
module Simulation {
  import opened Wrappers
  import opened JsString
  import opened SerialPacket
  import opened Decoder

  const DefaultRadioDecodingsPeriodMilliseconds: nat := 1000
  const DefaultRssi: int := -70
  const MinRssi: int := -80
  const MaxRssi: int := -60
  const RssiRandomDelta: int := 5
  const TestOrigin: string := "1a14d00b1654/2"

  /** The address, header and payload of the simulated line. */
  const SimulatedHeader: string := "02"
  const SimulatedAddress: string := "FEE150BADA55"
  const SimulatedPayload: string := "0201060AFF4C001005011C242FBC"

  /**
   * The values `Math.floor(Math.random() * RssiRandomDelta - RssiRandomDelta / 2)`
   * can take: the floor of a number in [-2.5, 2.5).
   */
  predicate IsRandomStep(step: int)
  {
    -(RssiRandomDelta + 1) / 2 <= step <= (RssiRandomDelta - 1) / 2
  }

  predicate InRange(value: int)
  {
    MinRssi <= value <= MaxRssi
  }

  /**
   * One entry after one update: the step is added, and a result beyond a
   * bound is replaced by that bound.
   */
  function ClampedStep(value: int, step: int): (r: int)
    ensures InRange(r)
    ensures InRange(value + step) ==> r == value + step
    ensures value + step > MaxRssi ==> r == MaxRssi
    ensures value + step < MinRssi ==> r == MinRssi
    ensures InRange(value) ==> (value <= r <= value + step || value + step <= r <= value)
  {
    var v := value + step;
    if v > MaxRssi then MaxRssi else if v < MinRssi then MinRssi else v
  }

  /** Every entry after one update, each from its own old value and step. */
  function Stepped(values: seq<int>, steps: seq<int>): (r: seq<int>)
    requires |steps| == |values|
    ensures |r| == |values|
    ensures forall i :: 0 <= i < |r| ==> InRange(r[i])
  {
    if values == [] then [] else [ClampedStep(values[0], steps[0])] + Stepped(values[1..], steps[1..])
  }

  /** Entry `i` of an update depends on entry `i` and step `i` alone. */
  lemma {:induction false} SteppedAt(values: seq<int>, steps: seq<int>, i: nat)
    requires |steps| == |values| && i < |values|
    ensures Stepped(values, steps)[i] == ClampedStep(values[i], steps[i])
    decreases i
  {
    if i > 0 {
      SteppedAt(values[1..], steps[1..], i - 1);
    }
  }

  /** The line the simulated module sends for the RSSI `rssi`, newline included. */
  function SimulatedSerialData(rssi: int): string
  {
    SimulatedLine(rssi) + "\n"
  }

  /** The raddec that line stands for. */
  function SimulatedRaddec(rssi: int): Raddec
  {
    Raddec("fee150bada55", Eui48, [Decoding(None, Unknown, Some(rssi))])
  }

  lemma IntToStringHasNoSeparator(v: int)
    ensures PacketElementSeparator !in IntToString(v) && PacketSuffix !in IntToString(v)
  {
    var m: nat := if v < 0 then -v else v;
    var digits := NatToString(m);
    assert AllDigits(digits, 10);
    assert DigitValue(PacketElementSeparator) == 36 && DigitValue(PacketSuffix) == 36;
    if v < 0 {
      assert IntToString(v) == "-" + digits;
    }
  }

  /** The simulated line without its newline: the fixed header, address and payload, then the RSSI. */
  function SimulatedLine(rssi: int): string
  {
    PacketPrefix + SimulatedHeader + SimulatedAddress + " " + SimulatedPayload + " " + IntToString(rssi)
  }

  lemma SimulatedLineHasNoNewline(rssi: int)
    ensures PacketSuffix !in SimulatedLine(rssi)
  {
    IntToStringHasNoSeparator(rssi);
    assert PacketSuffix !in PacketPrefix + SimulatedHeader + SimulatedAddress + " " + SimulatedPayload + " ";
  }

  lemma SimulatedFieldsHaveNoSpace()
    ensures PacketElementSeparator !in SimulatedHeader + SimulatedAddress
    ensures PacketElementSeparator !in SimulatedPayload
    ensures |SimulatedHeader| == 2 && SimulatedHeader != RandomHeader
    ensures ToLower(SimulatedAddress) == "fee150bada55"
  {
  }

  /** The simulated line decodes to its raddec. */
  lemma SimulatedLineDecodes(rssi: int, origin: string, time: int, options: DecodingOptions)
    ensures DecodeSerialPacket(SimulatedLine(rssi), origin, time, options) == Some(SimulatedRaddec(rssi))
  {
    IntToStringHasNoSeparator(rssi);
    SimulatedFieldsHaveNoSpace();
    DecodeWellFormedLine(SimulatedHeader, SimulatedAddress, SimulatedPayload, IntToString(rssi), origin, time, options);
    ParseIntToString(rssi);
  }

  /** The simulated line decodes, trailing empty piece and all, to exactly its raddec. */
  lemma SimulatedSerialDataDecodes(rssi: int, origin: string, time: int, options: DecodingOptions)
    ensures DecodeQueue(SimulatedSerialData(rssi), origin, time, options) == [SimulatedRaddec(rssi)]
  {
    SimulatedLineHasNoNewline(rssi);
    DecodeTerminatedLine(SimulatedLine(rssi), origin, time, options);
    SimulatedLineDecodes(rssi, origin, time, options);
  }

  /** The lines sent for the RSSI values `rssis`, one after another. */
  function SimulatedStream(rssis: seq<int>): string
  {
    if rssis == [] then "" else SimulatedSerialData(rssis[0]) + SimulatedStream(rssis[1..])
  }

  /** The first line of a stream decodes ahead of the rest of the stream. */
  lemma SimulatedStreamStep(rssis: seq<int>, origin: string, time: int, options: DecodingOptions)
    requires rssis != []
    ensures DecodeQueue(SimulatedStream(rssis), origin, time, options)
            == [SimulatedRaddec(rssis[0])] + DecodeQueue(SimulatedStream(rssis[1..]), origin, time, options)
  {
    var line := SimulatedLine(rssis[0]);
    var rest := SimulatedStream(rssis[1..]);
    assert SimulatedStream(rssis) == line + "\n" + rest;
    SimulatedLineHasNoNewline(rssis[0]);
    DecodeQueueLine(line, rest, origin, time, options);
    SimulatedLineDecodes(rssis[0], origin, time, options);
  }

  /** The raddecs of the ticks with RSSI values `rssis`, one per tick, in order. */
  function SimulatedRaddecs(rssis: seq<int>): (raddecs: seq<Raddec>)
    ensures |raddecs| == |rssis|
    ensures forall i :: 0 <= i < |rssis| ==> raddecs[i] == SimulatedRaddec(rssis[i])
  {
    if rssis == [] then [] else [SimulatedRaddec(rssis[0])] + SimulatedRaddecs(rssis[1..])
  }

  /** A stream of simulated lines decodes to their raddecs, one per line, in order. */
  lemma {:induction false} SimulatedStreamDecodes(rssis: seq<int>, origin: string, time: int, options: DecodingOptions)
    ensures DecodeQueue(SimulatedStream(rssis), origin, time, options) == SimulatedRaddecs(rssis)
  {
    if rssis == [] {
      DecodeQueueEmpty(origin, time, options);
    } else {
      SimulatedStreamStep(rssis, origin, time, options);
      SimulatedStreamDecodes(rssis[1..], origin, time, options);
    }
  }

  /** The chunks the listener sends for the RSSI values `rssis`, one per tick. */
  function SimulatedChunks(rssis: seq<int>): (chunks: seq<string>)
    ensures |chunks| == |rssis|
  {
    if rssis == [] then [] else [SimulatedSerialData(rssis[0])] + SimulatedChunks(rssis[1..])
  }

  lemma {:induction false} ConcatSimulatedChunks(rssis: seq<int>)
    ensures Concat(SimulatedChunks(rssis)) == SimulatedStream(rssis)
  {
    if rssis != [] {
      ConcatSimulatedChunks(rssis[1..]);
      assert SimulatedChunks(rssis)[1..] == SimulatedChunks(rssis[1..]);
    }
  }

  /**
   * Because the queue is never trimmed, after the ticks with RSSI values
   * `rssis` the test origin's queue decodes to one raddec per tick so far:
   * the call for the last tick forwards all of them again.
   */
  lemma TestQueueAfterTicks(queues: map<string, string>, rssis: seq<int>, time: int, options: DecodingOptions)
    requires TestOrigin !in queues && rssis != []
    ensures var queue := EnqueueAll(queues, TestOrigin, SimulatedChunks(rssis))[TestOrigin];
            var raddecs := DecodeQueue(queue, TestOrigin, time, options);
            |raddecs| == |rssis| && forall i :: 0 <= i < |rssis| ==> raddecs[i] == SimulatedRaddec(rssis[i])
  {
    var queue := EnqueueAll(queues, TestOrigin, SimulatedChunks(rssis))[TestOrigin];
    EnqueueAllAccumulates(queues, TestOrigin, SimulatedChunks(rssis));
    ConcatSimulatedChunks(rssis);
    assert queue == SimulatedStream(rssis);
    SimulatedStreamDecodes(rssis, TestOrigin, time, options);
  }

  class TestListener {
    var decoder: LairdDecoder
    var radioDecodingPeriod: nat
    var rssi: array<int>
    var decodingOptions: DecodingOptions

    /** There is an RSSI to send, and every RSSI lies within the bounds. */
    ghost predicate Valid()
      reads this, rssi
    {
      rssi.Length >= 1 && forall i :: 0 <= i < rssi.Length ==> InRange(rssi[i])
    }

    /**
     * A listener sending to `decoder`. A missing or zero period falls back to
     * the default; missing options become an empty set of options.
     */
    constructor (decoder: LairdDecoder, radioDecodingPeriod: Option<nat>, decodingOptions: Option<DecodingOptions>)
      ensures Valid() && fresh(rssi)
      ensures rssi[..] == [DefaultRssi]
      ensures this.decoder == decoder
      ensures this.radioDecodingPeriod
              == if radioDecodingPeriod.Some? && radioDecodingPeriod.value != 0 then radioDecodingPeriod.value
                 else DefaultRadioDecodingsPeriodMilliseconds
      ensures this.decodingOptions == if decodingOptions.Some? then decodingOptions.value else map[]
    {
      this.decoder := decoder;
      this.radioDecodingPeriod :=
        if radioDecodingPeriod.Some? && radioDecodingPeriod.value != 0 then radioDecodingPeriod.value
        else DefaultRadioDecodingsPeriodMilliseconds;
      rssi := new int[1] [DefaultRssi];
      this.decodingOptions := if decodingOptions.Some? then decodingOptions.value else map[];
    }

    /** `updateSimulatedRssi`, with `steps[i]` the random step drawn for entry `i`. */
    method UpdateSimulatedRssi(steps: seq<int>)
      requires |steps| == rssi.Length
      requires forall i :: 0 <= i < |steps| ==> IsRandomStep(steps[i])
      modifies rssi
      ensures rssi[..] == Stepped(old(rssi[..]), steps)
      ensures forall i :: 0 <= i < rssi.Length ==> InRange(rssi[i])
    {
      for index := 0 to rssi.Length
        invariant forall k :: 0 <= k < index ==> rssi[k] == ClampedStep(old(rssi[k]), steps[k])
        invariant forall k :: index <= k < rssi.Length ==> rssi[k] == old(rssi[k])
      {
        rssi[index] := rssi[index] + steps[index];
        if rssi[index] > MaxRssi {
          rssi[index] := MaxRssi;
        } else if rssi[index] < MinRssi {
          rssi[index] := MinRssi;
        }
      }
      ghost var was := old(rssi[..]);
      forall k | 0 <= k < rssi.Length
        ensures rssi[..][k] == Stepped(was, steps)[k]
      {
        SteppedAt(was, steps, k);
      }
    }

    /**
     * `emitRadioDecodings`: the line is built from the RSSI before the update,
     * the RSSI is updated, and the line goes to the decoder under the test
     * origin.
     */
    method EmitRadioDecodings(time: int, steps: seq<int>)
      requires Valid()
      requires |steps| == rssi.Length
      requires forall i :: 0 <= i < |steps| ==> IsRandomStep(steps[i])
      modifies rssi, decoder
      ensures Valid()
      ensures rssi[..] == Stepped(old(rssi[..]), steps)
      ensures decoder.queuesByOrigin
              == Enqueue(old(decoder.queuesByOrigin), TestOrigin, SimulatedSerialData(old(rssi[0])))
      ensures decoder.forwarded
              == old(decoder.forwarded) + DecodeQueue(decoder.queuesByOrigin[TestOrigin], TestOrigin, time, decodingOptions)
    {
      var simulatedSerialData := SimulatedSerialData(rssi[0]);
      UpdateSimulatedRssi(steps);
      decoder.HandleSerialData(simulatedSerialData, TestOrigin, time, decodingOptions);
    }
  }
}

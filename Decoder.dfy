/**
 * The Laird decoder: one text queue per origin (the serial device a stream
 * comes from). Each chunk of data is appended to its origin's queue, the whole
 * queue is decoded, and every resulting raddec is handed to the sink in
 * order. The queue is never trimmed, so lines already decoded are decoded and
 * forwarded again by every later chunk from the same origin.
 */
module Decoder {
  import opened JsString
  import opened SerialPacket

  /** The queues after `data` arrives from `origin`: created on first data, appended to afterwards. */
  function Enqueue(queues: map<string, string>, origin: string, data: string): (r: map<string, string>)
    ensures r.Keys == queues.Keys + {origin}
    ensures origin in queues ==> r[origin] == queues[origin] + data
    ensures origin !in queues ==> r[origin] == data
    ensures forall o :: o in queues && o != origin ==> r[o] == queues[o]
  {
    if origin !in queues then queues[origin := data] else queues[origin := queues[origin] + data]
  }

  /** Everything that arrived from one origin, in order. */
  function Concat(chunks: seq<string>): string
  {
    if chunks == [] then "" else chunks[0] + Concat(chunks[1..])
  }

  /** The queues after the chunks `chunks` arrive, one after another, from `origin`. */
  function EnqueueAll(queues: map<string, string>, origin: string, chunks: seq<string>): (r: map<string, string>)
    ensures r.Keys == if chunks == [] then queues.Keys else queues.Keys + {origin}
    decreases |chunks|
  {
    if chunks == [] then queues else EnqueueAll(Enqueue(queues, origin, chunks[0]), origin, chunks[1..])
  }

  /** The text before the chunks, if any, followed by all the chunks: nothing is ever removed. */
  lemma {:induction false} EnqueueAllAccumulates(queues: map<string, string>, origin: string, chunks: seq<string>)
    requires origin in queues || chunks != []
    ensures var r := EnqueueAll(queues, origin, chunks);
            r[origin] == (if origin in queues then queues[origin] else "") + Concat(chunks)
            && forall o :: o in queues && o != origin ==> r[o] == queues[o]
    decreases |chunks|
  {
    var before := if origin in queues then queues[origin] else "";
    if chunks == [] {
      assert before + Concat(chunks) == before;
    } else {
      var next := Enqueue(queues, origin, chunks[0]);
      assert EnqueueAll(queues, origin, chunks) == EnqueueAll(next, origin, chunks[1..]);
      EnqueueAllAccumulates(next, origin, chunks[1..]);
      assert next[origin] == before + chunks[0];
      assert Concat(chunks) == chunks[0] + Concat(chunks[1..]);
      assert before + chunks[0] + Concat(chunks[1..]) == before + Concat(chunks);
    }
  }

  /**
   * A chunk that arrives after a queue ending in a newline is decoded after
   * everything that queue held: the raddecs forwarded for the queue are
   * forwarded again, first, by the next call.
   */
  lemma DecodedAgainAfterTerminatedQueue(queue: string, data: string,
                                         origin: string, time: int, options: DecodingOptions)
    requires |queue| > 0 && queue[|queue| - 1] == PacketSuffix
    ensures DecodeQueue(queue + data, origin, time, options)
            == DecodeQueue(queue, origin, time, options) + DecodeQueue(data, origin, time, options)
  {
    var lines := queue[..|queue| - 1];
    assert queue == lines + "\n";
    assert queue + data == lines + "\n" + data;
    DecodeQueueConcat(lines, data, origin, time, options);
    DecodeQueueTerminated(lines, origin, time, options);
  }

  /**
   * Whatever the queue held before a call, the raddecs of its terminated lines
   * are a prefix of what the call forwards.
   */
  lemma TerminatedLinesForwardedAgain(queue: string, data: string,
                                      origin: string, time: int, options: DecodingOptions)
    ensures var pieces := Split(queue, PacketSuffix);
            var complete := DecodeAll(pieces[..|pieces| - 1], origin, time, options);
            var all := DecodeQueue(queue + data, origin, time, options);
            |complete| <= |all| && all[..|complete|] == complete
  {
    DecodeQueueAppend(queue, data, origin, time, options);
  }

  class LairdDecoder {
    /** The accumulated text of every origin that has sent data. */
    var queuesByOrigin: map<string, string>
    /** Every raddec handed to the sink (the barnowl instance's `handleRaddec`), in order. */
    var forwarded: seq<Raddec>

    constructor ()
      ensures queuesByOrigin == map[] && forwarded == []
    {
      queuesByOrigin := map[];
      forwarded := [];
    }

    /** The sink: the barnowl instance receives one raddec. */
    method HandleRaddec(raddec: Raddec)
      modifies this`forwarded
      ensures forwarded == old(forwarded) + [raddec]
    {
      forwarded := forwarded + [raddec];
    }

    /** Hand each raddec, in order, to the sink. */
    method Forward(raddecs: seq<Raddec>)
      modifies this`forwarded
      ensures forwarded == old(forwarded) + raddecs
    {
      var i := 0;
      while i < |raddecs|
        invariant 0 <= i <= |raddecs|
        invariant forwarded == old(forwarded) + raddecs[..i]
      {
        HandleRaddec(raddecs[i]);
        assert raddecs[..i + 1] == raddecs[..i] + [raddecs[i]];
        i := i + 1;
      }
      assert raddecs[..i] == raddecs;
    }

    /**
     * `handleSerialData`: append `data` to the queue of `origin`, decode the
     * whole queue with the given origin, time and options, and forward every
     * raddec in order.
     */
    method HandleSerialData(data: string, origin: string, time: int, decodingOptions: DecodingOptions)
      modifies this
      ensures queuesByOrigin == Enqueue(old(queuesByOrigin), origin, data)
      ensures forwarded == old(forwarded) + DecodeQueue(queuesByOrigin[origin], origin, time, decodingOptions)
    {
      var isNewOrigin := origin !in queuesByOrigin;
      if isNewOrigin {
        queuesByOrigin := queuesByOrigin[origin := data];
      } else {
        queuesByOrigin := queuesByOrigin[origin := queuesByOrigin[origin] + data];
      }
      var raddecs := Decode(queuesByOrigin[origin], origin, time, decodingOptions);
      Forward(raddecs);
    }
  }
}

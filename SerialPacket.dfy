/**
 * The serial packet decoder: one ASCII line of the Laird module's output,
 * `adv:<header><address> <payload> <rssi>`, becomes a raddec (a radio
 * decoding: which transmitter was heard, and with which signal strength), and
 * a queue of such lines separated by newlines becomes the raddecs of its
 * lines, in order.
 */
module SerialPacket {
  import opened Wrappers
  import opened JsString

  const PacketPrefix: string := "adv:"
  const PacketSuffix: char := '\n'
  const PacketElementSeparator: char := ' '
  const ElementsPerPacket: nat := 3

  /** The header that marks a random 48-bit transmitter address. */
  const RandomHeader: string := "03"

  /** The identifier types of the raddec library that the decoder uses. */
  datatype IdentifierType = Unknown | Eui48 | Rnd48

  /** What one receiver observed of a transmitter; `rssi` is `None` when it is NaN. */
  datatype Decoding = Decoding(receiverId: Option<string>, receiverIdType: IdentifierType, rssi: Option<int>)

  datatype Raddec = Raddec(transmitterId: string, transmitterIdType: IdentifierType, decodings: seq<Decoding>)

  /** The decoding options are passed along and never read. */
  type DecodingOptions = map<string, string>

  /** The raddec made from a line's address, header and RSSI element. */
  function RaddecOf(header: string, address: string, rssi: string): Raddec
  {
    Raddec(ToLower(address),
           if header == RandomHeader then Rnd48 else Eui48,
           [Decoding(None, Unknown, ParseInt(rssi))])
  }

  /**
   * `decodeSerialPacket`: the raddec of one line, or `None` when the line is
   * not three space-separated elements the first of which starts with `adv:`.
   * The payload element, the origin, the time and the options play no part.
   */
  function DecodeSerialPacket(packet: string, origin: string, time: int, options: DecodingOptions): Option<Raddec>
  {
    var elements := Split(packet, PacketElementSeparator);
    if |elements| == ElementsPerPacket && Substring(elements[0], 0, |PacketPrefix|) == PacketPrefix then
      var rest := SubstringFrom(elements[0], |PacketPrefix|);
      Some(RaddecOf(Substring(rest, 0, 2), SubstringFrom(rest, 2), elements[2]))
    else
      None
  }

  /**
   * What the decoder accepts and builds: a raddec exactly for three elements
   * the first of which starts with `adv:`; random type exactly when `03`
   * follows the prefix; the identifier lower-cased after prefix and header;
   * one decoding with no receiver and the RSSI of the third element.
   */
  lemma DecodeSerialPacketSpec(packet: string, origin: string, time: int, options: DecodingOptions)
    ensures var r := DecodeSerialPacket(packet, origin, time, options);
            var elements := Split(packet, PacketElementSeparator);
            && (r.Some? <==> |elements| == ElementsPerPacket && HasPrefix(elements[0], PacketPrefix))
            && (r.Some? ==> && |r.value.decodings| == 1
                            && r.value.decodings[0] == Decoding(None, Unknown, ParseInt(elements[2]))
                            && r.value.transmitterIdType != Unknown
                            && (r.value.transmitterIdType == Rnd48 <==> HasPrefix(elements[0], PacketPrefix + RandomHeader))
                            && (|elements[0]| >= 6 ==> r.value.transmitterId == ToLower(elements[0][6..]))
                            && (|elements[0]| < 6 ==> r.value.transmitterId == ""))
  {
    var elements := Split(packet, PacketElementSeparator);
    var first := elements[0];
    var rest := SubstringFrom(first, |PacketPrefix|);
    if |elements| == ElementsPerPacket && HasPrefix(first, PacketPrefix) && |first| >= 6 {
      assert |PacketPrefix| == 4;
      assert rest == first[4..];
      assert first[..6] == first[..4] + first[4..6];
      assert rest[..2] == first[4..6];
    }
  }

  /** `decodeSerialPacket` with the origin, time and options of one call. */
  function LineDecoder(origin: string, time: int, options: DecodingOptions): string -> Option<Raddec>
  {
    packet => DecodeSerialPacket(packet, origin, time, options)
  }

  /** The raddecs of the lines that decode, in the order of the lines. */
  function DecodeAll(packets: seq<string>, origin: string, time: int, options: DecodingOptions): (raddecs: seq<Raddec>)
    ensures |raddecs| <= |packets|
  {
    FilterMap(LineDecoder(origin, time, options), packets)
  }

  /** `decode`: every newline-separated piece of the queue, the last one included. */
  function DecodeQueue(queue: string, origin: string, time: int, options: DecodingOptions): seq<Raddec>
  {
    DecodeAll(Split(queue, PacketSuffix), origin, time, options)
  }

  /** `decode` as the source writes it: a loop over the pieces that pushes each raddec. */
  method Decode(queue: string, origin: string, time: int, options: DecodingOptions) returns (raddecs: seq<Raddec>)
    ensures raddecs == DecodeQueue(queue, origin, time, options)
  {
    var packets := Split(queue, PacketSuffix);
    raddecs := [];
    var i := 0;
    while i < |packets|
      invariant 0 <= i <= |packets|
      invariant raddecs == DecodeAll(packets[..i], origin, time, options)
    {
      var raddec := DecodeSerialPacket(packets[i], origin, time, options);
      if raddec.Some? {
        raddecs := raddecs + [raddec.value];
      }
      DecodeAllStep(packets, i, origin, time, options);
      i := i + 1;
    }
    assert packets[..i] == packets;
  }

  // ---------------------------------------------------------------------------
  // One line

  /** Splitting three space-free elements joined by spaces gives the three back. */
  lemma SplitThree(a: string, b: string, c: string)
    requires PacketElementSeparator !in a && PacketElementSeparator !in b && PacketElementSeparator !in c
    ensures Split(a + " " + b + " " + c, PacketElementSeparator) == [a, b, c]
  {
    assert a + " " + b + " " + c == a + [' '] + (b + [' '] + c);
    SplitConcat(a, b + [' '] + c, ' ');
    SplitConcat(b, c, ' ');
    SplitWithoutSeparator(a, ' ');
    SplitWithoutSeparator(b, ' ');
    SplitWithoutSeparator(c, ' ');
  }

  /** A well-formed line decodes to the raddec of its fields. */
  lemma DecodeWellFormedLine(header: string, address: string, payload: string, rssi: string,
                             origin: string, time: int, options: DecodingOptions)
    requires |header| == 2
    requires PacketElementSeparator !in header + address
    requires PacketElementSeparator !in payload && PacketElementSeparator !in rssi
    ensures DecodeSerialPacket(PacketPrefix + header + address + " " + payload + " " + rssi, origin, time, options)
            == Some(RaddecOf(header, address, rssi))
  {
    var first := PacketPrefix + header + address;
    assert first == PacketPrefix + (header + address);
    SplitThree(first, payload, rssi);
    assert first[..|PacketPrefix|] == PacketPrefix;
    assert first[|PacketPrefix|..] == header + address;
    assert (header + address)[..2] == header;
    assert (header + address)[2..] == address;
  }

  /** Conversely, a line that decodes is `adv:` and two more space-free elements joined by spaces. */
  lemma DecodedLineShape(packet: string, origin: string, time: int, options: DecodingOptions)
    requires DecodeSerialPacket(packet, origin, time, options).Some?
    ensures var elements := Split(packet, PacketElementSeparator);
            && |elements| == 3
            && packet == elements[0] + " " + elements[1] + " " + elements[2]
            && HasPrefix(elements[0], PacketPrefix)
            && forall k :: 0 <= k < 3 ==> PacketElementSeparator !in elements[k]
  {
    var elements := Split(packet, PacketElementSeparator);
    JoinSplit(packet, PacketElementSeparator);
    SplitPiecesAreFree(packet, PacketElementSeparator);
    assert elements[1..] == [elements[1], elements[2]];
    assert elements[1..][1..] == [elements[2]];
    assert Join(elements[1..], ' ') == elements[1] + [' '] + elements[2];
  }

  /** Splitting `a b c` at spaces, for a space-free `b`. */
  lemma SplitAroundElement(a: string, b: string, c: string)
    requires PacketElementSeparator !in b
    ensures Split(a + " " + b + " " + c, PacketElementSeparator)
            == Split(a, PacketElementSeparator) + [b] + Split(c, PacketElementSeparator)
  {
    assert a + " " + b + " " + c == a + [' '] + (b + [' '] + c);
    SplitConcat(a, b + [' '] + c, ' ');
    SplitConcat(b, c, ' ');
    SplitWithoutSeparator(b, ' ');
  }

  /** The payload element never changes what a line decodes to. */
  lemma PayloadIsIgnored(a: string, payload1: string, payload2: string, c: string,
                         origin: string, time: int, options: DecodingOptions)
    requires PacketElementSeparator !in payload1 && PacketElementSeparator !in payload2
    ensures DecodeSerialPacket(a + " " + payload1 + " " + c, origin, time, options)
            == DecodeSerialPacket(a + " " + payload2 + " " + c, origin, time, options)
  {
    SplitAroundElement(a, payload1, c);
    SplitAroundElement(a, payload2, c);
  }

  // ---------------------------------------------------------------------------
  // A queue of lines

  lemma DecodeAllConcat(packets1: seq<string>, packets2: seq<string>,
                        origin: string, time: int, options: DecodingOptions)
    ensures DecodeAll(packets1 + packets2, origin, time, options)
            == DecodeAll(packets1, origin, time, options) + DecodeAll(packets2, origin, time, options)
  {
    FilterMapConcat(LineDecoder(origin, time, options), packets1, packets2);
  }

  /** One more line adds that line's raddec, if any, at the end. */
  lemma DecodeAllStep(packets: seq<string>, i: nat, origin: string, time: int, options: DecodingOptions)
    requires i < |packets|
    ensures DecodeAll(packets[..i + 1], origin, time, options)
            == DecodeAll(packets[..i], origin, time, options) + ToSeq(DecodeSerialPacket(packets[i], origin, time, options))
  {
    assert packets[..i + 1] == packets[..i] + [packets[i]];
    DecodeAllConcat(packets[..i], [packets[i]], origin, time, options);
    assert [packets[i]][1..] == [];
  }

  /** A raddec is in the result exactly when some line decodes to it. */
  lemma DecodeAllMembers(packets: seq<string>, r: Raddec,
                         origin: string, time: int, options: DecodingOptions)
    ensures r in DecodeAll(packets, origin, time, options)
            <==> exists i :: 0 <= i < |packets| && DecodeSerialPacket(packets[i], origin, time, options) == Some(r)
  {
    FilterMapMembers(LineDecoder(origin, time, options), packets, r);
  }

  /** At most one raddec per newline-separated piece, so at most one more than the newlines. */
  lemma DecodeQueueBound(queue: string, origin: string, time: int, options: DecodingOptions)
    ensures |DecodeQueue(queue, origin, time, options)| <= multiset(queue)[PacketSuffix] + 1
  {
    SplitLength(queue, PacketSuffix);
  }

  lemma DecodeQueueEmpty(origin: string, time: int, options: DecodingOptions)
    ensures DecodeQueue("", origin, time, options) == []
  {
    assert Split("", PacketSuffix) == [""];
    assert Split("", PacketElementSeparator) == [""];
  }

  /** The queue at a newline decodes as its two sides. */
  lemma DecodeQueueConcat(a: string, b: string, origin: string, time: int, options: DecodingOptions)
    ensures DecodeQueue(a + "\n" + b, origin, time, options)
            == DecodeQueue(a, origin, time, options) + DecodeQueue(b, origin, time, options)
  {
    assert a + "\n" + b == a + [PacketSuffix] + b;
    SplitConcat(a, b, PacketSuffix);
    DecodeAllConcat(Split(a, PacketSuffix), Split(b, PacketSuffix), origin, time, options);
  }

  /** A final newline adds nothing: the empty piece after it decodes to no raddec. */
  lemma DecodeQueueTerminated(lines: string, origin: string, time: int, options: DecodingOptions)
    ensures DecodeQueue(lines + "\n", origin, time, options) == DecodeQueue(lines, origin, time, options)
  {
    assert lines + "\n" == lines + "\n" + "";
    DecodeQueueConcat(lines, "", origin, time, options);
    DecodeQueueEmpty(origin, time, options);
  }

  /** A line without a newline, terminated by one, decodes to that line's raddec, if any. */
  lemma DecodeTerminatedLine(line: string, origin: string, time: int, options: DecodingOptions)
    requires PacketSuffix !in line
    ensures DecodeQueue(line + "\n", origin, time, options) == ToSeq(DecodeSerialPacket(line, origin, time, options))
  {
    assert line + "\n" == line + "\n" + "";
    DecodeQueueConcat(line, "", origin, time, options);
    DecodeQueueEmpty(origin, time, options);
    SplitWithoutSeparator(line, PacketSuffix);
    assert DecodeAll([line], origin, time, options) == ToSeq(DecodeSerialPacket(line, origin, time, options)) by {
      assert [line][1..] == [];
    }
  }

  /** A newline-free line, a newline and more text: the line's raddec, if any, comes first. */
  lemma DecodeQueueLine(line: string, rest: string, origin: string, time: int, options: DecodingOptions)
    requires PacketSuffix !in line
    ensures DecodeQueue(line + "\n" + rest, origin, time, options)
            == ToSeq(DecodeSerialPacket(line, origin, time, options)) + DecodeQueue(rest, origin, time, options)
  {
    assert line + "\n" + rest == line + [PacketSuffix] + rest;
    SplitConcat(line, rest, PacketSuffix);
    SplitWithoutSeparator(line, PacketSuffix);
    DecodeAllConcat([line], Split(rest, PacketSuffix), origin, time, options);
    assert [line][1..] == [];
  }

  /**
   * Appending text to a queue: the lines that were already terminated decode
   * as before, and only the unterminated last piece is read together with the
   * new text.
   */
  lemma DecodeQueueAppend(queue: string, data: string, origin: string, time: int, options: DecodingOptions)
    ensures var pieces := Split(queue, PacketSuffix);
            DecodeQueue(queue + data, origin, time, options)
            == DecodeAll(pieces[..|pieces| - 1], origin, time, options)
               + DecodeQueue(pieces[|pieces| - 1] + data, origin, time, options)
  {
    var pieces := Split(queue, PacketSuffix);
    SplitAppend(queue, data, PacketSuffix);
    DecodeAllConcat(pieces[..|pieces| - 1], Split(pieces[|pieces| - 1] + data, PacketSuffix), origin, time, options);
  }

  /** The origin, the time and the options never change what a queue decodes to. */
  lemma DecodeAllIgnoresContext(packets: seq<string>, origin1: string, time1: int, options1: DecodingOptions,
                                origin2: string, time2: int, options2: DecodingOptions)
    ensures DecodeAll(packets, origin1, time1, options1) == DecodeAll(packets, origin2, time2, options2)
  {
    FilterMapPointwise(LineDecoder(origin1, time1, options1), LineDecoder(origin2, time2, options2), packets);
  }
}

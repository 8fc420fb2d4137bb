/** The text protocol between `jack-midi-to-stdin` (the sender, which writes each MIDI
    event as a line of lowercase hex) and `jack-stdin-to-midi` (the receiver, which reads
    lines of hex of either case back into messages): the two codecs invert each other,
    a whole period's text is read back as its events, and the resynchronisation text
    after a cut line makes the receiver drop the fragment. */
module Protocol {
  import opened Common
  import opened LineAssembly
  import S = StdinToMidi
  import M = MidiToStdin

  /** The longest event whose line fits the receiver's line buffer. */
  const LONGEST_EVENT: nat := S.LINE_CAPACITY / 2

  /** Every hex digit the sender writes reads back as its value. */
  lemma DigitRoundTrip(n: int)
    requires 0 <= n < 16
    ensures S.HexToInt(M.IntToHex(n)) == n
  {
  }

  /** Every lowercase hex digit is written back as itself. */
  lemma LowerDigitRoundTrip(c: char)
    requires M.LowerHexDigit(c)
    ensures 0 <= S.HexToInt(c) < 16 && M.IntToHex(S.HexToInt(c)) == c
  {
  }

  /** The two characters written for a byte read back as its two nibbles, and the
      receiver puts them together into that byte. */
  lemma ByteRoundTrip(v: byte)
    ensures var t := M.ByteHex(v);
            && S.HexToInt(t[0]) == (v >> 4) as int && S.HexToInt(t[1]) == (v & 0xF) as int
            && S.Nibbles(S.HexToInt(t[0]), S.HexToInt(t[1])) == v
  {
    DigitRoundTrip((v >> 4) as int);
    DigitRoundTrip((v & 0xF) as int);
    SplitByte(v);
  }

  /** A byte is put back together from its high and low nibbles. */
  lemma SplitByte(v: byte)
    ensures S.Nibbles((v >> 4) as int, (v & 0xF) as int) == v
  {
    assert ((v >> 4) as int) as byte == v >> 4;
    assert ((v & 0xF) as int) as byte == v & 0xF;
    assert ((v >> 4) << 4) | (v & 0xF) == v;
  }

  /** The byte the receiver builds from two digits is written back as those digits in
      lowercase. */
  lemma NibblesRoundTrip(hi: int, lo: int)
    requires 0 <= hi < 16 && 0 <= lo < 16
    ensures M.ByteHex(S.Nibbles(hi, lo)) == [M.IntToHex(hi), M.IntToHex(lo)]
  {
    S.NibblesValue(hi, lo);
  }

  /** The digits of an event's text decode to the event. */
  lemma {:induction false} DecodeDigitsHex(m: seq<byte>)
    ensures S.DecodeDigits(M.Hex(m)) == S.Message(m)
  {
    if m != [] {
      var s := M.Hex(m);
      var t := M.ByteHex(m[0]);
      assert s == t + M.Hex(m[1..]);
      assert s[0] == t[0] && s[1] == t[1] && s[2..] == M.Hex(m[1..]);
      ByteRoundTrip(m[0]);
      DecodeDigitsHex(m[1..]);
      assert [m[0]] + m[1..] == m;
    }
  }

  /** The receiver decodes the line the sender writes for an event back into the event. */
  lemma DecodeHex(m: seq<byte>)
    ensures S.DecodeLine(M.Hex(m)) == S.Message(m)
  {
    var s := M.Hex(m);
    assert |s| % 2 == 0 by {
      assert |s| == 2 * |m|;
    }
    DecodeDigitsHex(m);
    assert S.DecodeLine(s) == S.DecodeDigits(s);
  }

  /** Conversely, a line of an even number of lowercase hex digits is decoded, and the
      sender writes the message back as that very line. */
  lemma {:induction false} EncodeDecoded(line: seq<char>)
    requires |line| % 2 == 0
    requires forall i :: 0 <= i < |line| ==> M.LowerHexDigit(line[i])
    ensures S.DecodeLine(line).Message? && M.Hex(S.DecodeLine(line).bytes) == line
    decreases |line|
  {
    if line != [] {
      var rest := line[2..];
      assert forall i :: 0 <= i < |rest| ==> rest[i] == line[i + 2];
      EncodeDecoded(rest);
      LowerDigitRoundTrip(line[0]);
      LowerDigitRoundTrip(line[1]);
      var hi, lo := S.HexToInt(line[0]), S.HexToInt(line[1]);
      var b := S.Nibbles(hi, lo);
      var m := S.DecodeDigits(rest).bytes;
      NibblesRoundTrip(hi, lo);
      assert S.DecodeLine(line).bytes == [b] + m;
      assert ([b] + m)[0] == b && ([b] + m)[1..] == m;
      assert M.Hex([b] + m) == M.ByteHex(b) + M.Hex(m);
      assert line == [line[0], line[1]] + rest;
    }
  }

  /** The receiver reads the sender's line for an event, from an empty line buffer, as
      one line: the event's text, cut to the buffer's capacity. */
  lemma EventLine(e: seq<byte>)
    ensures Assemble(S.LINE_CAPACITY, true, [], M.Hex(e) + "\n")
            == Asm([], [Truncate(S.LINE_CAPACITY, M.Hex(e))])
  {
    M.HexDigits(e);
    OneLine(S.LINE_CAPACITY, true, M.Hex(e));
  }

  /** An event of up to 511 bytes comes back whole; a longer one is cut to 1023 digits,
      an odd count, and the receiver rejects the line. */
  lemma TruncatedEvent(e: seq<byte>)
    ensures S.DecodeLine(Truncate(S.LINE_CAPACITY, M.Hex(e)))
            == if |e| <= LONGEST_EVENT then S.Message(e) else S.Rejected(S.OddLength)
  {
    var s := M.Hex(e);
    if |e| <= LONGEST_EVENT {
      assert |s| <= S.LINE_CAPACITY;
      assert Truncate(S.LINE_CAPACITY, s) == s;
      DecodeHex(e);
    } else {
      assert |s| > S.LINE_CAPACITY;
      var t := Truncate(S.LINE_CAPACITY, s);
      assert |t| == 1023;
      assert S.DecodeLine(t) == S.Rejected(S.OddLength);
    }
  }

  /** The events that get through the receiver's line buffer, in order. */
  function Deliverable(events: seq<seq<byte>>): (r: seq<seq<byte>>)
    ensures |r| <= |events|
    ensures forall k :: 0 <= k < |r| ==> |r[k]| <= LONGEST_EVENT
    ensures (forall k :: 0 <= k < |events| ==> |events[k]| <= LONGEST_EVENT) ==> r == events
    ensures forall e :: e in r ==> e in events
    ensures forall e :: e in events && |e| <= LONGEST_EVENT ==> e in r
  {
    if events == [] then []
    else
      var first := if |events[0]| <= LONGEST_EVENT then [events[0]] else [];
      var rest := Deliverable(events[1..]);
      assert events == [events[0]] + events[1..];
      assert forall e :: e in first + rest <==> e in first || e in rest;
      first + rest
  }

  /** The messages the receiver enqueues for a run of lines that starts with one. */
  lemma MessagesCons(line: seq<char>, lines: seq<seq<char>>)
    ensures S.Messages([line] + lines)
            == (if S.DecodeLine(line).Message? then [S.DecodeLine(line).bytes] else []) + S.Messages(lines)
  {
    S.MessagesAppend([line], lines);
    assert [line][..0] == [];
  }

  /** Reading the text of a run of events from an empty line buffer leaves the buffer
      empty and enqueues exactly the events that fit, in order. */
  lemma {:induction false} DeliverLines(events: seq<seq<byte>>)
    ensures var r := Assemble(S.LINE_CAPACITY, true, [], M.Lines(events));
            r.line == [] && S.Messages(r.lines) == Deliverable(events)
    decreases |events|
  {
    if events != [] {
      var e := events[0];
      var a := M.Hex(e) + "\n";
      var b := M.Lines(events[1..]);
      assert M.Lines(events) == a + b;
      AssembleAppend(S.LINE_CAPACITY, true, [], a, b);
      EventLine(e);
      DeliverLines(events[1..]);
      var rb := Assemble(S.LINE_CAPACITY, true, [], b);
      MessagesCons(Truncate(S.LINE_CAPACITY, M.Hex(e)), rb.lines);
      TruncatedEvent(e);
    }
  }

  /** A period that starts on a line boundary and gets all its text out hands the
      receiver (reading from an empty line buffer) exactly the events that fit. */
  lemma PeriodDelivers(events: seq<seq<byte>>, answers: seq<nat>)
    requires M.Tick(M.Newline, true, Some(events), answers, []).last == M.Newline
    ensures var t := M.Tick(M.Newline, true, Some(events), answers, []);
            var r := Assemble(S.LINE_CAPACITY, true, [], t.written);
            r.line == [] && S.Messages(r.lines) == Deliverable(events)
  {
    M.TickWrites(M.Newline, true, Some(events), answers, []);
    assert [] + M.ResyncText(M.Newline) + M.Lines(events) == M.Lines(events);
    DeliverLines(events);
  }

  /** The fragment `p` of an event's line that a cut write left behind, followed by the
      resynchronisation text "X\n" (written at once or over two periods) and the lines
      of later events, is read as one empty line and then those events: the fragment is
      dropped. */
  lemma ResyncRecovers(e: seq<byte>, p: seq<char>, events: seq<seq<byte>>)
    requires p <= M.Hex(e)
    ensures var r := Assemble(S.LINE_CAPACITY, true, [], p + "X\n" + M.Lines(events));
            r.line == [] && S.Messages(r.lines) == [[]] + Deliverable(events)
  {
    var cap := S.LINE_CAPACITY;
    var lines := M.Lines(events);
    var b := "\n" + lines;
    M.HexDigits(e);
    assert forall i :: 0 <= i < |p| ==> p[i] == M.Hex(e)[i];
    assert forall i :: 0 <= i < |p| ==> p[i] != '\n' && !(true && p[i] == 'X');
    AssembleNoTerminator(cap, true, [], p);
    var ra := Assemble(cap, true, [], p);
    assert ra.lines == [];
    ResyncDiscards(cap, [], p, b);
    var rb := Assemble(cap, true, [], b);
    assert p + "X\n" + lines == p + ['X'] + b;
    assert Assemble(cap, true, [], p + "X\n" + lines) == Asm(rb.line, [] + rb.lines);
    assert b[0] == '\n' && b[1..] == lines;
    DeliverLines(events);
    var rl := Assemble(cap, true, [], lines);
    assert rb == Asm(rl.line, [[]] + rl.lines);
    MessagesCons([], rl.lines);
    assert S.DecodeLine([]) == S.Message([]);
    assert [] + rb.lines == rb.lines;
  }
}

/** `jack-midi-to-stdin`: the real-time callback turns each MIDI event of a period into a
    line of lowercase hex text on a non-blocking standard output. A write that is cut
    short leaves a partial line behind; the next period first writes "X\n" (or the missing
    "\n" when only the 'X' got through) so that the reader drops the fragment, and only
    then writes new events.

    Standard output is modelled as an object that records what it accepted and holds the
    answers its successive `write` calls will give. */
module MidiToStdin {
  import opened Common

  /** The size of the chunk buffer `buf` in `process`. */
  const CHUNK: nat := 128

  /** The hex digit for a value in 0..15, in lowercase, and '?' for any other value. */
  function IntToHex(n: int): (c: char)
    ensures (0 <= n < 16) == (c != '?')
  {
    if 0 <= n <= 9 then ('0' as int + n) as char
    else if 10 <= n <= 15 then ('a' as int + (n - 10)) as char
    else '?'
  }

  /** `IntToHex` picks a value's entry in the lowercase digit table. */
  lemma IntToHexDigits(n: int)
    requires 0 <= n < 16
    ensures IntToHex(n) == LOWER_DIGITS[n]
  {
  }

  /** The two characters that stand for one byte, high nibble first. */
  function ByteHex(v: byte): (r: seq<char>)
    ensures |r| == 2
  {
    [IntToHex((v >> 4) as int), IntToHex((v & 0xF) as int)]
  }

  /** The hex text of a whole event. */
  function Hex(m: seq<byte>): (r: seq<char>)
    ensures |r| == 2 * |m|
  {
    if m == [] then [] else ByteHex(m[0]) + Hex(m[1..])
  }

  /** A lowercase hex digit. */
  predicate LowerHexDigit(c: char)
  {
    '0' <= c <= '9' || 'a' <= c <= 'f'
  }

  /** Every character of an event's text is a lowercase hex digit: the text holds no line
      feed and no 'X'. */
  lemma {:induction false} HexDigits(m: seq<byte>)
    ensures forall i :: 0 <= i < |Hex(m)| ==> LowerHexDigit(Hex(m)[i])
  {
    if m != [] {
      HexDigits(m[1..]);
      assert Hex(m) == ByteHex(m[0]) + Hex(m[1..]);
    }
  }

  /** The text of a sequence of events: each event's hex text and a line feed. */
  function Lines(events: seq<seq<byte>>): seq<char>
  {
    if events == [] then [] else Hex(events[0]) + "\n" + Lines(events[1..])
  }

  /** The text of some events followed by one more is their text and then its line. */
  lemma {:induction false} LinesSnoc(events: seq<seq<byte>>, e: seq<byte>)
    ensures Lines(events + [e]) == Lines(events) + Hex(e) + "\n"
    decreases |events|
  {
    if events == [] {
      assert [] + [e] == [e];
    } else {
      assert (events + [e])[1..] == events[1..] + [e];
      LinesSnoc(events[1..], e);
    }
  }

  /** How many of `len` bytes a `write` whose answers are `answers` accepts: none when
      it fails or when the descriptor has no answer left, and never more than asked. */
  function Accepted(answers: seq<nat>, len: nat): (n: nat)
    ensures n <= len
    ensures answers != [] && answers[0] >= len ==> n == len
  {
    if answers == [] then 0 else if answers[0] < len then answers[0] else len
  }

  /** The answers left after one `write`. */
  function Rest(answers: seq<nat>): seq<nat>
  {
    if answers == [] then [] else answers[1..]
  }

  /** Standard output: the characters it accepted so far and the answers of its
      future `write` calls. */
  class Stdout {
    var written: seq<char>
    var answers: seq<nat>

    constructor (answers: seq<nat>)
      ensures this.written == [] && this.answers == answers
    {
      this.written := [];
      this.answers := answers;
    }

    /** `write(STDOUT_FILENO, data, |data|)`: appends the accepted prefix of `data` and
        returns its length. */
    method Write(data: seq<char>) returns (n: nat)
      modifies this
      ensures n == Accepted(old(answers), |data|)
      ensures written == old(written) + data[..n] && answers == Rest(old(answers))
    {
      n := Accepted(answers, |data|);
      written := written + data[..n];
      answers := Rest(answers);
    }
  }

  /** What the previous period left at the end of standard output. */
  datatype LastWritten = Newline | X | Partial

  /** What writing (part of) one event does: whether its whole line got out, everything
      standard output holds afterwards, and the answers left. */
  datatype Emission = Emission(complete: bool, written: seq<char>, answers: seq<nat>)

  /** The inner loop of `process` for one event, from byte `j` on, with `chunk` already
      in the buffer and `written` on standard output: two digits per byte go into the
      buffer, a full buffer of 128 characters is written out, and after the last byte a
      line feed is added and the rest written; the first write that is cut short ends it. */
  function EmitFrom(e: seq<byte>, j: nat, chunk: seq<char>, answers: seq<nat>, written: seq<char>): Emission
    requires j <= |e| && |chunk| % 2 == 0 && |chunk| < CHUNK
    decreases |e| - j
  {
    if j == |e| then
      var text := chunk + "\n";
      var n := Accepted(answers, |text|);
      Emission(n == |text|, written + text[..n], Rest(answers))
    else
      var full := chunk + ByteHex(e[j]);
      if |full| < CHUNK then
        EmitFrom(e, j + 1, full, answers, written)
      else
        var n := Accepted(answers, |full|);
        if n != |full| then Emission(false, written + full[..n], Rest(answers))
        else EmitFrom(e, j + 1, [], Rest(answers), written + full)
  }

  /** An event that gets out whole adds its line (after what was already in the
      buffer) to standard output; one that does not adds a proper prefix of that line. */
  lemma {:induction false} EmitFromWrites(e: seq<byte>, j: nat, chunk: seq<char>, answers: seq<nat>, written: seq<char>)
    requires j <= |e| && |chunk| % 2 == 0 && |chunk| < CHUNK
    ensures var r := EmitFrom(e, j, chunk, answers, written);
            && (r.complete ==> r.written == written + (chunk + Hex(e[j..]) + "\n"))
            && (!r.complete ==> written <= r.written < written + (chunk + Hex(e[j..]) + "\n"))
    decreases |e| - j
  {
    if j < |e| {
      var full := chunk + ByteHex(e[j]);
      var line := chunk + Hex(e[j..]) + "\n";
      HexStep(e, j);
      assert line == full + (Hex(e[j + 1..]) + "\n");
      if |full| < CHUNK {
        EmitFromWrites(e, j + 1, full, answers, written);
      } else if Accepted(answers, |full|) == |full| {
        EmitFromWrites(e, j + 1, [], Rest(answers), written + full);
        assert [] + Hex(e[j + 1..]) + "\n" == Hex(e[j + 1..]) + "\n";
        Associative(written, full, Hex(e[j + 1..]) + "\n");
      } else {
        PrefixCut(written, line, |full|, Accepted(answers, |full|));
      }
    } else {
      var text := chunk + "\n";
      assert e[j..] == [];
      PrefixCut(written, text, |text|, Accepted(answers, |text|));
    }
  }

  /** A descriptor that takes at least a whole buffer on each of enough writes lets the
      event out whole. */
  lemma {:induction false} AmpleWritesComplete(e: seq<byte>, j: nat, chunk: seq<char>, answers: seq<nat>, written: seq<char>)
    requires j <= |e| && |chunk| % 2 == 0 && |chunk| < CHUNK
    requires |answers| > |e| - j
    requires forall k :: 0 <= k < |answers| ==> answers[k] >= CHUNK
    ensures EmitFrom(e, j, chunk, answers, written).complete
    decreases |e| - j
  {
    if j < |e| {
      var full := chunk + ByteHex(e[j]);
      if |full| < CHUNK {
        AmpleWritesComplete(e, j + 1, full, answers, written);
      } else {
        var rest := Rest(answers);
        assert forall k :: 0 <= k < |rest| ==> rest[k] == answers[k + 1];
        AmpleWritesComplete(e, j + 1, [], rest, written + full);
      }
    }
  }

  /** With full writes an event of `n` bytes puts out exactly its hex text and a line
      feed, `2n + 1` characters; an empty event puts out a lone line feed. */
  lemma AmpleWritesSendLine(e: seq<byte>, answers: seq<nat>, written: seq<char>)
    requires |answers| > |e|
    requires forall k :: 0 <= k < |answers| ==> answers[k] >= CHUNK
    ensures var r := EmitFrom(e, 0, [], answers, written);
            && r.complete && r.written == written + Hex(e) + "\n"
            && |r.written| == |written| + 2 * |e| + 1
  {
    AmpleWritesComplete(e, 0, [], answers, written);
    EmitLine(e, answers, written);
  }

  /** The text of the bytes from `j` on is that of byte `j` and then of the rest. */
  lemma HexStep(e: seq<byte>, j: nat)
    requires j < |e|
    ensures Hex(e[j..]) == ByteHex(e[j]) + Hex(e[j + 1..])
  {
    assert e[j..][1..] == e[j + 1..];
  }

  /** Writing the first `n` characters of a text whose first `len` are `text[..len]`:
      what results lies between `written` and `written + text`, and is all of it only
      when `n` is the whole text. */
  lemma PrefixCut(written: seq<char>, text: seq<char>, len: nat, n: nat)
    requires len <= |text| && n <= len
    ensures written <= written + text[..n] <= written + text
    ensures n < |text| ==> written + text[..n] < written + text
  {
    assert (written + text)[..|written| + n] == written + text[..n];
  }

  /** Appending in two steps is appending once. Stated apart so that the proofs using
      it do not have to reason about sequence equality in their own larger context. */
  lemma Associative(a: seq<char>, b: seq<char>, c: seq<char>)
    ensures a + b + c == a + (b + c)
  {
  }

  /** What writing a period's events does: whether every event got out, how many got out
      whole, everything standard output holds afterwards, and the answers left. */
  datatype Emitted = Emitted(complete: bool, sent: nat, written: seq<char>, answers: seq<nat>)

  /** The outer loop of `process`: the events one after the other, until one of them
      does not get out whole. */
  function EmitEvents(events: seq<seq<byte>>, answers: seq<nat>, written: seq<char>): Emitted
  {
    if events == [] then Emitted(true, 0, written, answers)
    else
      var first := EmitFrom(events[0], 0, [], answers, written);
      if !first.complete then Emitted(false, 0, first.written, first.answers)
      else
        var rest := EmitEvents(events[1..], first.answers, first.written);
        Emitted(rest.complete, rest.sent + 1, rest.written, rest.answers)
  }

  /** One event written from an empty buffer: its whole line, or a proper prefix of it. */
  lemma EmitLine(e: seq<byte>, answers: seq<nat>, written: seq<char>)
    ensures var r := EmitFrom(e, 0, [], answers, written);
            && (r.complete ==> r.written == written + (Hex(e) + "\n"))
            && (!r.complete ==> written <= r.written < written + (Hex(e) + "\n"))
  {
    EmitFromWrites(e, 0, [], answers, written);
    assert e[0..] == e;
    assert [] + Hex(e) + "\n" == Hex(e) + "\n";
  }

  /** The lines of the events from the first on: the first event's line, then the
      lines of the rest. */
  lemma LinesFirst(events: seq<seq<byte>>, k: nat)
    requires 0 < k <= |events|
    ensures Lines(events[..k]) == Hex(events[0]) + "\n" + Lines(events[1..][..k - 1])
  {
    assert events[..k][1..] == events[1..][..k - 1];
  }

  /** Either every event gets out, as the text of all of them, or the events before
      number `sent` get out whole. */
  lemma {:induction false} EmitEventsWrites(events: seq<seq<byte>>, answers: seq<nat>, written: seq<char>)
    ensures var r := EmitEvents(events, answers, written);
            && r.sent <= |events| && (r.complete <==> r.sent == |events|)
            && written + Lines(events[..r.sent]) <= r.written
            && (r.complete ==> r.written == written + Lines(events))
  {
    if events == [] {
      assert written + [] == written;
    } else {
      var first := EmitFrom(events[0], 0, [], answers, written);
      EmitLine(events[0], answers, written);
      if !first.complete {
        assert events[..0] == [];
        assert written + [] == written;
      } else {
        var rest := EmitEvents(events[1..], first.answers, first.written);
        EmitEventsWrites(events[1..], first.answers, first.written);
        var line := Hex(events[0]) + "\n";
        LinesFirst(events, rest.sent + 1);
        Associative(written, line, Lines(events[1..][..rest.sent]));
        if rest.complete {
          assert events[1..][..rest.sent] == events[1..] && events[..rest.sent + 1] == events;
        }
      }
    }
  }

  /** The text of the first event alone is its line. */
  lemma LinesOne(events: seq<seq<byte>>)
    requires events != []
    ensures Lines(events[..1]) == Hex(events[0]) + "\n"
  {
    assert events[..1][1..] == [];
    assert Hex(events[0]) + "\n" + [] == Hex(events[0]) + "\n";
  }

  /** When an event does not get out whole, what got out ends inside its line: a proper
      prefix of the text of the events up to and including it. */
  lemma {:induction false} EmitEventsCut(events: seq<seq<byte>>, answers: seq<nat>, written: seq<char>)
    ensures var r := EmitEvents(events, answers, written);
            !r.complete ==> r.sent < |events| && r.written < written + Lines(events[..r.sent + 1])
  {
    if events != [] {
      var first := EmitFrom(events[0], 0, [], answers, written);
      EmitLine(events[0], answers, written);
      if !first.complete {
        LinesOne(events);
      } else {
        var rest := EmitEvents(events[1..], first.answers, first.written);
        EmitEventsCut(events[1..], first.answers, first.written);
        if !rest.complete {
          var line := Hex(events[0]) + "\n";
          var tail := Lines(events[1..][..rest.sent + 1]);
          LinesFirst(events, rest.sent + 2);
          Associative(written, line, tail);
        }
      }
    }
  }

  /** The text that puts the reader back at the start of a line. */
  function ResyncText(last: LastWritten): seq<char>
  {
    match last
    case Newline => ""
    case X => "\n"
    case Partial => "X\n"
  }

  /** The outcome of the resynchronisation step at the start of `process`. */
  datatype Resynced = Resynced(proceed: bool, last: LastWritten, written: seq<char>, answers: seq<nat>)

  /** The resynchronisation step: after a partial line "X\n" is written, and if only the
      'X' gets out the state becomes `X`; after an `X` the missing "\n" is written. The
      period goes on to the events only once the whole text is out. */
  function Resync(last: LastWritten, answers: seq<nat>, written: seq<char>): (r: Resynced)
    ensures written <= r.written <= written + ResyncText(last)
    ensures r.proceed <==> r.written == written + ResyncText(last)
    ensures r.proceed ==> r.last == Newline
    ensures !r.proceed ==> r.last != Newline && (r.last == X <==> r.written == written + "X" || (last == X && r.written == written))
  {
    match last
    case Newline => Resynced(true, Newline, written, answers)
    case X =>
      var n := Accepted(answers, 1);
      if n == 1 then Resynced(true, Newline, written + "\n", Rest(answers))
      else Resynced(false, X, written, Rest(answers))
    case Partial =>
      var n := Accepted(answers, 2);
      if n == 1 then Resynced(false, X, written + "X", Rest(answers))
      else if n == 2 then Resynced(true, Newline, written + "X\n", Rest(answers))
      else Resynced(false, Partial, written, Rest(answers))
  }

  /** What one run of `process` does. */
  datatype Ticked = Ticked(code: int, last: LastWritten, written: seq<char>, answers: seq<nat>, sent: nat)

  /** One period: nothing without a port, a failure code without a buffer (`buffer` is
      None), otherwise the resynchronisation step and, if it completes, the events. */
  function Tick(last: LastWritten, hasPort: bool, buffer: Option<seq<seq<byte>>>, answers: seq<nat>, written: seq<char>): Ticked
  {
    if !hasPort then Ticked(0, last, written, answers, 0)
    else if buffer.None? then Ticked(-1, last, written, answers, 0)
    else
      var rs := Resync(last, answers, written);
      if !rs.proceed then Ticked(0, rs.last, rs.written, rs.answers, 0)
      else
        var em := EmitEvents(buffer.value, rs.answers, rs.written);
        Ticked(0, if em.complete then Newline else Partial, em.written, em.answers, em.sent)
  }

  /** What a period writes: the resynchronisation text (or a prefix of it, when it was
      cut short, and then nothing else), the lines of the events sent whole, and, when the
      state is left `Partial` after the resynchronisation, a proper prefix of the next
      event's line. The state is `Newline` exactly when everything the period owed got out. */
  lemma TickWrites(last: LastWritten, hasPort: bool, buffer: Option<seq<seq<byte>>>, answers: seq<nat>, written: seq<char>)
    ensures var t := Tick(last, hasPort, buffer, answers, written);
            && (!hasPort || buffer.None? ==> t.written == written && t.last == last && t.answers == answers)
            && (hasPort && buffer.Some? ==>
                  var rs := Resync(last, answers, written);
                  var before := written + ResyncText(last);
                  && (!rs.proceed ==> written <= t.written < before && t.last == rs.last && t.sent == 0)
                  && (rs.proceed ==>
                        var events := buffer.value;
                        && t.sent <= |events|
                        && (t.last == Newline <==> t.sent == |events|)
                        && (t.last == Newline ==> t.written == before + Lines(events))
                        && (t.last != Newline ==>
                              && t.last == Partial
                              && before + Lines(events[..t.sent]) <= t.written < before + Lines(events[..t.sent + 1]))))
  {
    if hasPort && buffer.Some? {
      var rs := Resync(last, answers, written);
      if rs.proceed {
        EmitEventsWrites(buffer.value, rs.answers, rs.written);
        EmitEventsCut(buffer.value, rs.answers, rs.written);
      }
    }
  }

  /** On a descriptor that never takes more than one byte per `write`, no event with any
      content is ever sent whole: each one's first write is longer than a byte. */
  lemma {:induction false} OneByteWritesSendOnlyEmptyEvents(events: seq<seq<byte>>, answers: seq<nat>, written: seq<char>)
    requires forall k :: 0 <= k < |answers| ==> answers[k] <= 1
    ensures var em := EmitEvents(events, answers, written);
            forall k :: 0 <= k < em.sent && k < |events| ==> events[k] == []
  {
    if events != [] {
      var e := events[0];
      var first := EmitFrom(e, 0, [], answers, written);
      if e != [] {
        assert [] + ByteHex(e[0]) == ByteHex(e[0]);
        FirstWriteIsLong(e, 1, ByteHex(e[0]), answers, written);
      } else {
        var rest := Rest(answers);
        assert forall k :: 0 <= k < |rest| ==> rest[k] == answers[k + 1];
        OneByteWritesSendOnlyEmptyEvents(events[1..], rest, first.written);
        assert forall k :: 1 <= k < |events| ==> events[k] == events[1..][k - 1];
      }
    }
  }

  /** With a non-empty chunk and a next write that accepts no more than the chunk holds,
      the event does not get out whole: that write is of the chunk and more. */
  lemma {:induction false} FirstWriteIsLong(e: seq<byte>, j: nat, chunk: seq<char>, answers: seq<nat>, written: seq<char>)
    requires j <= |e| && |chunk| % 2 == 0 && 0 < |chunk| < CHUNK
    requires answers != [] ==> answers[0] <= |chunk|
    ensures !EmitFrom(e, j, chunk, answers, written).complete
    decreases |e| - j
  {
    if j < |e| {
      var full := chunk + ByteHex(e[j]);
      if |full| < CHUNK {
        FirstWriteIsLong(e, j + 1, full, answers, written);
      }
    }
  }

  /** Written from an empty buffer, an event with content needs a first write of at least
      three characters to get out whole. */
  lemma ShortFirstWriteCuts(e: seq<byte>, answers: seq<nat>, written: seq<char>)
    requires e != []
    requires answers != [] ==> answers[0] <= 2
    ensures !EmitFrom(e, 0, [], answers, written).complete
  {
    assert [] + ByteHex(e[0]) == ByteHex(e[0]);
    FirstWriteIsLong(e, 1, ByteHex(e[0]), answers, written);
  }

  /** The state `process` keeps between periods. */
  class Bridge {
    var lastWritten: LastWritten

    constructor ()
      ensures lastWritten == Newline
    {
      lastWritten := Newline;
    }

    /** `process`: nothing without a port, -1 without a buffer, otherwise the
        resynchronisation step and, once it is through, the period's events. */
    method Process(out: Stdout, hasPort: bool, buffer: Option<seq<seq<byte>>>) returns (code: int)
      modifies this, out
      ensures var t := Tick(old(lastWritten), hasPort, buffer, old(out.answers), old(out.written));
              && code == t.code && lastWritten == t.last
              && out.written == t.written && out.answers == t.answers
    {
      if !hasPort {
        return 0;
      }
      if buffer.None? {
        return -1;
      }
      code := 0;
      var proceed := Resynchronize(out);
      if !proceed {
        return;
      }
      var complete := WriteEvents(out, buffer.value);
      if !complete {
        lastWritten := Partial;
      }
    }

    /** The first part of `process`: after a partial line "X\n" is written and, when
        only the 'X' gets out, the state becomes `X`; after an `X` the missing "\n" is
        written. Whether the period may go on to its events. */
    method Resynchronize(out: Stdout) returns (proceed: bool)
      modifies this, out
      ensures var rs := Resync(old(lastWritten), old(out.answers), old(out.written));
              && proceed == rs.proceed && lastWritten == rs.last
              && out.written == rs.written && out.answers == rs.answers
    {
      proceed := false;
      if lastWritten == Partial {
        var n := out.Write("X\n");
        if n == 1 {
          lastWritten := X;
          return;
        } else if n != 2 {
          return;
        }
      } else if lastWritten == X {
        var n := out.Write("\n");
        if n != 1 {
          return;
        }
      }
      lastWritten := Newline;
      proceed := true;
    }
  }

  /** The event loop of `process`: each event through `WriteEvent`, stopping at the
      first that does not get out whole. Returns whether all of them got out. */
  method WriteEvents(out: Stdout, events: seq<seq<byte>>) returns (complete: bool)
    modifies out
    ensures var em := EmitEvents(events, old(out.answers), old(out.written));
            complete == em.complete && out.written == em.written && out.answers == em.answers
  {
    ghost var total := EmitEvents(events, out.answers, out.written);
    var i := 0;
    while i < |events|
      invariant i <= |events|
      invariant var r := EmitEvents(events[i..], out.answers, out.written);
                total == Emitted(r.complete, i + r.sent, r.written, r.answers)
    {
      assert events[i..][0] == events[i] && events[i..][1..] == events[i + 1..];
      var ok := WriteEvent(out, events[i]);
      if !ok {
        return false;
      }
      i := i + 1;
    }
    assert events[i..] == [];
    complete := true;
  }

  /** The body of the event loop of `process` for one event `e`: the digits go into a
      128-character buffer that is written out whenever it is full, then a line feed is
      added and the rest written. Returns whether every write took its whole buffer. */
  method WriteEvent(out: Stdout, e: seq<byte>) returns (ok: bool)
    modifies out
    ensures var r := EmitFrom(e, 0, [], old(out.answers), old(out.written));
            ok == r.complete && out.written == r.written && out.answers == r.answers
  {
    var buf := new char[CHUNK];
    var buflen: nat := 0;
    ghost var total := EmitFrom(e, 0, [], out.answers, out.written);
    var i := 0;
    while i < |e|
      invariant i <= |e| && buflen % 2 == 0 && buflen < CHUNK == buf.Length
      invariant total == EmitFrom(e, i, buf[..buflen], out.answers, out.written)
    {
      ghost var answers, written := out.answers, out.written;
      ghost var full := buf[..buflen] + ByteHex(e[i]);
      var flushed;
      buflen, flushed := PutByte(out, buf, buflen, e[i]);
      if flushed == Some(false) {
        assert total == Emission(false, written + full[..Accepted(answers, CHUNK)], Rest(answers));
        return false;
      }
      if flushed.None? {
        assert total == EmitFrom(e, i + 1, full, answers, written);
      } else {
        assert full[..CHUNK] == full && buf[..buflen] == [];
        assert total == EmitFrom(e, i + 1, [], Rest(answers), written + full);
      }
      i := i + 1;
    }
    ghost var answers, written := out.answers, out.written;
    ghost var text := buf[..buflen] + "\n";
    assert total == Emission(Accepted(answers, |text|) == |text|, written + text[..Accepted(answers, |text|)], Rest(answers));
    buf[buflen] := '\n';
    buflen := buflen + 1;
    assert buf[..buflen] == text;
    var n := out.Write(buf[..buflen]);
    ok := n == buflen;
  }

  /** One pass of the inner loop of `process`: appends the digit of the high nibble, then
      that of the low nibble, and when that fills the buffer, writes all of it at once. `flushed` is None when nothing was written, and otherwise
      whether the write took the whole buffer. */
  method PutByte(out: Stdout, buf: array<char>, buflen: nat, value: byte) returns (newLen: nat, flushed: Option<bool>)
    requires buf.Length == CHUNK && buflen % 2 == 0 && buflen < CHUNK
    modifies out, buf
    ensures var full := old(buf[..buflen]) + ByteHex(value);
            if |full| < CHUNK then
              && flushed == None && newLen == |full| && buf[..newLen] == full
              && out.written == old(out.written) && out.answers == old(out.answers)
            else
              var n := Accepted(old(out.answers), CHUNK);
              && flushed == Some(n == CHUNK) && newLen == 0
              && out.written == old(out.written) + full[..n] && out.answers == Rest(old(out.answers))
  {
    ghost var chunk := buf[..buflen];
    buf[buflen] := IntToHex((value >> 4) as int);
    assert buf[..buflen + 1] == chunk + [buf[buflen]];
    buf[buflen + 1] := IntToHex((value & 0xF) as int);
    assert buf[..buflen + 2] == chunk + ByteHex(value);
    newLen := buflen + 2;
    flushed := None;
    if newLen == CHUNK {
      var n := out.Write(buf[..newLen]);
      flushed := Some(n == newLen);
      newLen := 0;
    }
  }

  /** The name `usage` prints for `arg0`. */
  method Usage(arg0: Option<seq<char>>) returns (name: seq<char>)
    ensures var bin := CString(if arg0.Some? then arg0.value else []);
            name == if AfterLastSlash(bin) == [] then "jack-midi-to-stdin" else AfterLastSlash(bin)
  {
    name := ProgramName(arg0, "jack-midi-to-stdin");
  }
}

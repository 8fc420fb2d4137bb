/** `jack-stdin-to-midi`: reads lines of hex text from standard input, turns each into a
    MIDI message, and hands the messages to the real-time callback through a
    single-producer, single-consumer linked queue whose drained nodes the control thread
    frees later.

    The queue is modelled sequentially, as an arena of nodes: node `i` has a payload
    `message[i]` and a link `next[i]`; node 0 is the blank node the program starts with.
    Each operation below is one call of the source's; interleaving them in any order is
    interleaving the two threads' calls. */
module StdinToMidi {
  import opened Common
  import opened LineAssembly

  /** `sizeof(line) - 1`: the longest partial line the input loop keeps. */
  const LINE_CAPACITY: nat := 1023

  /** The value of one hex digit of either case, or -1 for any other character. */
  function HexToInt(c: char): (r: int)
    ensures -1 <= r < 16
  {
    if '0' <= c <= '9' then c as int - '0' as int
    else if 'a' <= c <= 'f' then c as int - 'a' as int + 10
    else if 'A' <= c <= 'F' then c as int - 'A' as int + 10
    else -1
  }

  /** `HexToInt` against the digit tables: a digit of either case gives its position in
      its table, and every character in neither table gives -1. */
  lemma HexToIntDigits(c: char)
    ensures HexToInt(c) != -1 ==> LOWER_DIGITS[HexToInt(c)] == c || UPPER_DIGITS[HexToInt(c)] == c
    ensures HexToInt(c) == -1 <==> c !in LOWER_DIGITS && c !in UPPER_DIGITS
  {
  }

  /** The byte whose high nibble is `hi` and low nibble `lo`, built as `handle_line`
      builds it: `hi << 4`, then `|= lo`. */
  function Nibbles(hi: int, lo: int): byte
    requires 0 <= hi < 16 && 0 <= lo < 16
  {
    ((hi as byte) << 4) | (lo as byte)
  }

  /** Both nibbles can be read back from `Nibbles`: the high one by shifting right by
      four, the low one by masking with 0xf. */
  lemma NibblesValue(hi: int, lo: int)
    requires 0 <= hi < 16 && 0 <= lo < 16
    ensures (Nibbles(hi, lo) >> 4) as int == hi && (Nibbles(hi, lo) & 0xF) as int == lo
  {
    var h := hi as byte;
    var l := lo as byte;
    assert h < 16 && l < 16;
    assert ((h << 4) | l) >> 4 == h;
    assert ((h << 4) | l) & 0xF == l;
  }

  /** Why `handle_line` rejects a line. */
  datatype LineError = OddLength | BadDigit(c: char)

  /** The outcome of decoding one line. */
  datatype Decoded = Message(bytes: seq<byte>) | Rejected(error: LineError)

  /** Decoding an even number of hex digits, two per byte, high nibble first; the first
      character that is not a hex digit rejects the line. */
  function DecodeDigits(s: seq<char>): Decoded
    requires |s| % 2 == 0
    decreases |s|
  {
    if s == [] then Message([])
    else
      var hi := HexToInt(s[0]);
      var lo := HexToInt(s[1]);
      if hi == -1 then Rejected(BadDigit(s[0]))
      else if lo == -1 then Rejected(BadDigit(s[1]))
      else match DecodeDigits(s[2..])
        case Message(m) => Message([Nibbles(hi, lo)] + m)
        case Rejected(e) => Rejected(e)
  }

  /** The message a line of hex text stands for, or why `handle_line` rejects it. */
  function DecodeLine(line: seq<char>): Decoded
  {
    if |line| % 2 == 1 then Rejected(OddLength) else DecodeDigits(line)
  }

  /** `j` is the first position of `s` that holds no hex digit. */
  ghost predicate FirstBadDigit(s: seq<char>, j: int)
  {
    0 <= j < |s| && HexToInt(s[j]) == -1 && forall i :: 0 <= i < j ==> HexToInt(s[i]) != -1
  }

  /** Digits decode exactly when every character is a hex digit. */
  lemma {:induction false} DecodeDigitsAccepts(s: seq<char>)
    requires |s| % 2 == 0
    ensures DecodeDigits(s).Message? <==> forall i :: 0 <= i < |s| ==> HexToInt(s[i]) != -1
    decreases |s|
  {
    if s != [] {
      DecodeDigitsAccepts(s[2..]);
      assert forall i :: 2 <= i < |s| ==> s[i] == s[2..][i - 2];
    }
  }

  /** Digits that are all hex digits decode to half as many bytes, byte `k` made of the
      digits at `2k` and `2k + 1`. */
  lemma {:induction false} DecodeDigitsBytes(s: seq<char>)
    requires |s| % 2 == 0
    requires forall i :: 0 <= i < |s| ==> HexToInt(s[i]) != -1
    ensures DecodeDigits(s).Message?
    ensures var m := DecodeDigits(s).bytes;
            && |m| == |s| / 2
            && forall k :: 0 <= k < |m| ==> m[k] == Nibbles(HexToInt(s[2 * k]), HexToInt(s[2 * k + 1]))
    decreases |s|
  {
    if s != [] {
      var rest := s[2..];
      assert forall i :: 0 <= i < |rest| ==> rest[i] == s[i + 2];
      DecodeDigitsBytes(rest);
      var hi, lo := HexToInt(s[0]), HexToInt(s[1]);
      var m := DecodeDigits(rest).bytes;
      var all := DecodeDigits(s).bytes;
      assert all == [Nibbles(hi, lo)] + m;
      forall k | 0 <= k < |all|
        ensures all[k] == Nibbles(HexToInt(s[2 * k]), HexToInt(s[2 * k + 1]))
      {
        if k > 0 {
          assert all[k] == m[k - 1];
          assert s[2 * k] == rest[2 * (k - 1)] && s[2 * k + 1] == rest[2 * (k - 1) + 1];
        }
      }
    }
  }

  /** Rejected digits report the first character that is not a hex digit. */
  lemma {:induction false} DecodeDigitsReportsFirstBad(s: seq<char>)
    requires |s| % 2 == 0
    ensures DecodeDigits(s).Rejected? ==>
              exists j :: FirstBadDigit(s, j) && DecodeDigits(s).error == BadDigit(s[j])
    decreases |s|
  {
    if s != [] && DecodeDigits(s).Rejected? {
      var rest := s[2..];
      if HexToInt(s[0]) == -1 {
        assert FirstBadDigit(s, 0);
      } else if HexToInt(s[1]) == -1 {
        assert FirstBadDigit(s, 1);
      } else {
        DecodeDigitsReportsFirstBad(rest);
        var j :| FirstBadDigit(rest, j) && DecodeDigits(rest).error == BadDigit(rest[j]);
        assert forall i :: 2 <= i < |s| ==> s[i] == rest[i - 2];
        assert FirstBadDigit(s, j + 2);
      }
    }
  }

  /** Digits whose first non-digit is at `j` are rejected for that character. */
  lemma {:induction false} DecodeDigitsFirstBad(s: seq<char>, j: int)
    requires |s| % 2 == 0 && FirstBadDigit(s, j)
    ensures DecodeDigits(s) == Rejected(BadDigit(s[j]))
    decreases |s|
  {
    if j >= 2 {
      var rest := s[2..];
      assert forall i :: 0 <= i < |rest| ==> rest[i] == s[i + 2];
      assert FirstBadDigit(rest, j - 2);
      DecodeDigitsFirstBad(rest, j - 2);
    }
  }

  /** Bytes built from an even line of hex digits as the loop in `handle_line` builds
      them are the line's message. */
  lemma DecodedBytes(line: seq<char>, m: seq<byte>)
    requires |line| % 2 == 0 && |m| == |line| / 2
    requires forall i :: 0 <= i < |line| ==> HexToInt(line[i]) != -1
    requires forall k :: 0 <= k < |m| ==> m[k] == Nibbles(HexToInt(line[2 * k]), HexToInt(line[2 * k + 1]))
    ensures DecodeLine(line) == Message(m)
  {
    DecodeDigitsBytes(line);
    assert DecodeDigits(line).bytes == m;
  }

  /** A line is decoded exactly when it has an even length and holds only hex digits; the
      message then has half the line's length and its byte `k` is made of the digits at
      `2k` and `2k + 1`. An odd length is reported as such; otherwise the first character
      that is not a hex digit is reported. */
  lemma DecodeLineSpec(line: seq<char>)
    ensures DecodeLine(line).Message? <==>
              |line| % 2 == 0 && forall i :: 0 <= i < |line| ==> HexToInt(line[i]) != -1
    ensures DecodeLine(line).Message? ==>
              var m := DecodeLine(line).bytes;
              && |m| == |line| / 2
              && forall k :: 0 <= k < |m| ==> m[k] == Nibbles(HexToInt(line[2 * k]), HexToInt(line[2 * k + 1]))
    ensures |line| % 2 == 1 ==> DecodeLine(line) == Rejected(OddLength)
    ensures |line| % 2 == 0 && DecodeLine(line).Rejected? ==>
              exists j :: FirstBadDigit(line, j) && DecodeLine(line).error == BadDigit(line[j])
  {
    if |line| % 2 == 0 {
      DecodeDigitsAccepts(line);
      if forall i :: 0 <= i < |line| ==> HexToInt(line[i]) != -1 {
        DecodeDigitsBytes(line);
      }
      DecodeDigitsReportsFirstBad(line);
    }
  }

  /** The messages that the lines in `lines` enqueue, in order; rejected lines enqueue
      nothing. */
  function Messages(lines: seq<seq<char>>): seq<seq<byte>>
  {
    if lines == [] then []
    else
      var last := lines[|lines| - 1];
      Messages(lines[..|lines| - 1]) + (if DecodeLine(last).Message? then [DecodeLine(last).bytes] else [])
  }

  /** The messages of two runs of lines are those of the first followed by those of the
      second. */
  lemma {:induction false} MessagesAppend(a: seq<seq<char>>, b: seq<seq<char>>)
    ensures Messages(a + b) == Messages(a) + Messages(b)
    decreases |b|
  {
    if b == [] {
      assert a + b == a;
    } else {
      var b' := b[..|b| - 1];
      assert (a + b)[..|a + b| - 1] == a + b';
      assert (a + b)[|a + b| - 1] == b[|b| - 1];
      MessagesAppend(a, b');
    }
  }

  /** Handing on what one more byte completes appends what that line enqueues. */
  lemma MessagesSnoc(lines: seq<seq<char>>, out: Option<seq<char>>)
    ensures Messages(lines + Handed(out))
            == Messages(lines) + (if out.Some? then Messages([out.value]) else [])
  {
    if out.Some? {
      assert (lines + [out.value])[..|lines|] == lines;
      assert [out.value][..0] == [];
    } else {
      assert lines + [] == lines;
    }
  }

  /** The shared state of the two threads: the node arena, the reclamation frontier
      `mallocHead`, the emission cursor `head` and the `tail`, plus the set of nodes
      already given back to the allocator. */
  class State {
    var message: seq<seq<byte>>
    var next: seq<Option<nat>>
    var mallocHead: nat
    var head: nat
    var tail: nat
    var freed: set<nat>

    /** Nodes are linked in the order they were enqueued, the tail's link is null, the
        three cursors are ordered, and exactly the nodes before the reclamation frontier
        have been freed. */
    ghost predicate Valid()
      reads this
    {
      && |message| == |next| == tail + 1
      && mallocHead <= head <= tail
      && (forall i :: 0 <= i < tail ==> next[i] == Some(i + 1))
      && next[tail] == None
      && (forall i: nat :: i in freed <==> i < mallocHead)
    }

    /** The messages enqueued and not yet emitted: the nodes after the emission cursor. */
    ghost function Pending(): seq<seq<byte>>
      reads this
      requires Valid()
    {
      message[head + 1..]
    }

    /** The messages emitted so far, in order. */
    ghost function Delivered(): seq<seq<byte>>
      reads this
      requires Valid()
    {
      message[1..head + 1]
    }

    /** The state `main` sets up around the blank node of `node_blank`. */
    constructor ()
      ensures Valid()
      ensures Pending() == [] && Delivered() == [] && freed == {}
    {
      message := [[]];
      next := [None];
      mallocHead, head, tail := 0, 0, 0;
      freed := {};
    }

    /** `node_new` followed by `push_back`: a node carrying `m` with a null link becomes
        the tail and the old tail's link points to it. No other node changes. */
    method PushBack(m: seq<byte>)
      requires Valid()
      modifies this
      ensures Valid()
      ensures Pending() == old(Pending()) + [m] && Delivered() == old(Delivered())
      ensures tail == old(tail) + 1 && message[tail] == m && next[tail] == None
      ensures next[old(tail)] == Some(tail)
      ensures forall i :: 0 <= i < old(tail) ==> next[i] == old(next[i]) && message[i] == old(message[i])
      ensures head == old(head) && mallocHead == old(mallocHead) && freed == old(freed)
    {
      var node := |message|;
      message := message + [m];
      next := next + [None];
      var previous := tail;
      tail := node;
      next := next[previous := Some(node)];
    }

    /** `free`: gives one node back to the allocator. Only a node that is not yet free
        and that the emission cursor has moved past may be freed. */
    method Free(node: nat)
      requires node !in freed && node < head
      modifies this`freed
      ensures freed == old(freed) + {node}
    {
      freed := freed + {node};
    }

    /** `free_excess`: frees every node from the reclamation frontier up to, but not
        including, the emission cursor, and moves the frontier to the cursor. A second
        call with no drain in between frees nothing. */
    method FreeExcess()
      requires Valid()
      modifies this`mallocHead, this`freed
      ensures Valid()
      ensures mallocHead == head
      ensures forall i: nat :: i in freed <==> i in old(freed) || old(mallocHead) <= i < head
      ensures forall i :: head <= i <= tail ==> i !in freed
      ensures old(mallocHead) == head ==> freed == old(freed)
    {
      var h := head;
      var node := mallocHead;
      mallocHead := h;
      while node != h
        modifies this`freed
        invariant old(mallocHead) <= node <= h
        invariant forall i: nat :: i in freed <==> i in old(freed) || old(mallocHead) <= i < node
        decreases h - node
      {
        var following := next[node].value;
        Free(node);
        node := following;
      }
    }

    /** The real-time `process`: walks from the emission cursor along the links,
        emitting each node's payload, and leaves the cursor on the last node. Without a
        port it succeeds (code 0) and without an output buffer it fails (code -1), in
        both cases emitting nothing and moving nothing. */
    method Process(hasPort: bool, hasBuffer: bool) returns (code: int, emitted: seq<seq<byte>>)
      requires Valid()
      modifies this`head
      ensures Valid()
      ensures code == (if hasPort && !hasBuffer then -1 else 0)
      ensures hasPort && hasBuffer ==> emitted == old(Pending()) && Pending() == []
      ensures !(hasPort && hasBuffer) ==> emitted == [] && head == old(head)
      ensures Delivered() == old(Delivered()) + emitted
    {
      emitted := [];
      if !hasPort {
        return 0, emitted;
      }
      if !hasBuffer {
        return -1, emitted;
      }
      var node := head;
      while next[node].Some?
        invariant head <= node <= tail && node !in freed
        invariant emitted == message[head + 1..node + 1]
        decreases tail - node
      {
        node := next[node].value;
        emitted := emitted + [message[node]];
      }
      assert message[1..node + 1] == message[1..head + 1] + message[head + 1..node + 1];
      head := node;
      code := 0;
    }

    /** `handle_line`: first reclaims drained nodes, then enqueues the message the line
        decodes to; a rejected line enqueues nothing and is reported. */
    method HandleLine(line: seq<char>) returns (report: Option<LineError>)
      requires Valid()
      modifies this
      ensures Valid()
      ensures Pending() == old(Pending()) + (if DecodeLine(line).Message? then [DecodeLine(line).bytes] else [])
      ensures DecodeLine(line).Rejected? ==> tail == old(tail)
      ensures report == if DecodeLine(line).Rejected? then Some(DecodeLine(line).error) else None
      ensures head == old(head) && mallocHead == head && Delivered() == old(Delivered())
      ensures forall i: nat :: i in freed <==> i in old(freed) || old(mallocHead) <= i < head
    {
      ghost var pending := Pending();
      FreeExcess();
      assert Pending() == pending;
      DecodeLineSpec(line);
      if |line| % 2 == 1 {
        report := Some(OddLength);
        return;
      }
      var decoded := DecodeEven(line);
      if decoded.Rejected? {
        report := Some(decoded.error);
        return;
      }
      PushBack(decoded.bytes);
      assert Pending() == pending + [decoded.bytes];
      report := None;
    }
  }

  /** The loop of `handle_line` over a line of even length: each character's value
      goes into the high or the low nibble of byte `i / 2`; the first character that is
      not a hex digit stops it. */
  method DecodeEven(line: seq<char>) returns (r: Decoded)
    requires |line| % 2 == 0
    ensures r == DecodeLine(line)
  {
    var msg := new byte[|line| / 2];
    var i := 0;
    while i < |line|
      invariant 0 <= i <= |line|
      invariant forall j :: 0 <= j < i ==> HexToInt(line[j]) != -1
      invariant forall k :: 0 <= k < i / 2 ==> msg[k] == Nibbles(HexToInt(line[2 * k]), HexToInt(line[2 * k + 1]))
      invariant i % 2 == 1 ==> msg[i / 2] == (HexToInt(line[i - 1]) as byte) << 4
    {
      var value := HexToInt(line[i]);
      if value == -1 {
        DecodeDigitsFirstBad(line, i);
        return Rejected(BadDigit(line[i]));
      }
      if i % 2 == 0 {
        msg[i / 2] := (value as byte) << 4;
      } else {
        ghost var hi := HexToInt(line[i - 1]);
        msg[i / 2] := msg[i / 2] | value as byte;
        assert msg[i / 2] == Nibbles(hi, value);
      }
      i := i + 1;
    }
    DecodedBytes(line, msg[..]);
    r := Message(msg[..]);
  }

  /** The loop in `main` over one read of standard input `buf`, with the line buffer
      `line` holding a partial line of `linelen` bytes: an 'X' discards the partial
      line, a line feed hands it to `handle_line`, and any other byte is kept while
      fewer than 1023 are held. */
  method ReadInput(state: State, line: array<char>, linelen: nat, buf: seq<char>) returns (newLen: nat)
    requires state.Valid() && line.Length == LINE_CAPACITY + 1 && linelen <= LINE_CAPACITY
    modifies state, line
    ensures state.Valid() && newLen <= LINE_CAPACITY
    ensures var r := Assemble(LINE_CAPACITY, true, old(line[..linelen]), buf);
            && line[..newLen] == r.line
            && state.Pending() == old(state.Pending()) + Messages(r.lines)
            && (r.lines == [] ==> state.mallocHead == old(state.mallocHead) && state.freed == old(state.freed))
            && (r.lines != [] ==> state.mallocHead == state.head
                                  && forall i: nat :: i in state.freed <==> i in old(state.freed) || old(state.mallocHead) <= i < state.head)
    ensures state.head == old(state.head) && state.Delivered() == old(state.Delivered())
  {
    ghost var total := Assemble(LINE_CAPACITY, true, line[..linelen], buf);
    ghost var done: seq<seq<char>> := [];
    newLen := linelen;
    var i := 0;
    while i < |buf|
      invariant i <= |buf| && newLen <= LINE_CAPACITY
      invariant state.Valid()
      invariant var r := Assemble(LINE_CAPACITY, true, line[..newLen], buf[i..]);
                total == Asm(r.line, done + r.lines)
      invariant state.Pending() == old(state.Pending()) + Messages(done)
      invariant state.head == old(state.head) && state.Delivered() == old(state.Delivered())
      invariant done == [] ==> state.mallocHead == old(state.mallocHead) && state.freed == old(state.freed)
      invariant done != [] ==> state.mallocHead == state.head
                               && forall i: nat :: i in state.freed <==> i in old(state.freed) || old(state.mallocHead) <= i < state.head
    {
      ghost var before := line[..newLen];
      ghost var step := Step(LINE_CAPACITY, true, before, buf[i]);
      AssembleStepInto(LINE_CAPACITY, true, total, before, buf[i..], done);
      assert buf[i..][0] == buf[i] && buf[i..][1..] == buf[i + 1..];
      newLen := Feed(state, line, newLen, buf[i]);
      MessagesSnoc(done, step.1);
      done := done + Handed(step.1);
      i := i + 1;
    }
    assert buf[i..] == [];
    assert done + [] == done;
  }

  /** One byte of the loop in `main`: an 'X' empties the line, a line feed terminates
      the line, hands it to `handle_line` and empties it, any other byte is appended
      while there is room and dropped otherwise. */
  method Feed(state: State, line: array<char>, len: nat, c: char) returns (newLen: nat)
    requires state.Valid() && line.Length == LINE_CAPACITY + 1 && len <= LINE_CAPACITY
    modifies state, line
    ensures state.Valid() && newLen <= LINE_CAPACITY
    ensures var step := Step(LINE_CAPACITY, true, old(line[..len]), c);
            && line[..newLen] == step.0
            && state.Pending() == old(state.Pending()) + (if step.1.Some? then Messages([step.1.value]) else [])
            && (step.1.None? ==> state.mallocHead == old(state.mallocHead) && state.freed == old(state.freed))
            && (step.1.Some? ==> state.mallocHead == state.head
                                 && forall i: nat :: i in state.freed <==> i in old(state.freed) || old(state.mallocHead) <= i < state.head)
    ensures state.head == old(state.head) && state.Delivered() == old(state.Delivered())
  {
    ghost var before := line[..len];
    if c == 'X' {
      // An 'X' empties the partial line.
      newLen := 0;
      assert line[..newLen] == [];
    } else if c == '\n' {
      line[len] := '\0';
      assert line[..len] == before;
      var _ := state.HandleLine(line[..len]);
      assert [before][..0] == [];
      newLen := 0;
      assert line[..newLen] == [];
    } else if len < LINE_CAPACITY {
      line[len] := c;
      newLen := len + 1;
      assert line[..newLen] == before + [c];
    } else {
      newLen := len;
    }
  }

  /** The name `usage` prints for `arg0`. */
  method Usage(arg0: Option<seq<char>>) returns (name: seq<char>)
    ensures var bin := CString(if arg0.Some? then arg0.value else []);
            name == if AfterLastSlash(bin) == [] then "jack-stdin-to-midi" else AfterLastSlash(bin)
  {
    name := ProgramName(arg0, "jack-stdin-to-midi");
  }

  /** The two bytes "X\n" that a sender writes after an interrupted line hand on an
      empty line, which decodes to a zero-length message. */
  lemma ResyncLineIsEmptyMessage(line: seq<char>)
    requires |line| <= LINE_CAPACITY
    ensures Assemble(LINE_CAPACITY, true, line, "X\n") == Asm([], [[]])
    ensures DecodeLine([]) == Message([])
  {
  }
}

/** The line assembly that two of the programs run over their standard input: bytes
    collect in a fixed buffer, a line feed hands the collected line on and empties the
    buffer, bytes beyond the buffer's capacity are dropped, and, where the program has a
    resynchronization marker, an 'X' empties the buffer without handing anything on.
    `jack-stdin-to-midi` runs it with capacity 1023 and the marker, `cv` with capacity
    127 and without it. */
module LineAssembly {
  import opened Common

  /** What the assembler holds after some input: the partial line, and the complete
      lines it handed on, in order. */
  datatype Asm = Asm(line: seq<char>, lines: seq<seq<char>>)

  /** The first `cap` characters of `s`. */
  function Truncate(cap: nat, s: seq<char>): (r: seq<char>)
    ensures |r| <= cap && r <= s
    ensures |s| <= cap ==> r == s
  {
    if |s| <= cap then s else s[..cap]
  }

  /** The effect of one input byte `c` on the partial line. */
  function Step(cap: nat, resync: bool, line: seq<char>, c: char): (seq<char>, Option<seq<char>>)
  {
    if resync && c == 'X' then ([], None)
    else if c == '\n' then ([], Some(line))
    else if |line| < cap then (line + [c], None)
    else (line, None)
  }

  /** The lines that one input byte hands on: none, or the one it completes. */
  function Handed(out: Option<seq<char>>): seq<seq<char>>
  {
    if out.Some? then [out.value] else []
  }

  /** The assembler's state after reading `input`, starting from the partial line `line`. */
  function Assemble(cap: nat, resync: bool, line: seq<char>, input: seq<char>): (r: Asm)
    requires |line| <= cap
    ensures |r.line| <= cap
    decreases |input|
  {
    if input == [] then Asm(line, [])
    else
      var (next, out) := Step(cap, resync, line, input[0]);
      var rest := Assemble(cap, resync, next, input[1..]);
      Asm(rest.line, Handed(out) + rest.lines)
  }

  /** Reading `a` and then `b` is reading `a + b`: how the input is split into reads
      does not matter. */
  lemma {:induction false} AssembleAppend(cap: nat, resync: bool, line: seq<char>, a: seq<char>, b: seq<char>)
    requires |line| <= cap
    ensures var ra := Assemble(cap, resync, line, a);
            var rb := Assemble(cap, resync, ra.line, b);
            Assemble(cap, resync, line, a + b) == Asm(rb.line, ra.lines + rb.lines)
    decreases |a|
  {
    if a == [] {
      assert a + b == b;
    } else {
      assert (a + b)[0] == a[0];
      assert (a + b)[1..] == a[1..] + b;
      var (next, out) := Step(cap, resync, line, a[0]);
      AssembleAppend(cap, resync, next, a[1..], b);
      var ra' := Assemble(cap, resync, next, a[1..]);
      var rb := Assemble(cap, resync, ra'.line, b);
      var o := Handed(out);
      assert o + (ra'.lines + rb.lines) == (o + ra'.lines) + rb.lines;
    }
  }

  /** One step of an assembler loop: if the outcome `total` of the whole input is the
      lines `done` handed on so far followed by what reading `rest` from the partial line
      `line` gives, then after one more byte the same holds of the new partial line,
      `done` extended by what that byte handed on, and the rest of `rest`. */
  lemma AssembleStepInto(cap: nat, resync: bool, total: Asm,
                         line: seq<char>, rest: seq<char>, done: seq<seq<char>>)
    requires |line| <= cap && rest != []
    requires var r := Assemble(cap, resync, line, rest);
             total == Asm(r.line, done + r.lines)
    ensures var step := Step(cap, resync, line, rest[0]);
            var r := Assemble(cap, resync, step.0, rest[1..]);
            total == Asm(r.line, (done + Handed(step.1)) + r.lines)
  {
    var step := Step(cap, resync, line, rest[0]);
    var o := Handed(step.1);
    var r := Assemble(cap, resync, step.0, rest[1..]);
    assert Assemble(cap, resync, line, rest) == Asm(r.line, o + r.lines);
    assert done + (o + r.lines) == (done + o) + r.lines;
  }

  /** Input holding no line feed (and no marker, where there is one) only grows the
      partial line, up to the capacity, and hands nothing on. */
  lemma {:induction false} AssembleNoTerminator(cap: nat, resync: bool, line: seq<char>, s: seq<char>)
    requires |line| <= cap
    requires forall i :: 0 <= i < |s| ==> s[i] != '\n' && !(resync && s[i] == 'X')
    ensures Assemble(cap, resync, line, s) == Asm(Truncate(cap, line + s), [])
    decreases |s|
  {
    if s != [] {
      var next := if |line| < cap then line + [s[0]] else line;
      AssembleNoTerminator(cap, resync, next, s[1..]);
      if |line| < cap {
        assert next + s[1..] == line + s;
      } else {
        assert (line + s)[..cap] == line;
      }
    }
  }

  /** A line feed hands on the partial line, whatever it holds, and empties it. */
  lemma LineFeedDispatches(cap: nat, resync: bool, line: seq<char>)
    requires |line| <= cap
    ensures Assemble(cap, resync, line, ['\n']) == Asm([], [line])
  {
  }

  /** One line of text and its line feed, read from an empty buffer, come out as that
      line, cut to the capacity. */
  lemma OneLine(cap: nat, resync: bool, s: seq<char>)
    requires forall i :: 0 <= i < |s| ==> s[i] != '\n' && !(resync && s[i] == 'X')
    ensures Assemble(cap, resync, [], s + ['\n']) == Asm([], [Truncate(cap, s)])
  {
    AssembleAppend(cap, resync, [], s, ['\n']);
    AssembleNoTerminator(cap, resync, [], s);
    assert [] + s == s;
    LineFeedDispatches(cap, resync, Truncate(cap, s));
  }

  /** An 'X' anywhere in the input discards everything collected since the last line
      feed or marker: the lines after it come out exactly as if reading had started
      there with an empty buffer. */
  lemma ResyncDiscards(cap: nat, line: seq<char>, a: seq<char>, b: seq<char>)
    requires |line| <= cap
    ensures var ra := Assemble(cap, true, line, a);
            var rb := Assemble(cap, true, [], b);
            Assemble(cap, true, line, a + ['X'] + b) == Asm(rb.line, ra.lines + rb.lines)
  {
    var ra := Assemble(cap, true, line, a);
    var xb := ['X'] + b;
    AssembleAppend(cap, true, line, a, xb);
    assert a + ['X'] + b == a + xb;
    assert xb[0] == 'X' && xb[1..] == b;
    assert Assemble(cap, true, ra.line, xb) == Assemble(cap, true, [], b);
  }
}

/** `cv`: a JACK client with one CV output port whose value is set by lines of standard
    input, one decimal floating-point number per line. A line that does not parse, or
    parses to NaN, leaves the value as it was; a build option clamps values to [0, 1];
    each process cycle fills the port's buffer with the current value. */
module Cv {
  import opened Common
  import opened LineAssembly

  /** `line` holds 128 characters: at most 127 of them plus the NUL. */
  const LINE_CAPACITY: nat := 127

  /** A single-precision value as far as `handle_line` looks at it: NaN, an infinity, or
      a finite number. */
  datatype Float = NaN | NegInf | PosInf | Finite(x: real)

  /** `v < 0` in IEEE comparison (false for NaN). */
  predicate Below0(v: Float)
  {
    v.NegInf? || (v.Finite? && v.x < 0.0)
  }

  /** `v > 1` in IEEE comparison (false for NaN). */
  predicate Above1(v: Float)
  {
    v.PosInf? || (v.Finite? && v.x > 1.0)
  }

  /** `0 <= v <= 1`. */
  predicate InUnit(v: Float)
  {
    v.Finite? && 0.0 <= v.x <= 1.0
  }

  /** Every value other than NaN is below 0, in [0, 1] or above 1, and only one of these. */
  lemma Trichotomy(v: Float)
    ensures v.NaN? <==> !Below0(v) && !InUnit(v) && !Above1(v)
    ensures !(Below0(v) && InUnit(v)) && !(InUnit(v) && Above1(v)) && !(Below0(v) && Above1(v))
  {
  }

  /** What `strtof` reports for a line: how many characters it consumed (None for a null
      end pointer), the value, and `errno` afterwards. */
  datatype Parsed = Parsed(consumed: Option<nat>, value: Float, errno: int)

  /** `handle_line`'s test for a line that did not parse: no end pointer, nothing
      consumed, or `errno` set. */
  predicate ParseFailed(p: Parsed)
  {
    p.consumed.None? || p.consumed.value == 0 || p.errno != 0
  }

  /** The messages `handle_line` writes to standard error. */
  datatype Notice = ParseError | IsNaN | ClampedTo0 | ClampedTo1

  /** The clamp rule: the nearest point of [0, 1]. */
  function Clamp(v: Float): (r: Float)
    requires !v.NaN?
    ensures InUnit(r)
    ensures InUnit(v) ==> r == v
    ensures Below0(v) ==> r == Finite(0.0)
    ensures Above1(v) ==> r == Finite(1.0)
  {
    if Below0(v) then Finite(0.0)
    else if Above1(v) then Finite(1.0)
    else v
  }

  /** The distance between two reals. */
  function Dist(a: real, b: real): real
  {
    if a <= b then b - a else a - b
  }

  /** Clamping a finite value gives the point of [0, 1] closest to it. */
  lemma ClampIsNearest(x: real, u: real)
    requires 0.0 <= u <= 1.0
    ensures Dist(Clamp(Finite(x)).x, x) <= Dist(u, x)
  {
  }

  /** Clamping preserves order between values other than NaN. */
  lemma ClampMonotone(a: Float, b: Float)
    requires !a.NaN? && !b.NaN?
    requires a == b || Below0(a) || (a.Finite? && b.Finite? && a.x <= b.x) || Above1(b)
    ensures Clamp(a).x <= Clamp(b).x
  {
  }

  /** Clamping twice is clamping once. */
  lemma ClampIdempotent(v: Float)
    requires !v.NaN?
    ensures Clamp(Clamp(v)) == Clamp(v)
  {
  }

  /** What `handle_line` decides for a parse outcome: reject the line with a notice, or
      store a value, possibly with a notice that it was clamped. */
  datatype Verdict = Rejected(why: Notice) | Stored(value: Float, note: Option<Notice>)

  /** The decision of `handle_line`, `clamp` being the build option. */
  function Decide(clamp: bool, p: Parsed): (r: Verdict)
    ensures r.Rejected? <==> ParseFailed(p) || p.value.NaN?
    ensures r.Rejected? ==> r.why == (if ParseFailed(p) then ParseError else IsNaN)
    ensures r.Stored? ==> !r.value.NaN? && (clamp ==> InUnit(r.value))
    ensures r.Stored? && (!clamp || InUnit(p.value)) ==> r == Stored(p.value, None)
    ensures r.Stored? && r.value != p.value ==>
              clamp && r.note == Some(if Below0(p.value) then ClampedTo0 else ClampedTo1)
  {
    if ParseFailed(p) then Rejected(ParseError)
    else if p.value.NaN? then Rejected(IsNaN)
    else if !clamp then Stored(p.value, None)
    else if Below0(p.value) then Stored(Finite(0.0), Some(ClampedTo0))
    else if Above1(p.value) then Stored(Finite(1.0), Some(ClampedTo1))
    else Stored(p.value, None)
  }

  /** The stored value after `handle_line` sees a line that parses as `p`. */
  function NextValue(clamp: bool, current: Float, p: Parsed): (r: Float)
    ensures ParseFailed(p) || p.value.NaN? ==> r == current
    ensures !ParseFailed(p) && !p.value.NaN? ==> r == (if clamp then Clamp(p.value) else p.value)
  {
    match Decide(clamp, p)
    case Rejected(_) => current
    case Stored(v, _) => v
  }

  /** The value after a run of lines, `strtof` being what the C library answers for each
      line. */
  function Settle(clamp: bool, current: Float, strtof: seq<char> -> Parsed, lines: seq<seq<char>>): Float
  {
    if lines == [] then current
    else NextValue(clamp, Settle(clamp, current, strtof, lines[..|lines| - 1]), strtof(lines[|lines| - 1]))
  }

  /** The invariant of the stored value: never NaN, and within [0, 1] when clamping. */
  predicate Sound(clamp: bool, v: Float)
  {
    !v.NaN? && (clamp ==> InUnit(v))
  }

  /** Any run of lines keeps the stored value sound. */
  lemma {:induction false} SettleSound(clamp: bool, current: Float, strtof: seq<char> -> Parsed, lines: seq<seq<char>>)
    requires Sound(clamp, current)
    ensures Sound(clamp, Settle(clamp, current, strtof, lines))
  {
    if lines != [] {
      SettleSound(clamp, current, strtof, lines[..|lines| - 1]);
    }
  }

  /** The latest line that parses to a number decides the value; the lines after it that
      fail to parse, or parse to NaN, change nothing. */
  lemma {:induction false} SettleLatestWins(clamp: bool, current: Float, strtof: seq<char> -> Parsed,
                                            lines: seq<seq<char>>, k: nat)
    requires k < |lines|
    requires !ParseFailed(strtof(lines[k])) && !strtof(lines[k]).value.NaN?
    requires forall j :: k < j < |lines| ==> ParseFailed(strtof(lines[j])) || strtof(lines[j]).value.NaN?
    ensures var v := strtof(lines[k]).value;
            Settle(clamp, current, strtof, lines) == if clamp then Clamp(v) else v
    decreases |lines|
  {
    var init := lines[..|lines| - 1];
    if k < |lines| - 1 {
      assert forall j :: k < j < |init| ==> init[j] == lines[j];
      SettleLatestWins(clamp, current, strtof, init, k);
    }
  }

  /** The lines after a point are read from the value left there. */
  lemma {:induction false} SettleAppend(clamp: bool, current: Float, strtof: seq<char> -> Parsed,
                                        a: seq<seq<char>>, b: seq<seq<char>>)
    ensures Settle(clamp, current, strtof, a + b)
            == Settle(clamp, Settle(clamp, current, strtof, a), strtof, b)
    decreases |b|
  {
    if b == [] {
      assert a + b == a;
    } else {
      var b' := b[..|b| - 1];
      assert (a + b)[..|a + b| - 1] == a + b';
      SettleAppend(clamp, current, strtof, a, b');
    }
  }

  /** Bytes that `jack-stdin-to-midi` reads as its resynchronization marker have no such
      meaning here: an 'X' is collected like any other byte. */
  lemma NoResyncMarker(line: seq<char>)
    requires |line| < LINE_CAPACITY
    ensures Assemble(LINE_CAPACITY, false, line, "X") == Asm(line + "X", [])
  {
  }

  /** The client state shared by the two threads: the current value and the build-time
      clamp option. */
  class State {
    var value: Float
    const clamp: bool

    predicate Valid()
      reads this
    {
      Sound(clamp, value)
    }

    /** The state `main` starts from: zero-initialised. */
    constructor(clamp: bool)
      ensures this.clamp == clamp && value == Finite(0.0) && Valid()
    {
      this.clamp := clamp;
      value := Finite(0.0);
    }

    /** `handle_line` for a line on which `strtof` reports `parsed`: store the decided
        value, or keep the old one, and name what it writes to standard error. */
    method HandleLine(parsed: Parsed) returns (notice: Option<Notice>)
      requires Valid()
      modifies this
      ensures Valid()
      ensures value == NextValue(clamp, old(value), parsed)
      ensures notice == match Decide(clamp, parsed)
                        case Rejected(why) => Some(why)
                        case Stored(_, note) => note
    {
      if parsed.consumed.None? || parsed.consumed.value == 0 || parsed.errno != 0 {
        return Some(ParseError);
      }
      if parsed.value.NaN? {
        return Some(IsNaN);
      }
      var v := parsed.value;
      notice := None;
      if !clamp {
      } else if Below0(v) {
        notice := Some(ClampedTo0);
        v := Finite(0.0);
      } else if Above1(v) {
        notice := Some(ClampedTo1);
        v := Finite(1.0);
      }
      value := v;
    }

    /** `process`: no port yet means nothing to do; a missing buffer is an error;
        otherwise the first `nframes` samples of the buffer all become the current value. */
    method Process(hasPort: bool, buffer: Option<array<Float>>, nframes: nat) returns (code: int)
      requires buffer.Some? ==> nframes <= buffer.value.Length
      modifies if buffer.Some? then {buffer.value} else {}
      ensures code == (if hasPort && buffer.None? then -1 else 0)
      ensures !hasPort && buffer.Some? ==> unchanged(buffer.value)
      ensures hasPort && buffer.Some? ==>
                (forall i :: 0 <= i < nframes ==> buffer.value[i] == value)
                && buffer.value[nframes..] == old(buffer.value[nframes..])
    {
      if !hasPort {
        return 0;
      }
      if buffer.None? {
        return -1;
      }
      var samples := buffer.value;
      var v := value;
      var i := 0;
      while i < nframes
        invariant i <= nframes
        invariant forall k :: 0 <= k < i ==> samples[k] == v
        invariant samples[nframes..] == old(samples[nframes..])
      {
        samples[i] := v;
        i := i + 1;
      }
      code := 0;
    }
  }

  /** One byte of the loop in `main`: a line feed terminates the line and hands it to
      `handle_line`, emptying it; any other byte is appended while there is room and
      dropped otherwise. */
  method Feed(state: State, strtof: seq<char> -> Parsed, line: array<char>, len: nat, c: char)
    returns (newLen: nat)
    requires state.Valid() && line.Length == LINE_CAPACITY + 1 && len <= LINE_CAPACITY
    modifies state, line
    ensures state.Valid() && newLen <= LINE_CAPACITY
    ensures var step := Step(LINE_CAPACITY, false, old(line[..len]), c);
            && line[..newLen] == step.0
            && state.value == Settle(state.clamp, old(state.value), strtof, Handed(step.1))
  {
    ghost var before := line[..len];
    if c == '\n' {
      line[len] := '\0';
      assert line[..len] == before;
      var _ := state.HandleLine(strtof(line[..len]));
      assert [before][..0] == [];
      newLen := 0;
      assert line[..newLen] == [];
    } else if len < LINE_CAPACITY {
      line[len] := c;
      newLen := len + 1;
      assert line[..newLen] == before + [c];
    } else {
      newLen := len;
    }
  }

  /** The inner loop of `main` over one block `buf` read from standard input, starting
      with `linelen` characters collected in `line`: it leaves the partial line the
      assembler describes, and the value the completed lines settle to. */
  method ReadInput(state: State, strtof: seq<char> -> Parsed, line: array<char>, linelen: nat, buf: seq<char>)
    returns (newLen: nat)
    requires state.Valid() && line.Length == LINE_CAPACITY + 1 && linelen <= LINE_CAPACITY
    modifies state, line
    ensures state.Valid() && newLen <= LINE_CAPACITY
    ensures var r := Assemble(LINE_CAPACITY, false, old(line[..linelen]), buf);
            && line[..newLen] == r.line
            && state.value == Settle(state.clamp, old(state.value), strtof, r.lines)
  {
    ghost var total := Assemble(LINE_CAPACITY, false, line[..linelen], buf);
    ghost var done: seq<seq<char>> := [];
    newLen := linelen;
    var i := 0;
    while i < |buf|
      invariant i <= |buf| && newLen <= LINE_CAPACITY
      invariant state.Valid()
      invariant var r := Assemble(LINE_CAPACITY, false, line[..newLen], buf[i..]);
                total == Asm(r.line, done + r.lines)
      invariant state.value == Settle(state.clamp, old(state.value), strtof, done)
    {
      ghost var before := line[..newLen];
      ghost var step := Step(LINE_CAPACITY, false, before, buf[i]);
      ghost var handed := Handed(step.1);
      AssembleStepInto(LINE_CAPACITY, false, total, before, buf[i..], done);
      assert buf[i..][0] == buf[i] && buf[i..][1..] == buf[i + 1..];
      newLen := Feed(state, strtof, line, newLen, buf[i]);
      SettleAppend(state.clamp, old(state.value), strtof, done, handed);
      done := done + handed;
      i := i + 1;
    }
    assert buf[i..] == [];
    assert done + [] == done;
  }

  /** The name `usage` prints for `arg0`. */
  method Usage(arg0: Option<seq<char>>) returns (name: seq<char>)
    ensures var bin := CString(if arg0.Some? then arg0.value else []);
            name == if AfterLastSlash(bin) == [] then "jacl-cv" else AfterLastSlash(bin)
  {
    name := ProgramName(arg0, "jacl-cv");
  }
}

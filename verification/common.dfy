/** Definitions shared by the three bridge programs: an optional value, the byte type,
    the view of a C string up to its terminating NUL, and the program-name logic that
    each program's `usage` repeats. */
module Common {

  datatype Option<T> = None | Some(value: T)

  /** An `unsigned char`. */
  type byte = bv8

  /** The hex digits in the order of their values, in each case. */
  const LOWER_DIGITS := "0123456789abcdef"
  const UPPER_DIGITS := "0123456789ABCDEF"

  /** The characters a C string holds: everything before the first NUL. */
  function CString(s: seq<char>): (r: seq<char>)
    ensures r <= s
    ensures '\0' !in r
    ensures |r| < |s| ==> s[|r|] == '\0'
  {
    if s == [] || s[0] == '\0' then [] else [s[0]] + CString(s[1..])
  }

  /** The part of `s` after its last '/', or all of `s` when it has none. */
  function AfterLastSlash(s: seq<char>): seq<char>
  {
    if s == [] then []
    else if s[|s| - 1] == '/' then []
    else AfterLastSlash(s[..|s| - 1]) + [s[|s| - 1]]
  }

  /** What `AfterLastSlash` picks out: a suffix of `s` free of '/' that is either all of
      `s` or preceded by a '/'. */
  lemma {:induction false} AfterLastSlashIsLastComponent(s: seq<char>)
    ensures var r := AfterLastSlash(s);
            && |r| <= |s| && r == s[|s| - |r|..]
            && '/' !in r
            && (|r| < |s| ==> s[|s| - |r| - 1] == '/')
  {
    if s != [] && s[|s| - 1] != '/' {
      var p := s[..|s| - 1];
      var c := s[|s| - 1];
      AfterLastSlashIsLastComponent(p);
      var r := AfterLastSlash(p);
      assert AfterLastSlash(s) == r + [c];
      assert s == p + [c];
      assert p[|p| - |r|..] + [c] == s[|s| - 1 - |r|..];
    }
  }

  /** How the suffix after the last '/' changes as the scan in `usage` reads one more character. */
  lemma AfterLastSlashSnoc(s: seq<char>, c: char)
    ensures AfterLastSlash(s + [c]) == if c == '/' then [] else AfterLastSlash(s) + [c]
  {
    assert (s + [c])[..|s|] == s;
  }

  /** A C string ends at the first NUL, or at the end of the characters when there is
      none. */
  lemma {:induction false} CStringUpTo(s: seq<char>, i: nat)
    requires i <= |s| && (i == |s| || s[i] == '\0')
    requires '\0' !in s[..i]
    ensures CString(s) == s[..i]
  {
    if i > 0 {
      assert s[0] == s[..i][0];
      assert s[1..][..i - 1] == s[..i][1..];
      CStringUpTo(s[1..], i - 1);
      assert s[..i] == [s[0]] + s[1..][..i - 1];
    }
  }

  /** One step of the scan in `usage`: the characters from `start` on remain the
      component after the last '/' of what it has read, `start` moving past each '/'. */
  lemma ScanStep(bin: seq<char>, start: nat, i: nat)
    requires start <= i < |bin|
    requires bin[start..i] == AfterLastSlash(bin[..i])
    ensures var next := if bin[i] == '/' then i + 1 else start;
            bin[next..i + 1] == AfterLastSlash(bin[..i + 1])
  {
    assert bin[..i + 1] == bin[..i] + [bin[i]];
    AfterLastSlashSnoc(bin[..i], bin[i]);
    if bin[i] != '/' {
      assert bin[start..i + 1] == bin[start..i] + [bin[i]];
    }
  }

  /** The C string that starts at `start` runs up to the next NUL at `i`, or to the end
      when there is none. */
  lemma CStringFrom(bin: seq<char>, start: nat, i: nat)
    requires start <= i <= |bin| && (i == |bin| || bin[i] == '\0')
    requires '\0' !in bin[start..i]
    ensures CString(bin[start..]) == bin[start..i]
  {
    var t := bin[start..];
    var n := i - start;
    assert n == |t| || t[n] == '\0';
    assert t[..n] == bin[start..i];
    CStringUpTo(t, n);
    assert t[..n] == bin[start..i];
  }

  /** Where the scan in `usage` stops: the characters from `start` on, read as a C string,
      are the component after the last '/'. */
  lemma ScanEnd(bin: seq<char>, start: nat, i: nat)
    requires start <= i <= |bin| && (i == |bin| || bin[i] == '\0')
    requires '\0' !in bin[..i]
    requires bin[start..i] == AfterLastSlash(bin[..i])
    ensures (start < |bin| && bin[start] != '\0') <==> start < i
    ensures CString(bin[start..]) == AfterLastSlash(CString(bin)) == bin[start..i]
  {
    CStringUpTo(bin, i);
    assert bin[start..i] == bin[..i][start..];
    CStringFrom(bin, start, i);
  }

  /** The name `usage` prints for `arg0` (None standing for a null pointer): the suffix
      after the last '/', or `fallback` when that suffix is empty. */
  method ProgramName(arg0: Option<seq<char>>, fallback: seq<char>) returns (name: seq<char>)
    ensures var bin := CString(if arg0.Some? then arg0.value else []);
            name == if AfterLastSlash(bin) == [] then fallback else AfterLastSlash(bin)
  {
    var bin := if arg0.Some? then arg0.value else [];
    var start := 0;
    var i := 0;
    while i < |bin| && bin[i] != '\0'
      invariant start <= i <= |bin|
      invariant '\0' !in bin[..i]
      invariant bin[start..i] == AfterLastSlash(bin[..i])
    {
      ScanStep(bin, start, i);
      if bin[i] == '/' {
        start := i + 1;
      }
      i := i + 1;
    }
    ScanEnd(bin, start, i);
    if start < |bin| && bin[start] != '\0' {
      name := CString(bin[start..]);
    } else {
      name := fallback;
    }
  }
}

/**
  The few Python string built-ins the pipeline relies on: `str.strip()`,
  `str.split('\n')`, `'\n'.join(...)`, `str.endswith(...)` and the slice
  `s[:n]`, written out so that their behaviour is part of the model.
 */
module Text {

  /** The characters that Python's `str.isspace()` accepts and that `str.strip()` removes. */
  predicate IsSpace(c: char) {
    var n := c as int;
    || n == 0x20
    || 0x09 <= n <= 0x0D
    || 0x1C <= n <= 0x1F
    || n == 0x85
    || n == 0xA0
    || n == 0x1680
    || 0x2000 <= n <= 0x200A
    || n == 0x2028
    || n == 0x2029
    || n == 0x202F
    || n == 0x205F
    || n == 0x3000
  }

  predicate AllSpace(s: string) {
    forall k :: 0 <= k < |s| ==> IsSpace(s[k])
  }

  lemma AllSpaceConcat(a: string, b: string)
    ensures AllSpace(a + b) <==> AllSpace(a) && AllSpace(b)
  {
    if AllSpace(a) && AllSpace(b) {
      forall k | 0 <= k < |a + b| ensures IsSpace((a + b)[k]) {
        if k >= |a| { assert (a + b)[k] == b[k - |a|]; }
      }
    }
    if AllSpace(a + b) {
      forall k | 0 <= k < |a| ensures IsSpace(a[k]) {
        assert (a + b)[k] == a[k];
      }
      forall k | 0 <= k < |b| ensures IsSpace(b[k]) {
        assert (a + b)[|a| + k] == b[k];
      }
    }
  }

  /** `s.lstrip()` */
  function StripLeft(s: string): string {
    if |s| > 0 && IsSpace(s[0]) then StripLeft(s[1..]) else s
  }

  /** `s.rstrip()` */
  function StripRight(s: string): string {
    if |s| > 0 && IsSpace(s[|s| - 1]) then StripRight(s[..|s| - 1]) else s
  }

  /** `s.strip()` */
  function Strip(s: string): string {
    StripRight(StripLeft(s))
  }

  /** `lstrip` drops a whitespace prefix, and only that. */
  lemma {:induction false} StripLeftFacts(s: string)
    ensures var r := StripLeft(s);
      && |r| <= |s| && r == s[|s| - |r|..]
      && AllSpace(s[..|s| - |r|])
      && (r != [] ==> !IsSpace(r[0]))
  {
    if |s| > 0 && IsSpace(s[0]) {
      StripLeftFacts(s[1..]);
      var r := StripLeft(s[1..]);
      assert s[..|s| - |r|] == [s[0]] + s[1..][..|s| - 1 - |r|];
      AllSpaceConcat([s[0]], s[1..][..|s| - 1 - |r|]);
    } else {
      assert s[..0] == [];
    }
  }

  /** `rstrip` drops a whitespace suffix, and only that. */
  lemma {:induction false} StripRightFacts(s: string)
    ensures var r := StripRight(s);
      && |r| <= |s| && r == s[..|r|]
      && AllSpace(s[|r|..])
      && (r != [] ==> !IsSpace(r[|r| - 1]))
  {
    if |s| > 0 && IsSpace(s[|s| - 1]) {
      StripRightFacts(s[..|s| - 1]);
      var r := StripRight(s[..|s| - 1]);
      assert s[|r|..] == s[..|s| - 1][|r|..] + [s[|s| - 1]];
      AllSpaceConcat(s[..|s| - 1][|r|..], [s[|s| - 1]]);
    } else {
      assert s[|s|..] == [];
    }
  }

  /**
    `strip` keeps the part of `s` between a whitespace prefix and a whitespace
    suffix, which begins and ends with a non-space, and is empty exactly when
    `s` is all whitespace.
   */
  lemma StripFacts(s: string)
    ensures |StripLeft(s)| <= |s|
    ensures var r, k := Strip(s), |s| - |StripLeft(s)|;
      && k + |r| <= |s|
      && r == s[k..k + |r|]
      && AllSpace(s[..k])
      && AllSpace(s[k + |r|..])
      && (r != [] ==> !IsSpace(r[0]) && !IsSpace(r[|r| - 1]))
      && (r == [] <==> AllSpace(s))
  {
    var l := StripLeft(s);
    StripLeftFacts(s);
    StripRightFacts(l);
    var r := StripRight(l);
    var k := |s| - |l|;
    assert s[k + |r|..] == l[|r|..];
    assert s == s[..k] + l;
    AllSpaceConcat(s[..k], l);
    if r == [] {
      assert l[0..] == l;
    }
    if AllSpace(s) && l != [] {
      assert l[0] == s[k];
    }
  }

  /** `s.split('\n')` (Python): always at least one piece. */
  function Split(s: string): (r: seq<string>)
    ensures |r| >= 1
  {
    if s == [] then
      [[]]
    else
      var rest := Split(s[1..]);
      if s[0] == '\n' then [[]] + rest else [[s[0]] + rest[0]] + rest[1..]
  }

  /** No piece of a split contains a newline. */
  lemma {:induction false} SplitPieces(s: string)
    ensures forall i :: 0 <= i < |Split(s)| ==> '\n' !in Split(s)[i]
  {
    if s != [] {
      SplitPieces(s[1..]);
    }
  }

  /** `'\n'.join(lines)` (Python). */
  function Join(lines: seq<string>): string {
    if |lines| == 0 then []
    else if |lines| == 1 then lines[0]
    else lines[0] + "\n" + Join(lines[1..])
  }

  lemma JoinCons(x: string, rest: seq<string>)
    requires |rest| >= 1
    ensures Join([x] + rest) == x + "\n" + Join(rest)
  {
    assert ([x] + rest)[1..] == rest;
  }

  /** Joining the pieces of a split gives back the original text. */
  lemma {:induction false} JoinSplit(s: string)
    ensures Join(Split(s)) == s
  {
    if s != [] {
      var rest := Split(s[1..]);
      JoinSplit(s[1..]);
      assert s == [s[0]] + s[1..];
      if s[0] == '\n' {
        JoinCons([], rest);
      } else if |rest| == 1 {
        assert Split(s) == [[s[0]] + rest[0]];
        assert Join(rest) == rest[0];
      } else {
        assert Split(s) == [[s[0]] + rest[0]] + rest[1..];
        JoinCons([s[0]] + rest[0], rest[1..]);
        assert Join(rest) == rest[0] + "\n" + Join(rest[1..]);
      }
    }
  }

  lemma {:induction false} SplitNoNewline(x: string)
    requires '\n' !in x
    ensures Split(x) == [x]
  {
    if x != [] {
      assert x == [x[0]] + x[1..];
      SplitNoNewline(x[1..]);
    }
  }

  lemma {:induction false} SplitAfterLine(x: string, t: string)
    requires '\n' !in x
    ensures Split(x + "\n" + t) == [x] + Split(t)
  {
    if x == [] {
      assert x + "\n" + t == "\n" + t;
      assert ("\n" + t)[1..] == t;
    } else {
      assert (x + "\n" + t)[1..] == x[1..] + "\n" + t;
      assert x == [x[0]] + x[1..];
      SplitAfterLine(x[1..], t);
    }
  }

  /** Splitting the join of newline-free lines gives back the lines. */
  lemma {:induction false} SplitJoin(lines: seq<string>)
    requires |lines| >= 1
    requires forall i :: 0 <= i < |lines| ==> '\n' !in lines[i]
    ensures Split(Join(lines)) == lines
  {
    if |lines| == 1 {
      SplitNoNewline(lines[0]);
    } else {
      SplitJoin(lines[1..]);
      SplitAfterLine(lines[0], Join(lines[1..]));
      assert lines == [lines[0]] + lines[1..];
    }
  }

  /** The join of some lines is all whitespace exactly when every line is. */
  lemma {:induction false} JoinAllSpace(lines: seq<string>)
    ensures AllSpace(Join(lines)) <==> forall i :: 0 <= i < |lines| ==> AllSpace(lines[i])
  {
    if |lines| > 1 {
      JoinAllSpace(lines[1..]);
      AllSpaceConcat(lines[0], "\n");
      AllSpaceConcat(lines[0] + "\n", Join(lines[1..]));
      assert IsSpace("\n"[0]);
      if forall i :: 1 <= i < |lines| ==> AllSpace(lines[i]) {
        assert forall i :: 0 <= i < |lines[1..]| ==> AllSpace(lines[1..][i]) by {
          forall i | 0 <= i < |lines[1..]| ensures AllSpace(lines[1..][i]) {
            assert lines[1..][i] == lines[i + 1];
          }
        }
      }
      if AllSpace(Join(lines[1..])) {
        forall i | 1 <= i < |lines| ensures AllSpace(lines[i]) {
          assert lines[1..][i - 1] == lines[i];
        }
      }
    }
  }

  /** `s.endswith(suffix)` (Python). */
  predicate EndsWith(s: string, suffix: string) {
    |suffix| <= |s| && s[|s| - |suffix|..] == suffix
  }

  /** The slice `s[:n]` (Python): a negative `n` counts from the end, and `n` is clamped to the length. */
  function SlicePrefix<T>(s: seq<T>, n: int): (r: seq<T>)
    ensures |r| <= |s| && r == s[..|r|]
    ensures 0 <= n ==> |r| == if n <= |s| then n else |s|
    ensures n < 0 ==> |r| == if -n <= |s| then |s| + n else 0
  {
    if 0 <= n then
      if n <= |s| then s[..n] else s
    else
      if -n <= |s| then s[..|s| + n] else []
  }
}

/** The tokenising loop of user/xargs.c: the fixed arguments taken from
    the command line, then the standard input split at `' '` into tokens
    and at `'\n'` into lines, one `exec` per line. Each `exec` is recorded
    as the argument vector it receives. */
module Xargs {
  import opened Types

  /** Size of the input buffer; its index is never reset, so longer
      inputs overrun it. */
  const MAX_SIZE: nat := 16

  /** One run of the command: its argument vector, program name first. */
  type Exec = seq<string>

  /** Number of occurrences of `c` in `s`. */
  function Count(s: string, c: char): nat
  {
    if |s| == 0 then 0 else (if s[0] == c then 1 else 0) + Count(s[1..], c)
  }

  /** A token read from the input holds no separator. */
  predicate Token(t: string)
  {
    ' ' !in t && '\n' !in t
  }

  /** The read loop from the next input byte on: `toks` holds the tokens
      read so far on this line and `cur` the token being read; the run's
      arguments are the fixed ones followed by `toks`. */
  function Scan(input: string, fixed: seq<string>, toks: seq<string>, cur: string): (execs: seq<Exec>)
    requires forall k :: 0 <= k < |toks| ==> Token(toks[k])
    requires Token(cur)
    ensures |execs| == Count(input, '\n')
    ensures forall e :: e in execs ==> |fixed| < |e| && e[..|fixed|] == fixed
    ensures forall e, k :: e in execs && |fixed| <= k < |e| ==> Token(e[k])
  {
    if |input| == 0 then []
    else if input[0] == ' ' then Scan(input[1..], fixed, toks + [cur], "")
    else if input[0] == '\n' then
      var e := fixed + toks + [cur];
      assert e[..|fixed|] == fixed;
      assert forall k :: |fixed| <= k < |e| ==> e[k] == (toks + [cur])[k - |fixed|];
      [e] + Scan(input[1..], fixed, [], "")
    else Scan(input[1..], fixed, toks, cur + [input[0]])
  }

  /** An argument as `exec` reads it from the buffer: a C string, so it
      ends at its first NUL byte. */
  function CArg(t: string): (a: string)
    ensures |a| <= |t| && a == t[..|a|]
    ensures '\0' !in a
    ensures |a| < |t| ==> t[|a|] == '\0'
  {
    if |t| == 0 || t[0] == '\0' then "" else [t[0]] + CArg(t[1..])
  }

  function CArgs(ts: seq<string>): (r: seq<string>)
    ensures |r| == |ts| && forall k :: 0 <= k < |ts| ==> r[k] == CArg(ts[k])
  {
    if |ts| == 0 then [] else [CArg(ts[0])] + CArgs(ts[1..])
  }

  /** The argument vector a run hands to `exec`: the `n` fixed arguments,
      which come from the command line, and the tokens of the buffer, each
      read as a C string. */
  function ExecArgv(e: Exec, n: nat): (a: Exec)
    requires n <= |e|
    ensures |a| == |e| && a[..n] == e[..n]
    ensures forall k :: n <= k < |e| ==> a[k] == CArg(e[k])
  {
    e[..n] + CArgs(e[n..])
  }

  function Runs(execs: seq<Exec>, n: nat): (r: seq<Exec>)
    requires forall i :: 0 <= i < |execs| ==> n <= |execs[i]|
    ensures |r| == |execs| && forall i :: 0 <= i < |execs| ==> r[i] == ExecArgv(execs[i], n)
  {
    if |execs| == 0 then [] else [ExecArgv(execs[0], n)] + Runs(execs[1..], n)
  }

  /** A token read as a C string is still free of separators. */
  lemma CArgToken(t: string)
    requires Token(t)
    ensures Token(CArg(t))
  {
    var a := CArg(t);
    forall i | 0 <= i < |a|
      ensures a[i] != ' ' && a[i] != '\n'
    {
      assert a[i] == t[i] && t[i] in t;
    }
  }

  /** One run handed to `exec` keeps the fixed arguments in front, and its
      tokens hold no separator and no NUL. */
  lemma ExecArgvShape(e: Exec, fixed: seq<string>)
    requires |fixed| < |e| && e[..|fixed|] == fixed
    requires forall k :: |fixed| <= k < |e| ==> Token(e[k])
    ensures var a := ExecArgv(e, |fixed|);
            && |fixed| < |a| && a[..|fixed|] == fixed
            && forall k :: |fixed| <= k < |a| ==> Token(a[k]) && '\0' !in a[k]
  {
    var a := ExecArgv(e, |fixed|);
    forall k | |fixed| <= k < |a|
      ensures Token(a[k])
    {
      CArgToken(e[k]);
    }
  }

  /** The runs handed to `exec` keep the fixed arguments in front, and
      their tokens hold no separator and no NUL. */
  lemma RunsShape(execs: seq<Exec>, fixed: seq<string>)
    requires forall e :: e in execs ==> |fixed| < |e| && e[..|fixed|] == fixed
    requires forall e, k :: e in execs && |fixed| <= k < |e| ==> Token(e[k])
    ensures forall i :: 0 <= i < |execs| ==> |fixed| <= |execs[i]|
    ensures var r := Runs(execs, |fixed|);
            forall i :: 0 <= i < |r| ==>
              && |fixed| < |r[i]| && r[i][..|fixed|] == fixed
              && forall k :: |fixed| <= k < |r[i]| ==> Token(r[i][k]) && '\0' !in r[i][k]
  {
    assert forall i :: 0 <= i < |execs| ==> execs[i] in execs;
    var r := Runs(execs, |fixed|);
    forall i | 0 <= i < |r|
      ensures && |fixed| < |r[i]| && r[i][..|fixed|] == fixed
              && forall k :: |fixed| <= k < |r[i]| ==> Token(r[i][k]) && '\0' !in r[i][k]
    {
      assert execs[i] in execs;
      ExecArgvShape(execs[i], fixed);
    }
  }

  /** `main`: at least a program to run is required; the fixed arguments
      are everything after `xargs` on the command line, and each line of
      the input runs them followed by that line's tokens. */
  function Xargs(argv: seq<string>, input: string): (r: Result<seq<Exec>>)
    requires |input| <= MAX_SIZE
    ensures r.Err? <==> |argv| < 2
    ensures r.Ok? ==> |r.value| == Count(input, '\n')
    ensures r.Ok? ==> forall i :: 0 <= i < |r.value| ==>
                        |argv| <= |r.value[i]| && r.value[i][..|argv| - 1] == argv[1..]
    ensures r.Ok? ==> forall i, k :: 0 <= i < |r.value| && |argv| - 1 <= k < |r.value[i]| ==>
                        Token(r.value[i][k]) && '\0' !in r.value[i][k]
  {
    if |argv| < 2 then Err("Error")
    else
      var execs := Scan(input, argv[1..], [], "");
      RunsShape(execs, argv[1..]);
      Ok(Runs(execs, |argv| - 1))
  }

  /** The tokens joined back with single spaces. */
  function Join(toks: seq<string>): string
  {
    if |toks| == 0 then "" else if |toks| == 1 then toks[0] else toks[0] + " " + Join(toks[1..])
  }

  /** The lines the runs were made from, each line's tokens (what follows
      the `n` fixed arguments) joined and ended by `'\n'`. */
  function Unparse(execs: seq<Exec>, n: nat): string
  {
    if |execs| == 0 then ""
    else (if n <= |execs[0]| then Join(execs[0][n..]) else "") + "\n" + Unparse(execs[1..], n)
  }

  /** The input up to and including its last `'\n'`. */
  function Complete(s: string): string
  {
    if |s| == 0 then "" else if s[|s| - 1] == '\n' then s else Complete(s[..|s| - 1])
  }

  lemma {:induction false} CompleteNoNewline(s: string)
    requires '\n' !in s
    ensures Complete(s) == ""
  {
    if |s| > 0 {
      CompleteNoNewline(s[..|s| - 1]);
    }
  }

  /** Text after a complete prefix is cut back to its own last line end. */
  lemma {:induction false} CompleteAppend(a: string, b: string)
    requires |a| > 0 && a[|a| - 1] == '\n'
    ensures Complete(a + b) == a + Complete(b)
    decreases |b|
  {
    if |b| == 0 {
      assert a + b == a;
    } else if b[|b| - 1] != '\n' {
      assert (a + b)[..|a + b| - 1] == a + b[..|b| - 1];
      CompleteAppend(a, b[..|b| - 1]);
    }
  }

  lemma {:induction false} JoinSnoc(ts: seq<string>, t: string)
    requires |ts| > 0
    ensures Join(ts + [t]) == Join(ts) + " " + t
  {
    if |ts| > 1 {
      assert (ts + [t])[1..] == ts[1..] + [t];
      JoinSnoc(ts[1..], t);
    }
  }

  lemma {:induction false} JoinExtendLast(ts: seq<string>, cur: string, c: char)
    ensures Join(ts + [cur + [c]]) == Join(ts + [cur]) + [c]
  {
    if |ts| > 0 {
      assert (ts + [cur + [c]])[1..] == ts[1..] + [cur + [c]];
      assert (ts + [cur])[1..] == ts[1..] + [cur];
      JoinExtendLast(ts[1..], cur, c);
    }
  }

  lemma {:induction false} JoinTokens(ts: seq<string>)
    requires forall k :: 0 <= k < |ts| ==> Token(ts[k])
    ensures '\n' !in Join(ts)
  {
    if |ts| > 1 {
      JoinTokens(ts[1..]);
    }
  }

  /** Invariant of the read loop: the runs made from the rest of the
      input, preceded by the line read so far, give back the complete
      lines of that text. */
  ghost predicate UnparseInv(input: string, fixed: seq<string>, toks: seq<string>, cur: string)
    requires forall k :: 0 <= k < |toks| ==> Token(toks[k])
    requires Token(cur)
  {
    Unparse(Scan(input, fixed, toks, cur), |fixed|) == Complete(Join(toks + [cur]) + input)
  }

  lemma SpaceStep(input: string, fixed: seq<string>, toks: seq<string>, cur: string)
    requires forall k :: 0 <= k < |toks| ==> Token(toks[k])
    requires Token(cur) && |input| > 0 && input[0] == ' '
    requires UnparseInv(input[1..], fixed, toks + [cur], "")
    ensures UnparseInv(input, fixed, toks, cur)
  {
    JoinSnoc(toks + [cur], "");
    assert Join(toks + [cur] + [""]) + input[1..] == Join(toks + [cur]) + input;
  }

  lemma UnparseCons(e: Exec, rest: seq<Exec>, n: nat)
    requires n <= |e|
    ensures Unparse([e] + rest, n) == Join(e[n..]) + "\n" + Unparse(rest, n)
  {
    assert ([e] + rest)[1..] == rest;
  }

  lemma ScanNewline(input: string, fixed: seq<string>, toks: seq<string>, cur: string)
    requires forall k :: 0 <= k < |toks| ==> Token(toks[k])
    requires Token(cur) && |input| > 0 && input[0] == '\n'
    ensures Scan(input, fixed, toks, cur) == [fixed + toks + [cur]] + Scan(input[1..], fixed, [], "")
  {
  }

  lemma CompleteAfterNewline(line: string, input: string)
    requires |input| > 0 && input[0] == '\n'
    ensures Complete(line + input) == line + "\n" + Complete(input[1..])
  {
    var a := line + "\n";
    assert input == "\n" + input[1..];
    assert a + input[1..] == line + input;
    CompleteAppend(a, input[1..]);
  }

  lemma NewlineStep(input: string, fixed: seq<string>, toks: seq<string>, cur: string)
    requires forall k :: 0 <= k < |toks| ==> Token(toks[k])
    requires Token(cur) && |input| > 0 && input[0] == '\n'
    requires UnparseInv(input[1..], fixed, [], "")
    ensures UnparseInv(input, fixed, toks, cur)
  {
    var e := fixed + toks + [cur];
    var rest := Scan(input[1..], fixed, [], "");
    ScanNewline(input, fixed, toks, cur);
    assert e[|fixed|..] == toks + [cur];
    UnparseCons(e, rest, |fixed|);
    assert Join([] + [""]) + input[1..] == input[1..];
    CompleteAfterNewline(Join(toks + [cur]), input);
  }

  lemma CharStep(input: string, fixed: seq<string>, toks: seq<string>, cur: string)
    requires forall k :: 0 <= k < |toks| ==> Token(toks[k])
    requires Token(cur) && |input| > 0 && input[0] != ' ' && input[0] != '\n'
    requires UnparseInv(input[1..], fixed, toks, cur + [input[0]])
    ensures UnparseInv(input, fixed, toks, cur)
  {
    JoinExtendLast(toks, cur, input[0]);
    assert Join(toks + [cur + [input[0]]]) + input[1..] == Join(toks + [cur]) + input;
  }

  lemma {:induction false} ScanUnparse(input: string, fixed: seq<string>, toks: seq<string>, cur: string)
    requires forall k :: 0 <= k < |toks| ==> Token(toks[k])
    requires Token(cur)
    ensures Unparse(Scan(input, fixed, toks, cur), |fixed|) == Complete(Join(toks + [cur]) + input)
  {
    if |input| == 0 {
      JoinTokens(toks + [cur]);
      assert Join(toks + [cur]) + input == Join(toks + [cur]);
      CompleteNoNewline(Join(toks + [cur]));
    } else if input[0] == ' ' {
      ScanUnparse(input[1..], fixed, toks + [cur], "");
      SpaceStep(input, fixed, toks, cur);
    } else if input[0] == '\n' {
      ScanUnparse(input[1..], fixed, [], "");
      NewlineStep(input, fixed, toks, cur);
    } else {
      ScanUnparse(input[1..], fixed, toks, cur + [input[0]]);
      CharStep(input, fixed, toks, cur);
    }
  }

  /** Round trip over the buffer: the lines the tokens were read from are
      exactly the input up to its last `'\n'`; bytes after it never reach
      a run. */
  lemma BufferRoundTrip(fixed: seq<string>, input: string)
    ensures Unparse(Scan(input, fixed, [], ""), |fixed|) == Complete(input)
  {
    ScanUnparse(input, fixed, [], "");
    assert Join([] + [""]) + input == input;
  }

  /** No token of the runs, after the `n` fixed arguments, holds a NUL. */
  predicate NulFreeTokens(execs: seq<Exec>, n: nat)
  {
    forall i, k :: 0 <= i < |execs| && n <= k < |execs[i]| ==> '\0' !in execs[i][k]
  }

  /** Without NUL bytes in the input, the tokens read from the buffer hold
      none either. */
  lemma {:induction false} ScanNoNul(input: string, fixed: seq<string>, toks: seq<string>, cur: string)
    requires forall k :: 0 <= k < |toks| ==> Token(toks[k]) && '\0' !in toks[k]
    requires Token(cur) && '\0' !in cur && '\0' !in input
    ensures NulFreeTokens(Scan(input, fixed, toks, cur), |fixed|)
  {
    if |input| == 0 {
    } else if input[0] == ' ' {
      var toks' := toks + [cur];
      assert forall k :: 0 <= k < |toks'| ==> toks'[k] == if k < |toks| then toks[k] else cur;
      assert '\0' !in input[1..];
      ScanNoNul(input[1..], fixed, toks', "");
      assert Scan(input, fixed, toks, cur) == Scan(input[1..], fixed, toks', "");
    } else if input[0] == '\n' {
      assert '\0' !in input[1..];
      ScanNoNul(input[1..], fixed, [], "");
      var e := fixed + toks + [cur];
      var rest := Scan(input[1..], fixed, [], "");
      assert forall k :: |fixed| <= k < |e| ==> e[k] == (toks + [cur])[k - |fixed|];
      assert Scan(input, fixed, toks, cur) == [e] + rest;
      forall i, k | 0 <= i < |[e] + rest| && |fixed| <= k < |([e] + rest)[i]|
        ensures '\0' !in ([e] + rest)[i][k]
      {
        if i > 0 {
          assert ([e] + rest)[i] == rest[i - 1];
        }
      }
    } else {
      var cur' := cur + [input[0]];
      assert input[0] in input;
      assert '\0' !in input[1..] && '\0' !in cur';
      ScanNoNul(input[1..], fixed, toks, cur');
      assert Scan(input, fixed, toks, cur) == Scan(input[1..], fixed, toks, cur');
    }
  }

  /** Reading a NUL-free argument as a C string gives it whole. */
  lemma ExecArgvNoNul(e: Exec, n: nat)
    requires n <= |e| && forall k :: n <= k < |e| ==> '\0' !in e[k]
    ensures ExecArgv(e, n) == e
  {
    forall k | n <= k < |e|
      ensures CArg(e[k]) == e[k]
    {
    }
  }

  /** Without NUL bytes in the input every argument reaches `exec` whole:
      the runs are the token lists read from the buffer. */
  lemma XargsNoNul(argv: seq<string>, input: string)
    requires |input| <= MAX_SIZE && |argv| >= 2 && '\0' !in input
    ensures Xargs(argv, input) == Ok(Scan(input, argv[1..], [], ""))
  {
    var execs := Scan(input, argv[1..], [], "");
    ScanNoNul(input, argv[1..], [], "");
    forall i | 0 <= i < |execs|
      ensures |argv| - 1 <= |execs[i]|
    {
      assert execs[i] in execs;
    }
    RunsNoNul(execs, |argv| - 1);
  }

  /** Runs whose tokens hold no NUL reach `exec` unchanged. */
  lemma RunsNoNul(execs: seq<Exec>, n: nat)
    requires forall i :: 0 <= i < |execs| ==> n <= |execs[i]|
    requires NulFreeTokens(execs, n)
    ensures Runs(execs, n) == execs
  {
    forall i | 0 <= i < |execs|
      ensures Runs(execs, n)[i] == execs[i]
    {
      ExecArgvNoNul(execs[i], n);
    }
  }

  /** Round trip: for input without NUL bytes, the runs' tokens joined by
      spaces, each line ended by `'\n'`, give back the input up to its
      last `'\n'`. */
  lemma XargsRoundTrip(argv: seq<string>, input: string)
    requires |input| <= MAX_SIZE && |argv| >= 2 && '\0' !in input
    ensures Unparse(Xargs(argv, input).value, |argv| - 1) == Complete(input)
  {
    var fixed := argv[1..];
    assert |fixed| == |argv| - 1;
    BufferRoundTrip(fixed, input);
    XargsNoNul(argv, input);
  }

  /** A NUL byte ends the argument `exec` sees: `a\0b` on a line runs the
      command with `a`. */
  lemma XargsCutsAtNul()
    ensures Xargs(["xargs", "echo"], "a\0b\n") == Ok([["echo", "a"]])
  {
    var argv := ["xargs", "echo"];
    var ts := ["a\0b"];
    assert Join(ts) == "a\0b";
    assert Join(ts) + "\n" == "a\0b\n";
    assert Token(ts[0]);
    XargsOneLine(argv, ts);
    CArgNulExample();
    assert CArgs(ts) == ["a"];
    assert argv[1..] + CArgs(ts) == ["echo", "a"];
  }

  lemma CArgNulExample()
    ensures CArg("a\0b") == "a"
  {
    assert "a\0b"[1..] == "\0b";
    assert CArg("\0b") == "";
  }

  lemma ScanSpace(input: string, fixed: seq<string>, toks: seq<string>, cur: string)
    requires forall k :: 0 <= k < |toks| ==> Token(toks[k])
    requires Token(cur) && |input| > 0 && input[0] == ' '
    ensures Scan(input, fixed, toks, cur) == Scan(input[1..], fixed, toks + [cur], "")
  {
  }

  /** Bytes of a token are appended to the current token. */
  lemma {:induction false} ScanToken(t: string, rest: string, fixed: seq<string>, toks: seq<string>, cur: string)
    requires forall k :: 0 <= k < |toks| ==> Token(toks[k])
    requires Token(cur) && Token(t)
    ensures Token(cur + t)
    ensures Scan(t + rest, fixed, toks, cur) == Scan(rest, fixed, toks, cur + t)
    decreases |t|
  {
    if |t| == 0 {
      assert t + rest == rest && cur + t == cur;
    } else {
      assert (t + rest)[0] == t[0] && (t + rest)[1..] == t[1..] + rest;
      assert t[0] in t;
      assert cur + t == (cur + [t[0]]) + t[1..];
      ScanToken(t[1..], rest, fixed, toks, cur + [t[0]]);
    }
  }

  lemma ScanLastToken(t: string, rest: string, fixed: seq<string>, toks: seq<string>)
    requires forall k :: 0 <= k < |toks| ==> Token(toks[k])
    requires Token(t)
    ensures Scan(t + "\n" + rest, fixed, toks, "") == [fixed + toks + [t]] + Scan(rest, fixed, [], "")
  {
    ScanToken(t, "\n" + rest, fixed, toks, "");
    assert "" + t == t;
    assert t + "\n" + rest == t + ("\n" + rest);
    ScanNewline("\n" + rest, fixed, toks, t);
    assert ("\n" + rest)[1..] == rest;
  }

  lemma ScanInnerToken(t: string, tail: string, fixed: seq<string>, toks: seq<string>)
    requires forall k :: 0 <= k < |toks| ==> Token(toks[k])
    requires Token(t)
    ensures forall k :: 0 <= k < |toks + [t]| ==> Token((toks + [t])[k])
    ensures Scan(t + " " + tail, fixed, toks, "") == Scan(tail, fixed, toks + [t], "")
  {
    ScanToken(t, " " + tail, fixed, toks, "");
    assert "" + t == t;
    assert t + " " + tail == t + (" " + tail);
    ScanSpace(" " + tail, fixed, toks, t);
    assert (" " + tail)[1..] == tail;
  }

  /** A line made of tokens joined by single spaces is read back as one run
      whose arguments are the fixed ones followed by those tokens. */
  /** A line of several tokens is its first token, a space, and the rest. */
  lemma LineSplit(ts: seq<string>, rest: string)
    requires |ts| > 1
    ensures Join(ts) + "\n" + rest == ts[0] + " " + (Join(ts[1..]) + "\n" + rest)
  {
    var b := Join(ts[1..]);
    assert Join(ts) == ts[0] + " " + b;
    Assoc4(ts[0], " ", b, "\n" + rest);
  }

  lemma Assoc4(w: string, x: string, y: string, z: string)
    ensures (w + x + y) + z == w + x + (y + z)
  {
  }

  lemma {:induction false} ScanLine(ts: seq<string>, rest: string, fixed: seq<string>, toks: seq<string>)
    requires |ts| > 0 && forall k :: 0 <= k < |ts| ==> Token(ts[k])
    requires forall k :: 0 <= k < |toks| ==> Token(toks[k])
    ensures Scan(Join(ts) + "\n" + rest, fixed, toks, "") == [fixed + toks + ts] + Scan(rest, fixed, [], "")
  {
    var t := ts[0];
    if |ts| == 1 {
      assert Join(ts) == t && ts == [t];
      ScanLastToken(t, rest, fixed, toks);
    } else {
      var tail := Join(ts[1..]) + "\n" + rest;
      LineSplit(ts, rest);
      ScanInnerToken(t, tail, fixed, toks);
      ScanLine(ts[1..], rest, fixed, toks + [t]);
      assert fixed + (toks + [t]) + ts[1..] == fixed + toks + ts;
    }
  }

  /** The runs of a line list are well formed when each starts with the
      fixed arguments and has at least one token, none holding a
      separator. */
  predicate WellFormedRuns(execs: seq<Exec>, fixed: seq<string>)
  {
    forall i :: 0 <= i < |execs| ==>
      && |fixed| < |execs[i]| && execs[i][..|fixed|] == fixed
      && forall k :: |fixed| <= k < |execs[i]| ==> Token(execs[i][k])
  }

  /** Round trip in the other direction: writing well-formed runs out as
      lines and reading them back gives the same runs. */
  lemma {:induction false} UnparseScan(execs: seq<Exec>, fixed: seq<string>)
    requires WellFormedRuns(execs, fixed)
    ensures Scan(Unparse(execs, |fixed|), fixed, [], "") == execs
  {
    if |execs| > 0 {
      var e := execs[0];
      var ts := e[|fixed|..];
      assert forall k :: 0 <= k < |ts| ==> ts[k] == e[|fixed| + k];
      assert WellFormedRuns(execs[1..], fixed) by {
        assert forall i :: 0 <= i < |execs| - 1 ==> execs[1..][i] == execs[i + 1];
      }
      UnparseScan(execs[1..], fixed);
      ScanLine(ts, Unparse(execs[1..], |fixed|), fixed, []);
      assert fixed + [] + ts == e;
      assert [e] + execs[1..] == execs;
    }
  }

  /** One line of tokens separated by single spaces runs the command once
      with those tokens, each read up to its first NUL, after the fixed
      arguments; an empty token, as two spaces in a row produce, is passed
      on as an empty argument. */
  lemma XargsOneLine(argv: seq<string>, ts: seq<string>)
    requires |argv| >= 2 && |ts| > 0 && forall k :: 0 <= k < |ts| ==> Token(ts[k])
    requires |Join(ts)| + 1 <= MAX_SIZE
    ensures Xargs(argv, Join(ts) + "\n") == Ok([argv[1..] + CArgs(ts)])
  {
    var e := argv[1..] + ts;
    ScanOneLine(ts, argv[1..]);
    assert e[..|argv| - 1] == argv[1..] && e[|argv| - 1..] == ts;
    RunsOne(e, |argv| - 1);
  }

  /** One line of tokens is read back as one run. */
  lemma ScanOneLine(ts: seq<string>, fixed: seq<string>)
    requires |ts| > 0 && forall k :: 0 <= k < |ts| ==> Token(ts[k])
    ensures Scan(Join(ts) + "\n", fixed, [], "") == [fixed + ts]
  {
    ScanLine(ts, "", fixed, []);
    assert Join(ts) + "\n" + "" == Join(ts) + "\n";
    assert fixed + [] + ts == fixed + ts;
    assert Scan("", fixed, [], "") == [];
  }

  lemma RunsOne(e: Exec, n: nat)
    requires n <= |e|
    ensures Runs([e], n) == [ExecArgv(e, n)]
  {
    assert [e][1..] == [];
  }
}

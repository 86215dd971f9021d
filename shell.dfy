/**
 * The text protocol of smlnj/core/SMLShell.py: how the shell splits the
 * interpreter's output into forwarded lines and prompts, learns identifiers
 * from what passes through it, and answers readline's completion queries.
 *
 * Writes to the terminal and to the interpreter are appended to logs; the
 * regular expression's `findall` and readline's line buffer and indices are
 * parameters.
 */
module Shell {
  import opened Wrappers
  import Trie
  import Streams

  /** The characters Python's `str.lstrip()` removes. */
  predicate IsSpace(c: char) {
    c == ' ' || c == '\t' || c == '\n' || c == '\r' || c == '\U{000B}' || c == '\U{000C}'
  }

  /** `s.lstrip()`: the longest suffix of `s` that does not start with whitespace. */
  function LStrip(s: string): (r: string)
    ensures |r| <= |s| && r == s[|s| - |r|..]
    ensures forall i :: 0 <= i < |s| - |r| ==> IsSpace(s[i])
    ensures r == [] || !IsSpace(r[0])
  {
    if s != [] && IsSpace(s[0]) then LStrip(s[1..]) else s
  }

  /** `read.startswith('- ') or read.startswith('= ')`: the interpreter's primary or continuation prompt. */
  predicate IsPrompt(acc: string): (b: bool)
    ensures b <==> "- " <= acc || "= " <= acc
  {
    |acc| >= 2 && (acc[..2] == "- " || acc[..2] == "= ")
  }

  /** `s.rsplit('\n', 1)` on a string holding a newline: the text before and after its last newline. */
  function RSplit(s: string): (r: (string, string))
    requires '\n' in s
    ensures s == r.0 + "\n" + r.1
    ensures '\n' !in r.1
  {
    var last := s[|s| - 1];
    if last == '\n' then
      assert s == s[..|s| - 1] + "\n" + "";
      (s[..|s| - 1], "")
    else
      assert '\n' in s[..|s| - 1] by {
        var i :| 0 <= i < |s| && s[i] == '\n';
        assert s[..|s| - 1][i] == '\n';
      }
      var (h, t) := RSplit(s[..|s| - 1]);
      assert s == s[..|s| - 1] + [last];
      (h, t + [last])
  }

  /** A split at a newline that leaves no newline after it is the split `RSplit` makes. */
  lemma {:induction false} RSplitUnique(s: string, h: string, t: string)
    requires s == h + "\n" + t
    requires '\n' !in t
    ensures RSplit(s) == (h, t)
    decreases |t|
  {
    if t == [] {
      assert s[..|s| - 1] == h;
    } else {
      var t' := t[..|t| - 1];
      assert s[..|s| - 1] == h + "\n" + t';
      assert t' + [t[|t| - 1]] == t;
      RSplitUnique(s[..|s| - 1], h, t');
    }
  }

  /** The capture groups of the matches, both groups of each, in order. */
  function Groups(ms: seq<(string, string)>): (r: seq<string>)
    ensures |r| == 2 * |ms|
    ensures forall x :: x in r <==> exists m :: m in ms && (x == m.0 || x == m.1)
  {
    if ms == [] then []
    else
      var rest := Groups(ms[1..]);
      assert forall m :: m in ms <==> m == ms[0] || m in ms[1..];
      [ms[0].0, ms[0].1] + rest
  }

  /**
   * The line and indices `complete` hands to `get_matches`: the line buffer
   * without leading whitespace, and the readline indices shifted left by
   * the number of characters stripped.
   */
  function StrippedRequest(lineBuffer: string, begidx: int, endidx: int): (r: (string, int, int))
    ensures r.0 == LStrip(lineBuffer)
    ensures var stripped := |lineBuffer| - |r.0|;
      r.1 == begidx - stripped && r.2 == endidx - stripped
  {
    var line := LStrip(lineBuffer);
    var stripped := |lineBuffer| - |line|;
    (line, begidx - stripped, endidx - stripped)
  }

  /** Indices past the stripped whitespace select the same text in the stripped line as in the line buffer. */
  lemma StrippedSelectsSame(lineBuffer: string, begidx: int, endidx: int)
    ensures var r := StrippedRequest(lineBuffer, begidx, endidx);
      |lineBuffer| - |r.0| <= begidx <= endidx <= |lineBuffer| ==>
        0 <= r.1 <= r.2 <= |r.0| && r.0[r.1..r.2] == lineBuffer[begidx..endidx]
  {
    var r := StrippedRequest(lineBuffer, begidx, endidx);
    var k := |lineBuffer| - |r.0|;
    assert r.0 == lineBuffer[k..];
    ShiftedSlice(lineBuffer, k, begidx, endidx);
    assert r.1 == begidx - k && r.2 == endidx - k;
  }

  /** Indices into `s` shifted left by `k` select the same text in `s[k..]`. */
  lemma ShiftedSlice(s: string, k: nat, b: int, e: int)
    requires k <= |s|
    ensures k <= b <= e <= |s| ==> s[k..][b - k..e - k] == s[b..e]
  {
  }

  /** The interpreter writes "hello\n- " at once: the line is forwarded first, and "- " is a prompt only on the next round. */
  lemma HelloThenPrompt()
    ensures !IsPrompt("hello\n- ")
    ensures RSplit("hello\n- ") == ("hello", "- ")
    ensures IsPrompt("- " + "")
  {
    RSplitUnique("hello\n- ", "hello", "- ");
  }

  /** Brings the first three elements of a list into scope as members of it, so that a branch with three or more can be closed by `assert false` alone. */
  lemma FirstThree(r: seq<string>)
    requires 2 < |r|
    ensures r[0] in r && r[1] in r && r[2] in r
  {
  }

  /**
   * With identifiers foo, foobar and baz, the only listing for "foo" is
   * foo then foobar, so completing "foo" answers foo at state 0, foobar at
   * state 1 and nothing from state 2 on.
   */
  lemma CompletionOfFoo(r: seq<string>)
    requires Trie.IsListing(r, {"foo", "foobar", "baz"}, "foo")
    ensures r == ["foo", "foobar"]
  {
    assert "foobar"[..3] == "foo";
    assert "foo" in r && "foobar" in r;
    var i :| 0 <= i < |r| && r[i] == "foo";
    var j :| 0 <= j < |r| && r[j] == "foobar";
    assert i < j;
    forall k | 0 <= k < |r|
      ensures (r[k] == "foo" && k == i) || (r[k] == "foobar" && k == j)
    {
      assert r[k] in r;
    }
    if 2 < |r| {
      FirstThree(r);
      assert false;
    }
    assert r == [r[0], r[1]];
  }

  /** `SMLShell`, with terminal writes as logs and without readline and the subprocess. */
  class SMLShell {
    /** The identifiers learnt from the interpreter's output and the user's input. */
    var identifiers: Trie.PrefixTree
    /** Readers of the interpreter's standard output and standard error. */
    var stdout: Streams.SynchronizedStreamReader
    var stderr: Streams.SynchronizedStreamReader
    /** The prompt shown to the user: the last prompt text the interpreter printed. */
    var prompt: string
    /** Completions cached by the last `complete` query with state 0. */
    var matches: seq<string>
    /** What the shell wrote to its standard output, its standard error, and the interpreter's standard input. */
    var outLog: seq<string>
    var errLog: seq<string>
    var smlInput: seq<string>

    ghost predicate Valid()
      reads this, identifiers, stdout, stderr
    {
      && stdout != stderr
      && identifiers.Valid()
      && stdout.Valid()
      && stderr.Valid()
    }

    /** `SMLShell(sml)`: an empty identifier tree, no cached matches and a reader per output stream. */
    constructor ()
      ensures Valid()
      ensures fresh(identifiers) && fresh(stdout) && fresh(stderr)
      ensures identifiers.Contents == {}
      ensures stdout.bytes == [] && stderr.bytes == []
      ensures prompt == "(DEBUG) " && matches == []
      ensures outLog == [] && errLog == [] && smlInput == []
    {
      identifiers := new Trie.PrefixTree([]);
      matches := [];
      stdout := new Streams.SynchronizedStreamReader();
      stderr := new Streams.SynchronizedStreamReader();
      prompt := "(DEBUG) ";
      outLog, errLog, smlInput := [], [], [];
    }

    /** `map(self.identifiers.add, match)` for each match: adds every capture group, empty ones included. */
    method AddGroups(ms: seq<(string, string)>)
      requires Valid()
      modifies identifiers
      ensures Valid()
      ensures identifiers.Contents == old(identifiers.Contents) + set x | x in Groups(ms)
    {
      var xs := Groups(ms);
      for i := 0 to |xs|
        invariant Valid()
        invariant identifiers.Contents == old(identifiers.Contents) + set x | x in xs[..i]
      {
        identifiers.Add(xs[i]);
        assert xs[..i + 1] == xs[..i] + [xs[i]];
      }
      assert xs[..|xs|] == xs;
    }

    /**
     * `get_matches(text, line, begidx, endidx)`: a two-space indent for an
     * empty line at the continuation prompt, otherwise every identifier
     * starting with `text`.  The indices are not used.
     */
    method GetMatches(text: string, line: string, begidx: int, endidx: int) returns (r: seq<string>)
      requires Valid()
      ensures line == "" && prompt == "= " ==> r == ["  "]
      ensures !(line == "" && prompt == "= ") ==> Trie.IsListing(r, identifiers.Contents, text)
    {
      if line == "" && prompt == "= " {
        return ["  "];
      }
      r := identifiers.Prefix(text);
    }

    /**
     * `complete(text, state)`: at state 0 recomputes the cached matches
     * from readline's line buffer and indices; then answers the
     * `state`-th cached match, or `None` where the source raises
     * IndexError (which ends readline's query).
     */
    method Complete(text: string, state: nat, lineBuffer: string, begidx: int, endidx: int) returns (r: Option<string>)
      requires Valid()
      modifies this`matches
      ensures state != 0 ==> matches == old(matches)
      ensures state == 0 && LStrip(lineBuffer) == "" && prompt == "= " ==> matches == ["  "]
      ensures state == 0 && !(LStrip(lineBuffer) == "" && prompt == "= ") ==>
        Trie.IsListing(matches, identifiers.Contents, text)
      ensures r == if state < |matches| then Some(matches[state]) else None
    {
      if state == 0 {
        var (line, b, e) := StrippedRequest(lineBuffer, begidx, endidx);
        matches := GetMatches(text, line, b, e);
      }
      if state < |matches| {
        r := Some(matches[state]);
      } else {
        r := None;
      }
    }

    /**
     * The newline case of `pre_prompt`'s loop: when the accumulated text
     * holds a newline, writes the text before its last newline and a
     * newline, learns identifiers from that text, and keeps what follows.
     */
    method ForwardLines(acc: string, findall: string -> seq<(string, string)>) returns (rest: string)
      requires Valid()
      modifies this`outLog, identifiers
      ensures Valid()
      ensures '\n' !in rest
      ensures '\n' in acc ==>
        && outLog == old(outLog) + [RSplit(acc).0 + "\n"]
        && rest == RSplit(acc).1
        && identifiers.Contents == old(identifiers.Contents) + set x | x in Groups(findall(RSplit(acc).0))
      ensures '\n' !in acc ==> rest == acc && outLog == old(outLog) && identifiers.Contents == old(identifiers.Contents)
    {
      if '\n' !in acc {
        return acc;
      }
      var (head, tail) := RSplit(acc);
      outLog := outLog + [head + "\n"];
      AddGroups(findall(head));
      rest := tail;
    }

    /** `map(sys.stderr.write, self.stderr.readlines())`: forwards the interpreter's complete error lines. */
    method ForwardErrors()
      requires Valid()
      modifies this`errLog, stderr
      ensures Valid()
      ensures errLog == old(errLog) + Streams.DrainFrom(old(stderr.bytes), old(stderr.lines), [], []).0
      ensures stderr.bytes == Streams.DrainFrom(old(stderr.bytes), old(stderr.lines), [], []).1
      ensures forall i :: |old(errLog)| <= i < |errLog| ==> Streams.IsLine(errLog[i])
    {
      var lines := stderr.ReadLines();
      errLog := errLog + lines;
      assert forall i :: |old(errLog)| <= i < |errLog| ==> errLog[i] == lines[i - |old(errLog)|];
    }

    /**
     * One round of `pre_prompt`'s loop, from the text `read` accumulated so
     * far: appends everything the interpreter wrote; stops at a prompt,
     * which becomes the shell's prompt whole; otherwise forwards the
     * complete lines and keeps the unfinished rest, then forwards the
     * interpreter's complete error lines.
     */
    method PrePromptStep(read: string, findall: string -> seq<(string, string)>) returns (rest: string, done: bool)
      requires Valid()
      modifies this`prompt, this`outLog, this`errLog, identifiers, stdout, stderr
      ensures Valid()
      ensures stdout.bytes == []
      ensures done <==> IsPrompt(read + Streams.Join(old(stdout.bytes)))
      ensures done ==> prompt == rest == read + Streams.Join(old(stdout.bytes))
      ensures done ==> outLog == old(outLog) && errLog == old(errLog) && unchanged(identifiers, stderr)
      ensures !done ==> prompt == old(prompt) && '\n' !in rest
      ensures var acc := read + Streams.Join(old(stdout.bytes));
        !done && '\n' in acc ==>
          && outLog == old(outLog) + [RSplit(acc).0 + "\n"]
          && rest == RSplit(acc).1
          && identifiers.Contents == old(identifiers.Contents) + set x | x in Groups(findall(RSplit(acc).0))
      ensures var acc := read + Streams.Join(old(stdout.bytes));
        !done && '\n' !in acc ==>
          outLog == old(outLog) && rest == acc && identifiers.Contents == old(identifiers.Contents)
      ensures !done ==> errLog == old(errLog) + Streams.DrainFrom(old(stderr.bytes), old(stderr.lines), [], []).0
      ensures !done ==> stderr.bytes == Streams.DrainFrom(old(stderr.bytes), old(stderr.lines), [], []).1
    {
      var chunk := stdout.Read();
      var acc := read + chunk;
      if IsPrompt(acc) {
        prompt := acc;
        return acc, true;
      }
      rest := ForwardLines(acc, findall);
      ForwardErrors();
      done := false;
    }

    /**
     * `post_prompt(line)`: sends the line and one newline to the
     * interpreter and learns identifiers from every capture group of the
     * line's matches, so an empty group makes "" an identifier.
     */
    method PostPrompt(line: string, findall: string -> seq<(string, string)>)
      requires Valid()
      modifies this`smlInput, identifiers
      ensures Valid()
      ensures smlInput == old(smlInput) + [line + "\n"]
      ensures identifiers.Contents == old(identifiers.Contents) + set x | x in Groups(findall(line))
      ensures (exists m :: m in findall(line) && (m.0 == "" || m.1 == "")) ==> "" in identifiers.Contents
    {
      smlInput := smlInput + [line + "\n"];
      AddGroups(findall(line));
    }
  }

  /** A new shell whose interpreter has written `text` to its standard output. */
  method FedShell(text: string) returns (shell: SMLShell)
    ensures shell.Valid()
    ensures fresh(shell) && fresh(shell.identifiers) && fresh(shell.stdout) && fresh(shell.stderr)
    ensures Streams.Join(shell.stdout.bytes) == text
    ensures shell.outLog == [] && shell.prompt == "(DEBUG) "
  {
    shell := new SMLShell();
    for i := 0 to |text|
      invariant shell.Valid()
      invariant fresh(shell) && fresh(shell.identifiers) && fresh(shell.stdout) && fresh(shell.stderr)
      invariant shell.stdout.bytes == Streams.Units(text[..i])
      invariant shell.outLog == [] && shell.prompt == "(DEBUG) "
    {
      shell.stdout.Step([text[i]]);
      assert text[..i + 1][..i] == text[..i];
    }
    assert text[..|text|] == text;
    Streams.JoinUnits(text);
  }

  /**
   * The interpreter writes "hello\n- " before the shell looks: the first
   * round forwards "hello\n" and keeps "- ", the second round, with nothing
   * new to read, recognises "- " as the prompt.
   */
  method HelloScenario(findall: string -> seq<(string, string)>) returns (shell: SMLShell, rounds: seq<bool>)
    ensures shell.outLog == ["hello\n"]
    ensures shell.prompt == "- "
    ensures rounds == [false, true]
  {
    var text := "hello\n- ";
    shell := FedShell(text);
    HelloThenPrompt();
    assert text[5] == '\n';
    ghost var acc := "" + Streams.Join(shell.stdout.bytes);
    assert acc == text;
    var rest, done := shell.PrePromptStep("", findall);
    assert !done && rest == RSplit(acc).1 && shell.outLog == [] + [RSplit(acc).0 + "\n"];
    assert "hello" + "\n" == "hello\n";
    var rest2, done2 := shell.PrePromptStep(rest, findall);
    rounds := [done, done2];
  }
}

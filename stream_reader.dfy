/**
 * The line-counting buffer of util/SynchronizedStreamReader.py, run one
 * atomic step at a time: a queue of units read from a stream, and a
 * counter of the newline units currently queued.
 */
module Streams {

  /** One result of the stream's `read(1)`: one character, or "" once the stream has ended. */
  type Unit = u: string | |u| <= 1

  /** `''.join(q)`: the characters of the units, in order. */
  function Join(q: seq<Unit>): string {
    if q == [] then "" else Join(q[..|q| - 1]) + q[|q| - 1]
  }

  /** The strings of `ls` written one after the other. */
  function Concat(ls: seq<string>): string {
    if ls == [] then "" else Concat(ls[..|ls| - 1]) + ls[|ls| - 1]
  }

  /** How many newline units `q` holds. */
  function NewlineCount(q: seq<Unit>): nat {
    multiset(q)["\n"]
  }

  /** A whole line: it ends in a newline and holds no other. */
  predicate IsLine(x: string) {
    |x| > 0 && x[|x| - 1] == '\n' && '\n' !in x[..|x| - 1]
  }

  /** The position just after the last newline unit of `q`, or 0 when there is none. */
  function AfterLastNewline(q: seq<Unit>): (k: nat)
    ensures k <= |q|
    ensures k == 0 || q[k - 1] == "\n"
    ensures "\n" !in q[k..]
  {
    if q == [] then 0
    else if q[|q| - 1] == "\n" then |q|
    else AfterLastNewline(q[..|q| - 1])
  }

  /** The position of the first end-of-stream result in `stream`, or `|stream|` when there is none. */
  function EndOfStream(stream: seq<Unit>): (k: nat)
    ensures k <= |stream|
    ensures "" !in stream[..k]
    ensures k < |stream| ==> stream[k] == ""
  {
    if stream == [] || stream[0] == "" then 0
    else
      var k := 1 + EndOfStream(stream[1..]);
      assert stream[..k] == [stream[0]] + stream[1..][..k - 1];
      k
  }

  /** The units successive `read(1)` calls return for `text`, before the end of the stream. */
  function Units(text: string): (q: seq<Unit>)
    ensures |q| == |text|
    ensures forall i :: 0 <= i < |text| ==> q[i] == [text[i]]
  {
    if text == [] then [] else Units(text[..|text| - 1]) + [[text[|text| - 1]]]
  }

  lemma {:induction false} JoinAppend(a: seq<Unit>, b: seq<Unit>)
    ensures Join(a + b) == Join(a) + Join(b)
    decreases |b|
  {
    if b == [] {
      assert a + b == a;
    } else {
      assert (a + b)[..|a + b| - 1] == a + b[..|b| - 1];
      JoinAppend(a, b[..|b| - 1]);
    }
  }

  /** Joining the units read from a text gives the text back. */
  lemma {:induction false} JoinUnits(text: string)
    ensures Join(Units(text)) == text
    decreases |text|
  {
    if text != [] {
      var q := Units(text);
      assert q[..|q| - 1] == Units(text[..|text| - 1]);
      JoinUnits(text[..|text| - 1]);
      assert text == text[..|text| - 1] + [text[|text| - 1]];
    }
  }

  /** Every unit but the end-of-stream "" contributes one character to the joined text. */
  lemma {:induction false} JoinLength(q: seq<Unit>)
    ensures |Join(q)| == |q| - multiset(q)[""]
    decreases |q|
  {
    if q != [] {
      var p := q[..|q| - 1];
      JoinLength(p);
      assert q == p + [q[|q| - 1]];
      assert multiset(q) == multiset(p) + multiset{q[|q| - 1]};
    }
  }

  lemma {:induction false} JoinWithoutNewline(q: seq<Unit>)
    requires "\n" !in q
    ensures '\n' !in Join(q)
    decreases |q|
  {
    if q != [] {
      JoinWithoutNewline(q[..|q| - 1]);
      var u := q[|q| - 1];
      assert u in q;
      if u != "" { assert u == [u[0]]; }
    }
  }

  /** The position after the last newline is the only one that follows a newline (or is 0) and leaves none behind. */
  lemma AfterLastNewlineUnique(q: seq<Unit>, k: nat)
    requires k <= |q|
    requires k == 0 || q[k - 1] == "\n"
    requires "\n" !in q[k..]
    ensures AfterLastNewline(q) == k
  {
  }

  lemma NewlineCountAppend(a: seq<Unit>, b: seq<Unit>)
    ensures NewlineCount(a + b) == NewlineCount(a) + NewlineCount(b)
  {
    assert multiset(a + b) == multiset(a) + multiset(b);
  }

  /** A queue without newline units has nothing before its "last newline". */
  lemma NoNewlineNothingDrained(q: seq<Unit>)
    requires NewlineCount(q) == 0
    ensures AfterLastNewline(q) == 0
  {
  }

  lemma NewlineCountFirst(q: seq<Unit>)
    requires q != []
    ensures NewlineCount(q) == NewlineCount(q[1..]) + (if q[0] == "\n" then 1 else 0)
  {
    assert q == [q[0]] + q[1..];
  }

  /**
   * What the `readlines` loop returns and leaves queued, from a queue `bytes`,
   * a counter `lines`, the partial line `line` taken so far and the lines `s`
   * completed so far.  It stops when the counter reaches 0, or when the queue
   * is empty (`Queue.Empty`), dropping the partial line.
   */
  function DrainFrom(bytes: seq<Unit>, lines: int, line: seq<Unit>, s: seq<string>): (seq<string>, seq<Unit>)
    decreases |bytes|
  {
    if lines == 0 || bytes == [] then (s, bytes)
    else if bytes[0] == "\n" then DrainFrom(bytes[1..], lines - 1, [], s + [Join(line + [bytes[0]])])
    else DrainFrom(bytes[1..], lines, line + [bytes[0]], s)
  }

  /** The drain only appends to the lines taken so far and only takes units off the front of the queue. */
  lemma {:induction false} DrainKeepsOrder(bytes: seq<Unit>, lines: int, line: seq<Unit>, s: seq<string>)
    ensures var (r, rest) := DrainFrom(bytes, lines, line, s);
      && |s| <= |r| && r[..|s|] == s
      && |rest| <= |bytes| && rest == bytes[|bytes| - |rest|..]
    decreases |bytes|
  {
    if lines != 0 && bytes != [] {
      var s' := if bytes[0] == "\n" then s + [Join(line + [bytes[0]])] else s;
      var line' := if bytes[0] == "\n" then [] else line + [bytes[0]];
      var lines' := if bytes[0] == "\n" then lines - 1 else lines;
      DrainKeepsOrder(bytes[1..], lines', line', s');
      var (r, rest) := DrainFrom(bytes[1..], lines', line', s');
      assert r[..|s|] == r[..|s'|][..|s|];
      assert bytes[1..][|bytes| - 1 - |rest|..] == bytes[|bytes| - |rest|..];
    }
  }

  /** A queue holding a newline after its first unit has its last newline one unit further along than its tail does. */
  lemma AfterLastNewlineFirst(q: seq<Unit>)
    requires q != [] && (q[0] == "\n" || "\n" in q[1..])
    ensures AfterLastNewline(q) == 1 + AfterLastNewline(q[1..])
  {
    var k := AfterLastNewline(q[1..]);
    assert q[1 + k..] == q[1..][k..];
    AfterLastNewlineUnique(q, 1 + k);
  }

  /** What `readlines` leaves queued: everything after the last newline. */
  ghost predicate LeftAfterLastNewline(bytes: seq<Unit>, rest: seq<Unit>) {
    rest == bytes[AfterLastNewline(bytes)..]
  }

  /** What `readlines` returns spells the earlier lines `s`, the partial line and the units up to the last newline. */
  ghost predicate SpellsDrained(bytes: seq<Unit>, line: seq<Unit>, s: seq<string>, r: seq<string>) {
    Concat(r) == Concat(s) + Join(line + bytes[..AfterLastNewline(bytes)])
  }

  /** `r` extends `s` with whole lines only. */
  ghost predicate ExtendsWithLines(s: seq<string>, r: seq<string>) {
    |s| <= |r| && r[..|s|] == s && forall i :: |s| <= i < |r| ==> IsLine(r[i])
  }

  lemma LeftAfterStep(bytes: seq<Unit>, rest: seq<Unit>)
    requires bytes != [] && (bytes[0] == "\n" || "\n" in bytes[1..])
    requires LeftAfterLastNewline(bytes[1..], rest)
    ensures LeftAfterLastNewline(bytes, rest)
  {
    AfterLastNewlineFirst(bytes);
    assert bytes[1 + AfterLastNewline(bytes[1..])..] == bytes[1..][AfterLastNewline(bytes[1..])..];
  }

  /** A partial line without newlines followed by a newline unit joins to a whole line. */
  lemma CompletedLine(line: seq<Unit>, nl: Unit)
    requires "\n" !in line && nl == "\n"
    ensures IsLine(Join(line + [nl]))
  {
    assert (line + [nl])[..|line|] == line;
    JoinWithoutNewline(line);
  }

  lemma SpellsNewlineStep(bytes: seq<Unit>, line: seq<Unit>, s: seq<string>, r: seq<string>)
    requires bytes != [] && bytes[0] == "\n"
    requires SpellsDrained(bytes[1..], [], s + [Join(line + [bytes[0]])], r)
    ensures SpellsDrained(bytes, line, s, r)
  {
    var t := bytes[1..][..AfterLastNewline(bytes[1..])];
    UpToLastNewlineFirst(bytes);
    SpellsCompletedLine(r, s, line, bytes[0], t);
  }

  /** Up to its last newline, a queue holding a newline is its first unit and its tail up to the tail's last newline. */
  lemma UpToLastNewlineFirst(q: seq<Unit>)
    requires q != [] && (q[0] == "\n" || "\n" in q[1..])
    ensures q[..AfterLastNewline(q)] == [q[0]] + q[1..][..AfterLastNewline(q[1..])]
  {
    AfterLastNewlineFirst(q);
  }

  /** Spelling the completed line `line + [u]` and then `t` is spelling `line` followed by `[u] + t`. */
  lemma SpellsCompletedLine(r: seq<string>, s: seq<string>, line: seq<Unit>, u: Unit, t: seq<Unit>)
    requires Concat(r) == Concat(s + [Join(line + [u])]) + Join([] + t)
    ensures Concat(r) == Concat(s) + Join(line + ([u] + t))
  {
    var l := Join(line + [u]);
    calc {
      Concat(r);
    ==
      Concat(s + [l]) + Join([] + t);
    == { ConcatSnoc(s, l); assert [] + t == t; }
      (Concat(s) + l) + Join(t);
    ==
      Concat(s) + (l + Join(t));
    == { JoinAfterUnit(line, u, t); }
      Concat(s) + Join(line + ([u] + t));
    }
  }

  lemma ConcatSnoc(s: seq<string>, l: string)
    ensures Concat(s + [l]) == Concat(s) + l
  {
    assert (s + [l])[..|s|] == s;
  }

  lemma JoinAfterUnit(line: seq<Unit>, u: Unit, t: seq<Unit>)
    ensures Join(line + ([u] + t)) == Join(line + [u]) + Join(t)
  {
    assert line + ([u] + t) == (line + [u]) + t;
    JoinAppend(line + [u], t);
  }

  lemma SpellsOtherStep(bytes: seq<Unit>, line: seq<Unit>, s: seq<string>, r: seq<string>)
    requires bytes != [] && bytes[0] != "\n" && "\n" in bytes[1..]
    requires SpellsDrained(bytes[1..], line + [bytes[0]], s, r)
    ensures SpellsDrained(bytes, line, s, r)
  {
    var t := bytes[1..][..AfterLastNewline(bytes[1..])];
    UpToLastNewlineFirst(bytes);
    assert (line + [bytes[0]]) + t == line + ([bytes[0]] + t);
  }

  lemma ExtendsStep(s: seq<string>, l: string, r: seq<string>)
    requires IsLine(l)
    requires ExtendsWithLines(s + [l], r)
    ensures ExtendsWithLines(s, r)
  {
    assert r[..|s|] == (s + [l])[..|s|];
    assert r[|s|] == (s + [l])[|s|];
  }

  /**
   * When the counter matches the queue, `readlines` drains exactly up to the
   * last queued newline, as whole lines, leaving the rest queued.
   */
  lemma {:induction false} DrainFromLines(bytes: seq<Unit>, lines: int, line: seq<Unit>, s: seq<string>)
    requires lines == NewlineCount(bytes)
    requires "\n" !in line
    requires lines == 0 ==> line == []
    ensures var (r, rest) := DrainFrom(bytes, lines, line, s);
      && LeftAfterLastNewline(bytes, rest)
      && SpellsDrained(bytes, line, s, r)
      && ExtendsWithLines(s, r)
      && |r| == |s| + lines
    decreases |bytes|
  {
    if lines == 0 {
      NoNewlineNothingDrained(bytes);
      assert line + bytes[..0] == [];
    } else {
      NewlineCountFirst(bytes);
      var b, tail := bytes[0], bytes[1..];
      if b == "\n" {
        var l := Join(line + [b]);
        DrainFromLines(tail, lines - 1, [], s + [l]);
        var (r, rest) := DrainFrom(tail, lines - 1, [], s + [l]);
        LeftAfterStep(bytes, rest);
        SpellsNewlineStep(bytes, line, s, r);
        CompletedLine(line, b);
        ExtendsStep(s, l, r);
      } else {
        assert "\n" in multiset(tail);
        assert "\n" !in line + [b];
        DrainFromLines(tail, lines, line + [b], s);
        var (r, rest) := DrainFrom(tail, lines, line + [b], s);
        LeftAfterStep(bytes, rest);
        SpellsOtherStep(bytes, line, s, r);
      }
    }
  }

  /** The facts `readlines` promises, read off the drained result of a consistent reader. */
  lemma ReadLinesOutcome(q: seq<Unit>, r: seq<string>, rest: seq<Unit>)
    requires (r, rest) == DrainFrom(q, NewlineCount(q), [], [])
    ensures |r| == NewlineCount(q) && NewlineCount(rest) == 0
    ensures forall x :: x in r ==> IsLine(x)
    ensures rest == q[AfterLastNewline(q)..]
    ensures Concat(r) == Join(q[..AfterLastNewline(q)])
    ensures Concat(r) + Join(rest) == Join(q)
  {
    DrainFromLines(q, NewlineCount(q), [], []);
    DrainedFromStart(q, r, rest);
    forall x | x in r ensures IsLine(x) {
      var i :| 0 <= i < |r| && r[i] == x;
    }
  }

  lemma DrainedFromStart(q: seq<Unit>, r: seq<string>, rest: seq<Unit>)
    requires LeftAfterLastNewline(q, rest) && SpellsDrained(q, [], [], r)
    ensures NewlineCount(rest) == 0
    ensures Concat(r) == Join(q[..AfterLastNewline(q)])
    ensures Concat(r) + Join(rest) == Join(q)
  {
    var k := AfterLastNewline(q);
    assert [] + q[..k] == q[..k];
    assert q == q[..k] + q[k..];
    JoinAppend(q[..k], q[k..]);
    assert "\n" !in rest;
  }

  /** Where a text's last newline character ends is where the last newline unit read from it ends. */
  lemma UnitsLastNewline(text: string, k: nat)
    requires k <= |text|
    requires k == 0 || text[k - 1] == '\n'
    requires '\n' !in text[k..]
    ensures AfterLastNewline(Units(text)) == k
  {
    var q := Units(text);
    forall j | 0 <= j < |text| - k
      ensures q[k..][j] != "\n"
    {
      assert q[k..][j] == q[k + j] == [text[k + j]];
      assert text[k + j] == text[k..][j];
    }
    AfterLastNewlineUnique(q, k);
  }

  /** A text has one position that follows its last newline character (or is 0 when it has none). */
  lemma LastNewlineUnique(text: string, j: nat, k: nat)
    requires j <= |text| && (j == 0 || text[j - 1] == '\n') && '\n' !in text[j..]
    requires k <= |text| && (k == 0 || text[k - 1] == '\n') && '\n' !in text[k..]
    ensures j == k
  {
    UnitsLastNewline(text, j);
    UnitsLastNewline(text, k);
  }

  /** Whole lines written one after the other spell nothing exactly when there are none, and otherwise end in a newline. */
  lemma ConcatOfLines(ls: seq<string>)
    requires forall i :: 0 <= i < |ls| ==> IsLine(ls[i])
    ensures Concat(ls) == "" <==> ls == []
    ensures Concat(ls) == "" || Concat(ls)[|Concat(ls)| - 1] == '\n'
  {
  }

  /** Two ways of ending one text with a whole line, after text that is empty or ends in a newline, agree. */
  lemma LastLineAgrees(a: string, x: string, b: string, y: string)
    requires IsLine(x) && IsLine(y)
    requires a + x == b + y
    requires a == "" || a[|a| - 1] == '\n'
    requires b == "" || b[|b| - 1] == '\n'
    ensures a == b && x == y
  {
    var s := a + x;
    var t := s[..|s| - 1];
    assert t == a + x[..|x| - 1] && t[|a|..] == x[..|x| - 1];
    assert t == b + y[..|y| - 1] && t[|b|..] == y[..|y| - 1];
    LastNewlineUnique(t, |a|, |b|);
    assert a == s[..|a|] && b == (b + y)[..|b|];
  }

  /** A text splits into whole lines in one way only. */
  lemma {:induction false} LinesUnique(r: seq<string>, ls: seq<string>)
    requires forall i :: 0 <= i < |r| ==> IsLine(r[i])
    requires forall i :: 0 <= i < |ls| ==> IsLine(ls[i])
    requires Concat(r) == Concat(ls)
    ensures r == ls
    decreases |r|
  {
    ConcatOfLines(r);
    ConcatOfLines(ls);
    if r != [] && ls != [] {
      var r', ls' := r[..|r| - 1], ls[..|ls| - 1];
      ConcatOfLines(r');
      ConcatOfLines(ls');
      LastLineAgrees(Concat(r'), r[|r| - 1], Concat(ls'), ls[|ls| - 1]);
      LinesUnique(r', ls');
      assert r == r' + [r[|r| - 1]] && ls == ls' + [ls[|ls| - 1]];
    }
  }

  /** A text that is empty or ends in a newline is drained up to its end. */
  lemma WholeTextDrained(text: string)
    requires text == "" || text[|text| - 1] == '\n'
    ensures AfterLastNewline(Units(text)) == |text|
    ensures Units(text)[..|text|] == Units(text)
  {
    AfterLastNewlineUnique(Units(text), |text|);
  }

  /**
   * No line is lost, split or reordered: when the queue holds the units of
   * whole lines and the counter matches it, `readlines` hands back exactly
   * those lines and leaves nothing queued.
   */
  lemma DrainWrittenLines(ls: seq<string>)
    requires forall i :: 0 <= i < |ls| ==> IsLine(ls[i])
    ensures var q := Units(Concat(ls));
      DrainFrom(q, NewlineCount(q), [], []) == (ls, [])
  {
    var text := Concat(ls);
    var q := Units(text);
    var (r, rest) := DrainFrom(q, NewlineCount(q), [], []);
    ReadLinesOutcome(q, r, rest);
    ConcatOfLines(ls);
    WholeTextDrained(text);
    JoinUnits(text);
    forall i | 0 <= i < |r|
      ensures IsLine(r[i])
    {
      assert r[i] in r;
    }
    LinesUnique(r, ls);
  }

  /** The `i`-th read before the end of the stream is a character extending what was read before it. */
  lemma NextRead(stream: seq<Unit>, i: nat)
    requires i < EndOfStream(stream)
    ensures i < |stream| && stream[i] != ""
    ensures stream[..i + 1] == stream[..i] + [stream[i]]
  {
    var k := EndOfStream(stream);
    assert stream[..k][i] == stream[i];
    PrefixSnoc(stream, i);
  }

  /** Taking one more element of a sequence appends it; stated for any element type, which keeps the solver from comparing the units themselves. */
  lemma PrefixSnoc<T>(q: seq<T>, i: nat)
    requires i < |q|
    ensures q[..i + 1] == q[..i] + [q[i]]
  {
  }

  /** `SynchronizedStreamReader`, without its thread and lock. */
  class SynchronizedStreamReader {
    /** The units read and not yet drained, oldest first (the source's `bytes` queue). */
    var bytes: seq<Unit>
    /** The source's `lines` counter. */
    var lines: int

    /** `lines` counts the newline units in the queue. */
    ghost predicate Valid()
      reads this
    {
      lines == NewlineCount(bytes)
    }

    constructor ()
      ensures Valid()
      ensures bytes == [] && lines == 0
    {
      bytes := [];
      lines := 0;
    }

    /** `read()`: drains every queued unit and returns them joined, in arrival order. */
    method Read() returns (r: string)
      modifies this
      ensures Valid()
      ensures r == Join(old(bytes))
      ensures bytes == [] && lines == 0
    {
      var s: seq<Unit> := [];
      while bytes != []
        invariant s + bytes == old(bytes)
      {
        s := s + [bytes[0]];
        bytes := bytes[1..];
      }
      assert s == old(bytes);
      lines := 0;
      r := Join(s);
    }

    /**
     * `readlines()`: takes units off the queue while the counter is positive,
     * returning each completed line; with the counter matching the queue this
     * drains exactly up to and including the last queued newline and leaves
     * the trailing partial line queued.
     */
    method ReadLines() returns (r: seq<string>)
      modifies this
      ensures (r, bytes) == DrainFrom(old(bytes), old(lines), [], [])
      ensures lines == old(lines) - |r|
      ensures old(Valid()) ==> Valid() && lines == 0 && |r| == old(lines)
      ensures old(Valid()) ==> forall x :: x in r ==> IsLine(x)
      ensures old(Valid()) ==> bytes == old(bytes)[AfterLastNewline(old(bytes))..]
      ensures old(Valid()) ==> Concat(r) == Join(old(bytes)[..AfterLastNewline(old(bytes))])
      ensures old(Valid()) ==> Concat(r) + Join(bytes) == Join(old(bytes))
      ensures old(lines) == 0 ==> r == [] && bytes == old(bytes)
    {
      var s: seq<string> := [];
      var line: seq<Unit> := [];
      while lines != 0
        invariant DrainFrom(bytes, lines, line, s) == DrainFrom(old(bytes), old(lines), [], [])
        invariant lines + |s| == old(lines)
        decreases |bytes|
      {
        if bytes == [] {
          // `Queue.Empty`: the partial line taken so far is dropped.
          break;
        }
        var byte := bytes[0];
        bytes := bytes[1..];
        line := line + [byte];
        if byte == "\n" {
          lines := lines - 1;
          s := s + [Join(line)];
          line := [];
        }
      }
      r := s;
      if old(Valid()) {
        ReadLinesOutcome(old(bytes), r, bytes);
      }
    }

    /** One iteration of `run`: count the unit if it is a newline, then queue it. */
    method Step(unit: Unit)
      requires Valid()
      modifies this
      ensures Valid()
      ensures bytes == old(bytes) + [unit]
      ensures lines == old(lines) + (if unit == "\n" then 1 else 0)
    {
      if unit == "\n" {
        lines := lines + 1;
      }
      bytes := bytes + [unit];
    }

    /**
     * `run()`: reads one unit at a time until a read returns "", which is
     * queued too.  `stream` lists what successive reads return; reads past
     * its end return "".
     */
    method Run(stream: seq<Unit>)
      requires Valid()
      modifies this
      ensures Valid()
      ensures bytes == old(bytes) + stream[..EndOfStream(stream)] + [""]
      ensures lines == old(lines) + NewlineCount(stream[..EndOfStream(stream)])
    {
      var end := EndOfStream(stream);
      var more := true;
      var i := 0;
      while more
        invariant Valid()
        invariant i <= end + 1
        invariant more ==> i <= end && bytes == old(bytes) + stream[..i]
        invariant !more ==> bytes == old(bytes) + stream[..end] + [""]
        decreases end + 1 - i
      {
        var unit := if i < |stream| then stream[i] else "";
        if i < end {
          NextRead(stream, i);
        }
        Step(unit);
        i := i + 1;
        more := unit != "";
      }
      ghost var eof: seq<Unit> := [""];
      NewlineCountAppend(old(bytes), stream[..end]);
      NewlineCountAppend(old(bytes) + stream[..end], eof);
    }
  }
}

/**
 * The line framer of the reader (gps/gps.c, nmea_reader_addc) as a function
 * on its state: the characters buffered so far and the overflow flag. A
 * byte either extends the line, completes it (a newline, handed to the
 * parser with the newline), or, on a line that would not fit the buffer,
 * switches to discarding bytes up to the next newline.
 */
module Framer {

  import opened Wrappers

  /** The longest line the reader buffers; its buffer holds one more byte. */
  const NMEA_MAX_SIZE := 83

  datatype FrameState = FrameState(line: seq<char>, overflow: bool)

  /** What the reader keeps between bytes: a partial line that fits, holds no newline, and is empty while discarding. */
  predicate Valid(f: FrameState) {
    |f.line| <= NMEA_MAX_SIZE && '\n' !in f.line && (f.overflow ==> f.line == [])
  }

  datatype StepResult = StepResult(next: FrameState, complete: Option<seq<char>>)

  const Idle := FrameState([], false)

  /** nmea_reader_addc for one byte: the next framer state and the completed line, if any. */
  function Step(f: FrameState, c: char): (r: StepResult)
    ensures Valid(f) ==> Valid(r.next)
    ensures r.complete.Some? ==> r.next == Idle && r.complete.value == f.line + ['\n']
  {
    if f.overflow then StepResult(FrameState(f.line, c != '\n'), None)
    else if |f.line| >= NMEA_MAX_SIZE then StepResult(FrameState([], true), None)
    else if c == '\n' then StepResult(Idle, Some(f.line + [c]))
    else StepResult(FrameState(f.line + [c], false), None)
  }

  /** A run of bytes through the framer: the final state and the completed lines in order. */
  function Feed(f: FrameState, cs: seq<char>): (r: (FrameState, seq<seq<char>>))
    ensures |r.1| <= multiset(cs)['\n']
    decreases |cs|
  {
    if cs == [] then (f, [])
    else
      assert cs == [cs[0]] + cs[1..];
      var r := Step(f, cs[0]);
      var rest := Feed(r.next, cs[1..]);
      (rest.0, (if r.complete.Some? then [r.complete.value] else []) + rest.1)
  }

  /** Feeding two runs one after the other is feeding their concatenation. */
  lemma {:induction false} FeedAppend(f: FrameState, a: seq<char>, b: seq<char>)
    ensures var first := Feed(f, a);
      var second := Feed(first.0, b);
      Feed(f, a + b) == (second.0, first.1 + second.1)
    decreases |a|
  {
    if a == [] {
      assert a + b == b;
      assert [] + Feed(f, b).1 == Feed(f, b).1;
    } else {
      var r := Step(f, a[0]);
      var out: seq<seq<char>> := if r.complete.Some? then [r.complete.value] else [];
      assert (a + b)[0] == a[0] && (a + b)[1..] == a[1..] + b;
      FeedAppend(r.next, a[1..], b);
      var first := Feed(r.next, a[1..]);
      var second := Feed(first.0, b);
      assert Feed(f, a) == (first.0, out + first.1);
      assert Feed(f, a + b) == (second.0, out + (first.1 + second.1));
      assert out + (first.1 + second.1) == (out + first.1) + second.1;
    }
  }

  /** Every line the framer completes ends in its only newline and has at most NMEA_MAX_SIZE bytes. */
  lemma {:induction false} FeedLinesFramed(f: FrameState, cs: seq<char>)
    requires Valid(f)
    ensures Valid(Feed(f, cs).0)
    ensures forall k :: 0 <= k < |Feed(f, cs).1| ==>
      var l := Feed(f, cs).1[k];
      0 < |l| <= NMEA_MAX_SIZE && l[|l| - 1] == '\n' && '\n' !in l[..|l| - 1]
    decreases |cs|
  {
    if cs != [] {
      var r := Step(f, cs[0]);
      FeedLinesFramed(r.next, cs[1..]);
      if r.complete.Some? {
        assert r.complete.value[..|r.complete.value| - 1] == f.line;
      }
    }
  }

  /** Bytes without a newline, appended to a partial line that still fits. */
  lemma {:induction false} FeedPartial(line: seq<char>, body: seq<char>)
    requires |line| + |body| <= NMEA_MAX_SIZE && '\n' !in body
    ensures Feed(FrameState(line, false), body) == (FrameState(line + body, false), [])
    decreases |body|
  {
    if body != [] {
      assert '\n' !in body[1..] && body[0] != '\n';
      FeedPartial(line + [body[0]], body[1..]);
      assert line + [body[0]] + body[1..] == line + body;
      var rest := Feed(FrameState(line + [body[0]], false), body[1..]);
      var r := Step(FrameState(line, false), body[0]);
      assert r.next == FrameState(line + [body[0]], false) && r.complete.None?;
      assert Feed(FrameState(line, false), body) == (rest.0, [] + rest.1);
      assert [] + rest.1 == [];
    } else {
      assert line + body == line;
    }
  }

  /** A line of up to NMEA_MAX_SIZE bytes, newline included, is delivered whole from an idle framer. */
  lemma DeliversLine(body: seq<char>)
    requires |body| < NMEA_MAX_SIZE && '\n' !in body
    ensures Feed(Idle, body + ['\n']) == (Idle, [body + ['\n']])
  {
    var partial := FrameState(body, false);
    FeedPartial([], body);
    assert [] + body == body;
    FeedOne(partial, '\n');
    FeedThen(Idle, body, ['\n'], partial, Idle, [], [body + ['\n']]);
    assert [] + [body + ['\n']] == [body + ['\n']];
  }

  /** Feeding a run whose two parts are known one after the other. */
  lemma FeedThen(f: FrameState, a: seq<char>, b: seq<char>, g: FrameState, h: FrameState, la: seq<seq<char>>, lb: seq<seq<char>>)
    requires Feed(f, a) == (g, la) && Feed(g, b) == (h, lb)
    ensures Feed(f, a + b) == (h, la + lb)
  {
    FeedAppend(f, a, b);
  }

  /** Feeding a single byte is one step. */
  lemma FeedOne(f: FrameState, c: char)
    ensures var r := Step(f, c);
      Feed(f, [c]) == (r.next, if r.complete.Some? then [r.complete.value] else [])
  {
    var r := Step(f, c);
    var out: seq<seq<char>> := if r.complete.Some? then [r.complete.value] else [];
    assert [c][0] == c && [c][1..] == [];
    assert Feed(f, [c]) == (Feed(r.next, []).0, out + Feed(r.next, []).1);
    assert out + [] == out;
  }

  /** While discarding, bytes without a newline are dropped. */
  lemma {:induction false} FeedDiscarding(body: seq<char>)
    requires '\n' !in body
    ensures Feed(FrameState([], true), body) == (FrameState([], true), [])
    decreases |body|
  {
    if body != [] {
      assert '\n' !in body[1..] && body[0] != '\n';
      FeedDiscarding(body[1..]);
      var rest := Feed(FrameState([], true), body[1..]);
      var r := Step(FrameState([], true), body[0]);
      assert r.next == FrameState([], true) && r.complete.None?;
      assert Feed(FrameState([], true), body) == (rest.0, [] + rest.1);
      assert [] + rest.1 == [];
    }
  }

  /** A discarding framer resynchronises at the next newline, delivering nothing. */
  lemma Resynchronises(body: seq<char>)
    requires '\n' !in body
    ensures Feed(FrameState([], true), body + ['\n']) == (Idle, [])
  {
    FeedDiscarding(body);
    FeedAppend(FrameState([], true), body, ['\n']);
  }

  /**
   * A line longer than the buffer is dropped: the byte that does not fit
   * starts discarding, and the newline ends it, so the next line is read
   * normally.
   */
  lemma DropsLongLine(body: seq<char>)
    requires |body| > NMEA_MAX_SIZE && '\n' !in body
    ensures Feed(Idle, body + ['\n']) == (Idle, [])
  {
    var head, c, rest := body[..NMEA_MAX_SIZE], body[NMEA_MAX_SIZE], body[NMEA_MAX_SIZE + 1..];
    var full := FrameState(head, false);
    var discarding := FrameState([], true);
    assert '\n' !in head && '\n' !in rest;
    FeedPartial([], head);
    assert [] + head == head;
    FeedOne(full, c);
    Resynchronises(rest);
    FeedThen(full, [c], rest + ['\n'], discarding, Idle, [], []);
    FeedThen(Idle, head, [c] + (rest + ['\n']), full, Idle, [], [] + []);
    SplitAround(body, NMEA_MAX_SIZE);
    Regroup(head, [c], rest, ['\n']);
  }

  /** A text is what comes before position i, the byte at i, and what comes after. */
  lemma SplitAround(s: seq<char>, i: nat)
    requires i < |s|
    ensures s == s[..i] + ([s[i]] + s[i + 1..])
  {
    assert s[i..] == [s[i]] + s[i + 1..];
    assert s == s[..i] + s[i..];
  }

  lemma Regroup(a: seq<char>, b: seq<char>, d: seq<char>, e: seq<char>)
    ensures a + (b + (d + e)) == (a + (b + d)) + e == a + b + d + e
  {
  }

  /**
   * A line of exactly NMEA_MAX_SIZE bytes before its newline fills the
   * buffer: the newline itself does not fit and starts discarding, so the
   * line after it is dropped as well.
   */
  lemma FullLineLosesNext(body: seq<char>, next: seq<char>)
    requires |body| == NMEA_MAX_SIZE && '\n' !in body && '\n' !in next
    ensures Feed(Idle, body + ['\n'] + next + ['\n']) == (Idle, [])
  {
    var full := FrameState(body, false);
    var discarding := FrameState([], true);
    FeedPartial([], body);
    assert [] + body == body;
    FeedOne(full, '\n');
    Resynchronises(next);
    FeedThen(full, ['\n'], next + ['\n'], discarding, Idle, [], []);
    FeedThen(Idle, body, ['\n'] + (next + ['\n']), full, Idle, [], [] + []);
    Regroup(body, ['\n'], next, ['\n']);
  }
}

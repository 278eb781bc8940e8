/** The line scanner of `extract_code_blocks`: one forward pass over the lines
    of the pasted text that pairs each filename marker with the code fence
    found within `LineLimit` lines after it.

    The scanner is generic in the two line matchers, `marker` (the filename
    search, `Some(name)` on a match) and `fence` (the code search, `Some(group
    1)` on a match); module Extractor instantiates them with the fixed
    patterns of module Patterns. */
module Scanner {
  import opened Options
  import opened Text

  /** Maximum number of lines between a filename and its code block. */
  const LineLimit: nat := 3

  /** One line's matcher: `Some(capture)` when the pattern is found. A marker
      matcher is expected never to return `Some("")`: line 46's `or` chain
      would turn an empty capture into `None`, which this model does not do.
      The program's own marker search never captures an empty name. */
  type Matcher = string -> Option<string>

  /** The messages the scan writes to the log console, in emission order. */
  datatype Event =
    | IgnoredNoCode(name: string)           // "Ignoring X (no code found)."
    | Detected(name: string)                // "Detected filename: X"
    | BlockAdded(name: string)              // "Code block added for X"
    | TooFar(name: string)                  // "Ignoring X (too many lines between filename and code)."
    | LimitExceeded(shown: Option<string>)  // "Ignoring X (exceeded line limit without code)."; X may print as None

  /** The loop's variables: the active filename, the line counter, the code
      buffer, the two output lists and the log written so far. */
  datatype State = State(
    current: Option<string>,
    gap: nat,
    code: seq<string>,
    filenames: seq<string>,
    blocks: seq<string>,
    log: seq<Event>)

  const Start := State(None, 0, [], [], [], [])

  /** Python truthiness of the active filename: `None` and `""` are false. */
  predicate Truthy(name: Option<string>) {
    name.Some? && name.value != []
  }

  /** The invariant every reachable state keeps between two lines: the buffer
      is empty, the two output lists have the same length, and an active
      filename is never further than `LineLimit` lines behind. */
  ghost predicate Valid(s: State) {
    && s.code == []
    && |s.filenames| == |s.blocks|
    && (Truthy(s.current) ==> s.gap <= LineLimit)
  }

  /** The closing check of every non-marker line that was not consumed by a
      fence: past the limit, the active filename (possibly already `None`) is
      dropped with a message. The counter is left as it is.

      The check restores the loop invariant whatever the counter was, it
      changes the state only past the limit, and it adds at most one message,
      which names the filename as it stood. */
  function AfterLine(s: State): (r: State)
    ensures s.code == [] && |s.filenames| == |s.blocks| ==> Valid(r)
    ensures r.filenames == s.filenames && r.blocks == s.blocks && r.gap == s.gap
    ensures r != s ==> s.gap > LineLimit && !Truthy(r.current)
    ensures s.log <= r.log && |r.log| <= |s.log| + 1
    ensures |r.log| > |s.log| ==> r.log[|s.log|] == LimitExceeded(s.current)
  {
    if s.gap > LineLimit then
      s.(log := s.log + [LimitExceeded(s.current)], current := None, code := [])
    else s
  }

  /** One iteration of the loop over lines. */
  function Step(marker: Matcher, fence: Matcher, s: State, line: string): (r: State)
    ensures Valid(s) ==> Valid(r)
    ensures marker(line).Some? ==> r.current == marker(line) && r.gap == 0 && r.code == []
    ensures s.log <= r.log
    ensures r.filenames == s.filenames || (s.current.Some? && r.filenames == s.filenames + [s.current.value])
    ensures r.filenames == s.filenames <==> r.blocks == s.blocks
  {
    match marker(line)
    case Some(n) =>
      var ignored := if Truthy(s.current) && s.code == [] then [IgnoredNoCode(s.current.value)] else [];
      s.(current := Some(n), gap := 0, code := [], log := s.log + ignored + [Detected(n)])
    case None =>
      if Truthy(s.current) then
        var k := s.gap + 1;
        var name := s.current.value;
        match fence(line)
        case Some(c) =>
          if k <= LineLimit then
            var code := s.code + [c];
            s.(gap := k, current := None, code := [],
               filenames := s.filenames + [name], blocks := s.blocks + [Join(code, "\n")],
               log := s.log + [BlockAdded(name)])
          else
            s.(gap := k, current := None, code := [], log := s.log + [TooFar(name)])
        case None => AfterLine(s.(gap := k))
      else AfterLine(s)
  }

  /** The scan of the first `|lines|` lines, as a left fold of `Step`. */
  function Scan(marker: Matcher, fence: Matcher, lines: seq<string>): (r: State)
    ensures Valid(r)
    decreases |lines|
  {
    if |lines| == 0 then Start
    else Step(marker, fence, Scan(marker, fence, lines[..|lines| - 1]), lines[|lines| - 1])
  }

  lemma ScanSnoc(marker: Matcher, fence: Matcher, lines: seq<string>, line: string)
    ensures Scan(marker, fence, lines + [line]) == Step(marker, fence, Scan(marker, fence, lines), line)
  {
    assert (lines + [line])[..|lines|] == lines;
  }

  // ---------------------------------------------------------------------------
  // Single-line behaviour
  // ---------------------------------------------------------------------------

  /** A marker line is never tested against the fence pattern: it starts the
      new filename with a fresh counter and buffer, and logs the filename it
      replaces as having no code (the buffer is always empty there). */
  lemma MarkerLine(marker: Matcher, fence: Matcher, other: Matcher, pre: seq<string>, line: string, n: string)
    requires marker(line) == Some(n)
    ensures var s0 := Scan(marker, fence, pre);
            var s := Scan(marker, fence, pre + [line]);
            && s == Step(marker, other, s0, line)
            && s.current == Some(n) && s.gap == 0 && s.code == []
            && s.filenames == s0.filenames && s.blocks == s0.blocks
            && s.log == s0.log + (if Truthy(s0.current) then [IgnoredNoCode(s0.current.value)] else []) + [Detected(n)]
  {
    ScanSnoc(marker, fence, pre, line);
  }

  /** The gap rule on a fence line: with `k` the counter on that line, the block
      is taken iff `k <= LineLimit`; otherwise `k` is exactly `LineLimit + 1`
      and the "too many lines" message is logged. Either way the filename is
      consumed, and a taken block is the fence's capture exactly. */
  lemma FenceLine(marker: Matcher, fence: Matcher, pre: seq<string>, line: string, c: string)
    requires marker(line) == None && fence(line) == Some(c)
    requires Truthy(Scan(marker, fence, pre).current)
    ensures var s0 := Scan(marker, fence, pre);
            var s := Scan(marker, fence, pre + [line]);
            var k := s0.gap + 1;
            && s.current == None && s.gap == k
            && (k <= LineLimit ==>
                  && s.filenames == s0.filenames + [s0.current.value]
                  && s.blocks == s0.blocks + [c]
                  && s.log == s0.log + [BlockAdded(s0.current.value)])
            && (k > LineLimit ==>
                  && k == LineLimit + 1
                  && s.filenames == s0.filenames && s.blocks == s0.blocks
                  && s.log == s0.log + [TooFar(s0.current.value)])
  {
    ScanSnoc(marker, fence, pre, line);
  }

  // ---------------------------------------------------------------------------
  // Runs of lines
  // ---------------------------------------------------------------------------

  /** `k` copies of the same event. */
  function Repeat(e: Event, k: nat): (r: seq<Event>)
    ensures |r| == k && forall t :: 0 <= t < k ==> r[t] == e
  {
    if k == 0 then [] else Repeat(e, k - 1) + [e]
  }

  /** Lines with neither a marker nor a fence, within the limit, only advance
      the counter. */
  lemma {:induction false} GapRun(marker: Matcher, fence: Matcher, pre: seq<string>, gaps: seq<string>)
    requires Truthy(Scan(marker, fence, pre).current)
    requires Scan(marker, fence, pre).gap + |gaps| <= LineLimit
    requires forall l :: l in gaps ==> marker(l) == None && fence(l) == None
    ensures var s0 := Scan(marker, fence, pre);
            Scan(marker, fence, pre + gaps) == s0.(gap := s0.gap + |gaps|)
    decreases |gaps|
  {
    if |gaps| > 0 {
      var s0 := Scan(marker, fence, pre);
      var init := gaps[..|gaps| - 1];
      var g := gaps[|gaps| - 1];
      assert forall l :: l in init ==> l in gaps;
      GapRun(marker, fence, pre, init);
      var si := Scan(marker, fence, pre + init);
      assert si == s0.(gap := s0.gap + |init|);
      assert pre + gaps == (pre + init) + [g];
      ScanSnoc(marker, fence, pre + init, g);
      assert marker(g) == None && fence(g) == None;
      assert Step(marker, fence, si, g) == si.(gap := si.gap + 1);
    } else {
      assert pre + gaps == pre;
    }
  }

  /** The stale counter: the counter is reset only by a marker line, so once
      a filename has been dropped past the limit, every later non-marker line
      logs the limit message again, now naming `None`, and changes nothing
      else. */
  lemma {:induction false} StaleRun(marker: Matcher, fence: Matcher, pre: seq<string>, rest: seq<string>)
    requires Scan(marker, fence, pre).current == None
    requires Scan(marker, fence, pre).gap > LineLimit
    requires forall l :: l in rest ==> marker(l) == None
    ensures var s0 := Scan(marker, fence, pre);
            Scan(marker, fence, pre + rest) == s0.(log := s0.log + Repeat(LimitExceeded(None), |rest|))
    decreases |rest|
  {
    if |rest| > 0 {
      var s0 := Scan(marker, fence, pre);
      var init := rest[..|rest| - 1];
      var l := rest[|rest| - 1];
      assert forall l :: l in init ==> l in rest;
      StaleRun(marker, fence, pre, init);
      var si := Scan(marker, fence, pre + init);
      assert pre + rest == (pre + init) + [l];
      ScanSnoc(marker, fence, pre + init, l);
      assert marker(l) == None;
      assert Step(marker, fence, si, l) == si.(log := si.log + [LimitExceeded(None)]);
      assert s0.log + Repeat(LimitExceeded(None), |init|) + [LimitExceeded(None)]
          == s0.log + Repeat(LimitExceeded(None), |rest|);
    } else {
      assert pre + rest == pre;
    }
  }

  /** The gap rule from the marker's side: a marker followed by `|gaps|` plain
      lines and then a fence line. The block is taken when the fence is at
      most `LineLimit` lines after the marker; at exactly `LineLimit + 1` it
      is refused as too far; further away the limit check has already dropped
      the filename, and every plain line after that, the fence line included,
      repeats the limit message naming `None`. */
  lemma GapBoundary(marker: Matcher, fence: Matcher, pre: seq<string>, ml: string, gaps: seq<string>,
                    fl: string, n: string, c: string)
    requires marker(ml) == Some(n) && n != []
    requires forall l :: l in gaps ==> marker(l) == None && fence(l) == None
    requires marker(fl) == None && fence(fl) == Some(c)
    ensures var sm := Scan(marker, fence, pre + [ml]);
            var s := Scan(marker, fence, pre + [ml] + gaps + [fl]);
            && s.current == None
            && (|gaps| + 1 <= LineLimit ==>
                  && s.filenames == sm.filenames + [n] && s.blocks == sm.blocks + [c]
                  && s.log == sm.log + [BlockAdded(n)])
            && (|gaps| + 1 == LineLimit + 1 ==>
                  && s.filenames == sm.filenames && s.blocks == sm.blocks
                  && s.log == sm.log + [TooFar(n)])
            && (|gaps| + 1 > LineLimit + 1 ==>
                  && s.filenames == sm.filenames && s.blocks == sm.blocks
                  && s.log == sm.log + [LimitExceeded(Some(n))] + Repeat(LimitExceeded(None), |gaps| - LineLimit))
  {
    var m := pre + [ml];
    MarkerLine(marker, fence, fence, pre, ml, n);
    if |gaps| <= LineLimit {
      GapRun(marker, fence, m, gaps);
      FenceLine(marker, fence, m + gaps, fl, c);
      assert m + gaps + [fl] == pre + [ml] + gaps + [fl];
    } else {
      FarFence(marker, fence, m, gaps, fl, n);
    }
  }

  /** The plain line at which the counter passes the limit drops the name. */
  lemma DropStep(marker: Matcher, fence: Matcher, s: State, g: string)
    requires Truthy(s.current) && s.gap == LineLimit
    requires marker(g) == None && fence(g) == None
    ensures Step(marker, fence, s, g)
              == s.(current := None, gap := LineLimit + 1, code := [], log := s.log + [LimitExceeded(s.current)])
  {
  }

  /** `LineLimit + 1` plain lines after a marker drop its name. */
  lemma FarDrop(marker: Matcher, fence: Matcher, m: seq<string>, gaps: seq<string>, n: string)
    requires Scan(marker, fence, m).current == Some(n) && n != [] && Scan(marker, fence, m).gap == 0
    requires |gaps| == LineLimit + 1
    requires forall l :: l in gaps ==> marker(l) == None && fence(l) == None
    ensures var sm := Scan(marker, fence, m);
            Scan(marker, fence, m + gaps)
              == sm.(current := None, gap := LineLimit + 1, log := sm.log + [LimitExceeded(Some(n))])
  {
    var sm := Scan(marker, fence, m);
    var head := gaps[..LineLimit];
    var g := gaps[LineLimit];
    assert forall l :: l in head ==> l in gaps;
    GapRun(marker, fence, m, head);
    var sh := Scan(marker, fence, m + head);
    ScanSnoc(marker, fence, m + head, g);
    DropStep(marker, fence, sh, g);
    assert m + gaps == m + head + [g];
  }

  lemma NoMarkerInTail(marker: Matcher, gaps: seq<string>, k: nat, fl: string)
    requires k <= |gaps|
    requires forall l :: l in gaps ==> marker(l) == None
    requires marker(fl) == None
    ensures forall l :: l in gaps[k..] + [fl] ==> marker(l) == None
  {
    assert forall l :: l in gaps[k..] ==> l in gaps;
  }

  lemma {:induction false} FarFence(marker: Matcher, fence: Matcher, m: seq<string>, gaps: seq<string>, fl: string, n: string)
    requires Scan(marker, fence, m).current == Some(n) && n != [] && Scan(marker, fence, m).gap == 0
    requires |gaps| > LineLimit
    requires forall l :: l in gaps ==> marker(l) == None && fence(l) == None
    requires marker(fl) == None
    ensures var sm := Scan(marker, fence, m);
            Scan(marker, fence, m + gaps + [fl])
              == sm.(current := None, gap := LineLimit + 1,
                     log := sm.log + [LimitExceeded(Some(n))] + Repeat(LimitExceeded(None), |gaps| - LineLimit))
  {
    var sm := Scan(marker, fence, m);
    var near := gaps[..LineLimit + 1];
    var tail := gaps[LineLimit + 1..] + [fl];
    var sd := sm.(current := None, gap := LineLimit + 1, log := sm.log + [LimitExceeded(Some(n))]);
    assert Scan(marker, fence, m + near) == sd by {
      assert forall l :: l in near ==> l in gaps;
      FarDrop(marker, fence, m, near, n);
    }
    assert Scan(marker, fence, (m + near) + tail) == sd.(log := sd.log + Repeat(LimitExceeded(None), |tail|)) by {
      NoMarkerInTail(marker, gaps, LineLimit + 1, fl);
      StaleRun(marker, fence, m + near, tail);
    }
    assert m + gaps + [fl] == (m + near) + tail by {
      assert gaps == near + gaps[LineLimit + 1..];
    }
  }

  // ---------------------------------------------------------------------------
  // Declarative reference for the outputs
  // ---------------------------------------------------------------------------

  /** Index of the last marker line in `lines`. */
  function LastMarker(marker: Matcher, lines: seq<string>): (r: Option<nat>)
    ensures r.Some? ==> r.value < |lines| && marker(lines[r.value]).Some?
    ensures r.Some? ==> forall t :: r.value < t < |lines| ==> marker(lines[t]).None?
    ensures r.None? ==> forall t :: 0 <= t < |lines| ==> marker(lines[t]).None?
    decreases |lines|
  {
    if |lines| == 0 then None
    else if marker(lines[|lines| - 1]).Some? then Some(|lines| - 1)
    else LastMarker(marker, lines[..|lines| - 1])
  }

  /** No line strictly between `i` and `j` matches the fence. */
  ghost predicate NoFenceBetween(fence: Matcher, lines: seq<string>, i: nat, j: nat)
    requires j <= |lines|
  {
    forall t :: i < t < j ==> fence(lines[t]).None?
  }

  /** The filename still waiting for code after `lines`: the last marker's name,
      if it is non-empty, no fence line followed it and it is at most
      `LineLimit` lines back. */
  ghost function Pending(marker: Matcher, fence: Matcher, lines: seq<string>): Option<string>
  {
    match LastMarker(marker, lines)
    case None => None
    case Some(i) =>
      if Truthy(marker(lines[i])) && |lines| - 1 - i <= LineLimit && NoFenceBetween(fence, lines, i, |lines|)
      then marker(lines[i]) else None
  }

  /** The last line of `lines` yields a code block: it is a fence line, not a
      marker line, and the nearest marker before it has a non-empty name, is at
      most `LineLimit` lines back and has no fence line in between. */
  ghost predicate EmitsLast(marker: Matcher, fence: Matcher, lines: seq<string>)
    requires |lines| > 0
  {
    var j := |lines| - 1;
    && marker(lines[j]).None?
    && fence(lines[j]).Some?
    && match LastMarker(marker, lines[..j])
       case None => false
       case Some(i) =>
         Truthy(marker(lines[i])) && j - i <= LineLimit && NoFenceBetween(fence, lines, i, j)
  }

  /** The filenames the reference says are produced, in line order. */
  ghost function RefNames(marker: Matcher, fence: Matcher, lines: seq<string>): seq<string>
    decreases |lines|
  {
    if |lines| == 0 then []
    else
      var init := lines[..|lines| - 1];
      RefNames(marker, fence, init) +
      if EmitsLast(marker, fence, lines) then [marker(lines[LastMarker(marker, init).value]).value] else []
  }

  /** The code blocks the reference says are produced: each fence's capture. */
  ghost function RefBlocks(marker: Matcher, fence: Matcher, lines: seq<string>): seq<string>
    decreases |lines|
  {
    if |lines| == 0 then []
    else
      RefBlocks(marker, fence, lines[..|lines| - 1]) +
      if EmitsLast(marker, fence, lines) then [fence(lines[|lines| - 1]).value] else []
  }

  /** The scan state agrees with the reference: same outputs, and the active
      filename is exactly the pending one, with the counter equal to its
      distance from the last line. */
  ghost predicate Agrees(marker: Matcher, fence: Matcher, lines: seq<string>, s: State) {
    && s.filenames == RefNames(marker, fence, lines)
    && s.blocks == RefBlocks(marker, fence, lines)
    && (Truthy(s.current) <==> Pending(marker, fence, lines).Some?)
    && (Pending(marker, fence, lines).Some? ==>
          s.current == Pending(marker, fence, lines) &&
          s.gap == |lines| - 1 - LastMarker(marker, lines).value)
  }

  lemma StepAgrees(marker: Matcher, fence: Matcher, q: seq<string>, l: string)
    requires Agrees(marker, fence, q, Scan(marker, fence, q))
    ensures Agrees(marker, fence, q + [l], Scan(marker, fence, q + [l]))
  {
    var lines := q + [l];
    var j := |q|;
    assert lines[..j] == q;
    ScanSnoc(marker, fence, q, l);
    var s := Scan(marker, fence, q);
    if marker(l).None? {
      assert LastMarker(marker, lines) == LastMarker(marker, q);
      match LastMarker(marker, q)
      case None =>
      case Some(i) =>
        assert lines[i] == q[i];
        if fence(l).Some? {
          assert !NoFenceBetween(fence, lines, i, |lines|) by {
            assert lines[j] == l;
          }
        } else {
          assert NoFenceBetween(fence, lines, i, |lines|) <==> NoFenceBetween(fence, q, i, |q|) by {
            assert forall t :: i < t < |q| ==> lines[t] == q[t];
          }
        }
        assert NoFenceBetween(fence, lines, i, j) <==> NoFenceBetween(fence, q, i, |q|) by {
          assert forall t :: i < t < |q| ==> lines[t] == q[t];
        }
    }
  }

  /** The scan computes exactly the reference outputs: each filename is the
      one captured by the nearest marker line before its fence line, each
      block is that fence line's capture, and they appear in line order. */
  lemma {:induction false} ScanMatchesReference(marker: Matcher, fence: Matcher, lines: seq<string>)
    ensures Scan(marker, fence, lines).filenames == RefNames(marker, fence, lines)
    ensures Scan(marker, fence, lines).blocks == RefBlocks(marker, fence, lines)
    ensures Agrees(marker, fence, lines, Scan(marker, fence, lines))
    decreases |lines|
  {
    if |lines| > 0 {
      var q := lines[..|lines| - 1];
      ScanMatchesReference(marker, fence, q);
      StepAgrees(marker, fence, q, lines[|lines| - 1]);
      assert q + [lines[|lines| - 1]] == lines;
    }
  }

  /** Without a fence line there is no output at all. */
  lemma {:induction false} NoFenceNoPairs(marker: Matcher, fence: Matcher, lines: seq<string>)
    requires forall t :: 0 <= t < |lines| ==> fence(lines[t]).None?
    ensures Scan(marker, fence, lines).filenames == []
    ensures Scan(marker, fence, lines).blocks == []
    decreases |lines|
  {
    if |lines| > 0 {
      var q := lines[..|lines| - 1];
      forall t | 0 <= t < |q| ensures fence(q[t]).None? {
        assert q[t] == lines[t];
      }
      NoFenceNoPairs(marker, fence, q);
      ScanSnoc(marker, fence, q, lines[|lines| - 1]);
      assert q + [lines[|lines| - 1]] == lines;
    }
  }

  // ---------------------------------------------------------------------------
  // Counting
  // ---------------------------------------------------------------------------

  /** Number of marker lines. */
  function MarkerCount(marker: Matcher, lines: seq<string>): nat
    decreases |lines|
  {
    if |lines| == 0 then 0
    else MarkerCount(marker, lines[..|lines| - 1]) + if marker(lines[|lines| - 1]).Some? then 1 else 0
  }

  /** Each marker line contributes at most one output pair; a filename still
      waiting for its code is one more marker not yet used. */
  lemma {:induction false} AtMostOnePerMarker(marker: Matcher, fence: Matcher, lines: seq<string>)
    ensures var s := Scan(marker, fence, lines);
            |s.filenames| + (if Truthy(s.current) then 1 else 0) <= MarkerCount(marker, lines)
    decreases |lines|
  {
    if |lines| > 0 {
      AtMostOnePerMarker(marker, fence, lines[..|lines| - 1]);
    }
  }
}

/** The two fixed regular expressions of the extractor, each modelled as the
    `re.search` that runs it on one scanned line: the leftmost start position
    wins, and at a position the alternatives are tried in the written order.

    Filename marker:  (?:Filename:\s*`([^`]+)`|'([^'\s]+)'|"([^"\s]+)")
    Code fence:       ```(?:python|html|css|javascript|js|txt)?\n([\s\S]*?)```
*/
module Patterns {
  import opened Options
  import opened Text

  // ---------------------------------------------------------------------------
  // Scanning helpers
  // ---------------------------------------------------------------------------

  /** First index at or after `p` whose character satisfies `stop`, or `|line|`. */
  function ScanUntil(line: string, p: nat, stop: char -> bool): (r: nat)
    requires p <= |line|
    ensures p <= r <= |line|
    ensures forall t :: p <= t < r ==> !stop(line[t])
    ensures r < |line| ==> stop(line[r])
    decreases |line| - p
  {
    if p == |line| || stop(line[p]) then p else ScanUntil(line, p + 1, stop)
  }

  /** `\s*` is greedy and the pattern continues with a non-space, so it always
      consumes the whole run of whitespace. */
  function SkipSpaces(line: string, p: nat): (r: nat)
    requires p <= |line|
    ensures p <= r <= |line|
    ensures forall t :: p <= t < r ==> IsSpace(line[t])
    ensures r < |line| ==> !IsSpace(line[r])
  {
    ScanUntil(line, p, c => !IsSpace(c))
  }

  // ---------------------------------------------------------------------------
  // Filename marker
  // ---------------------------------------------------------------------------

  const Label := "Filename:"

  /** First alternative, Filename:\s*`([^`]+)`, tried at position `i`. */
  function LabelledAt(line: string, i: nat): Option<string>
  {
    if i + |Label| <= |line| && line[i..i + |Label|] == Label then
      var p := SkipSpaces(line, i + |Label|);
      if p < |line| && line[p] == '`' then
        var q := ScanUntil(line, p + 1, c => c == '`');
        if q < |line| && p + 1 < q then Some(line[p + 1..q]) else None
      else None
    else None
  }

  /** Second and third alternatives, '([^'\s]+)' and "([^"\s]+)", at `i`. */
  function QuotedAt(line: string, i: nat, quote: char): Option<string>
  {
    if i < |line| && line[i] == quote then
      var q := ScanUntil(line, i + 1, c => c == quote || IsSpace(c));
      if q < |line| && line[q] == quote && i + 1 < q then Some(line[i + 1..q]) else None
    else None
  }

  /** The whole marker pattern anchored at `i`: alternatives in written order.
      The captured name is the one non-empty group, which is what
      `group(1) or group(2) or group(3)` selects. */
  function MarkerAt(line: string, i: nat): (r: Option<string>)
    ensures r.Some? ==> r.value != []
  {
    match LabelledAt(line, i)
    case Some(n) => Some(n)
    case None =>
      match QuotedAt(line, i, '\'')
      case Some(n) => Some(n)
      case None => QuotedAt(line, i, '"')
  }

  /** `re.search` from position `i` onwards. */
  function MarkerFrom(line: string, i: nat): (r: Option<string>)
    requires i <= |line|
    ensures r.Some? ==> r.value != []
    decreases |line| - i
  {
    if i == |line| then None
    else
      match MarkerAt(line, i)
      case Some(n) => Some(n)
      case None => MarkerFrom(line, i + 1)
  }

  /** The filename marker search on one line; `Some(name)` is a match. */
  function MarkerSearch(line: string): (r: Option<string>)
    ensures r.Some? ==> r.value != []
  {
    MarkerFrom(line, 0)
  }

  /** Declarative shape of a match of the first alternative at `i`: the label,
      a run of whitespace up to the backtick at `p`, a non-empty run of
      non-backticks, and the closing backtick at `q`. */
  ghost predicate LabelledShape(line: string, i: nat, p: nat, q: nat) {
    && i + |Label| <= p < q < |line|
    && line[i..i + |Label|] == Label
    && (forall t :: i + |Label| <= t < p ==> IsSpace(line[t]))
    && line[p] == '`' && line[q] == '`' && p + 1 < q
    && (forall t :: p < t < q ==> line[t] != '`')
  }

  /** Declarative shape of a quoted match at `i` closed at `q`. */
  ghost predicate QuotedShape(line: string, i: nat, quote: char, q: nat) {
    && i + 1 < q < |line|
    && line[i] == quote && line[q] == quote
    && (forall t :: i < t < q ==> line[t] != quote && !IsSpace(line[t]))
  }

  /** The first alternative matches at `i` exactly when the declarative shape
      holds, and it captures the text between the backticks. */
  lemma LabelledAtExact(line: string, i: nat, n: string)
    ensures LabelledAt(line, i) == Some(n) <==>
            exists p: nat, q: nat :: LabelledShape(line, i, p, q) && n == line[p + 1..q]
  {
    if exists p: nat, q: nat :: LabelledShape(line, i, p, q) && n == line[p + 1..q] {
      var p: nat, q: nat :| LabelledShape(line, i, p, q) && n == line[p + 1..q];
      assert SkipSpaces(line, i + |Label|) == p;
      assert ScanUntil(line, p + 1, c => c == '`') == q;
    }
    if LabelledAt(line, i) == Some(n) {
      var p := SkipSpaces(line, i + |Label|);
      var q := ScanUntil(line, p + 1, c => c == '`');
      assert LabelledShape(line, i, p, q);
    }
  }

  /** A quoted alternative matches at `i` exactly when the declarative shape
      holds, and it captures the text between the quotes. */
  lemma QuotedAtExact(line: string, i: nat, quote: char, n: string)
    ensures QuotedAt(line, i, quote) == Some(n) <==>
            exists q: nat :: QuotedShape(line, i, quote, q) && n == line[i + 1..q]
  {
    if exists q: nat :: QuotedShape(line, i, quote, q) && n == line[i + 1..q] {
      var q: nat :| QuotedShape(line, i, quote, q) && n == line[i + 1..q];
      assert ScanUntil(line, i + 1, c => c == quote || IsSpace(c)) == q;
    }
    if QuotedAt(line, i, quote) == Some(n) {
      var q := ScanUntil(line, i + 1, c => c == quote || IsSpace(c));
      assert QuotedShape(line, i, quote, q);
    }
  }

  /** Position `k` is the first position at or after `i` where the marker
      matches, and it captures `n`. */
  ghost predicate FirstMarkerAt(line: string, i: nat, k: nat, n: string) {
    && i <= k < |line|
    && MarkerAt(line, k) == Some(n)
    && forall j :: i <= j < k ==> MarkerAt(line, j).None?
  }

  /** `re.search` semantics: the search succeeds with `n` exactly when some
      position matches with `n` and no earlier position matches at all. */
  lemma {:induction false} MarkerFromLeftmost(line: string, i: nat, n: string)
    requires i <= |line|
    ensures MarkerFrom(line, i) == Some(n) <==> exists k: nat :: FirstMarkerAt(line, i, k, n)
    decreases |line| - i
  {
    if i < |line| {
      MarkerFromLeftmost(line, i + 1, n);
      if MarkerFrom(line, i) == Some(n) {
        if MarkerAt(line, i).Some? {
          assert FirstMarkerAt(line, i, i, n);
        } else {
          var k: nat :| FirstMarkerAt(line, i + 1, k, n);
          assert FirstMarkerAt(line, i, k, n);
        }
      }
      if exists k: nat :: FirstMarkerAt(line, i, k, n) {
        var k: nat :| FirstMarkerAt(line, i, k, n);
        if k > i {
          assert MarkerAt(line, i).None?;
          assert FirstMarkerAt(line, i + 1, k, n);
        }
      }
    }
  }

  /** Whole-line form of the leftmost rule. */
  lemma MarkerSearchLeftmost(line: string, n: string)
    ensures MarkerSearch(line) == Some(n) <==> exists k: nat :: FirstMarkerAt(line, 0, k, n)
  {
    MarkerFromLeftmost(line, 0, n);
  }

  // ---------------------------------------------------------------------------
  // Code fence
  // ---------------------------------------------------------------------------

  const Ticks := "```"

  /** The optional language tag: `(?:python|…|txt)?` is greedy, so the listed
      tags are tried in order before the empty option. */
  const TagOptions: seq<string> := ["python", "html", "css", "javascript", "js", "txt", ""]

  /** Three backticks start at index `k` of `s`. */
  predicate TicksAt(s: string, k: int) {
    0 <= k && k + 3 <= |s| && s[k] == '`' && s[k + 1] == '`' && s[k + 2] == '`'
  }

  /** No occurrence of the closing ticks inside `s`. */
  ghost predicate NoTicks(s: string) {
    forall k :: !TicksAt(s, k)
  }

  /** First index `j >= p` where the ticks start, if any. */
  function FindTicks(line: string, p: nat): (r: Option<nat>)
    requires p <= |line|
    ensures r.Some? ==> p <= r.value && TicksAt(line, r.value)
    ensures r.Some? ==> forall k :: p <= k < r.value ==> !TicksAt(line, k)
    ensures r.None? ==> forall k :: p <= k ==> !TicksAt(line, k)
    decreases |line| - p
  {
    if p + 3 > |line| then None
    else if TicksAt(line, p) then Some(p)
    else FindTicks(line, p + 1)
  }

  /** The fence at `i` with one choice of tag: the opening ticks, the tag, a
      newline, then the shortest content up to the next ticks (`[\s\S]*?`). */
  function FenceWithTag(line: string, i: nat, tag: string): (r: Option<string>)
    ensures r.Some? ==> '\n' in line
    ensures r.Some? ==> NoTicks(r.value)
  {
    var c := i + |Ticks| + |tag| + 1;
    if c <= |line| && line[i..i + |Ticks|] == Ticks && line[i + |Ticks|..c - 1] == tag && line[c - 1] == '\n' then
      match FindTicks(line, c)
      case Some(j) =>
        assert NoTicks(line[c..j]) by {
          forall k | TicksAt(line[c..j], k) ensures false {
            assert TicksAt(line, c + k);
          }
        }
        Some(line[c..j])
      case None => None
    else None
  }

  /** Declarative shape of a fence match at `i` with `tag`, closed by the
      ticks at `j`: opening ticks, the tag, a newline ending at `c`, and the
      first ticks at or after `c` starting at `j`. */
  ghost predicate FenceShape(line: string, i: nat, tag: string, j: nat) {
    var c := i + |Ticks| + |tag| + 1;
    && c <= j && TicksAt(line, j)
    && line[i..i + |Ticks|] == Ticks && line[i + |Ticks|..c - 1] == tag && line[c - 1] == '\n'
    && forall k :: c <= k < j ==> !TicksAt(line, k)
  }

  /** The fence with one tag matches at `i` exactly when the declarative shape
      holds, and it captures what lies between the newline and the closing
      ticks, the shortest such run. */
  lemma FenceWithTagExact(line: string, i: nat, tag: string, b: string)
    ensures FenceWithTag(line, i, tag) == Some(b) <==>
            exists j: nat :: FenceShape(line, i, tag, j) && b == line[i + |Ticks| + |tag| + 1..j]
  {
    var c := i + |Ticks| + |tag| + 1;
    if exists j: nat :: FenceShape(line, i, tag, j) && b == line[c..j] {
      var j: nat :| FenceShape(line, i, tag, j) && b == line[c..j];
      assert FindTicks(line, c) == Some(j);
    }
    if FenceWithTag(line, i, tag) == Some(b) {
      var j := FindTicks(line, c).value;
      assert FenceShape(line, i, tag, j);
    }
  }

  /** Backtracking through the tag options in order. */
  function FenceWithTags(line: string, i: nat, tags: seq<string>): (r: Option<string>)
    ensures r.Some? ==> '\n' in line
    ensures r.Some? ==> NoTicks(r.value)
    decreases |tags|
  {
    if |tags| == 0 then None
    else
      match FenceWithTag(line, i, tags[0])
      case Some(b) => Some(b)
      case None => FenceWithTags(line, i, tags[1..])
  }

  /** `re.search` of the fence from position `i` onwards. */
  function FenceFrom(line: string, i: nat): (r: Option<string>)
    requires i <= |line|
    ensures r.Some? ==> '\n' in line
    ensures r.Some? ==> NoTicks(r.value)
    decreases |line| - i
  {
    if i == |line| then None
    else
      match FenceWithTags(line, i, TagOptions)
      case Some(b) => Some(b)
      case None => FenceFrom(line, i + 1)
  }

  /** The fence search on one line; `Some(content)` is a match with group 1. */
  function FenceSearch(line: string): (r: Option<string>)
    ensures r.Some? ==> '\n' in line
    ensures r.Some? ==> NoTicks(r.value)
  {
    FenceFrom(line, 0)
  }

  /** Tag `t` is the first of `tags` with which the fence matches at `i`,
      capturing `b`. */
  ghost predicate FirstTag(line: string, i: nat, tags: seq<string>, t: nat, b: string) {
    && t < |tags|
    && FenceWithTag(line, i, tags[t]) == Some(b)
    && forall u :: 0 <= u < t ==> FenceWithTag(line, i, tags[u]).None?
  }

  /** The alternation of tags succeeds with `b` exactly when some tag does and
      no earlier tag matches at all. */
  lemma {:induction false} FenceWithTagsFirst(line: string, i: nat, tags: seq<string>, b: string)
    ensures FenceWithTags(line, i, tags) == Some(b) <==> exists t: nat :: FirstTag(line, i, tags, t, b)
    decreases |tags|
  {
    if |tags| > 0 {
      var rest := tags[1..];
      FenceWithTagsFirst(line, i, rest, b);
      if FenceWithTags(line, i, tags) == Some(b) {
        if FenceWithTag(line, i, tags[0]).Some? {
          assert FirstTag(line, i, tags, 0, b);
        } else {
          var t: nat :| FirstTag(line, i, rest, t, b);
          assert FirstTag(line, i, tags, t + 1, b) by {
            forall u | 0 <= u < t + 1 ensures FenceWithTag(line, i, tags[u]).None? {
              if u > 0 { assert tags[u] == rest[u - 1]; }
            }
          }
        }
      }
      if exists t: nat :: FirstTag(line, i, tags, t, b) {
        var t: nat :| FirstTag(line, i, tags, t, b);
        if t > 0 {
          assert FenceWithTag(line, i, tags[0]).None?;
          assert FirstTag(line, i, rest, t - 1, b) by {
            forall u | 0 <= u < t - 1 ensures FenceWithTag(line, i, rest[u]).None? {
              assert rest[u] == tags[u + 1];
            }
          }
        }
      }
    }
  }

  /** Position `k` is the first position at or after `i` where the fence
      matches, and it captures `b`. */
  ghost predicate FirstFenceAt(line: string, i: nat, k: nat, b: string) {
    && i <= k < |line|
    && FenceWithTags(line, k, TagOptions) == Some(b)
    && forall j :: i <= j < k ==> FenceWithTags(line, j, TagOptions).None?
  }

  /** `re.search` semantics for the fence: leftmost position first. */
  lemma {:induction false} FenceFromLeftmost(line: string, i: nat, b: string)
    requires i <= |line|
    ensures FenceFrom(line, i) == Some(b) <==> exists k: nat :: FirstFenceAt(line, i, k, b)
    decreases |line| - i
  {
    if i < |line| {
      FenceFromLeftmost(line, i + 1, b);
      if FenceFrom(line, i) == Some(b) {
        if FenceWithTags(line, i, TagOptions).Some? {
          assert FirstFenceAt(line, i, i, b);
        } else {
          var k: nat :| FirstFenceAt(line, i + 1, k, b);
          assert FirstFenceAt(line, i, k, b);
        }
      }
      if exists k: nat :: FirstFenceAt(line, i, k, b) {
        var k: nat :| FirstFenceAt(line, i, k, b);
        if k > i {
          assert FenceWithTags(line, i, TagOptions).None?;
          assert FirstFenceAt(line, i + 1, k, b);
        }
      }
    }
  }

  /** The fence pattern needs a newline after the opening ticks and the
      optional language tag, so on a line without one it never matches. */
  lemma NoNewlineNoFence(line: string)
    requires '\n' !in line
    ensures FenceSearch(line) == None
  {
  }

  /** Every alternative of the marker pattern opens with `F`, a single quote
      or a double quote, so a line with none of them has no marker. */
  lemma {:induction false} NoOpenerNoMarkerFrom(line: string, i: nat)
    requires i <= |line|
    requires 'F' !in line && '\'' !in line && '"' !in line
    ensures MarkerFrom(line, i) == None
    decreases |line| - i
  {
    if i < |line| {
      assert line[i] in line;
      if i + |Label| <= |line| {
        assert line[i..i + |Label|][0] == line[i];
      }
      NoOpenerNoMarkerFrom(line, i + 1);
    }
  }

  lemma NoOpenerNoMarker(line: string)
    requires 'F' !in line && '\'' !in line && '"' !in line
    ensures MarkerSearch(line) == None
  {
    NoOpenerNoMarkerFrom(line, 0);
  }

  // ---------------------------------------------------------------------------
  // Worked examples
  // ---------------------------------------------------------------------------

  /** A labelled marker captures the text between the backticks. */
  lemma LabelledExample()
    ensures MarkerSearch("Filename: `a.py`") == Some("a.py")
  {
    var line := "Filename: `a.py`";
    assert LabelledShape(line, 0, 10, 15);
    LabelledAtExact(line, 0, "a.py");
  }

  /** The same text with its newlines kept, as one string, does match the
      fence: the capture runs from after the tag's newline to the ticks. */
  lemma FenceExample()
    ensures FenceSearch("```python\nprint(1)\n```") == Some("print(1)\n")
  {
    var line := "```python\nprint(1)\n```";
    assert line[0..3] == Ticks && line[3..9] == "python" && line[9] == '\n';
    assert FindTicks(line, 19) == Some(19);
    assert FindTicks(line, 17) == Some(19);
    assert FindTicks(line, 15) == Some(19);
    assert FindTicks(line, 13) == Some(19);
    assert FindTicks(line, 11) == Some(19);
    assert FindTicks(line, 10) == Some(19);
    assert line[10..19] == "print(1)\n";
    assert FenceWithTag(line, 0, "python") == Some("print(1)\n");
    assert FenceWithTags(line, 0, TagOptions) == Some("print(1)\n");
  }
}

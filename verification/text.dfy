/** The few string operations of Python's `str` that the extractor relies on:
    the `\s` character class, `str.split(sep)` with a one-character separator
    and `sep.join(pieces)`. */
module Text {

  /** Python's `\s` for `str` patterns: the characters `str.isspace()` accepts. */
  predicate IsSpace(c: char) {
    var n := c as int;
    || 0x09 <= n <= 0x0D
    || 0x1C <= n <= 0x20
    || n == 0x85 || n == 0xA0 || n == 0x1680
    || 0x2000 <= n <= 0x200A
    || n == 0x2028 || n == 0x2029 || n == 0x202F || n == 0x205F || n == 0x3000
  }

  /** `sep.join(pieces)`: the pieces with `sep` between each neighbouring pair. */
  function Join(pieces: seq<string>, sep: string): string
    decreases |pieces|
  {
    if |pieces| == 0 then ""
    else if |pieces| == 1 then pieces[0]
    else pieces[0] + sep + Join(pieces[1..], sep)
  }

  /** `s.split(sep)` for a one-character separator: the maximal runs between
      separators, one more piece than there are separators, none of them
      containing the separator (`"".split("\n") == [""]`). */
  function Split(s: string, sep: char): (r: seq<string>)
    ensures |r| >= 1
    ensures forall k :: 0 <= k < |r| ==> sep !in r[k]
    decreases |s|
  {
    if |s| == 0 then [""]
    else
      var rest := Split(s[1..], sep);
      if s[0] == sep then [""] + rest
      else [[s[0]] + rest[0]] + rest[1..]
  }

  /** Number of occurrences of `c` in `s`. */
  function Count(s: string, c: char): nat
    decreases |s|
  {
    if |s| == 0 then 0 else (if s[0] == c then 1 else 0) + Count(s[1..], c)
  }

  lemma JoinCons(p: string, ps: seq<string>, sep: string)
    requires |ps| >= 1
    ensures Join([p] + ps, sep) == p + sep + Join(ps, sep)
  {
    assert ([p] + ps)[1..] == ps;
  }

  /** Splitting on `sep` yields one piece per separator plus one. */
  lemma {:induction false} SplitCount(s: string, sep: char)
    ensures |Split(s, sep)| == Count(s, sep) + 1
    decreases |s|
  {
    if |s| > 0 {
      SplitCount(s[1..], sep);
    }
  }

  /** Joining the pieces of a split with the separator gives the text back. */
  lemma {:induction false} JoinSplit(s: string, sep: char)
    ensures Join(Split(s, sep), [sep]) == s
    decreases |s|
  {
    if |s| > 0 {
      var rest := Split(s[1..], sep);
      JoinSplit(s[1..], sep);
      if s[0] == sep {
        JoinCons("", rest, [sep]);
      } else if |rest| == 1 {
        assert Split(s, sep) == [[s[0]] + rest[0]];
      } else {
        assert rest == [rest[0]] + rest[1..];
        JoinCons(rest[0], rest[1..], [sep]);
        JoinCons([s[0]] + rest[0], rest[1..], [sep]);
      }
    }
  }

  /** Conversely, splitting a join of separator-free pieces recovers the pieces. */
  lemma {:induction false} SplitJoin(ps: seq<string>, sep: char)
    requires |ps| >= 1
    requires forall k :: 0 <= k < |ps| ==> sep !in ps[k]
    ensures Split(Join(ps, [sep]), sep) == ps
    decreases |ps|, |ps[0]|
  {
    if |ps[0]| > 0 {
      var p := ps[0];
      var ps' := [p[1..]] + ps[1..];
      assert p == [p[0]] + p[1..];
      assert forall k :: 0 <= k < |ps'| ==> sep !in ps'[k] by {
        forall k | 0 <= k < |ps'| ensures sep !in ps'[k] {
          if k > 0 { assert ps'[k] == ps[k]; }
        }
      }
      SplitJoin(ps', sep);
      var j := Join(ps, [sep]);
      if |ps| == 1 {
        assert j == p;
        assert j[1..] == Join(ps', [sep]);
      } else {
        JoinCons(p, ps[1..], [sep]);
        JoinCons(p[1..], ps[1..], [sep]);
        assert ps == [p] + ps[1..];
        assert j[1..] == Join(ps', [sep]);
      }
      assert j[0] == p[0];
      assert Split(j, sep) == [[p[0]] + p[1..]] + ps[1..];
      assert ps == [p] + ps[1..];
    } else if |ps| > 1 {
      SplitJoin(ps[1..], sep);
      JoinCons("", ps[1..], [sep]);
      var j := Join(ps, [sep]);
      assert ps == [""] + ps[1..];
      assert j == [sep] + Join(ps[1..], [sep]);
      assert j[1..] == Join(ps[1..], [sep]);
    }
  }
}

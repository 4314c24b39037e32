/**
 Splitting a string on the paragraph separator "\n\n" the way JavaScript's
 `String.prototype.split` does with a string separator (leftmost,
 non-overlapping matches), and joining strings with a separator the way
 `Array.prototype.join` does.
 */
module TextSplit {

  /** The paragraph separator: a blank line. */
  const Sep: string := "\n\n"

  /** The separator occurs in `s` starting at index `i`. */
  predicate SepAt(s: string, i: int)
  {
    0 <= i && i + 1 < |s| && s[i] == '\n' && s[i + 1] == '\n'
  }

  predicate ContainsSep(s: string)
  {
    exists i | 0 <= i < |s| :: SepAt(s, i)
  }

  predicate EndsWithNewline(s: string)
  {
    |s| > 0 && s[|s| - 1] == '\n'
  }

  /**
   The shape of every result of a leftmost, non-overlapping split: at least
   one piece, no piece holds the separator, and no piece but the last ends
   with a newline (otherwise the separator would have matched one character
   earlier, straddling that piece and the separator after it).
   */
  predicate WellSplit(ps: seq<string>)
  {
    |ps| >= 1
    && (forall i :: 0 <= i < |ps| ==> !ContainsSep(ps[i]))
    && (forall i :: 0 <= i < |ps| - 1 ==> !EndsWithNewline(ps[i]))
  }

  /** `ps.join(sep)`: the empty list joins to the empty string. */
  function Join(ps: seq<string>, sep: string): string
  {
    if |ps| == 0 then ""
    else if |ps| == 1 then ps[0]
    else ps[0] + sep + Join(ps[1..], sep)
  }

  /**
   `s.split("\n\n")`. The scan looks for the separator at the first position;
   if it is there, the first piece is empty and the scan resumes after it;
   otherwise the first character belongs to the first piece of the rest.
   */
  function Split(s: string): (r: seq<string>)
    ensures |r| >= 1
    decreases |s|
  {
    if |s| < 2 then [s]
    else if s[0] == '\n' && s[1] == '\n' then [""] + Split(s[2..])
    else
      var rest := Split(s[1..]);
      [[s[0]] + rest[0]] + rest[1..]
  }

  /** Joining the pieces back with the separator gives the original string. */
  lemma {:induction false} JoinSplit(s: string)
    ensures Join(Split(s), Sep) == s
    decreases |s|
  {
    if |s| < 2 {
    } else if s[0] == '\n' && s[1] == '\n' {
      JoinSplit(s[2..]);
      var r := Split(s[2..]);
      assert Split(s) == [""] + r;
      assert ([""] + r)[1..] == r;
      assert s == Sep + s[2..];
    } else {
      JoinSplit(s[1..]);
      var rest := Split(s[1..]);
      var r := [[s[0]] + rest[0]] + rest[1..];
      assert Split(s) == r;
      assert s == [s[0]] + s[1..];
      if |rest| > 1 {
        assert r[1..] == rest[1..];
      }
    }
  }

  /** A piece without the separator, in front of well-formed pieces, keeps them well formed. */
  lemma WellSplitCons(p: string, ps: seq<string>)
    requires ps == [] || WellSplit(ps)
    requires !ContainsSep(p) && (ps != [] ==> !EndsWithNewline(p))
    ensures WellSplit([p] + ps)
  {
    var r := [p] + ps;
    assert forall i :: 0 < i < |r| ==> r[i] == ps[i - 1];
  }

  lemma WellSplitTail(ps: seq<string>)
    requires WellSplit(ps) && |ps| > 1
    ensures WellSplit(ps[1..])
  {
    assert forall i :: 0 <= i < |ps| - 1 ==> ps[1..][i] == ps[i + 1];
  }

  lemma NoSepEmpty()
    ensures !ContainsSep("")
  {
    forall i ensures !SepAt("", i) { }
  }

  /** The first piece of a split is a prefix, followed by the separator when more pieces follow. */
  lemma SplitHead(t: string)
    ensures Split(t)[0] <= t
    ensures |Split(t)| > 1 ==> t == Split(t)[0] + Sep + Join(Split(t)[1..], Sep)
  {
    JoinSplit(t);
  }

  /** Every result of `Split` has the shape `WellSplit` describes. */
  lemma {:induction false} SplitWellFormed(s: string)
    ensures WellSplit(Split(s))
    decreases |s|
  {
    if |s| < 2 {
      assert !ContainsSep(s) by {
        forall i ensures !SepAt(s, i) { }
      }
    } else if s[0] == '\n' && s[1] == '\n' {
      SplitWellFormed(s[2..]);
      NoSepEmpty();
      WellSplitCons("", Split(s[2..]));
    } else {
      var t := s[1..];
      SplitWellFormed(t);
      SplitHead(t);
      var rest := Split(t);
      var first := [s[0]] + rest[0];
      assert Split(s) == [first] + rest[1..];
      ConsNoSep(s[0], rest[0], t);
      if |rest| > 1 {
        WellSplitTail(rest);
        assert !EndsWithNewline(first) by {
          if rest[0] == "" {
            assert t[0] == '\n';
          } else {
            assert first[|first| - 1] == rest[0][|rest[0]| - 1];
          }
        }
      }
      WellSplitCons(first, rest[1..]);
    }
  }

  /** A character put in front of a prefix of `t` without the separator adds none, unless it starts one with `t`. */
  lemma ConsNoSep(c: char, r: string, t: string)
    requires !ContainsSep(r) && r <= t
    requires !(c == '\n' && |t| > 0 && t[0] == '\n')
    ensures !ContainsSep([c] + r)
  {
    var first := [c] + r;
    forall i ensures !SepAt(first, i) {
      if i > 0 {
        assert !SepAt(r, i - 1);
      } else if |r| > 0 {
        assert first[1] == t[0];
      }
    }
  }

  /** A string without the separator is split into itself alone. */
  lemma {:induction false} SplitNoSep(p: string)
    requires !ContainsSep(p)
    ensures Split(p) == [p]
    decreases |p|
  {
    if |p| >= 2 {
      assert !SepAt(p, 0);
      var t := p[1..];
      assert !ContainsSep(t) by {
        forall i ensures !SepAt(t, i) {
          assert !SepAt(p, i + 1);
        }
      }
      SplitNoSep(t);
      assert [p[0]] + t == p;
    }
  }

  /** A well-formed first piece followed by the separator is split off as it is. */
  lemma {:induction false} SplitPrefix(p: string, t: string)
    requires !ContainsSep(p) && !EndsWithNewline(p)
    ensures Split(p + Sep + t) == [p] + Split(t)
    decreases |p|
  {
    var s := p + Sep + t;
    if |p| == 0 {
      assert s == Sep + t;
      assert s[2..] == t;
    } else {
      assert !(s[0] == '\n' && s[1] == '\n') by {
        if |p| >= 2 {
          assert !SepAt(p, 0);
        }
      }
      var q := p[1..];
      assert !ContainsSep(q) by {
        forall i ensures !SepAt(q, i) {
          assert !SepAt(p, i + 1);
        }
      }
      assert !EndsWithNewline(q);
      SplitPrefix(q, t);
      assert s[1..] == q + Sep + t;
      assert [s[0]] + q == p;
    }
  }

  /**
   The converse round trip: pieces of the shape a split produces are
   recovered by splitting their join. With `JoinSplit` and
   `SplitWellFormed`, `Split(s)` is the one well-formed list that joins to `s`.
   */
  lemma {:induction false} SplitJoin(ps: seq<string>)
    requires WellSplit(ps)
    ensures Split(Join(ps, Sep)) == ps
    decreases |ps|
  {
    if |ps| == 1 {
      SplitNoSep(ps[0]);
    } else {
      assert WellSplit(ps[1..]);
      SplitJoin(ps[1..]);
      SplitPrefix(ps[0], Join(ps[1..], Sep));
      assert [ps[0]] + ps[1..] == ps;
    }
  }
}

/**
 The paragraph chunker `splitText` of the audit endpoint. The text is split
 into paragraphs on "\n\n"; paragraphs are appended, each followed by
 "\n\n", to a running chunk, and the running chunk is closed whenever the
 running chunk plus the next paragraph (without its separator) would be
 longer than `maxTokens * 4` characters. The last running chunk is closed
 at the end if it is non-empty.

 The specification works on groups of paragraphs: `Fold` is the chunker's
 loop over the paragraphs, keeping the closed groups and the open one;
 `Greedy` describes its result independently, and `FoldGreedy` and
 `GreedyUnique` show the two agree.
 */
module Chunker {
  import opened TextSplit

  /** The limit the audit endpoint passes, in tokens. */
  const MaxChunkTokens: int := 3000

  /** The size estimate: one token is taken to be four characters. */
  const CharsPerToken: int := 4

  /** The text of a chunk holding the paragraphs `g`: each one followed by the separator. */
  function Render(g: seq<string>): string
  {
    if g == [] then "" else Render(g[..|g| - 1]) + g[|g| - 1] + Sep
  }

  /** The chunks of a list of groups. */
  function RenderAll(gs: seq<seq<string>>): seq<string>
  {
    seq(|gs|, i requires 0 <= i < |gs| => Render(gs[i]))
  }

  /** All groups one after the other. */
  function Flatten(gs: seq<seq<string>>): seq<string>
  {
    if gs == [] then [] else Flatten(gs[..|gs| - 1]) + gs[|gs| - 1]
  }

  /** All chunks one after the other. */
  function Concat(cs: seq<string>): string
  {
    if cs == [] then "" else Concat(cs[..|cs| - 1]) + cs[|cs| - 1]
  }

  /** The loop state of the chunker: the groups already pushed, and the group in the running chunk. */
  datatype Acc = Acc(closed: seq<seq<string>>, open: seq<string>)

  /** One turn of the loop: close the running chunk if adding `para` would pass the limit. */
  function Step(a: Acc, para: string, limit: int): Acc
  {
    if |Render(a.open) + para| > limit then Acc(a.closed + [a.open], [para])
    else Acc(a.closed, a.open + [para])
  }

  /** The loop state after the paragraphs `ps`. */
  function Fold(ps: seq<string>, limit: int): Acc
  {
    if ps == [] then Acc([], [])
    else Step(Fold(ps[..|ps| - 1], limit), ps[|ps| - 1], limit)
  }

  /** The groups pushed, including the final flush of a non-empty running chunk. */
  function Groups(ps: seq<string>, limit: int): seq<seq<string>>
  {
    var a := Fold(ps, limit);
    if Render(a.open) != "" then a.closed + [a.open] else a.closed
  }

  /** The chunks `splitText(text, maxTokens)` returns. */
  function Chunks(text: string, maxTokens: int): seq<string>
  {
    RenderAll(Groups(Split(text), maxTokens * CharsPerToken))
  }

  /**
   The greedy grouping of the paragraphs `ps`, described without reference to
   the loop: the groups make up `ps` (`Partition`), every paragraph that
   joins a group without opening a later one fits (`Fits`), and a group is
   closed only because the first paragraph of the next one does not fit
   (`Forced`).
   */
  predicate Greedy(gs: seq<seq<string>>, ps: seq<string>, limit: int)
  {
    Partition(gs, ps) && Fits(gs, limit) && Forced(gs, limit)
  }

  /** The groups lie one after the other and make up `ps`; only the first may be empty. */
  predicate Partition(gs: seq<seq<string>>, ps: seq<string>)
  {
    |gs| >= 1 && Flatten(gs) == ps && gs[|gs| - 1] != []
    && (forall i :: 0 < i < |gs| ==> gs[i] != [])
  }

  /** Paragraph `k` of the group `g`, added after the ones before it, keeps the running chunk within `limit`. */
  predicate FitsAt(g: seq<string>, k: int, limit: int)
    requires 0 <= k < |g|
  {
    |Render(g[..k]) + g[k]| <= limit
  }

  /** Every paragraph fits where it is, except the first of each group after the first. */
  predicate Fits(gs: seq<seq<string>>, limit: int)
  {
    forall i, k :: 0 <= i < |gs| && 0 <= k < |gs[i]| && (i == 0 || k > 0) ==> FitsAt(gs[i], k, limit)
  }

  /** Group `j` is non-empty and its first paragraph does not fit after group `j - 1`. */
  predicate ClosedBefore(gs: seq<seq<string>>, j: int, limit: int)
    requires 0 < j < |gs|
  {
    gs[j] != [] && |Render(gs[j - 1]) + gs[j][0]| > limit
  }

  /** Every group but the last was closed because the next paragraph did not fit. */
  predicate Forced(gs: seq<seq<string>>, limit: int)
  {
    forall j :: 0 < j < |gs| ==> ClosedBefore(gs, j, limit)
  }

  // ---------------------------------------------------------------------------
  // Helpers about Render, Flatten and Concat

  lemma {:induction false} RenderAppend(a: seq<string>, b: seq<string>)
    ensures Render(a + b) == Render(a) + Render(b)
    decreases |b|
  {
    if b == [] {
      assert a + b == a;
    } else {
      var b' := b[..|b| - 1];
      var x := b[|b| - 1];
      RenderAppend(a, b');
      assert (a + b)[..|a + b| - 1] == a + b';
      assert (a + b)[|a + b| - 1] == x;
      var ra, rb := Render(a), Render(b');
      calc {
        Render(a + b);
        Render(a + b') + x + Sep;
        ra + rb + x + Sep;
        { assert ra + rb + x + Sep == ra + (rb + x + Sep); }
        ra + (rb + x + Sep);
        Render(a) + Render(b);
      }
    }
  }

  lemma RenderEmpty(g: seq<string>)
    ensures Render(g) == "" <==> g == []
  {
  }

  lemma RenderSingle(p: string)
    ensures Render([p]) == p + Sep
  {
    assert [p][..0] == [];
  }

  /** The chunk of a paragraph list is its join plus a trailing separator. */
  lemma {:induction false} RenderJoin(ps: seq<string>)
    requires |ps| >= 1
    ensures Render(ps) == Join(ps, Sep) + Sep
    decreases |ps|
  {
    RenderSingle(ps[0]);
    if |ps| > 1 {
      RenderJoin(ps[1..]);
      RenderAppend([ps[0]], ps[1..]);
      assert [ps[0]] + ps[1..] == ps;
    }
  }

  lemma {:induction false} ConcatRenderAll(gs: seq<seq<string>>)
    ensures Concat(RenderAll(gs)) == Render(Flatten(gs))
    decreases |gs|
  {
    if gs != [] {
      var gs' := gs[..|gs| - 1];
      ConcatRenderAll(gs');
      assert RenderAll(gs)[..|gs| - 1] == RenderAll(gs');
      RenderAppend(Flatten(gs'), gs[|gs| - 1]);
    }
  }

  lemma {:induction false} FlattenAppend(a: seq<seq<string>>, b: seq<seq<string>>)
    ensures Flatten(a + b) == Flatten(a) + Flatten(b)
    decreases |b|
  {
    if b == [] {
      assert a + b == a;
    } else {
      var b' := b[..|b| - 1];
      FlattenAppend(a, b');
      assert (a + b)[..|a + b| - 1] == a + b';
    }
  }

  lemma {:induction false} FlattenEmpty(gs: seq<seq<string>>)
    requires Flatten(gs) == []
    ensures forall i :: 0 <= i < |gs| ==> gs[i] == []
    decreases |gs|
  {
    if gs != [] {
      FlattenEmpty(gs[..|gs| - 1]);
      assert forall i :: 0 <= i < |gs| - 1 ==> gs[i] == gs[..|gs| - 1][i];
    }
  }

  /** Paragraph `k` of group `i` is paragraph `|Flatten(gs[..i])| + k` of the whole list. */
  lemma FlattenIndex(gs: seq<seq<string>>, i: int, k: int)
    requires 0 <= i < |gs| && 0 <= k < |gs[i]|
    ensures |Flatten(gs[..i])| + k < |Flatten(gs)|
    ensures Flatten(gs)[|Flatten(gs[..i])| + k] == gs[i][k]
  {
    assert gs == gs[..i] + [gs[i]] + gs[i + 1..];
    FlattenAppend(gs[..i] + [gs[i]], gs[i + 1..]);
    FlattenAppend(gs[..i], [gs[i]]);
    assert [gs[i]][..0] == [];
  }

  /** Groups after the first are non-empty, so there are at most one more of them than paragraphs. */
  lemma {:induction false} GroupCount(gs: seq<seq<string>>)
    requires forall i :: 0 < i < |gs| ==> gs[i] != []
    ensures |gs| <= |Flatten(gs)| + 1
    decreases |gs|
  {
    if |gs| > 1 {
      GroupCount(gs[..|gs| - 1]);
    }
  }


  // ---------------------------------------------------------------------------
  // The loop computes the greedy grouping, and only it

  /** Closing the last group and opening one with `p` keeps the grouping greedy, when `p` does not fit. */
  lemma GreedyExtendNew(gs: seq<seq<string>>, ps: seq<string>, p: string, limit: int)
    requires Greedy(gs, ps, limit)
    requires |Render(gs[|gs| - 1]) + p| > limit
    ensures Greedy(gs + [[p]], ps + [p], limit)
  {
    var gs2 := gs + [[p]];
    assert Partition(gs2, ps + [p]) by {
      assert gs2[..|gs2| - 1] == gs;
    }
    assert Fits(gs2, limit) by {
      forall i, k | 0 <= i < |gs2| && 0 <= k < |gs2[i]| && (i == 0 || k > 0)
        ensures FitsAt(gs2[i], k, limit)
      {
        assert i < |gs|;
        assert gs2[i] == gs[i];
        assert FitsAt(gs[i], k, limit);
      }
    }
    assert Forced(gs2, limit) by {
      forall j | 0 < j < |gs2|
        ensures ClosedBefore(gs2, j, limit)
      {
        if j < |gs| {
          assert ClosedBefore(gs, j, limit);
          assert gs2[j - 1] == gs[j - 1] && gs2[j] == gs[j];
        } else {
          assert gs2[j - 1] == gs[|gs| - 1] && gs2[j] == [p];
        }
      }
    }
  }

  /** Adding `p` to the last group keeps the grouping greedy, when `p` fits. */
  lemma GreedyExtendLast(gs: seq<seq<string>>, ps: seq<string>, p: string, limit: int)
    requires Greedy(gs, ps, limit)
    requires |Render(gs[|gs| - 1]) + p| <= limit
    ensures Greedy(gs[..|gs| - 1] + [gs[|gs| - 1] + [p]], ps + [p], limit)
  {
    var m := |gs|;
    var front := gs[..m - 1];
    var o := gs[m - 1];
    var o2 := o + [p];
    var gs2 := front + [o2];
    assert Partition(gs2, ps + [p]) by {
      assert gs2[..m - 1] == front;
      assert Flatten(gs) == Flatten(front) + o;
    }
    assert Fits(gs2, limit) by {
      forall i, k | 0 <= i < m && 0 <= k < |gs2[i]| && (i == 0 || k > 0)
        ensures FitsAt(gs2[i], k, limit)
      {
        if i < m - 1 {
          assert gs2[i] == gs[i];
          assert FitsAt(gs[i], k, limit);
        } else if k < |o| {
          assert gs2[i][..k] == o[..k] && gs2[i][k] == o[k];
          assert FitsAt(gs[i], k, limit);
        } else {
          assert gs2[i][..k] == o && gs2[i][k] == p;
        }
      }
    }
    assert Forced(gs2, limit) by {
      forall j | 0 < j < m
        ensures ClosedBefore(gs2, j, limit)
      {
        assert ClosedBefore(gs, j, limit);
        assert gs2[j - 1] == gs[j - 1];
        assert gs2[j][0] == gs[j][0];
      }
    }
  }

  /** A paragraph longer than the limit, alone, is greedily grouped after an empty group. */
  lemma GreedyOversized(p: string, limit: int)
    requires |p| > limit
    ensures Greedy([[], [p]], [p], limit)
  {
    var e: seq<seq<string>> := [[]];
    var gs := e + [[p]];
    assert gs == [[], [p]];
    assert Partition(gs, [p]) by {
      assert gs[..1] == e;
      assert e[..0] == [];
    }
    assert Fits(gs, limit);
    assert Forced(gs, limit) by {
      assert ClosedBefore(gs, 1, limit);
    }
  }

  /** A paragraph within the limit, alone, is greedily grouped by itself. */
  lemma GreedyFitting(p: string, limit: int)
    requires |p| <= limit
    ensures Greedy([[p]], [p], limit)
  {
    var gs: seq<seq<string>> := [[p]];
    assert Partition(gs, [p]) by {
      assert gs[..0] == [];
    }
    assert Fits(gs, limit) by {
      assert [p][..0] == [];
      assert FitsAt([p], 0, limit);
    }
  }

  /** The loop state after one paragraph: it is pushed after an empty chunk exactly when it is too long. */
  lemma FoldOne(p: string, limit: int)
    ensures Fold([p], limit) == if |p| > limit then Acc([[]], [p]) else Acc([], [p])
    ensures Greedy(Fold([p], limit).closed + [Fold([p], limit).open], [p], limit)
  {
    assert [p][..0] == [];
    if |p| > limit {
      GreedyOversized(p, limit);
    } else {
      GreedyFitting(p, limit);
    }
  }

  /** After at least one paragraph, the loop state is the greedy grouping with its last group open. */
  lemma {:induction false} FoldGreedy(ps: seq<string>, limit: int)
    requires |ps| >= 1
    ensures Fold(ps, limit).open != []
    ensures Greedy(Fold(ps, limit).closed + [Fold(ps, limit).open], ps, limit)
    decreases |ps|
  {
    var n := |ps|;
    var p := ps[n - 1];
    var ps' := ps[..n - 1];
    assert ps == ps' + [p];
    if n == 1 {
      FoldOne(p, limit);
    } else {
      FoldGreedy(ps', limit);
      var a := Fold(ps', limit);
      var gs := a.closed + [a.open];
      assert gs[|gs| - 1] == a.open;
      if |Render(a.open) + p| > limit {
        GreedyExtendNew(gs, ps', p, limit);
        assert Fold(ps, limit) == Acc(gs, [p]);
      } else {
        GreedyExtendLast(gs, ps', p, limit);
        assert gs[..|gs| - 1] == a.closed;
        assert Fold(ps, limit) == Acc(a.closed, a.open + [p]);
      }
    }
  }

  /** Dropping the last paragraph from a last group of two or more keeps the grouping greedy. */
  lemma GreedyDropInGroup(gs: seq<seq<string>>, ps: seq<string>, limit: int)
    requires Greedy(gs, ps, limit)
    requires |gs[|gs| - 1]| >= 2
    ensures |ps| >= 2 && ps[|ps| - 1] == gs[|gs| - 1][|gs[|gs| - 1]| - 1]
    ensures var L := gs[|gs| - 1];
      Greedy(gs[..|gs| - 1] + [L[..|L| - 1]], ps[..|ps| - 1], limit)
  {
    DropInGroupPartition(gs, ps);
    DropInGroupFits(gs, limit);
    DropInGroupForced(gs, limit);
  }

  lemma DropInGroupPartition(gs: seq<seq<string>>, ps: seq<string>)
    requires Partition(gs, ps)
    requires |gs[|gs| - 1]| >= 2
    ensures |ps| >= 2 && ps[|ps| - 1] == gs[|gs| - 1][|gs[|gs| - 1]| - 1]
    ensures var L := gs[|gs| - 1];
      Partition(gs[..|gs| - 1] + [L[..|L| - 1]], ps[..|ps| - 1])
  {
    var m := |gs|;
    var front := gs[..m - 1];
    var L := gs[m - 1];
    var L' := L[..|L| - 1];
    var gs2 := front + [L'];
    assert Flatten(gs) == Flatten(front) + L;
    assert L == L' + [L[|L| - 1]];
    assert ps == Flatten(front) + L' + [L[|L| - 1]];
    assert gs2[..m - 1] == front;
    assert ps[..|ps| - 1] == Flatten(front) + L';
  }

  lemma DropInGroupFits(gs: seq<seq<string>>, limit: int)
    requires Fits(gs, limit)
    requires |gs| >= 1 && |gs[|gs| - 1]| >= 2
    ensures var L := gs[|gs| - 1];
      Fits(gs[..|gs| - 1] + [L[..|L| - 1]], limit)
  {
    var m := |gs|;
    var L := gs[m - 1];
    var gs2 := gs[..m - 1] + [L[..|L| - 1]];
    forall i, k | 0 <= i < m && 0 <= k < |gs2[i]| && (i == 0 || k > 0)
      ensures FitsAt(gs2[i], k, limit)
    {
      assert FitsAt(gs[i], k, limit);
      if i < m - 1 {
        assert gs2[i] == gs[i];
      } else {
        assert gs2[i][..k] == L[..k] && gs2[i][k] == L[k];
      }
    }
  }

  lemma DropInGroupForced(gs: seq<seq<string>>, limit: int)
    requires Forced(gs, limit)
    requires |gs| >= 1 && |gs[|gs| - 1]| >= 2
    ensures var L := gs[|gs| - 1];
      Forced(gs[..|gs| - 1] + [L[..|L| - 1]], limit)
  {
    var m := |gs|;
    var L := gs[m - 1];
    var gs2 := gs[..m - 1] + [L[..|L| - 1]];
    forall j | 0 < j < m
      ensures ClosedBefore(gs2, j, limit)
    {
      assert ClosedBefore(gs, j, limit);
      assert gs2[j - 1] == gs[j - 1];
      assert gs2[j][0] == gs[j][0];
    }
  }

  /** Dropping a last group of one paragraph keeps the grouping greedy, when another paragraph remains. */
  lemma GreedyDropGroup(gs: seq<seq<string>>, ps: seq<string>, limit: int)
    requires Greedy(gs, ps, limit)
    requires |gs| >= 2 && |gs[|gs| - 1]| == 1 && |ps| >= 2
    ensures ps[|ps| - 1] == gs[|gs| - 1][0]
    ensures Greedy(gs[..|gs| - 1], ps[..|ps| - 1], limit)
  {
    var m := |gs|;
    var front := gs[..m - 1];
    var L := gs[m - 1];
    assert Flatten(gs) == Flatten(front) + L;
    assert ps == Flatten(front) + L;
    assert ps[..|ps| - 1] == Flatten(front);
    assert Partition(front, ps[..|ps| - 1]) by {
      assert front[|front| - 1] == gs[m - 2];
      if m == 2 {
        assert front == [gs[0]];
        assert [gs[0]][..0] == [];
      }
    }
    assert Fits(front, limit) by {
      forall i, k | 0 <= i < m - 1 && 0 <= k < |front[i]| && (i == 0 || k > 0)
        ensures FitsAt(front[i], k, limit)
      {
        assert front[i] == gs[i];
        assert FitsAt(gs[i], k, limit);
      }
    }
    assert Forced(front, limit) by {
      forall j | 0 < j < m - 1
        ensures ClosedBefore(front, j, limit)
      {
        assert ClosedBefore(gs, j, limit);
        assert front[j - 1] == gs[j - 1] && front[j] == gs[j];
      }
    }
  }

  /** The loop step that adds a paragraph to the running chunk. */
  lemma StepAppend(front: seq<seq<string>>, L: seq<string>, limit: int)
    requires |L| >= 2
    requires |Render(L[..|L| - 1]) + L[|L| - 1]| <= limit
    ensures Step(Acc(front, L[..|L| - 1]), L[|L| - 1], limit) == Acc(front, L)
  {
    assert L[..|L| - 1] + [L[|L| - 1]] == L;
  }

  /** The loop step that closes the running chunk and opens one with the paragraph. */
  lemma StepClose(front: seq<seq<string>>, p: string, limit: int)
    requires |front| >= 1
    requires |Render(front[|front| - 1]) + p| > limit
    ensures Step(Acc(front[..|front| - 1], front[|front| - 1]), p, limit) == Acc(front, [p])
  {
    assert front[..|front| - 1] + [front[|front| - 1]] == front;
  }

  /** Any greedy grouping of `ps` is the loop state after `ps`, with its last group open. */
  lemma {:induction false} GreedyFold(gs: seq<seq<string>>, ps: seq<string>, limit: int)
    requires Greedy(gs, ps, limit)
    ensures Fold(ps, limit) == Acc(gs[..|gs| - 1], gs[|gs| - 1])
    decreases |ps|, 1
  {
    var m := |gs|;
    if |gs[m - 1]| >= 2 {
      GreedyFoldInGroup(gs, ps, limit);
    } else if m == 1 {
      assert gs[0][..0] == [];
      assert FitsAt(gs[0], 0, limit);
      GreedyFoldSingle(gs, ps, limit);
    } else if |ps| == 1 {
      GreedyFoldFirstEmpty(gs, ps, limit);
    } else {
      GreedyFoldNewGroup(gs, ps, limit);
    }
  }

  /** `GreedyFold` when the last paragraph joined the last group. */
  lemma {:induction false} GreedyFoldInGroup(gs: seq<seq<string>>, ps: seq<string>, limit: int)
    requires Greedy(gs, ps, limit) && |gs[|gs| - 1]| >= 2
    ensures Fold(ps, limit) == Acc(gs[..|gs| - 1], gs[|gs| - 1])
    decreases |ps|, 0
  {
    var m := |gs|;
    var L := gs[m - 1];
    var front := gs[..m - 1];
    GreedyDropInGroup(gs, ps, limit);
    var gs' := front + [L[..|L| - 1]];
    GreedyFold(gs', ps[..|ps| - 1], limit);
    assert gs'[..m - 1] == front;
    assert FitsAt(L, |L| - 1, limit);
    StepAppend(front, L, limit);
  }

  /** `GreedyFold` when an empty first group precedes the only paragraph. */
  lemma GreedyFoldFirstEmpty(gs: seq<seq<string>>, ps: seq<string>, limit: int)
    requires Greedy(gs, ps, limit) && |gs| >= 2 && |ps| == 1
    ensures Fold(ps, limit) == Acc(gs[..|gs| - 1], gs[|gs| - 1])
  {
    FirstEmptyShape(gs, ps);
    assert ClosedBefore(gs, 1, limit);
    FoldOne(ps[0], limit);
    assert ps == [ps[0]];
    var e: seq<seq<string>> := [[]];
    assert gs[..1] == e;
  }

  /** `GreedyFold` when the last paragraph opened a group of its own after other paragraphs. */
  lemma {:induction false} GreedyFoldNewGroup(gs: seq<seq<string>>, ps: seq<string>, limit: int)
    requires Greedy(gs, ps, limit) && |gs| >= 2 && |gs[|gs| - 1]| == 1 && |ps| >= 2
    ensures Fold(ps, limit) == Acc(gs[..|gs| - 1], gs[|gs| - 1])
    decreases |ps|, 0
  {
    var m := |gs|;
    var front := gs[..m - 1];
    GreedyDropGroup(gs, ps, limit);
    GreedyFold(front, ps[..|ps| - 1], limit);
    assert front[..m - 2] == gs[..m - 2];
    assert ClosedBefore(gs, m - 1, limit);
    StepClose(front, ps[|ps| - 1], limit);
    assert gs[m - 1] == [gs[m - 1][0]];
  }

  /** A greedy grouping of one paragraph that has more than one group is an empty group and that paragraph. */
  lemma FirstEmptyShape(gs: seq<seq<string>>, ps: seq<string>)
    requires Partition(gs, ps) && |gs| >= 2 && |ps| == 1
    ensures gs == [[], ps]
  {
    var m := |gs|;
    var front := gs[..m - 1];
    var L := gs[m - 1];
    assert Flatten(gs) == Flatten(front) + L;
    assert |Flatten(front)| == 0;
    FlattenEmpty(front);
    assert front[0] == gs[0];
    assert L == ps;
    assert m == 2;
    assert gs == [gs[0], L];
  }

  /** `GreedyFold` when there is one group, of one paragraph. */
  lemma GreedyFoldSingle(gs: seq<seq<string>>, ps: seq<string>, limit: int)
    requires Partition(gs, ps) && |gs| == 1 && |gs[0]| == 1
    requires |Render([]) + gs[0][0]| <= limit
    ensures Fold(ps, limit) == Acc([], gs[0])
  {
    var L := gs[0];
    var one: seq<seq<string>> := [L];
    assert gs == one;
    assert one[..0] == [];
    assert Flatten(one) == Flatten(one[..0]) + L;
    assert ps == L;
    FoldOne(L[0], limit);
    assert ps == [L[0]];
  }

  /** The groups the chunker pushes form the greedy grouping of the paragraphs. */
  lemma GroupsGreedy(ps: seq<string>, limit: int)
    requires |ps| >= 1
    ensures Greedy(Groups(ps, limit), ps, limit)
  {
    FoldGreedy(ps, limit);
    RenderEmpty(Fold(ps, limit).open);
  }

  /** The greedy grouping is unique: it is the one the chunker pushes. */
  lemma GreedyUnique(gs: seq<seq<string>>, ps: seq<string>, limit: int)
    requires Greedy(gs, ps, limit)
    ensures gs == Groups(ps, limit)
  {
    GreedyFold(gs, ps, limit);
    RenderEmpty(gs[|gs| - 1]);
    assert gs[..|gs| - 1] + [gs[|gs| - 1]] == gs;
  }

  // ---------------------------------------------------------------------------
  // What splitText promises about its chunks

  /** `s` ends with the separator. */
  predicate EndsWithSep(s: string)
  {
    |s| >= 2 && s[|s| - 2..] == Sep
  }

  lemma RenderEndsWithSep(g: seq<string>)
    requires g != []
    ensures EndsWithSep(Render(g))
  {
    var r := Render(g[..|g| - 1]) + g[|g| - 1];
    assert Render(g) == r + Sep;
    assert (r + Sep)[|r + Sep| - 2..] == Sep;
  }

  /** The chunk `c` is one of the paragraphs `ps` followed by the separator. */
  ghost predicate OneParagraph(c: string, ps: seq<string>)
  {
    exists j :: 0 <= j < |ps| && c == ps[j] + Sep
  }

  /** The shape of the chunks of any greedy grouping; see `ChunksShape`. */
  lemma GreedyShape(gs: seq<seq<string>>, ps: seq<string>, limit: int)
    requires Greedy(gs, ps, limit)
    ensures var cs := RenderAll(gs);
      |cs| >= 1 && cs[|cs| - 1] != ""
      && (forall i :: 0 < i < |cs| ==> cs[i] != "")
      && (forall i :: 0 <= i < |cs| && cs[i] != "" ==> EndsWithSep(cs[i]))
      && |cs| <= |ps| + 1
  {
    var cs := RenderAll(gs);
    RenderEmpty(gs[|gs| - 1]);
    forall i | 0 < i < |cs| ensures cs[i] != "" {
      RenderEmpty(gs[i]);
    }
    forall i | 0 <= i < |cs| && cs[i] != "" ensures EndsWithSep(cs[i]) {
      RenderEmpty(gs[i]);
      RenderEndsWithSep(gs[i]);
    }
    GroupCount(gs);
  }

  /** The first chunk of a greedy grouping is empty exactly when the first paragraph does not fit. */
  lemma GreedyFirstEmpty(gs: seq<seq<string>>, ps: seq<string>, limit: int)
    requires Greedy(gs, ps, limit)
    ensures |ps| >= 1
    ensures Render(gs[0]) == "" <==> |ps[0]| > limit
  {
    RenderEmpty(gs[0]);
    RenderEmpty(gs[|gs| - 1]);
    if gs[0] == [] {
      assert ClosedBefore(gs, 1, limit);
      FlattenIndex(gs, 1, 0);
      var e: seq<seq<string>> := [[]];
      assert gs[..1] == e;
      assert e[..0] == [];
      assert Flatten(e) == [];
    } else {
      assert FitsAt(gs[0], 0, limit);
      FlattenIndex(gs, 0, 0);
      assert gs[0][..0] == [];
    }
  }

  /** The length bound for the chunks of any greedy grouping; see `ChunksBound`. */
  lemma GreedyBound(gs: seq<seq<string>>, ps: seq<string>, limit: int)
    requires Greedy(gs, ps, limit)
    ensures var cs := RenderAll(gs);
      forall i :: 0 <= i < |cs| ==>
        cs[i] == "" || |cs[i]| <= limit + 2 || OneParagraph(cs[i], ps)
  {
    var cs := RenderAll(gs);
    forall i | 0 <= i < |cs|
      ensures cs[i] == "" || |cs[i]| <= limit + 2 || OneParagraph(cs[i], ps)
    {
      var g := gs[i];
      if |g| == 1 {
        FlattenIndex(gs, i, 0);
        RenderSingle(g[0]);
        assert [g[0]] == g;
        var j := |Flatten(gs[..i])|;
        assert cs[i] == ps[j] + Sep;
      } else if |g| >= 2 {
        assert FitsAt(g, |g| - 1, limit);
      }
    }
  }

  /**
   Paragraphs are never split: the chunks are the renderings of the greedy
   grouping of the paragraphs, and those groups, one after the other, are
   exactly the paragraphs of the text.
   */
  lemma ChunksArePartition(text: string, maxTokens: int)
    ensures var gs := Groups(Split(text), maxTokens * CharsPerToken);
      Flatten(gs) == Split(text)
      && Greedy(gs, Split(text), maxTokens * CharsPerToken)
      && Chunks(text, maxTokens) == RenderAll(gs)
  {
    GroupsGreedy(Split(text), maxTokens * CharsPerToken);
  }

  /** The chunks, concatenated, are the text with one separator appended. */
  lemma ChunksConcat(text: string, maxTokens: int)
    ensures Concat(Chunks(text, maxTokens)) == text + Sep
  {
    var ps := Split(text);
    var gs := Groups(ps, maxTokens * CharsPerToken);
    GroupsGreedy(ps, maxTokens * CharsPerToken);
    ConcatRenderAll(gs);
    RenderJoin(ps);
    JoinSplit(text);
  }

  /**
   The shape of the chunks `cs` of the paragraphs `ps`: there is at least one
   chunk and the last one is non-empty; only the first chunk can be empty,
   and it is exactly when the first paragraph alone is longer than `limit`;
   every non-empty chunk ends with the separator; and there is at most one
   chunk more than there are paragraphs.
   */
  predicate WellChunked(cs: seq<string>, ps: seq<string>, limit: int)
  {
    |cs| >= 1 && |ps| >= 1 && cs[|cs| - 1] != ""
    && (forall i :: 0 < i < |cs| ==> cs[i] != "")
    && (forall i :: 0 <= i < |cs| && cs[i] != "" ==> EndsWithSep(cs[i]))
    && (cs[0] == "" <==> |ps[0]| > limit)
    && |cs| <= |ps| + 1
  }

  lemma GreedyWellChunked(gs: seq<seq<string>>, ps: seq<string>, limit: int)
    requires Greedy(gs, ps, limit)
    ensures WellChunked(RenderAll(gs), ps, limit)
  {
    GreedyShape(gs, ps, limit);
    GreedyFirstEmpty(gs, ps, limit);
  }

  /** The chunks of every text have the shape `WellChunked` describes, for the limit `maxTokens * 4`. */
  lemma ChunksShape(text: string, maxTokens: int)
    ensures WellChunked(Chunks(text, maxTokens), Split(text), maxTokens * CharsPerToken)
  {
    var ps := Split(text);
    var limit := maxTokens * CharsPerToken;
    var gs := Groups(ps, limit);
    assert Chunks(text, maxTokens) == RenderAll(gs);
    GroupsGreedy(ps, limit);
    GreedyWellChunked(gs, ps, limit);
  }

  /**
   Every chunk is empty, or at most the limit plus two characters long (the
   length test leaves out the separator about to be appended), or a single
   paragraph followed by the separator.
   */
  lemma ChunksBound(text: string, maxTokens: int)
    ensures var cs := Chunks(text, maxTokens);
      forall i :: 0 <= i < |cs| ==>
        cs[i] == ""
        || |cs[i]| <= maxTokens * CharsPerToken + 2
        || OneParagraph(cs[i], Split(text))
  {
    var ps := Split(text);
    var limit := maxTokens * CharsPerToken;
    var gs := Groups(ps, limit);
    assert Chunks(text, maxTokens) == RenderAll(gs);
    GroupsGreedy(ps, limit);
    GreedyBound(gs, ps, limit);
  }

  /** A text without a blank line that is within the limit comes back as one chunk, with the separator appended. */
  lemma ChunksSingleParagraph(text: string, maxTokens: int)
    requires !ContainsSep(text) && |text| <= maxTokens * CharsPerToken
    ensures Chunks(text, maxTokens) == [text + Sep]
  {
    SplitNoSep(text);
    FoldOne(text, maxTokens * CharsPerToken);
    RenderSingle(text);
  }

  /** The empty text gives the one chunk "\n\n", not an empty list. */
  lemma ChunksEmptyText()
    ensures Chunks("", MaxChunkTokens) == ["\n\n"]
  {
    assert !ContainsSep("");
    ChunksSingleParagraph("", MaxChunkTokens);
    assert "" + Sep == "\n\n";
  }

  /** A first paragraph longer than the limit makes the first chunk the empty string. */
  lemma ChunksOversizedFirst(text: string, maxTokens: int)
    requires |Split(text)[0]| > maxTokens * CharsPerToken
    ensures |Chunks(text, maxTokens)| >= 2 && Chunks(text, maxTokens)[0] == ""
  {
    ChunksShape(text, maxTokens);
  }

  // ---------------------------------------------------------------------------
  // The chunker itself

  lemma FoldPrefix(ps: seq<string>, i: int, limit: int)
    requires 0 <= i < |ps|
    ensures Fold(ps[..i + 1], limit) == Step(Fold(ps[..i], limit), ps[i], limit)
  {
    assert ps[..i + 1][..i] == ps[..i];
  }

  lemma RenderAllSnoc(gs: seq<seq<string>>, g: seq<string>)
    ensures RenderAll(gs + [g]) == RenderAll(gs) + [Render(g)]
  {
  }

  lemma RenderSnoc(g: seq<string>, p: string)
    ensures Render(g + [p]) == Render(g) + (p + Sep)
  {
    assert (g + [p])[..|g|] == g;
  }

  /**
   `splitText(text, maxTokens)`: it returns exactly `Chunks(text, maxTokens)`,
   so the results about `Chunks` above (`ChunksConcat`, `ChunksShape`,
   `ChunksBound`, `ChunksArePartition`) are what it promises.
   */
  method SplitText(text: string, maxTokens: int) returns (chunks: seq<string>)
    ensures chunks == Chunks(text, maxTokens)
  {
    var paragraphs := Split(text);
    ghost var limit := maxTokens * CharsPerToken;
    ghost var acc := Acc([], []);
    chunks := [];
    var currentChunk := "";
    for i := 0 to |paragraphs|
      invariant acc == Fold(paragraphs[..i], limit)
      invariant chunks == RenderAll(acc.closed)
      invariant currentChunk == Render(acc.open)
    {
      var para := paragraphs[i];
      FoldPrefix(paragraphs, i, limit);
      if |currentChunk + para| > maxTokens * 4 {
        chunks := chunks + [currentChunk];
        currentChunk := para + "\n\n";
        RenderAllSnoc(acc.closed, acc.open);
        RenderSingle(para);
      } else {
        currentChunk := currentChunk + (para + "\n\n");
        RenderSnoc(acc.open, para);
      }
      acc := Step(acc, para, limit);
    }
    assert paragraphs[..|paragraphs|] == paragraphs;
    if currentChunk != "" {
      chunks := chunks + [currentChunk];
      RenderAllSnoc(acc.closed, acc.open);
    }
  }
}

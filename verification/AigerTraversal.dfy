/** The explicit stack of the AIGER graph traversals. Blocks of pending variables are separated by
    the 0 that is pushed after a variable is entered; the entered variable stays below its 0. */
module AigerTraversal {
  import opened Sequences
  import opened AigerNetwork

  function Last(s: seq<nat>): nat
    requires s != []
  {
    s[|s| - 1]
  }

  function ButLast<T>(s: seq<T>): seq<T>
    requires s != []
  {
    s[..|s| - 1]
  }

  /** The stack below the top block. */
  function Under(below: seq<seq<nat>>): seq<nat> {
    if below == [] then [] else Under(ButLast(below)) + below[|below| - 1] + [0]
  }

  lemma UnderMore(below: seq<seq<nat>>, block: seq<nat>)
    ensures Under(below + [block]) == Under(below) + block + [0]
  {
    assert ButLast(below + [block]) == below;
  }

  predicate NonEmptyBlocks(below: seq<seq<nat>>) {
    forall k :: 0 <= k < |below| ==> below[k] != []
  }

  /** The entered variables, outermost first. */
  function Entered(below: seq<seq<nat>>): (r: seq<nat>)
    requires NonEmptyBlocks(below)
    ensures |r| == |below| && forall k :: 0 <= k < |below| ==> r[k] == Last(below[k])
  {
    seq(|below|, k requires 0 <= k < |below| => Last(below[k]))
  }

  /** What is left to visit below v: inputs of v, and all of its gates that are not done. */
  ghost predicate Pending(ands: seq<And>, v: nat, block: seq<nat>, done: seq<nat>) {
    && (forall c :: c in block ==> Feeds(ands, v, c))
    && (forall c :: Feeds(ands, v, c) && IsGate(ands, c) ==> c in done || c in block)
  }

  function Block(below: seq<seq<nat>>, top: seq<nat>, k: nat): seq<nat>
    requires k <= |below|
  {
    if k < |below| then below[k] else top
  }

  ghost predicate Stacked(ands: seq<And>, root: nat, below: seq<seq<nat>>, top: seq<nat>, done: seq<nat>) {
    && root != 0 && NonEmptyBlocks(below)
    && (forall c :: c in Block(below, top, 0) ==> c == root)
    && (forall k :: 0 <= k < |below| ==> Pending(ands, Last(below[k]), Block(below, top, k + 1), done))
  }

  /** Every entered variable feeds on the next one, and the innermost one on whatever is on top. */
  lemma EnteredChain(ands: seq<And>, root: nat, below: seq<seq<nat>>, top: seq<nat>, done: seq<nat>, k: nat)
    requires Stacked(ands, root, below, top, done) && k < |below|
    requires Block(below, top, k + 1) != []
    ensures Feeds(ands, Last(below[k]), Last(Block(below, top, k + 1)))
  {
    assert Last(Block(below, top, k + 1)) in Block(below, top, k + 1);
  }

  lemma PendingWithoutLast(ands: seq<And>, v: nat, block: seq<nat>, done: seq<nat>)
    requires Pending(ands, v, block, done) && block != []
    requires Last(block) in done || !IsGate(ands, Last(block))
    ensures Pending(ands, v, ButLast(block), done)
  {
    assert block == ButLast(block) + [Last(block)];
  }

  /** A variable on top that is gone from the agenda. */
  lemma Dismissed(ands: seq<And>, root: nat, below: seq<seq<nat>>, top: seq<nat>, done: seq<nat>)
    requires Stacked(ands, root, below, top, done) && top != []
    requires Last(top) in done || !IsGate(ands, Last(top))
    ensures Stacked(ands, root, below, ButLast(top), done)
  {
    assert forall c :: c in Block(below, ButLast(top), 0) ==> c in Block(below, top, 0);
    forall k | 0 <= k < |below|
      ensures Pending(ands, Last(below[k]), Block(below, ButLast(top), k + 1), done)
    {
      assert Pending(ands, Last(below[k]), Block(below, top, k + 1), done);
      if k + 1 == |below| { PendingWithoutLast(ands, Last(below[k]), top, done); }
    }
  }

  lemma EnteredMore(below: seq<seq<nat>>, top: seq<nat>)
    requires NonEmptyBlocks(below) && top != []
    ensures NonEmptyBlocks(below + [top]) && Entered(below + [top]) == Entered(below) + [Last(top)]
  {
  }

  /** The variable on top is entered. */
  lemma Entering(ands: seq<And>, root: nat, below: seq<seq<nat>>, top: seq<nat>, done: seq<nat>, block: seq<nat>)
    requires Stacked(ands, root, below, top, done) && top != []
    requires Pending(ands, Last(top), block, done)
    ensures Stacked(ands, root, below + [top], block, done)
    ensures Under(below + [top]) == Under(below) + top + [0]
    ensures Entered(below + [top]) == Entered(below) + [Last(top)]
  {
    UnderMore(below, top);
    EnteredMore(below, top);
    var more := below + [top];
    forall k | 0 <= k < |more|
      ensures Pending(ands, Last(more[k]), Block(more, block, k + 1), done)
    {
      if k < |below| {
        assert Pending(ands, Last(below[k]), Block(below, top, k + 1), done);
        assert Block(more, block, k + 1) == Block(below, top, k + 1);
      }
    }
  }

  /** The innermost entered variable is left and joins the finished ones. */
  lemma Leaving(ands: seq<And>, root: nat, below: seq<seq<nat>>, done: seq<nat>)
    requires Stacked(ands, root, below, [], done) && below != []
    ensures Stacked(ands, root, ButLast(below), ButLast(below[|below| - 1]), done + [Last(below[|below| - 1])])
  {
    var outer, inner := ButLast(below), below[|below| - 1];
    assert forall c :: c in Block(outer, ButLast(inner), 0) ==> c in Block(below, [], 0);
    forall k | 0 <= k < |outer|
      ensures Pending(ands, Last(outer[k]), Block(outer, ButLast(inner), k + 1), done + [Last(inner)])
    {
      assert Pending(ands, Last(below[k]), below[k + 1], done);
      PendingLess(ands, Last(below[k]), below[k + 1], done, Last(inner));
    }
  }

  /** With nothing pending on top, the innermost entered variable has all its gates done. */
  lemma AllDone(ands: seq<And>, root: nat, below: seq<seq<nat>>, done: seq<nat>, c: nat)
    requires Stacked(ands, root, below, [], done) && below != []
    requires Feeds(ands, Last(below[|below| - 1]), c) && IsGate(ands, c)
    ensures c in done
  {
    var k := |below| - 1;
    assert Pending(ands, Last(below[k]), Block(below, [], k + 1), done);
  }

  lemma UnderLeft(below: seq<seq<nat>>)
    requires below != [] && below[|below| - 1] != []
    ensures Under(below) == Under(ButLast(below)) + ButLast(below[|below| - 1]) + [Last(below[|below| - 1]), 0]
  {
    var inner := below[|below| - 1];
    assert inner == ButLast(inner) + [Last(inner)];
  }

  /** A variable that is done need not be pending any more. */
  lemma PendingLess(ands: seq<And>, v: nat, block: seq<nat>, done: seq<nat>, x: nat)
    requires block != [] && Pending(ands, v, block, done)
    ensures Pending(ands, v, block, done + [x])
    ensures x == Last(block) ==> Pending(ands, v, ButLast(block), done + [x])
  {
    assert block == ButLast(block) + [Last(block)];
  }

  lemma FinishOrderGrows(ands: seq<And>, order: seq<nat>, v: nat)
    requires FinishOrder(ands, order)
    requires forall c :: Feeds(ands, v, c) && IsGate(ands, c) ==> c in order
    ensures FinishOrder(ands, order + [v])
  {
    var more := order + [v];
    forall k, c | 0 <= k < |more| && Feeds(ands, more[k], c) && IsGate(ands, c) ensures c in more[..k] {
      if k < |order| {
        assert order[k] == more[k];
        assert more[..k] == order[..k];
      } else {
        assert more[..k] == order;
      }
    }
  }

  /** An entered variable that feeds the innermost one closes a cycle. */
  lemma BackEdge(ands: seq<And>, root: nat, below: seq<seq<nat>>, top: seq<nat>, done: seq<nat>, q: nat, c: nat)
    requires Stacked(ands, root, below, top, done)
    requires q < |below| && Last(below[q]) == c && Feeds(ands, Last(below[|below| - 1]), c)
    ensures OnCycle(ands, c)
  {
    var path := Entered(below)[q..] + [c];
    forall i | 0 <= i < |path| - 1 ensures Feeds(ands, path[i], path[i + 1]) {
      PathEdge(ands, root, below, top, done, q, c, path, i);
    }
    assert IsPath(ands, path);
    assert IsCycle(ands, path) && path[0] == c;
  }

  lemma PathEdge(ands: seq<And>, root: nat, below: seq<seq<nat>>, top: seq<nat>, done: seq<nat>, q: nat, c: nat,
                 path: seq<nat>, i: nat)
    requires Stacked(ands, root, below, top, done)
    requires q < |below| && q + i < |below| && Feeds(ands, Last(below[|below| - 1]), c)
    requires path == Entered(below)[q..] + [c]
    ensures Feeds(ands, path[i], path[i + 1])
  {
    if q + i + 1 < |below| { EnteredChain(ands, root, below, top, done, q + i); }
  }
}

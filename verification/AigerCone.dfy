/** The cone of influence: what the roots of an AIGER network depend on. */
module AigerCone {
  import opened Sequences
  import opened AigerNetwork
  import opened AigerNumbering

  /** x is v or is read, directly or through other gates, to compute v. */
  ghost predicate DependsOn(ands: seq<And>, v: nat, x: nat) {
    exists path :: PathFromTo(ands, path, v, x)
  }

  ghost predicate PathFromTo(ands: seq<And>, path: seq<nat>, v: nat, x: nat) {
    |path| > 0 && path[0] == v && path[|path| - 1] == x && IsPath(ands, path)
  }

  lemma DependsOnSelf(ands: seq<And>, v: nat)
    ensures DependsOn(ands, v, v)
  {
    assert PathFromTo(ands, [v], v, v);
  }

  lemma DependsOnInput(ands: seq<And>, v: nat, x: nat, c: nat)
    requires DependsOn(ands, v, x) && Feeds(ands, x, c)
    ensures DependsOn(ands, v, c)
  {
    var path :| PathFromTo(ands, path, v, x);
    var more := path + [c];
    forall i | 0 <= i < |more| - 1 ensures Feeds(ands, more[i], more[i + 1]) {
      if i < |path| - 1 { assert Feeds(ands, path[i], path[i + 1]); }
    }
    assert PathFromTo(ands, more, v, c);
  }

  /** A numbering that numbers the inputs of its gates numbers all that its variables depend on. */
  lemma {:induction false} PathNumbered(ands: seq<And>, num: seq<nat>, leaves: nat, path: seq<nat>, i: nat)
    requires Topological(ands, num, leaves) && IsPath(ands, path) && i < |path| && path[0] in num
    ensures path[i] in num
  {
    if i > 0 {
      PathNumbered(ands, num, leaves, path, i - 1);
      assert Feeds(ands, path[i - 1], path[i - 1 + 1]);
      InputsInNumbering(ands, num, leaves, path[i - 1], path[i]);
    }
  }

  lemma InputsInNumbering(ands: seq<And>, num: seq<nat>, leaves: nat, v: nat, c: nat)
    requires Topological(ands, num, leaves) && v in num && Feeds(ands, v, c)
    ensures c in num
  {
    var i :| 0 <= i < |num| && num[i] == v;
    assert IsGate(ands, v);
    assert c in num[..i];
  }

  lemma DependenciesNumbered(ands: seq<And>, num: seq<nat>, leaves: nat, v: nat, x: nat)
    requires Topological(ands, num, leaves) && v in num && DependsOn(ands, v, x)
    ensures x in num
  {
    var path :| PathFromTo(ands, path, v, x);
    PathNumbered(ands, num, leaves, path, |path| - 1);
  }

  /** Some literal of the set depends on x; the constants depend on nothing. */
  ghost predicate InCone(ands: seq<And>, lits: set<nat>, x: nat) {
    exists l :: l in lits && l >= 2 && DependsOn(ands, Var(l), x)
  }

  /** more extends num by exactly the cone of the literals. */
  ghost predicate ConeAdded(ands: seq<And>, num: seq<nat>, more: seq<nat>, lits: set<nat>) {
    num <= more && forall x :: x in more <==> x in num || InCone(ands, lits, x)
  }

  lemma NothingAdded(ands: seq<And>, num: seq<nat>, leaves: nat, lits: set<nat>)
    requires Topological(ands, num, leaves) && forall l :: l in lits && l >= 2 ==> Var(l) in num
    ensures ConeAdded(ands, num, num, lits)
  {
    forall x | InCone(ands, lits, x) ensures x in num {
      var l :| l in lits && l >= 2 && DependsOn(ands, Var(l), x);
      DependenciesNumbered(ands, num, leaves, Var(l), x);
    }
  }

  lemma ConeAddedTwice(ands: seq<And>, num: seq<nat>, mid: seq<nat>, more: seq<nat>, first: set<nat>, second: set<nat>,
                       both: set<nat>)
    requires ConeAdded(ands, num, mid, first) && ConeAdded(ands, mid, more, second) && both == first + second
    ensures ConeAdded(ands, num, more, both)
  {
    forall x ensures InCone(ands, both, x) <==> InCone(ands, first, x) || InCone(ands, second, x) {
      ConeOfBoth(ands, first, second, both, x);
    }
  }

  lemma ConeOfBoth(ands: seq<And>, first: set<nat>, second: set<nat>, both: set<nat>, x: nat)
    requires both == first + second
    ensures InCone(ands, both, x) <==> InCone(ands, first, x) || InCone(ands, second, x)
  {
  }

  /** What a numbering from v has added so far: nothing that v does not depend on. */
  ghost predicate AddedBelow(ands: seq<And>, num: seq<nat>, more: seq<nat>, v: nat) {
    forall x :: x in more ==> x in num || DependsOn(ands, v, x)
  }

  lemma NothingBelow(ands: seq<And>, num: seq<nat>, v: nat)
    ensures AddedBelow(ands, num, num, v)
  {
  }

  lemma ConeOfLiteral(ands: seq<And>, num: seq<nat>, more: seq<nat>, lit: nat)
    requires lit >= 2 && num <= more && forall x :: x in more <==> x in num || DependsOn(ands, Var(lit), x)
    ensures ConeAdded(ands, num, more, {lit})
  {
  }

  // ---------- The roots ----------

  function AllLits(lists: seq<seq<nat>>): set<nat> {
    set i, l | 0 <= i < |lists| && l in lists[i] :: l
  }

  lemma OneMoreLit(lits: seq<nat>, i: nat)
    requires i < |lits|
    ensures SetOf(lits[..i + 1]) == SetOf(lits[..i]) + {lits[i]}
  {
    assert lits[..i + 1] == lits[..i] + [lits[i]];
  }

  lemma OneMoreList(lists: seq<seq<nat>>, i: nat)
    requires i < |lists|
    ensures AllLits(lists[..i + 1]) == AllLits(lists[..i]) + SetOf(lists[i])
  {
    forall l ensures l in AllLits(lists[..i + 1]) <==> l in AllLits(lists[..i]) || l in lists[i] {
      if l in AllLits(lists[..i]) {
        var k :| 0 <= k < i && l in lists[..i][k];
        assert l in lists[..i + 1][k];
      }
      if l in lists[i] { assert l in lists[..i + 1][i]; }
      if l in AllLits(lists[..i + 1]) {
        var k :| 0 <= k < i + 1 && l in lists[..i + 1][k];
        assert k < i ==> l in lists[..i][k];
      }
    }
  }

  /** The literals the network is evaluated for. */
  function RootLits(net: Network): set<nat> {
    SetOf(NextLits(net.latches)) + SetOf(ResetLits(net.latches)) + PropertyLits(net)
  }

  function PropertyLits(net: Network): set<nat> {
    SetOf(net.outputs) + SetOf(net.bad) + ConstraintLits(net)
  }

  function ConstraintLits(net: Network): set<nat> {
    SetOf(net.constraints) + AllLits(net.justice) + SetOf(net.fairness)
  }

  /** The gates that some root depends on. */
  ghost function Cone(net: Network): set<nat> {
    set g | g in net.ands && InCone(net.ands, RootLits(net), Var(g.lhs)) :: Var(g.lhs)
  }

  lemma ConeMember(net: Network, x: nat)
    requires WellDefined(net.ands)
    ensures x in Cone(net) <==> IsGate(net.ands, x) && InCone(net.ands, RootLits(net), x)
  {
    if IsGate(net.ands, x) && InCone(net.ands, RootLits(net), x) {
      var k :| 0 <= k < |net.ands| && net.ands[k].lhs == Lit(x);
      assert net.ands[k] in net.ands && Var(net.ands[k].lhs) == x;
    }
    if x in Cone(net) {
      var g :| g in net.ands && InCone(net.ands, RootLits(net), Var(g.lhs)) && Var(g.lhs) == x;
      var k :| 0 <= k < |net.ands| && net.ands[k] == g;
      assert net.ands[k].lhs == Lit(x);
    }
  }

  /** A numbering of the leaves and the cone numbers as many gates as there are in the cone. */
  lemma ConeSize(net: Network, first: seq<nat>, num: seq<nat>)
    requires WellDefined(net.ands) && Distinct(num) && Topological(net.ands, num, |first|)
    requires ConeAdded(net.ands, first, num, RootLits(net))
    ensures |Cone(net)| == |num| - |first|
  {
    var gates := num[|first|..];
    forall x ensures x in gates <==> x in Cone(net) {
      ConeMember(net, x);
      KeptMember(net, first, num, x);
    }
    assert SetOf(gates) == Cone(net);
    DistinctSize(gates);
  }

  lemma KeptMember(net: Network, first: seq<nat>, num: seq<nat>, x: nat)
    requires Distinct(num) && Topological(net.ands, num, |first|) && ConeAdded(net.ands, first, num, RootLits(net))
    ensures x in num[|first|..] <==> IsGate(net.ands, x) && InCone(net.ands, RootLits(net), x)
  {
    if x in num[|first|..] {
      var i :| |first| <= i < |num| && num[i] == x;
      forall k | 0 <= k < |first| ensures first[k] != x { assert first[k] == num[k]; }
    }
    if IsGate(net.ands, x) && InCone(net.ands, RootLits(net), x) {
      var i :| 0 <= i < |num| && num[i] == x;
      assert num[|first|..][i - |first|] == x;
    }
  }
}

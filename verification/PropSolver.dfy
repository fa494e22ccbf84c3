/** A propositional solver as its clients build formulas in it: variables, clauses, and gates
    whose output literal is defined by the clauses added for it. */
module PropSolver {
  datatype Literal = Const(value: bool) | Var(index: nat, negated: bool) {
    predicate Eval(m: seq<bool>) {
      match this
      case Const(b) => b
      case Var(i, neg) => i < |m| && m[i] != neg
    }

    function Neg(): Literal {
      match this
      case Const(b) => Const(!b)
      case Var(i, neg) => Var(i, !neg)
    }

    predicate Below(n: nat) {
      Var? ==> index < n
    }
  }

  type Clause = seq<Literal>

  predicate ClauseHolds(c: Clause, m: seq<bool>) {
    exists l :: l in c && l.Eval(m)
  }

  predicate AllBelow(c: seq<Literal>, n: nat) {
    forall l :: l in c ==> l.Below(n)
  }

  datatype Cnf = Cnf(vars: nat, clauses: seq<Clause>) {
    ghost predicate Valid() {
      forall c :: c in clauses ==> AllBelow(c, vars)
    }

    /** m assigns all variables and satisfies every clause. */
    ghost predicate Models(m: seq<bool>) {
      |m| >= vars && forall c :: c in clauses ==> ClauseHolds(c, m)
    }
  }

  /** c1 adds variables and clauses to c0 without excluding any assignment to c0's variables. */
  ghost predicate Extends(c0: Cnf, c1: Cnf) {
    && c0.Valid() && c1.Valid()
    && c0.vars <= c1.vars
    && (forall c :: c in c0.clauses ==> c in c1.clauses)
    && (forall m {:trigger Extendable(m, c1)} :: |m| == c0.vars && c0.Models(m) ==> Extendable(m, c1))
  }

  ghost predicate Extendable(m: seq<bool>, c: Cnf) {
    exists m' :: |m'| == c.vars && m <= m' && c.Models(m')
  }

  lemma ExtendsModels(c0: Cnf, c1: Cnf, m: seq<bool>)
    requires Extends(c0, c1) && c1.Models(m)
    ensures c0.Models(m)
  {
  }

  lemma ExtendsReflexive(c: Cnf)
    requires c.Valid()
    ensures Extends(c, c)
  {
    forall m | |m| == c.vars && c.Models(m) ensures Extendable(m, c) {
      assert m <= m;
    }
  }

  lemma ExtendsTransitive(c0: Cnf, c1: Cnf, c2: Cnf)
    requires Extends(c0, c1) && Extends(c1, c2)
    ensures Extends(c0, c2)
  {
    forall m | |m| == c0.vars && c0.Models(m) ensures Extendable(m, c2) {
      assert Extendable(m, c1);
      var m1 :| |m1| == c1.vars && m <= m1 && c1.Models(m1);
      assert Extendable(m1, c2);
      var m2 :| |m2| == c2.vars && m1 <= m2 && c2.Models(m2);
      assert m <= m2;
    }
  }

  lemma PrefixEval(l: Literal, m: seq<bool>, m': seq<bool>)
    requires l.Below(|m|) && m <= m'
    ensures l.Eval(m) == l.Eval(m')
  {
  }

  lemma PrefixClause(c: Clause, m: seq<bool>, m': seq<bool>)
    requires AllBelow(c, |m|) && m <= m' && ClauseHolds(c, m)
    ensures ClauseHolds(c, m')
  {
    var l :| l in c && l.Eval(m);
    PrefixEval(l, m, m');
  }

  /** One fresh variable constrained by clauses that some value of it always satisfies. */
  lemma FreshDefinition(c0: Cnf, defs: seq<Clause>)
    requires c0.Valid() && forall c :: c in defs ==> AllBelow(c, c0.vars + 1)
    requires forall m :: |m| == c0.vars ==> Definable(m, defs)
    ensures Extends(c0, Cnf(c0.vars + 1, c0.clauses + defs))
  {
    var c1 := Cnf(c0.vars + 1, c0.clauses + defs);
    forall c | c in c0.clauses ensures AllBelow(c, c1.vars) {}
    forall m | |m| == c0.vars && c0.Models(m) ensures Extendable(m, c1) {
      assert Definable(m, defs);
      var v :| forall c :: c in defs ==> ClauseHolds(c, m + [v]);
      forall c | c in c0.clauses ensures ClauseHolds(c, m + [v]) {
        PrefixClause(c, m, m + [v]);
      }
      assert c1.Models(m + [v]);
    }
  }

  ghost predicate Definable(m: seq<bool>, defs: seq<Clause>) {
    exists v: bool :: forall c :: c in defs ==> ClauseHolds(c, m + [v])
  }

  // Clauses of fixed small width, spelled out.
  lemma Clause3(a: Literal, b: Literal, c: Literal, m: seq<bool>)
    ensures ClauseHolds([a, b, c], m) <==> a.Eval(m) || b.Eval(m) || c.Eval(m)
  {
    var cl := [a, b, c];
    assert cl[0] == a && cl[1] == b && cl[2] == c;
    if a.Eval(m) { assert a in cl; }
    if b.Eval(m) { assert b in cl; }
    if c.Eval(m) { assert c in cl; }
  }

  function SelectClauses(x: Literal, a: Literal, b: Literal, c: Literal): seq<Clause> {
    [[x.Neg(), c, b], [x.Neg(), c.Neg(), a], [a.Neg(), c.Neg(), x], [b.Neg(), c, x]]
  }

  function XorClauses(x: Literal, a: Literal, b: Literal): seq<Clause> {
    [[x.Neg(), a, b], [x.Neg(), a.Neg(), b.Neg()], [x, a.Neg(), b], [x, a, b.Neg()]]
  }

  lemma SelectMeaning(x: Literal, a: Literal, b: Literal, c: Literal, n: nat, m: seq<bool>)
    requires |m| >= n && x.Below(n) && a.Below(n) && b.Below(n) && c.Below(n)
    ensures (forall cl :: cl in SelectClauses(x, a, b, c) ==> ClauseHolds(cl, m)) <==>
      x.Eval(m) == if c.Eval(m) then a.Eval(m) else b.Eval(m)
  {
    var cls := SelectClauses(x, a, b, c);
    Clause3(x.Neg(), c, b, m);
    Clause3(x.Neg(), c.Neg(), a, m);
    Clause3(a.Neg(), c.Neg(), x, m);
    Clause3(b.Neg(), c, x, m);
    assert cls[0] in cls && cls[1] in cls && cls[2] in cls && cls[3] in cls;
  }

  lemma XorMeaning(x: Literal, a: Literal, b: Literal, n: nat, m: seq<bool>)
    requires |m| >= n && x.Below(n) && a.Below(n) && b.Below(n)
    ensures (forall cl :: cl in XorClauses(x, a, b) ==> ClauseHolds(cl, m)) <==>
      x.Eval(m) == (a.Eval(m) != b.Eval(m))
  {
    var cls := XorClauses(x, a, b);
    Clause3(x.Neg(), a, b, m);
    Clause3(x.Neg(), a.Neg(), b.Neg(), m);
    Clause3(x, a.Neg(), b, m);
    Clause3(x, a, b.Neg(), m);
    assert cls[0] in cls && cls[1] in cls && cls[2] in cls && cls[3] in cls;
  }

  function OrClauses(x: Literal, ls: seq<Literal>): (r: seq<Clause>)
    ensures |r| == |ls| + 1
  {
    [[x.Neg()] + ls] + seq(|ls|, i requires 0 <= i < |ls| => [x, ls[i].Neg()])
  }

  lemma FirstOrClause(x: Literal, ls: seq<Literal>, n: nat, m: seq<bool>)
    requires |m| >= n && x.Below(n)
    ensures ClauseHolds(OrClauses(x, ls)[0], m) <==> !x.Eval(m) || exists l :: l in ls && l.Eval(m)
  {
    var c := OrClauses(x, ls)[0];
    assert c == [x.Neg()] + ls && x.Neg() in c;
    assert forall l :: l in c <==> l == x.Neg() || l in ls;
  }

  lemma LaterOrClause(x: Literal, ls: seq<Literal>, n: nat, m: seq<bool>, i: nat)
    requires |m| >= n && AllBelow(ls, n) && i < |ls|
    ensures ClauseHolds(OrClauses(x, ls)[i + 1], m) <==> x.Eval(m) || !ls[i].Eval(m)
  {
    var c := OrClauses(x, ls)[i + 1];
    assert c == [x, ls[i].Neg()] && c[0] in c && c[1] in c;
    assert ls[i] in ls;
  }

  lemma OrMeaning(x: Literal, ls: seq<Literal>, n: nat, m: seq<bool>)
    requires |m| >= n && x.Below(n) && AllBelow(ls, n)
    ensures (forall cl :: cl in OrClauses(x, ls) ==> ClauseHolds(cl, m)) <==>
      x.Eval(m) == (exists l :: l in ls && l.Eval(m))
  {
    var cls := OrClauses(x, ls);
    FirstOrClause(x, ls, n, m);
    forall i | 0 <= i < |ls| ensures ClauseHolds(cls[i + 1], m) <==> x.Eval(m) || !ls[i].Eval(m) {
      LaterOrClause(x, ls, n, m, i);
    }
    if forall cl :: cl in cls ==> ClauseHolds(cl, m) {
      assert ClauseHolds(cls[0], m);
      if l :| l in ls && l.Eval(m) {
        var i :| 0 <= i < |ls| && ls[i] == l;
        assert cls[i + 1] in cls;
      }
    }
    if x.Eval(m) == exists l :: l in ls && l.Eval(m) {
      forall cl | cl in cls ensures ClauseHolds(cl, m) {
        var j :| 0 <= j < |cls| && cls[j] == cl;
        if j > 0 { assert ls[j - 1] in ls; }
      }
    }
  }

  class Prop {
    var cnf: Cnf

    constructor ()
      ensures cnf == Cnf(0, [])
    {
      cnf := Cnf(0, []);
    }

    method NewVariable() returns (x: Literal)
      modifies this
      ensures x == Var(old(cnf.vars), false) && cnf == Cnf(old(cnf.vars) + 1, old(cnf.clauses))
    {
      x := Var(cnf.vars, false);
      cnf := Cnf(cnf.vars + 1, cnf.clauses);
    }

    method Lcnf(c: Clause)
      modifies this
      ensures cnf == Cnf(old(cnf.vars), old(cnf.clauses) + [c])
    {
      cnf := Cnf(cnf.vars, cnf.clauses + [c]);
    }

    /** x = c ? a : b, by four clauses. */
    method Select(a: Literal, b: Literal, c: Literal) returns (x: Literal)
      requires cnf.Valid() && a.Below(cnf.vars) && b.Below(cnf.vars) && c.Below(cnf.vars)
      modifies this
      ensures Extends(old(cnf), cnf) && x.Below(cnf.vars)
      ensures forall m :: cnf.Models(m) ==> x.Eval(m) == if c.Eval(m) then a.Eval(m) else b.Eval(m)
    {
      ghost var c0 := cnf;
      x := NewVariable();
      Lcnf([x.Neg(), c, b]);
      Lcnf([x.Neg(), c.Neg(), a]);
      Lcnf([a.Neg(), c.Neg(), x]);
      Lcnf([b.Neg(), c, x]);
      SelectExtends(c0, x, a, b, c);
      assert cnf.clauses == c0.clauses + SelectClauses(x, a, b, c);
      forall m | cnf.Models(m) ensures x.Eval(m) == if c.Eval(m) then a.Eval(m) else b.Eval(m) {
        SelectMeaning(x, a, b, c, cnf.vars, m);
      }
    }

    /** x = a xor b. */
    method Lxor(a: Literal, b: Literal) returns (x: Literal)
      requires cnf.Valid() && a.Below(cnf.vars) && b.Below(cnf.vars)
      modifies this
      ensures Extends(old(cnf), cnf) && x.Below(cnf.vars)
      ensures forall m :: cnf.Models(m) ==> x.Eval(m) == (a.Eval(m) != b.Eval(m))
    {
      ghost var c0 := cnf;
      x := NewVariable();
      cnf := Cnf(cnf.vars, cnf.clauses + XorClauses(x, a, b));
      XorExtends(c0, x, a, b);
      forall m | cnf.Models(m) ensures x.Eval(m) == (a.Eval(m) != b.Eval(m)) {
        XorMeaning(x, a, b, cnf.vars, m);
      }
    }

    /** x = disjunction of ls. */
    method Lor(ls: seq<Literal>) returns (x: Literal)
      requires cnf.Valid() && AllBelow(ls, cnf.vars)
      modifies this
      ensures Extends(old(cnf), cnf) && x.Below(cnf.vars)
      ensures forall m :: cnf.Models(m) ==> x.Eval(m) == (exists l :: l in ls && l.Eval(m))
    {
      ghost var c0 := cnf;
      x := NewVariable();
      cnf := Cnf(cnf.vars, cnf.clauses + OrClauses(x, ls));
      OrExtends(c0, x, ls);
      forall m | cnf.Models(m) ensures x.Eval(m) == (exists l :: l in ls && l.Eval(m)) {
        OrMeaning(x, ls, cnf.vars, m);
      }
    }
  }

  lemma SelectExtends(c0: Cnf, x: Literal, a: Literal, b: Literal, c: Literal)
    requires c0.Valid() && x == Var(c0.vars, false) && a.Below(c0.vars) && b.Below(c0.vars) && c.Below(c0.vars)
    ensures Extends(c0, Cnf(c0.vars + 1, c0.clauses + SelectClauses(x, a, b, c)))
  {
    var defs := SelectClauses(x, a, b, c);
    forall m | |m| == c0.vars ensures Definable(m, defs) {
      var v := if c.Eval(m) then a.Eval(m) else b.Eval(m);
      PrefixEval(a, m, m + [v]);
      PrefixEval(b, m, m + [v]);
      PrefixEval(c, m, m + [v]);
      SelectMeaning(x, a, b, c, c0.vars + 1, m + [v]);
    }
    FreshDefinition(c0, defs);
  }

  lemma XorExtends(c0: Cnf, x: Literal, a: Literal, b: Literal)
    requires c0.Valid() && x == Var(c0.vars, false) && a.Below(c0.vars) && b.Below(c0.vars)
    ensures Extends(c0, Cnf(c0.vars + 1, c0.clauses + XorClauses(x, a, b)))
  {
    var defs := XorClauses(x, a, b);
    forall m | |m| == c0.vars ensures Definable(m, defs) {
      var v := a.Eval(m) != b.Eval(m);
      PrefixEval(a, m, m + [v]);
      PrefixEval(b, m, m + [v]);
      XorMeaning(x, a, b, c0.vars + 1, m + [v]);
    }
    FreshDefinition(c0, defs);
  }

  lemma OrExtends(c0: Cnf, x: Literal, ls: seq<Literal>)
    requires c0.Valid() && x == Var(c0.vars, false) && AllBelow(ls, c0.vars)
    ensures Extends(c0, Cnf(c0.vars + 1, c0.clauses + OrClauses(x, ls)))
  {
    var defs := OrClauses(x, ls);
    forall c | c in defs ensures AllBelow(c, c0.vars + 1) {
      var j :| 0 <= j < |defs| && defs[j] == c;
      if j > 0 { assert ls[j - 1] in ls; }
    }
    forall m | |m| == c0.vars ensures Definable(m, defs) {
      var v := exists l :: l in ls && l.Eval(m);
      forall l | l in ls ensures l.Eval(m) == l.Eval(m + [v]) {
        PrefixEval(l, m, m + [v]);
      }
      OrMeaning(x, ls, c0.vars + 1, m + [v]);
      assert forall cl :: cl in defs ==> ClauseHolds(cl, m + [v]);
    }
    FreshDefinition(c0, defs);
  }
}

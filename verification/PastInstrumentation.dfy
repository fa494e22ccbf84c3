/** The register chains that replace $past: collection and completion of the uses, registers, constraints,
    replacement, and why the instrumented system has the same runs. */
module PastInstrumentation {
  /** A valuation of the variables of the original system. */
  type Config = seq<int>

  /** Expressions over current and next variables. $past may stand anywhere, also inside $past; registers
      are the fresh symbols of the instrumentation. */
  datatype Expr = Variable(i: nat) | Next(i: nat) | Register(number: nat) | Apply(op: nat, args: seq<Expr>)
    | Past(what: Expr, ticks: int)

  /** What operators do, and the default value of the type of an expression. */
  datatype Meaning = Meaning(apply: (nat, seq<int>) -> int, default: Expr -> int)

  predicate PastFree(e: Expr) {
    match e
    case Apply(_, args) => forall k :: 0 <= k < |args| ==> PastFree(args[k])
    case Past(_, _) => false
    case _ => true
  }

  predicate NoRegisters(e: Expr) {
    match e
    case Register(_) => false
    case Apply(_, args) => forall k :: 0 <= k < |args| ==> NoRegisters(args[k])
    case Past(what, _) => NoRegisters(what)
    case _ => true
  }

  // ---------- Collecting and completing ----------

  /** The uses of $past in an expression, nested ones included. */
  function Collect(e: Expr): set<Expr> {
    match e
    case Apply(_, args) => set k, u | 0 <= k < |args| && u in Collect(args[k]) :: u
    case Past(what, _) => {e} + Collect(what)
    case _ => {}
  }

  lemma {:induction false} CollectCollected(e: Expr, u: Expr)
    requires u in Collect(e)
    ensures u.Past? && Collect(u) <= Collect(e)
    ensures NoRegisters(e) ==> NoRegisters(u)
    ensures Plain(e) ==> Plain(u)
  {
    match e {
      case Apply(_, args) =>
        var k :| 0 <= k < |args| && u in Collect(args[k]);
        CollectCollected(args[k], u);
      case Past(what, _) =>
        if u != e { CollectCollected(what, u); }
    }
  }

  /** $past(x, i) for all 1 <= i < n whenever $past(x, n) is there. */
  ghost predicate Completes(uses: set<Expr>, all: set<Expr>) {
    forall e :: e in all <==> e in uses || NeededBy(uses, e)
  }

  predicate NeededBy(uses: set<Expr>, e: Expr) {
    exists u :: u in uses && Below(u, e)
  }

  predicate Below(u: Expr, e: Expr) {
    u.Past? && e.Past? && u.what == e.what && 1 <= e.ticks < u.ticks
  }

  method CompletePastSet(uses: set<Expr>) returns (all: set<Expr>)
    requires forall u :: u in uses ==> u.Past?
    ensures Completes(uses, all)
  {
    var newEntries: set<Expr> := {};
    var rest := uses;
    while rest != {}
      invariant rest <= uses && forall e :: e in newEntries <==> NeededBy(uses - rest, e)
      decreases |rest|
    {
      var u :| u in rest;
      var more := LowerEntries(u);
      forall e ensures e in newEntries + more <==> NeededBy(uses - (rest - {u}), e) {
        OneMoreUse(uses - rest, u, e);
      }
      assert uses - (rest - {u}) == (uses - rest) + {u};
      newEntries := newEntries + more;
      rest := rest - {u};
    }
    assert uses - rest == uses;
    all := uses + newEntries;
  }

  lemma OneMoreUse(uses: set<Expr>, u: Expr, e: Expr)
    ensures NeededBy(uses + {u}, e) <==> NeededBy(uses, e) || Below(u, e)
  {
    if NeededBy(uses + {u}, e) {
      var x :| x in uses + {u} && Below(x, e);
      assert x in uses || x == u;
    }
    if NeededBy(uses, e) {
      var x :| x in uses && Below(x, e);
      assert x in uses + {u};
    }
    if Below(u, e) { assert u in uses + {u}; }
  }

  method LowerEntries(u: Expr) returns (r: set<Expr>)
    requires u.Past?
    ensures forall e :: e in r <==> Below(u, e)
  {
    r := {};
    var i := 1;
    while i < u.ticks
      invariant i == 1 || i <= u.ticks
      invariant forall e :: e in r <==> e.Past? && u.what == e.what && 1 <= e.ticks < i
    {
      r := r + {Past(u.what, i)};
      i := i + 1;
    }
  }

  // ---------- Registers and constraints ----------

  /** The initial value of a register is the default of the expression. */
  datatype InitConjunct = StartsWithDefault(register: nat, what: Expr)

  /** The next value of a register is the current one of the source. */
  datatype TransConjunct = Follows(register: nat, source: Expr)

  type PastMap = map<Expr, Expr>

  datatype Chains = Chains(pastMap: PastMap, inits: seq<InitConjunct>, trans: seq<TransConjunct>)

  function Shorter(e: Expr): Expr
    requires e.Past?
  {
    Past(e.what, e.ticks - 1)
  }

  /** Every use with at least one tick has a register of its own. */
  ghost predicate Mapped(all: set<Expr>, pastMap: PastMap) {
    && (forall e :: e in pastMap <==> e in all && e.Past? && e.ticks >= 0)
    && (forall e :: e in pastMap ==> if e.ticks == 0 then pastMap[e] == e.what else pastMap[e].Register?)
    && forall e, f :: e in pastMap && f in pastMap && e.ticks > 0 && f.ticks > 0 && pastMap[e] == pastMap[f] ==> e == f
  }

  /** e has a register, and what the register follows is there. */
  predicate Linked(pastMap: PastMap, e: Expr) {
    && e in pastMap && e.Past? && e.ticks >= 1 && pastMap[e].Register?
    && (e.ticks >= 2 ==> Shorter(e) in pastMap)
  }

  /** The source of a register: the expression itself, or the register one tick below. */
  function Source(pastMap: PastMap, e: Expr): Expr
    requires Linked(pastMap, e)
  {
    if e.ticks == 1 then e.what else pastMap[Shorter(e)]
  }

  function InitOf(pastMap: PastMap, e: Expr): InitConjunct
    requires Linked(pastMap, e)
  {
    StartsWithDefault(pastMap[e].number, e.what)
  }

  function TransOf(pastMap: PastMap, e: Expr): TransConjunct
    requires Linked(pastMap, e)
  {
    Follows(pastMap[e].number, Source(pastMap, e))
  }

  /** Every register of the given uses has its initial-state and its next-state conjunct. */
  ghost predicate HasChains(uses: set<Expr>, c: Chains) {
    forall e :: e in uses && e.Past? && e.ticks >= 1 ==>
      Linked(c.pastMap, e) && InitOf(c.pastMap, e) in c.inits && TransOf(c.pastMap, e) in c.trans
  }

  /** There are no other conjuncts. */
  ghost predicate OnlyChains(uses: set<Expr>, c: Chains) {
    && (forall i :: i in c.inits ==> exists e :: e in uses && Linked(c.pastMap, e) && i == InitOf(c.pastMap, e))
    && (forall t :: t in c.trans ==> exists e :: e in uses && Linked(c.pastMap, e) && t == TransOf(c.pastMap, e))
  }

  ghost predicate ChainedFor(uses: set<Expr>, c: Chains) {
    HasChains(uses, c) && OnlyChains(uses, c)
  }

  ghost predicate Chained(all: set<Expr>, c: Chains) {
    Mapped(all, c.pastMap) && ChainedFor(all, c)
  }

  /** Numbers a register for every use and chains it to the one below, which completion provides. */
  method ModelPast(ghost uses: set<Expr>, all: set<Expr>) returns (c: Chains)
    requires Completes(uses, all) && forall e :: e in all ==> e.Past?
    ensures Chained(all, c)
  {
    var pastMap := NumberRegisters(all);
    c := Chains(pastMap, [], []);
    var rest := all;
    while rest != {}
      invariant rest <= all && c.pastMap == pastMap && ChainedFor(all - rest, c)
      decreases |rest|
    {
      var e :| e in rest;
      assert all - (rest - {e}) == (all - rest) + {e};
      if e.ticks >= 1 {
        if e.ticks >= 2 { ShorterIsThere(uses, all, e); }
        OneMoreRegister(all - rest, c, e);
        c := AddRegister(c, e);
      } else {
        NoRegister(all - rest, c, e);
      }
      rest := rest - {e};
    }
    assert all - rest == all;
  }

  /** The conjuncts of one more register. */
  function AddRegister(c: Chains, e: Expr): Chains
    requires Linked(c.pastMap, e)
  {
    Chains(c.pastMap, c.inits + [InitOf(c.pastMap, e)], c.trans + [TransOf(c.pastMap, e)])
  }

  lemma OneMoreRegister(uses: set<Expr>, c: Chains, e: Expr)
    requires ChainedFor(uses, c) && Linked(c.pastMap, e)
    ensures ChainedFor(uses + {e}, AddRegister(c, e))
  {
    var c' := AddRegister(c, e);
    forall i | i in c'.inits ensures exists x :: x in uses + {e} && Linked(c.pastMap, x) && i == InitOf(c.pastMap, x) {
      if i in c.inits {
        var x :| x in uses && Linked(c.pastMap, x) && i == InitOf(c.pastMap, x);
        assert x in uses + {e};
      } else {
        assert i == InitOf(c.pastMap, e) && e in uses + {e};
      }
    }
    forall t | t in c'.trans ensures exists x :: x in uses + {e} && Linked(c.pastMap, x) && t == TransOf(c.pastMap, x) {
      if t in c.trans {
        var x :| x in uses && Linked(c.pastMap, x) && t == TransOf(c.pastMap, x);
        assert x in uses + {e};
      } else {
        assert t == TransOf(c.pastMap, e) && e in uses + {e};
      }
    }
  }

  lemma NoRegister(uses: set<Expr>, c: Chains, e: Expr)
    requires ChainedFor(uses, c) && e.Past? && e.ticks < 1
    ensures ChainedFor(uses + {e}, c)
  {
    forall i | i in c.inits ensures exists x :: x in uses + {e} && Linked(c.pastMap, x) && i == InitOf(c.pastMap, x) {
      var x :| x in uses && Linked(c.pastMap, x) && i == InitOf(c.pastMap, x);
      assert x in uses + {e};
    }
    forall t | t in c.trans ensures exists x :: x in uses + {e} && Linked(c.pastMap, x) && t == TransOf(c.pastMap, x) {
      var x :| x in uses && Linked(c.pastMap, x) && t == TransOf(c.pastMap, x);
      assert x in uses + {e};
    }
  }

  lemma ShorterIsThere(uses: set<Expr>, all: set<Expr>, e: Expr)
    requires Completes(uses, all) && e in all && e.Past? && e.ticks >= 2
    ensures Shorter(e) in all
  {
    if e in uses {
      assert Below(e, Shorter(e));
    } else {
      var u :| u in uses && Below(u, e);
      assert Below(u, Shorter(e));
    }
  }

  method NumberRegisters(all: set<Expr>) returns (pastMap: PastMap)
    requires forall e :: e in all ==> e.Past?
    ensures Mapped(all, pastMap)
  {
    pastMap := map[];
    var number := 0;
    var rest := all;
    while rest != {}
      invariant rest <= all && Mapped(all - rest, pastMap)
      invariant forall e :: e in pastMap && e.ticks > 0 ==> pastMap[e].number <= number
      decreases |rest|
    {
      var e :| e in rest;
      if e.ticks == 0 {
        pastMap := pastMap[e := e.what];
      } else if e.ticks >= 1 {
        number := number + 1;
        pastMap := pastMap[e := Register(number)];
      }
      rest := rest - {e};
    }
    assert all - rest == all;
  }

  // ---------- Replacement ----------

  /** The outermost uses are replaced; what is put in is not looked at again. */
  function Replace(pastMap: PastMap, e: Expr): Expr {
    if e in pastMap then pastMap[e]
    else
      match e
      case Apply(op, args) => Apply(op, seq(|args|, k requires 0 <= k < |args| => Replace(pastMap, args[k])))
      case Past(what, ticks) => Past(Replace(pastMap, what), ticks)
      case _ => e
  }

  /** No $past goes back a negative number of ticks, and none of no ticks has another one inside. */
  predicate Plain(e: Expr) {
    match e
    case Apply(_, args) => forall k :: 0 <= k < |args| ==> Plain(args[k])
    case Past(what, ticks) => Plain(what) && (ticks >= 1 || (ticks == 0 && PastFree(what)))
    case _ => true
  }

  lemma {:induction false} PastFreeIsPlain(e: Expr)
    requires PastFree(e)
    ensures Plain(e)
  {
    if e.Apply? {
      forall k | 0 <= k < |e.args| ensures Plain(e.args[k]) { PastFreeIsPlain(e.args[k]); }
    }
  }

  lemma {:induction false} PlainIsResolved(all: set<Expr>, pastMap: PastMap, e: Expr)
    requires Mapped(all, pastMap) && Collect(e) <= all && Plain(e)
    ensures PastFree(Replace(pastMap, e))
  {
    if e.Apply? {
      forall k | 0 <= k < |e.args| ensures PastFree(Replace(pastMap, e.args[k])) {
        ArgCollected(e, k);
        PlainIsResolved(all, pastMap, e.args[k]);
      }
    } else if e.Past? {
      assert e in Collect(e) && e in pastMap;
    }
  }

  lemma ArgCollected(e: Expr, k: nat)
    requires e.Apply? && k < |e.args|
    ensures Collect(e.args[k]) <= Collect(e)
  {
    forall u | u in Collect(e.args[k]) ensures u in Collect(e) {}
  }

  /** If no $past is left in e nor in what the registers follow, there was nothing but plain uses in e. */
  lemma {:induction false} ResolvedIsPlain(uses: set<Expr>, all: set<Expr>, c: Chains, e: Expr)
    requires Completes(uses, all) && Mapped(all, c.pastMap) && HasChains(all, c) && Collect(e) <= uses
    requires PastFree(Replace(c.pastMap, e)) && forall k :: k in c.trans ==> PastFree(Replace(c.pastMap, k.source))
    ensures Plain(e)
  {
    if e.Apply? {
      forall k | 0 <= k < |e.args| ensures Plain(e.args[k]) {
        ArgCollected(e, k);
        assert Replace(c.pastMap, e).args[k] == Replace(c.pastMap, e.args[k]);
        ResolvedIsPlain(uses, all, c, e.args[k]);
      }
    } else if e.Past? {
      assert e in Collect(e);
      if e.ticks >= 1 {
        FirstTick(uses, all, c, e);
        ResolvedIsPlain(uses, all, c, e.what);
      } else if e.ticks == 0 {
        assert Replace(c.pastMap, e) == e.what;
        PastFreeIsPlain(e.what);
      }
    }
  }

  /** The expression under a use is what the register of one tick follows. */
  lemma FirstTick(uses: set<Expr>, all: set<Expr>, c: Chains, e: Expr)
    requires Completes(uses, all) && Mapped(all, c.pastMap) && HasChains(all, c) && e in uses && e.Past? && e.ticks >= 1
    ensures exists k :: k in c.trans && k.source == e.what
  {
    var first := Past(e.what, 1);
    assert first in all by { if e.ticks > 1 { assert Below(e, first); } }
    assert TransOf(c.pastMap, first) in c.trans && TransOf(c.pastMap, first).source == e.what;
  }

  // ---------- Runs ----------

  /** A valuation with the registers. */
  datatype XConfig = XConfig(c: Config, regs: nat -> int)

  function Entry(x: Config, i: nat): int {
    if i < |x| then x[i] else 0
  }

  /** The value of an expression at time t of a run of the original system. */
  function Value(m: Meaning, run: seq<Config>, t: nat, e: Expr): int
    requires t < |run|
    decreases e
  {
    match e
    case Variable(i) => Entry(run[t], i)
    case Next(i) => if t + 1 < |run| then Entry(run[t + 1], i) else 0
    case Register(_) => 0
    case Apply(op, args) => m.apply(op, seq(|args|, k requires 0 <= k < |args| => Value(m, run, t, args[k])))
    case Past(what, ticks) => if ticks < 0 || t < ticks then m.default(what) else Value(m, run, t - ticks, what)
  }

  /** The same with registers; no $past is left to evaluate. */
  function XValue(m: Meaning, xs: seq<XConfig>, t: nat, e: Expr): int
    requires t < |xs|
    decreases e
  {
    match e
    case Variable(i) => Entry(xs[t].c, i)
    case Next(i) => if t + 1 < |xs| then Entry(xs[t + 1].c, i) else 0
    case Register(number) => xs[t].regs(number)
    case Apply(op, args) => m.apply(op, seq(|args|, k requires 0 <= k < |args| => XValue(m, xs, t, args[k])))
    case Past(_, _) => 0
  }

  function Configs(xs: seq<XConfig>): (r: seq<Config>)
    ensures |r| == |xs| && forall t :: 0 <= t < |xs| ==> r[t] == xs[t].c
  {
    seq(|xs|, t requires 0 <= t < |xs| => xs[t].c)
  }

  ghost predicate InitsHold(m: Meaning, inits: seq<InitConjunct>, x: XConfig) {
    forall i :: i in inits ==> x.regs(i.register) == m.default(i.what)
  }

  ghost predicate TransHold(m: Meaning, c: Chains, xs: seq<XConfig>, t: nat)
    requires t + 1 < |xs|
  {
    forall k :: k in c.trans ==> xs[t + 1].regs(k.register) == XValue(m, xs, t, Replace(c.pastMap, k.source))
  }

  /** A run of the register chains alone, after replacement. */
  ghost predicate ChainRun(m: Meaning, c: Chains, xs: seq<XConfig>) {
    && (xs != [] ==> InitsHold(m, c.inits, xs[0]))
    && forall t: nat :: t < |xs| - 1 ==> TransHold(m, c, xs, t)
  }

  /** At time t the registers hold the values of the uses they stand for. */
  ghost predicate RegistersRight(m: Meaning, pastMap: PastMap, xs: seq<XConfig>, t: nat)
    requires t < |xs|
  {
    forall u :: u in pastMap && u.Past? && u.ticks >= 1 && pastMap[u].Register? ==>
      xs[t].regs(pastMap[u].number) == Value(m, Configs(xs), t, u)
  }

  lemma {:induction false} PastFreeValue(m: Meaning, xs: seq<XConfig>, t: nat, e: Expr)
    requires t < |xs| && PastFree(e) && NoRegisters(e)
    ensures XValue(m, xs, t, e) == Value(m, Configs(xs), t, e)
  {
    if e.Apply? {
      forall k | 0 <= k < |e.args| ensures XValue(m, xs, t, e.args[k]) == Value(m, Configs(xs), t, e.args[k]) {
        PastFreeValue(m, xs, t, e.args[k]);
      }
      assert seq(|e.args|, k requires 0 <= k < |e.args| => XValue(m, xs, t, e.args[k]))
          == seq(|e.args|, k requires 0 <= k < |e.args| => Value(m, Configs(xs), t, e.args[k]));
    }
  }

  /** With the registers right, replacing the uses keeps the value of an expression. */
  lemma {:induction false} ReplacedValue(m: Meaning, all: set<Expr>, pastMap: PastMap, xs: seq<XConfig>, t: nat, e: Expr)
    requires Mapped(all, pastMap) && t < |xs| && RegistersRight(m, pastMap, xs, t)
    requires Collect(e) <= all && Plain(e) && NoRegisters(e)
    ensures XValue(m, xs, t, Replace(pastMap, e)) == Value(m, Configs(xs), t, e)
  {
    if e.Apply? {
      var args := Replace(pastMap, e).args;
      forall k | 0 <= k < |args| ensures XValue(m, xs, t, args[k]) == Value(m, Configs(xs), t, e.args[k]) {
        ArgCollected(e, k);
        ReplacedValue(m, all, pastMap, xs, t, e.args[k]);
      }
      assert seq(|args|, k requires 0 <= k < |args| => XValue(m, xs, t, args[k]))
          == seq(|e.args|, k requires 0 <= k < |e.args| => Value(m, Configs(xs), t, e.args[k]));
    } else if e.Past? {
      assert e in Collect(e) && e in pastMap;
      if e.ticks == 0 { PastFreeValue(m, xs, t, e.what); }
    }
  }

  /** $past(x, 0) is replaced by x as it is: a $past inside x is left in place. */
  lemma NestedPastStays(all: set<Expr>, pastMap: PastMap)
    requires Mapped(all, pastMap) && Past(Past(Variable(0), 1), 0) in all
    ensures Replace(pastMap, Past(Past(Variable(0), 1), 0)) == Past(Variable(0), 1)
    ensures !Plain(Past(Past(Variable(0), 1), 0))
  {
    assert Past(Past(Variable(0), 1), 0) in pastMap;
  }

  // ---------- What the registers hold ----------

  /** Uses whose inner uses are there as well. */
  ghost predicate PlainUses(all: set<Expr>) {
    forall u :: u in all ==> u.Past? && Plain(u) && NoRegisters(u) && Collect(u.what) <= all
  }

  /** On every run, what replaces $past(x, n) has the value of x n steps earlier, or the default. */
  lemma {:induction false} RegistersRemember(m: Meaning, all: set<Expr>, c: Chains, xs: seq<XConfig>, t: nat)
    requires Mapped(all, c.pastMap) && HasChains(all, c) && PlainUses(all) && ChainRun(m, c, xs) && t < |xs|
    ensures RegistersRight(m, c.pastMap, xs, t)
  {
    if t > 0 { RegistersRemember(m, all, c, xs, t - 1); }
    forall u | u in c.pastMap && u.Past? && u.ticks >= 1 && c.pastMap[u].Register?
      ensures xs[t].regs(c.pastMap[u].number) == Value(m, Configs(xs), t, u)
    {
      RegisterRight(m, all, c, xs, t, u);
    }
  }

  lemma RegisterRight(m: Meaning, all: set<Expr>, c: Chains, xs: seq<XConfig>, t: nat, u: Expr)
    requires Mapped(all, c.pastMap) && HasChains(all, c) && PlainUses(all) && ChainRun(m, c, xs) && t < |xs|
    requires t > 0 ==> RegistersRight(m, c.pastMap, xs, t - 1)
    requires u in c.pastMap && u.Past? && u.ticks >= 1 && c.pastMap[u].Register?
    ensures xs[t].regs(c.pastMap[u].number) == Value(m, Configs(xs), t, u)
  {
    if t == 0 {
      RegisterStarts(m, all, c, xs, t, u);
    } else {
      RegisterFollows(m, all, c, xs, t - 1, t, u);
    }
  }

  lemma RegisterStarts(m: Meaning, all: set<Expr>, c: Chains, xs: seq<XConfig>, t: nat, u: Expr)
    requires Mapped(all, c.pastMap) && HasChains(all, c) && ChainRun(m, c, xs) && t == 0 < |xs|
    requires u in c.pastMap && u.Past? && u.ticks >= 1 && c.pastMap[u].Register?
    ensures xs[t].regs(c.pastMap[u].number) == Value(m, Configs(xs), t, u)
  {
    assert InitOf(c.pastMap, u) in c.inits;
  }

  lemma RegisterFollows(m: Meaning, all: set<Expr>, c: Chains, xs: seq<XConfig>, before: nat, t: nat, u: Expr)
    requires Mapped(all, c.pastMap) && HasChains(all, c) && PlainUses(all) && t == before + 1 < |xs|
    requires ChainRun(m, c, xs) && RegistersRight(m, c.pastMap, xs, before)
    requires u in c.pastMap && u.Past? && u.ticks >= 1 && c.pastMap[u].Register?
    ensures xs[t].regs(c.pastMap[u].number) == Value(m, Configs(xs), t, u)
  {
    assert TransHold(m, c, xs, before) && TransOf(c.pastMap, u) in c.trans;
    SourceValue(m, all, c, xs, before, u);
    OneTickLater(m, Configs(xs), before, t, u);
  }

  /** The value of $past(x, n) one step later: that of x, or of $past(x, n - 1). */
  function EarlierValue(m: Meaning, run: seq<Config>, t: nat, u: Expr): int
    requires t < |run| && u.Past? && u.ticks >= 1
  {
    Value(m, run, t, if u.ticks == 1 then u.what else Shorter(u))
  }

  lemma OneTickLater(m: Meaning, run: seq<Config>, t: nat, after: nat, u: Expr)
    requires after == t + 1 < |run| && u.Past? && u.ticks >= 1
    ensures Value(m, run, after, u) == EarlierValue(m, run, t, u)
  {
  }

  lemma SourceValue(m: Meaning, all: set<Expr>, c: Chains, xs: seq<XConfig>, t: nat, u: Expr)
    requires Mapped(all, c.pastMap) && PlainUses(all) && t < |xs| && RegistersRight(m, c.pastMap, xs, t)
    requires Linked(c.pastMap, u)
    ensures XValue(m, xs, t, Replace(c.pastMap, Source(c.pastMap, u))) == EarlierValue(m, Configs(xs), t, u)
  {
    if u.ticks == 1 {
      UsePart(all, u);
      ReplacedValue(m, all, c.pastMap, xs, t, u.what);
    } else {
      RegisterValue(m, all, c.pastMap, xs, t, Shorter(u));
    }
  }

  lemma UsePart(all: set<Expr>, u: Expr)
    requires PlainUses(all) && u in all && u.Past?
    ensures Collect(u.what) <= all && Plain(u.what) && NoRegisters(u.what)
  {
  }

  lemma RegisterValue(m: Meaning, all: set<Expr>, pastMap: PastMap, xs: seq<XConfig>, t: nat, u: Expr)
    requires Mapped(all, pastMap) && t < |xs| && RegistersRight(m, pastMap, xs, t)
    requires u in pastMap && u.Past? && u.ticks >= 1
    ensures XValue(m, xs, t, Replace(pastMap, pastMap[u])) == Value(m, Configs(xs), t, u)
  {
    RegisterStays(all, pastMap, u);
  }

  /** The registers as they have to be at time t. */
  ghost function Recorded(m: Meaning, pastMap: PastMap, run: seq<Config>, t: nat): nat -> int
    requires t < |run|
  {
    (number: nat) =>
      if u :| u in pastMap && u.Past? && u.ticks >= 1 && pastMap[u] == Register(number) then Value(m, run, t, u) else 0
  }

  ghost function Extension(m: Meaning, pastMap: PastMap, run: seq<Config>): (xs: seq<XConfig>)
    ensures Configs(xs) == run
    ensures forall t :: 0 <= t < |run| ==> xs[t] == XConfig(run[t], Recorded(m, pastMap, run, t))
  {
    seq(|run|, t requires 0 <= t < |run| => XConfig(run[t], Recorded(m, pastMap, run, t)))
  }

  lemma ExtensionRight(m: Meaning, all: set<Expr>, pastMap: PastMap, run: seq<Config>, t: nat)
    requires Mapped(all, pastMap) && t < |run|
    ensures RegistersRight(m, pastMap, Extension(m, pastMap, run), t)
  {
    var xs := Extension(m, pastMap, run);
    forall u | u in pastMap && u.Past? && u.ticks >= 1 && pastMap[u].Register?
      ensures xs[t].regs(pastMap[u].number) == Value(m, Configs(xs), t, u)
    {
      OwnRegister(all, pastMap, u);
      assert xs[t].regs(pastMap[u].number) == Recorded(m, pastMap, run, t)(pastMap[u].number);
    }
  }

  /** No two uses share a register. */
  lemma OwnRegister(all: set<Expr>, pastMap: PastMap, u: Expr)
    requires Mapped(all, pastMap) && u in pastMap && u.Past? && u.ticks >= 1
    ensures pastMap[u].Register?
    ensures forall v :: v in pastMap && v.Past? && v.ticks >= 1 && pastMap[v] == Register(pastMap[u].number) ==> v == u
  {
  }

  /** Every run extends to a run with the chains ... */
  lemma ExtensionIsChainRun(m: Meaning, all: set<Expr>, c: Chains, run: seq<Config>)
    requires Mapped(all, c.pastMap) && OnlyChains(all, c) && PlainUses(all)
    ensures ChainRun(m, c, Extension(m, c.pastMap, run))
  {
    var xs := Extension(m, c.pastMap, run);
    if xs != [] { ExtensionStarts(m, all, c, run, xs); }
    forall t: nat | t < |xs| - 1 ensures TransHold(m, c, xs, t) {
      ExtensionFollows(m, all, c, run, xs, t, t + 1);
    }
  }

  lemma ExtensionStarts(m: Meaning, all: set<Expr>, c: Chains, run: seq<Config>, xs: seq<XConfig>)
    requires Mapped(all, c.pastMap) && OnlyChains(all, c) && xs == Extension(m, c.pastMap, run) && xs != []
    ensures InitsHold(m, c.inits, xs[0])
  {
    ExtensionRight(m, all, c.pastMap, run, 0);
    forall i | i in c.inits ensures xs[0].regs(i.register) == m.default(i.what) {
      StartRecorded(m, all, c, xs, 0, i);
    }
  }

  lemma StartRecorded(m: Meaning, all: set<Expr>, c: Chains, xs: seq<XConfig>, t: nat, i: InitConjunct)
    requires Mapped(all, c.pastMap) && OnlyChains(all, c) && t == 0 < |xs| && RegistersRight(m, c.pastMap, xs, t) && i in c.inits
    ensures xs[t].regs(i.register) == m.default(i.what)
  {
    var u :| u in all && Linked(c.pastMap, u) && i == InitOf(c.pastMap, u);
    assert xs[t].regs(i.register) == Value(m, Configs(xs), t, u);
  }

  lemma ExtensionFollows(m: Meaning, all: set<Expr>, c: Chains, run: seq<Config>, xs: seq<XConfig>, t: nat, after: nat)
    requires Mapped(all, c.pastMap) && OnlyChains(all, c) && PlainUses(all) && xs == Extension(m, c.pastMap, run) && after == t + 1 < |xs|
    ensures TransHold(m, c, xs, t)
  {
    ExtensionRight(m, all, c.pastMap, run, t);
    ExtensionRight(m, all, c.pastMap, run, after);
    forall k | k in c.trans ensures xs[after].regs(k.register) == XValue(m, xs, t, Replace(c.pastMap, k.source)) {
      SourceFollowed(m, all, c, xs, t, after, k);
    }
  }

  lemma SourceFollowed(m: Meaning, all: set<Expr>, c: Chains, xs: seq<XConfig>, t: nat, after: nat, k: TransConjunct)
    requires Mapped(all, c.pastMap) && OnlyChains(all, c) && PlainUses(all) && after == t + 1 < |xs| && k in c.trans
    requires RegistersRight(m, c.pastMap, xs, t) && RegistersRight(m, c.pastMap, xs, after)
    ensures xs[after].regs(k.register) == XValue(m, xs, t, Replace(c.pastMap, k.source))
  {
    var u :| u in all && Linked(c.pastMap, u) && k == TransOf(c.pastMap, u);
    SourceValue(m, all, c, xs, t, u);
    OneTickLater(m, Configs(xs), t, after, u);
  }

  /** ... and to only one, as far as the registers go. */
  lemma ExtensionUnique(m: Meaning, all: set<Expr>, c: Chains, xs: seq<XConfig>, ys: seq<XConfig>, t: nat, u: Expr)
    requires Mapped(all, c.pastMap) && HasChains(all, c) && PlainUses(all) && ChainRun(m, c, xs) && ChainRun(m, c, ys) && Configs(xs) == Configs(ys)
    requires t < |xs| == |ys| && Linked(c.pastMap, u)
    ensures xs[t].regs(c.pastMap[u].number) == ys[t].regs(c.pastMap[u].number)
  {
    RegistersRemember(m, all, c, xs, t);
    RegistersRemember(m, all, c, ys, t);
  }

  // ---------- Systems and properties with $past ----------

  /** A condition holds if its value is not 0. */
  datatype System = System(init: Expr, invar: Expr, trans: Expr, properties: seq<Expr>)

  function CollectAll(es: seq<Expr>): set<Expr> {
    set k, u | 0 <= k < |es| && u in Collect(es[k]) :: u
  }

  function Expressions(sys: System): seq<Expr> {
    [sys.init, sys.invar, sys.trans] + sys.properties
  }

  function Uses(sys: System): set<Expr> {
    CollectAll(Expressions(sys))
  }

  predicate PlainSystem(sys: System) {
    forall k :: 0 <= k < |Expressions(sys)| ==> Plain(Expressions(sys)[k])
  }

  /** The registers are fresh symbols. */
  predicate RegistersFresh(sys: System) {
    forall k :: 0 <= k < |Expressions(sys)| ==> NoRegisters(Expressions(sys)[k])
  }

  lemma UseCollected(sys: System, u: Expr)
    requires u in Uses(sys)
    ensures u.Past? && Collect(u) <= Uses(sys)
    ensures RegistersFresh(sys) ==> NoRegisters(u)
    ensures PlainSystem(sys) ==> Plain(u)
  {
    var es := Expressions(sys);
    var k :| 0 <= k < |es| && u in Collect(es[k]);
    CollectCollected(es[k], u);
    forall v | v in Collect(u) ensures v in Uses(sys) { assert v in Collect(es[k]); }
  }

  lemma UsesArePlain(sys: System, all: set<Expr>)
    requires Completes(Uses(sys), all) && PlainSystem(sys) && RegistersFresh(sys)
    ensures PlainUses(all)
  {
    forall u | u in all ensures u.Past? && Plain(u) && NoRegisters(u) && Collect(u.what) <= all {
      if u in Uses(sys) {
        UseCollected(sys, u);
      } else {
        var v :| v in Uses(sys) && Below(v, u);
        UseCollected(sys, v);
        assert Collect(u.what) <= Collect(v);
      }
    }
  }

  /** The instrumented system: conditions and properties without $past, and the register chains. */
  datatype XSystem = XSystem(sys: System, inits: seq<InitConjunct>, nexts: seq<TransConjunct>)

  function ReplaceAll(pastMap: PastMap, es: seq<Expr>): (r: seq<Expr>)
    ensures |r| == |es| && forall k :: 0 <= k < |es| ==> r[k] == Replace(pastMap, es[k])
  {
    seq(|es|, k requires 0 <= k < |es| => Replace(pastMap, es[k]))
  }

  function ReplacedTrans(c: Chains): (r: seq<TransConjunct>)
    ensures |r| == |c.trans|
    ensures forall k :: 0 <= k < |r| ==> r[k] == Follows(c.trans[k].register, Replace(c.pastMap, c.trans[k].source))
  {
    seq(|c.trans|, k requires 0 <= k < |c.trans| => Follows(c.trans[k].register, Replace(c.pastMap, c.trans[k].source)))
  }

  function Replaced(sys: System, c: Chains): XSystem {
    XSystem(System(Replace(c.pastMap, sys.init), Replace(c.pastMap, sys.invar), Replace(c.pastMap, sys.trans),
                   ReplaceAll(c.pastMap, sys.properties)),
            c.inits, ReplacedTrans(c))
  }

  /** No $past is left. */
  predicate Resolved(x: XSystem) {
    && (forall k :: 0 <= k < |Expressions(x.sys)| ==> PastFree(Expressions(x.sys)[k]))
    && forall k :: k in x.nexts ==> PastFree(k.source)
  }

  ghost predicate IsRun(m: Meaning, sys: System, run: seq<Config>) {
    && (run != [] ==> Value(m, run, 0, sys.init) != 0)
    && (forall t: nat :: t < |run| ==> Value(m, run, t, sys.invar) != 0)
    && (forall t: nat :: t < |run| - 1 ==> Value(m, run, t, sys.trans) != 0)
  }

  ghost predicate NextsHold(m: Meaning, nexts: seq<TransConjunct>, xs: seq<XConfig>, t: nat)
    requires t + 1 < |xs|
  {
    forall k :: k in nexts ==> xs[t + 1].regs(k.register) == XValue(m, xs, t, k.source)
  }

  ghost predicate IsXRun(m: Meaning, x: XSystem, xs: seq<XConfig>) {
    && (xs != [] ==> XValue(m, xs, 0, x.sys.init) != 0 && InitsHold(m, x.inits, xs[0]))
    && (forall t: nat :: t < |xs| ==> XValue(m, xs, t, x.sys.invar) != 0)
    && (forall t: nat :: t < |xs| - 1 ==> XValue(m, xs, t, x.sys.trans) != 0)
    && (forall t: nat :: t < |xs| - 1 ==> NextsHold(m, x.nexts, xs, t))
  }

  lemma NextsAreTrans(m: Meaning, c: Chains, xs: seq<XConfig>, t: nat)
    requires t + 1 < |xs|
    ensures NextsHold(m, ReplacedTrans(c), xs, t) <==> TransHold(m, c, xs, t)
  {
    var nexts := ReplacedTrans(c);
    if NextsHold(m, nexts, xs, t) {
      forall k | k in c.trans ensures xs[t + 1].regs(k.register) == XValue(m, xs, t, Replace(c.pastMap, k.source)) {
        var i :| 0 <= i < |c.trans| && c.trans[i] == k;
        assert nexts[i] in nexts;
      }
    }
  }

  lemma ChainsOfXRun(m: Meaning, c: Chains, xs: seq<XConfig>)
    ensures ChainRun(m, c, xs) <==>
      (xs != [] ==> InitsHold(m, c.inits, xs[0])) && forall t: nat :: t < |xs| - 1 ==> NextsHold(m, ReplacedTrans(c), xs, t)
  {
    forall t: nat | t < |xs| - 1 ensures NextsHold(m, ReplacedTrans(c), xs, t) <==> TransHold(m, c, xs, t) {
      NextsAreTrans(m, c, xs, t);
    }
  }

  lemma ExpressionPlain(sys: System, all: set<Expr>, e: Expr)
    requires Completes(Uses(sys), all) && PlainSystem(sys) && RegistersFresh(sys) && e in Expressions(sys)
    ensures Collect(e) <= all && Plain(e) && NoRegisters(e)
  {
    var k :| 0 <= k < |Expressions(sys)| && Expressions(sys)[k] == e;
    forall u | u in Collect(e) ensures u in all { assert u in Uses(sys); }
  }

  lemma ReplacedExpression(m: Meaning, sys: System, all: set<Expr>, c: Chains, xs: seq<XConfig>, t: nat, e: Expr)
    requires Completes(Uses(sys), all) && Chained(all, c) && PlainSystem(sys) && RegistersFresh(sys)
    requires ChainRun(m, c, xs) && t < |xs| && e in Expressions(sys)
    ensures XValue(m, xs, t, Replace(c.pastMap, e)) == Value(m, Configs(xs), t, e)
  {
    UsesArePlain(sys, all);
    RegistersRemember(m, all, c, xs, t);
    ExpressionPlain(sys, all, e);
    ReplacedValue(m, all, c.pastMap, xs, t, e);
  }

  /** The instrumentation keeps runs and properties: a sequence is a run of the instrumented system exactly
      when it satisfies the chains and its configurations are a run of the original system, and every
      property then has the same value at every moment. */
  lemma InstrumentationExact(m: Meaning, sys: System, all: set<Expr>, c: Chains, xs: seq<XConfig>)
    requires Completes(Uses(sys), all) && Chained(all, c) && PlainSystem(sys) && RegistersFresh(sys)
    ensures IsXRun(m, Replaced(sys, c), xs) <==> ChainRun(m, c, xs) && IsRun(m, sys, Configs(xs))
    ensures ChainRun(m, c, xs) ==> SameProperties(m, sys, Replaced(sys, c), xs)
  {
    ChainsOfXRun(m, c, xs);
    if ChainRun(m, c, xs) {
      var x, run := Replaced(sys, c), Configs(xs);
      forall t: nat | t < |xs|
        ensures XValue(m, xs, t, x.sys.init) == Value(m, run, t, sys.init)
        ensures XValue(m, xs, t, x.sys.invar) == Value(m, run, t, sys.invar)
        ensures XValue(m, xs, t, x.sys.trans) == Value(m, run, t, sys.trans)
      {
        ReplacedExpression(m, sys, all, c, xs, t, sys.init);
        ReplacedExpression(m, sys, all, c, xs, t, sys.invar);
        ReplacedExpression(m, sys, all, c, xs, t, sys.trans);
      }
      forall t: nat, k | t < |xs| && 0 <= k < |sys.properties|
        ensures XValue(m, xs, t, x.sys.properties[k]) == Value(m, run, t, sys.properties[k])
      {
        assert Expressions(sys)[3 + k] == sys.properties[k];
        ReplacedExpression(m, sys, all, c, xs, t, sys.properties[k]);
      }
    }
  }

  ghost predicate SameProperties(m: Meaning, sys: System, x: XSystem, xs: seq<XConfig>) {
    && |x.sys.properties| == |sys.properties|
    && forall t: nat, k :: t < |xs| && 0 <= k < |sys.properties| ==>
      XValue(m, xs, t, x.sys.properties[k]) == Value(m, Configs(xs), t, sys.properties[k])
  }

  /** x has the runs of sys and nothing else, up to registers, and its properties the same values. */
  ghost predicate Instruments(m: Meaning, sys: System, x: XSystem) {
    && (forall xs :: IsXRun(m, x, xs) ==> IsRun(m, sys, Configs(xs)) && SameProperties(m, sys, x, xs))
    && (forall run :: IsRun(m, sys, run) ==> exists xs :: IsXRun(m, x, xs) && Configs(xs) == run)
  }

  lemma ReplacedInstruments(m: Meaning, sys: System, all: set<Expr>, c: Chains)
    requires Completes(Uses(sys), all) && Chained(all, c) && PlainSystem(sys) && RegistersFresh(sys)
    ensures Instruments(m, sys, Replaced(sys, c))
  {
    forall xs | IsXRun(m, Replaced(sys, c), xs)
      ensures IsRun(m, sys, Configs(xs)) && SameProperties(m, sys, Replaced(sys, c), xs)
    {
      InstrumentationExact(m, sys, all, c, xs);
    }
    forall run | IsRun(m, sys, run) ensures exists xs :: IsXRun(m, Replaced(sys, c), xs) && Configs(xs) == run {
      var xs := Extension(m, c.pastMap, run);
      UsesArePlain(sys, all);
      ExtensionIsChainRun(m, all, c, run);
      InstrumentationExact(m, sys, all, c, xs);
    }
  }

  lemma UsesOfExpression(sys: System, k: nat)
    requires k < |Expressions(sys)|
    ensures Collect(Expressions(sys)[k]) <= Uses(sys)
  {
  }

  lemma ReplacedAt(sys: System, c: Chains, k: nat)
    requires k < |Expressions(sys)|
    ensures |Expressions(Replaced(sys, c).sys)| == |Expressions(sys)|
    ensures Expressions(Replaced(sys, c).sys)[k] == Replace(c.pastMap, Expressions(sys)[k])
  {
  }

  lemma PlainGetsResolved(sys: System, all: set<Expr>, c: Chains)
    requires Completes(Uses(sys), all) && Chained(all, c) && RegistersFresh(sys) && PlainSystem(sys)
    ensures Resolved(Replaced(sys, c))
  {
    var es, replaced := Expressions(sys), Expressions(Replaced(sys, c).sys);
    UsesArePlain(sys, all);
    forall k | 0 <= k < |replaced| ensures PastFree(replaced[k]) {
      ReplacedAt(sys, c, k);
      UsesOfExpression(sys, k);
      PlainIsResolved(all, c.pastMap, es[k]);
    }
    forall k | k in c.trans ensures PastFree(Replace(c.pastMap, k.source)) { SourceResolved(all, c, k); }
  }

  lemma ResolvedWasPlain(sys: System, all: set<Expr>, c: Chains)
    requires Completes(Uses(sys), all) && Chained(all, c) && RegistersFresh(sys) && Resolved(Replaced(sys, c))
    ensures PlainSystem(sys)
  {
    var es := Expressions(sys);
    forall k | k in c.trans ensures PastFree(Replace(c.pastMap, k.source)) {
      var i :| 0 <= i < |c.trans| && c.trans[i] == k;
      assert ReplacedTrans(c)[i] in ReplacedTrans(c);
    }
    forall k | 0 <= k < |es| ensures Plain(es[k]) {
      ReplacedAt(sys, c, k);
      UsesOfExpression(sys, k);
      ResolvedIsPlain(Uses(sys), all, c, es[k]);
    }
  }

  /** The replacement gets rid of every $past exactly for plain systems. */
  lemma ResolvedIff(sys: System, all: set<Expr>, c: Chains)
    requires Completes(Uses(sys), all) && Chained(all, c) && RegistersFresh(sys)
    ensures Resolved(Replaced(sys, c)) <==> PlainSystem(sys)
  {
    if PlainSystem(sys) { PlainGetsResolved(sys, all, c); }
    if Resolved(Replaced(sys, c)) { ResolvedWasPlain(sys, all, c); }
  }

  lemma SourceResolved(all: set<Expr>, c: Chains, k: TransConjunct)
    requires Mapped(all, c.pastMap) && OnlyChains(all, c) && PlainUses(all) && k in c.trans
    ensures PastFree(Replace(c.pastMap, k.source))
  {
    var u :| u in all && Linked(c.pastMap, u) && k == TransOf(c.pastMap, u);
    if u.ticks == 1 {
      UsePart(all, u);
      PlainIsResolved(all, c.pastMap, u.what);
    } else {
      RegisterStays(all, c.pastMap, Shorter(u));
    }
  }

  lemma RegisterStays(all: set<Expr>, pastMap: PastMap, u: Expr)
    requires Mapped(all, pastMap) && u in pastMap && u.Past? && u.ticks >= 1
    ensures pastMap[u].Register? && Replace(pastMap, pastMap[u]) == pastMap[u]
  {
    assert pastMap[u] !in pastMap;
  }

  /** Collects and completes the uses, chains them, and replaces them: no $past is left exactly for plain
      systems, and then runs and properties are kept, whatever the operators mean. */
  method InstrumentPast(sys: System) returns (x: XSystem)
    requires RegistersFresh(sys)
    ensures Resolved(x) <==> PlainSystem(sys)
    ensures PlainSystem(sys) ==> forall m :: Instruments(m, sys, x)
  {
    forall u | u in Uses(sys) ensures u.Past? { UseCollected(sys, u); }
    var all := CompletePastSet(Uses(sys));
    var c := ModelPast(Uses(sys), all);
    ResolvedIff(sys, all, c);
    if PlainSystem(sys) {
      forall m ensures Instruments(m, sys, Replaced(sys, c)) { ReplacedInstruments(m, sys, all, c); }
    }
    x := Replaced(sys, c);
  }
}

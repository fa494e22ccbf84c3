/** The binary AND section of the AIGER format: deltas in little-endian groups of seven bits. */
module AigerBinary {
  import opened Options
  import opened Powers
  import opened AigerNetwork

  const WORD: nat := 0x1_0000_0000

  type Byte = b: int | 0 <= b < 256

  // ---------- Writing a delta ----------

  /** The code of a number: all groups but the last carry the continuation bit. */
  function Code(x: nat): (r: seq<Byte>)
    ensures |r| > 0
  {
    if x < 128 then [x] else [x % 128 + 128] + Code(x / 128)
  }

  /** A bounded character sink: put fails when the buffer is full. */
  class Sink {
    const capacity: nat
    var written: seq<Byte>

    ghost predicate Valid()
      reads this
    {
      |written| <= capacity
    }

    constructor (capacity: nat)
      ensures Valid() && this.capacity == capacity && written == []
    {
      this.capacity := capacity;
      written := [];
    }

    method Put(ch: Byte) returns (ok: bool)
      requires Valid()
      modifies this
      ensures Valid()
      ensures ok <==> |old(written)| < capacity
      ensures written == if ok then old(written) + [ch] else old(written)
    {
      ok := |written| < capacity;
      if ok { written := written + [ch]; }
    }
  }

  /** Writes the code of delta, or as much of it as fits. */
  method WriteDelta(delta: nat, sink: Sink) returns (ok: bool)
    requires sink.Valid()
    modifies sink
    ensures sink.Valid()
    ensures ok <==> |old(sink.written)| + |Code(delta)| <= sink.capacity
    ensures ok ==> sink.written == old(sink.written) + Code(delta)
    ensures old(sink.written) <= sink.written <= old(sink.written) + Code(delta)
  {
    var tmp := delta;
    ghost var total := sink.written + Code(delta);
    while tmp >= 128
      invariant sink.Valid() && old(sink.written) <= sink.written
      invariant sink.written + Code(tmp) == total
    {
      ghost var before := sink.written;
      ok := sink.Put(tmp % 128 + 128);
      CodeStep(before, tmp);
      if !ok { return; }
      tmp := tmp / 128;
    }
    ok := sink.Put(tmp);
  }

  lemma CodeStep(before: seq<Byte>, tmp: nat)
    requires tmp >= 128
    ensures before + Code(tmp) == (before + [tmp % 128 + 128]) + Code(tmp / 128)
  {}

  // ---------- Reading a delta ----------

  /** What reading a delta can end in. A sixth byte below 8 is accepted by the range check although
      its shift distance of 35 is undefined for a 32-bit operand. */
  datatype Delta = Value(value: nat, next: nat) | UnexpectedEof | InvalidCode | UndefinedShift

  /** The low 32 bits of x << k. */
  function Shl32(x: nat, k: nat): (r: nat)
    ensures r < WORD
  {
    ModBelow(x * Pow2(k), WORD);
    (x * Pow2(k)) % WORD
  }

  lemma ModBelow(x: nat, d: nat)
    requires d > 0
    ensures 0 <= x % d < d
  {}

  /** The reader's loop from position pos with i groups read into res. */
  function Parse(data: seq<Byte>, pos: nat, i: nat, res: nat): Delta
    requires pos <= |data|
    decreases |data| - pos
  {
    if pos == |data| then UnexpectedEof
    else if data[pos] >= 128 then
      if i == 5 then InvalidCode else Parse(data, pos + 1, i + 1, res + Shl32(data[pos] - 128, 7 * i))
    else if i == 5 then (if data[pos] >= 8 then InvalidCode else UndefinedShift)
    else Value(res + Shl32(data[pos], 7 * i), pos + 1)
  }

  class Reader {
    const data: seq<Byte>
    var pos: nat

    ghost predicate Valid()
      reads this
    {
      pos <= |data|
    }

    constructor (data: seq<Byte>, pos: nat)
      requires pos <= |data|
      ensures Valid() && this.data == data && this.pos == pos
    {
      this.data := data;
      this.pos := pos;
    }

    predicate AtEof()
      reads this
    {
      pos >= |data|
    }

    method NextCh()
      requires Valid() && !AtEof()
      modifies this
      ensures Valid() && pos == old(pos) + 1
    {
      pos := pos + 1;
    }

    /** Reads one delta; on success the reader stands just past it. */
    method ReadDelta() returns (r: Delta)
      requires Valid()
      modifies this
      ensures Valid()
      ensures r == Parse(data, old(pos), 0, 0)
      ensures r.Value? ==> pos == r.next
    {
      if AtEof() { return UnexpectedEof; }
      var i: nat, res: nat := 0, 0;
      var ch := data[pos];
      while ch >= 128
        invariant Valid() && !AtEof() && ch == data[pos] && i <= 5
        invariant Parse(data, old(pos), 0, 0) == Parse(data, pos, i, res)
        decreases |data| - pos
      {
        if i == 5 { return InvalidCode; }
        res := res + Shl32(ch - 128, 7 * i);
        i := i + 1;
        NextCh();
        if AtEof() { return UnexpectedEof; }
        ch := data[pos];
      }
      if i == 5 && ch >= 8 { return InvalidCode; }
      if i == 5 { return UndefinedShift; }
      res := res + Shl32(ch, 7 * i);
      NextCh();
      return Value(res, pos);
    }
  }

  // ---------- The two directions agree ----------

  /** code stands at position pos of data. */
  predicate At(data: seq<Byte>, pos: nat, code: seq<Byte>) {
    pos + |code| <= |data| && data[pos..pos + |code|] == code
  }

  lemma AtRest(data: seq<Byte>, pos: nat, code: seq<Byte>)
    requires |code| > 0 && At(data, pos, code)
    ensures data[pos] == code[0] && At(data, pos + 1, code[1..])
  {
    assert data[pos..pos + |code|][0] == data[pos];
    assert data[pos..pos + |code|][1..] == data[pos + 1..pos + |code|];
  }

  /** The reader recovers what is left of a written number. */
  lemma {:induction false} ParseCode(data: seq<Byte>, pos: nat, i: nat, res: nat, x: nat)
    requires i <= 4 && At(data, pos, Code(x)) && x * Pow2(7 * i) < WORD
    ensures Parse(data, pos, i, res) == Value(res + x * Pow2(7 * i), pos + |Code(x)|)
    decreases x
  {
    AtRest(data, pos, Code(x));
    if x < 128 {
      SmallShift(x, i);
    } else {
      var low, high := x % 128, x / 128;
      GroupSplit(x, low, high, i);
      assert Code(x)[1..] == Code(high);
      ParseCode(data, pos + 1, i + 1, res + Shl32(low, 7 * i), high);
    }
  }

  lemma SmallShift(x: nat, i: nat)
    requires x * Pow2(7 * i) < WORD
    ensures Shl32(x, 7 * i) == x * Pow2(7 * i)
  {
    DivUnique(x * Pow2(7 * i), WORD, 0, x * Pow2(7 * i));
  }

  lemma NextGroup(i: nat)
    ensures Pow2(7 * (i + 1)) == 128 * Pow2(7 * i)
  {
    Pow2Add(7, 7 * i);
    assert 7 * (i + 1) == 7 + 7 * i;
    assert Pow2(7) == 128 by { assert Pow2(3) == 8; assert Pow2(5) == 32; }
  }

  lemma FifthGroup()
    ensures Pow2(28) == 0x1000_0000
  {
    assert Pow2(7) == 128 by { assert Pow2(4) == 16; }
    Pow2Add(7, 7);
    Pow2Add(14, 14);
  }

  lemma SplitProduct(x: nat, low: nat, high: nat, p: nat)
    requires low == x % 128 && high == x / 128
    ensures x * p == high * (128 * p) + low * p
  {
    assert x == high * 128 + low;
  }

  lemma GroupSplit(x: nat, low: nat, high: nat, i: nat)
    requires x >= 128 && low == x % 128 && high == x / 128 && i <= 4 && x * Pow2(7 * i) < WORD
    ensures i < 4 && high * Pow2(7 * (i + 1)) < WORD
    ensures Shl32(low, 7 * i) + high * Pow2(7 * (i + 1)) == x * Pow2(7 * i)
  {
    var p := Pow2(7 * i);
    FifthGroup();
    NextGroup(i);
    MulMonotone(128, x, p);
    if i == 4 { assert false; }
    SplitProduct(x, low, high, p);
    MulNonNegative(low, p);
    MulNonNegative(high, 128 * p);
    SmallShift(low, i);
  }

  /** What is written for a number is a complete code that stands for it, and no complete code is shorter. */
  lemma {:induction false} CodeMeaning(x: nat)
    ensures Complete(Code(x)) && Meaning(Code(x)) == x
    ensures forall code :: Complete(code) && Meaning(code) == x ==> |Code(x)| <= |code|
    decreases x
  {
    if x >= 128 {
      var rest := Code(x / 128);
      CodeMeaning(x / 128);
      assert Code(x) == [x % 128 + 128] + rest;
      CompleteStep(x % 128 + 128, rest);
      MeaningStep(x % 128 + 128, rest);
      forall code | Complete(code) && Meaning(code) == x ensures |Code(x)| <= |code| { LongerThan(code, x); }
    }
  }

  lemma LongerThan(code: seq<Byte>, x: nat)
    requires Complete(code) && Meaning(code) == x >= 128
    ensures |code| > 1 && Complete(code[1..]) && Meaning(code[1..]) == x / 128
  {
    DivUnique(x, 128, Meaning(code[1..]), Group(code[0]));
  }

  /** Reading inverts writing on every 32-bit value and stops just past it. */
  lemma DeltaRoundTrip(data: seq<Byte>, pos: nat, x: nat)
    requires x < WORD && At(data, pos, Code(x))
    ensures Parse(data, pos, 0, 0) == Value(x, pos + |Code(x)|)
  {
    assert Pow2(0) == 1;
    ParseCode(data, pos, 0, 0, x);
  }

  // ---------- What the reader makes of arbitrary bytes ----------

  /** A byte without its continuation bit. */
  function Group(ch: Byte): nat {
    if ch >= 128 then ch - 128 else ch
  }

  /** The number a complete code stands for. */
  function Meaning(code: seq<Byte>): nat {
    if code == [] then 0
    else Group(code[0]) + 128 * Meaning(code[1..])
  }

  /** A complete code: continuation bits on all groups but the last. */
  predicate Complete(code: seq<Byte>) {
    |code| > 0 && code[|code| - 1] < 128 && forall k :: 0 <= k < |code| - 1 ==> code[k] >= 128
  }

  /** The bytes of a read value form a complete code of at most five groups, and the value is the low
      32 bits of its meaning. */
  lemma {:induction false} ParseMeaning(data: seq<Byte>, pos: nat, i: nat, res: nat)
    requires pos <= |data| && i <= 5 && Parse(data, pos, i, res).Value?
    ensures var r := Parse(data, pos, i, res);
      && pos < r.next <= |data| && Complete(data[pos..r.next]) && i + (r.next - pos) <= 5
      && r.value == res + Shl32(Meaning(data[pos..r.next]), 7 * i)
    decreases |data| - pos
  {
    var r := Parse(data, pos, i, res);
    if data[pos] < 128 {
      assert data[pos..pos + 1] == [data[pos]];
      assert Meaning([data[pos]]) == data[pos];
    } else {
      ParseMeaning(data, pos + 1, i + 1, res + Shl32(data[pos] - 128, 7 * i));
      LongerCode(data, pos, r.next, i, i + 1);
    }
  }

  lemma LongerCode(data: seq<Byte>, pos: nat, next: nat, i: nat, after: nat)
    requires pos + 1 <= next <= |data| && data[pos] >= 128 && Complete(data[pos + 1..next]) && i < 4 && after == i + 1
    ensures Complete(data[pos..next])
    ensures Shl32(data[pos] - 128, 7 * i) + Shl32(Meaning(data[pos + 1..next]), 7 * after) == Shl32(Meaning(data[pos..next]), 7 * i)
  {
    var rest := data[pos + 1..next];
    assert data[pos..next] == [data[pos]] + rest;
    CompleteStep(data[pos], rest);
    ValueJoin(data[pos], rest, i, after);
  }

  lemma MeaningStep(first: Byte, rest: seq<Byte>)
    requires first >= 128
    ensures Meaning([first] + rest) == first - 128 + 128 * Meaning(rest)
  {
    assert ([first] + rest)[1..] == rest;
  }

  lemma CompleteStep(first: Byte, rest: seq<Byte>)
    requires first >= 128 && Complete(rest)
    ensures Complete([first] + rest)
  {
    var code := [first] + rest;
    forall k | 0 <= k < |code| - 1 ensures code[k] >= 128 {
      if k > 0 { assert code[k] == rest[k - 1]; }
    }
  }

  /** Shifting the low group and the rest separately loses the same high bits as shifting them together. */
  lemma GroupsJoin(low: nat, high: nat, i: nat)
    requires low < 128 && i < 4
    ensures Shl32(low, 7 * i) + Shl32(high, 7 * (i + 1)) == Shl32(low + 128 * high, 7 * i)
  {
    var p, d := Pow2(7 * i), Pow2(7 * (i + 1));
    NextGroup(i);
    var c := WordGroups(i);
    LowPart(low, p, d, c);
    SmallShift(low, i);
    ScaledMod(high, c, d);
    assert (low + 128 * high) * p == low * p + high * d;
    var q, r := DivMod(high * d, WORD);
    assert low * p + r < WORD by {
      var m := high % c;
      NextMultiple(m, c, d);
    }
    DivUnique(low * p + high * d, WORD, q, low * p + r);
  }

  lemma ValueJoin(first: Byte, rest: seq<Byte>, i: nat, after: nat)
    requires first >= 128 && i < 4 && after == i + 1
    ensures Shl32(first - 128, 7 * i) + Shl32(Meaning(rest), 7 * after) == Shl32(Meaning([first] + rest), 7 * i)
  {
    MeaningStep(first, rest);
    GroupsJoin(first - 128, Meaning(rest), i);
  }

  lemma WordGroups(i: nat) returns (c: nat)
    requires i < 4
    ensures c > 0 && WORD == c * Pow2(7 * (i + 1))
  {
    FifthGroup();
    assert Pow2(0) == 1;
    NextGroup(0); NextGroup(1); NextGroup(2);
    c := if i == 0 then 0x200_0000 else if i == 1 then 0x4_0000 else if i == 2 then 0x800 else 0x10;
  }

  lemma LowPart(low: nat, p: nat, d: nat, c: nat)
    requires low < 128 && p > 0 && d == 128 * p && c > 0 && WORD == c * d
    ensures low * p + p <= d && low * p < WORD
  {
    MulStrict(low, 128, p);
    MulMonotone(1, c, d);
  }

  /** A multiple of d modulo c * d is again a multiple of d. */
  lemma ScaledMod(high: nat, c: nat, d: nat)
    requires c > 0 && d > 0 && WORD == c * d
    ensures high % c < c && (high * d) % WORD == (high % c) * d
  {
    var q, r := DivMod(high, c);
    assert high * d == q * (c * d) + r * d;
    MulStrict(r, c, d);
    MulNonNegative(r, d);
    DivUnique(high * d, WORD, q, r * d);
  }

  /** What the reader makes of a complete code: it is read if it has at most five groups, and otherwise
      rejected, unless a sixth and last group below 8 passes the range check and is shifted too far. */
  lemma {:induction false} CompleteOutcome(data: seq<Byte>, pos: nat, i: nat, res: nat, code: seq<Byte>)
    requires i <= 5 && Complete(code) && At(data, pos, code)
    ensures var r := Parse(data, pos, i, res);
      if i + |code| <= 5 then r.Value? && r.next == pos + |code|
      else if i + |code| == 6 && code[|code| - 1] < 8 then r == UndefinedShift
      else r == InvalidCode
    decreases |code|
  {
    AtRest(data, pos, code);
    if |code| > 1 && i < 5 {
      CompleteOutcome(data, pos + 1, i + 1, res + Shl32(code[0] - 128, 7 * i), code[1..]);
    }
  }

  /** What the reader makes of continuation bytes up to the end of the data. */
  lemma {:induction false} UnfinishedOutcome(data: seq<Byte>, pos: nat, i: nat, res: nat)
    requires i <= 5 && pos <= |data| && forall k :: pos <= k < |data| ==> data[k] >= 128
    ensures Parse(data, pos, i, res) == if i + (|data| - pos) <= 5 then UnexpectedEof else InvalidCode
    decreases |data| - pos
  {
    if pos < |data| && i < 5 {
      UnfinishedOutcome(data, pos + 1, i + 1, res + Shl32(data[pos] - 128, 7 * i));
    }
  }

  /** There is no third kind of bytes. */
  lemma {:induction false} CompleteOrUnfinished(data: seq<Byte>, pos: nat)
    requires pos <= |data|
    ensures (exists code :: Complete(code) && At(data, pos, code)) || forall k :: pos <= k < |data| ==> data[k] >= 128
    decreases |data| - pos
  {
    if pos < |data| {
      if data[pos] < 128 {
        assert Complete([data[pos]]) && At(data, pos, [data[pos]]);
      } else {
        CompleteOrUnfinished(data, pos + 1);
        if rest :| Complete(rest) && At(data, pos + 1, rest) {
          CompleteStep(data[pos], rest);
          assert data[pos..pos + 1 + |rest|] == [data[pos]] + rest;
          assert At(data, pos, [data[pos]] + rest);
        }
      }
    }
  }

  /** Exactly the complete codes of at most five groups that stand for a 32-bit number are read as it. */
  lemma ReadsMeaningIff(data: seq<Byte>, pos: nat, code: seq<Byte>)
    requires Complete(code) && At(data, pos, code)
    ensures Parse(data, pos, 0, 0) == Value(Meaning(code), pos + |code|) <==> |code| <= 5 && Meaning(code) < WORD
  {
    CompleteOutcome(data, pos, 0, 0, code);
    if |code| <= 5 {
      ParseMeaning(data, pos, 0, 0);
      assert Pow2(0) == 1;
      if Meaning(code) < WORD { SmallShift(Meaning(code), 0); }
    }
  }

  // ---------- Shifts of promoted bytes ----------

  /** The source shifts a group as an int: the distance must be below 32, and the result must fit. */
  predicate ShiftFits(code: seq<Byte>, k: nat)
    requires k < |code|
  {
    7 * k < 32 && Group(code[k]) * Pow2(7 * k) < 0x8000_0000
  }

  /** No shift leaves the range of int exactly for codes of at most five groups and 31 bits. */
  lemma ShiftsFitIff(code: seq<Byte>)
    requires Complete(code)
    ensures (forall k :: 0 <= k < |code| ==> ShiftFits(code, k)) <==> |code| <= 5 && Meaning(code) < 0x8000_0000
  {
    forall k: nat | k < |code| && k < 4 ensures ShiftFits(code, k) { LowShiftFits(code, k); }
    if |code| > 5 {
      assert !ShiftFits(code, 5);
    } else if |code| == 5 {
      FifthGroup();
      FiveGroups(code);
      assert ShiftFits(code, 4) <==> Group(code[4]) < 8;
    } else {
      FewGroups(code);
    }
  }

  lemma LowShiftFits(code: seq<Byte>, k: nat)
    requires k < |code| && k < 4
    ensures ShiftFits(code, k)
  {
    FifthGroup();
    Pow2Monotone(7 * k, 21);
    Pow2Add(7, 21);
    assert Pow2(7) == 128 by { assert Pow2(4) == 16; }
    MulMonotone(Group(code[k]), 127, Pow2(7 * k));
  }

  lemma {:induction false} FewGroups(code: seq<Byte>)
    ensures |code| <= 4 ==> Meaning(code) < 0x1000_0000
    ensures |code| <= 3 ==> Meaning(code) < 0x20_0000
    ensures |code| <= 2 ==> Meaning(code) < 0x4000
    ensures |code| <= 1 ==> Meaning(code) < 0x80
    decreases |code|
  {
    if |code| > 0 { FewGroups(code[1..]); }
  }

  lemma FiveGroups(code: seq<Byte>)
    requires |code| == 5
    ensures Meaning(code) < 0x8000_0000 <==> Group(code[4]) < 8
  {
    FewGroups(code[..4]);
    FifthGroup();
    LastGroup(code, 4);
  }

  lemma {:induction false} LastGroup(code: seq<Byte>, n: nat)
    requires |code| == n + 1
    ensures Meaning(code) == Meaning(code[..n]) + Pow2(7 * n) * Group(code[n])
    decreases n
  {
    if n == 0 {
      assert Pow2(7 * n) == 1 && code[1..] == [];
    } else {
      var rest := code[1..];
      LastGroup(rest, n - 1);
      assert code[..n][1..] == rest[..n - 1];
      NextGroup(n - 1);
      MulAssociates(128, Pow2(7 * (n - 1)), Group(code[n]));
    }
  }

  /** A five-byte code of 2^32 is accepted and read as 0, and the sixth byte is reached. */
  lemma OverlongCodes()
    ensures Parse([128, 128, 128, 128, 16], 0, 0, 0) == Value(0, 5)
    ensures Parse([128, 128, 128, 128, 128, 0], 0, 0, 0).UndefinedShift?
  {
    var a, b := [128, 128, 128, 128, 16], [128, 128, 128, 128, 128, 0];
    forall k: nat ensures Shl32(0, k) == 0 {
      assert 0 * Pow2(k) == 0;
    }
    FifthGroup();
    assert 16 * Pow2(28) == WORD;
    assert Parse(a, 4, 4, 0) == Value(0, 5);
    assert Parse(a, 3, 3, 0) == Value(0, 5);
    assert Parse(a, 2, 2, 0) == Value(0, 5);
    assert Parse(a, 1, 1, 0) == Value(0, 5);
    assert Parse(b, 5, 5, 0) == UndefinedShift;
    assert Parse(b, 4, 4, 0) == UndefinedShift;
    assert Parse(b, 3, 3, 0) == UndefinedShift;
    assert Parse(b, 2, 2, 0) == UndefinedShift;
    assert Parse(b, 1, 1, 0) == UndefinedShift;
  }

  // ---------- The AND section ----------

  /** The left-hand sides count up in steps of two from lhs, and lhs >= rhs0 >= rhs1. */
  predicate Ordered(ands: seq<And>, lhs: nat) {
    forall k :: 0 <= k < |ands| ==> ands[k].lhs == lhs + 2 * k && lhs + 2 * k >= ands[k].rhs0 >= ands[k].rhs1
  }

  function Section(ands: seq<And>): seq<Byte>
    requires forall k :: 0 <= k < |ands| ==> ands[k].lhs >= ands[k].rhs0 >= ands[k].rhs1
  {
    if ands == [] then []
    else Code(ands[0].lhs - ands[0].rhs0) + Code(ands[0].rhs0 - ands[0].rhs1) + Section(ands[1..])
  }

  method WriteAnd(gate: And, lhs: nat, sink: Sink) returns (ok: bool)
    requires lhs >= gate.rhs0 >= gate.rhs1 && sink.Valid()
    modifies sink
    ensures sink.Valid()
    ensures ok <==> |old(sink.written)| + |Code(lhs - gate.rhs0)| + |Code(gate.rhs0 - gate.rhs1)| <= sink.capacity
    ensures ok ==> sink.written == (old(sink.written) + Code(lhs - gate.rhs0)) + Code(gate.rhs0 - gate.rhs1)
  {
    ok := WriteDelta(lhs - gate.rhs0, sink);
    if !ok { return; }
    ok := WriteDelta(gate.rhs0 - gate.rhs1, sink);
  }

  /** Writes the ANDs, or as much of the section as fits. */
  method WriteAnds(ands: seq<And>, first: nat, sink: Sink) returns (ok: bool)
    requires Ordered(ands, first) && sink.Valid()
    modifies sink
    ensures sink.Valid()
    ensures ok <==> |old(sink.written)| + |Section(ands)| <= sink.capacity
    ensures ok ==> sink.written == old(sink.written) + Section(ands)
  {
    var lhs := first;
    var i := 0;
    ghost var total := sink.written + Section(ands);
    while i < |ands|
      invariant 0 <= i <= |ands| && lhs == first + 2 * i && sink.Valid()
      invariant Ordered(ands[i..], lhs)
      invariant sink.written + Section(ands[i..]) == total
    {
      SectionStep(ands[i..], sink.written);
      assert ands[i..][1..] == ands[i + 1..];
      ok := WriteAnd(ands[i], lhs, sink);
      if !ok { return; }
      lhs := lhs + 2;
      i := i + 1;
    }
    assert ands[i..] == [] && sink.written == total;
    return true;
  }

  lemma SectionStep(ands: seq<And>, before: seq<Byte>)
    requires |ands| > 0 && Ordered(ands, ands[0].lhs)
    ensures Ordered(ands[1..], ands[0].lhs + 2)
    ensures before + Section(ands) ==
            ((before + Code(ands[0].lhs - ands[0].rhs0)) + Code(ands[0].rhs0 - ands[0].rhs1)) + Section(ands[1..])
    ensures |before| + |Code(ands[0].lhs - ands[0].rhs0)| + |Code(ands[0].rhs0 - ands[0].rhs1)| <= |before + Section(ands)|
  {
    forall k | 0 <= k < |ands| - 1
      ensures ands[1..][k].lhs == ands[0].lhs + 2 + 2 * k >= ands[1..][k].rhs0 >= ands[1..][k].rhs1
    {
      assert ands[1..][k] == ands[k + 1];
    }
  }

  datatype AndSection = Ands(ands: seq<And>, next: nat) | BadDelta(delta: Delta) | InvalidDelta

  /** The reader's loop with count ANDs to go after left-hand side lhs. */
  function ParseAnds(data: seq<Byte>, pos: nat, lhs: nat, count: nat): AndSection
    requires pos <= |data|
    decreases count
  {
    if count == 0 then Ands([], pos)
    else
      var d0 := Parse(data, pos, 0, 0);
      if !d0.Value? then BadDelta(d0)
      else if d0.value > lhs + 2 then InvalidDelta
      else
        ParseWithin(data, pos, 0, 0);
        var d1 := Parse(data, d0.next, 0, 0);
        if !d1.Value? then BadDelta(d1)
        else if d1.value > lhs + 2 - d0.value then InvalidDelta
        else
          ParseWithin(data, d0.next, 0, 0);
          var rest := ParseAnds(data, d1.next, lhs + 2, count - 1);
          if rest.Ands? then
            Ands([And(lhs + 2, lhs + 2 - d0.value, lhs + 2 - d0.value - d1.value)] + rest.ands, rest.next)
          else rest
  }

  lemma {:induction false} ParseWithin(data: seq<Byte>, pos: nat, i: nat, res: nat)
    requires pos <= |data| && Parse(data, pos, i, res).Value?
    ensures Parse(data, pos, i, res).next <= |data|
    decreases |data| - pos
  {
    if data[pos] >= 128 { ParseWithin(data, pos + 1, i + 1, res + Shl32(data[pos] - 128, 7 * i)); }
  }

  /** What one round of the reader does at position pos. */
  ghost predicate ReadsGate(data: seq<Byte>, pos: nat, lhs: nat, gate: And, next: nat) {
    && pos <= |data| && Parse(data, pos, 0, 0).Value?
    && var d0 := Parse(data, pos, 0, 0);
    && d0.next <= |data| && d0.value <= lhs + 2 && Parse(data, d0.next, 0, 0).Value?
    && var d1 := Parse(data, d0.next, 0, 0);
    && d1.next == next <= |data| && d1.value <= lhs + 2 - d0.value
    && gate == And(lhs + 2, lhs + 2 - d0.value, lhs + 2 - d0.value - d1.value)
  }

  /** Reads the two deltas of one gate. */
  method ReadGate(reader: Reader, last: nat) returns (gate: And, failure: Option<AndSection>)
    requires reader.Valid()
    modifies reader
    ensures reader.Valid()
    ensures failure.None? ==> ReadsGate(reader.data, old(reader.pos), last, gate, reader.pos)
    ensures failure.Some? ==>
              !failure.value.Ands? && forall count :: count > 0 ==> ParseAnds(reader.data, old(reader.pos), last, count) == failure.value
  {
    var lhs := last + 2;
    gate := And(lhs, 0, 0);
    var delta := reader.ReadDelta();
    if !delta.Value? { return gate, Some(BadDelta(delta)); }
    if delta.value > lhs { return gate, Some(InvalidDelta); }
    var rhs0 := lhs - delta.value;
    delta := reader.ReadDelta();
    if !delta.Value? { return gate, Some(BadDelta(delta)); }
    if delta.value > rhs0 { return gate, Some(InvalidDelta); }
    return And(lhs, rhs0, rhs0 - delta.value), None;
  }

  /** One more gate in front of the rest of the section. */
  lemma GateRead(data: seq<Byte>, pos: nat, lhs: nat, count: nat, ands: seq<And>, gate: And, next: nat)
    requires count > 0 && ReadsGate(data, pos, lhs, gate, next)
    ensures next <= |data|
    ensures Prefixed(ands, ParseAnds(data, pos, lhs, count)) == Prefixed(ands + [gate], ParseAnds(data, next, lhs + 2, count - 1))
  {
    var rest := ParseAnds(data, next, lhs + 2, count - 1);
    if rest.Ands? { assert ands + ([gate] + rest.ands) == (ands + [gate]) + rest.ands; }
  }

  /** Reads count ANDs after the inputs and latches, whose largest literal is lhs. */
  method ReadAnds(reader: Reader, first: nat, count: nat) returns (r: AndSection)
    requires reader.Valid()
    modifies reader
    ensures reader.Valid() && r == ParseAnds(reader.data, old(reader.pos), first, count)
    ensures r.Ands? ==> |r.ands| == count && GatesAt(reader.data, old(reader.pos), first + 2, r.ands, r.next)
    ensures !r.Ands? ==> NoGatesAt(reader.data, old(reader.pos), first + 2, count)
    ensures r.Ands? ==> reader.pos == r.next
  {
    SectionOutcome(reader.data, reader.pos, first, first + 2, count);
    var lhs: nat := first;
    var ands: seq<And> := [];
    var i := 0;
    while i < count
      invariant 0 <= i <= count && reader.Valid()
      invariant ParseAnds(reader.data, old(reader.pos), first, count) ==
                Prefixed(ands, ParseAnds(reader.data, reader.pos, lhs, count - i))
    {
      ghost var pos := reader.pos;
      var gate, failure := ReadGate(reader, lhs);
      if failure.Some? { return failure.value; }
      GateRead(reader.data, pos, lhs, count - i, ands, gate, reader.pos);
      lhs := lhs + 2;
      ands := ands + [gate];
      i := i + 1;
    }
    assert ands + [] == ands;
    return Ands(ands, reader.pos);
  }

  function Prefixed(ands: seq<And>, s: AndSection): AndSection {
    if s.Ands? then Ands(ands + s.ands, s.next) else s
  }

  lemma ParseAndsStep(data: seq<Byte>, pos: nat, lhs: nat, x0: nat, n0: nat, x1: nat, n1: nat, ands: seq<And>, next: nat)
    requires pos <= |data| && n0 <= |data| && n1 <= |data| && |ands| > 0
    requires Parse(data, pos, 0, 0) == Value(x0, n0) && Parse(data, n0, 0, 0) == Value(x1, n1)
    requires x0 <= lhs + 2 && x1 <= lhs + 2 - x0
    requires ands[0] == And(lhs + 2, lhs + 2 - x0, lhs + 2 - x0 - x1)
    requires ParseAnds(data, n1, lhs + 2, |ands| - 1) == Ands(ands[1..], next)
    ensures ParseAnds(data, pos, lhs, |ands|) == Ands(ands, next)
  {
    assert [ands[0]] + ands[1..] == ands;
  }

  /** The first gate of a section, and where the rest of it stands. */
  lemma FirstGate(data: seq<Byte>, pos: nat, ands: seq<And>, lhs: nat)
    returns (rest: seq<And>, n0: nat, n1: nat)
    requires |ands| > 0 && Ordered(ands, lhs) && lhs < WORD && At(data, pos, Section(ands))
    ensures rest == ands[1..] && |rest| == |ands| - 1 && Ordered(rest, lhs + 2)
    ensures Parse(data, pos, 0, 0) == Value(lhs - ands[0].rhs0, n0) && n0 <= |data|
    ensures Parse(data, n0, 0, 0) == Value(ands[0].rhs0 - ands[0].rhs1, n1) && n1 <= |data|
    ensures At(data, n1, Section(rest)) && n1 + |Section(rest)| == pos + |Section(ands)|
  {
    assert ands[0].lhs == lhs;
    rest := ands[1..];
    SectionStep(ands, []);
    var section, more := Section(ands), Section(rest);
    n0, n1 := TwoDeltas(data, pos, lhs - ands[0].rhs0, ands[0].rhs0 - ands[0].rhs1, more, section);
  }

  lemma TwoDeltas(data: seq<Byte>, pos: nat, x0: nat, x1: nat, rest: seq<Byte>, all: seq<Byte>) returns (n0: nat, n1: nat)
    requires x0 < WORD && x1 < WORD && all == (([] + Code(x0)) + Code(x1)) + rest && At(data, pos, all)
    ensures Parse(data, pos, 0, 0) == Value(x0, n0) && n0 <= |data|
    ensures Parse(data, n0, 0, 0) == Value(x1, n1) && n1 <= |data|
    ensures At(data, n1, rest) && n1 + |rest| == pos + |all|
  {
    n0, n1 := pos + |Code(x0)|, pos + |Code(x0)| + |Code(x1)|;
    assert all == Code(x0) + Code(x1) + rest;
    AtParts(data, pos, Code(x0), Code(x1), rest);
    DeltaRoundTrip(data, pos, x0);
    DeltaRoundTrip(data, n0, x1);
  }

  lemma GateAndRest(data: seq<Byte>, pos: nat, ands: seq<And>, rest: seq<And>, last: nat, lhs: nat, n0: nat, n1: nat)
    requires |ands| > 0 && rest == ands[1..] && lhs == last + 2 && Ordered(ands, lhs) && Ordered(rest, lhs + 2)
    requires pos <= |data| && n0 <= |data| && n1 <= |data| && n1 + |Section(rest)| == pos + |Section(ands)|
    requires Parse(data, pos, 0, 0) == Value(lhs - ands[0].rhs0, n0)
    requires Parse(data, n0, 0, 0) == Value(ands[0].rhs0 - ands[0].rhs1, n1)
    requires ParseAnds(data, n1, lhs, |rest|) == Ands(rest, n1 + |Section(rest)|)
    ensures ParseAnds(data, pos, last, |ands|) == Ands(ands, pos + |Section(ands)|)
  {
    assert ands[0].lhs == lhs >= ands[0].rhs0 >= ands[0].rhs1;
    ParseAndsStep(data, pos, last, lhs - ands[0].rhs0, n0, ands[0].rhs0 - ands[0].rhs1, n1,
                  ands, pos + |Section(ands)|);
  }

  lemma NoGates(data: seq<Byte>, pos: nat, ands: seq<And>, lhs: nat)
    requires |ands| == 0 && pos <= |data|
    ensures ParseAnds(data, pos, lhs, |ands|) == Ands(ands, pos + |Section(ands)|)
  {
  }

  lemma {:induction false} SectionRoundTrip(data: seq<Byte>, pos: nat, ands: seq<And>, lhs: nat)
    requires Ordered(ands, lhs + 2) && lhs + 2 * |ands| < WORD
    requires At(data, pos, Section(ands))
    ensures ParseAnds(data, pos, lhs, |ands|) == Ands(ands, pos + |Section(ands)|)
    decreases |ands|, 1
  {
    if |ands| == 0 { NoGates(data, pos, ands, lhs); } else { SomeGates(data, pos, ands, lhs, lhs + 2); }
  }

  lemma {:induction false} SomeGates(data: seq<Byte>, pos: nat, ands: seq<And>, last: nat, lhs: nat)
    requires |ands| > 0 && lhs == last + 2 && Ordered(ands, lhs) && lhs + 2 * |ands| < WORD + 2 && At(data, pos, Section(ands))
    ensures ParseAnds(data, pos, last, |ands|) == Ands(ands, pos + |Section(ands)|)
    decreases |ands|, 0
  {
    var rest, n0, n1 := FirstGate(data, pos, ands, lhs);
    SectionRoundTrip(data, n1, rest, lhs);
    GateAndRest(data, pos, ands, rest, last, lhs, n0, n1);
  }

  /** The gates written behind some bytes are read back from there. */
  lemma AppendedRoundTrip(before: seq<Byte>, ands: seq<And>, lhs: nat)
    requires Ordered(ands, lhs + 2) && lhs + 2 * |ands| < WORD
    ensures ParseAnds(before + Section(ands), |before|, lhs, |ands|) == Ands(ands, |before + Section(ands)|)
  {
    assert (before + Section(ands))[|before|..|before| + |Section(ands)|] == Section(ands);
    SectionRoundTrip(before + Section(ands), |before|, ands, lhs);
  }

  lemma AtSplit(data: seq<Byte>, pos: nat, code: seq<Byte>, rest: seq<Byte>)
    requires At(data, pos, code + rest)
    ensures At(data, pos, code) && At(data, pos + |code|, rest)
  {
    var all, next := code + rest, pos + |code|;
    var piece := data[pos..pos + |all|];
    forall k | 0 <= k < |code| ensures data[pos..next][k] == code[k] {
      assert piece[k] == all[k] == code[k];
    }
    forall k | 0 <= k < |rest| ensures data[next..next + |rest|][k] == rest[k] {
      assert piece[|code| + k] == all[|code| + k] == rest[k];
    }
    assert data[pos..next] == code && data[next..next + |rest|] == rest;
  }

  lemma AtParts(data: seq<Byte>, pos: nat, c0: seq<Byte>, c1: seq<Byte>, rest: seq<Byte>)
    requires At(data, pos, c0 + c1 + rest)
    ensures At(data, pos, c0) && At(data, pos + |c0|, c1) && At(data, pos + |c0| + |c1|, rest)
  {
    AtSplit(data, pos, c0 + c1, rest);
    AtSplit(data, pos, c0, c1);
  }

  // ---------- What the reader makes of an arbitrary section ----------

  /** The low 32 bits of what a code stands for. */
  function Low(code: seq<Byte>): nat {
    Shl32(Meaning(code), 0)
  }

  /** A delta of value x stands between pos and next. */
  ghost predicate DeltaAt(data: seq<Byte>, pos: nat, x: nat, next: nat) {
    exists code :: Complete(code) && |code| <= 5 && At(data, pos, code) && next == pos + |code| && x == Low(code)
  }

  /** The bytes from pos to next are the gate with left-hand side lhs: two deltas, neither of which takes its
      right-hand side below zero. */
  ghost predicate CodedGateAt(data: seq<Byte>, pos: nat, lhs: nat, gate: And, next: nat) {
    gate.lhs == lhs >= gate.rhs0 >= gate.rhs1 && DeltasAt(data, pos, lhs - gate.rhs0, gate.rhs0 - gate.rhs1, next)
  }

  ghost predicate DeltasAt(data: seq<Byte>, pos: nat, x0: nat, x1: nat, next: nat) {
    exists mid :: DeltaAt(data, pos, x0, mid) && DeltaAt(data, mid, x1, next)
  }

  /** The bytes from pos to next are these gates, with left-hand sides in steps of two. */
  ghost predicate GatesAt(data: seq<Byte>, pos: nat, lhs: nat, ands: seq<And>, next: nat)
    decreases |ands|, 0
  {
    if ands == [] then next == pos else GateThenGates(data, pos, lhs, lhs + 2, ands[0], ands[1..], next)
  }

  ghost predicate GateThenGates(data: seq<Byte>, pos: nat, lhs: nat, after: nat, gate: And, rest: seq<And>, next: nat)
    decreases |rest|, 1
  {
    exists mid :: CodedGateAt(data, pos, lhs, gate, mid) && GatesAt(data, mid, after, rest, next)
  }

  ghost predicate NoGatesAt(data: seq<Byte>, pos: nat, lhs: nat, count: nat) {
    forall ands, next :: |ands| == count ==> !GatesAt(data, pos, lhs, ands, next)
  }

  lemma ReadDeltaStands(data: seq<Byte>, pos: nat, x: nat, next: nat)
    requires pos <= |data| && Parse(data, pos, 0, 0) == Value(x, next)
    ensures DeltaAt(data, pos, x, next)
  {
    ParseMeaning(data, pos, 0, 0);
    var code := data[pos..next];
    assert At(data, pos, code);
  }

  lemma StandingCodeRead(data: seq<Byte>, pos: nat, code: seq<Byte>)
    requires pos <= |data| && Complete(code) && |code| <= 5 && At(data, pos, code)
    ensures Parse(data, pos, 0, 0) == Value(Low(code), pos + |code|)
  {
    CompleteOutcome(data, pos, 0, 0, code);
    ParseMeaning(data, pos, 0, 0);
  }

  /** A delta is read exactly where one stands. */
  lemma ReadsDeltaIff(data: seq<Byte>, pos: nat, x: nat, next: nat)
    requires pos <= |data|
    ensures Parse(data, pos, 0, 0) == Value(x, next) <==> DeltaAt(data, pos, x, next)
  {
    if Parse(data, pos, 0, 0) == Value(x, next) { ReadDeltaStands(data, pos, x, next); }
    if DeltaAt(data, pos, x, next) {
      var code :| Complete(code) && |code| <= 5 && At(data, pos, code) && next == pos + |code| && x == Low(code);
      StandingCodeRead(data, pos, code);
    }
  }

  lemma DeltaWithin(data: seq<Byte>, pos: nat, x: nat, next: nat)
    requires DeltaAt(data, pos, x, next)
    ensures pos < next <= |data|
  {
  }

  lemma {:induction false} AcceptedStands(data: seq<Byte>, pos: nat, last: nat, lhs: nat, ands: seq<And>, next: nat)
    requires pos <= |data| && lhs == last + 2 && ParseAnds(data, pos, last, |ands|) == Ands(ands, next)
    ensures GatesAt(data, pos, lhs, ands, next)
    decreases |ands|, 1
  {
    if ands != [] { AcceptedGates(data, pos, last, lhs, lhs + 2, ands, next); }
  }

  lemma {:induction false} AcceptedGates(data: seq<Byte>, pos: nat, last: nat, lhs: nat, after: nat, ands: seq<And>, next: nat)
    requires pos <= |data| && lhs == last + 2 && after == lhs + 2 && ands != []
    requires ParseAnds(data, pos, last, |ands|) == Ands(ands, next)
    ensures GatesAt(data, pos, lhs, ands, next)
    decreases |ands|, 0
  {
    var mid, rest := AcceptedFirst(data, pos, last, lhs, ands, next);
    AcceptedStands(data, mid, lhs, after, rest, next);
    ReadsGateIff(data, pos, last, lhs, ands[0], mid);
    GateInFront(data, pos, lhs, after, ands, rest, mid, next);
  }

  lemma GateInFront(data: seq<Byte>, pos: nat, lhs: nat, after: nat, ands: seq<And>, rest: seq<And>, mid: nat, next: nat)
    requires ands != [] && rest == ands[1..] && after == lhs + 2
    requires CodedGateAt(data, pos, lhs, ands[0], mid) && GatesAt(data, mid, after, rest, next)
    ensures GatesAt(data, pos, lhs, ands, next)
  {
    assert GateThenGates(data, pos, lhs, after, ands[0], rest, next);
  }

  lemma AcceptedFirst(data: seq<Byte>, pos: nat, last: nat, lhs: nat, ands: seq<And>, next: nat) returns (mid: nat, rest: seq<And>)
    requires pos <= |data| && lhs == last + 2 && ands != [] && ParseAnds(data, pos, last, |ands|) == Ands(ands, next)
    ensures ReadsGate(data, pos, last, ands[0], mid) && mid <= |data|
    ensures rest == ands[1..] && |rest| < |ands| && ParseAnds(data, mid, lhs, |rest|) == Ands(rest, next)
  {
    var d0 := Parse(data, pos, 0, 0);
    ParseWithin(data, pos, 0, 0);
    var d1 := Parse(data, d0.next, 0, 0);
    ParseWithin(data, d0.next, 0, 0);
    mid := d1.next;
    var more := ParseAnds(data, mid, lhs, |ands| - 1);
    rest := more.ands;
    assert more.Ands? && ands == [ands[0]] + rest;
  }

  lemma {:induction false} StandingAccepted(data: seq<Byte>, pos: nat, last: nat, lhs: nat, ands: seq<And>, next: nat)
    requires pos <= |data| && lhs == last + 2 && GatesAt(data, pos, lhs, ands, next)
    ensures ParseAnds(data, pos, last, |ands|) == Ands(ands, next)
    decreases |ands|, 1
  {
    if ands != [] { StandingGates(data, pos, last, lhs, lhs + 2, ands, next); }
  }

  lemma {:induction false} StandingGates(data: seq<Byte>, pos: nat, last: nat, lhs: nat, after: nat, ands: seq<And>, next: nat)
    requires pos <= |data| && lhs == last + 2 && after == lhs + 2 && ands != [] && GatesAt(data, pos, lhs, ands, next)
    ensures ParseAnds(data, pos, last, |ands|) == Ands(ands, next)
    decreases |ands|, 0
  {
    var mid, rest := StandingFirst(data, pos, last, lhs, after, ands, next);
    StandingAccepted(data, mid, lhs, after, rest, next);
    GateBefore(data, pos, last, lhs, ands, rest, mid, next);
  }

  lemma StandingFirst(data: seq<Byte>, pos: nat, last: nat, lhs: nat, after: nat, ands: seq<And>, next: nat)
    returns (mid: nat, rest: seq<And>)
    requires pos <= |data| && lhs == last + 2 && after == lhs + 2 && ands != [] && GatesAt(data, pos, lhs, ands, next)
    ensures ReadsGate(data, pos, last, ands[0], mid) && mid <= |data|
    ensures rest == ands[1..] && |rest| < |ands| && GatesAt(data, mid, after, rest, next)
  {
    rest := ands[1..];
    assert GateThenGates(data, pos, lhs, after, ands[0], rest, next);
    mid :| CodedGateAt(data, pos, lhs, ands[0], mid) && GatesAt(data, mid, after, rest, next);
    ReadsGateIff(data, pos, last, lhs, ands[0], mid);
  }

  lemma GateBefore(data: seq<Byte>, pos: nat, last: nat, lhs: nat, ands: seq<And>, rest: seq<And>, mid: nat, next: nat)
    requires ands != [] && rest == ands[1..] && lhs == last + 2 && ReadsGate(data, pos, last, ands[0], mid)
    requires ParseAnds(data, mid, lhs, |rest|) == Ands(rest, next)
    ensures ParseAnds(data, pos, last, |ands|) == Ands(ands, next)
  {
    assert [ands[0]] + rest == ands && |rest| == |ands| - 1;
  }

  /** A section is accepted exactly where it stands: the reader takes all gates with sound deltas, and no others. */
  lemma AcceptsIff(data: seq<Byte>, pos: nat, last: nat, lhs: nat, ands: seq<And>, next: nat)
    requires pos <= |data| && lhs == last + 2
    ensures ParseAnds(data, pos, last, |ands|) == Ands(ands, next) <==> GatesAt(data, pos, lhs, ands, next)
  {
    if ParseAnds(data, pos, last, |ands|) == Ands(ands, next) { AcceptedStands(data, pos, last, lhs, ands, next); }
    if GatesAt(data, pos, lhs, ands, next) { StandingAccepted(data, pos, last, lhs, ands, next); }
  }

  lemma SectionOutcome(data: seq<Byte>, pos: nat, last: nat, lhs: nat, count: nat)
    requires pos <= |data| && lhs == last + 2
    ensures var r := ParseAnds(data, pos, last, count);
      if r.Ands? then |r.ands| == count && GatesAt(data, pos, lhs, r.ands, r.next) else NoGatesAt(data, pos, lhs, count)
  {
    var r := ParseAnds(data, pos, last, count);
    if r.Ands? {
      ParseCount(data, pos, last, count);
      AcceptsIff(data, pos, last, lhs, r.ands, r.next);
    } else {
      forall ands, next | |ands| == count && GatesAt(data, pos, lhs, ands, next) ensures false {
        AcceptsIff(data, pos, last, lhs, ands, next);
      }
    }
  }

  lemma {:induction false} ParseCount(data: seq<Byte>, pos: nat, last: nat, count: nat)
    requires pos <= |data| && ParseAnds(data, pos, last, count).Ands?
    ensures |ParseAnds(data, pos, last, count).ands| == count
    decreases count
  {
    if count > 0 {
      var d0 := Parse(data, pos, 0, 0);
      ParseWithin(data, pos, 0, 0);
      var d1 := Parse(data, d0.next, 0, 0);
      ParseWithin(data, d0.next, 0, 0);
      ParseCount(data, d1.next, last + 2, count - 1);
    }
  }

  /** A gate is read exactly where one stands. */
  lemma ReadsGateIff(data: seq<Byte>, pos: nat, last: nat, lhs: nat, gate: And, next: nat)
    requires pos <= |data| && lhs == last + 2
    ensures ReadsGate(data, pos, last, gate, next) <==> CodedGateAt(data, pos, lhs, gate, next)
  {
    if ReadsGate(data, pos, last, gate, next) { ReadGateStands(data, pos, last, lhs, gate, next); }
    if CodedGateAt(data, pos, lhs, gate, next) { StandingDeltasRead(data, pos, lhs - gate.rhs0, gate.rhs0 - gate.rhs1, next); }
  }

  lemma ReadGateStands(data: seq<Byte>, pos: nat, last: nat, lhs: nat, gate: And, next: nat)
    requires lhs == last + 2 && ReadsGate(data, pos, last, gate, next)
    ensures CodedGateAt(data, pos, lhs, gate, next)
  {
    var d0 := Parse(data, pos, 0, 0);
    var d1 := Parse(data, d0.next, 0, 0);
    ReadsDeltaIff(data, pos, d0.value, d0.next);
    ReadsDeltaIff(data, d0.next, d1.value, next);
  }

  lemma StandingDeltasRead(data: seq<Byte>, pos: nat, x0: nat, x1: nat, next: nat)
    requires pos <= |data| && DeltasAt(data, pos, x0, x1, next)
    ensures Parse(data, pos, 0, 0).Value? && Parse(data, pos, 0, 0).value == x0
    ensures Parse(data, pos, 0, 0).next <= |data| && next <= |data|
    ensures Parse(data, Parse(data, pos, 0, 0).next, 0, 0) == Value(x1, next)
  {
    var mid :| DeltaAt(data, pos, x0, mid) && DeltaAt(data, mid, x1, next);
    DeltaWithin(data, pos, x0, mid);
    DeltaWithin(data, mid, x1, next);
    ReadsDeltaIff(data, pos, x0, mid);
    ReadsDeltaIff(data, mid, x1, next);
  }

  /** A delta at pos is larger than the literal it is taken from. */
  ghost predicate TooLargeAt(data: seq<Byte>, pos: nat, lhs: nat) {
    exists x0: nat, mid: nat :: DeltaAt(data, pos, x0, mid) && (x0 > lhs || SecondTooLarge(data, mid, lhs - x0))
  }

  ghost predicate SecondTooLarge(data: seq<Byte>, pos: nat, rhs0: nat) {
    exists x1: nat, next: nat :: DeltaAt(data, pos, x1, next) && x1 > rhs0
  }

  /** Fewer than count gates stand at pos, and then such a delta. */
  ghost predicate InvalidAt(data: seq<Byte>, pos: nat, lhs: nat, count: nat)
    decreases count
  {
    count > 0 && (TooLargeAt(data, pos, lhs) ||
                  exists gate, mid: nat :: CodedGateAt(data, pos, lhs, gate, mid) && InvalidAt(data, mid, lhs + 2, count - 1))
  }

  /** The reader reports an invalid delta exactly there; whatever else stops it is a delta it cannot read. */
  lemma {:induction false} InvalidIff(data: seq<Byte>, pos: nat, last: nat, lhs: nat, count: nat)
    requires pos <= |data| && lhs == last + 2
    ensures ParseAnds(data, pos, last, count) == InvalidDelta <==> InvalidAt(data, pos, lhs, count)
    decreases count
  {
    if count > 0 {
      FirstRound(data, pos, last, lhs);
      if gate, mid: nat :| ReadsGate(data, pos, last, gate, mid) {
        ReadsGateIff(data, pos, last, lhs, gate, mid);
        InvalidIff(data, mid, lhs, lhs + 2, count - 1);
        OneGate(data, pos, last, lhs, gate, mid);
      } else {
        NoGateRead(data, pos, last, count);
        forall gate, mid: nat ensures !CodedGateAt(data, pos, lhs, gate, mid) { ReadsGateIff(data, pos, last, lhs, gate, mid); }
      }
    }
  }

  lemma NoGateRead(data: seq<Byte>, pos: nat, last: nat, count: nat)
    requires pos <= |data| && count > 0 && forall gate, mid: nat :: !ReadsGate(data, pos, last, gate, mid)
    ensures ParseAnds(data, pos, last, count) == ParseAnds(data, pos, last, 1) && !ParseAnds(data, pos, last, 1).Ands?
  {
    var d0 := Parse(data, pos, 0, 0);
    if d0.Value? {
      ParseWithin(data, pos, 0, 0);
      var d1 := Parse(data, d0.next, 0, 0);
      if d1.Value? && d0.value <= last + 2 && d1.value <= last + 2 - d0.value {
        ParseWithin(data, d0.next, 0, 0);
        assert ReadsGate(data, pos, last, And(last + 2, last + 2 - d0.value, last + 2 - d0.value - d1.value), d1.next);
      }
    }
  }

  lemma OneGate(data: seq<Byte>, pos: nat, last: nat, lhs: nat, gate: And, mid: nat)
    requires pos <= |data| && lhs == last + 2 && ReadsGate(data, pos, last, gate, mid)
    ensures forall gate', mid' :: CodedGateAt(data, pos, lhs, gate', mid') ==> gate' == gate && mid' == mid
  {
    forall gate', mid' | CodedGateAt(data, pos, lhs, gate', mid') ensures gate' == gate && mid' == mid {
      ReadsGateIff(data, pos, last, lhs, gate', mid');
    }
  }

  /** A round reads a gate, or finds a delta too large, or a delta that it cannot read. */
  lemma FirstRound(data: seq<Byte>, pos: nat, last: nat, lhs: nat)
    requires pos <= |data| && lhs == last + 2
    ensures TooLargeAt(data, pos, lhs) <==> ParseAnds(data, pos, last, 1) == InvalidDelta
  {
    var d0 := Parse(data, pos, 0, 0);
    if d0.Value? {
      ParseWithin(data, pos, 0, 0);
      ReadsDeltaIff(data, pos, d0.value, d0.next);
      if d0.value <= lhs { SecondRound(data, d0.next, lhs - d0.value); }
    }
    forall x0, mid | DeltaAt(data, pos, x0, mid) ensures d0 == Value(x0, mid) { ReadsDeltaIff(data, pos, x0, mid); }
  }

  lemma SecondRound(data: seq<Byte>, pos: nat, rhs0: nat)
    requires pos <= |data|
    ensures SecondTooLarge(data, pos, rhs0) <==> Parse(data, pos, 0, 0).Value? && Parse(data, pos, 0, 0).value > rhs0
  {
    var d := Parse(data, pos, 0, 0);
    if d.Value? { ReadsDeltaIff(data, pos, d.value, d.next); }
    forall x, next | DeltaAt(data, pos, x, next) ensures d == Value(x, next) { ReadsDeltaIff(data, pos, x, next); }
  }
}

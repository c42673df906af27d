/** The byte form of the instructions: opcode numbers of libregexp-opcode.h, little-endian operands,
    two's complement jump offsets. */
module Encoding {
  import opened RegexpSyntax
  import opened Bytecode
  import Sequences

  type Byte = b: int | 0 <= b < 256

  datatype Option<T> = None | Some(value: T)

  function PutU16(v: int): (r: seq<Byte>)
    ensures |r| == 2
  {
    [v % 256, (v / 256) % 256]
  }

  function PutU32(v: int): (r: seq<Byte>)
    ensures |r| == 4
  {
    [v % 256, v / 256 % 256, v / 256 / 256 % 256, v / 256 / 256 / 256 % 256]
  }

  function GetU16(b: seq<Byte>, i: nat): (v: nat)
    requires i + 2 <= |b|
    ensures v <= 0xffff
  {
    b[i] as int + 256 * b[i + 1] as int
  }

  function GetU32(b: seq<Byte>, i: nat): (v: nat)
    requires i + 4 <= |b|
    ensures v <= UINT32_MAX
  {
    b[i] as int + 256 * b[i + 1] as int + 0x1_0000 * b[i + 2] as int + 0x100_0000 * b[i + 3] as int
  }

  /** The value of a 32-bit word read as a signed integer. */
  function Signed(v: int): (r: int) {
    if v <= INT32_MAX then v else v - 0x1_0000_0000
  }

  lemma {:induction false} GetPutU16(b: seq<Byte>, i: nat, v: nat)
    requires i + 2 <= |b| && b[i..i + 2] == PutU16(v) && v <= 0xffff
    ensures GetU16(b, i) == v
  {
    assert b[i] == b[i..i + 2][0] && b[i + 1] == b[i..i + 2][1];
  }

  /** The low 32 bits survive the trip through memory. */
  lemma {:induction false} GetPutU32(b: seq<Byte>, i: nat, v: int)
    requires i + 4 <= |b| && b[i..i + 4] == PutU32(v)
    ensures GetU32(b, i) == v % 0x1_0000_0000
  {
    var s := b[i..i + 4];
    assert b[i] == s[0] && b[i + 1] == s[1] && b[i + 2] == s[2] && b[i + 3] == s[3];
    var q1, q2, q3 := v / 256, v / 256 / 256, v / 256 / 256 / 256;
    assert v == 256 * q1 + v % 256 && q1 == 256 * q2 + q1 % 256 && q2 == 256 * q3 + q2 % 256;
    Remainder(v, GetU32(b, i), q3 / 256);
  }

  lemma {:induction false} Remainder(v: int, r: nat, q: int)
    requires v == 0x1_0000_0000 * q + r && r <= UINT32_MAX
    ensures v % 0x1_0000_0000 == r
  {
  }

  predicate IsI32(v: int) {
    -0x8000_0000 <= v <= INT32_MAX
  }

  /** Every operand fits its field. */
  predicate Encodable(i: Instr) {
    match i
    case Single(OpChar(v, _)) => v <= UINT32_MAX
    case Single(OpRange(ps, _, wide)) =>
      |ps| <= 0xffff && forall k :: 0 <= k < |ps| ==> FitsPair(ps[k], wide)
    case Goto(off) => IsI32(off)
    case Split(_, off) => IsI32(off)
    case SaveStart(g) => g < 256
    case SaveEnd(g) => g < 256
    case SaveReset(lo, hi) => lo < 256 && hi < 256
    case Loop(r, off) => r < 256 && IsI32(off)
    case LoopSplit(_, _, r, limit, off) => r < 256 && limit <= UINT32_MAX && IsI32(off)
    case SetI32(r, v) => r < 256 && v <= UINT32_MAX
    case BackReference(_, _, gs) => |gs| < 256 && forall k :: 0 <= k < |gs| ==> gs[k] < 256
    case LookAround(_, off) => IsI32(off)
    case SetCharPos(r) => r < 256
    case CheckAdvance(r) => r < 256
    case _ => true
  }

  predicate FitsPair(p: Pair, wide: bool) {
    if wide then p.lo <= UINT32_MAX && p.hi <= UINT32_MAX else p.lo <= 0xffff && p.hi <= 0xffff
  }

  function EmitPairs(ps: seq<Pair>, wide: bool): (r: seq<Byte>)
    ensures |r| == (if wide then 8 else 4) * |ps|
  {
    if ps == [] then []
    else if wide then PutU32(ps[0].lo) + PutU32(ps[0].hi) + EmitPairs(ps[1..], wide)
    else PutU16(ps[0].lo) + PutU16(ps[0].hi) + EmitPairs(ps[1..], wide)
  }

  function EmitGroups(gs: seq<nat>): (r: seq<Byte>)
    ensures |r| == |gs|
  {
    if gs == [] then [] else [gs[0] % 256] + EmitGroups(gs[1..])
  }

  function Flag(b: bool): (r: Byte) {
    if b then 1 else 0
  }

  function EmitOp(op: CharOp): (r: seq<Byte>)
    ensures |r| == OpSize(op)
  {
    match op
    case OpChar(v, icase) => if v <= 0xffff then [1 + Flag(icase)] + PutU16(v) else [3 + Flag(icase)] + PutU32(v)
    case OpDot => [5]
    case OpAny => [6]
    case OpSpace(negated) => [7 + Flag(negated)]
    case OpRange(ps, icase, wide) => [36 + 2 * Flag(wide) + Flag(icase)] + PutU16(|ps|) + EmitPairs(ps, wide)
  }

  function EmitAssertion(a: Assertion): (r: seq<Byte>)
    ensures |r| == 1
  {
    match a
    case LineStart(multiline) => [9 + Flag(multiline)]
    case LineEnd(multiline) => [11 + Flag(multiline)]
    case WordBoundary(negated, icase) => [28 + 2 * Flag(negated) + Flag(icase)]
  }

  function Emit(i: Instr): (r: seq<Byte>)
    ensures |r| == Size(i)
  {
    match i
    case Single(op) => EmitOp(op)
    case Check(a) => EmitAssertion(a)
    case Goto(off) => [13] + PutU32(off)
    case Split(gotoFirst, off) => [15 - Flag(gotoFirst)] + PutU32(off)
    case MatchEnd => [16]
    case LookMatch(negated) => [17 + Flag(negated)]
    case SaveStart(g) => [19, g % 256]
    case SaveEnd(g) => [20, g % 256]
    case SaveReset(lo, hi) => [21, lo % 256, hi % 256]
    case Loop(r, off) => [22, r % 256] + PutU32(off)
    case LoopSplit(adv, gotoFirst, r, limit, off) =>
      [24 + 2 * Flag(adv) - Flag(gotoFirst), r % 256] + PutU32(limit) + PutU32(off)
    case SetI32(r, v) => [27, r % 256] + PutU32(v)
    case BackReference(back, icase, gs) => [32 + 2 * Flag(back) + Flag(icase), |gs| % 256] + EmitGroups(gs)
    case LookAround(negated, off) => [40 + Flag(negated)] + PutU32(off)
    case SetCharPos(r) => [42, r % 256]
    case CheckAdvance(r) => [43, r % 256]
    case Prev => [44]
  }

  function GetPairs(b: seq<Byte>, i: nat, n: nat, wide: bool): (r: seq<Pair>)
    requires i + (if wide then 8 else 4) * n <= |b|
    ensures |r| == n
    decreases n
  {
    if n == 0 then []
    else if wide then [Pair(GetU32(b, i), GetU32(b, i + 4))] + GetPairs(b, i + 8, n - 1, wide)
    else [Pair(GetU16(b, i), GetU16(b, i + 2))] + GetPairs(b, i + 4, n - 1, wide)
  }

  function GetGroups(b: seq<Byte>, i: nat, n: nat): (r: seq<nat>)
    requires i + n <= |b|
    ensures |r| == n
    decreases n
  {
    if n == 0 then [] else [b[i] as nat] + GetGroups(b, i + 1, n - 1)
  }

  /** The fixed size of an opcode: the second column of the opcode table. */
  function OpcodeSize(op: Byte): (r: nat) {
    if op == 1 || op == 2 then 3
    else if op == 3 || op == 4 then 5
    else if 13 <= op <= 15 then 5
    else if op == 19 || op == 20 then 2
    else if op == 21 then 3
    else if op == 22 then 6
    else if 23 <= op <= 26 then 10
    else if op == 27 then 6
    else if 32 <= op <= 35 then 2
    else if 36 <= op <= 39 then 3
    else if op == 40 || op == 41 then 5
    else if op == 42 || op == 43 then 2
    else 1
  }

  /** The instruction at address pc, as the engine decodes it. */
  function Fetch(b: seq<Byte>, pc: nat): (r: Option<Instr>) {
    if pc >= |b| || pc + OpcodeSize(b[pc]) > |b| then None
    else
      var op := b[pc];
      if op == 1 || op == 2 then Some(Single(OpChar(GetU16(b, pc + 1), op == 2)))
      else if op == 3 || op == 4 then Some(Single(OpChar(GetU32(b, pc + 1), op == 4)))
      else if op == 5 then Some(Single(OpDot))
      else if op == 6 then Some(Single(OpAny))
      else if op == 7 || op == 8 then Some(Single(OpSpace(op == 8)))
      else if op == 9 || op == 10 then Some(Check(LineStart(op == 10)))
      else if op == 11 || op == 12 then Some(Check(LineEnd(op == 12)))
      else if op == 13 then Some(Goto(Signed(GetU32(b, pc + 1))))
      else if op == 14 || op == 15 then Some(Split(op == 14, Signed(GetU32(b, pc + 1))))
      else if op == 16 then Some(MatchEnd)
      else if op == 17 || op == 18 then Some(LookMatch(op == 18))
      else if op == 19 then Some(SaveStart(b[pc + 1]))
      else if op == 20 then Some(SaveEnd(b[pc + 1]))
      else if op == 21 then Some(SaveReset(b[pc + 1], b[pc + 2]))
      else if op == 22 then Some(Loop(b[pc + 1], Signed(GetU32(b, pc + 2))))
      else if 23 <= op <= 26 then
        Some(LoopSplit(op >= 25, op % 2 == 1, b[pc + 1], GetU32(b, pc + 2), Signed(GetU32(b, pc + 6))))
      else if op == 27 then Some(SetI32(b[pc + 1], GetU32(b, pc + 2)))
      else if 28 <= op <= 31 then Some(Check(WordBoundary(op >= 30, op % 2 == 1)))
      else if 32 <= op <= 35 then
        var n := b[pc + 1];
        if pc + 2 + n > |b| then None else Some(BackReference(op >= 34, op % 2 == 1, GetGroups(b, pc + 2, n)))
      else if 36 <= op <= 39 then
        var n := GetU16(b, pc + 1);
        var wide := op >= 38;
        if pc + 3 + (if wide then 8 else 4) * n > |b| then None
        else Some(Single(OpRange(GetPairs(b, pc + 3, n, wide), op % 2 == 1, wide)))
      else if op == 40 || op == 41 then Some(LookAround(op == 41, Signed(GetU32(b, pc + 1))))
      else if op == 42 then Some(SetCharPos(b[pc + 1]))
      else if op == 43 then Some(CheckAdvance(b[pc + 1]))
      else if op == 44 then Some(Prev)
      else None
  }

  lemma {:induction false} GetEmitPairs(b: seq<Byte>, i: nat, ps: seq<Pair>, wide: bool)
    requires i + (if wide then 8 else 4) * |ps| <= |b|
    requires b[i..i + (if wide then 8 else 4) * |ps|] == EmitPairs(ps, wide)
    requires forall k :: 0 <= k < |ps| ==> FitsPair(ps[k], wide)
    ensures GetPairs(b, i, |ps|, wide) == ps
    decreases |ps|
  {
    hide PutU32, GetU32, PutU16, GetU16;
    if ps != [] {
      var w := if wide then 8 else 4;
      var n := w * |ps|;
      var s := b[i..i + n];
      assert n == w + w * |ps[1..]|;
      assert s[w..n] == EmitPairs(ps[1..], wide);
      Sequences.SliceSlice(b, i, n, w, n);
      assert FitsPair(ps[0], wide);
      if wide {
        assert s[0..4] == PutU32(ps[0].lo) && s[4..8] == PutU32(ps[0].hi);
        Word(b, i, n, 0, ps[0].lo);
        Word(b, i, n, 4, ps[0].hi);
      } else {
        assert s[0..2] == PutU16(ps[0].lo) && s[2..4] == PutU16(ps[0].hi);
        Sequences.SliceSlice(b, i, n, 0, 2);
        Sequences.SliceSlice(b, i, n, 2, 4);
        GetPutU16(b, i, ps[0].lo);
        GetPutU16(b, i + 2, ps[0].hi);
      }
      GetEmitPairs(b, i + w, ps[1..], wide);
    }
  }

  lemma {:induction false} GetEmitGroups(b: seq<Byte>, i: nat, gs: seq<nat>)
    requires i + |gs| <= |b| && b[i..i + |gs|] == EmitGroups(gs)
    requires forall k :: 0 <= k < |gs| ==> gs[k] < 256
    ensures GetGroups(b, i, |gs|) == gs
    decreases |gs|
  {
    if gs != [] {
      var s := b[i..i + |gs|];
      assert s[0] == gs[0] && s[1..] == EmitGroups(gs[1..]);
      assert b[i + 1..i + 1 + |gs[1..]|] == s[1..];
      GetEmitGroups(b, i + 1, gs[1..]);
    }
  }

  lemma {:induction false} Word(b: seq<Byte>, pc: nat, n: nat, k: nat, v: int)
    requires pc + n <= |b| && k + 4 <= n && b[pc..pc + n][k..k + 4] == PutU32(v)
    ensures GetU32(b, pc + k) == v % 0x1_0000_0000
    ensures IsI32(v) ==> Signed(GetU32(b, pc + k)) == v
  {
    Sequences.SliceSlice(b, pc, n, k, k + 4);
    GetPutU32(b, pc + k, v);
  }

  /** The instruction i is stored at address pc. */
  predicate StoredAt(b: seq<Byte>, pc: nat, i: Instr) {
    pc + Size(i) <= |b| && b[pc..pc + Size(i)] == Emit(i) && Encodable(i)
  }

  lemma {:induction false} FetchShort(b: seq<Byte>, pc: nat, i: Instr)
    requires StoredAt(b, pc, i)
    requires i.Check? || i.MatchEnd? || i.LookMatch? || i.SaveStart? || i.SaveEnd? || i.SaveReset? || i.SetCharPos?
             || i.CheckAdvance? || i.Prev?
    ensures Fetch(b, pc) == Some(i)
  {
    hide PutU32, GetU32, PutU16, GetU16;
    var s := b[pc..pc + Size(i)];
    assert b[pc] == s[0] && (Size(i) > 1 ==> b[pc + 1] == s[1]) && (Size(i) > 2 ==> b[pc + 2] == s[2]);
  }

  lemma {:induction false} FetchJump(b: seq<Byte>, pc: nat, i: Instr)
    requires StoredAt(b, pc, i) && (i.Goto? || i.Split? || i.LookAround?)
    ensures Fetch(b, pc) == Some(i)
  {
    hide PutU32, GetU32;
    var s := b[pc..pc + 5];
    assert b[pc] == s[0];
    assert s[1..5] == PutU32(i.off);
    Word(b, pc, 5, 1, i.off);
  }

  lemma {:induction false} FetchLoop(b: seq<Byte>, pc: nat, i: Instr)
    requires StoredAt(b, pc, i) && (i.Loop? || i.SetI32?)
    ensures Fetch(b, pc) == Some(i)
  {
    hide PutU32, GetU32;
    var s := b[pc..pc + 6];
    assert b[pc] == s[0] && b[pc + 1] == s[1];
    var v := if i.Loop? then i.off else i.v;
    assert s[2..6] == PutU32(v);
    Word(b, pc, 6, 2, v);
  }

  lemma {:induction false} FetchLoopSplit(b: seq<Byte>, pc: nat, i: Instr)
    requires StoredAt(b, pc, i) && i.LoopSplit?
    ensures Fetch(b, pc) == Some(i)
  {
    hide PutU32, GetU32;
    var s := b[pc..pc + 10];
    assert b[pc] == s[0] && b[pc + 1] == s[1];
    assert s[2..6] == PutU32(i.limit) && s[6..10] == PutU32(i.off);
    Word(b, pc, 10, 2, i.limit);
    Word(b, pc, 10, 6, i.off);
  }

  lemma {:induction false} FetchBackReference(b: seq<Byte>, pc: nat, i: Instr)
    requires StoredAt(b, pc, i) && i.BackReference?
    ensures Fetch(b, pc) == Some(i)
  {
    hide EmitGroups;
    var n := 2 + |i.groups|;
    var s := b[pc..pc + n];
    assert b[pc] == s[0] && b[pc + 1] == s[1];
    assert s[2..n] == EmitGroups(i.groups);
    Sequences.SliceSlice(b, pc, n, 2, n);
    GetEmitGroups(b, pc + 2, i.groups);
  }

  lemma {:induction false} FetchOp(b: seq<Byte>, pc: nat, op: CharOp)
    requires StoredAt(b, pc, Single(op))
    ensures Fetch(b, pc) == Some(Single(op))
  {
    hide PutU32, GetU32, PutU16, GetU16, EmitPairs;
    var n := OpSize(op);
    var s := b[pc..pc + n];
    assert b[pc] == s[0];
    match op
    case OpChar(v, icase) =>
      if v <= 0xffff {
        assert s[1..3] == PutU16(v);
        Sequences.SliceSlice(b, pc, n, 1, 3);
        GetPutU16(b, pc + 1, v);
      } else {
        assert s[1..5] == PutU32(v);
        Word(b, pc, n, 1, v);
      }
    case OpRange(ps, icase, wide) =>
      assert s[1..3] == PutU16(|ps|) && s[3..n] == EmitPairs(ps, wide);
      Sequences.SliceSlice(b, pc, n, 1, 3);
      Sequences.SliceSlice(b, pc, n, 3, n);
      GetPutU16(b, pc + 1, |ps|);
      GetEmitPairs(b, pc + 3, ps, wide);
    case _ =>
  }

  /** Decoding undoes encoding. */
  lemma {:induction false} FetchEmit(b: seq<Byte>, pc: nat, i: Instr)
    requires StoredAt(b, pc, i)
    ensures Fetch(b, pc) == Some(i)
  {
    hide Fetch, StoredAt;
    match i
    case Single(op) => FetchOp(b, pc, op);
    case Goto(off) => FetchJump(b, pc, i);
    case Split(_, _) => FetchJump(b, pc, i);
    case LookAround(_, _) => FetchJump(b, pc, i);
    case Loop(_, _) => FetchLoop(b, pc, i);
    case SetI32(_, _) => FetchLoop(b, pc, i);
    case LoopSplit(_, _, _, _, _) => FetchLoopSplit(b, pc, i);
    case BackReference(_, _, _) => FetchBackReference(b, pc, i);
    case _ => FetchShort(b, pc, i);
  }
}

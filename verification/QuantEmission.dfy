/** How the parser adds a quantifier around the code of an atom that is already in the buffer: it
    inserts headers in front of the atom and appends what closes the loop. */
module QuantEmission {
  import opened RegexpSyntax
  import opened Bytecode
  import opened QuantCode
  import opened CodeGen
  import opened Encoding
  import opened Image
  import opened CodeBuffer
  import opened Analysis
  import Sequences

  const REOP_GOTO := 13
  const REOP_SPLIT_GOTO_FIRST := 14
  const REOP_SPLIT_NEXT_FIRST := 15
  const REOP_SAVE_RESET := 21
  const REOP_LOOP := 22
  const REOP_LOOP_SPLIT_NEXT_FIRST := 24
  const REOP_LOOP_CHECK_ADV_SPLIT_NEXT_FIRST := 26
  const REOP_SET_I32 := 27
  const REOP_SET_CHAR_POS := 42
  const REOP_CHECK_ADVANCE := 43

  /** The plan for an atom with k groups. */
  function PlanFor(code: seq<Instr>, k: nat, min: nat, max: nat): (r: Plan) {
    Plan(NeedCheckAdv(code) && !(min > 0 && min == max),
         NeedCaptureInit(code) && k > 0,
         !NeedCaptureInit(code) && k > 0 && min == 0)
  }

  /** The buffer ends in the bytes of some code. */
  ghost predicate Holds(buf: Buffer, base: seq<Byte>, code: seq<Instr>)
    reads buf
  {
    buf.bytes == base + Bytes(code)
  }

  lemma {:induction false} BytesWhen(on: bool, i: Instr)
    ensures Bytes(When(on, i)) == if on then Emit(i) else []
  {
    BytesOne(i);
  }

  lemma {:induction false} NoCode()
    ensures CodeSize([]) == 0 && Bytes([]) == []
  {
  }

  /** Emitting one more instruction. */
  lemma {:induction false} Emitted(base: seq<Byte>, code: seq<Instr>, i: Instr)
    ensures base + Bytes(code) + Emit(i) == base + Bytes(code + [i])
  {
    hide Bytes, Emit;
    BytesConcat(code, [i]);
    BytesOne(i);
  }

  /** The save_reset put in front of the code of an atom. */
  method InsertReset(buf: Buffer, at: nat, lo: nat, hi: nat, ghost base: seq<Byte>, ghost code: seq<Instr>)
    requires Holds(buf, base, code) && at == |base|
    modifies buf
    ensures Holds(buf, base, [SaveReset(lo, hi)] + code)
  {
    hide Bytes;
    buf.Insert(at, 3);
    ghost var gapped := buf.bytes;
    buf.SetByte(at, REOP_SAVE_RESET);
    buf.SetByte(at + 1, lo);
    buf.SetByte(at + 2, hi);
    StoreTwice(gapped, at, [21], [lo % 256]);
    StoreTwice(gapped, at, [21] + [lo % 256], [hi % 256]);
    assert [21] + [lo % 256] + [hi % 256] == Emit(SaveReset(lo, hi));
    FillGap(base, Bytes(code), gapped, Emit(SaveReset(lo, hi)));
    BytesTwo(SaveReset(lo, hi), code);
  }

  /** The writes that put a split, a set_i32 and a set_char_pos into a gap. */
  method StoreSplit(buf: Buffer, at: nat, greedy: bool, val: int)
    requires at + 5 <= |buf.bytes|
    modifies buf
    ensures buf.bytes == Stored(old(buf.bytes), at, Emit(Split(!greedy, val)))
  {
    hide PutU32, Stored;
    ghost var before := buf.bytes;
    buf.SetByte(at, REOP_SPLIT_GOTO_FIRST + if greedy then 1 else 0);
    buf.SetU32(at + 1, val);
    ghost var op: Byte := if greedy then 15 else 14;
    StoreTwice(before, at, [op], PutU32(val));
    assert [op] + PutU32(val) == Emit(Split(!greedy, val));
  }

  method StoreI32(buf: Buffer, at: nat, v: nat)
    requires at + 6 <= |buf.bytes|
    modifies buf
    ensures buf.bytes == Stored(old(buf.bytes), at, Emit(SetI32(0, v)))
  {
    hide PutU32, Stored;
    ghost var before := buf.bytes;
    buf.SetByte(at, REOP_SET_I32);
    buf.SetByte(at + 1, 0);
    buf.SetU32(at + 2, v);
    StoreTwice(before, at, [27], [0]);
    StoreTwice(before, at, [27] + [0], PutU32(v));
    assert [27] + [0] + PutU32(v) == Emit(SetI32(0, v));
  }

  method StoreMark(buf: Buffer, at: nat)
    requires at + 2 <= |buf.bytes|
    modifies buf
    ensures buf.bytes == Stored(old(buf.bytes), at, Emit(SetCharPos(0)))
  {
    hide Stored;
    ghost var before := buf.bytes;
    buf.SetByte(at, REOP_SET_CHAR_POS);
    buf.SetByte(at + 1, 0);
    StoreTwice(before, at, [42], [0]);
    assert [42] + [0] == Emit(SetCharPos(0));
  }

  /** A header with its mark in front of the code. */
  lemma {:induction false} HeaderBytes(base: seq<Byte>, head: Instr, adv: bool, code: seq<Instr>)
    ensures base + (Emit(head) + (if adv then Emit(SetCharPos(0)) else []) + Bytes(code)) ==
            base + Bytes([head] + (When(adv, SetCharPos(0)) + code))
  {
    hide Bytes, Emit;
    var mark := When(adv, SetCharPos(0));
    BytesWhen(adv, SetCharPos(0));
    BytesConcat(mark, code);
    BytesTwo(head, mark + code);
    Sequences.Assoc(Emit(head), Bytes(mark), Bytes(code));
  }

  /** A split, and the set_char_pos of the zero-advance check, in front of the code of an atom. */
  method InsertSplit(buf: Buffer, at: nat, greedy: bool, val: int, adv: bool, ghost base: seq<Byte>,
      ghost code: seq<Instr>)
    requires Holds(buf, base, code) && at == |base|
    modifies buf
    ensures Holds(buf, base, [Split(!greedy, val)] + (When(adv, SetCharPos(0)) + code))
  {
    hide Bytes, Emit, Stored, Gapped;
    ghost var head := Split(!greedy, val);
    buf.Insert(at, 5 + if adv then 2 else 0);
    ghost var gapped := buf.bytes;
    assert |gapped| >= at + 5 + (if adv then 2 else 0) by { GapRoom(base + Bytes(code), gapped, at,
        5 + if adv then 2 else 0); }
    StoreSplit(buf, at, greedy, val);
    if adv {
      StoreMark(buf, at + 5);
      StoreTwice(gapped, at, Emit(head), Emit(SetCharPos(0)));
    }
    Filled(base, code, gapped, head, adv);
  }

  lemma {:induction false} GapRoom(before: seq<Byte>, after: seq<Byte>, pos: nat, n: nat)
    requires Gapped(before, after, pos, n)
    ensures |after| >= pos + n
  {
  }

  lemma {:induction false} Filled(base: seq<Byte>, code: seq<Instr>, gapped: seq<Byte>, head: Instr, adv: bool)
    requires Gapped(base + Bytes(code), gapped, |base|, Size(head) + if adv then 2 else 0)
    ensures |gapped| >= |base| + Size(head) + (if adv then 2 else 0)
    ensures Stored(gapped, |base|, if adv then Emit(head) + Emit(SetCharPos(0)) else Emit(head)) ==
            base + Bytes([head] + (When(adv, SetCharPos(0)) + code))
  {
    hide Bytes, Emit, Stored;
    HeaderBytes(base, head, adv, code);
    if adv {
      FillGap(base, Bytes(code), gapped, Emit(head) + Emit(SetCharPos(0)));
    } else {
      FillGap(base, Bytes(code), gapped, Emit(head));
      assert Emit(head) + [] == Emit(head);
    }
  }

  /** The set_i32 of a counted loop, and the set_char_pos of its check, in front of the code of an atom. */
  method InsertCounter(buf: Buffer, at: nat, max: nat, adv: bool, ghost base: seq<Byte>, ghost code: seq<Instr>)
    requires Holds(buf, base, code) && at == |base|
    modifies buf
    ensures Holds(buf, base, [SetI32(0, max)] + (When(adv, SetCharPos(0)) + code))
  {
    hide Bytes, Emit, Stored, Gapped;
    ghost var head := SetI32(0, max);
    buf.Insert(at, 6 + if adv then 2 else 0);
    ghost var gapped := buf.bytes;
    assert |gapped| >= at + 6 + (if adv then 2 else 0) by { GapRoom(base + Bytes(code), gapped, at,
        6 + if adv then 2 else 0); }
    StoreI32(buf, at, max);
    if adv {
      StoreMark(buf, at + 6);
      StoreTwice(gapped, at, Emit(head), Emit(SetCharPos(0)));
    }
    Filled(base, code, gapped, head, adv);
  }

  /** The check_advance that ends an atom whose advance is checked. */
  method EmitCheck(buf: Buffer, adv: bool, ghost base: seq<Byte>, ghost head: seq<Instr>, ghost mark: seq<Instr>,
      ghost atom: seq<Instr>)
    requires Holds(buf, base, head + (mark + atom))
    modifies buf
    ensures Holds(buf, base, head + (mark + (atom + When(adv, CheckAdvance(0)))))
  {
    hide Bytes;
    if adv {
      buf.EmitOpU8(REOP_CHECK_ADVANCE, 0);
      assert Emit(CheckAdvance(0)) == [43, 0];
      Emitted(base, head + (mark + atom), CheckAdvance(0));
      assert head + (mark + atom) + [CheckAdvance(0)] == head + (mark + (atom + [CheckAdvance(0)]));
    } else {
      assert atom + [] == atom;
    }
  }

  /** A goto to the absolute position target. */
  method EmitJump(buf: Buffer, target: nat, ghost base: seq<Byte>, ghost code: seq<Instr>)
    requires Holds(buf, base, code)
    modifies buf
    ensures Holds(buf, base, code + [Goto(target - (|base| + CodeSize(code) + 5))])
  {
    hide Bytes, CodeSize;
    assert |buf.bytes| == |base| + CodeSize(code);
    ghost var jump := Goto(target - (|buf.bytes| + 5));
    assert Emit(jump) == [13] + PutU32(jump.off);
    buf.EmitGoto(REOP_GOTO, target);
    Emitted(base, code, jump);
  }

  /** atom? and atom* */
  method SkipOrStar(buf: Buffer, at: nat, len: nat, adv: bool, greedy: bool, hasGoto: bool, ghost p: Plan,
                    ghost base: seq<Byte>, ghost atom: seq<Instr>)
    requires Holds(buf, base, atom) && at == |base| && len == CodeSize(atom) && adv == p.adv
    modifies buf
    ensures Holds(buf, base, if hasGoto then StarCode(p, -1, greedy, atom) else SkipCode(p, -1, greedy, atom))
  {
    hide Bytes, CodeSize, When;
    var val := len + (if hasGoto then 5 else 0) + if adv then 4 else 0;
    InsertSplit(buf, at, greedy, val, adv, base, atom);
    ghost var split, mark, check := Split(!greedy, val), When(adv, SetCharPos(0)), When(adv, CheckAdvance(0));
    EmitCheck(buf, adv, base, [split], mark, atom);
    if hasGoto {
      HeaderSize(split, mark, atom, check);
      ghost var code := [split] + (mark + (atom + check));
      EmitJump(buf, at, base, code);
      ghost var jump := Goto(-(5 + MarkSize(p) + len + MarkSize(p) + 5));
      assert Goto(at - (|base| + CodeSize(code) + 5)) == jump;
      Append4([split], mark, atom, check, [jump]);
    }
  }

  lemma {:induction false} Append4(a: seq<Instr>, b: seq<Instr>, c: seq<Instr>, d: seq<Instr>, e: seq<Instr>)
    ensures a + (b + (c + d)) + e == a + (b + (c + (d + e)))
  {
  }

  lemma {:induction false} HeaderSize(head: Instr, mark: seq<Instr>, atom: seq<Instr>, tail: seq<Instr>)
    ensures CodeSize([head] + (mark + (atom + tail))) == Size(head) + CodeSize(mark) + CodeSize(atom) + CodeSize(tail)
  {
    CodeSizeConcat([head], mark + (atom + tail));
    CodeSizeConcat(mark, atom + tail);
    CodeSizeConcat(atom, tail);
    CodeSizeOne(head);
  }

  /** A jump back over the atom. */
  method Plus(buf: Buffer, at: nat, greedy: bool, ghost base: seq<Byte>, ghost atom: seq<Instr>)
    requires Holds(buf, base, atom) && at == |base|
    modifies buf
    ensures Holds(buf, base, atom + [Split(greedy, -(CodeSize(atom) + 5))])
  {
    hide Bytes, CodeSize;
    ghost var size := |buf.bytes|;
    assert size == |base| + CodeSize(atom);
    buf.EmitGoto(REOP_SPLIT_NEXT_FIRST - (if greedy then 1 else 0), at);
    ghost var split := Split(greedy, -(CodeSize(atom) + 5));
    assert at - (size + 5) == split.off;
    assert Emit(split) == [15 - Flag(greedy)] + PutU32(split.off);
    Emitted(base, atom, split);
  }

  /** The instruction that closes a counted loop; its target is the position after set_i32. */
  method Close(buf: Buffer, target: nat, adv: bool, greedy: bool, exact: bool, limit: nat, ghost p: Plan,
               ghost base: seq<Byte>, ghost code: seq<Instr>, ghost atom: seq<Instr>)
    requires Holds(buf, base, code) && adv == p.adv && target + MarkSize(p) + CodeSize(atom) == |base| + CodeSize(code)
    modifies buf
    ensures Holds(buf, base, code + [CloseOf(p, -1, greedy, exact, limit, atom)])
  {
    hide Bytes, CodeSize, PutU32;
    ghost var size := |buf.bytes|;
    ghost var close := CloseOf(p, -1, greedy, exact, limit, atom);
    assert size == |base| + CodeSize(code);
    if exact {
      buf.EmitGotoU8(REOP_LOOP, 0, target);
      assert target - (size + 6) == close.off;
      assert Emit(close) == [22, 0] + PutU32(close.off);
    } else {
      buf.EmitGotoU8U32((if adv then REOP_LOOP_CHECK_ADV_SPLIT_NEXT_FIRST else REOP_LOOP_SPLIT_NEXT_FIRST)
                        - (if greedy then 1 else 0), 0, limit, target);
      assert target - (size + 10) == close.off;
      assert Emit(close) == [24 + 2 * Flag(adv) - Flag(greedy), 0] + PutU32(limit) + PutU32(close.off);
    }
    Emitted(base, code, close);
  }

  /** A counted loop around the atom. */
  method Counted(buf: Buffer, at: nat, adv: bool, greedy: bool, max: nat, exact: bool, limit: nat, ghost p: Plan,
                 ghost base: seq<Byte>, ghost atom: seq<Instr>)
    requires Holds(buf, base, atom) && at == |base| && adv == p.adv
    modifies buf
    ensures Holds(buf, base, LoopCode(p, -1, max, atom, CloseOf(p, -1, greedy, exact, limit, atom)))
  {
    hide Bytes, CodeSize, CloseOf;
    InsertCounter(buf, at, max, adv, base, atom);
    ghost var head, mark := SetI32(0, max), When(adv, SetCharPos(0));
    ghost var code := [head] + (mark + atom);
    HeaderSize(head, mark, atom, []);
    NoCode();
    assert atom + [] == atom;
    Close(buf, at + 6, adv, greedy, exact, limit, p, base, code, atom);
    ghost var close := CloseOf(p, -1, greedy, exact, limit, atom);
    assert code + [close] == [head] + (mark + (atom + [close]));
  }

  /** A counted loop that may be skipped. */
  method Bounded(buf: Buffer, at: nat, len: nat, adv: bool, greedy: bool, max: nat, ghost p: Plan,
                 ghost base: seq<Byte>, ghost atom: seq<Instr>)
    requires Holds(buf, base, atom) && at == |base| && len == CodeSize(atom) && adv == p.adv
    modifies buf
    ensures var loop := LoopCode(p, -1, max, atom, CloseOf(p, -1, greedy, false, max, atom));
      Holds(buf, base, [Split(!greedy, CodeSize(loop))] + loop)
  {
    hide Bytes, CodeSize;
    var val := 6 + (if adv then 2 else 0) + len + 10;
    ghost var close := CloseOf(p, -1, greedy, false, max, atom);
    ghost var loop := LoopCode(p, -1, max, atom, close);
    LoopSize(p, -1, max, atom, close);
    ghost var split := Split(!greedy, val);
    assert val == CodeSize(loop);
    InsertCounter(buf, at, max, adv, base, atom);
    ghost var head, mark := SetI32(0, max), When(adv, SetCharPos(0));
    InsertSplit(buf, at, greedy, val, false, base, [head] + (mark + atom));
    ghost var code := [split] + ([head] + (mark + atom));
    assert [split] + (When(false, SetCharPos(0)) + ([head] + (mark + atom))) == code;
    BoundedSize(split, head, mark, atom);
    Close(buf, at + 11, adv, greedy, false, max, p, base, code, atom);
    assert code + [close] == [split] + loop;
  }

  lemma {:induction false} BoundedSize(split: Instr, head: Instr, mark: seq<Instr>, atom: seq<Instr>)
    ensures CodeSize([split] + ([head] + (mark + atom))) == Size(split) + Size(head) + CodeSize(mark) + CodeSize(atom)
  {
    CodeSizeConcat([split], [head] + (mark + atom));
    CodeSizeConcat([head], mark + atom);
    CodeSizeConcat(mark, atom);
    CodeSizeOne(split);
    CodeSizeOne(head);
  }

  /** The quantifier part of re_parse_term: the atom starts at lastAtomStart and has k groups, the
      first of which has number c. */
  method Quantify(buf: Buffer, lastAtomStart: nat, c: nat, k: nat, min: nat, max: nat, greedy: bool,
                  ghost base: seq<Byte>, ghost code: seq<Instr>)
    requires Holds(buf, base, code) && lastAtomStart == |base| && AllSized(code) && min <= max
    modifies buf
    ensures var p := PlanFor(code, k, min, max);
      Holds(buf, base, QuantForm(p, -1, greedy, min, max, When(p.once, ResetOf(c, k)), When(p.init, ResetOf(c,
          k)) + code))
  {
    hide Bytes, CodeSize, NeedCheckAdv, NeedCaptureInit, SkipCode, StarCode, LoopCode, CloseOf;
    ghost var p := PlanFor(code, k, min, max);
    assert buf.bytes[lastAtomStart..] == Bytes(code);
    var adv, init := NeedCheckAdvAndCaptureInit(buf.bytes, lastAtomStart, code);
    ghost var pre, atom := When(p.once, ResetOf(c, k)), When(p.init, ResetOf(c, k)) + code;
    if init && k > 0 {
      InsertReset(buf, lastAtomStart, c, c + k - 1, base, code);
    } else {
      assert atom == code;
    }
    var len := |buf.bytes| - lastAtomStart;
    assert len == CodeSize(atom);
    var start := lastAtomStart;
    if min == 0 {
      if !init && k > 0 {
        InsertReset(buf, start, c, c + k - 1, base, atom);
        start := start + 3;
      }
      BytesConcat(pre, atom);
      BytesWhen(p.once, ResetOf(c, k));
      ghost var base1 := base + Bytes(pre);
      Sequences.Assoc(base, Bytes(pre), Bytes(atom));
      Optional(buf, start, len, adv, greedy, max, p, base1, atom);
      AfterPrefix(base, pre, p, greedy, max, atom);
    } else if min == 1 && max == INT32_MAX && !adv {
      Plus(buf, start, greedy, base, atom);
    } else {
      if min == max {
        adv := false;
      }
      Counted(buf, start, adv, greedy, max, min == max, max - min, p, base, atom);
    }
  }

  /** The code of an optional atom, after its reset. */
  function OptionalForm(p: Plan, greedy: bool, max: nat, atom: seq<Instr>): (r: seq<Instr>) {
    if max == 0 then []
    else if max == 1 then SkipCode(p, -1, greedy, atom)
    else if max == INT32_MAX then StarCode(p, -1, greedy, atom)
    else
      var loop := LoopCode(p, -1, max, atom, CloseOf(p, -1, greedy, false, max, atom));
      [Split(!greedy, CodeSize(loop))] + loop
  }

  lemma {:induction false} AfterPrefix(base: seq<Byte>, pre: seq<Instr>, p: Plan, greedy: bool, max: nat,
      atom: seq<Instr>)
    ensures base + Bytes(pre) + Bytes(OptionalForm(p, greedy, max, atom)) ==
            base + Bytes(QuantForm(p, -1, greedy, 0, max, pre, atom))
  {
    hide Bytes, CodeSize, SkipCode, StarCode, LoopCode, CloseOf;
    var rest := OptionalForm(p, greedy, max, atom);
    BytesConcat(pre, rest);
    Sequences.Assoc(base, Bytes(pre), Bytes(rest));
    assert pre + [] == pre;
  }

  /** The forms of a quantifier whose minimum is zero. */
  method Optional(buf: Buffer, start: nat, len: nat, adv: bool, greedy: bool, max: nat, ghost p: Plan,
                  ghost base: seq<Byte>, ghost atom: seq<Instr>)
    requires Holds(buf, base, atom) && start == |base| && len == CodeSize(atom) && adv == p.adv
    modifies buf
    ensures Holds(buf, base, OptionalForm(p, greedy, max, atom))
  {
    hide Bytes, CodeSize, SkipCode, StarCode, LoopCode, CloseOf;
    if max == 0 {
      buf.bytes := buf.bytes[..start];
      NoCode();
    } else if max == 1 || max == INT32_MAX {
      SkipOrStar(buf, start, len, adv, greedy, max == INT32_MAX, p, base, atom);
    } else {
      Bounded(buf, start, len, adv, greedy, max, p, base, atom);
    }
  }
}

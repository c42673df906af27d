/** The bytes of a whole program. Every instruction the parser emits can be encoded, and what the
    engine decodes at an instruction's address is that instruction. */
module Image {
  import opened RegexpSyntax
  import opened Bytecode
  import opened QuantCode
  import opened CodeGen
  import opened Encoding
  import opened Machine
  import opened RangeSearch
  import opened CodeOutcomes

  /** lre_bytecode_realloc refuses to grow the code beyond this. */
  const CODE_SIZE_MAX := INT32_MAX / 2

  function Bytes(code: seq<Instr>): (r: seq<Byte>)
    ensures |r| == CodeSize(code)
  {
    if code == [] then [] else Emit(code[0]) + Bytes(code[1..])
  }

  lemma {:induction false} BytesConcat(a: seq<Instr>, b: seq<Instr>)
    ensures Bytes(a + b) == Bytes(a) + Bytes(b)
    decreases |a|
  {
    hide Emit;
    if a == [] {
      assert a + b == b;
    } else {
      assert (a + b)[1..] == a[1..] + b;
      BytesConcat(a[1..], b);
    }
  }

  /** Disassembly: the instruction at each address. */
  function ProgOf(code: seq<Instr>, at: int): (r: map<int, Instr>)
    ensures forall pc :: pc in r ==> at <= pc
    decreases |code|
  {
    if code == [] then map[] else ProgOf(code[1..], at + Size(code[0]))[at := code[0]]
  }

  lemma {:induction false} PlacedLarger(prog: map<int, Instr>, more: map<int, Instr>, at: int, code: seq<Instr>)
    requires Placed(prog, at, code) && forall pc :: pc in prog ==> pc in more && more[pc] == prog[pc]
    ensures Placed(more, at, code)
    decreases |code|
  {
    if code != [] {
      PlacedLarger(prog, more, at + Size(code[0]), code[1..]);
    }
  }

  lemma {:induction false} PlacedProgOf(code: seq<Instr>, at: int)
    ensures Placed(ProgOf(code, at), at, code)
    decreases |code|
  {
    if code != [] {
      PlacedProgOf(code[1..], at + Size(code[0]));
      PlacedLarger(ProgOf(code[1..], at + Size(code[0])), ProgOf(code, at), at + Size(code[0]), code[1..]);
    }
  }

  predicate Good(i: Instr) {
    Encodable(i) && (i.Single? ==> SortedOp(i.op))
  }

  predicate AllGood(code: seq<Instr>) {
    forall i :: 0 <= i < |code| ==> Good(code[i])
  }

  /** Decoding the image of a program gives the program back. */
  lemma {:induction false} FetchProg(pre: seq<Byte>, code: seq<Instr>, pc: int)
    requires AllGood(code) && pc in ProgOf(code, |pre|)
    ensures 0 <= pc && Fetch(pre + Bytes(code), pc) == Some(ProgOf(code, |pre|)[pc]) && Good(ProgOf(code, |pre|)[pc])
    decreases |code|
  {
    hide Emit, Fetch, Good;
    var first := Emit(code[0]);
    var all := pre + Bytes(code);
    if pc == |pre| {
      assert all[pc..pc + Size(code[0])] == first;
      assert Good(code[0]);
      FetchHere(all, pc, code[0]);
    } else {
      assert all == pre + first + Bytes(code[1..]);
      FetchProg(pre + first, code[1..], pc);
    }
  }

  lemma {:induction false} FetchHere(b: seq<Byte>, pc: nat, i: Instr)
    requires pc + Size(i) <= |b| && b[pc..pc + Size(i)] == Emit(i) && Good(i)
    ensures Fetch(b, pc) == Some(i)
  {
    hide Emit, Fetch, Encodable;
    FetchEmit(b, pc, i);
  }

  lemma {:induction false} AllGoodConcat(a: seq<Instr>, b: seq<Instr>)
    requires AllGood(a) && AllGood(b)
    ensures AllGood(a + b)
  {
    hide Good;
  }

  lemma {:induction false} GoodTest(alpha: Alphabet, t: CharTest)
    requires t.Class? ==> Increasing(t.ranges) && |t.ranges| < 65535
    ensures Good(Single(GenTest(alpha, t)))
  {
    TestSorted(alpha, t);
    if t.Class? && t.ranges != [] {
      var wide := RangeHigh(t.ranges) > 0xffff;
      var ps := PairsOf(t.ranges, wide);
      forall k | 0 <= k < |ps| ensures FitsPair(ps[k], wide) {
        assert ps[k].lo <= ps[k].hi;
      }
    }
  }

  /** The registers start at d, or are not allocated yet. */
  predicate RegsFit(d: int, h: nat) {
    d < 0 || d + h <= REGISTER_COUNT_MAX
  }

  /** Every instruction of the code of n is encodable, if the code is not too long, and the captures
      and registers not too many. */
  lemma {:induction false} GenGood(alpha: Alphabet, n: Node, c: nat, back: bool, d: int)
    requires WellFormed(n, CAPTURE_COUNT_MAX) && c + Count(n) <= CAPTURE_COUNT_MAX
    requires CodeSize(Gen(alpha, n, c, back, d)) <= CODE_SIZE_MAX && RegsFit(d, Depth(alpha, n, c, back))
    ensures AllGood(Gen(alpha, n, c, back, d))
    decreases n, 1
  {
    hide CodeSize, Good, Depth;
    match n
    case Test(t) =>
      GoodTest(alpha, t);
      assert Good(Prev) by { GoodPlain(Prev); }
    case Assert(a) => GoodPlain(Check(a));
    case BackRef(gs, icase) => GoodBackRef(back, gs, icase);
    case Cat(l, r) => CatGood(alpha, l, r, c, c + Count(l), back, d);
    case Alt(l, r) => EitherGood(alpha, l, r, c, c + Count(l), back, d);
    case Group(b) => GroupGood(alpha, n, c, back, d);
    case Quant(b, min, max, greedy) =>
      DepthQuant(alpha, b, c, back, min, max, greedy);
      QuantGood(alpha, b, c, back, d, min, max, greedy);
    case Look(negated, behind, b) => LookGood(alpha, n, c, back, d);
    case Empty =>
  }

  lemma {:induction false} GoodPlain(i: Instr)
    requires i.Prev? || i.Check? || i.MatchEnd? || i.LookMatch? || i == Single(OpAny)
    ensures Good(i)
  {
  }

  lemma {:induction false} GoodBackRef(back: bool, gs: seq<nat>, icase: bool)
    requires |gs| <= 255 && forall i :: 0 <= i < |gs| ==> gs[i] < CAPTURE_COUNT_MAX
    ensures Good(BackReference(back, icase, gs))
  {
  }

  lemma {:induction false} CatGood(alpha: Alphabet, l: Node, r: Node, c: nat, cr: nat, back: bool, d: int)
    requires WellFormed(Cat(l, r), CAPTURE_COUNT_MAX) && cr == c + Count(l) && cr + Count(r) <= CAPTURE_COUNT_MAX
    requires CodeSize(Gen(alpha, Cat(l, r), c, back, d)) <= CODE_SIZE_MAX && RegsFit(d, Depth(alpha, Cat(l, r), c,
        back))
    ensures AllGood(Gen(alpha, Cat(l, r), c, back, d))
    decreases Cat(l, r), 0
  {
    hide CodeSize, AllGood, Gen, Count, Depth;
    var gl, gr := Gen(alpha, l, c, back, d), Gen(alpha, r, cr, back, d);
    CatCode(alpha, l, r, c, back, d);
    CodeSizeConcat(gl, gr);
    CodeSizeConcat(gr, gl);
    DepthCat(alpha, l, r, c, back);
    GenGood(alpha, l, c, back, d);
    GenGood(alpha, r, cr, back, d);
    AllGoodConcat(gl, gr);
    AllGoodConcat(gr, gl);
  }

  lemma {:induction false} EitherGood(alpha: Alphabet, l: Node, r: Node, c: nat, cr: nat, back: bool, d: int)
    requires WellFormed(Alt(l, r), CAPTURE_COUNT_MAX) && cr == c + Count(l) && cr + Count(r) <= CAPTURE_COUNT_MAX
    requires CodeSize(Gen(alpha, Alt(l, r), c, back, d)) <= CODE_SIZE_MAX && RegsFit(d, Depth(alpha, Alt(l, r), c,
        back))
    ensures AllGood(Gen(alpha, Alt(l, r), c, back, d))
    decreases Alt(l, r), 0
  {
    hide CodeSize, AllGood, Gen, Count, Depth, AltForm;
    var gl, gr := Gen(alpha, l, c, back, d), Gen(alpha, r, cr, back, d);
    AltCode(alpha, l, r, c, back, d);
    AltSize(gl, gr);
    DepthAlt(alpha, l, r, c, back);
    GenGood(alpha, l, c, back, d);
    GenGood(alpha, r, cr, back, d);
    AltGood(gl, gr);
  }

  lemma {:induction false} AltSize(gl: seq<Instr>, gr: seq<Instr>)
    ensures CodeSize(AltForm(gl, gr)) == CodeSize(gl) + CodeSize(gr) + 10
  {
    var split, jump := Split(false, CodeSize(gl) + 5), Goto(CodeSize(gr));
    CodeSizeConcat([split] + gl + [jump], gr);
    CodeSizeConcat([split] + gl, [jump]);
    CodeSizeConcat([split], gl);
    CodeSizeOne(split);
    CodeSizeOne(jump);
  }

  lemma {:induction false} AltGood(gl: seq<Instr>, gr: seq<Instr>)
    requires AllGood(gl) && AllGood(gr) && CodeSize(gl) + CodeSize(gr) + 10 <= CODE_SIZE_MAX
    ensures AllGood(AltForm(gl, gr))
  {
    assert Good(Split(false, CodeSize(gl) + 5)) && Good(Goto(CodeSize(gr)));
  }

  lemma {:induction false} SandwichGood(first: Instr, g: seq<Instr>, last: Instr)
    requires Good(first) && AllGood(g) && Good(last)
    ensures AllGood([first] + g + [last])
    ensures CodeSize([first] + g + [last]) == Size(first) + CodeSize(g) + Size(last)
  {
    hide Good;
    CodeSizeConcat([first] + g, [last]);
    CodeSizeConcat([first], g);
    CodeSizeOne(first);
    CodeSizeOne(last);
  }

  lemma {:induction false} GroupGood(alpha: Alphabet, n: Node, c: nat, back: bool, d: int)
    requires n.Group? && WellFormed(n, CAPTURE_COUNT_MAX) && c + Count(n) <= CAPTURE_COUNT_MAX
    requires CodeSize(Gen(alpha, n, c, back, d)) <= CODE_SIZE_MAX && RegsFit(d, Depth(alpha, n, c, back))
    ensures AllGood(Gen(alpha, n, c, back, d))
    decreases n, 0
  {
    hide CodeSize, AllGood;
    var g := Gen(alpha, n.body, c + 1, back, d);
    var first, last := if back then SaveEnd(c) else SaveStart(c), if back then SaveStart(c) else SaveEnd(c);
    CodeSizeConcat([first] + g, [last]);
    CodeSizeConcat([first], g);
    GenGood(alpha, n.body, c + 1, back, d);
    SandwichGood(first, g, last);
  }

  lemma {:induction false} LookGood(alpha: Alphabet, n: Node, c: nat, back: bool, d: int)
    requires n.Look? && WellFormed(n, CAPTURE_COUNT_MAX) && c + Count(n) <= CAPTURE_COUNT_MAX
    requires CodeSize(Gen(alpha, n, c, back, d)) <= CODE_SIZE_MAX && RegsFit(d, Depth(alpha, n, c, back))
    ensures AllGood(Gen(alpha, n, c, back, d))
    decreases n, 0
  {
    hide CodeSize, AllGood;
    var g := Gen(alpha, n.body, c, n.behind, d);
    var first, last := LookAround(n.negated, CodeSize(g) + 1), LookMatch(n.negated);
    CodeSizeConcat([first] + g, [last]);
    CodeSizeConcat([first], g);
    CodeSizeOne(last);
    GenGood(alpha, n.body, c, n.behind, d);
    SandwichGood(first, g, last);
  }

  lemma {:induction false} QuantGood(alpha: Alphabet, b: Node, c: nat, back: bool, d: int, min: nat, max: nat,
      greedy: bool)
    requires WellFormed(b, CAPTURE_COUNT_MAX) && c + Count(b) <= CAPTURE_COUNT_MAX && min <= max <= INT32_MAX
    requires CodeSize(GenQuant(alpha, b, c, back, d, min, max, greedy)) <= CODE_SIZE_MAX
    requires max == 0 || RegsFit(d, Held(PlanOf(alpha, b, c, back, min, max), min, max) + Depth(alpha, b, c, back))
    ensures AllGood(GenQuant(alpha, b, c, back, d, min, max, greedy))
    decreases b, 3
  {
    hide CodeSize, AllGood, PlanOf, Gen, Depth;
    var p := PlanOf(alpha, b, c, back, min, max);
    var d1 := Up(d, Held(p, min, max));
    var atom := GenAtom(alpha, b, c, back, d1, p);
    var pre := When(p.once, ResetOf(c, Count(b)));
    GoodReset(p.once, c, Count(b));
    if max > 0 {
      QuantSize(p, d, greedy, min, max, pre, atom);
      AtomGood(alpha, b, c, back, d1, p);
      QuantCodeGood(p, d, greedy, min, max, pre, atom);
    }
  }

  lemma {:induction false} DepthQuant(alpha: Alphabet, b: Node, c: nat, back: bool, min: nat, max: nat, greedy: bool)
    requires WellFormed(Quant(b, min, max, greedy), CAPTURE_COUNT_MAX)
    ensures Depth(alpha, Quant(b, min, max, greedy), c, back) ==
            if max == 0 then 0 else Held(PlanOf(alpha, b, c, back, min, max), min, max) + Depth(alpha, b, c, back)
  {
    hide Gen, PlanOf;
  }

  lemma {:induction false} GoodReset(on: bool, c: nat, n: nat)
    requires c + n <= CAPTURE_COUNT_MAX
    ensures AllGood(When(on, ResetOf(c, n)))
  {
  }

  lemma {:induction false} AtomGood(alpha: Alphabet, b: Node, c: nat, back: bool, d1: int, p: Plan)
    requires WellFormed(b, CAPTURE_COUNT_MAX) && c + Count(b) <= CAPTURE_COUNT_MAX
    requires CodeSize(GenAtom(alpha, b, c, back, d1, p)) <= CODE_SIZE_MAX && RegsFit(d1, Depth(alpha, b, c, back))
    ensures AllGood(GenAtom(alpha, b, c, back, d1, p))
    decreases b, 2
  {
    hide CodeSize, AllGood, Gen, Depth;
    CodeSizeConcat(When(p.init, ResetOf(c, Count(b))), Gen(alpha, b, c, back, d1));
    GoodReset(p.init, c, Count(b));
    GenGood(alpha, b, c, back, d1);
    AllGoodConcat(When(p.init, ResetOf(c, Count(b))), Gen(alpha, b, c, back, d1));
  }

  lemma {:induction false} LoopSize(p: Plan, d: int, max: nat, atom: seq<Instr>, close: Instr)
    ensures CodeSize(LoopCode(p, d, max, atom, close)) == 6 + MarkSize(p) + CodeSize(atom) + Size(close)
  {
    var mark := When(p.adv, SetCharPos(Reg(d, 1)));
    CodeSizeConcat([SetI32(Reg(d, 0), max)], mark + (atom + [close]));
    CodeSizeConcat(mark, atom + [close]);
    CodeSizeConcat(atom, [close]);
    CodeSizeOne(SetI32(Reg(d, 0), max));
    CodeSizeOne(close);
  }

  lemma {:induction false} SkipSize(p: Plan, d: int, greedy: bool, atom: seq<Instr>)
    ensures CodeSize(SkipCode(p, d, greedy, atom)) == 5 + 2 * MarkSize(p) + CodeSize(atom)
  {
    var mark, check := When(p.adv, SetCharPos(Reg(d, 0))), When(p.adv, CheckAdvance(Reg(d, 0)));
    var split := SkipCode(p, d, greedy, atom)[0];
    CodeSizeConcat([split], mark + (atom + check));
    CodeSizeConcat(mark, atom + check);
    CodeSizeConcat(atom, check);
    CodeSizeOne(split);
  }

  lemma {:induction false} StarSize(p: Plan, d: int, greedy: bool, atom: seq<Instr>)
    ensures CodeSize(StarCode(p, d, greedy, atom)) == 10 + 2 * MarkSize(p) + CodeSize(atom)
  {
    var mark, check := When(p.adv, SetCharPos(Reg(d, 0))), When(p.adv, CheckAdvance(Reg(d, 0)));
    var code := StarCode(p, d, greedy, atom);
    var split, jump := code[0], Goto(-(5 + MarkSize(p) + CodeSize(atom) + MarkSize(p) + 5));
    CodeSizeConcat([split], mark + (atom + (check + [jump])));
    CodeSizeConcat(mark, atom + (check + [jump]));
    CodeSizeConcat(atom, check + [jump]);
    CodeSizeConcat(check, [jump]);
    CodeSizeOne(split);
    CodeSizeOne(jump);
  }

  lemma {:induction false} QuantSize(p: Plan, d: int, greedy: bool, min: nat, max: nat, pre: seq<Instr>,
      atom: seq<Instr>)
    requires 0 < max && min <= max
    requires CodeSize(QuantForm(p, d, greedy, min, max, pre, atom)) <= CODE_SIZE_MAX
    ensures CodeSize(atom) + 5 <= CODE_SIZE_MAX
  {
    hide CodeSize, SkipCode, StarCode, LoopCode;
    SkipSize(p, d, greedy, atom);
    StarSize(p, d, greedy, atom);
    CodeSizeConcat(pre, SkipCode(p, d, greedy, atom));
    CodeSizeConcat(pre, StarCode(p, d, greedy, atom));
    var close := CloseOf(p, d, greedy, false, max, atom);
    var loop := LoopCode(p, d, max, atom, close);
    LoopSize(p, d, max, atom, close);
    LoopSize(p, d, max, atom, CloseOf(p, d, greedy, min == max, max - min, atom));
    CodeSizeConcat(pre, [Split(!greedy, CodeSize(loop))] + loop);
    CodeSizeConcat([Split(!greedy, CodeSize(loop))], loop);
    CodeSizeConcat(atom, [Split(greedy, -(CodeSize(atom) + 5))]);
    CodeSizeOne(Split(greedy, -(CodeSize(atom) + 5)));
  }

  lemma {:induction false} QuantCodeGood(p: Plan, d: int, greedy: bool, min: nat, max: nat, pre: seq<Instr>,
      atom: seq<Instr>)
    requires 0 < max <= INT32_MAX && min <= max && CodeSize(atom) + 5 <= CODE_SIZE_MAX
    requires AllGood(pre) && AllGood(atom) && RegsFit(d, Held(p, min, max))
    ensures AllGood(QuantForm(p, d, greedy, min, max, pre, atom))
  {
    hide CodeSize;
    var mark, check := When(p.adv, SetCharPos(Reg(d, 0))), When(p.adv, CheckAdvance(Reg(d, 0)));
    if min == 0 && (max == 1 || max == INT32_MAX) {
      assert AllGood(SkipCode(p, d, greedy, atom)) && AllGood(StarCode(p, d, greedy, atom));
    } else if min == 1 && max == INT32_MAX && !p.adv {
    } else {
      LoopGood(p, d, greedy, min > 0 && min == max, max, if min == 0 then max else max - min, atom);
      var loop := LoopCode(p, d, max, atom, CloseOf(p, d, greedy, false, max, atom));
      LoopSize(p, d, max, atom, CloseOf(p, d, greedy, false, max, atom));
    }
  }

  lemma {:induction false} LoopGood(p: Plan, d: int, greedy: bool, exact: bool, max: nat, limit: nat, atom: seq<Instr>)
    requires max <= INT32_MAX && limit <= INT32_MAX && CodeSize(atom) + 5 <= CODE_SIZE_MAX && AllGood(atom)
    requires RegsFit(d, 1 + MarkRegs(p))
    ensures AllGood(LoopCode(p, d, max, atom, CloseOf(p, d, greedy, exact, limit, atom)))
  {
    hide CodeSize;
    assert Good(SetI32(Reg(d, 0), max)) && Good(CloseOf(p, d, greedy, exact, limit, atom));
    assert p.adv ==> Good(SetCharPos(Reg(d, 1)));
  }
}

/** compute_register_count: the registers are allocated as a stack, in one linear pass over the code. */
module Registers {
  import opened RegexpSyntax
  import opened Bytecode
  import opened QuantCode
  import opened CodeGen
  import opened Image
  import opened CodeOutcomes

  /** The registers an instruction gives back. */
  function Pops(i: Instr): (r: nat) {
    match i
    case CheckAdvance(_) => 1
    case Loop(_, _) => 1
    case LoopSplit(adv, _, _, _, _) => if adv then 2 else 1
    case _ => 0
  }

  predicate Pushes(i: Instr) {
    i.SetI32? || i.SetCharPos?
  }

  /** The registers in use after an instruction. */
  function After(i: Instr, used: nat): (r: nat)
    requires Pops(i) <= used
  {
    if Pushes(i) then used + 1 else used - Pops(i)
  }

  /** The instruction with its register filled in. */
  function WithReg(i: Instr, used: nat): (r: Instr)
    requires Pops(i) <= used
    ensures Size(r) == Size(i)
  {
    match i
    case SetI32(_, v) => SetI32(used, v)
    case SetCharPos(_) => SetCharPos(used)
    case CheckAdvance(_) => CheckAdvance(used - 1)
    case Loop(_, off) => Loop(used - 1, off)
    case LoopSplit(adv, first, _, limit, off) => LoopSplit(adv, first, used - Pops(i), limit, off)
    case _ => i
  }

  /** The assertions of the pass: no register is given back that is not in use. */
  predicate Balanced(code: seq<Instr>, used: nat)
    decreases |code|
  {
    code == [] || (Pops(code[0]) <= used && Balanced(code[1..], After(code[0], used)))
  }

  function Assign(code: seq<Instr>, used: nat): (r: seq<Instr>)
    requires Balanced(code, used)
    ensures |r| == |code|
    decreases |code|
  {
    if code == [] then [] else [WithReg(code[0], used)] + Assign(code[1..], After(code[0], used))
  }

  function Final(code: seq<Instr>, used: nat): (r: nat)
    requires Balanced(code, used)
    decreases |code|
  {
    if code == [] then used else Final(code[1..], After(code[0], used))
  }

  /** The largest number of registers in use. */
  function Peak(code: seq<Instr>, used: nat): (r: nat)
    requires Balanced(code, used)
    ensures r >= used
    decreases |code|
  {
    if code == [] then used else Max(used, Peak(code[1..], After(code[0], used)))
  }

  /** The pass turns raw into out, with used registers in use before it, final after it and peak at most. */
  ghost predicate Allocates(raw: seq<Instr>, used: nat, out: seq<Instr>, final: nat, peak: nat) {
    Balanced(raw, used) && Assign(raw, used) == out && Final(raw, used) == final && Peak(raw, used) == peak
  }

  lemma {:induction false} AllocatesConcat(a: seq<Instr>, used: nat, a1: seq<Instr>, mid: nat, p: nat, b: seq<Instr>,
      b1: seq<Instr>, final: nat, q: nat)
    requires Allocates(a, used, a1, mid, p) && Allocates(b, mid, b1, final, q)
    ensures Allocates(a + b, used, a1 + b1, final, Max(p, q))
    decreases |a|
  {
    if a == [] {
      assert a + b == b && a1 + b1 == b1;
    } else {
      assert (a + b)[0] == a[0] && (a + b)[1..] == a[1..] + b;
      var rest := a1[1..];
      AllocatesConcat(a[1..], After(a[0], used), rest, mid, Peak(a[1..], After(a[0], used)), b, b1, final, q);
      assert [a1[0]] + (rest + b1) == a1 + b1;
    }
  }

  lemma {:induction false} AllocatesOne(i: Instr, used: nat)
    requires Pops(i) <= used
    ensures Allocates([i], used, [WithReg(i, used)], After(i, used), Max(used, After(i, used)))
  {
    assert [i][1..] == [];
  }

  lemma {:induction false} AllocatesNone(used: nat)
    ensures Allocates([], used, [], used, used)
  {
  }

  /** The pass changes no size, so no jump has to be moved. */
  lemma {:induction false} AllocatesSize(raw: seq<Instr>, used: nat, out: seq<Instr>, final: nat, peak: nat)
    requires Allocates(raw, used, out, final, peak)
    ensures CodeSize(out) == CodeSize(raw)
    decreases |raw|
  {
    if raw != [] {
      var rest := After(raw[0], used);
      AllocatesSize(raw[1..], rest, out[1..], final, Peak(raw[1..], rest));
    }
  }

  /** An instruction that is there only under a condition. */
  lemma {:induction false} AllocatesWhen(on: bool, i: Instr, used: nat)
    requires on ==> Pops(i) <= used
    ensures on ==> Allocates(When(on, i), used, When(on, WithReg(i, used)), After(i, used), Max(used, After(i, used)))
    ensures !on ==> Allocates(When(on, i), used, [], used, used)
  {
    if on {
      AllocatesOne(i, used);
    }
  }

  /** Code between two instructions that use no register. */
  lemma {:induction false} AllocatesAround(first: Instr, raw: seq<Instr>, last: Instr, d: nat, out: seq<Instr>,
      peak: nat)
    requires Allocates(raw, d, out, d, peak) && peak >= d
    requires !Pushes(first) && Pops(first) == 0 && !Pushes(last) && Pops(last) == 0
    ensures Allocates([first] + raw + [last], d, [first] + out + [last], d, peak)
  {
    hide Balanced, Assign, Final, Peak;
    AllocatesOne(first, d);
    AllocatesOne(last, d);
    AllocatesConcat([first], d, [first], d, d, raw, out, d, peak);
    AllocatesConcat([first] + raw, d, [first] + out, d, peak, [last], [last], d, d);
  }

  lemma {:induction false} AllocatesAlt(l: seq<Instr>, r: seq<Instr>, d: nat, l1: seq<Instr>, r1: seq<Instr>, p: nat,
      q: nat)
    requires Allocates(l, d, l1, d, p) && Allocates(r, d, r1, d, q) && p >= d && q >= d
    ensures Allocates(AltForm(l, r), d, AltForm(l1, r1), d, Max(p, q))
  {
    hide Balanced, Assign, Final, Peak, CodeSize;
    AllocatesSize(l, d, l1, d, p);
    AllocatesSize(r, d, r1, d, q);
    var split, jump := Split(false, CodeSize(l) + 5), Goto(CodeSize(r));
    AllocatesAround(split, l, jump, d, l1, p);
    AllocatesConcat([split] + l + [jump], d, [split] + l1 + [jump], d, p, r, r1, d, q);
  }

  /** A loop: head and mark take registers, tail gives them back, and the atom runs above them. */
  lemma {:induction false} AllocatesLoop(head: seq<Instr>, d: nat, head1: seq<Instr>, d1: nat, hp: nat,
      raw: seq<Instr>, out: seq<Instr>, peak: nat,
                                         tail: seq<Instr>, tail1: seq<Instr>, tp: nat)
    requires Allocates(head, d, head1, d1, hp) && Allocates(raw, d1, out, d1, peak) && Allocates(tail, d1, tail1, d, tp)
    requires peak >= d1 >= d && hp <= peak && tp <= peak
    ensures Allocates(head + (raw + tail), d, head1 + (out + tail1), d, peak)
  {
    hide Balanced, Assign, Final, Peak;
    AllocatesConcat(raw, d1, out, d1, peak, tail, tail1, d, tp);
    AllocatesConcat(head, d, head1, d1, hp, raw + tail, out + tail1, d, peak);
  }

  lemma {:induction false} AllocatesSkip(p: Plan, d: nat, greedy: bool, raw: seq<Instr>, out: seq<Instr>, peak: nat)
    requires Allocates(raw, d + MarkRegs(p), out, d + MarkRegs(p), peak) && peak >= d + MarkRegs(p)
    ensures Allocates(SkipCode(p, -1, greedy, raw), d, SkipCode(p, d, greedy, out), d, peak)
  {
    hide Balanced, Assign, Final, Peak, CodeSize, When;
    var d1 := d + MarkRegs(p);
    AllocatesSize(raw, d1, out, d1, peak);
    var split := Split(!greedy, CodeSize(raw) + 2 * MarkSize(p));
    AllocatesOne(split, d);
    var mark := AllocatesMark(p, d, d);
    AllocatesConcat([split], d, [split], d, d, When(p.adv, SetCharPos(0)), mark, d1, d1);
    var check := AllocatesCheck(p, d);
    AllocatesLoop([split] + When(p.adv, SetCharPos(0)), d, [split] + mark, d1, d1, raw, out, peak,
                  When(p.adv, CheckAdvance(0)), check, d1);
    Regroup([split], When(p.adv, SetCharPos(0)), raw + When(p.adv, CheckAdvance(0)));
    Regroup([split], mark, out + check);
  }

  lemma {:induction false} Regroup(a: seq<Instr>, b: seq<Instr>, c: seq<Instr>)
    ensures a + b + c == a + (b + c)
  {
  }

  lemma {:induction false} AllocatesMark(p: Plan, d: nat, r: nat) returns (mark: seq<Instr>)
    ensures mark == When(p.adv, SetCharPos(r))
    ensures r == d ==> Allocates(When(p.adv, SetCharPos(0)), d, mark, d + MarkRegs(p), d + MarkRegs(p))
  {
    mark := When(p.adv, SetCharPos(r));
    AllocatesWhen(p.adv, SetCharPos(0), d);
  }

  lemma {:induction false} AllocatesCheck(p: Plan, d: nat) returns (check: seq<Instr>)
    ensures check == When(p.adv, CheckAdvance(d))
    ensures Allocates(When(p.adv, CheckAdvance(0)), d + MarkRegs(p), check, d, d + MarkRegs(p))
  {
    check := When(p.adv, CheckAdvance(d));
    AllocatesWhen(p.adv, CheckAdvance(0), d + MarkRegs(p));
  }

  lemma {:induction false} AllocatesStar(p: Plan, d: nat, greedy: bool, raw: seq<Instr>, out: seq<Instr>, peak: nat)
    requires Allocates(raw, d + MarkRegs(p), out, d + MarkRegs(p), peak) && peak >= d + MarkRegs(p)
    ensures Allocates(StarCode(p, -1, greedy, raw), d, StarCode(p, d, greedy, out), d, peak)
  {
    hide Balanced, Assign, Final, Peak, CodeSize, When;
    var d1 := d + MarkRegs(p);
    AllocatesSize(raw, d1, out, d1, peak);
    var a := MarkSize(p);
    var split, jump := Split(!greedy, CodeSize(raw) + 5 + 2 * a), Goto(-(5 + a + CodeSize(raw) + a + 5));
    AllocatesOne(split, d);
    AllocatesOne(jump, d);
    var mark := AllocatesMark(p, d, d);
    var check := AllocatesCheck(p, d);
    AllocatesConcat([split], d, [split], d, d, When(p.adv, SetCharPos(0)), mark, d1, d1);
    AllocatesConcat(When(p.adv, CheckAdvance(0)), d1, check, d, d1, [jump], [jump], d, d);
    AllocatesLoop([split] + When(p.adv, SetCharPos(0)), d, [split] + mark, d1, d1, raw, out, peak,
                  When(p.adv, CheckAdvance(0)) + [jump], check + [jump], d1);
    Regroup([split], When(p.adv, SetCharPos(0)), raw + (When(p.adv, CheckAdvance(0)) + [jump]));
    Regroup([split], mark, out + (check + [jump]));
  }

  lemma {:induction false} AllocatesCounted(p: Plan, d: nat, greedy: bool, exact: bool, max: nat, limit: nat,
      raw: seq<Instr>, out: seq<Instr>, peak: nat)
    requires exact ==> !p.adv
    requires Allocates(raw, d + 1 + MarkRegs(p), out, d + 1 + MarkRegs(p), peak) && peak >= d + 1 + MarkRegs(p)
    ensures Allocates(LoopCode(p, -1, max, raw, CloseOf(p, -1, greedy, exact, limit, raw)), d,
                      LoopCode(p, d, max, out, CloseOf(p, d, greedy, exact, limit, out)), d, peak)
  {
    hide Balanced, Assign, Final, Peak, CodeSize, When;
    var d1 := d + 1 + MarkRegs(p);
    AllocatesSize(raw, d1, out, d1, peak);
    var close, close1 := CloseOf(p, -1, greedy, exact, limit, raw), CloseOf(p, d, greedy, exact, limit, out);
    AllocatesOne(SetI32(0, max), d);
    AllocatesOne(close, d1);
    assert WithReg(close, d1) == close1 && After(close, d1) == d;
    var mark := AllocatesMark(p, d + 1, d + 1);
    AllocatesConcat([SetI32(0, max)], d, [SetI32(d, max)], d + 1, d + 1, When(p.adv, SetCharPos(0)), mark, d1, d1);
    AllocatesLoop([SetI32(0, max)] + When(p.adv, SetCharPos(0)), d, [SetI32(d, max)] + mark, d1, d1, raw, out, peak,
        [close], [close1], d1);
    Regroup([SetI32(0, max)], When(p.adv, SetCharPos(0)), raw + [close]);
    Regroup([SetI32(d, max)], mark, out + [close1]);
  }

  lemma {:induction false} AllocatesQuant(p: Plan, d: nat, greedy: bool, min: nat, max: nat, pre: seq<Instr>,
      raw: seq<Instr>, out: seq<Instr>, peak: nat)
    requires 0 < max && min <= max && (min > 0 && min == max ==> !p.adv)
    requires var d1 := d + Held(p, min, max); Allocates(raw, d1, out, d1, peak) && peak >= d1
    requires Allocates(pre, d, pre, d, d)
    ensures Allocates(QuantForm(p, -1, greedy, min, max, pre, raw), d, QuantForm(p, d, greedy, min, max, pre, out), d,
        peak)
  {
    hide Balanced, Assign, Final, Peak, CodeSize, SkipCode, StarCode, LoopCode, CloseOf;
    var d1 := d + Held(p, min, max);
    if min == 0 && max == 1 {
      AllocatesSkip(p, d, greedy, raw, out, peak);
      AllocatesConcat(pre, d, pre, d, d, SkipCode(p, -1, greedy, raw), SkipCode(p, d, greedy, out), d, peak);
    } else if min == 0 && max == INT32_MAX {
      AllocatesStar(p, d, greedy, raw, out, peak);
      AllocatesConcat(pre, d, pre, d, d, StarCode(p, -1, greedy, raw), StarCode(p, d, greedy, out), d, peak);
    } else if min == 0 {
      AllocatesCounted(p, d, greedy, false, max, max, raw, out, peak);
      var loop := LoopCode(p, -1, max, raw, CloseOf(p, -1, greedy, false, max, raw));
      var loop1 := LoopCode(p, d, max, out, CloseOf(p, d, greedy, false, max, out));
      AllocatesSize(loop, d, loop1, d, peak);
      var split := Split(!greedy, CodeSize(loop));
      AllocatesOne(split, d);
      AllocatesConcat([split], d, [split], d, d, loop, loop1, d, peak);
      AllocatesConcat(pre, d, pre, d, d, [split] + loop, [split] + loop1, d, peak);
    } else if min == 1 && max == INT32_MAX && !p.adv {
      AllocatesSize(raw, d1, out, d1, peak);
      var split := Split(greedy, -(CodeSize(raw) + 5));
      AllocatesOne(split, d);
      AllocatesConcat(raw, d, out, d, peak, [split], [split], d, d);
    } else {
      AllocatesCounted(p, d, greedy, min == max, max, max - min, raw, out, peak);
    }
  }

  /** On the code of any pattern the pass never underflows, gives every instruction the register Gen
      gives it when registers start at d, and needs exactly the nesting depth. */
  lemma {:induction false} GenAllocates(alpha: Alphabet, n: Node, c: nat, back: bool, d: nat)
    requires WellFormed(n, CAPTURE_COUNT_MAX)
    ensures Allocates(Gen(alpha, n, c, back, -1), d, Gen(alpha, n, c, back, d), d, d + Depth(alpha, n, c, back))
    decreases n, 1
  {
    hide Allocates, Gen, Depth;
    match n
    case Cat(l, r) => CatAllocates(alpha, l, r, c, c + Count(l), back, d);
    case Alt(l, r) => EitherAllocates(alpha, l, r, c, c + Count(l), back, d);
    case Group(b) => GroupAllocates(alpha, b, c, back, d);
    case Look(negated, behind, b) => LookAllocates(alpha, negated, behind, b, c, back, d);
    case Quant(b, min, max, greedy) =>
      DepthQuant(alpha, b, c, back, min, max, greedy);
      QuantUnfold(alpha, b, c, back, -1, min, max, greedy);
      QuantUnfold(alpha, b, c, back, d, min, max, greedy);
      QuantAllocates(alpha, b, c, back, d, min, max, greedy);
    case _ => LeafAllocates(alpha, n, c, back, d);
  }

  lemma {:induction false} QuantUnfold(alpha: Alphabet, b: Node, c: nat, back: bool, d: int, min: nat, max: nat,
      greedy: bool)
    requires WellFormed(Quant(b, min, max, greedy), CAPTURE_COUNT_MAX)
    ensures Gen(alpha, Quant(b, min, max, greedy), c, back, d) == GenQuant(alpha, b, c, back, d, min, max, greedy)
  {
    hide GenQuant, PlanOf;
  }

  lemma {:induction false} EitherAllocates(alpha: Alphabet, l: Node, r: Node, c: nat, cr: nat, back: bool, d: nat)
    requires WellFormed(Alt(l, r), CAPTURE_COUNT_MAX) && cr == c + Count(l)
    ensures Allocates(Gen(alpha, Alt(l, r), c, back, -1), d, Gen(alpha, Alt(l, r), c, back, d), d, d + Depth(alpha,
        Alt(l, r), c, back))
    decreases Alt(l, r), 0
  {
    hide Allocates, Gen, Count, Depth, AltForm;
    AltCode(alpha, l, r, c, back, -1);
    AltCode(alpha, l, r, c, back, d);
    DepthAlt(alpha, l, r, c, back);
    GenAllocates(alpha, l, c, back, d);
    GenAllocates(alpha, r, cr, back, d);
    AllocatesAlt(Gen(alpha, l, c, back, -1), Gen(alpha, r, cr, back, -1), d,
                 Gen(alpha, l, c, back, d), Gen(alpha, r, cr, back, d),
                 d + Depth(alpha, l, c, back), d + Depth(alpha, r, cr, back));
  }

  lemma {:induction false} GroupUnfold(alpha: Alphabet, b: Node, c: nat, back: bool, d: int)
    requires WellFormed(Group(b), CAPTURE_COUNT_MAX)
    ensures Gen(alpha, Group(b), c, back, d) ==
            if back then [SaveEnd(c)] + Gen(alpha, b, c + 1, back, d) + [SaveStart(c)]
            else [SaveStart(c)] + Gen(alpha, b, c + 1, back, d) + [SaveEnd(c)]
    ensures Depth(alpha, Group(b), c, back) == Depth(alpha, b, c + 1, back)
  {
    hide GenQuant, PlanOf;
  }

  lemma {:induction false} GroupAllocates(alpha: Alphabet, b: Node, c: nat, back: bool, d: nat)
    requires WellFormed(Group(b), CAPTURE_COUNT_MAX)
    ensures Allocates(Gen(alpha, Group(b), c, back, -1), d, Gen(alpha, Group(b), c, back, d), d, d + Depth(alpha,
        Group(b), c, back))
    decreases Group(b), 0
  {
    hide Allocates, Gen, Depth;
    GroupUnfold(alpha, b, c, back, -1);
    GroupUnfold(alpha, b, c, back, d);
    GenAllocates(alpha, b, c + 1, back, d);
    var raw, out := Gen(alpha, b, c + 1, back, -1), Gen(alpha, b, c + 1, back, d);
    if back {
      AllocatesAround(SaveEnd(c), raw, SaveStart(c), d, out, d + Depth(alpha, b, c + 1, back));
    } else {
      AllocatesAround(SaveStart(c), raw, SaveEnd(c), d, out, d + Depth(alpha, b, c + 1, back));
    }
  }

  lemma {:induction false} LookUnfold(alpha: Alphabet, negated: bool, behind: bool, b: Node, c: nat, back: bool, d: int)
    requires WellFormed(Look(negated, behind, b), CAPTURE_COUNT_MAX)
    ensures var body := Gen(alpha, b, c, behind, d);
      Gen(alpha, Look(negated, behind, b), c, back, d) == [LookAround(negated,
          CodeSize(body) + 1)] + body + [LookMatch(negated)]
    ensures Depth(alpha, Look(negated, behind, b), c, back) == Depth(alpha, b, c, behind)
  {
    hide GenQuant, PlanOf, CodeSize;
  }

  lemma {:induction false} LookAllocates(alpha: Alphabet, negated: bool, behind: bool, b: Node, c: nat, back: bool,
      d: nat)
    requires WellFormed(Look(negated, behind, b), CAPTURE_COUNT_MAX)
    ensures var n := Look(negated, behind, b);
      Allocates(Gen(alpha, n, c, back, -1), d, Gen(alpha, n, c, back, d), d, d + Depth(alpha, n, c, back))
    decreases Look(negated, behind, b), 0
  {
    hide Allocates, Gen, Depth, CodeSize;
    LookUnfold(alpha, negated, behind, b, c, back, -1);
    LookUnfold(alpha, negated, behind, b, c, back, d);
    GenAllocates(alpha, b, c, behind, d);
    var raw, out := Gen(alpha, b, c, behind, -1), Gen(alpha, b, c, behind, d);
    AllocatesSize(raw, d, out, d, d + Depth(alpha, b, c, behind));
    AllocatesAround(LookAround(negated, CodeSize(raw) + 1), raw, LookMatch(negated), d, out, d + Depth(alpha, b, c,
        behind));
  }

  lemma {:induction false} LeafAllocates(alpha: Alphabet, n: Node, c: nat, back: bool, d: nat)
    requires WellFormed(n, CAPTURE_COUNT_MAX) && (n.Empty? || n.Test? || n.Assert? || n.BackRef?)
    ensures Allocates(Gen(alpha, n, c, back, -1), d, Gen(alpha, n, c, back, d), d, d + Depth(alpha, n, c, back))
  {
    hide Allocates;
    match n
    case Empty => AllocatesNone(d);
    case Test(t) =>
      var i := Single(GenTest(alpha, t));
      AllocatesOne(i, d);
      if back {
        AllocatesAround(Prev, [i], Prev, d, [i], d);
        assert [Prev] + [i] + [Prev] == [Prev, i, Prev];
      }
    case Assert(a) => AllocatesOne(Check(a), d);
    case BackRef(gs, icase) => AllocatesOne(BackReference(back, icase, gs), d);
  }

  lemma {:induction false} CatAllocates(alpha: Alphabet, l: Node, r: Node, c: nat, cr: nat, back: bool, d: nat)
    requires WellFormed(Cat(l, r), CAPTURE_COUNT_MAX) && cr == c + Count(l)
    ensures Allocates(Gen(alpha, Cat(l, r), c, back, -1), d, Gen(alpha, Cat(l, r), c, back, d), d, d + Depth(alpha,
        Cat(l, r), c, back))
    decreases Cat(l, r), 0
  {
    hide Allocates, Gen, Count, Depth;
    CatCode(alpha, l, r, c, back, -1);
    CatCode(alpha, l, r, c, back, d);
    DepthCat(alpha, l, r, c, back);
    GenAllocates(alpha, l, c, back, d);
    GenAllocates(alpha, r, cr, back, d);
    var p, q := d + Depth(alpha, l, c, back), d + Depth(alpha, r, cr, back);
    if back {
      AllocatesConcat(Gen(alpha, r, cr, back, -1), d, Gen(alpha, r, cr, back, d), d, q,
                      Gen(alpha, l, c, back, -1), Gen(alpha, l, c, back, d), d, p);
    } else {
      AllocatesConcat(Gen(alpha, l, c, back, -1), d, Gen(alpha, l, c, back, d), d, p,
                      Gen(alpha, r, cr, back, -1), Gen(alpha, r, cr, back, d), d, q);
    }
  }

  lemma {:induction false} QuantAllocates(alpha: Alphabet, b: Node, c: nat, back: bool, d: nat, min: nat, max: nat,
      greedy: bool)
    requires WellFormed(b, CAPTURE_COUNT_MAX) && min <= max
    ensures Allocates(GenQuant(alpha, b, c, back, -1, min, max, greedy), d, GenQuant(alpha, b, c, back, d, min, max,
        greedy), d,
                      d + if max == 0 then 0 else Held(PlanOf(alpha, b, c, back, min, max), min, max) + Depth(alpha, b,
                          c, back))
    decreases b, 2
  {
    hide Allocates, Gen, Count, Depth, WellFormed, When;
    var p := PlanOf(alpha, b, c, back, min, max);
    var d1 := d + Held(p, min, max);
    var pre, reset := When(p.once, ResetOf(c, Count(b))), When(p.init, ResetOf(c, Count(b)));
    AllocatesWhenReset(p.once, c, Count(b), d);
    AllocatesWhenReset(p.init, c, Count(b), d1);
    GenAllocates(alpha, b, c, back, d1);
    AllocatesConcat(reset, d1, reset, d1, d1, Gen(alpha, b, c, back, -1), Gen(alpha, b, c, back, d1), d1,
        d1 + Depth(alpha, b, c, back));
    if max > 0 {
      AllocatesQuant(p, d, greedy, min, max, pre, GenAtom(alpha, b, c, back, -1, p), GenAtom(alpha, b, c, back, d1, p),
                     d1 + Depth(alpha, b, c, back));
    }
  }

  lemma {:induction false} AllocatesWhenReset(on: bool, c: nat, n: nat, d: nat)
    ensures Allocates(When(on, ResetOf(c, n)), d, When(on, ResetOf(c, n)), d, d)
  {
    hide Allocates;
    AllocatesWhen(on, ResetOf(c, n), d);
  }
}

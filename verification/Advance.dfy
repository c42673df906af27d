/** The zero-advance analysis is sound: when it finds no check is needed, every run of the code
    moves the subject position strictly in the direction of the match. */
module Advance {
  import opened RegexpSyntax
  import opened Bytecode
  import opened QuantCode
  import opened CodeGen
  import opened Machine
  import opened Denotation
  import opened DenotationFrame
  import opened RegexpSemantics

  lemma {:induction false} NeedCheckAdvConcat(a: seq<Instr>, b: seq<Instr>)
    requires !NeedCheckAdv(a + b)
    ensures !NeedCheckAdv(a) || !NeedCheckAdv(b)
    decreases |a|
  {
    if a == [] {
      assert a + b == b;
    } else {
      assert (a + b)[1..] == a[1..] + b;
      if !Stops(a[0]) && !a[0].Single? {
        NeedCheckAdvConcat(a[1..], b);
      }
    }
  }

  /** The analysis of the emitted code never claims more than the syntax tree supports. */
  lemma {:induction false} AnalysisMustAdvance(alpha: Alphabet, n: Node, c: nat, back: bool, d: int)
    requires WellFormed(n, CAPTURE_COUNT_MAX)
    requires !NeedCheckAdv(Gen(alpha, n, c, back, d))
    ensures MustAdvance(n)
    decreases n, 1
  {
    match n
    case Empty =>
    case Test(t) =>
    case Assert(a) =>
    case BackRef(gs, icase) =>
    case Cat(l, r) =>
      var cl, cr := Gen(alpha, l, c, back, d), Gen(alpha, r, c + Count(l), back, d);
      if back {
        NeedCheckAdvConcat(cr, cl);
      } else {
        NeedCheckAdvConcat(cl, cr);
      }
      if !NeedCheckAdv(cl) {
        AnalysisMustAdvance(alpha, l, c, back, d);
      } else {
        AnalysisMustAdvance(alpha, r, c + Count(l), back, d);
      }
    case Alt(l, r) =>
    case Group(b) =>
      GroupMustAdvance(alpha, b, c, back, d);
    case Quant(b, min, max, greedy) =>
      QuantMustAdvance(alpha, b, c, back, d, min, max, greedy);
    case Look(negated, behind, b) =>
  }

  lemma {:induction false} GroupMustAdvance(alpha: Alphabet, b: Node, c: nat, back: bool, d: int)
    requires WellFormed(b, CAPTURE_COUNT_MAX)
    requires !NeedCheckAdv(Gen(alpha, Group(b), c, back, d))
    ensures MustAdvance(b)
    decreases b, 2
  {
    var body := Gen(alpha, b, c + 1, back, d);
    var first := if back then SaveEnd(c) else SaveStart(c);
    var last := if back then SaveStart(c) else SaveEnd(c);
    NeedCheckAdvConcat([first] + body, [last]);
    NeedCheckAdvConcat([first], body);
    AnalysisMustAdvance(alpha, b, c + 1, back, d);
  }

  lemma {:induction false} QuantMustAdvance(alpha: Alphabet, b: Node, c: nat, back: bool, d: int, min: nat, max: nat,
      greedy: bool)
    requires WellFormed(b, CAPTURE_COUNT_MAX) && min <= max
    requires !NeedCheckAdv(GenQuant(alpha, b, c, back, d, min, max, greedy))
    ensures min > 0 && MustAdvance(b)
    decreases b, 3
  {
    hide Gen, Count, WellFormed, MustAdvance, CodeSize;
    var p := PlanOf(alpha, b, c, back, min, max);
    var d1 := Up(d, Held(p, min, max));
    var atom := GenAtom(alpha, b, c, back, d1, p);
    var code := GenQuant(alpha, b, c, back, d, min, max, greedy);
    if min == 0 {
      OptionalNeedsCheck(alpha, b, c, back, d, max, greedy);
    } else {
      if min == 1 && max == INT32_MAX && !p.adv {
        NeedCheckAdvConcat(atom, [Split(greedy, -(CodeSize(atom) + 5))]);
      } else {
        LoopMustAdvance(p, d, max, atom, code[|code| - 1]);
      }
      AtomMustAdvance(alpha, b, c, back, d1, p);
    }
  }

  lemma {:induction false} AtomMustAdvance(alpha: Alphabet, b: Node, c: nat, back: bool, d1: int, p: Plan)
    requires WellFormed(b, CAPTURE_COUNT_MAX)
    requires !NeedCheckAdv(GenAtom(alpha, b, c, back, d1, p))
    ensures MustAdvance(b)
    decreases b, 2
  {
    hide Gen, Count, WellFormed, MustAdvance, CodeSize;
    NeedCheckAdvConcat(When(p.init, ResetOf(c, Count(b))), Gen(alpha, b, c, back, d1));
    AnalysisMustAdvance(alpha, b, c, back, d1);
  }

  /** A quantifier that may be skipped starts with a split, past which nothing is predicted. */
  lemma {:induction false} OptionalNeedsCheck(alpha: Alphabet, b: Node, c: nat, back: bool, d: int, max: nat,
      greedy: bool)
    requires WellFormed(b, CAPTURE_COUNT_MAX)
    ensures NeedCheckAdv(GenQuant(alpha, b, c, back, d, 0, max, greedy))
  {
    hide Gen, PlanOf, Count, WellFormed;
  }

  lemma {:induction false} LoopMustAdvance(p: Plan, d: int, max: nat, atom: seq<Instr>, close: Instr)
    requires !NeedCheckAdv(LoopCode(p, d, max, atom, close)) && Stops(close)
    ensures !NeedCheckAdv(atom)
  {
    var mark := When(p.adv, SetCharPos(Reg(d, 1)));
    NeedCheckAdvConcat([SetI32(Reg(d, 0), max)], mark + (atom + [close]));
    NeedCheckAdvConcat(mark, atom + [close]);
    NeedCheckAdvConcat(atom, [close]);
  }

  lemma {:induction false} OutAdvances(env: Env, n: Node, c: nat, back: bool, d: nat, x: Point, y: Point)
    requires WellFormed(n, CAPTURE_COUNT_MAX) && c + Count(n) <= env.ncap && x.pos <= |env.sub.text|
    requires MustAdvance(n)
    requires y in Out(env, n, c, back, d, x)
    ensures Dist(env.sub, back, y.pos) < Dist(env.sub, back, x.pos)
    decreases n, 1
  {
    hide OutAll, PutAll, OutQuant, OpAccepts, Asserts, Compare, FirstSet;
    match n
    case Test(t) =>
    case Cat(l, r) =>
      if back {
        var z := OutAllIn(env, l, c, back, d, Out(env, r, c + Count(l), back, d, x), y);
        CatAdvances(env, n, r, c + Count(l), l, c, back, d, x, z, y);
      } else {
        var z := OutAllIn(env, r, c + Count(l), back, d, Out(env, l, c, back, d, x), y);
        CatAdvances(env, n, l, c, r, c + Count(l), back, d, x, z, y);
      }
    case Alt(l, r) =>
      if y in Out(env, l, c, back, d, x) {
        OutAdvances(env, l, c, back, d, x, y);
      } else {
        OutAdvances(env, r, c + Count(l), back, d, x, y);
      }
    case Group(b) =>
      GroupAdvances(env, b, c, back, d, x, y);
    case Quant(b, min, max, greedy) =>
      QuantAdvances(env, b, c, back, d, min, max, greedy, x, y);
  }

  lemma {:induction false} CatAdvances(env: Env, n: Node, n1: Node, c1: nat, n2: Node, c2: nat, back: bool, d: nat,
      x: Point, z: Point, y: Point)
    requires n1 < n && n2 < n
    requires WellFormed(n1, CAPTURE_COUNT_MAX) && c1 + Count(n1) <= env.ncap && x.pos <= |env.sub.text|
    requires WellFormed(n2, CAPTURE_COUNT_MAX) && c2 + Count(n2) <= env.ncap
    requires MustAdvance(n1) || MustAdvance(n2)
    requires z in Out(env, n1, c1, back, d, x) && y in Out(env, n2, c2, back, d, z)
    ensures Dist(env.sub, back, y.pos) < Dist(env.sub, back, x.pos)
    decreases n, 0
  {
    OutFramed(env, n1, c1, back, d, x, z);
    OutFramed(env, n2, c2, back, d, z, y);
    if MustAdvance(n1) {
      OutAdvances(env, n1, c1, back, d, x, z);
    } else {
      OutAdvances(env, n2, c2, back, d, z, y);
    }
  }

  lemma {:induction false} GroupAdvances(env: Env, b: Node, c: nat, back: bool, d: nat, x: Point, y: Point)
    requires WellFormed(b, CAPTURE_COUNT_MAX) && c + 1 + Count(b) <= env.ncap && x.pos <= |env.sub.text|
    requires MustAdvance(b)
    requires y in Out(env, Group(b), c, back, d, x)
    ensures Dist(env.sub, back, y.pos) < Dist(env.sub, back, x.pos)
    decreases b, 2
  {
    hide Out, Count, WellFormed, MustAdvance, Put, PutAll;
    var k1, k2 := if back then 2 * c + 1 else 2 * c, if back then 2 * c else 2 * c + 1;
    GroupOut(env, b, c, back, d, x, k1, k2);
    var x1 := Point(x.pos, Put(x.mem, k1, x.pos));
    var z := CloseIn(Out(env, b, c + 1, back, d, x1), k2, y);
    OutAdvances(env, b, c + 1, back, d, x1, z);
  }

  /** Anything a quantifier does after one run of an advancing atom keeps the advance. */
  lemma {:induction false} AtomAdvances(env: Env, b: Node, c: nat, back: bool, d1: nat, init: bool, x: Point, z: Point)
    requires WellFormed(b, CAPTURE_COUNT_MAX) && c + Count(b) <= env.ncap && x.pos <= |env.sub.text|
    requires MustAdvance(b)
    requires z in OutAtom(env, b, c, back, d1, init, x)
    ensures Dist(env.sub, back, z.pos) < Dist(env.sub, back, x.pos) && z.pos <= |env.sub.text|
    decreases b, 2
  {
    hide Out, Count, WellFormed, MustAdvance;
    var x1 := Point(x.pos, Reset(init, c, Count(b), x.mem));
    OutFramed(env, b, c, back, d1, x1, z);
    OutAdvances(env, b, c, back, d1, x1, z);
  }

  lemma {:induction false} FramedNear(env: Env, c: nat, n: nat, d: nat, back: bool, z: Point, y: Point)
    requires Framed(env, c, n, d, back, z, y)
    ensures Dist(env.sub, back, y.pos) <= Dist(env.sub, back, z.pos)
  {
  }

  lemma {:induction false} FramedSelf(env: Env, c: nat, n: nat, d: nat, back: bool, z: Point)
    requires z.pos <= |env.sub.text|
    ensures Framed(env, c, n, d, back, z, z)
  {
  }

  lemma {:induction false} QuantAdvances(env: Env, b: Node, c: nat, back: bool, d: nat, min: nat, max: nat,
      greedy: bool, x: Point, y: Point)
    requires WellFormed(b, CAPTURE_COUNT_MAX) && c + Count(b) <= env.ncap && x.pos <= |env.sub.text|
    requires 0 < min <= max && MustAdvance(b)
    requires y in OutQuant(env, b, c, back, d, min, max, greedy, x)
    ensures Dist(env.sub, back, y.pos) < Dist(env.sub, back, x.pos)
    decreases b, 4
  {
    hide Out, OutAtom, OutStar, OutStarAll, OutLoop, PlanOf, Count, WellFormed, MustAdvance, Framed;
    var p := PlanOf(env.sub.alpha, b, c, back, min, max);
    var d1 := d + Held(p, min, max);
    var reg := 2 * env.ncap + d;
    if min == 1 && max == INT32_MAX && !p.adv {
      var z := OutStarAllIn(env, b, c, back, d1, p, reg, greedy, OutAtom(env, b, c, back, d1, p.init, x), y);
      AtomAdvances(env, b, c, back, d1, p.init, x, z);
      FramedSelf(env, c, Count(b), d, back, z);
      StarFramed(env, b, c, back, d1, p, reg, greedy, d, z, z, y);
      FramedNear(env, c, Count(b), d, back, z, y);
    } else {
      LoopAdvances(env, b, c, back, d1, p.init, Counter(reg, p.adv, greedy, max - min), max, d,
                   Point(x.pos, Put(x.mem, reg, max)), y);
    }
  }

  lemma {:induction false} LoopAdvances(env: Env, b: Node, c: nat, back: bool, d1: nat, init: bool, k: Counter, v: nat,
      d: nat, x: Point, y: Point)
    requires WellFormed(b, CAPTURE_COUNT_MAX) && c + Count(b) <= env.ncap && x.pos <= |env.sub.text|
    requires v > 0 && MustAdvance(b) && k.reg >= 2 * env.ncap + d && d <= d1
    requires y in OutLoop(env, b, c, back, d1, init, k, v, x)
    ensures Dist(env.sub, back, y.pos) < Dist(env.sub, back, x.pos)
    decreases b, 3
  {
    hide Out, OutAtom, OutNextAll, Count, WellFormed, MustAdvance, Framed;
    var x0 := Mark(k.adv, k.reg + 1, x);
    var z := OutNextAllIn(env, b, c, back, d1, init, k, v - 1, x.pos, OutAtom(env, b, c, back, d1, init, x0), y);
    AtomAdvances(env, b, c, back, d1, init, x0, z);
    var z1 := Point(z.pos, Put(z.mem, k.reg, v - 1));
    if y != z1 {
      FramedSelf(env, c, Count(b), d, back, z1);
      LoopFramed(env, b, c, back, d1, init, k, v - 1, d, z1, z1, y);
      FramedNear(env, c, Count(b), d, back, z1, y);
    }
  }
}

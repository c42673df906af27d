/** What the generated code computes, with the engine's own memory: the captures, which may be half
    set or stale, and the registers of the loops. Every function returns the outcomes in the order
    in which the code produces them. */
module Denotation {
  import opened RegexpSyntax
  import opened Bytecode
  import opened QuantCode
  import opened CodeGen
  import opened Machine
  import RegexpSemantics

  /** The subject and the layout of the memory. */
  datatype Env = Env(sub: Subject, ncap: nat)

  /** The outcomes that lie strictly ahead of pos. */
  function Advanced(s: Subject, back: bool, rs: seq<Point>, pos: nat): (r: seq<Point>)
    ensures forall x :: x in r ==> x in rs && RegexpSemantics.Dist(s, back, x.pos) < RegexpSemantics.Dist(s, back, pos)
  {
    if rs == [] then []
    else
      (if RegexpSemantics.Dist(s, back, rs[0].pos) < RegexpSemantics.Dist(s, back, pos) then [rs[0]] else [])
      + Advanced(s, back, rs[1..], pos)
  }

  function Reach(s: Subject, back: bool, rs: seq<Point>): (r: nat)
    ensures forall x :: x in rs ==> RegexpSemantics.Dist(s, back, x.pos) < r
  {
    if rs == [] then 0
    else
      var d := RegexpSemantics.Dist(s, back, rs[0].pos) + 1;
      var rest := Reach(s, back, rs[1..]);
      if d > rest then d else rest
  }

  lemma {:induction false} ReachBound(s: Subject, back: bool, rs: seq<Point>, b: nat)
    requires forall x :: x in rs ==> RegexpSemantics.Dist(s, back, x.pos) < b
    ensures Reach(s, back, rs) <= b
  {
    if rs != [] {
      assert rs[0] in rs;
      ReachBound(s, back, rs[1..], b);
    }
  }

  /** A counted loop: the register that counts, and what its closing instruction tests. */
  datatype Counter = Counter(reg: int, adv: bool, greedy: bool, limit: nat)

  function Out(env: Env, n: Node, c: nat, back: bool, d: nat, x: Point): (r: seq<Point>)
    requires WellFormed(n, CAPTURE_COUNT_MAX)
    decreases n, 0, 0, 0, 0
  {
    match n
    case Empty => [x]
    case Test(t) =>
      var text := env.sub.text;
      var op := GenTest(env.sub.alpha, t);
      if back then
        if 0 < x.pos <= |text| && OpAccepts(env.sub.alpha, op, text[x.pos - 1]) then [x.(pos := x.pos - 1)] else []
      else
        if x.pos < |text| && OpAccepts(env.sub.alpha, op, text[x.pos]) then [x.(pos := x.pos + 1)] else []
    case Assert(a) =>
      if x.pos <= |env.sub.text| && RegexpSemantics.Asserts(env.sub, a, x.pos) then [x] else []
    case BackRef(gs, icase) =>
      var (a, b) := FirstSet(x.mem, gs);
      var p := Compare(env.sub, a, b, icase, back, x.pos);
      if p == [] then [] else [x.(pos := p[0])]
    case Cat(l, r) =>
      if back then OutAll(env, l, c, back, d, Out(env, r, c + Count(l), back, d, x))
      else OutAll(env, r, c + Count(l), back, d, Out(env, l, c, back, d, x))
    case Alt(l, r) => Out(env, l, c, back, d, x) + Out(env, r, c + Count(l), back, d, x)
    case Group(b) =>
      var first := 2 * c + (if back then 1 else 0);
      var second := 2 * c + (if back then 0 else 1);
      PutAll(Out(env, b, c + 1, back, d, Point(x.pos, Put(x.mem, first, x.pos))), second)
    case Quant(b, min, max, greedy) => OutQuant(env, b, c, back, d, min, max, greedy, x)
    case Look(negated, behind, b) =>
      var r := Out(env, b, c, behind, d, x);
      if negated then (if r == [] then [x] else [])
      else if r == [] then [] else [Point(x.pos, r[0].mem)]
  }

  function OutAll(env: Env, n: Node, c: nat, back: bool, d: nat, xs: seq<Point>): (r: seq<Point>)
    requires WellFormed(n, CAPTURE_COUNT_MAX)
    decreases n, 1, 0, 0, |xs|
  {
    if xs == [] then [] else Out(env, n, c, back, d, xs[0]) + OutAll(env, n, c, back, d, xs[1..])
  }

  /** One run of the atom, after the reset that may precede it. */
  function OutAtom(env: Env, b: Node, c: nat, back: bool, d: nat, init: bool, x: Point): (r: seq<Point>)
    requires WellFormed(b, CAPTURE_COUNT_MAX)
    decreases b, 1, 0, 0, 0
  {
    Out(env, b, c, back, d, Point(x.pos, Reset(init, c, Count(b), x.mem)))
  }

  function OutQuant(env: Env, b: Node, c: nat, back: bool, d: nat, min: nat, max: nat, greedy: bool,
      x: Point): (r: seq<Point>)
    requires WellFormed(b, CAPTURE_COUNT_MAX) && min <= max
    decreases b, 3, 0, 0, 0
  {
    var p := PlanOf(env.sub.alpha, b, c, back, min, max);
    var d1 := d + Held(p, min, max);
    var reg := 2 * env.ncap + d;
    var y := Point(x.pos, Reset(p.once, c, Count(b), x.mem));
    if min == 0 then
      if max == 0 then [y]
      else if max == 1 then
        var some := OutAtom(env, b, c, back, d1, p.init, Mark(p.adv, reg, y));
        var kept := Advanced(env.sub, back, some, x.pos);
        if greedy then kept + [y] else [y] + kept
      else if max == INT32_MAX then OutStar(env, b, c, back, d1, p, reg, greedy, y)
      else
        var k := Counter(reg, p.adv, greedy, max);
        var some := OutLoop(env, b, c, back, d1, p.init, k, max, Point(y.pos, Put(y.mem, reg, max)));
        if greedy then some + [y] else [y] + some
    else if min == 1 && max == INT32_MAX && !p.adv then
      OutStarAll(env, b, c, back, d1, p, reg, greedy, OutAtom(env, b, c, back, d1, p.init, x))
    else
      var k := Counter(reg, p.adv, greedy, max - min);
      OutLoop(env, b, c, back, d1, p.init, k, max, Point(x.pos, Put(x.mem, reg, max)))
  }

  /** An unbounded quantifier, at its split. */
  function OutStar(env: Env, b: Node, c: nat, back: bool, d1: nat, p: Plan, reg: int, greedy: bool,
      x: Point): (r: seq<Point>)
    requires WellFormed(b, CAPTURE_COUNT_MAX)
    decreases b, 2, RegexpSemantics.Dist(env.sub, back, x.pos) + 1, 0, 0
  {
    var some := OutAtom(env, b, c, back, d1, p.init, Mark(p.adv, reg, x));
    var kept := Advanced(env.sub, back, some, x.pos);
    ReachBound(env.sub, back, kept, RegexpSemantics.Dist(env.sub, back, x.pos));
    var more := OutStarAll(env, b, c, back, d1, p, reg, greedy, kept);
    if greedy then more + [x] else [x] + more
  }

  function OutStarAll(env: Env, b: Node, c: nat, back: bool, d1: nat, p: Plan, reg: int, greedy: bool, xs: seq<Point>)
    : (r: seq<Point>)
    requires WellFormed(b, CAPTURE_COUNT_MAX)
    decreases b, 2, Reach(env.sub, back, xs), 1, |xs|
  {
    if xs == [] then []
    else OutStar(env, b, c, back, d1, p, reg, greedy, xs[0]) + OutStarAll(env, b, c, back, d1, p, reg, greedy, xs[1..])
  }

  /** A counted loop, at the top of its body, with v iterations left. */
  function OutLoop(env: Env, b: Node, c: nat, back: bool, d1: nat, init: bool, k: Counter, v: nat,
      x: Point): (r: seq<Point>)
    requires WellFormed(b, CAPTURE_COUNT_MAX) && v > 0
    decreases b, 2, v, 1, 0
  {
    var some := OutAtom(env, b, c, back, d1, init, Mark(k.adv, k.reg + 1, x));
    OutNextAll(env, b, c, back, d1, init, k, v - 1, x.pos, some)
  }

  /** The instruction that closes the loop, with v iterations left after the one that began at from. */
  function OutNext(env: Env, b: Node, c: nat, back: bool, d1: nat, init: bool, k: Counter, v: nat, from: nat, x: Point)
    : (r: seq<Point>)
    requires WellFormed(b, CAPTURE_COUNT_MAX)
    decreases b, 2, v, 2, 0
  {
    var y := Point(x.pos, Put(x.mem, k.reg, v));
    if v > k.limit then OutLoop(env, b, c, back, d1, init, k, v, y)
    else if k.adv && x.pos == from && v != k.limit then []
    else if v == 0 then [y]
    else
      var more := OutLoop(env, b, c, back, d1, init, k, v, y);
      if k.greedy then more + [y] else [y] + more
  }

  function OutNextAll(env: Env, b: Node, c: nat, back: bool, d1: nat, init: bool, k: Counter, v: nat, from: nat,
      xs: seq<Point>)
    : (r: seq<Point>)
    requires WellFormed(b, CAPTURE_COUNT_MAX)
    decreases b, 2, v, 3, |xs|
  {
    if xs == [] then []
    else OutNext(env, b, c, back, d1, init, k, v, from, xs[0])
         + OutNextAll(env, b, c, back, d1, init, k, v, from, xs[1..])
  }
}

/** What an outcome of a piece of code leaves alone: the captures of other groups, the registers of
    enclosing loops, and everything behind the position it started from. */
module DenotationFrame {
  import opened RegexpSyntax
  import opened QuantCode
  import opened CodeGen
  import opened Machine
  import opened Denotation
  import opened RegexpSemantics

  /** y is reachable from x by code that owns the n groups from c on and the registers from d on. */
  ghost predicate Framed(env: Env, c: nat, n: nat, d: nat, back: bool, x: Point, y: Point) {
    && |y.mem| == |x.mem|
    && y.pos <= |env.sub.text|
    && Ahead(env.sub, back, x.pos, y.pos)
    && forall j :: 0 <= j < |x.mem| && j < 2 * env.ncap + d && !(2 * c <= j < 2 * (c + n)) ==> y.mem[j] == x.mem[j]
  }

  lemma {:induction false} FramedTrans(env: Env, c: nat, n: nat, d: nat, back: bool, x: Point, y: Point, z: Point)
    requires Framed(env, c, n, d, back, x, y) && Framed(env, c, n, d, back, y, z)
    ensures Framed(env, c, n, d, back, x, z)
  {
  }

  lemma {:induction false} FramedWiden(env: Env, c: nat, n: nat, d: nat, c': nat, n': nat, d': nat, back: bool,
      x: Point, y: Point)
    requires Framed(env, c', n', d', back, x, y)
    requires c <= c' && c' + n' <= c + n && d <= d'
    ensures Framed(env, c, n, d, back, x, y)
  {
  }

  lemma {:induction false} OutAllIn(env: Env, n: Node, c: nat, back: bool, d: nat, xs: seq<Point>,
      y: Point) returns (x: Point)
    requires WellFormed(n, CAPTURE_COUNT_MAX)
    requires y in OutAll(env, n, c, back, d, xs)
    ensures x in xs && y in Out(env, n, c, back, d, x)
    decreases |xs|
  {
    if y in Out(env, n, c, back, d, xs[0]) {
      x := xs[0];
    } else {
      x := OutAllIn(env, n, c, back, d, xs[1..], y);
    }
  }

  lemma {:induction false} OutStarAllIn(env: Env, b: Node, c: nat, back: bool, d1: nat, p: Plan, reg: int, greedy: bool,
                                        xs: seq<Point>, y: Point) returns (x: Point)
    requires WellFormed(b, CAPTURE_COUNT_MAX)
    requires y in OutStarAll(env, b, c, back, d1, p, reg, greedy, xs)
    ensures x in xs && y in OutStar(env, b, c, back, d1, p, reg, greedy, x)
    decreases |xs|
  {
    if y in OutStar(env, b, c, back, d1, p, reg, greedy, xs[0]) {
      x := xs[0];
    } else {
      x := OutStarAllIn(env, b, c, back, d1, p, reg, greedy, xs[1..], y);
    }
  }

  lemma {:induction false} OutNextAllIn(env: Env, b: Node, c: nat, back: bool, d1: nat, init: bool, k: Counter, v: nat,
                                        from: nat, xs: seq<Point>, y: Point) returns (x: Point)
    requires WellFormed(b, CAPTURE_COUNT_MAX)
    requires y in OutNextAll(env, b, c, back, d1, init, k, v, from, xs)
    ensures x in xs && y in OutNext(env, b, c, back, d1, init, k, v, from, x)
    decreases |xs|
  {
    if y in OutNext(env, b, c, back, d1, init, k, v, from, xs[0]) {
      x := xs[0];
    } else {
      x := OutNextAllIn(env, b, c, back, d1, init, k, v, from, xs[1..], y);
    }
  }

  lemma {:induction false} CompareFramed(s: Subject, a: int, b: int, icase: bool, back: bool, pos: nat)
    requires pos <= |s.text|
    ensures var p := Compare(s, a, b, icase, back, pos); p != [] ==> p[0] <= |s.text| && Ahead(s, back, pos, p[0])
  {
  }

  lemma {:induction false} OutFramed(env: Env, n: Node, c: nat, back: bool, d: nat, x: Point, y: Point)
    requires WellFormed(n, CAPTURE_COUNT_MAX) && c + Count(n) <= env.ncap && x.pos <= |env.sub.text|
    requires y in Out(env, n, c, back, d, x)
    ensures Framed(env, c, Count(n), d, back, x, y)
    decreases n, 1, 0, 0, 0
  {
    hide Framed, OutAll, OutQuant, PutAll;
    match n
    case Cat(l, r) =>
      if back {
        CatFramed(env, n, r, c + Count(l), l, c, c, back, d, x, y);
      } else {
        CatFramed(env, n, l, c, r, c + Count(l), c, back, d, x, y);
      }
    case Alt(l, r) =>
      if y in Out(env, l, c, back, d, x) {
        OutFramed(env, l, c, back, d, x, y);
        FramedWiden(env, c, Count(n), d, c, Count(l), d, back, x, y);
      } else {
        OutFramed(env, r, c + Count(l), back, d, x, y);
        FramedWiden(env, c, Count(n), d, c + Count(l), Count(r), d, back, x, y);
      }
    case Group(b) => GroupFramed(env, b, c, back, d, x, y);
    case Quant(b, min, max, greedy) => QuantFramed(env, b, c, back, d, min, max, greedy, x, y);
    case Look(negated, behind, b) => LookFramed(env, n, c, back, d, x, y);
    case _ => LeafFramed(env, n, c, back, d, x, y);
  }

  lemma {:induction false} LeafFramed(env: Env, n: Node, c: nat, back: bool, d: nat, x: Point, y: Point)
    requires n.Empty? || n.Test? || n.Assert? || n.BackRef?
    requires WellFormed(n, CAPTURE_COUNT_MAX) && x.pos <= |env.sub.text|
    requires y in Out(env, n, c, back, d, x)
    ensures Framed(env, c, Count(n), d, back, x, y)
  {
    if n.BackRef? {
      var (a, b) := FirstSet(x.mem, n.groups);
      CompareFramed(env.sub, a, b, n.icase, back, x.pos);
    }
  }

  lemma {:induction false} LookFramed(env: Env, n: Node, c: nat, back: bool, d: nat, x: Point, y: Point)
    requires n.Look?
    requires WellFormed(n, CAPTURE_COUNT_MAX) && c + Count(n) <= env.ncap && x.pos <= |env.sub.text|
    requires y in Out(env, n, c, back, d, x)
    ensures Framed(env, c, Count(n), d, back, x, y)
    decreases n, 0, 0, 0, 0
  {
    var r := Out(env, n.body, c, n.behind, d, x);
    if !n.negated && r != [] {
      OutFramed(env, n.body, c, n.behind, d, x, r[0]);
    }
  }

  lemma {:induction false} CatFramed(env: Env, n: Node, n1: Node, c1: nat, n2: Node, c2: nat, c: nat, back: bool,
      d: nat,
                                     x: Point, y: Point)
    requires n.Cat? && ((n.l == n1 && n.r == n2) || (n.l == n2 && n.r == n1))
    requires WellFormed(n, CAPTURE_COUNT_MAX) && c + Count(n) <= env.ncap && x.pos <= |env.sub.text|
    requires c <= c1 && c1 + Count(n1) <= c + Count(n) && c <= c2 && c2 + Count(n2) <= c + Count(n)
    requires y in OutAll(env, n2, c2, back, d, Out(env, n1, c1, back, d, x))
    ensures Framed(env, c, Count(n), d, back, x, y)
    decreases n, 0, 0, 0, 0
  {
    hide Out, OutAll;
    var z := OutAllIn(env, n2, c2, back, d, Out(env, n1, c1, back, d, x), y);
    OutFramed(env, n1, c1, back, d, x, z);
    OutFramed(env, n2, c2, back, d, z, y);
    FramedWiden(env, c, Count(n), d, c1, Count(n1), d, back, x, z);
    FramedWiden(env, c, Count(n), d, c2, Count(n2), d, back, z, y);
    FramedTrans(env, c, Count(n), d, back, x, z, y);
  }

  lemma {:induction false} GroupOut(env: Env, b: Node, c: nat, back: bool, d: nat, x: Point, k1: nat, k2: nat)
    requires WellFormed(b, CAPTURE_COUNT_MAX)
    requires if back then k1 == 2 * c + 1 && k2 == 2 * c else k1 == 2 * c && k2 == 2 * c + 1
    ensures Out(env, Group(b), c, back, d, x) == PutAll(Out(env, b, c + 1, back, d, Point(x.pos, Put(x.mem, k1,
        x.pos))), k2)
  {
    hide PutAll, Put;
  }

  lemma {:induction false} GroupFramed(env: Env, b: Node, c: nat, back: bool, d: nat, x: Point, y: Point)
    requires WellFormed(b, CAPTURE_COUNT_MAX) && c + 1 + Count(b) <= env.ncap && x.pos <= |env.sub.text|
    requires y in Out(env, Group(b), c, back, d, x)
    ensures Framed(env, c, 1 + Count(b), d, back, x, y)
    decreases b, 5, 0, 0, 0
  {
    hide Out, Framed, Count, WellFormed, Put, PutAll;
    if back {
      GroupOut(env, b, c, back, d, x, 2 * c + 1, 2 * c);
      SpanFramed(env, b, c, back, d, x, 2 * c + 1, 2 * c, 1 + Count(b), y);
    } else {
      GroupOut(env, b, c, back, d, x, 2 * c, 2 * c + 1);
      SpanFramed(env, b, c, back, d, x, 2 * c, 2 * c + 1, 1 + Count(b), y);
    }
  }

  lemma {:induction false} SpanFramed(env: Env, b: Node, c: nat, back: bool, d: nat, x: Point, k1: nat, k2: nat,
      n: nat, y: Point)
    requires WellFormed(b, CAPTURE_COUNT_MAX) && n == 1 + Count(b) && c + n <= env.ncap && x.pos <= |env.sub.text|
    requires 2 * c <= k1 <= 2 * c + 1 && 2 * c <= k2 <= 2 * c + 1
    requires y in PutAll(Out(env, b, c + 1, back, d, Point(x.pos, Put(x.mem, k1, x.pos))), k2)
    ensures Framed(env, c, n, d, back, x, y)
    decreases b, 4, 0, 0, 0
  {
    hide Out, Framed, Count, WellFormed, Put, PutAll;
    var x1 := Point(x.pos, Put(x.mem, k1, x.pos));
    var z := CloseIn(Out(env, b, c + 1, back, d, x1), k2, y);
    PutFramed(env, c, n, d, back, x, k1, x.pos);
    OutFramed(env, b, c + 1, back, d, x1, z);
    FramedWiden(env, c, n, d, c + 1, Count(b), d, back, x1, z);
    FramedTrans(env, c, n, d, back, x, x1, z);
    FramedInside(env, c, n, d, back, x, z);
    PutFramed(env, c, n, d, back, z, k2, z.pos);
    FramedTrans(env, c, n, d, back, x, z, y);
  }

  lemma {:induction false} CloseIn(rs: seq<Point>, k: int, y: Point) returns (z: Point)
    requires y in PutAll(rs, k)
    ensures z in rs && y == Point(z.pos, Put(z.mem, k, z.pos))
  {
    var i :| 0 <= i < |rs| && PutAll(rs, k)[i] == y;
    z := rs[i];
  }

  lemma {:induction false} FramedInside(env: Env, c: nat, n: nat, d: nat, back: bool, x: Point, y: Point)
    requires Framed(env, c, n, d, back, x, y)
    ensures y.pos <= |env.sub.text|
  {
  }

  lemma {:induction false} PutFramed(env: Env, c: nat, n: nat, d: nat, back: bool, x: Point, k: int, v: int)
    requires 2 * c <= k < 2 * (c + n) && x.pos <= |env.sub.text|
    ensures Framed(env, c, n, d, back, x, Point(x.pos, Put(x.mem, k, v)))
  {
  }

  lemma {:induction false} PutRegFramed(env: Env, c: nat, n: nat, d: nat, back: bool, x0: Point, x: Point, k: int,
      v: int)
    requires Framed(env, c, n, d, back, x0, x) && k >= 2 * env.ncap + d
    ensures Framed(env, c, n, d, back, x0, Point(x.pos, Put(x.mem, k, v)))
  {
  }

  lemma {:induction false} MarkFramed(env: Env, c: nat, n: nat, d: nat, back: bool, x0: Point, adv: bool, reg: int,
      x: Point)
    requires Framed(env, c, n, d, back, x0, x) && reg >= 2 * env.ncap + d
    ensures Framed(env, c, n, d, back, x0, Mark(adv, reg, x))
  {
  }

  lemma {:induction false} AtomFramed(env: Env, b: Node, c: nat, back: bool, d1: nat, init: bool, d: nat, x0: Point,
      x: Point, y: Point)
    requires WellFormed(b, CAPTURE_COUNT_MAX) && c + Count(b) <= env.ncap && x0.pos <= |env.sub.text| && d <= d1
    requires Framed(env, c, Count(b), d, back, x0, x)
    requires y in OutAtom(env, b, c, back, d1, init, x)
    ensures Framed(env, c, Count(b), d, back, x0, y)
    decreases b, 2, 0, 0, 0
  {
    hide Out, Count, WellFormed;
    var x1 := Point(x.pos, Reset(init, c, Count(b), x.mem));
    assert Framed(env, c, Count(b), d, back, x0, x1);
    OutFramed(env, b, c, back, d1, x1, y);
    FramedWiden(env, c, Count(b), d, c, Count(b), d1, back, x1, y);
    FramedTrans(env, c, Count(b), d, back, x0, x1, y);
  }

  lemma {:induction false} QuantFramed(env: Env, b: Node, c: nat, back: bool, d: nat, min: nat, max: nat, greedy: bool,
      x: Point, y: Point)
    requires WellFormed(b, CAPTURE_COUNT_MAX) && c + Count(b) <= env.ncap && x.pos <= |env.sub.text| && min <= max
    requires y in OutQuant(env, b, c, back, d, min, max, greedy, x)
    ensures Framed(env, c, Count(b), d, back, x, y)
    decreases b, 4, 0, 0, 0
  {
    hide Out, OutAtom, OutStar, OutStarAll, OutLoop, OutQuant, PlanOf, Count, WellFormed;
    var p := PlanOf(env.sub.alpha, b, c, back, min, max);
    var d1 := d + Held(p, min, max);
    var reg := 2 * env.ncap + d;
    var x1 := Point(x.pos, Reset(p.once, c, Count(b), x.mem));
    assert Framed(env, c, Count(b), d, back, x, x1);
    if min == 0 {
      OptionalOut(env, b, c, back, d, max, greedy, x, p, d1, x1);
    } else {
      RepeatedOut(env, b, c, back, d, min, max, greedy, x, p, d1);
    }
    if y == x1 {
    } else if min == 0 && max == 1 {
      var some := OutAtom(env, b, c, back, d1, p.init, Mark(p.adv, reg, x1));
      assert y in Advanced(env.sub, back, some, x1.pos);
      AtomFramed(env, b, c, back, d1, p.init, d, x, Mark(p.adv, reg, x1), y);
    } else if min == 0 && max == INT32_MAX {
      StarFramed(env, b, c, back, d1, p, reg, greedy, d, x, x1, y);
    } else if min == 0 {
      var k := Counter(reg, p.adv, greedy, max);
      LoopFramed(env, b, c, back, d1, p.init, k, max, d, x, Point(x1.pos, Put(x1.mem, reg, max)), y);
    } else if min == 1 && max == INT32_MAX && !p.adv {
      var some := OutAtom(env, b, c, back, d1, p.init, x);
      var z := OutStarAllIn(env, b, c, back, d1, p, reg, greedy, some, y);
      AtomFramed(env, b, c, back, d1, p.init, d, x, x, z);
      StarFramed(env, b, c, back, d1, p, reg, greedy, d, x, z, y);
    } else {
      var k := Counter(reg, p.adv, greedy, max - min);
      LoopFramed(env, b, c, back, d1, p.init, k, max, d, x, Point(x.pos, Put(x.mem, reg, max)), y);
    }
  }

  lemma {:induction false} StarFramed(env: Env, b: Node, c: nat, back: bool, d1: nat, p: Plan, reg: int, greedy: bool,
                                      d: nat, x0: Point, x: Point, y: Point)
    requires WellFormed(b, CAPTURE_COUNT_MAX) && c + Count(b) <= env.ncap && x0.pos <= |env.sub.text| && d <= d1
    requires reg >= 2 * env.ncap + d
    requires Framed(env, c, Count(b), d, back, x0, x)
    requires y in OutStar(env, b, c, back, d1, p, reg, greedy, x)
    ensures Framed(env, c, Count(b), d, back, x0, y)
    decreases b, 3, Dist(env.sub, back, x.pos), 0, 0
  {
    hide Out, OutAtom, Framed, Count, WellFormed;
    if y != x {
      var marked := Mark(p.adv, reg, x);
      var kept := Advanced(env.sub, back, OutAtom(env, b, c, back, d1, p.init, marked), x.pos);
      var z := OutStarAllIn(env, b, c, back, d1, p, reg, greedy, kept, y);
      MarkFramed(env, c, Count(b), d, back, x0, p.adv, reg, x);
      AtomFramed(env, b, c, back, d1, p.init, d, x0, marked, z);
      StarFramed(env, b, c, back, d1, p, reg, greedy, d, x0, z, y);
    }
  }

  lemma {:induction false} LoopFramed(env: Env, b: Node, c: nat, back: bool, d1: nat, init: bool, k: Counter, v: nat,
                                      d: nat, x0: Point, x: Point, y: Point)
    requires WellFormed(b, CAPTURE_COUNT_MAX) && c + Count(b) <= env.ncap && x0.pos <= |env.sub.text| && d <= d1
    requires k.reg >= 2 * env.ncap + d && v > 0
    requires Framed(env, c, Count(b), d, back, x0, x)
    requires y in OutLoop(env, b, c, back, d1, init, k, v, x)
    ensures Framed(env, c, Count(b), d, back, x0, y)
    decreases b, 3, v, 0, 0
  {
    hide Out, OutAtom, Framed, Count, WellFormed;
    var marked := Mark(k.adv, k.reg + 1, x);
    var z := OutNextAllIn(env, b, c, back, d1, init, k, v - 1, x.pos, OutAtom(env, b, c, back, d1, init, marked), y);
    MarkFramed(env, c, Count(b), d, back, x0, k.adv, k.reg + 1, x);
    AtomFramed(env, b, c, back, d1, init, d, x0, marked, z);
    PutRegFramed(env, c, Count(b), d, back, x0, z, k.reg, v - 1);
    NextFramed(env, b, c, back, d1, init, k, v - 1, x.pos, d, x0, z, y);
  }

  lemma {:induction false} NextFramed(env: Env, b: Node, c: nat, back: bool, d1: nat, init: bool, k: Counter, v: nat,
                                      from: nat, d: nat, x0: Point, z: Point, y: Point)
    requires WellFormed(b, CAPTURE_COUNT_MAX) && c + Count(b) <= env.ncap && x0.pos <= |env.sub.text| && d <= d1
    requires k.reg >= 2 * env.ncap + d
    requires Framed(env, c, Count(b), d, back, x0, Point(z.pos, Put(z.mem, k.reg, v)))
    requires y in OutNext(env, b, c, back, d1, init, k, v, from, z)
    ensures Framed(env, c, Count(b), d, back, x0, y)
    decreases b, 3, v, 1, 0
  {
    hide Out, OutLoop, Framed, Count, WellFormed;
    var z1 := Point(z.pos, Put(z.mem, k.reg, v));
    if y != z1 {
      LoopFramed(env, b, c, back, d1, init, k, v, d, x0, z1, y);
    }
  }

  /** The outcomes of an optional quantifier, with the registers of its atom counted from d. */
  lemma {:induction false} OptionalOut(env: Env, b: Node, c: nat, back: bool, d: nat, max: nat, greedy: bool, x: Point,
      p: Plan, d1: nat, y: Point)
    requires WellFormed(b, CAPTURE_COUNT_MAX) && p == PlanOf(env.sub.alpha, b, c, back, 0, max)
    requires d1 == d + Held(p, 0, max) && y == Point(x.pos, Reset(p.once, c, Count(b), x.mem))
    ensures OutQuant(env, b, c, back, d, 0, max, greedy, x) ==
            if max == 0 then [y]
            else if max == 1 then
              var some := OutAtom(env, b, c, back, d1, p.init, Mark(p.adv, 2 * env.ncap + d, y));
              var kept := Advanced(env.sub, back, some, y.pos);
              if greedy then kept + [y] else [y] + kept
            else if max == INT32_MAX then OutStar(env, b, c, back, d1, p, 2 * env.ncap + d, greedy, y)
            else
              var some := OutLoop(env, b, c, back, d1, p.init, Counter(2 * env.ncap + d, p.adv, greedy, max), max,
                                  Point(y.pos, Put(y.mem, 2 * env.ncap + d, max)));
              if greedy then some + [y] else [y] + some
  {
    hide Gen, Out, Count, WellFormed, OutAtom, PlanOf;
  }

  /** The same for a quantifier with a positive minimum. */
  lemma {:induction false} RepeatedOut(env: Env, b: Node, c: nat, back: bool, d: nat, min: nat, max: nat, greedy: bool,
      x: Point, p: Plan, d1: nat)
    requires WellFormed(b, CAPTURE_COUNT_MAX) && p == PlanOf(env.sub.alpha, b, c, back, min, max)
    requires d1 == d + Held(p, min, max) && 0 < min <= max
    ensures OutQuant(env, b, c, back, d, min, max, greedy, x) ==
            if min == 1 && max == INT32_MAX && !p.adv then
              OutStarAll(env, b, c, back, d1, p, 2 * env.ncap + d, greedy, OutAtom(env, b, c, back, d1, p.init, x))
            else
              OutLoop(env, b, c, back, d1, p.init, Counter(2 * env.ncap + d, p.adv, greedy, max - min), max,
                      Point(x.pos, Put(x.mem, 2 * env.ncap + d, max)))
  {
    hide Gen, Out, Count, WellFormed, OutAtom, PlanOf;
  }
}

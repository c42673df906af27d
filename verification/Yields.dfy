/** A calculus for runs of the reference machine: which outcomes a configuration produces, in order,
    before it gives up and falls back on the choice points that were there before. */
module Yields {
  import opened Bytecode
  import opened Machine
  import Sequences

  ghost predicate AllSplits(fs: seq<Frame>) {
    forall i :: 0 <= i < |fs| ==> fs[i].kind == SplitFrame
  }

  function At(pc: int, x: Point, stack: seq<Frame>): (r: Config) {
    Run(pc, x.pos, x.mem, stack)
  }

  /** From cf the machine arrives at end with each outcome of rs in turn, on top of base and
      possibly some new choice points; after the last one it fails back into base. */
  ghost predicate Outcomes(m: Code, cf: Config, base: seq<Frame>, end: int, rs: seq<Point>)
    decreases |rs|
  {
    if rs == [] then Reaches(m, cf, Fail(base))
    else exists fs :: AllSplits(fs) && Reaches(m, cf, At(end, rs[0], base + fs))
                      && Outcomes(m, Fail(base + fs), base, end, rs[1..])
  }

  function Flatten(fs: seq<seq<Point>>): (r: seq<Point>) {
    if fs == [] then [] else fs[0] + Flatten(fs[1..])
  }

  /** Whatever choice points lie on top of base, running on from x at mid has the outcomes f. */
  ghost predicate Continues(m: Code, mid: int, x: Point, base: seq<Frame>, end: int, f: seq<Point>) {
    forall fs :: AllSplits(fs) ==> Outcomes(m, At(mid, x, base + fs), base + fs, end, f)
  }

  lemma {:induction false} OutcomesAfter(m: Code, a: Config, b: Config, base: seq<Frame>, end: int, rs: seq<Point>)
    requires Reaches(m, a, b) && Outcomes(m, b, base, end, rs)
    ensures Outcomes(m, a, base, end, rs)
  {
    if rs == [] {
      ReachesTrans(m, a, b, Fail(base));
    } else {
      var fs :| AllSplits(fs) && Reaches(m, b, At(end, rs[0], base + fs))
                && Outcomes(m, Fail(base + fs), base, end, rs[1..]);
      ReachesTrans(m, a, b, At(end, rs[0], base + fs));
    }
  }

  lemma {:induction false} OutcomesStep(m: Code, a: Config, base: seq<Frame>, end: int, rs: seq<Point>)
    requires Outcomes(m, Step(m, a), base, end, rs)
    ensures Outcomes(m, a, base, end, rs)
  {
    ReachesStep(m, a);
    OutcomesAfter(m, a, Step(m, a), base, end, rs);
  }

  lemma {:induction false} OutcomesNone(m: Code, base: seq<Frame>, end: int)
    ensures Outcomes(m, Fail(base), base, end, [])
  {
    ReachesSelf(m, Fail(base));
  }

  lemma {:induction false} OutcomesOne(m: Code, base: seq<Frame>, end: int, x: Point)
    ensures Outcomes(m, At(end, x, base), base, end, [x])
  {
    ReachesSelf(m, At(end, x, base));
    OutcomesNone(m, base, end);
    var fs: seq<Frame> := [];
    assert base + fs == base;
    assert AllSplits(fs);
  }

  lemma {:induction false} OutcomesIntro(m: Code, cf: Config, base: seq<Frame>, fs: seq<Frame>, end: int, x: Point,
      rs: seq<Point>)
    requires AllSplits(fs) && Reaches(m, cf, At(end, x, base + fs)) && Outcomes(m, Fail(base + fs), base, end, rs)
    ensures Outcomes(m, cf, base, end, [x] + rs)
  {
    assert ([x] + rs)[1..] == rs;
  }

  lemma {:induction false} OutcomesElim(m: Code, cf: Config, base: seq<Frame>, end: int,
      rs: seq<Point>) returns (fs: seq<Frame>)
    requires rs != [] && Outcomes(m, cf, base, end, rs)
    ensures AllSplits(fs) && Reaches(m, cf, At(end, rs[0], base + fs)) && Outcomes(m, Fail(base + fs), base, end,
        rs[1..])
  {
    fs :| AllSplits(fs) && Reaches(m, cf, At(end, rs[0], base + fs)) && Outcomes(m, Fail(base + fs), base, end,
        rs[1..]);
  }

  lemma {:induction false} OutcomesAppend(m: Code, cf: Config, base: seq<Frame>, gs: seq<Frame>, end: int,
      xs: seq<Point>, ys: seq<Point>)
    requires AllSplits(gs)
    requires Outcomes(m, cf, base + gs, end, xs)
    requires Outcomes(m, Fail(base + gs), base, end, ys)
    ensures Outcomes(m, cf, base, end, xs + ys)
    decreases |xs|
  {
    if xs == [] {
      assert xs + ys == ys;
      OutcomesAfter(m, cf, Fail(base + gs), base, end, ys);
    } else {
      var fs := OutcomesElim(m, cf, base + gs, end, xs);
      Sequences.Assoc(base, gs, fs);
      OutcomesAppend(m, Fail(base + (gs + fs)), base, gs, end, xs[1..], ys);
      OutcomesIntro(m, cf, base, gs + fs, end, xs[0], xs[1..] + ys);
      Sequences.ConsAppend(xs, ys);
    }
  }

  /** A choice point: first the outcomes on the branch taken, then those on the other one. */
  lemma {:induction false} OutcomesSplit(m: Code, x: Point, base: seq<Frame>, p: int, q: int, end: int, xs: seq<Point>,
      ys: seq<Point>)
    requires Outcomes(m, At(p, x, base + [Frame(SplitFrame, q, x.pos, x.mem)]), base + [Frame(SplitFrame, q, x.pos,
        x.mem)], end, xs)
    requires Outcomes(m, At(q, x, base), base, end, ys)
    ensures Outcomes(m, At(p, x, base + [Frame(SplitFrame, q, x.pos, x.mem)]), base, end, xs + ys)
  {
    var f := Frame(SplitFrame, q, x.pos, x.mem);
    assert (base + [f])[..|base + [f]| - 1] == base;
    assert Step(m, Fail(base + [f])) == At(q, x, base);
    OutcomesStep(m, Fail(base + [f]), base, end, ys);
    OutcomesAppend(m, At(p, x, base + [f]), base, [f], end, xs, ys);
  }

  /** Sequencing: every outcome at mid is run on to end. */
  lemma {:induction false} OutcomesBind(m: Code, cf: Config, base: seq<Frame>, mid: int, rs: seq<Point>, end: int,
      fs: seq<seq<Point>>)
    requires Outcomes(m, cf, base, mid, rs)
    requires |fs| == |rs|
    requires forall i :: 0 <= i < |rs| ==> Continues(m, mid, rs[i], base, end, fs[i])
    ensures Outcomes(m, cf, base, end, Flatten(fs))
    decreases |rs|
  {
    if rs != [] {
      var gs := OutcomesElim(m, cf, base, mid, rs);
      forall i | 0 <= i < |rs[1..]| ensures Continues(m, mid, rs[1..][i], base, end, fs[1..][i]) {
        assert Continues(m, mid, rs[i + 1], base, end, fs[i + 1]);
      }
      OutcomesBind(m, Fail(base + gs), base, mid, rs[1..], end, fs[1..]);
      assert Continues(m, mid, rs[0], base, end, fs[0]);
      OutcomesAfter(m, cf, At(mid, rs[0], base + gs), base + gs, end, fs[0]);
      OutcomesAppend(m, cf, base, gs, end, fs[0], Flatten(fs[1..]));
    }
  }

  /** Started at pc with x, on any stack, the machine produces the outcomes rs at end. */
  ghost predicate Produces(m: Code, pc: int, x: Point, end: int, rs: seq<Point>) {
    forall base: seq<Frame> {:trigger Outcomes(m, At(pc, x, base), base, end, rs)} :: Outcomes(m, At(pc, x, base),
        base, end, rs)
  }

  /** One instruction takes the machine from x at pc to y at pc', whatever the stack. */
  ghost predicate Moves(m: Code, pc: int, x: Point, pc': int, y: Point) {
    forall base: seq<Frame> {:trigger Step(m, At(pc, x, base))} :: Step(m, At(pc, x, base)) == At(pc', y, base)
  }

  ghost predicate Fails(m: Code, pc: int, x: Point) {
    forall base: seq<Frame> {:trigger Step(m, At(pc, x, base))} :: Step(m, At(pc, x, base)) == Fail(base)
  }

  ghost predicate Branches(m: Code, pc: int, x: Point, y: Point, gotoFirst: bool, target: int, next: int) {
    forall base: seq<Frame> {:trigger Step(m, At(pc, x, base))} ::
      Step(m, At(pc, x, base)) == Branch(gotoFirst, target, next, y.pos, y.mem, base)
  }

  lemma {:induction false} ProducesHere(m: Code, end: int, x: Point)
    ensures Produces(m, end, x, end, [x])
  {
    forall base: seq<Frame> ensures Outcomes(m, At(end, x, base), base, end, [x]) {
      OutcomesOne(m, base, end, x);
    }
  }

  lemma {:induction false} ProducesFail(m: Code, pc: int, x: Point, end: int)
    requires Fails(m, pc, x)
    ensures Produces(m, pc, x, end, [])
  {
    forall base: seq<Frame> ensures Outcomes(m, At(pc, x, base), base, end, []) {
      OutcomesNone(m, base, end);
      assert Step(m, At(pc, x, base)) == Fail(base);
      OutcomesStep(m, At(pc, x, base), base, end, []);
    }
  }

  lemma {:induction false} ProducesMove(m: Code, pc: int, x: Point, pc': int, y: Point, end: int, rs: seq<Point>)
    requires Moves(m, pc, x, pc', y) && Produces(m, pc', y, end, rs)
    ensures Produces(m, pc, x, end, rs)
  {
    forall base: seq<Frame> ensures Outcomes(m, At(pc, x, base), base, end, rs) {
      assert Outcomes(m, At(pc', y, base), base, end, rs);
      assert Step(m, At(pc, x, base)) == At(pc', y, base);
      OutcomesStep(m, At(pc, x, base), base, end, rs);
    }
  }

  /** One instruction that either fails or ends in a single outcome. */
  lemma {:induction false} ProducesStep(m: Code, pc: int, x: Point, end: int, rs: seq<Point>)
    requires |rs| <= 1
    requires if rs == [] then Fails(m, pc, x) else Moves(m, pc, x, end, rs[0])
    ensures Produces(m, pc, x, end, rs)
  {
    if rs == [] {
      ProducesFail(m, pc, x, end);
    } else {
      ProducesHere(m, end, rs[0]);
      assert rs == [rs[0]];
      ProducesMove(m, pc, x, end, rs[0], end, rs);
    }
  }

  /** A choice: the outcomes on the branch taken first, then those on the other one. */
  lemma {:induction false} ProducesBranch(m: Code, pc: int, x: Point, y: Point, gotoFirst: bool, target: int,
      next: int, end: int,
                       far: seq<Point>, near: seq<Point>)
    requires Branches(m, pc, x, y, gotoFirst, target, next)
    requires Produces(m, target, y, end, far) && Produces(m, next, y, end, near)
    ensures Produces(m, pc, x, end, if gotoFirst then far + near else near + far)
  {
    var p, q := if gotoFirst then target else next, if gotoFirst then next else target;
    var rs := if gotoFirst then far + near else near + far;
    forall base: seq<Frame> ensures Outcomes(m, At(pc, x, base), base, end, rs) {
      var f := Frame(SplitFrame, q, y.pos, y.mem);
      assert Outcomes(m, At(p, y, base + [f]), base + [f], end, if gotoFirst then far else near);
      assert Outcomes(m, At(q, y, base), base, end, if gotoFirst then near else far);
      OutcomesSplit(m, y, base, p, q, end, if gotoFirst then far else near, if gotoFirst then near else far);
      assert Step(m, At(pc, x, base)) == At(p, y, base + [f]);
      OutcomesStep(m, At(pc, x, base), base, end, rs);
    }
  }

  lemma {:induction false} ProducesSplit(m: Code, pc: int, x: Point, gotoFirst: bool, target: int, end: int,
      far: seq<Point>, near: seq<Point>)
    requires pc in m.prog && m.prog[pc] == Split(gotoFirst, target - (pc + 5)) && x.pos <= |m.sub.text|
    requires Produces(m, target, x, end, far) && Produces(m, pc + 5, x, end, near)
    ensures Produces(m, pc, x, end, if gotoFirst then far + near else near + far)
  {
    ProducesBranch(m, pc, x, x, gotoFirst, target, pc + 5, end, far, near);
  }

  lemma {:induction false} ProducesSet(m: Code, pc: int, x: Point, reg: nat, v: nat, end: int, rs: seq<Point>)
    requires pc in m.prog && m.prog[pc] == SetI32(reg, v) && x.pos <= |m.sub.text| && 2 * m.ncap + reg < |x.mem|
    requires Produces(m, pc + 6, Point(x.pos, Put(x.mem, 2 * m.ncap + reg, v)), end, rs)
    ensures Produces(m, pc, x, end, rs)
  {
    ProducesMove(m, pc, x, pc + 6, Point(x.pos, Put(x.mem, 2 * m.ncap + reg, v)), end, rs);
  }

  lemma {:induction false} ProducesBind(m: Code, pc: int, x: Point, mid: int, rs: seq<Point>, end: int,
      fs: seq<seq<Point>>)
    requires Produces(m, pc, x, mid, rs)
    requires |fs| == |rs| && forall i :: 0 <= i < |rs| ==> Produces(m, mid, rs[i], end, fs[i])
    ensures Produces(m, pc, x, end, Flatten(fs))
  {
    forall base: seq<Frame> ensures Outcomes(m, At(pc, x, base), base, end, Flatten(fs)) {
      forall i | 0 <= i < |rs| ensures Continues(m, mid, rs[i], base, end, fs[i]) {
        assert Produces(m, mid, rs[i], end, fs[i]);
      }
      OutcomesBind(m, At(pc, x, base), base, mid, rs, end, fs);
    }
  }

  lemma {:induction false} FlattenSingletons(fs: seq<seq<Point>>, rs: seq<Point>)
    requires |fs| == |rs| && forall i :: 0 <= i < |rs| ==> fs[i] == [rs[i]]
    ensures Flatten(fs) == rs
    decreases |rs|
  {
    if rs != [] {
      FlattenSingletons(fs[1..], rs[1..]);
    }
  }

  /** One more instruction after the outcomes changes each of them. */
  lemma {:induction false} ProducesThen(m: Code, pc: int, x: Point, mid: int, rs: seq<Point>, end: int, ys: seq<Point>)
    requires Produces(m, pc, x, mid, rs)
    requires |ys| == |rs| && forall i :: 0 <= i < |rs| ==> Moves(m, mid, rs[i], end, ys[i])
    ensures Produces(m, pc, x, end, ys)
  {
    var fs := seq(|rs|, i requires 0 <= i < |ys| => [ys[i]]);
    forall i | 0 <= i < |rs| ensures Produces(m, mid, rs[i], end, fs[i]) {
      ProducesHere(m, end, ys[i]);
      ProducesMove(m, mid, rs[i], end, ys[i], end, [ys[i]]);
    }
    ProducesBind(m, pc, x, mid, rs, end, fs);
    FlattenSingletons(fs, ys);
  }

  /** A match instruction finds the frame of its lookaround under the choice points of the body. */
  lemma {:induction false} BelowSplits(base: seq<Frame>, f: Frame, fs: seq<Frame>)
    requires AllSplits(fs) && f.kind != SplitFrame
    ensures Below(base + [f] + fs, f.kind) == |base|
    decreases |fs|
  {
    if fs == [] {
      assert base + [f] + fs == base + [f];
    } else {
      var t := base + [f] + fs;
      assert t[..|t| - 1] == base + [f] + fs[..|fs| - 1];
      BelowSplits(base, f, fs[..|fs| - 1]);
    }
  }

  lemma {:induction false} LookEnds(m: Code, negated: bool, mid: int, end: int, x: Point, base: seq<Frame>, cf: Config,
      rs: seq<Point>)
    requires mid in m.prog && m.prog[mid] == LookMatch(negated)
    requires rs != [] ==> rs[0].pos <= |m.sub.text|
    requires var f := Frame(if negated then NegFrame else LookFrame, end, x.pos, x.mem);
             Outcomes(m, cf, base + [f], mid, rs)
    ensures Outcomes(m, cf, base, end, LookResult(negated, x, rs))
  {
    var f := Frame(if negated then NegFrame else LookFrame, end, x.pos, x.mem);
    var result := LookResult(negated, x, rs);
    if rs == [] {
      assert (base + [f])[..|base + [f]| - 1] == base;
      if negated {
        OutcomesOne(m, base, end, x);
      } else {
        OutcomesNone(m, base, end);
      }
      OutcomesStep(m, Fail(base + [f]), base, end, result);
      OutcomesAfter(m, cf, Fail(base + [f]), base, end, result);
    } else {
      var fs := OutcomesElim(m, cf, base + [f], mid, rs);
      var at := At(mid, rs[0], base + [f] + fs);
      BelowSplits(base, f, fs);
      assert (base + [f] + fs)[..|base|] == base;
      if negated {
        OutcomesNone(m, base, end);
      } else {
        OutcomesOne(m, base, end, result[0]);
      }
      OutcomesStep(m, at, base, end, result);
      OutcomesAfter(m, cf, at, base, end, result);
    }
  }

  function LookResult(negated: bool, x: Point, rs: seq<Point>): (r: seq<Point>) {
    if negated then (if rs == [] then [x] else [])
    else if rs == [] then [] else [Point(x.pos, rs[0].mem)]
  }

  /** A lookaround keeps the position, and of the outcomes of its body only the first memory. */
  lemma {:induction false} ProducesLook(m: Code, negated: bool, pc: int, mid: int, end: int, x: Point, rs: seq<Point>)
    requires pc in m.prog && m.prog[pc] == LookAround(negated, end - (pc + 5)) && x.pos <= |m.sub.text|
    requires mid in m.prog && m.prog[mid] == LookMatch(negated)
    requires rs != [] ==> rs[0].pos <= |m.sub.text|
    requires Produces(m, pc + 5, x, mid, rs)
    ensures Produces(m, pc, x, end, LookResult(negated, x, rs))
  {
    forall base: seq<Frame> ensures Outcomes(m, At(pc, x, base), base, end, LookResult(negated, x, rs)) {
      var f := Frame(if negated then NegFrame else LookFrame, end, x.pos, x.mem);
      var cf := At(pc + 5, x, base + [f]);
      assert Outcomes(m, cf, base + [f], mid, rs);
      LookEnds(m, negated, mid, end, x, base, cf, rs);
      assert Step(m, At(pc, x, base)) == cf;
      OutcomesStep(m, At(pc, x, base), base, end, LookResult(negated, x, rs));
    }
  }
}

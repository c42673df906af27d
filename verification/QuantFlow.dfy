/** How control flows through the code of a quantifier, whatever its atom computes. */
module QuantFlow {
  import opened RegexpSyntax
  import opened Bytecode
  import opened QuantCode
  import opened Machine
  import opened Yields

  lemma {:induction false} PlacedOne(prog: map<int, Instr>, at: int, i: Instr)
    requires Placed(prog, at, [i])
    ensures at in prog && prog[at] == i && CodeSize([i]) == Size(i)
  {
    assert CodeSize([i][1..]) == 0;
  }

  lemma {:induction false} PlacedCons(prog: map<int, Instr>, at: int, i: Instr, rest: seq<Instr>)
    requires Placed(prog, at, [i] + rest)
    ensures at in prog && prog[at] == i && Placed(prog, at + Size(i), rest)
    ensures CodeSize([i] + rest) == Size(i) + CodeSize(rest)
  {
    assert ([i] + rest)[1..] == rest;
  }

  lemma {:induction false} PlacedWhen(prog: map<int, Instr>, at: int, on: bool, i: Instr, rest: seq<Instr>)
    requires Placed(prog, at, When(on, i) + rest)
    ensures Placed(prog, at + (if on then Size(i) else 0), rest)
    ensures on ==> at in prog && prog[at] == i
    ensures CodeSize(When(on, i) + rest) == (if on then Size(i) else 0) + CodeSize(rest)
  {
    if on {
      PlacedCons(prog, at, i, rest);
    } else {
      assert When(on, i) + rest == rest;
    }
  }

  /** A reset instruction that is there only under the condition on. */
  lemma {:induction false} ProducesReset(m: Code, on: bool, c: nat, n: nat, at: int, x: Point, end: int, rs: seq<Point>)
    requires on ==> at in m.prog && m.prog[at] == ResetOf(c, n) && n > 0 && c + n <= m.ncap
    requires x.pos <= |m.sub.text| && |x.mem| >= 2 * m.ncap
    requires Produces(m, at + (if on then 3 else 0), Point(x.pos, Reset(on, c, n, x.mem)), end, rs)
    ensures Produces(m, at, x, end, rs)
  {
    if on {
      ProducesMove(m, at, x, at + 3, Point(x.pos, Reset(on, c, n, x.mem)), end, rs);
    }
  }

  /** A quantified atom that starts at a, with its set_char_pos when p.adv, and ends at x. */
  ghost predicate Marked(m: Code, p: Plan, top: int, reg: nat) {
    p.adv ==> top in m.prog && m.prog[top] == SetCharPos(reg)
  }

  lemma {:induction false} ProducesMarked(m: Code, p: Plan, top: int, reg: nat, x: Point, end: int, rs: seq<Point>)
    requires Marked(m, p, top, reg) && x.pos <= |m.sub.text| && (p.adv ==> 2 * m.ncap + reg < |x.mem|)
    requires Produces(m, top + MarkSize(p), Mark(p.adv, 2 * m.ncap + reg, x), end, rs)
    ensures Produces(m, top, x, end, rs)
  {
    if p.adv {
      ProducesMove(m, top, x, top + 2, Mark(p.adv, 2 * m.ncap + reg, x), end, rs);
    }
  }

  /** What is at which address in an optional or unbounded quantifier. */
  ghost predicate StarAt(m: Code, p: Plan, d: nat, greedy: bool, star: bool, len: nat, top: int, end: int) {
    var a := top + 5 + MarkSize(p);
    var x := a + len;
    && top in m.prog && m.prog[top] == Split(!greedy, end - (top + 5))
    && Marked(m, p, top + 5, d)
    && (p.adv ==> x in m.prog && m.prog[x] == CheckAdvance(d))
    && end == x + MarkSize(p) + (if star then 5 else 0)
    && (star ==> x + MarkSize(p) in m.prog && m.prog[x + MarkSize(p)] == Goto(top - end))
  }

  lemma {:induction false} SkipPlaced(m: Code, p: Plan, d: nat, greedy: bool, atom: seq<Instr>, top: int)
    requires Placed(m.prog, top, SkipCode(p, d, greedy, atom))
    ensures var end := top + CodeSize(SkipCode(p, d, greedy, atom));
            && StarAt(m, p, d, greedy, false, CodeSize(atom), top, end)
            && Placed(m.prog, top + 5 + MarkSize(p), atom)
  {
    hide Placed, CodeSize;
    var check := When(p.adv, CheckAdvance(Reg(d, 0)));
    var mark := SetCharPos(Reg(d, 0));
    PlacedCons(m.prog, top, SkipCode(p, d, greedy, atom)[0], When(p.adv, mark) + (atom + check));
    PlacedWhen(m.prog, top + 5, p.adv, mark, atom + check);
    PlacedConcat(m.prog, top + 5 + MarkSize(p), atom, check);
    if p.adv {
      PlacedOne(m.prog, top + 5 + MarkSize(p) + CodeSize(atom), check[0]);
    }
  }

  lemma {:induction false} StarPlaced(m: Code, p: Plan, d: nat, greedy: bool, atom: seq<Instr>, top: int)
    requires Placed(m.prog, top, StarCode(p, d, greedy, atom))
    ensures var end := top + CodeSize(StarCode(p, d, greedy, atom));
            && StarAt(m, p, d, greedy, true, CodeSize(atom), top, end)
            && Placed(m.prog, top + 5 + MarkSize(p), atom)
  {
    hide Placed, CodeSize, When;
    var mark := SetCharPos(Reg(d, 0));
    var code := StarCode(p, d, greedy, atom);
    var tail := When(p.adv, CheckAdvance(Reg(d, 0))) + [code[|code| - 1]];
    PlacedCons(m.prog, top, code[0], When(p.adv, mark) + (atom + tail));
    PlacedWhen(m.prog, top + 5, p.adv, mark, atom + tail);
    PlacedConcat(m.prog, top + 5 + MarkSize(p), atom, tail);
    StarTailPlaced(m, p, d, top + 5 + MarkSize(p) + CodeSize(atom), code[|code| - 1]);
  }

  lemma {:induction false} StarTailPlaced(m: Code, p: Plan, d: nat, x: int, jump: Instr)
    requires Placed(m.prog, x, When(p.adv, CheckAdvance(Reg(d, 0))) + [jump])
    ensures p.adv ==> x in m.prog && m.prog[x] == CheckAdvance(d)
    ensures x + MarkSize(p) in m.prog && m.prog[x + MarkSize(p)] == jump
    ensures CodeSize(When(p.adv, CheckAdvance(Reg(d, 0))) + [jump]) == MarkSize(p) + Size(jump)
  {
    PlacedWhen(m.prog, x, p.adv, CheckAdvance(Reg(d, 0)), [jump]);
    PlacedOne(m.prog, x + MarkSize(p), jump);
  }

  /** The register still holds the position the iteration started from. */
  ghost predicate Remembers(m: Code, p: Plan, d: nat, from: nat, r: Point) {
    r.pos <= |m.sub.text| && (p.adv ==> 2 * m.ncap + d < |r.mem| && r.mem[2 * m.ncap + d] == from)
  }

  /** After the atom of an unbounded quantifier: an empty iteration fails, any other goes on at top. */
  lemma {:induction false} StarTail(m: Code, p: Plan, d: nat, greedy: bool, star: bool, len: nat, top: int, end: int,
      from: nat, r: Point, f: seq<Point>)
    requires StarAt(m, p, d, greedy, star, len, top, end) && Remembers(m, p, d, from, r)
    requires if p.adv && r.pos == from then f == [] else if star then Produces(m, top, r, end, f) else f == [r]
    ensures Produces(m, top + 5 + MarkSize(p) + len, r, end, f)
  {
    var x := top + 5 + MarkSize(p) + len;
    if p.adv && r.pos == from {
      ProducesFail(m, x, r, end);
    } else {
      if star {
        ProducesMove(m, x + MarkSize(p), r, top, r, end, f);
      } else {
        ProducesHere(m, end, r);
      }
      if p.adv {
        ProducesMove(m, x, r, x + 2, r, end, f);
      }
    }
  }

  lemma {:induction false} StarFlow(m: Code, p: Plan, d: nat, greedy: bool, star: bool, len: nat, top: int, end: int,
      x: Point,
                 some: seq<Point>, fs: seq<seq<Point>>)
    requires StarAt(m, p, d, greedy, star, len, top, end)
    requires x.pos <= |m.sub.text| && (p.adv ==> 2 * m.ncap + d < |x.mem|)
    requires Produces(m, top + 5 + MarkSize(p), Mark(p.adv, 2 * m.ncap + d, x), top + 5 + MarkSize(p) + len, some)
    requires |fs| == |some|
    requires forall i :: 0 <= i < |some| ==> Produces(m, top + 5 + MarkSize(p) + len, some[i], end, fs[i])
    ensures Produces(m, top, x, end, if greedy then Flatten(fs) + [x] else [x] + Flatten(fs))
  {
    var a := top + 5 + MarkSize(p);
    ProducesBind(m, a, Mark(p.adv, 2 * m.ncap + d, x), a + len, some, end, fs);
    ProducesMarked(m, p, top + 5, d, x, end, Flatten(fs));
    ProducesHere(m, end, x);
    ProducesSplit(m, top, x, !greedy, end, end, [x], Flatten(fs));
  }

  /** What is at which address in a counted loop whose body starts at top. */
  ghost predicate LoopAt(m: Code, p: Plan, d: nat, greedy: bool, exact: bool, limit: nat, len: nat, top: int,
      end: int) {
    var x := top + MarkSize(p) + len;
    && Marked(m, p, top, d + 1)
    && x in m.prog
    && end == x + (if exact then 6 else 10)
    && m.prog[x] == (if exact then Loop(d, top - end) else LoopSplit(p.adv, greedy, d, limit, top - end))
    && (exact ==> limit == 0 && !p.adv)
  }

  lemma {:induction false} LoopPlaced(m: Code, p: Plan, d: nat, greedy: bool, exact: bool, max: nat, limit: nat,
      atom: seq<Instr>, at: int)
    requires Placed(m.prog, at, LoopCode(p, d, max, atom, CloseOf(p, d, greedy, exact, limit, atom)))
    requires exact ==> limit == 0 && !p.adv
    ensures var code := LoopCode(p, d, max, atom, CloseOf(p, d, greedy, exact, limit, atom));
            && at in m.prog && m.prog[at] == SetI32(d, max)
            && LoopAt(m, p, d, greedy, exact, limit, CodeSize(atom), at + 6, at + CodeSize(code))
            && Placed(m.prog, at + 6 + MarkSize(p), atom)
            && CodeSize(code) == 6 + MarkSize(p) + CodeSize(atom) + (if exact then 6 else 10)
  {
    hide Placed, CodeSize;
    var mark := SetCharPos(Reg(d, 1));
    var close := CloseOf(p, d, greedy, exact, limit, atom);
    PlacedCons(m.prog, at, SetI32(Reg(d, 0), max), When(p.adv, mark) + (atom + [close]));
    PlacedWhen(m.prog, at + 6, p.adv, mark, atom + [close]);
    PlacedConcat(m.prog, at + 6 + MarkSize(p), atom, [close]);
    PlacedOne(m.prog, at + 6 + MarkSize(p) + CodeSize(atom), close);
  }

  /** The registers still hold the iterations left and the position the iteration started from. */
  ghost predicate Counts(m: Code, p: Plan, d: nat, v: nat, from: nat, r: Point) {
    var k := 2 * m.ncap + d;
    && r.pos <= |m.sub.text| && k < |r.mem| && r.mem[k] == v + 1 && v < INT32_MAX
    && (p.adv ==> k + 1 < |r.mem| && r.mem[k + 1] == from)
  }

  /** One execution of the instruction that closes a counted loop. */
  lemma {:induction false} LoopStep(m: Code, p: Plan, d: nat, greedy: bool, exact: bool, limit: nat, len: nat,
      top: int, end: int,
                 v: nat, from: nat, r: Point, base: seq<Frame>)
    requires LoopAt(m, p, d, greedy, exact, limit, len, top, end) && Counts(m, p, d, v, from, r)
    ensures var y := Point(r.pos, Put(r.mem, 2 * m.ncap + d, v));
            Step(m, At(top + MarkSize(p) + len, r, base)) ==
            if v > limit then At(top, y, base)
            else if p.adv && r.pos == from && v != limit then Fail(base)
            else if v == 0 then At(end, y, base)
            else Branch(greedy, top, end, y.pos, y.mem, base)
  {
    var x := top + MarkSize(p) + len;
    assert Decrement(r.mem[2 * m.ncap + d]) == v;
    assert Step(m, At(x, r, base)) == Exec(m, m.prog[x], end, r.pos, r.mem, base);
  }

  /** The closing instruction of a counted loop. */
  lemma {:induction false} LoopTail(m: Code, p: Plan, d: nat, greedy: bool, exact: bool, limit: nat, len: nat,
      top: int, end: int,
                 v: nat, from: nat, r: Point, more: seq<Point>)
    requires LoopAt(m, p, d, greedy, exact, limit, len, top, end) && Counts(m, p, d, v, from, r)
    requires v > 0 ==> Produces(m, top, Point(r.pos, Put(r.mem, 2 * m.ncap + d, v)), end, more)
    ensures var y := Point(r.pos, Put(r.mem, 2 * m.ncap + d, v));
            Produces(m, top + MarkSize(p) + len, r, end,
                     if v > limit then more
                     else if p.adv && r.pos == from && v != limit then []
                     else if v == 0 then [y]
                     else if greedy then more + [y] else [y] + more)
  {
    var y := Point(r.pos, Put(r.mem, 2 * m.ncap + d, v));
    var x := top + MarkSize(p) + len;
    forall base: seq<Frame> ensures Step(m, At(x, r, base)) ==
                                    if v > limit then At(top, y, base)
                                    else if p.adv && r.pos == from && v != limit then Fail(base)
                                    else if v == 0 then At(end, y, base)
                                    else Branch(greedy, top, end, y.pos, y.mem, base) {
      LoopStep(m, p, d, greedy, exact, limit, len, top, end, v, from, r, base);
    }
    if v > limit {
      ProducesMove(m, x, r, top, y, end, more);
    } else if p.adv && r.pos == from && v != limit {
      ProducesFail(m, x, r, end);
    } else {
      ProducesHere(m, end, y);
      if v == 0 {
        ProducesMove(m, x, r, end, y, end, [y]);
      } else {
        ProducesBranch(m, x, r, y, greedy, top, end, end, more, [y]);
      }
    }
  }

  lemma {:induction false} LoopFlow(m: Code, p: Plan, reg: nat, len: nat, top: int, end: int, x: Point,
      some: seq<Point>, fs: seq<seq<Point>>)
    requires Marked(m, p, top, reg)
    requires x.pos <= |m.sub.text| && (p.adv ==> 2 * m.ncap + reg < |x.mem|)
    requires Produces(m, top + MarkSize(p), Mark(p.adv, 2 * m.ncap + reg, x), top + MarkSize(p) + len, some)
    requires |fs| == |some|
    requires forall i :: 0 <= i < |some| ==> Produces(m, top + MarkSize(p) + len, some[i], end, fs[i])
    ensures Produces(m, top, x, end, Flatten(fs))
  {
    var a := top + MarkSize(p);
    ProducesBind(m, a, Mark(p.adv, 2 * m.ncap + reg, x), a + len, some, end, fs);
    ProducesMarked(m, p, top, reg, x, end, Flatten(fs));
  }
}

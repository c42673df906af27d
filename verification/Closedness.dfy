/** Every jump of a block of code lands on an instruction of the block or at its end, so that a block can be moved,
    reversed with its neighbours or wrapped by a quantifier as a whole. */
module Closedness {
  import opened RegexpSyntax
  import opened Bytecode
  import opened QuantCode
  import opened CodeGen

  predicate Jumps(i: Instr) {
    i.Goto? || i.Split? || i.Loop? || i.LoopSplit? || i.LookAround?
  }

  /** An instruction starts at the address, or the code ends there. */
  ghost predicate Boundary(code: seq<Instr>, address: int) {
    exists j :: 0 <= j <= |code| && CodeSize(code[..j]) == address
  }

  /** The jumps of a land on boundaries of the code pre + a + post. */
  ghost predicate ClosedIn(pre: seq<Instr>, a: seq<Instr>, post: seq<Instr>) {
    forall k :: 0 <= k < |a| && Jumps(a[k]) ==>
      Boundary(pre + a + post, CodeSize(pre) + CodeSize(a[..k + 1]) + a[k].off)
  }

  ghost predicate Closed(code: seq<Instr>) {
    ClosedIn([], code, [])
  }

  lemma {:induction false} BoundaryAt(pre: seq<Instr>, post: seq<Instr>)
    ensures Boundary(pre + post, CodeSize(pre))
  {
    assert (pre + post)[..|pre|] == pre;
  }

  lemma {:induction false} BoundaryInside(pre: seq<Instr>, a: seq<Instr>, post: seq<Instr>, address: int)
    requires Boundary(a, address)
    ensures Boundary(pre + a + post, CodeSize(pre) + address)
  {
    var j :| 0 <= j <= |a| && CodeSize(a[..j]) == address;
    CodeSizeConcat(pre, a[..j]);
    assert pre + a + post == (pre + a[..j]) + (a[j..] + post);
    BoundaryAt(pre + a[..j], a[j..] + post);
  }

  /** A closed block may be put anywhere. */
  lemma {:induction false} ClosedAnywhere(pre: seq<Instr>, a: seq<Instr>, post: seq<Instr>)
    requires Closed(a)
    ensures ClosedIn(pre, a, post)
  {
    hide CodeSize, Boundary;
    assert [] + a + [] == a;
    EmptySize();
    forall k | 0 <= k < |a| && Jumps(a[k])
      ensures Boundary(pre + a + post, CodeSize(pre) + CodeSize(a[..k + 1]) + a[k].off)
    {
      BoundaryInside(pre, a, post, CodeSize(a[..k + 1]) + a[k].off);
    }
  }

  lemma {:induction false} EmptySize()
    ensures CodeSize([]) == 0
  {
  }

  /** Two blocks, each closed in their common surroundings. */
  lemma {:induction false} ClosedTogether(pre: seq<Instr>, a: seq<Instr>, b: seq<Instr>, post: seq<Instr>)
    requires ClosedIn(pre, a, b + post) && ClosedIn(pre + a, b, post)
    ensures ClosedIn(pre, a + b, post)
  {
    hide CodeSize, Boundary;
    var all := pre + (a + b) + post;
    assert pre + a + (b + post) == all && pre + a + b + post == all;
    CodeSizeConcat(pre, a);
    forall k | 0 <= k < |a + b| && Jumps((a + b)[k])
      ensures Boundary(all, CodeSize(pre) + CodeSize((a + b)[..k + 1]) + (a + b)[k].off)
    {
      if k < |a| {
        assert (a + b)[..k + 1] == a[..k + 1];
      } else {
        assert (a + b)[..k + 1] == a + b[..k - |a| + 1];
        CodeSizeConcat(a, b[..k - |a| + 1]);
      }
    }
  }

  lemma {:induction false} ClosedConcat(a: seq<Instr>, b: seq<Instr>)
    requires Closed(a) && Closed(b)
    ensures Closed(a + b)
  {
    hide ClosedIn;
    ClosedAnywhere([], a, b + []);
    assert [] + a == a;
    ClosedAnywhere(a, b, []);
    ClosedTogether([], a, b, []);
  }

  /** Code without jumps. */
  lemma {:induction false} ClosedPlain(code: seq<Instr>)
    requires forall k :: 0 <= k < |code| ==> !Jumps(code[k])
    ensures Closed(code)
  {
  }

  /** A jump that lands after the first blocks of the code. */
  lemma {:induction false} ClosedJump(pre: seq<Instr>, i: Instr, post: seq<Instr>, front: seq<Instr>, back: seq<Instr>)
    requires Jumps(i) && pre + [i] + post == front + back && CodeSize(pre) + Size(i) + i.off == CodeSize(front)
    ensures ClosedIn(pre, [i], post)
  {
    BoundaryAt(front, back);
    assert [i][..1] == [i];
    CodeSizeOne(i);
  }

  /** A closed block between two instructions that jump over it or back to it. */
  lemma {:induction false} ClosedFront(i: Instr, rest: seq<Instr>)
    requires Jumps(i) && Closed(rest) && i.off == CodeSize(rest)
    ensures Closed([i] + rest)
  {
    hide ClosedIn, CodeSize;
    CodeSizeConcat([i], rest);
    CodeSizeOne(i);
    EmptySize();
    assert [] + [i] + (rest + []) == ([i] + rest) + [];
    ClosedJump([], i, rest + [], [i] + rest, []);
    assert [] + [i] == [i];
    ClosedAnywhere([i], rest, []);
    ClosedTogether([], [i], rest, []);
  }

  lemma {:induction false} ClosedBack(front: seq<Instr>, rest: seq<Instr>, i: Instr)
    requires Jumps(i) && Closed(front + rest) && i.off == -(CodeSize(rest) + Size(i))
    ensures Closed((front + rest) + [i])
  {
    hide ClosedIn, CodeSize;
    var a := front + rest;
    CodeSizeConcat(front, rest);
    EmptySize();
    ClosedAnywhere([], a, [i] + []);
    assert [] + a == a;
    assert a + [i] + [] == front + (rest + [i]);
    ClosedJump(a, i, [], front, rest + [i]);
    ClosedTogether([], a, [i], []);
  }

  /** A loop: a jump over a closed block, and a jump back from its end. */
  lemma {:induction false} ClosedCycle(i: Instr, a: seq<Instr>, j: Instr)
    requires Jumps(i) && Jumps(j) && Closed(a)
    requires i.off == CodeSize(a) + Size(j) && j.off == -(Size(i) + CodeSize(a) + Size(j))
    ensures Closed([i] + (a + [j]))
  {
    hide ClosedIn, CodeSize;
    var all := [i] + (a + [j]);
    CodeSizeConcat([i], a + [j]);
    CodeSizeConcat(a, [j]);
    CodeSizeConcat([i], a);
    CodeSizeOne(i);
    CodeSizeOne(j);
    EmptySize();
    assert [] + [i] + (a + [j] + []) == all + [];
    ClosedJump([], i, a + [j] + [], all, []);
    ClosedAnywhere([i], a, [j] + []);
    assert [i] + a + [j] + [] == [] + all;
    ClosedJump([i] + a, j, [], [], all);
    ClosedTogether([i], a, [j], []);
    assert [] + [i] == [i];
    ClosedTogether([], [i], a + [j], []);
  }

  /** An alternative: the split jumps behind the goto, which jumps to the end. */
  lemma {:induction false} ClosedAlternatives(a: seq<Instr>, b: seq<Instr>)
    requires Closed(a) && Closed(b)
    ensures Closed([Split(false, CodeSize(a) + 5)] + a + [Goto(CodeSize(b))] + b)
  {
    hide ClosedIn, CodeSize;
    var i, j := Split(false, CodeSize(a) + 5), Goto(CodeSize(b));
    ClosedFront(j, b);
    CodeSizeConcat([i], a);
    CodeSizeConcat([i] + a, [j]);
    CodeSizeOne(i);
    CodeSizeOne(j);
    EmptySize();
    var rest := [j] + b;
    assert [] + [i] + (a + rest + []) == ([i] + a + [j]) + b;
    ClosedJump([], i, a + rest + [], [i] + a + [j], b);
    ClosedAnywhere([i], a, rest + []);
    ClosedAnywhere([i] + a, rest, []);
    ClosedTogether([i], a, rest, []);
    assert [] + [i] == [i];
    ClosedTogether([], [i], a + rest, []);
    assert [i] + (a + rest) == [i] + a + [j] + b;
  }

  lemma {:induction false} ClosedWhen(b: bool, i: Instr)
    requires !Jumps(i)
    ensures Closed(When(b, i))
  {
    ClosedPlain(When(b, i));
  }

  /** set_char_pos, the atom and check_advance. */
  lemma {:induction false} ClosedMarked(p: Plan, d: int, atom: seq<Instr>)
    requires Closed(atom)
    ensures var body := When(p.adv, SetCharPos(Reg(d, 0))) + (atom + When(p.adv, CheckAdvance(Reg(d, 0))));
      Closed(body) && CodeSize(body) == CodeSize(atom) + 2 * MarkSize(p)
  {
    hide Closed, CodeSize;
    var mark, check := When(p.adv, SetCharPos(Reg(d, 0))), When(p.adv, CheckAdvance(Reg(d, 0)));
    ClosedWhen(p.adv, SetCharPos(Reg(d, 0)));
    ClosedWhen(p.adv, CheckAdvance(Reg(d, 0)));
    ClosedConcat(atom, check);
    ClosedConcat(mark, atom + check);
    CodeSizeConcat(atom, check);
    CodeSizeConcat(mark, atom + check);
  }

  lemma {:induction false} ClosedStar(p: Plan, d: int, greedy: bool, atom: seq<Instr>)
    requires Closed(atom)
    ensures Closed(StarCode(p, d, greedy, atom))
  {
    hide Closed, CodeSize;
    var mark, check := When(p.adv, SetCharPos(Reg(d, 0))), When(p.adv, CheckAdvance(Reg(d, 0)));
    var a := MarkSize(p);
    var back := Goto(-(5 + a + CodeSize(atom) + a + 5));
    ClosedMarked(p, d, atom);
    ClosedCycle(Split(!greedy, CodeSize(atom) + 5 + 2 * a), mark + (atom + check), back);
    assert mark + (atom + (check + [back])) == (mark + (atom + check)) + [back];
  }

  lemma {:induction false} ClosedLoop(p: Plan, d: int, max: nat, atom: seq<Instr>, close: Instr)
    requires Closed(atom) && Jumps(close) && close.off == -(MarkSize(p) + CodeSize(atom) + Size(close))
    ensures Closed(LoopCode(p, d, max, atom, close))
  {
    hide Closed, CodeSize;
    var mark, init := When(p.adv, SetCharPos(Reg(d, 1))), [SetI32(Reg(d, 0), max)];
    ClosedWhen(p.adv, SetCharPos(Reg(d, 1)));
    ClosedPlain(init);
    ClosedConcat(mark, atom);
    ClosedConcat(init, mark + atom);
    CodeSizeConcat(mark, atom);
    ClosedBack(init, mark + atom, close);
    assert init + (mark + (atom + [close])) == (init + (mark + atom)) + [close];
  }

  /** Whatever the quantifier, the code around a closed atom is closed. */
  lemma {:induction false} ClosedQuant(p: Plan, d: int, greedy: bool, min: nat, max: nat, pre: seq<Instr>,
      atom: seq<Instr>)
    requires min <= max && Closed(pre) && Closed(atom)
    ensures Closed(QuantForm(p, d, greedy, min, max, pre, atom))
  {
    hide Closed, CodeSize, StarCode, LoopCode;
    if min == 0 {
      if max == 0 {
      } else if max == 1 {
        ClosedMarked(p, d, atom);
        ClosedFront(Split(!greedy, CodeSize(atom) + 2 * MarkSize(p)),
          When(p.adv, SetCharPos(Reg(d, 0))) + (atom + When(p.adv, CheckAdvance(Reg(d, 0)))));
        ClosedConcat(pre, SkipCode(p, d, greedy, atom));
      } else if max == INT32_MAX {
        ClosedStar(p, d, greedy, atom);
        ClosedConcat(pre, StarCode(p, d, greedy, atom));
      } else {
        var close := CloseOf(p, d, greedy, false, max, atom);
        var loop := LoopCode(p, d, max, atom, close);
        ClosedLoop(p, d, max, atom, close);
        ClosedFront(Split(!greedy, CodeSize(loop)), loop);
        ClosedConcat(pre, [Split(!greedy, CodeSize(loop))] + loop);
      }
    } else if min == 1 && max == INT32_MAX && !p.adv {
      assert [] + atom == atom;
      ClosedBack([], atom, Split(greedy, -(CodeSize(atom) + 5)));
    } else {
      ClosedLoop(p, d, max, atom, CloseOf(p, d, greedy, min == max, max - min, atom));
    }
  }

  lemma {:induction false} ClosedLook(negated: bool, body: seq<Instr>)
    requires Closed(body)
    ensures Closed([LookAround(negated, CodeSize(body) + 1)] + body + [LookMatch(negated)])
  {
    hide Closed, CodeSize;
    var look, end := LookAround(negated, CodeSize(body) + 1), LookMatch(negated);
    ClosedPlain([end]);
    ClosedConcat(body, [end]);
    CodeSizeConcat(body, [end]);
    CodeSizeOne(end);
    ClosedFront(look, body + [end]);
    assert [look] + body + [end] == [look] + (body + [end]);
  }

  lemma {:induction false} ClosedGroup(first: Instr, body: seq<Instr>, last: Instr)
    requires Closed(body) && !Jumps(first) && !Jumps(last)
    ensures Closed([first] + body + [last])
  {
    hide Closed;
    ClosedPlain([first]);
    ClosedPlain([last]);
    ClosedConcat([first], body);
    ClosedConcat([first] + body, [last]);
  }

  /** Every block the parser produces is closed. */
  lemma {:induction false} GenClosed(alpha: Alphabet, n: Node, c: nat, back: bool, d: int)
    requires WellFormed(n, CAPTURE_COUNT_MAX)
    ensures Closed(Gen(alpha, n, c, back, d))
    decreases n, 0
  {
    hide Closed, CodeSize, GenQuant, GenTest, Count;
    match n
    case Cat(l, r) =>
      GenClosed(alpha, l, c, back, d);
      GenClosed(alpha, r, c + Count(l), back, d);
      if back {
        ClosedConcat(Gen(alpha, r, c + Count(l), back, d), Gen(alpha, l, c, back, d));
      } else {
        ClosedConcat(Gen(alpha, l, c, back, d), Gen(alpha, r, c + Count(l), back, d));
      }
    case Alt(l, r) =>
      GenClosed(alpha, l, c, back, d);
      GenClosed(alpha, r, c + Count(l), back, d);
      ClosedAlternatives(Gen(alpha, l, c, back, d), Gen(alpha, r, c + Count(l), back, d));
    case Group(b) =>
      GenClosed(alpha, b, c + 1, back, d);
      if back {
        ClosedGroup(SaveEnd(c), Gen(alpha, b, c + 1, back, d), SaveStart(c));
      } else {
        ClosedGroup(SaveStart(c), Gen(alpha, b, c + 1, back, d), SaveEnd(c));
      }
    case Quant(b, min, max, greedy) =>
      QuantClosed(alpha, b, c, back, d, min, max, greedy);
    case Look(negated, behind, b) =>
      GenClosed(alpha, b, c, behind, d);
      ClosedLook(negated, Gen(alpha, b, c, behind, d));
    case _ =>
      ClosedPlain(Gen(alpha, n, c, back, d));
  }

  lemma {:induction false} QuantClosed(alpha: Alphabet, b: Node, c: nat, back: bool, d: int, min: nat, max: nat,
      greedy: bool)
    requires WellFormed(b, CAPTURE_COUNT_MAX) && min <= max
    ensures Closed(GenQuant(alpha, b, c, back, d, min, max, greedy))
    decreases b, 2
  {
    hide Closed, QuantForm, PlanOf, GenAtom, WellFormed, Count;
    var p := PlanOf(alpha, b, c, back, min, max);
    AtomClosed(alpha, b, c, back, Up(d, Held(p, min, max)), p);
    ClosedWhen(p.once, ResetOf(c, Count(b)));
    ClosedQuant(p, d, greedy, min, max, When(p.once, ResetOf(c, Count(b))), GenAtom(alpha, b, c, back, Up(d, Held(p,
        min, max)), p));
  }

  lemma {:induction false} AtomClosed(alpha: Alphabet, b: Node, c: nat, back: bool, d: int, p: Plan)
    requires WellFormed(b, CAPTURE_COUNT_MAX)
    ensures Closed(GenAtom(alpha, b, c, back, d, p))
    decreases b, 1
  {
    hide Closed, Gen;
    GenClosed(alpha, b, c, back, d);
    ClosedWhen(p.init, ResetOf(c, Count(b)));
    ClosedConcat(When(p.init, ResetOf(c, Count(b))), Gen(alpha, b, c, back, d));
  }

  /** The whole program is closed: no jump leaves it or lands within an instruction. */
  lemma {:induction false} ProgramClosed(alpha: Alphabet, n: Node, sticky: bool, d: int)
    requires WellFormed(n, CAPTURE_COUNT_MAX)
    ensures Closed(GenProgram(alpha, n, sticky, d))
  {
    hide Closed, Gen, CodeSize;
    var body := Gen(alpha, n, 1, false, d);
    GenClosed(alpha, n, 1, false, d);
    ClosedPlain([SaveStart(0)]);
    ClosedPlain([SaveEnd(0), MatchEnd]);
    ClosedConcat([SaveStart(0)], body);
    ClosedConcat([SaveStart(0)] + body, [SaveEnd(0), MatchEnd]);
    var search := if sticky then [] else [Split(true, 1 + 5), Single(OpAny), Goto(-(5 + 1 + 5))];
    if sticky {
      ClosedPlain(search);
    } else {
      ClosedPlain([Single(OpAny)]);
      CodeSizeOne(Single(OpAny));
      ClosedCycle(Split(true, 1 + 5), [Single(OpAny)], Goto(-(5 + 1 + 5)));
      assert search == [Split(true, 1 + 5)] + ([Single(OpAny)] + [Goto(-(5 + 1 + 5))]);
    }
    ClosedConcat(search, [SaveStart(0)] + body + [SaveEnd(0), MatchEnd]);
  }
}

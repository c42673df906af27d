/** The denotation of the generated code agrees with the backtracking semantics: the same outcomes in
    the same order, with the same positions and the same captures. The engine's captures may be half
    set while a group is open, and stale inside an atom whose captures are not reset; neither shows. */
module Faithful {
  import opened RegexpSyntax
  import opened QuantCode
  import opened CodeGen
  import opened Machine
  import opened Denotation
  import opened DenotationFrame
  import opened Advance
  import opened TestCode
  import opened RegexpSemantics
  import opened SemanticsFrame
  import opened Captures
  import opened Stale

  /** A point of the engine and a match state that describe the same situation. */
  ghost predicate Twins(env: Env, x: Point, s: State) {
    && x.pos == s.pos <= |env.sub.text| && |s.caps| == env.ncap && |x.mem| >= 2 * env.ncap
    && forall g :: 0 <= g < env.ncap ==> Agrees(env, x.mem, s.caps, g)
  }

  ghost predicate AllTwins(env: Env, c: nat, n: nat, rs: seq<Point>, ss: seq<State>) {
    |rs| == |ss|
    && forall i :: 0 <= i < |rs| ==> Twins(env, rs[i], ss[i]) && AllSettled(env, rs[i].mem, ss[i].caps, c, n)
  }

  lemma {:induction false} AppendTwins(env: Env, c: nat, n: nat, r1: seq<Point>, s1: seq<State>, r2: seq<Point>,
      s2: seq<State>)
    requires AllTwins(env, c, n, r1, s1) && AllTwins(env, c, n, r2, s2)
    ensures AllTwins(env, c, n, r1 + r2, s1 + s2)
  {
    hide Twins, AllSettled;
  }

  /** The groups of n have not been touched yet. */
  ghost predicate Untouched(env: Env, n: Node, c: nat, x: Point, s: State) {
    Twins(env, x, s) && AllUndefined(s.caps, c, Count(n)) && AllSettled(env, x.mem, s.caps, c, Count(n))
  }

  /** Node n, numbered from c, belongs to a pattern with env.ncap groups matched against env.sub. */
  ghost predicate Fit(env: Env, n: Node, c: nat) {
    && WellFormed(n, CAPTURE_COUNT_MAX) && WellFormed(n, env.ncap) && c + Count(n) <= env.ncap
    && CountersFit(n, |env.sub.text|)
  }

  /** Groups outside n that were settled before a match of n are settled after it. */
  lemma {:induction false} Lift(env: Env, n: Node, c1: nat, back: bool, d: nat, x: Point, s: State, c: nat, k: nat)
    requires Fit(env, n, c1) && Twins(env, x, s) && AllSettled(env, x.mem, s.caps, c, k) && c + k <= env.ncap
    requires AllTwins(env, c1, Count(n), Out(env, n, c1, back, d, x), Match(env.sub, n, c1, back, s))
    ensures AllTwins(env, c, k, Out(env, n, c1, back, d, x), Match(env.sub, n, c1, back, s))
  {
    hide Out, Match, Count, WellFormed, CountersFit;
    var rs, ss := Out(env, n, c1, back, d, x), Match(env.sub, n, c1, back, s);
    forall i | 0 <= i < |rs| ensures AllSettled(env, rs[i].mem, ss[i].caps, c, k) {
      OutFramed(env, n, c1, back, d, x, rs[i]);
      MatchFramed(env.sub, n, c1, back, s, ss[i]);
      LiftOne(env, c1, Count(n), d, back, x, s, rs[i], ss[i], c, k);
    }
  }

  lemma {:induction false} LiftOne(env: Env, c1: nat, n: nat, d: nat, back: bool, x: Point, s: State, y: Point,
      t: State, c: nat, k: nat)
    requires Twins(env, x, s) && AllSettled(env, x.mem, s.caps, c, k) && c + k <= env.ncap
    requires Framed(env, c1, n, d, back, x, y) && CapsFramed(c1, n, s, t) && AllSettled(env, y.mem, t.caps, c1, n)
    ensures AllSettled(env, y.mem, t.caps, c, k)
  {
    forall g | c <= g < c + k ensures Settled(env, y.mem, t.caps, g) {
      assert Settled(env, x.mem, s.caps, g);
      if c1 <= g < c1 + n {
        assert Settled(env, y.mem, t.caps, g);
      } else {
        assert y.mem[2 * g] == x.mem[2 * g] && y.mem[2 * g + 1] == x.mem[2 * g + 1];
      }
    }
  }

  /** The main theorem about the denotation. */
  lemma {:induction false} NodeFaithful(env: Env, n: Node, c: nat, back: bool, d: nat, x: Point, s: State)
    requires Fit(env, n, c) && Untouched(env, n, c, x, s)
    ensures AllTwins(env, c, Count(n), Out(env, n, c, back, d, x), Match(env.sub, n, c, back, s))
    decreases n, 1, 0, 0, 0
  {
    hide Twins, AllTwins, AllSettled, AllUndefined;
    match n
    case Cat(l, r) => CatFaithful(env, n, c, back, d, x, s);
    case Alt(l, r) => AltFaithful(env, n, c, back, d, x, s);
    case Group(b) => GroupFaithful(env, n, c, back, d, x, s);
    case Quant(b, min, max, greedy) => QuantFaithful(env, n, c, back, d, x, s);
    case Look(negated, behind, b) => LookFaithful(env, n, c, back, d, x, s);
    case BackRef(gs, icase) => BackRefFaithful(env, n, c, back, d, x, s);
    case _ => LeafFaithful(env, n, c, back, d, x, s);
  }

  lemma {:induction false} LeafFaithful(env: Env, n: Node, c: nat, back: bool, d: nat, x: Point, s: State)
    requires n.Empty? || n.Test? || n.Assert?
    requires Fit(env, n, c) && Untouched(env, n, c, x, s)
    ensures AllTwins(env, c, Count(n), Out(env, n, c, back, d, x), Match(env.sub, n, c, back, s))
  {
    if n.Test? {
      if back {
        if x.pos > 0 {
          TestAccepts(env.sub.alpha, n.t, env.sub.text[x.pos - 1]);
        }
      } else if x.pos < |env.sub.text| {
        TestAccepts(env.sub.alpha, n.t, env.sub.text[x.pos]);
      }
    }
  }

  lemma {:induction false} FirstAgrees(env: Env, x: Point, s: State, gs: seq<nat>)
    requires Twins(env, x, s) && forall i :: 0 <= i < |gs| ==> gs[i] < env.ncap
    ensures var (a, b) := FirstSet(x.mem, gs);
            match FirstDefined(s.caps, gs)
            case Undefined => a == NULL
            case Span(p, q) => a == p && b == q && p <= q <= |env.sub.text|
    decreases |gs|
  {
    if gs != [] {
      assert Agrees(env, x.mem, s.caps, gs[0]);
      if s.caps[gs[0]] == Undefined {
        FirstAgrees(env, x, s, gs[1..]);
      }
    }
  }

  lemma {:induction false} BackRefFaithful(env: Env, n: Node, c: nat, back: bool, d: nat, x: Point, s: State)
    requires n.BackRef?
    requires Fit(env, n, c) && Untouched(env, n, c, x, s)
    ensures AllTwins(env, c, Count(n), Out(env, n, c, back, d, x), Match(env.sub, n, c, back, s))
  {
    FirstAgrees(env, x, s, n.groups);
    var (a, b) := FirstSet(x.mem, n.groups);
    var cap := FirstDefined(s.caps, n.groups);
    var p := MatchSpan(env.sub, cap, n.icase, back, x.pos);
    assert Compare(env.sub, a, b, n.icase, back, x.pos) == p;
    if p != [] {
      CompareFramed(env.sub, a, b, n.icase, back, x.pos);
    }
  }

  lemma {:induction false} FitPair(env: Env, n: Node, c: nat, l: Node, r: Node, cr: nat)
    requires n == Cat(l, r) || n == Alt(l, r)
    requires Fit(env, n, c) && cr == c + Count(l)
    ensures Fit(env, l, c) && Fit(env, r, cr) && Count(n) == Count(l) + Count(r)
  {
  }

  lemma {:induction false} CatFaithful(env: Env, n: Node, c: nat, back: bool, d: nat, x: Point, s: State)
    requires n.Cat? && Fit(env, n, c) && Untouched(env, n, c, x, s)
    ensures AllTwins(env, c, Count(n), Out(env, n, c, back, d, x), Match(env.sub, n, c, back, s))
    decreases n, 0, 1, 0, 0
  {
    hide Twins, AllTwins, OutAll, MatchAll, Agrees, Settled, Count, WellFormed, CountersFit, AllSettled, AllUndefined;
    var cr := c + Count(n.l);
    FitPair(env, n, c, n.l, n.r, cr);
    if back {
      SequenceFaithful(env, n, n.r, cr, n.l, c, c, Count(n), back, d, x, s);
    } else {
      SequenceFaithful(env, n, n.l, c, n.r, cr, c, Count(n), back, d, x, s);
    }
  }

  lemma {:induction false} SequenceFaithful(env: Env, n: Node, n1: Node, c1: nat, n2: Node, c2: nat, c: nat, k: nat,
      back: bool, d: nat,
                                            x: Point, s: State)
    requires n1 < n && n2 < n && Fit(env, n1, c1) && Fit(env, n2, c2) && c + k <= env.ncap
    requires c <= c1 && c1 + Count(n1) <= c + k && c <= c2 && c2 + Count(n2) <= c + k
    requires c1 + Count(n1) <= c2 || c2 + Count(n2) <= c1
    requires Twins(env, x, s) && AllUndefined(s.caps, c, k) && AllSettled(env, x.mem, s.caps, c, k)
    ensures AllTwins(env, c, k, OutAll(env, n2, c2, back, d, Out(env, n1, c1, back, d, x)),
                     MatchAll(env.sub, n2, c2, back, Match(env.sub, n1, c1, back, s)))
    decreases n, 0, 0, 1, 0
  {
    hide Out, Match, Count, WellFormed, CountersFit, OutAll, MatchAll, Agrees, Settled;
    NodeFaithful(env, n1, c1, back, d, x, s);
    Lift(env, n1, c1, back, d, x, s, c, k);
    var rs, ss := Out(env, n1, c1, back, d, x), Match(env.sub, n1, c1, back, s);
    forall i | 0 <= i < |rs| ensures AllUndefined(ss[i].caps, c2, Count(n2)) {
      MatchFramed(env.sub, n1, c1, back, s, ss[i]);
      UndefinedKept(c1, Count(n1), s, ss[i], c2, Count(n2), c, k);
    }
    ManyFaithful(env, n, n2, c2, c, k, back, d, rs, ss);
  }

  lemma {:induction false} ManyFaithful(env: Env, n: Node, n2: Node, c2: nat, c: nat, k: nat, back: bool, d: nat,
      rs: seq<Point>, ss: seq<State>)
    requires n2 < n && Fit(env, n2, c2) && c + k <= env.ncap && c <= c2 && c2 + Count(n2) <= c + k
    requires AllTwins(env, c, k, rs, ss) && forall i :: 0 <= i < |rs| ==> AllUndefined(ss[i].caps, c2, Count(n2))
    ensures AllTwins(env, c, k, OutAll(env, n2, c2, back, d, rs), MatchAll(env.sub, n2, c2, back, ss))
    decreases n, 0, 0, 0, |rs|
  {
    hide Out, Match, Count, WellFormed, CountersFit, Agrees, Settled;
    if rs != [] {
      assert AllSettled(env, rs[0].mem, ss[0].caps, c2, Count(n2));
      NodeFaithful(env, n2, c2, back, d, rs[0], ss[0]);
      Lift(env, n2, c2, back, d, rs[0], ss[0], c, k);
      ManyFaithful(env, n, n2, c2, c, k, back, d, rs[1..], ss[1..]);
      AppendTwins(env, c, k, Out(env, n2, c2, back, d, rs[0]), Match(env.sub, n2, c2, back, ss[0]),
                  OutAll(env, n2, c2, back, d, rs[1..]), MatchAll(env.sub, n2, c2, back, ss[1..]));
    }
  }

  lemma {:induction false} AltFaithful(env: Env, n: Node, c: nat, back: bool, d: nat, x: Point, s: State)
    requires n.Alt? && Fit(env, n, c) && Untouched(env, n, c, x, s)
    ensures AllTwins(env, c, Count(n), Out(env, n, c, back, d, x), Match(env.sub, n, c, back, s))
    decreases n, 0, 1, 0, 0
  {
    hide Twins, AllTwins, Agrees, Settled, Count, WellFormed, CountersFit, AllSettled, AllUndefined;
    var cr := c + Count(n.l);
    FitPair(env, n, c, n.l, n.r, cr);
    EitherFaithful(env, n, n.l, n.r, c, cr, Count(n), back, d, x, s);
  }

  lemma {:induction false} EitherFaithful(env: Env, n: Node, l: Node, r: Node, c: nat, cr: nat, k: nat, back: bool,
      d: nat, x: Point, s: State)
    requires l < n && r < n && Fit(env, l, c) && Fit(env, r, cr) && c + k <= env.ncap
    requires cr == c + Count(l) && k == Count(l) + Count(r)
    requires Twins(env, x, s) && AllUndefined(s.caps, c, k) && AllSettled(env, x.mem, s.caps, c, k)
    ensures AllTwins(env, c, k, Out(env, l, c, back, d, x) + Out(env, r, cr, back, d, x),
                     Match(env.sub, l, c, back, s) + Match(env.sub, r, cr, back, s))
    decreases n, 0, 0, 0, 0
  {
    hide Out, Match, AllTwins, Agrees, Settled, Count, WellFormed, CountersFit;
    NodeFaithful(env, l, c, back, d, x, s);
    NodeFaithful(env, r, cr, back, d, x, s);
    Lift(env, l, c, back, d, x, s, c, k);
    Lift(env, r, cr, back, d, x, s, c, k);
    AppendTwins(env, c, k, Out(env, l, c, back, d, x), Match(env.sub, l, c, back, s),
                Out(env, r, cr, back, d, x), Match(env.sub, r, cr, back, s));
  }

  lemma {:induction false} LookFaithful(env: Env, n: Node, c: nat, back: bool, d: nat, x: Point, s: State)
    requires n.Look? && Fit(env, n, c) && Untouched(env, n, c, x, s)
    ensures AllTwins(env, c, Count(n), Out(env, n, c, back, d, x), Match(env.sub, n, c, back, s))
    decreases n, 0, 1, 0, 0
  {
    hide Agrees, Settled;
    NodeFaithful(env, n.body, c, n.behind, d, x, s);
  }

  // ---- groups ----

  /** Opening a group shows in one of its two cells only, so the group still counts as undefined. */
  lemma {:induction false} OpenTwins(env: Env, c: nat, k: nat, x: Point, s: State, n: nat)
    requires Twins(env, x, s) && AllUndefined(s.caps, c, n + 1) && AllSettled(env, x.mem, s.caps, c,
        n + 1) && c + n + 1 <= env.ncap
    requires k == 2 * c || k == 2 * c + 1
    ensures var y := Point(x.pos, Put(x.mem, k, x.pos));
            Twins(env, y, s) && AllUndefined(s.caps, c + 1, n) && AllSettled(env, y.mem, s.caps, c + 1, n)
  {
    var y := Point(x.pos, Put(x.mem, k, x.pos));
    assert Settled(env, x.mem, s.caps, c) && IsUndefined(s.caps, c);
    forall g | 0 <= g < env.ncap ensures Agrees(env, y.mem, s.caps, g) {
      assert Agrees(env, x.mem, s.caps, g);
    }
    forall g | c + 1 <= g < c + 1 + n ensures Settled(env, y.mem, s.caps, g) {
      assert Settled(env, x.mem, s.caps, g);
    }
  }

  /** Closing it sets the other cell, and the capture. */
  lemma {:induction false} CloseTwins(env: Env, c: nat, back: bool, from: nat, k1: nat, k2: nat, y: Point, t: State,
      n: nat)
    requires Twins(env, y, t) && AllSettled(env, y.mem, t.caps, c + 1, n) && c + n + 1 <= env.ncap
    requires if back then k1 == 2 * c + 1 && k2 == 2 * c else k1 == 2 * c && k2 == 2 * c + 1
    requires y.mem[k1] == from && from <= |env.sub.text| && Ahead(env.sub, back, from, y.pos)
    ensures var z := Point(y.pos, Put(y.mem, k2, y.pos));
            Twins(env, z, SetSpan(t, c, from)) && AllSettled(env, z.mem, SetSpan(t, c, from).caps, c, n + 1)
  {
    var z, u := Point(y.pos, Put(y.mem, k2, y.pos)), SetSpan(t, c, from);
    forall g | 0 <= g < env.ncap ensures Agrees(env, z.mem, u.caps, g) {
      assert Agrees(env, y.mem, t.caps, g);
    }
    forall g | c <= g < c + n + 1 ensures Settled(env, z.mem, u.caps, g) {
      if g > c {
        assert Settled(env, y.mem, t.caps, g);
      }
    }
  }

  lemma {:induction false} GroupFaithful(env: Env, n: Node, c: nat, back: bool, d: nat, x: Point, s: State)
    requires n.Group? && Fit(env, n, c) && Untouched(env, n, c, x, s)
    ensures AllTwins(env, c, Count(n), Out(env, n, c, back, d, x), Match(env.sub, n, c, back, s))
    decreases n, 0, 1, 0, 0
  {
    hide Out, PutAll, CloseGroup, AllTwins, Agrees, AllSettled, AllUndefined, Put;
    var k1, k2 := if back then 2 * c + 1 else 2 * c, if back then 2 * c else 2 * c + 1;
    GroupOut(env, n.body, c, back, d, x, k1, k2);
    SpanFaithful(env, n, n.body, c, back, d, k1, k2, x, s, Count(n.body));
  }

  lemma {:induction false} CellFramed(env: Env, c: nat, n: nat, d: nat, back: bool, x: Point, y: Point, j: nat)
    requires Framed(env, c, n, d, back, x, y) && j < |x.mem| && j < 2 * env.ncap && !(2 * c <= j < 2 * (c + n))
    ensures y.mem[j] == x.mem[j] && |y.mem| == |x.mem| && Ahead(env.sub, back, x.pos, y.pos)
  {
  }

  lemma {:induction false} SpanFaithful(env: Env, n: Node, b: Node, c: nat, back: bool, d: nat, k1: nat, k2: nat,
      x: Point, s: State, k: nat)
    requires b < n && Fit(env, b, c + 1) && k == Count(b)
    requires if back then k1 == 2 * c + 1 && k2 == 2 * c else k1 == 2 * c && k2 == 2 * c + 1
    requires Twins(env, x, s) && AllUndefined(s.caps, c, k + 1) && AllSettled(env, x.mem, s.caps, c, k + 1)
    ensures AllTwins(env, c, k + 1, PutAll(Out(env, b, c + 1, back, d, Point(x.pos, Put(x.mem, k1, x.pos))), k2),
                     CloseGroup(Match(env.sub, b, c + 1, back, s), c, x.pos))
    decreases n, 0, 0, 0, 0
  {
    hide Out, Match, Count, WellFormed, CountersFit, Agrees, Settled, AllSettled, AllUndefined, Framed, Put, PutAll,
        CloseGroup;
    var x1 := Point(x.pos, Put(x.mem, k1, x.pos));
    OpenTwins(env, c, k1, x, s, k);
    NodeFaithful(env, b, c + 1, back, d, x1, s);
    var rs, ss := Out(env, b, c + 1, back, d, x1), Match(env.sub, b, c + 1, back, s);
    var zs, us := PutAll(rs, k2), CloseGroup(ss, c, x.pos);
    forall i | 0 <= i < |rs| ensures Twins(env, zs[i], us[i]) && AllSettled(env, zs[i].mem, us[i].caps, c, k + 1) {
      OutFramed(env, b, c + 1, back, d, x1, rs[i]);
      CellFramed(env, c + 1, k, d, back, x1, rs[i], k1);
      CloseTwins(env, c, back, x.pos, k1, k2, rs[i], ss[i], k);
    }
  }

  // ---- quantifiers ----

  /** At the head of a loop over b. If captures are not reset before the atom, it overwrites them. */
  ghost predicate Heads(env: Env, b: Node, c: nat, init: bool, x: Point, s: State) {
    && Twins(env, x, s) && AllSettled(env, x.mem, s.caps, c, Count(b))
    && (!init && Count(b) > 0 ==> Simple(b) && DeadNull(b, c, x.mem))
  }

  ghost predicate AllHeads(env: Env, b: Node, c: nat, init: bool, rs: seq<Point>, ss: seq<State>) {
    |rs| == |ss| && forall i :: 0 <= i < |rs| ==> Heads(env, b, c, init, rs[i], ss[i])
  }

  lemma {:induction false} AppendHeads(env: Env, b: Node, c: nat, init: bool, r1: seq<Point>, s1: seq<State>,
      r2: seq<Point>, s2: seq<State>)
    requires AllHeads(env, b, c, init, r1, s1) && AllHeads(env, b, c, init, r2, s2)
    ensures AllHeads(env, b, c, init, r1 + r2, s1 + s2)
  {
    hide Heads;
  }

  lemma {:induction false} HeadsTwins(env: Env, b: Node, c: nat, init: bool, rs: seq<Point>, ss: seq<State>)
    requires AllHeads(env, b, c, init, rs, ss)
    ensures AllTwins(env, c, Count(b), rs, ss)
  {
  }

  /** Registers are no captures. */
  lemma {:induction false} HeadsPut(env: Env, b: Node, c: nat, init: bool, x: Point, s: State, k: nat, v: int)
    requires Heads(env, b, c, init, x, s) && k >= 2 * env.ncap && c + Count(b) <= env.ncap
    ensures Heads(env, b, c, init, Point(x.pos, Put(x.mem, k, v)), s)
  {
    var y := Point(x.pos, Put(x.mem, k, v));
    forall g | 0 <= g < env.ncap ensures Agrees(env, y.mem, s.caps, g) {
      assert Agrees(env, x.mem, s.caps, g);
    }
    forall g | c <= g < c + Count(b) ensures Settled(env, y.mem, s.caps, g) {
      assert Settled(env, x.mem, s.caps, g);
    }
    if !init && Count(b) > 0 {
      DeadNullKept(b, c, x.mem, y.mem);
    }
  }

  lemma {:induction false} HeadsMark(env: Env, b: Node, c: nat, init: bool, x: Point, s: State, adv: bool, reg: nat)
    requires Heads(env, b, c, init, x, s) && reg >= 2 * env.ncap && c + Count(b) <= env.ncap
    ensures Heads(env, b, c, init, Mark(adv, reg, x), s)
  {
    if adv {
      HeadsPut(env, b, c, init, x, s, reg, x.pos);
    }
  }

  function Forget(s: State, b: Node, c: nat): (r: State) {
    s.(caps := ResetCaps(s.caps, c, Count(b)))
  }

  /** The reset of the captures, in the engine and in the semantics. */
  lemma {:induction false} ResetTwins(env: Env, b: Node, c: nat, on: bool, x: Point, s: State)
    requires Twins(env, x, s) && c + Count(b) <= env.ncap && (on || Count(b) == 0)
    ensures Untouched(env, b, c, Point(x.pos, Reset(on, c, Count(b), x.mem)), Forget(s, b, c))
  {
    var y, t := Point(x.pos, Reset(on, c, Count(b), x.mem)), Forget(s, b, c);
    forall g | 0 <= g < env.ncap ensures Agrees(env, y.mem, t.caps, g) {
      assert Agrees(env, x.mem, s.caps, g);
    }
    forall g | c <= g < c + Count(b) ensures Settled(env, y.mem, t.caps, g) && IsUndefined(t.caps, g) {
    }
  }

  /** One iteration: the atom, run with or without a reset, against the match of a forgetful state. */
  lemma {:induction false} AtomFaithful(env: Env, b: Node, c: nat, back: bool, d1: nat, init: bool, x: Point, s: State)
    requires Fit(env, b, c) && Heads(env, b, c, init, x, s)
    ensures AllHeads(env, b, c, init, OutAtom(env, b, c, back, d1, init, x), Match(env.sub, b, c, back, Forget(s, b,
        c)))
    decreases b, 2, 0, 0, 0
  {
    hide Out, Match, WellFormed, CountersFit;
    if init || Count(b) == 0 {
      ResetTwins(env, b, c, init, x, s);
      NodeFaithful(env, b, c, back, d1, Point(x.pos, Reset(init, c, Count(b), x.mem)), Forget(s, b, c));
    } else {
      assert Reset(init, c, Count(b), x.mem) == x.mem;
      StaleAtom(env, b, c, back, d1, x, s);
    }
  }

  lemma {:induction false} StaleAtom(env: Env, b: Node, c: nat, back: bool, d1: nat, x: Point, s: State)
    requires Fit(env, b, c) && Heads(env, b, c, false, x, s) && Count(b) > 0
    ensures AllHeads(env, b, c, false, Out(env, b, c, back, d1, x), Match(env.sub, b, c, back, Forget(s, b, c)))
  {
    hide Out, Match, WellFormed, CountersFit, Simple, DeadNull, Agrees, Settled;
    var t := Forget(s, b, c);
    forall g | c <= g < c + Count(b) ensures IsUndefined(t.caps, g) {
    }
    SimpleFaithful(env, b, c, back, d1, x, t);
    var rs, ss := Out(env, b, c, back, d1, x), Match(env.sub, b, c, back, t);
    if rs != [] {
      OutFramed(env, b, c, back, d1, x, rs[0]);
      MatchFramed(env.sub, b, c, back, t, ss[0]);
      RestTwins(env, b, c, back, d1, x, s, rs[0], ss[0]);
    }
  }

  lemma {:induction false} RestTwins(env: Env, b: Node, c: nat, back: bool, d: nat, x: Point, s: State, y: Point,
      t: State)
    requires Twins(env, x, s) && Fresh(env, b, c, y, t) && c + Count(b) <= env.ncap
    requires Framed(env, c, Count(b), d, back, x, y) && CapsFramed(c, Count(b), Forget(s, b, c), t)
    ensures Twins(env, y, t)
  {
    forall g | 0 <= g < env.ncap ensures Agrees(env, y.mem, t.caps, g) {
      if c <= g < c + Count(b) {
        assert Settled(env, y.mem, t.caps, g);
      } else {
        assert Agrees(env, x.mem, s.caps, g);
      }
    }
  }

  /** The empty iterations the engine rejects are those the semantics rejects. */
  lemma {:induction false} FilterHeads(env: Env, b: Node, c: nat, init: bool, back: bool, pos: nat, rs: seq<Point>,
      ss: seq<State>)
    requires AllHeads(env, b, c, init, rs, ss) && pos <= |env.sub.text|
    requires forall i :: 0 <= i < |rs| ==> Ahead(env.sub, back, pos, rs[i].pos)
    ensures AllHeads(env, b, c, init, Advanced(env.sub, back, rs, pos), Moved(ss, pos))
    decreases |rs|
  {
    hide AllSettled, DeadNull, Simple, Agrees;
    if rs != [] {
      FilterHeads(env, b, c, init, back, pos, rs[1..], ss[1..]);
      var r1 := if Dist(env.sub, back, rs[0].pos) < Dist(env.sub, back, pos) then [rs[0]] else [];
      var s1 := if ss[0].pos != pos then [ss[0]] else [];
      assert Heads(env, b, c, init, rs[0], ss[0]);
      AppendHeads(env, b, c, init, r1, s1, Advanced(env.sub, back, rs[1..], pos), Moved(ss[1..], pos));
    }
  }

  lemma {:induction false} AtomAhead(env: Env, b: Node, c: nat, back: bool, d1: nat, init: bool, x: Point)
    requires Fit(env, b, c) && x.pos <= |env.sub.text|
    ensures forall y :: y in OutAtom(env, b, c, back, d1, init, x) ==> y.pos <= |env.sub.text| && Ahead(env.sub, back,
        x.pos, y.pos)
  {
    hide Out, OutAtom, WellFormed, CountersFit, Count;
    forall y | y in OutAtom(env, b, c, back, d1, init, x) ensures y.pos <= |env.sub.text| && Ahead(env.sub, back,
        x.pos, y.pos) {
      FramedSelf(env, c, Count(b), d1, back, x);
      AtomFramed(env, b, c, back, d1, init, d1, x, x, y);
    }
  }

  /** With no iteration left the list of outcomes is kept as it is. */
  lemma {:induction false} RepeatNone(s: Subject, b: Node, c: nat, back: bool, greedy: bool, xs: seq<State>)
    requires forall x :: x in xs ==> x.pos <= |s.text|
    ensures RepeatAll(s, b, c, back, 0, 0, greedy, xs) == xs
    decreases |xs|
  {
    if xs != [] {
      RepeatNone(s, b, c, back, greedy, xs[1..]);
    }
  }

  lemma {:induction false} StarFaithful(env: Env, b: Node, c: nat, back: bool, d1: nat, p: Plan, reg: nat,
      greedy: bool, x: Point, s: State)
    requires Fit(env, b, c) && Heads(env, b, c, p.init, x, s) && reg >= 2 * env.ncap
    ensures AllHeads(env, b, c, p.init, OutStar(env, b, c, back, d1, p, reg, greedy, x),
                     Repeat(env.sub, b, c, back, 0, INT32_MAX, greedy, s))
    decreases b, 3, Dist(env.sub, back, x.pos), 1, 0
  {
    hide Match, OutAtom, OutStarAll, RepeatAll, Advanced, Moved, WellFormed, CountersFit, Count, AllSettled, DeadNull,
        Agrees;
    var y := Mark(p.adv, reg, x);
    HeadsMark(env, b, c, p.init, x, s, p.adv, reg);
    AtomFaithful(env, b, c, back, d1, p.init, y, s);
    var some, body := OutAtom(env, b, c, back, d1, p.init, y), Match(env.sub, b, c, back, Forget(s, b, c));
    AtomAhead(env, b, c, back, d1, p.init, y);
    FilterHeads(env, b, c, p.init, back, x.pos, some, body);
    var kept, moved := Advanced(env.sub, back, some, x.pos), Moved(body, x.pos);
    StarAllFaithful(env, b, c, back, d1, p, reg, greedy, x, kept, moved);
    var r, t := OutStarAll(env, b, c, back, d1, p, reg, greedy, kept), RepeatAll(env.sub, b, c, back, 0, INT32_MAX,
        greedy, moved);
    if greedy {
      AppendHeads(env, b, c, p.init, r, t, [x], [s]);
    } else {
      AppendHeads(env, b, c, p.init, [x], [s], r, t);
    }
  }

  lemma {:induction false} StarAllFaithful(env: Env, b: Node, c: nat, back: bool, d1: nat, p: Plan, reg: nat,
      greedy: bool, from: Point,
                                           rs: seq<Point>, ss: seq<State>)
    requires Fit(env, b, c) && AllHeads(env, b, c, p.init, rs, ss) && reg >= 2 * env.ncap
    requires forall r :: r in rs ==> Dist(env.sub, back, r.pos) < Dist(env.sub, back, from.pos)
    ensures AllHeads(env, b, c, p.init, OutStarAll(env, b, c, back, d1, p, reg, greedy, rs),
                     RepeatAll(env.sub, b, c, back, 0, INT32_MAX, greedy, ss))
    decreases b, 3, Dist(env.sub, back, from.pos), 0, |rs|
  {
    hide Match, OutAtom, OutStar, Repeat, WellFormed, CountersFit, Count, AllSettled, DeadNull, Agrees;
    if rs != [] {
      StarFaithful(env, b, c, back, d1, p, reg, greedy, rs[0], ss[0]);
      StarAllFaithful(env, b, c, back, d1, p, reg, greedy, from, rs[1..], ss[1..]);
      AppendHeads(env, b, c, p.init, OutStar(env, b, c, back, d1, p, reg, greedy, rs[0]),
                  Repeat(env.sub, b, c, back, 0, INT32_MAX, greedy, ss[0]),
                  OutStarAll(env, b, c, back, d1, p, reg, greedy, rs[1..]),
                  RepeatAll(env.sub, b, c, back, 0, INT32_MAX, greedy, ss[1..]));
    }
  }

  lemma {:induction false} StarManyFaithful(env: Env, b: Node, c: nat, back: bool, d1: nat, p: Plan, reg: nat,
      greedy: bool,
                                            rs: seq<Point>, ss: seq<State>)
    requires Fit(env, b, c) && AllHeads(env, b, c, p.init, rs, ss) && reg >= 2 * env.ncap
    ensures AllHeads(env, b, c, p.init, OutStarAll(env, b, c, back, d1, p, reg, greedy, rs),
                     RepeatAll(env.sub, b, c, back, 0, INT32_MAX, greedy, ss))
    decreases b, 4, 0, 0, |rs|
  {
    hide Match, OutAtom, OutStar, Repeat, WellFormed, CountersFit, Count, AllSettled, DeadNull, Agrees;
    if rs != [] {
      StarFaithful(env, b, c, back, d1, p, reg, greedy, rs[0], ss[0]);
      StarManyFaithful(env, b, c, back, d1, p, reg, greedy, rs[1..], ss[1..]);
      AppendHeads(env, b, c, p.init, OutStar(env, b, c, back, d1, p, reg, greedy, rs[0]),
                  Repeat(env.sub, b, c, back, 0, INT32_MAX, greedy, ss[0]),
                  OutStarAll(env, b, c, back, d1, p, reg, greedy, rs[1..]),
                  RepeatAll(env.sub, b, c, back, 0, INT32_MAX, greedy, ss[1..]));
    }
  }

  /** The iterations a repetition makes when it does not stop at once. */
  function Iterations(s: Subject, b: Node, c: nat, back: bool, min: nat, max: nat, greedy: bool,
      x: State): (r: seq<State>)
    requires x.pos <= |s.text| && max > 0
  {
    var body := Match(s, b, c, back, Forget(x, b, c));
    if min > 0 then RepeatAll(s, b, c, back, min - 1, Less(max), greedy, body)
    else RepeatAll(s, b, c, back, 0, Less(max), greedy, Moved(body, x.pos))
  }

  /** The iterations still demanded when v are left. */
  function Demand(k: Counter, v: nat): (r: nat) {
    if v > k.limit then v - k.limit else 0
  }

  /** The counter v stands for the bound max: it is max, or max is infinite and v does not run out before the subject
      does. */
  ghost predicate Stands(env: Env, b: Node, back: bool, k: Counter, v: nat, max: nat, x: Point) {
    max <= INT32_MAX
    && if max != INT32_MAX then v == max
       else if MustAdvance(b) then v > Dist(env.sub, back, x.pos)
       else v >= Dist(env.sub, back, x.pos) + Demand(k, v)
  }

  /** Empty iterations are rejected by the check, by the analysis, or because none is optional. */
  ghost predicate Checked(b: Node, k: Counter) {
    k.adv || MustAdvance(b) || k.limit == 0
  }

  lemma {:induction false} LoopFaithful(env: Env, b: Node, c: nat, back: bool, d1: nat, init: bool, k: Counter, v: nat,
      max: nat,
                                        x: Point, s: State)
    requires Fit(env, b, c) && Heads(env, b, c, init, x, s) && k.reg >= 2 * env.ncap && v > 0
    requires Stands(env, b, back, k, v, max, x) && Checked(b, k)
    ensures max > 0
    ensures AllHeads(env, b, c, init, OutLoop(env, b, c, back, d1, init, k, v, x),
                     Iterations(env.sub, b, c, back, Demand(k, v), max, k.greedy, s))
    decreases b, 3, v, 1, 0
  {
    hide Match, OutAtom, OutNextAll, RepeatAll, Moved, WellFormed, CountersFit, Count, AllSettled, DeadNull, Agrees,
        MustAdvance, Simple;
    var y := Mark(k.adv, k.reg + 1, x);
    HeadsMark(env, b, c, init, x, s, k.adv, k.reg + 1);
    AtomFaithful(env, b, c, back, d1, init, y, s);
    var some, body := OutAtom(env, b, c, back, d1, init, y), Match(env.sub, b, c, back, Forget(s, b, c));
    AtomAhead(env, b, c, back, d1, init, y);
    forall i | 0 <= i < |some| ensures Follows(env, b, back, x.pos, some[i]) {
      if MustAdvance(b) {
        AtomAdvances(env, b, c, back, d1, init, y, some[i]);
      }
    }
    NextAllFaithful(env, b, c, back, d1, init, k, v - 1, max, x, some, body);
  }

  /** r comes after one run of the atom b from pos. */
  ghost predicate Follows(env: Env, b: Node, back: bool, pos: nat, r: Point) {
    && r.pos <= |env.sub.text| && Dist(env.sub, back, r.pos) <= Dist(env.sub, back, pos)
    && (Dist(env.sub, back, r.pos) == Dist(env.sub, back, pos) <==> r.pos == pos)
    && (MustAdvance(b) ==> r.pos != pos)
  }

  lemma {:induction false} NextAllFaithful(env: Env, b: Node, c: nat, back: bool, d1: nat, init: bool, k: Counter,
      v: nat, max: nat,
                                           x: Point, rs: seq<Point>, ss: seq<State>)
    requires Fit(env, b, c) && AllHeads(env, b, c, init, rs, ss) && k.reg >= 2 * env.ncap
    requires Stands(env, b, back, k, v + 1, max, x) && Checked(b, k) && max > 0
    requires forall i :: 0 <= i < |rs| ==> Follows(env, b, back, x.pos, rs[i])
    ensures AllHeads(env, b, c, init, OutNextAll(env, b, c, back, d1, init, k, v, x.pos, rs),
                     RepeatAll(env.sub, b, c, back, Demand(k, v), Less(max), k.greedy,
                               if v >= k.limit then ss else Moved(ss, x.pos)))
    decreases b, 3, v, 3, |rs|
  {
    hide Match, OutAtom, OutNext, Repeat, WellFormed, CountersFit, Count, AllSettled, DeadNull, Agrees, MustAdvance,
        Simple;
    if rs != [] {
      assert Heads(env, b, c, init, rs[0], ss[0]) && Follows(env, b, back, x.pos, rs[0]);
      NextAllFaithful(env, b, c, back, d1, init, k, v, max, x, rs[1..], ss[1..]);
      if v >= k.limit || rs[0].pos != x.pos {
        NextFaithful(env, b, c, back, d1, init, k, v, max, x, rs[0], ss[0]);
      } else {
        NextRejects(env, b, c, back, d1, init, k, v, x.pos, rs[0]);
      }
      NextCons(env, b, c, back, d1, init, k, v, max, x.pos, rs, ss);
    }
  }

  lemma {:induction false} NextCons(env: Env, b: Node, c: nat, back: bool, d1: nat, init: bool, k: Counter, v: nat,
      max: nat,
                                    from: nat, rs: seq<Point>, ss: seq<State>)
    requires WellFormed(b, CAPTURE_COUNT_MAX) && rs != [] && ss != [] && max > 0 && rs[0].pos == ss[0].pos
    requires forall i :: 0 <= i < |ss| ==> ss[i].pos <= |env.sub.text|
    requires AllHeads(env, b, c, init, OutNextAll(env, b, c, back, d1, init, k, v, from, rs[1..]),
                      RepeatAll(env.sub, b, c, back, Demand(k, v), Less(max), k.greedy,
                                if v >= k.limit then ss[1..] else Moved(ss[1..], from)))
    requires if v >= k.limit || rs[0].pos != from
             then AllHeads(env, b, c, init, OutNext(env, b, c, back, d1, init, k, v, from, rs[0]),
                           Repeat(env.sub, b, c, back, Demand(k, v), Less(max), k.greedy, ss[0]))
             else OutNext(env, b, c, back, d1, init, k, v, from, rs[0]) == []
    ensures AllHeads(env, b, c, init, OutNextAll(env, b, c, back, d1, init, k, v, from, rs),
                     RepeatAll(env.sub, b, c, back, Demand(k, v), Less(max), k.greedy,
                               if v >= k.limit then ss else Moved(ss, from)))
  {
    hide OutNext, Repeat, WellFormed, Heads, AllHeads;
    var rest := if v >= k.limit then ss[1..] else Moved(ss[1..], from);
    var more := RepeatAll(env.sub, b, c, back, Demand(k, v), Less(max), k.greedy, rest);
    var moreOut := OutNextAll(env, b, c, back, d1, init, k, v, from, rs[1..]);
    if v >= k.limit || rs[0].pos != from {
      RepeatAllCons(env.sub, b, c, back, Demand(k, v), Less(max), k.greedy, ss[0], rest);
      assert [ss[0]] + rest == if v >= k.limit then ss else Moved(ss, from);
      AppendHeads(env, b, c, init, OutNext(env, b, c, back, d1, init, k, v, from, rs[0]),
                  Repeat(env.sub, b, c, back, Demand(k, v), Less(max), k.greedy, ss[0]), moreOut, more);
    } else {
      assert [] + rest == rest && [] + moreOut == moreOut;
    }
  }

  lemma {:induction false} StandsNext(env: Env, b: Node, back: bool, k: Counter, v: nat, max: nat, x: Point, r: Point)
    requires Stands(env, b, back, k, v + 1, max, x) && max > 0 && Follows(env, b, back, x.pos, r)
    requires v >= k.limit || r.pos != x.pos
    ensures Stands(env, b, back, k, v, Less(max), r)
  {
  }

  lemma {:induction false} NextRejects(env: Env, b: Node, c: nat, back: bool, d1: nat, init: bool, k: Counter, v: nat,
      from: nat, r: Point)
    requires WellFormed(b, CAPTURE_COUNT_MAX) && k.adv && r.pos == from && v < k.limit
    ensures OutNext(env, b, c, back, d1, init, k, v, from, r) == []
  {
  }

  lemma {:induction false} RepeatAllCons(s: Subject, b: Node, c: nat, back: bool, min: nat, max: nat, greedy: bool,
      x: State, xs: seq<State>)
    requires x.pos <= |s.text| && forall y :: y in xs ==> y.pos <= |s.text|
    ensures RepeatAll(s, b, c, back, min, max, greedy, [x] + xs)
            == Repeat(s, b, c, back, min, max, greedy, x) + RepeatAll(s, b, c, back, min, max, greedy, xs)
  {
    hide Repeat;
    assert ([x] + xs)[1..] == xs;
  }

  lemma {:induction false} NextFaithful(env: Env, b: Node, c: nat, back: bool, d1: nat, init: bool, k: Counter, v: nat,
      max: nat,
                                        x: Point, r: Point, t: State)
    requires Fit(env, b, c) && Heads(env, b, c, init, r, t) && k.reg >= 2 * env.ncap
    requires Stands(env, b, back, k, v + 1, max, x) && Checked(b, k) && max > 0 && Follows(env, b, back, x.pos, r)
    requires v >= k.limit || r.pos != x.pos
    ensures AllHeads(env, b, c, init, OutNext(env, b, c, back, d1, init, k, v, x.pos, r),
                     Repeat(env.sub, b, c, back, Demand(k, v), Less(max), k.greedy, t))
    decreases b, 3, v, 2, 0
  {
    hide Match, OutAtom, OutLoop, OutNext, Repeat, RepeatAll, Moved, WellFormed, CountersFit, Count, AllSettled,
        DeadNull, Agrees,
         MustAdvance, Simple, Iterations, Heads, AllHeads;
    var y := Point(r.pos, Put(r.mem, k.reg, v));
    HeadsPut(env, b, c, init, r, t, k.reg, v);
    StandsNext(env, b, back, k, v, max, x, r);
    NextTurn(env, b, c, back, d1, init, k, v, x.pos, r);
    HeadsOne(env, b, c, init, y, t);
    if v > 0 {
      LoopFaithful(env, b, c, back, d1, init, k, v, Less(max), y, t);
      RepeatTurn(env.sub, b, c, back, Demand(k, v), Less(max), k.greedy, t);
      var rs := OutLoop(env, b, c, back, d1, init, k, v, y);
      var ss := Iterations(env.sub, b, c, back, Demand(k, v), Less(max), k.greedy, t);
      AppendHeads(env, b, c, init, rs, ss, [y], [t]);
      AppendHeads(env, b, c, init, [y], [t], rs, ss);
    } else if max == INT32_MAX {
      RepeatStuck(env.sub, b, c, back, k.greedy, t);
    } else {
      RepeatNothing(env.sub, b, c, back, k.greedy, t);
    }
  }

  lemma {:induction false} HeadsOne(env: Env, b: Node, c: nat, init: bool, x: Point, s: State)
    requires Heads(env, b, c, init, x, s)
    ensures AllHeads(env, b, c, init, [x], [s]) && x.pos == s.pos <= |env.sub.text|
  {
  }

  /** The instruction that closes the loop, when it does not reject the iteration. */
  lemma {:induction false} NextTurn(env: Env, b: Node, c: nat, back: bool, d1: nat, init: bool, k: Counter, v: nat,
      from: nat, r: Point)
    requires WellFormed(b, CAPTURE_COUNT_MAX) && (v >= k.limit || r.pos != from)
    ensures var y := Point(r.pos, Put(r.mem, k.reg, v));
      OutNext(env, b, c, back, d1, init, k, v, from, r) ==
        if v == 0 then [y]
        else
          var more := OutLoop(env, b, c, back, d1, init, k, v, y);
          if Demand(k, v) > 0 then more else if k.greedy then more + [y] else [y] + more
  {
    hide OutLoop, WellFormed;
  }

  lemma {:induction false} RepeatTurn(s: Subject, b: Node, c: nat, back: bool, min: nat, max: nat, greedy: bool,
      x: State)
    requires x.pos <= |s.text| && max > 0
    ensures Repeat(s, b, c, back, min, max, greedy, x) ==
      var more := Iterations(s, b, c, back, min, max, greedy, x);
      if min > 0 then more else if greedy then more + [x] else [x] + more
  {
    hide Match, RepeatAll, Moved;
  }

  lemma {:induction false} RepeatNothing(s: Subject, b: Node, c: nat, back: bool, greedy: bool, x: State)
    requires x.pos <= |s.text|
    ensures Repeat(s, b, c, back, 0, 0, greedy, x) == [x]
  {
  }

  /** At the end of the subject, no further iteration can advance. */
  lemma {:induction false} RepeatStuck(s: Subject, b: Node, c: nat, back: bool, greedy: bool, x: State)
    requires x.pos <= |s.text| && Dist(s, back, x.pos) == 0
    ensures Repeat(s, b, c, back, 0, INT32_MAX, greedy, x) == [x]
  {
    hide Match;
    NoneMoved(s, back, Match(s, b, c, back, x.(caps := ResetCaps(x.caps, c, Count(b)))), x.pos);
  }

  lemma {:induction false} NoneMoved(s: Subject, back: bool, rs: seq<State>, pos: nat)
    requires pos <= |s.text| && Dist(s, back, pos) == 0
    requires forall r :: r in rs ==> Ahead(s, back, pos, r.pos) && r.pos <= |s.text|
    ensures Moved(rs, pos) == []
  {
    if rs != [] {
      assert rs[0] in rs;
      NoneMoved(s, back, rs[1..], pos);
    }
  }

  /** On entry to a quantifier the captures of its atom are undefined, and resetting them once changes nothing. */
  lemma {:induction false} EntryHeads(env: Env, b: Node, c: nat, back: bool, min: nat, max: nat, p: Plan, once: bool,
      x: Point, s: State)
    requires Fit(env, b, c) && Untouched(env, b, c, x, s) && p == PlanOf(env.sub.alpha, b, c, back, min, max)
    ensures Heads(env, b, c, p.init, Point(x.pos, Reset(once, c, Count(b), x.mem)), s)
  {
    hide WellFormed, CountersFit, Count, Simple, DeadNull;
    var y := Point(x.pos, Reset(once, c, Count(b), x.mem));
    forall g | 0 <= g < env.ncap ensures Agrees(env, y.mem, s.caps, g) {
      assert Agrees(env, x.mem, s.caps, g);
      assert c <= g < c + Count(b) ==> IsUndefined(s.caps, g);
    }
    forall g | c <= g < c + Count(b) ensures Settled(env, y.mem, s.caps, g) {
      assert Settled(env, x.mem, s.caps, g);
    }
    if !p.init && Count(b) > 0 {
      AnalysisSimple(env.sub.alpha, b, c, back, -1);
      DeadNullFresh(env, b, c, y.mem, s.caps);
    }
  }

  lemma {:induction false} QuantFaithful(env: Env, n: Node, c: nat, back: bool, d: nat, x: Point, s: State)
    requires n.Quant? && Fit(env, n, c) && Untouched(env, n, c, x, s)
    ensures AllTwins(env, c, Count(n), Out(env, n, c, back, d, x), Match(env.sub, n, c, back, s))
    decreases n, 0, 1, 0, 0
  {
    hide AllTwins, AllHeads, OutQuant, Repeat, Agrees, AllSettled, AllUndefined, PlanOf;
    var p := PlanOf(env.sub.alpha, n.body, c, back, n.min, n.max);
    if n.min == 0 {
      OptionalFaithful(env, n.body, c, back, d, n.max, n.greedy, p, x, s);
    } else {
      RepeatedFaithful(env, n.body, c, back, d, n.min, n.max, n.greedy, p, x, s);
    }
    HeadsTwins(env, n.body, c, p.init, OutQuant(env, n.body, c, back, d, n.min, n.max, n.greedy, x),
               Repeat(env.sub, n.body, c, back, n.min, n.max, n.greedy, s));
  }

  lemma {:induction false} CheckedOf(alpha: Alphabet, b: Node, c: nat, back: bool, min: nat, max: nat, p: Plan,
      k: Counter)
    requires WellFormed(b, CAPTURE_COUNT_MAX) && p == PlanOf(alpha, b, c, back, min, max) && k.adv == p.adv
    requires min > 0 && min == max ==> k.limit == 0
    ensures Checked(b, k)
  {
    hide WellFormed, MustAdvance, Count;
    if !p.adv && !NeedCheckAdv(Gen(alpha, b, c, back, -1)) {
      AnalysisMustAdvance(alpha, b, c, back, -1);
    }
  }

  lemma {:induction false} OptionalFaithful(env: Env, b: Node, c: nat, back: bool, d: nat, max: nat, greedy: bool,
      p: Plan, x: Point, s: State)
    requires Fit(env, b, c) && Untouched(env, b, c, x, s) && max <= INT32_MAX && p == PlanOf(env.sub.alpha, b, c, back,
        0, max)
    ensures AllHeads(env, b, c, p.init, OutQuant(env, b, c, back, d, 0, max, greedy, x),
                     Repeat(env.sub, b, c, back, 0, max, greedy, s))
    decreases b, 5, 0, 0, 0
  {
    hide Out, Match, OutAtom, OutStar, OutLoop, OutQuant, RepeatAll, WellFormed, CountersFit, Count, PlanOf, AllSettled,
         AllUndefined, DeadNull, Simple, Agrees, Checked;
    var y := Point(x.pos, Reset(p.once, c, Count(b), x.mem));
    var d1 := d + Held(p, 0, max);
    var reg := 2 * env.ncap + d;
    EntryHeads(env, b, c, back, 0, max, p, p.once, x, s);
    OptionalOut(env, b, c, back, d, max, greedy, x, p, d1, y);
    if max == 1 {
      SkipFaithful(env, b, c, back, d1, greedy, p, reg, y, s);
    } else if max == INT32_MAX {
      StarFaithful(env, b, c, back, d1, p, reg, greedy, y, s);
    } else if max > 0 {
      var k := Counter(reg, p.adv, greedy, max);
      CheckedOf(env.sub.alpha, b, c, back, 0, max, p, k);
      BoundedFaithful(env, b, c, back, d1, p, k, max, y, s);
    }
  }

  lemma {:induction false} SkipFaithful(env: Env, b: Node, c: nat, back: bool, d1: nat, greedy: bool, p: Plan,
      reg: nat, y: Point, s: State)
    requires Fit(env, b, c) && Heads(env, b, c, p.init, y, s) && reg >= 2 * env.ncap
    ensures var some := OutAtom(env, b, c, back, d1, p.init, Mark(p.adv, reg, y));
            var kept := Advanced(env.sub, back, some, y.pos);
            AllHeads(env, b, c, p.init, if greedy then kept + [y] else [y] + kept, Repeat(env.sub, b, c, back, 0, 1,
                greedy, s))
    decreases b, 4, 0, 0, 0
  {
    hide Match, OutAtom, RepeatAll, Advanced, Moved, WellFormed, CountersFit, Count, AllSettled, DeadNull, Agrees,
        Simple;
    var z := Mark(p.adv, reg, y);
    HeadsMark(env, b, c, p.init, y, s, p.adv, reg);
    AtomFaithful(env, b, c, back, d1, p.init, z, s);
    var some, body := OutAtom(env, b, c, back, d1, p.init, z), Match(env.sub, b, c, back, Forget(s, b, c));
    AtomAhead(env, b, c, back, d1, p.init, z);
    FilterHeads(env, b, c, p.init, back, y.pos, some, body);
    var kept, moved := Advanced(env.sub, back, some, y.pos), Moved(body, y.pos);
    RepeatNone(env.sub, b, c, back, greedy, moved);
    if greedy {
      AppendHeads(env, b, c, p.init, kept, moved, [y], [s]);
    } else {
      AppendHeads(env, b, c, p.init, [y], [s], kept, moved);
    }
  }

  lemma {:induction false} BoundedFaithful(env: Env, b: Node, c: nat, back: bool, d1: nat, p: Plan, k: Counter,
      max: nat, y: Point, s: State)
    requires Fit(env, b, c) && Heads(env, b, c, p.init, y, s) && k.reg >= 2 * env.ncap
    requires 0 < max < INT32_MAX && k.limit == max
    requires Checked(b, k)
    ensures var some := OutLoop(env, b, c, back, d1, p.init, k, max, Point(y.pos, Put(y.mem, k.reg, max)));
            AllHeads(env, b, c, p.init, if k.greedy then some + [y] else [y] + some, Repeat(env.sub, b, c, back, 0,
                max, k.greedy, s))
    decreases b, 4, 0, 0, 0
  {
    hide Match, OutLoop, RepeatAll, Moved, WellFormed, CountersFit, Count, AllSettled, DeadNull, Agrees, Simple,
        Checked;
    var z := Point(y.pos, Put(y.mem, k.reg, max));
    HeadsPut(env, b, c, p.init, y, s, k.reg, max);
    LoopFaithful(env, b, c, back, d1, p.init, k, max, max, z, s);
    var some := OutLoop(env, b, c, back, d1, p.init, k, max, z);
    var more := Iterations(env.sub, b, c, back, 0, max, k.greedy, s);
    if k.greedy {
      AppendHeads(env, b, c, p.init, some, more, [y], [s]);
    } else {
      AppendHeads(env, b, c, p.init, [y], [s], some, more);
    }
  }

  lemma {:induction false} RepeatedFaithful(env: Env, b: Node, c: nat, back: bool, d: nat, min: nat, max: nat,
      greedy: bool, p: Plan,
                                            x: Point, s: State)
    requires Fit(env, b, c) && Untouched(env, b, c, x, s) && 0 < min <= max <= INT32_MAX
    requires max == INT32_MAX ==> |env.sub.text| < INT32_MAX && (MustAdvance(b) || min + |env.sub.text| <= INT32_MAX)
    requires p == PlanOf(env.sub.alpha, b, c, back, min, max)
    ensures AllHeads(env, b, c, p.init, OutQuant(env, b, c, back, d, min, max, greedy, x),
                     Repeat(env.sub, b, c, back, min, max, greedy, s))
    decreases b, 5, 0, 0, 0
  {
    hide Out, Match, OutAtom, OutStar, OutStarAll, OutLoop, OutQuant, RepeatAll, WellFormed, CountersFit, Count,
        PlanOf, AllSettled,
         AllUndefined, DeadNull, Simple, Agrees, Checked, Moved;
    var d1 := d + Held(p, min, max);
    var reg := 2 * env.ncap + d;
    EntryHeads(env, b, c, back, min, max, p, false, x, s);
    assert Reset(false, c, Count(b), x.mem) == x.mem;
    RepeatedOut(env, b, c, back, d, min, max, greedy, x, p, d1);
    if min == 1 && max == INT32_MAX && !p.adv {
      AtomFaithful(env, b, c, back, d1, p.init, x, s);
      StarManyFaithful(env, b, c, back, d1, p, reg, greedy, OutAtom(env, b, c, back, d1, p.init, x),
                       Match(env.sub, b, c, back, Forget(s, b, c)));
    } else {
      var k := Counter(reg, p.adv, greedy, max - min);
      CheckedOf(env.sub.alpha, b, c, back, min, max, p, k);
      HeadsPut(env, b, c, p.init, x, s, reg, max);
      LoopFaithful(env, b, c, back, d1, p.init, k, max, max, Point(x.pos, Put(x.mem, reg, max)), s);
    }
  }
}

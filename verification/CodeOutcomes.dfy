/** The code generated for a node, wherever it is placed, produces exactly the outcomes that the
    denotation gives the node, in the same order, and then fails back into the older choice points.
    In particular every run of generated code ends. */
module CodeOutcomes {
  import opened RegexpSyntax
  import opened Bytecode
  import opened QuantCode
  import opened CodeGen
  import opened Machine
  import opened Denotation
  import opened DenotationFrame
  import opened Yields
  import opened QuantFlow
  import opened Advance
  import opened RegexpSemantics

  function EnvOf(m: Code): (r: Env) {
    Env(m.sub, m.ncap)
  }

  /** The registers the code of n uses: the nesting depth of its counted or checked loops. */
  function Depth(alpha: Alphabet, n: Node, c: nat, back: bool): (r: nat)
    requires WellFormed(n, CAPTURE_COUNT_MAX)
  {
    match n
    case Cat(l, r) => Max(Depth(alpha, l, c, back), Depth(alpha, r, c + Count(l), back))
    case Alt(l, r) => Max(Depth(alpha, l, c, back), Depth(alpha, r, c + Count(l), back))
    case Group(b) => Depth(alpha, b, c + 1, back)
    case Quant(b, min, max, _) =>
      if max == 0 then 0 else Held(PlanOf(alpha, b, c, back, min, max), min, max) + Depth(alpha, b, c, back)
    case Look(_, behind, b) => Depth(alpha, b, c, behind)
    case _ => 0
  }

  function Max(a: nat, b: nat): (r: nat) {
    if a > b then a else b
  }

  /** The memory has room for the captures and h registers. */
  predicate Fits(m: Code, x: Point, h: nat) {
    x.pos <= |m.sub.text| && |x.mem| >= 2 * m.ncap + h
  }

  /** Node n, numbered from c, belongs to a program with m.ncap groups. */
  predicate Belongs(m: Code, n: Node, c: nat) {
    WellFormed(n, CAPTURE_COUNT_MAX) && WellFormed(n, m.ncap) && c + Count(n) <= m.ncap
  }

  /** The code of n starts at address at and ends before end. */
  ghost predicate CodeAt(m: Code, n: Node, c: nat, back: bool, d: nat, at: int, end: int)
    requires WellFormed(n, CAPTURE_COUNT_MAX)
  {
    Placed(m.prog, at, Gen(m.sub.alpha, n, c, back, d)) && end == at + CodeSize(Gen(m.sub.alpha, n, c, back, d))
  }

  lemma {:induction false} ManyAppend(env: Env, n: Node, c: nat, back: bool, d: nat, rs: seq<Point>,
      fs: seq<seq<Point>>)
    requires WellFormed(n, CAPTURE_COUNT_MAX)
    requires |fs| == |rs| && forall i :: 0 <= i < |rs| ==> fs[i] == Out(env, n, c, back, d, rs[i])
    ensures Flatten(fs) == OutAll(env, n, c, back, d, rs)
    decreases |rs|
  {
    hide Gen, Out, Depth, Count, WellFormed, MustAdvance, Placed, CodeSize;
    if rs != [] {
      ManyAppend(env, n, c, back, d, rs[1..], fs[1..]);
    }
  }

  /** An outcome leaves as much room as there was before. */
  lemma {:induction false} OutFits(m: Code, n: Node, c: nat, back: bool, d: nat, x: Point, h: nat)
    requires Belongs(m, n, c) && Fits(m, x, h)
    ensures forall y :: y in Out(EnvOf(m), n, c, back, d, x) ==> Fits(m, y, h)
  {
    hide Gen, Out, Depth, Count, WellFormed, MustAdvance, Placed, CodeSize;
    forall y | y in Out(EnvOf(m), n, c, back, d, x) ensures Fits(m, y, h) {
      OutFramed(EnvOf(m), n, c, back, d, x, y);
    }
  }

  lemma {:induction false} PairFacts(m: Code, n: Node, c: nat, back: bool, d: nat, x: Point, l: Node, r: Node, cr: nat)
    requires n == Cat(l, r) || n == Alt(l, r)
    requires Belongs(m, n, c) && Fits(m, x, d + Depth(m.sub.alpha, n, c, back)) && cr == c + Count(l)
    ensures Belongs(m, l, c) && Fits(m, x, d + Depth(m.sub.alpha, l, c, back))
    ensures Belongs(m, r, cr) && Fits(m, x, d + Depth(m.sub.alpha, r, cr, back))
  {
    hide Gen, PlanOf, Out, Depth;
    if n.Cat? {
      DepthCat(m.sub.alpha, l, r, c, back);
    } else {
      DepthAlt(m.sub.alpha, l, r, c, back);
    }
  }

  lemma {:induction false} DepthCat(alpha: Alphabet, l: Node, r: Node, c: nat, back: bool)
    requires WellFormed(Cat(l, r), CAPTURE_COUNT_MAX)
    ensures Depth(alpha, Cat(l, r), c, back) == Max(Depth(alpha, l, c, back), Depth(alpha, r, c + Count(l), back))
  {
    hide Gen, PlanOf;
  }

  lemma {:induction false} DepthAlt(alpha: Alphabet, l: Node, r: Node, c: nat, back: bool)
    requires WellFormed(Alt(l, r), CAPTURE_COUNT_MAX)
    ensures Depth(alpha, Alt(l, r), c, back) == Max(Depth(alpha, l, c, back), Depth(alpha, r, c + Count(l), back))
  {
    hide Gen, PlanOf;
  }

  /** The theorem of this module. */
  lemma {:induction false} CodeProduces(m: Code, n: Node, c: nat, back: bool, d: nat, at: int, end: int, x: Point)
    requires Belongs(m, n, c) && Fits(m, x, d + Depth(m.sub.alpha, n, c, back))
    requires CodeAt(m, n, c, back, d, at, end)
    ensures Produces(m, at, x, end, Out(EnvOf(m), n, c, back, d, x))
    decreases n, 1, 0, 0
  {
    hide Produces;
    match n
    case Empty => ProducesHere(m, end, x);
    case Test(_) => TestProduces(m, n, c, back, d, at, end, x);
    case Assert(_) => AssertProduces(m, n, c, back, d, at, end, x);
    case BackRef(_, _) => BackRefProduces(m, n, c, back, d, at, end, x);
    case Cat(_, _) => CatProduces(m, n, c, back, d, at, end, x);
    case Alt(_, _) => AltProduces(m, n.l, n.r, c, back, d, at, end, x);
    case Group(_) => GroupProduces(m, n, c, back, d, at, end, x);
    case Quant(_, _, _, _) => QuantProduces(m, n, c, back, d, at, end, x);
    case Look(_, _, _) => LookProduces(m, n, c, back, d, at, end, x);
  }

  lemma {:induction false} AssertProduces(m: Code, n: Node, c: nat, back: bool, d: nat, at: int, end: int, x: Point)
    requires n.Assert? && x.pos <= |m.sub.text| && Belongs(m, n, c)
    requires CodeAt(m, n, c, back, d, at, end)
    ensures Produces(m, at, x, end, Out(EnvOf(m), n, c, back, d, x))
  {
    PlacedOne(m.prog, at, Check(n.a));
    if Asserts(m.sub, n.a, x.pos) {
      ProducesHere(m, end, x);
      ProducesMove(m, at, x, end, x, end, [x]);
    } else {
      ProducesFail(m, at, x, end);
    }
  }

  lemma {:induction false} BackRefProduces(m: Code, n: Node, c: nat, back: bool, d: nat, at: int, end: int, x: Point)
    requires n.BackRef? && x.pos <= |m.sub.text| && Belongs(m, n, c)
    requires CodeAt(m, n, c, back, d, at, end)
    ensures Produces(m, at, x, end, Out(EnvOf(m), n, c, back, d, x))
  {
    var i := BackReference(back, n.icase, n.groups);
    assert Gen(m.sub.alpha, n, c, back, d) == [i];
    PlacedOne(m.prog, at, i);
    var (a, b) := FirstSet(x.mem, n.groups);
    BackRefMoves(m, back, n.icase, n.groups, at, x, a, b, Compare(m.sub, a, b, n.icase, back, x.pos));
    ProducesStep(m, at, x, end, Out(EnvOf(m), n, c, back, d, x));
  }

  lemma {:induction false} BackRefMoves(m: Code, back: bool, icase: bool, groups: seq<nat>, at: int, x: Point, a: int,
      b: int, p: seq<nat>)
    requires at in m.prog && m.prog[at] == BackReference(back, icase, groups) && x.pos <= |m.sub.text|
    requires forall j :: 0 <= j < |groups| ==> groups[j] < m.ncap
    requires (a, b) == FirstSet(x.mem, groups) && p == Compare(m.sub, a, b, icase, back, x.pos)
    ensures if p == [] then Fails(m, at, x) else Moves(m, at, x, at + 2 + |groups|, Point(p[0], x.mem))
  {
    forall base: seq<Frame>
      ensures Step(m, At(at, x, base)) == if p == [] then Fail(base) else At(at + 2 + |groups|, Point(p[0], x.mem),
          base)
    {
      assert Step(m, At(at, x, base)) == Exec(m, m.prog[at], at + 2 + |groups|, x.pos, x.mem, base);
    }
  }

  lemma {:induction false} TestProduces(m: Code, n: Node, c: nat, back: bool, d: nat, at: int, end: int, x: Point)
    requires n.Test? && Belongs(m, n, c) && x.pos <= |m.sub.text|
    requires CodeAt(m, n, c, back, d, at, end)
    ensures Produces(m, at, x, end, Out(EnvOf(m), n, c, back, d, x))
  {
    var op := GenTest(m.sub.alpha, n.t);
    if back {
      assert [Prev, Single(op), Prev] == [Prev] + ([Single(op)] + [Prev]);
      PlacedCons(m.prog, at, Prev, [Single(op)] + [Prev]);
      PlacedCons(m.prog, at + 1, Single(op), [Prev]);
      PlacedOne(m.prog, at + 1 + OpSize(op), Prev);
      BackTest(m, op, at, x);
    } else {
      assert Gen(m.sub.alpha, n, c, back, d) == [Single(op)];
      PlacedOne(m.prog, at, Single(op));
      ForwardTest(m, op, at, x);
    }
  }

  lemma {:induction false} ForwardTest(m: Code, op: CharOp, at: int, x: Point)
    requires at in m.prog && m.prog[at] == Single(op) && x.pos <= |m.sub.text|
    ensures Produces(m, at, x, at + OpSize(op),
                     if x.pos < |m.sub.text| && OpAccepts(m.sub.alpha, op,
                         m.sub.text[x.pos]) then [x.(pos := x.pos + 1)] else [])
  {
    var end := at + OpSize(op);
    if x.pos < |m.sub.text| && OpAccepts(m.sub.alpha, op, m.sub.text[x.pos]) {
      var y := x.(pos := x.pos + 1);
      ProducesHere(m, end, y);
      ProducesMove(m, at, x, end, y, end, [y]);
    } else {
      ProducesFail(m, at, x, end);
    }
  }

  /** Backwards, the test is made between two steps back. */
  lemma {:induction false} BackTest(m: Code, op: CharOp, at: int, x: Point)
    requires at in m.prog && m.prog[at] == Prev && at + 1 in m.prog && m.prog[at + 1] == Single(op)
    requires at + 1 + OpSize(op) in m.prog && m.prog[at + 1 + OpSize(op)] == Prev && x.pos <= |m.sub.text|
    ensures Produces(m, at, x, at + 2 + OpSize(op),
                     if x.pos > 0 && OpAccepts(m.sub.alpha, op,
                         m.sub.text[x.pos - 1]) then [x.(pos := x.pos - 1)] else [])
  {
    var last := at + 1 + OpSize(op);
    if x.pos == 0 {
      ProducesFail(m, at, x, last + 1);
    } else {
      var y := x.(pos := x.pos - 1);
      if OpAccepts(m.sub.alpha, op, m.sub.text[y.pos]) {
        ProducesHere(m, last + 1, y);
        ProducesMove(m, last, x, last + 1, y, last + 1, [y]);
        ProducesMove(m, at + 1, y, last, x, last + 1, [y]);
        ProducesMove(m, at, x, at + 1, y, last + 1, [y]);
      } else {
        ProducesFail(m, at + 1, y, last + 1);
        ProducesMove(m, at, x, at + 1, y, last + 1, []);
      }
    }
  }

  lemma {:induction false} CatProduces(m: Code, n: Node, c: nat, back: bool, d: nat, at: int, end: int, x: Point)
    requires n.Cat? && Belongs(m, n, c) && Fits(m, x, d + Depth(m.sub.alpha, n, c, back))
    requires CodeAt(m, n, c, back, d, at, end)
    ensures Produces(m, at, x, end, Out(EnvOf(m), n, c, back, d, x))
    decreases n, 0, 1, 0
  {
    hide Depth, Belongs, Count, Produces, Placed, CodeSize;
    var cr := c + Count(n.l);
    PairFacts(m, n, c, back, d, x, n.l, n.r, cr);
    if back {
      TwoProduce(m, n, n.r, cr, n.l, c, back, d, at, end, x);
    } else {
      TwoProduce(m, n, n.l, c, n.r, cr, back, d, at, end, x);
    }
  }

  lemma {:induction false} TwoProduce(m: Code, n: Node, n1: Node, c1: nat, n2: Node, c2: nat, back: bool, d: nat,
      at: int, end: int, x: Point)
    requires n1 < n && n2 < n && Belongs(m, n1, c1) && Belongs(m, n2, c2)
    requires Fits(m, x, d + Depth(m.sub.alpha, n1, c1, back)) && Fits(m, x, d + Depth(m.sub.alpha, n2, c2, back))
    requires var code := Gen(m.sub.alpha, n1, c1, back, d) + Gen(m.sub.alpha, n2, c2, back, d);
             Placed(m.prog, at, code) && end == at + CodeSize(code)
    ensures Produces(m, at, x, end, OutAll(EnvOf(m), n2, c2, back, d, Out(EnvOf(m), n1, c1, back, d, x)))
    decreases n, 0, 0, 0
  {
    hide Gen, Out, Depth, Count, WellFormed, MustAdvance, Placed, CodeSize, Produces;
    var g1, g2 := Gen(m.sub.alpha, n1, c1, back, d), Gen(m.sub.alpha, n2, c2, back, d);
    PlacedConcat(m.prog, at, g1, g2);
    var mid := at + CodeSize(g1);
    var rs := Out(EnvOf(m), n1, c1, back, d, x);
    CodeProduces(m, n1, c1, back, d, at, mid, x);
    OutFits(m, n1, c1, back, d, x, d + Depth(m.sub.alpha, n2, c2, back));
    var fs := seq(|rs|, i requires 0 <= i < |rs| => Out(EnvOf(m), n2, c2, back, d, rs[i]));
    forall i | 0 <= i < |rs| ensures Produces(m, mid, rs[i], end, fs[i]) {
      CodeProduces(m, n2, c2, back, d, mid, end, rs[i]);
    }
    ProducesBind(m, at, x, mid, rs, end, fs);
    ManyAppend(EnvOf(m), n2, c2, back, d, rs, fs);
  }

  lemma {:induction false} AltProduces(m: Code, l: Node, r: Node, c: nat, back: bool, d: nat, at: int, end: int,
      x: Point)
    requires Belongs(m, Alt(l, r), c) && Fits(m, x, d + Depth(m.sub.alpha, Alt(l, r), c, back))
    requires CodeAt(m, Alt(l, r), c, back, d, at, end)
    ensures Produces(m, at, x, end, Out(EnvOf(m), Alt(l, r), c, back, d, x))
    decreases Alt(l, r), 0, 1, 0
  {
    hide Depth, Count, Produces, Placed, CodeSize, WellFormed, Gen, Out, AltForm;
    var cr := c + Count(l);
    PairFacts(m, Alt(l, r), c, back, d, x, l, r, cr);
    AltCode(m.sub.alpha, l, r, c, back, d);
    AltOut(EnvOf(m), l, r, c, back, d, x);
    AltRuns(m, Alt(l, r), l, r, c, cr, back, d, at, end, x);
  }

  lemma {:induction false} AltOut(env: Env, l: Node, r: Node, c: nat, back: bool, d: nat, x: Point)
    requires WellFormed(Alt(l, r), CAPTURE_COUNT_MAX)
    ensures Out(env, Alt(l, r), c, back, d, x) == Out(env, l, c, back, d, x) + Out(env, r, c + Count(l), back, d, x)
  {
    hide Count, OutAll, OutQuant, PutAll, FirstSet, Compare, GenTest, OpAccepts, WellFormed, Put;
  }

  lemma {:induction false} AltRuns(m: Code, n: Node, l: Node, r: Node, c: nat, cr: nat, back: bool, d: nat, at: int,
      end: int, x: Point)
    requires l < n && r < n && Belongs(m, l, c) && Belongs(m, r, cr)
    requires Fits(m, x, d + Depth(m.sub.alpha, l, c, back)) && Fits(m, x, d + Depth(m.sub.alpha, r, cr, back))
    requires var gl, gr := Gen(m.sub.alpha, l, c, back, d), Gen(m.sub.alpha, r, cr, back, d);
             var code := AltForm(gl, gr);
             Placed(m.prog, at, code) && end == at + CodeSize(code)
    ensures Produces(m, at, x, end, Out(EnvOf(m), l, c, back, d, x) + Out(EnvOf(m), r, cr, back, d, x))
    decreases n, 0, 0, 0
  {
    hide Gen, Out, Depth, Count, WellFormed, MustAdvance, Placed, CodeSize, Produces;
    var gl, gr := Gen(m.sub.alpha, l, c, back, d), Gen(m.sub.alpha, r, cr, back, d);
    var mid := AltPlaced(m, gl, gr, at, end);
    CodeProduces(m, l, c, back, d, at + 5, mid, x);
    CodeProduces(m, r, cr, back, d, mid + 5, end, x);
    OutFits(m, l, c, back, d, x, 0);
    AltFlow(m, at, mid, end, x, Out(EnvOf(m), l, c, back, d, x), Out(EnvOf(m), r, cr, back, d, x));
  }

  lemma {:induction false} AltPlaced(m: Code, gl: seq<Instr>, gr: seq<Instr>, at: int, end: int) returns (mid: int)
    requires var code := AltForm(gl, gr);
             Placed(m.prog, at, code) && end == at + CodeSize(code)
    ensures at in m.prog && m.prog[at] == Split(false, mid - at)
    ensures mid in m.prog && m.prog[mid] == Goto(end - (mid + 5))
    ensures Placed(m.prog, at + 5, gl) && mid == at + 5 + CodeSize(gl)
    ensures Placed(m.prog, mid + 5, gr) && end == mid + 5 + CodeSize(gr)
  {
    var split, jump := Split(false, CodeSize(gl) + 5), Goto(CodeSize(gr));
    PlacedConcat(m.prog, at, [split] + gl + [jump], gr);
    PlacedConcat(m.prog, at, [split] + gl, [jump]);
    PlacedConcat(m.prog, at, [split], gl);
    PlacedOne(m.prog, at, split);
    mid := at + 5 + CodeSize(gl);
    PlacedOne(m.prog, mid, jump);
  }

  lemma {:induction false} AltFlow(m: Code, at: int, mid: int, end: int, x: Point, left: seq<Point>, right: seq<Point>)
    requires at in m.prog && m.prog[at] == Split(false, mid - at)
    requires mid in m.prog && m.prog[mid] == Goto(end - (mid + 5))
    requires Produces(m, at + 5, x, mid, left) && Produces(m, mid + 5, x, end, right)
    requires x.pos <= |m.sub.text| && forall y :: y in left ==> y.pos <= |m.sub.text|
    ensures Produces(m, at, x, end, left + right)
  {
    forall i | 0 <= i < |left| ensures Moves(m, mid, left[i], end, left[i]) {
    }
    ProducesThen(m, at + 5, x, mid, left, end, left);
    ProducesSplit(m, at, x, false, mid + 5, end, right, left);
  }

  lemma {:induction false} GroupProduces(m: Code, n: Node, c: nat, back: bool, d: nat, at: int, end: int, x: Point)
    requires n.Group? && Belongs(m, n, c) && Fits(m, x, d + Depth(m.sub.alpha, n, c, back))
    requires CodeAt(m, n, c, back, d, at, end)
    ensures Produces(m, at, x, end, Out(EnvOf(m), n, c, back, d, x))
    decreases n, 0, 1, 0
  {
    hide Produces, Placed, CodeSize;
    if back {
      GroupRuns(m, n, n.body, c, back, d, SaveEnd(c), 2 * c + 1, SaveStart(c), 2 * c, at, end, x);
    } else {
      GroupRuns(m, n, n.body, c, back, d, SaveStart(c), 2 * c, SaveEnd(c), 2 * c + 1, at, end, x);
    }
  }

  lemma {:induction false} GroupRuns(m: Code, n: Node, b: Node, c: nat, back: bool, d: nat, first: Instr, k1: nat,
      last: Instr, k2: nat,
                                     at: int, end: int, x: Point)
    requires b < n && Belongs(m, b, c + 1) && c < m.ncap && Fits(m, x, d + Depth(m.sub.alpha, b, c + 1, back))
    requires Saves(first, c, k1) && Saves(last, c, k2)
    requires var code := [first] + Gen(m.sub.alpha, b, c + 1, back, d) + [last];
             Placed(m.prog, at, code) && end == at + CodeSize(code)
    ensures Produces(m, at, x, end, PutAll(Out(EnvOf(m), b, c + 1, back, d, Point(x.pos, Put(x.mem, k1, x.pos))), k2))
    decreases n, 0, 0, 0
  {
    hide Gen, Out, Depth, Count, WellFormed, MustAdvance, Placed, CodeSize, Produces;
    var g := Gen(m.sub.alpha, b, c + 1, back, d);
    var x1 := Point(x.pos, Put(x.mem, k1, x.pos));
    GroupPlaced(m, first, g, last, at);
    CodeProduces(m, b, c + 1, back, d, at + 2, at + 2 + CodeSize(g), x1);
    OutFits(m, b, c + 1, back, d, x1, 0);
    GroupFlow(m, at, at + 2 + CodeSize(g), c, first, k1, last, k2, x, Out(EnvOf(m), b, c + 1, back, d, x1));
  }

  /** Instruction i stores the position in memory cell k, one end of group c. */
  predicate Saves(i: Instr, c: nat, k: nat) {
    (i == SaveStart(c) && k == 2 * c) || (i == SaveEnd(c) && k == 2 * c + 1)
  }

  lemma {:induction false} GroupPlaced(m: Code, first: Instr, g: seq<Instr>, last: Instr, at: int)
    requires Placed(m.prog, at, [first] + g + [last]) && Size(first) == Size(last) == 2
    ensures at in m.prog && m.prog[at] == first && Placed(m.prog, at + 2, g)
    ensures at + 2 + CodeSize(g) in m.prog && m.prog[at + 2 + CodeSize(g)] == last
    ensures CodeSize([first] + g + [last]) == 4 + CodeSize(g)
  {
    PlacedConcat(m.prog, at, [first] + g, [last]);
    PlacedConcat(m.prog, at, [first], g);
    PlacedOne(m.prog, at, first);
    PlacedOne(m.prog, at + 2 + CodeSize(g), last);
  }

  lemma {:induction false} GroupFlow(m: Code, at: int, mid: int, c: nat, first: Instr, k1: nat, last: Instr, k2: nat,
      x: Point, rs: seq<Point>)
    requires at in m.prog && m.prog[at] == first && Saves(first, c, k1)
    requires mid in m.prog && m.prog[mid] == last && Saves(last, c, k2)
    requires c < m.ncap && Fits(m, x, 0) && forall y :: y in rs ==> Fits(m, y, 0)
    requires Produces(m, at + 2, Point(x.pos, Put(x.mem, k1, x.pos)), mid, rs)
    ensures Produces(m, at, x, mid + 2, PutAll(rs, k2))
  {
    var x1 := Point(x.pos, Put(x.mem, k1, x.pos));
    var ys := PutAll(rs, k2);
    forall i | 0 <= i < |rs| ensures Moves(m, mid, rs[i], mid + 2, ys[i]) {
      assert Fits(m, rs[i], 0);
    }
    ProducesThen(m, at + 2, x1, mid, rs, mid + 2, ys);
    ProducesMove(m, at, x, at + 2, x1, mid + 2, ys);
  }

  lemma {:induction false} LookProduces(m: Code, n: Node, c: nat, back: bool, d: nat, at: int, end: int, x: Point)
    requires n.Look? && Belongs(m, n, c) && Fits(m, x, d + Depth(m.sub.alpha, n, c, back))
    requires CodeAt(m, n, c, back, d, at, end)
    ensures Produces(m, at, x, end, Out(EnvOf(m), n, c, back, d, x))
    decreases n, 0, 1, 0
  {
    hide Produces, Placed, CodeSize;
    LookRuns(m, n, n.negated, n.behind, n.body, c, d, at, end, x);
  }

  lemma {:induction false} LookRuns(m: Code, n: Node, negated: bool, behind: bool, b: Node, c: nat, d: nat, at: int,
      end: int, x: Point)
    requires b < n && Belongs(m, b, c) && Fits(m, x, d + Depth(m.sub.alpha, b, c, behind))
    requires var g := Gen(m.sub.alpha, b, c, behind, d);
             var code := [LookAround(negated, CodeSize(g) + 1)] + g + [LookMatch(negated)];
             Placed(m.prog, at, code) && end == at + CodeSize(code)
    ensures Produces(m, at, x, end, LookResult(negated, x, Out(EnvOf(m), b, c, behind, d, x)))
    decreases n, 0, 0, 0
  {
    hide Gen, Out, Depth, Count, WellFormed, MustAdvance, Placed, CodeSize, Produces;
    var g := Gen(m.sub.alpha, b, c, behind, d);
    var mid := LookPlaced(m, negated, g, at, end);
    CodeProduces(m, b, c, behind, d, at + 5, mid, x);
    OutFits(m, b, c, behind, d, x, 0);
    var rs := Out(EnvOf(m), b, c, behind, d, x);
    assert rs != [] ==> rs[0] in rs;
    ProducesLook(m, negated, at, mid, end, x, rs);
  }

  lemma {:induction false} LookPlaced(m: Code, negated: bool, g: seq<Instr>, at: int, end: int) returns (mid: int)
    requires var code := [LookAround(negated, CodeSize(g) + 1)] + g + [LookMatch(negated)];
             Placed(m.prog, at, code) && end == at + CodeSize(code)
    ensures at in m.prog && m.prog[at] == LookAround(negated, end - (at + 5))
    ensures Placed(m.prog, at + 5, g) && mid == at + 5 + CodeSize(g) && end == mid + 1
    ensures mid in m.prog && m.prog[mid] == LookMatch(negated)
  {
    var look := LookAround(negated, CodeSize(g) + 1);
    PlacedConcat(m.prog, at, [look] + g, [LookMatch(negated)]);
    PlacedConcat(m.prog, at, [look], g);
    PlacedOne(m.prog, at, look);
    mid := at + 5 + CodeSize(g);
    PlacedOne(m.prog, mid, LookMatch(negated));
  }

  lemma {:induction false} AtomProduces(m: Code, b: Node, c: nat, back: bool, d1: nat, p: Plan, at: int, x: Point)
    requires Belongs(m, b, c) && Fits(m, x, d1 + Depth(m.sub.alpha, b, c, back)) && (p.init ==> Count(b) > 0)
    requires Placed(m.prog, at, GenAtom(m.sub.alpha, b, c, back, d1, p))
    ensures Produces(m, at, x, at + CodeSize(GenAtom(m.sub.alpha, b, c, back, d1, p)),
                     OutAtom(EnvOf(m), b, c, back, d1, p.init, x))
    decreases b, 2, 0, 0
  {
    hide Gen, Out, Depth, Count, WellFormed, MustAdvance, Placed, CodeSize, Produces;
    var code := Gen(m.sub.alpha, b, c, back, d1);
    PlacedWhen(m.prog, at, p.init, ResetOf(c, Count(b)), code);
    var at1 := at + (if p.init then 3 else 0);
    var end := at1 + CodeSize(code);
    CodeProduces(m, b, c, back, d1, at1, end, Point(x.pos, Reset(p.init, c, Count(b), x.mem)));
    ProducesReset(m, p.init, c, Count(b), at, x, end, OutAtom(EnvOf(m), b, c, back, d1, p.init, x));
  }

  /** What the atom leaves alone: the room, the registers held by the loop, the ground behind it. */
  lemma {:induction false} AtomKeeps(m: Code, b: Node, c: nat, back: bool, d1: nat, init: bool, x: Point, h: nat,
      y: Point)
    requires Belongs(m, b, c) && Fits(m, x, h)
    requires y in OutAtom(EnvOf(m), b, c, back, d1, init, x)
    ensures Fits(m, y, h) && |y.mem| == |x.mem| && Ahead(m.sub, back, x.pos, y.pos)
    ensures forall j :: 2 * m.ncap <= j < 2 * m.ncap + d1 && j < |x.mem| ==> y.mem[j] == x.mem[j]
  {
    hide Gen, Out, Depth, Count, WellFormed, MustAdvance, Placed, CodeSize;
    FramedSelf(EnvOf(m), c, Count(b), d1, back, x);
    AtomFramed(EnvOf(m), b, c, back, d1, init, d1, x, x, y);
  }

  lemma {:induction false} FlattenAdvanced(s: Subject, back: bool, rs: seq<Point>, pos: nat, fs: seq<seq<Point>>)
    requires |fs| == |rs|
    requires forall i :: 0 <= i < |rs| ==> fs[i] == if Dist(s, back, rs[i].pos) < Dist(s, back,
        pos) then [rs[i]] else []
    ensures Flatten(fs) == Advanced(s, back, rs, pos)
    decreases |rs|
  {
    if rs != [] {
      FlattenAdvanced(s, back, rs[1..], pos, fs[1..]);
    }
  }

  lemma {:induction false} OutStarAllCons(env: Env, b: Node, c: nat, back: bool, d1: nat, p: Plan, reg: int,
      greedy: bool, r: Point, rest: seq<Point>)
    requires WellFormed(b, CAPTURE_COUNT_MAX)
    ensures OutStarAll(env, b, c, back, d1, p, reg, greedy, [r] + rest)
            == OutStar(env, b, c, back, d1, p, reg, greedy, r) + OutStarAll(env, b, c, back, d1, p, reg, greedy, rest)
  {
    hide Gen, Out, Depth, Count, WellFormed, MustAdvance, Placed, CodeSize, OutStar, OutAtom;
    assert ([r] + rest)[1..] == rest;
  }

  lemma {:induction false} FlattenStar(env: Env, b: Node, c: nat, back: bool, d1: nat, p: Plan, reg: int, greedy: bool,
                                       x: Point, rs: seq<Point>, fs: seq<seq<Point>>)
    requires WellFormed(b, CAPTURE_COUNT_MAX) && |fs| == |rs|
    requires forall i :: 0 <= i < |rs| ==> fs[i] == StarRest(env, b, c, back, d1, p, reg, greedy, x, rs[i])
    ensures Flatten(fs) == OutStarAll(env, b, c, back, d1, p, reg, greedy, Advanced(env.sub, back, rs, x.pos))
    decreases |rs|
  {
    hide Gen, Out, Depth, Count, WellFormed, MustAdvance, Placed, CodeSize, OutStar, OutAtom;
    if rs != [] {
      FlattenStar(env, b, c, back, d1, p, reg, greedy, x, rs[1..], fs[1..]);
      var rest := Advanced(env.sub, back, rs[1..], x.pos);
      if Dist(env.sub, back, rs[0].pos) < Dist(env.sub, back, x.pos) {
        OutStarAllCons(env, b, c, back, d1, p, reg, greedy, rs[0], rest);
      } else {
        assert [] + rest == rest;
      }
    }
  }

  lemma {:induction false} FlattenNext(env: Env, b: Node, c: nat, back: bool, d1: nat, init: bool, k: Counter, v: nat,
      from: nat,
                                       rs: seq<Point>, fs: seq<seq<Point>>)
    requires WellFormed(b, CAPTURE_COUNT_MAX) && |fs| == |rs|
    requires forall i :: 0 <= i < |rs| ==> fs[i] == OutNext(env, b, c, back, d1, init, k, v, from, rs[i])
    ensures Flatten(fs) == OutNextAll(env, b, c, back, d1, init, k, v, from, rs)
    decreases |rs|
  {
    hide Gen, Out, Depth, Count, WellFormed, MustAdvance, Placed, CodeSize;
    if rs != [] {
      FlattenNext(env, b, c, back, d1, init, k, v, from, rs[1..], fs[1..]);
    }
  }

  /** The atom and the plan of a quantifier whose registers start at d and whose atom's start at d1. */
  ghost predicate Planned(m: Code, b: Node, c: nat, back: bool, p: Plan, h: nat, x: Point) {
    && Belongs(m, b, c) && (p.init ==> Count(b) > 0)
    && Fits(m, x, h + Depth(m.sub.alpha, b, c, back))
  }

  /** After one run of the atom from x the loop finds its registers as it left them; an outcome at
      the same position is told apart from an advance, by the check or by the analysis. */
  lemma {:induction false} AtomOutcome(m: Code, b: Node, c: nat, back: bool, d: nat, p: Plan, x: Point, r: Point)
    requires Planned(m, b, c, back, p, d + MarkRegs(p), x) && (!p.adv ==> MustAdvance(b))
    requires r in OutAtom(EnvOf(m), b, c, back, d + MarkRegs(p), p.init, Mark(p.adv, 2 * m.ncap + d, x))
    ensures Remembers(m, p, d, x.pos, r) && Planned(m, b, c, back, p, d + MarkRegs(p), r)
    ensures Dist(m.sub, back, r.pos) <= Dist(m.sub, back, x.pos)
    ensures Dist(m.sub, back, r.pos) < Dist(m.sub, back, x.pos) <==> !(p.adv && r.pos == x.pos)
  {
    hide Gen, Out, Depth, Count, WellFormed, MustAdvance, Placed, CodeSize;
    var d1 := d + MarkRegs(p);
    var y := Mark(p.adv, 2 * m.ncap + d, x);
    AtomKeeps(m, b, c, back, d1, p.init, y, d1 + Depth(m.sub.alpha, b, c, back), r);
    if !p.adv {
      AtomAdvances(EnvOf(m), b, c, back, d1, p.init, y, r);
    }
  }

  /** The code of b? or b* is placed from top to end. */
  ghost predicate StarCodeAt(m: Code, b: Node, c: nat, back: bool, d: nat, p: Plan, greedy: bool, star: bool, top: int,
      end: int)
    requires WellFormed(b, CAPTURE_COUNT_MAX)
  {
    var atom := GenAtom(m.sub.alpha, b, c, back, d + MarkRegs(p), p);
    StarAt(m, p, d, greedy, star, CodeSize(atom), top, end) && Placed(m.prog, top + 5 + MarkSize(p), atom)
  }

  lemma {:induction false} SkipProduces(m: Code, b: Node, c: nat, back: bool, d: nat, p: Plan, greedy: bool, top: int,
      end: int, x: Point)
    requires Planned(m, b, c, back, p, d + MarkRegs(p), x) && (!p.adv ==> MustAdvance(b))
    requires StarCodeAt(m, b, c, back, d, p, greedy, false, top, end)
    ensures var d1 := d + MarkRegs(p);
            var some := OutAtom(EnvOf(m), b, c, back, d1, p.init, Mark(p.adv, 2 * m.ncap + d, x));
            var kept := Advanced(m.sub, back, some, x.pos);
            Produces(m, top, x, end, if greedy then kept + [x] else [x] + kept)
    decreases b, 3, 0, 0
  {
    hide Gen, Out, Depth, Count, WellFormed, MustAdvance, Placed, CodeSize, Produces, OutAtom, GenAtom, Flatten,
        OutStar, OutStarAll,
         StarRest;
    var d1 := d + MarkRegs(p);
    var len := CodeSize(GenAtom(m.sub.alpha, b, c, back, d1, p));
    var y := Mark(p.adv, 2 * m.ncap + d, x);
    var a := top + 5 + MarkSize(p);
    AtomProduces(m, b, c, back, d1, p, a, y);
    var some := OutAtom(EnvOf(m), b, c, back, d1, p.init, y);
    var fs := seq(|some|, i requires 0 <= i < |some| =>
      if Dist(m.sub, back, some[i].pos) < Dist(m.sub, back, x.pos) then [some[i]] else []);
    forall i | 0 <= i < |some| ensures Produces(m, a + len, some[i], end, fs[i]) {
      AtomOutcome(m, b, c, back, d, p, x, some[i]);
      StarTail(m, p, d, greedy, false, len, top, end, x.pos, some[i], fs[i]);
    }
    StarFlow(m, p, d, greedy, false, len, top, end, x, some, fs);
    FlattenAdvanced(m.sub, back, some, x.pos, fs);
  }

  /** What an unbounded quantifier started at x makes of the outcome r of its atom. */
  function StarRest(env: Env, b: Node, c: nat, back: bool, d1: nat, p: Plan, reg: int, greedy: bool, x: Point,
      r: Point): (res: seq<Point>)
    requires WellFormed(b, CAPTURE_COUNT_MAX)
  {
    if Dist(env.sub, back, r.pos) < Dist(env.sub, back, x.pos) then OutStar(env, b, c, back, d1, p, reg, greedy,
        r) else []
  }

  lemma {:induction false} StarOnward(m: Code, b: Node, c: nat, back: bool, d: nat, p: Plan, greedy: bool, top: int,
      end: int,
                                      x: Point, r: Point)
    requires Planned(m, b, c, back, p, d + MarkRegs(p), x) && (!p.adv ==> MustAdvance(b))
    requires r in OutAtom(EnvOf(m), b, c, back, d + MarkRegs(p), p.init, Mark(p.adv, 2 * m.ncap + d, x))
    requires StarCodeAt(m, b, c, back, d, p, greedy, true, top, end)
    ensures var d1 := d + MarkRegs(p);
            Produces(m, top + 5 + MarkSize(p) + CodeSize(GenAtom(m.sub.alpha, b, c, back, d1, p)), r, end,
                     StarRest(EnvOf(m), b, c, back, d1, p, 2 * m.ncap + d, greedy, x, r))
    decreases b, 3, Dist(m.sub, back, x.pos), 0
  {
    hide Gen, Out, Depth, Count, WellFormed, MustAdvance, Placed, CodeSize, Produces;
    var d1 := d + MarkRegs(p);
    AtomOutcome(m, b, c, back, d, p, x, r);
    if Dist(m.sub, back, r.pos) < Dist(m.sub, back, x.pos) {
      StarProduces(m, b, c, back, d, p, greedy, top, end, r);
    }
    StarTail(m, p, d, greedy, true, CodeSize(GenAtom(m.sub.alpha, b, c, back, d1, p)), top, end, x.pos, r,
             StarRest(EnvOf(m), b, c, back, d1, p, 2 * m.ncap + d, greedy, x, r));
  }

  lemma {:induction false} StarProduces(m: Code, b: Node, c: nat, back: bool, d: nat, p: Plan, greedy: bool, top: int,
      end: int, x: Point)
    requires Planned(m, b, c, back, p, d + MarkRegs(p), x) && (!p.adv ==> MustAdvance(b))
    requires StarCodeAt(m, b, c, back, d, p, greedy, true, top, end)
    ensures Produces(m, top, x, end,
                     OutStar(EnvOf(m), b, c, back, d + MarkRegs(p), p, 2 * m.ncap + d, greedy, x))
    decreases b, 3, Dist(m.sub, back, x.pos), 1
  {
    hide Gen, Out, Depth, Count, WellFormed, MustAdvance, Placed, CodeSize, Produces, OutAtom, GenAtom, Flatten,
        OutStarAll, StarRest;
    var d1 := d + MarkRegs(p);
    var len := CodeSize(GenAtom(m.sub.alpha, b, c, back, d1, p));
    var reg := 2 * m.ncap + d;
    var y := Mark(p.adv, reg, x);
    var a := top + 5 + MarkSize(p);
    AtomProduces(m, b, c, back, d1, p, a, y);
    var some := OutAtom(EnvOf(m), b, c, back, d1, p.init, y);
    var fs := seq(|some|, i requires 0 <= i < |some| => StarRest(EnvOf(m), b, c, back, d1, p, reg, greedy, x, some[i]));
    forall i | 0 <= i < |some| ensures Produces(m, a + len, some[i], end, fs[i]) {
      StarOnward(m, b, c, back, d, p, greedy, top, end, x, some[i]);
    }
    StarFlow(m, p, d, greedy, true, len, top, end, x, some, fs);
    FlattenStar(EnvOf(m), b, c, back, d1, p, reg, greedy, x, some, fs);
  }

  /** The code of a counted loop over b is placed from top to end. */
  ghost predicate LoopCodeAt(m: Code, b: Node, c: nat, back: bool, d: nat, p: Plan, greedy: bool, exact: bool,
      limit: nat,
                             top: int, end: int)
    requires WellFormed(b, CAPTURE_COUNT_MAX)
  {
    var atom := GenAtom(m.sub.alpha, b, c, back, d + 1 + MarkRegs(p), p);
    LoopAt(m, p, d, greedy, exact, limit, CodeSize(atom), top, end) && Placed(m.prog, top + MarkSize(p), atom)
  }

  lemma {:induction false} LoopOnward(m: Code, b: Node, c: nat, back: bool, d: nat, p: Plan, greedy: bool, exact: bool,
      limit: nat,
                                      top: int, end: int, v: nat, x: Point, r: Point)
    requires Planned(m, b, c, back, p, d + 1 + MarkRegs(p), x)
    requires v < INT32_MAX && x.mem[2 * m.ncap + d] == v + 1
    requires LoopCodeAt(m, b, c, back, d, p, greedy, exact, limit, top, end)
    requires r in OutAtom(EnvOf(m), b, c, back, d + 1 + MarkRegs(p), p.init, Mark(p.adv, 2 * m.ncap + d + 1, x))
    ensures var d1 := d + 1 + MarkRegs(p);
            Produces(m, top + MarkSize(p) + CodeSize(GenAtom(m.sub.alpha, b, c, back, d1, p)), r, end,
                     OutNext(EnvOf(m), b, c, back, d1, p.init, Counter(2 * m.ncap + d, p.adv, greedy, limit), v, x.pos,
                         r))
    decreases b, 3, v, 1
  {
    hide Gen, Out, Depth, Count, WellFormed, MustAdvance, Placed, CodeSize, Produces;
    var d1 := d + 1 + MarkRegs(p);
    var k := Counter(2 * m.ncap + d, p.adv, greedy, limit);
    LoopOutcome(m, b, c, back, d, p, v, x, r);
    var more := [];
    if v > 0 {
      var z := Point(r.pos, Put(r.mem, k.reg, v));
      LoopProduces(m, b, c, back, d, p, greedy, exact, limit, top, end, v, z);
      more := OutLoop(EnvOf(m), b, c, back, d1, p.init, k, v, z);
    }
    LoopTail(m, p, d, greedy, exact, limit, CodeSize(GenAtom(m.sub.alpha, b, c, back, d1, p)), top, end, v, x.pos, r,
        more);
  }

  /** After one run of the atom a counted loop finds its registers as it left them. */
  lemma {:induction false} LoopOutcome(m: Code, b: Node, c: nat, back: bool, d: nat, p: Plan, v: nat, x: Point,
      r: Point)
    requires Planned(m, b, c, back, p, d + 1 + MarkRegs(p), x)
    requires v < INT32_MAX && x.mem[2 * m.ncap + d] == v + 1
    requires r in OutAtom(EnvOf(m), b, c, back, d + 1 + MarkRegs(p), p.init, Mark(p.adv, 2 * m.ncap + d + 1, x))
    ensures Counts(m, p, d, v, x.pos, r) && Planned(m, b, c, back, p, d + 1 + MarkRegs(p), r)
  {
    hide Gen, Out, Depth, Count, WellFormed, MustAdvance, Placed, CodeSize;
    var d1 := d + 1 + MarkRegs(p);
    var y := Mark(p.adv, 2 * m.ncap + d + 1, x);
    AtomKeeps(m, b, c, back, d1, p.init, y, d1 + Depth(m.sub.alpha, b, c, back), r);
    assert y.mem[2 * m.ncap + d] == r.mem[2 * m.ncap + d];
  }

  lemma {:induction false} LoopProduces(m: Code, b: Node, c: nat, back: bool, d: nat, p: Plan, greedy: bool,
      exact: bool, limit: nat,
                                        top: int, end: int, v: nat, x: Point)
    requires Planned(m, b, c, back, p, d + 1 + MarkRegs(p), x)
    requires 0 < v <= INT32_MAX && x.mem[2 * m.ncap + d] == v
    requires LoopCodeAt(m, b, c, back, d, p, greedy, exact, limit, top, end)
    ensures Produces(m, top, x, end,
                     OutLoop(EnvOf(m), b, c, back, d + 1 + MarkRegs(p), p.init,
                             Counter(2 * m.ncap + d, p.adv, greedy, limit), v, x))
    decreases b, 3, v, 0
  {
    hide Gen, Out, Depth, Count, WellFormed, MustAdvance, Placed, CodeSize, Produces, OutAtom, GenAtom, Flatten,
        OutNext, OutNextAll;
    var d1 := d + 1 + MarkRegs(p);
    var len := CodeSize(GenAtom(m.sub.alpha, b, c, back, d1, p));
    var k := Counter(2 * m.ncap + d, p.adv, greedy, limit);
    var y := Mark(p.adv, k.reg + 1, x);
    AtomProduces(m, b, c, back, d1, p, top + MarkSize(p), y);
    var some := OutAtom(EnvOf(m), b, c, back, d1, p.init, y);
    var fs := seq(|some|, i requires 0 <= i < |some| =>
      OutNext(EnvOf(m), b, c, back, d1, p.init, k, v - 1, x.pos, some[i]));
    forall i | 0 <= i < |some| ensures Produces(m, top + MarkSize(p) + len, some[i], end, fs[i]) {
      LoopOnward(m, b, c, back, d, p, greedy, exact, limit, top, end, v - 1, x, some[i]);
    }
    LoopFlow(m, p, d + 1, len, top, end, x, some, fs);
    FlattenNext(EnvOf(m), b, c, back, d1, p.init, k, v - 1, x.pos, some, fs);
  }

  /** b+ when no check is needed: the atom, and a split back to it. */
  ghost predicate PlusCodeAt(m: Code, b: Node, c: nat, back: bool, d: nat, p: Plan, greedy: bool, top: int, end: int)
    requires WellFormed(b, CAPTURE_COUNT_MAX)
  {
    var atom := GenAtom(m.sub.alpha, b, c, back, d, p);
    var mid := top + CodeSize(atom);
    Placed(m.prog, top, atom) && mid in m.prog && m.prog[mid] == Split(greedy, top - end) && end == mid + 5
  }

  lemma {:induction false} PlusProduces(m: Code, b: Node, c: nat, back: bool, d: nat, p: Plan, greedy: bool, top: int,
      end: int, x: Point)
    requires Planned(m, b, c, back, p, d, x) && !p.adv && MustAdvance(b)
    requires PlusCodeAt(m, b, c, back, d, p, greedy, top, end)
    ensures Produces(m, end - 5, x, end, OutStar(EnvOf(m), b, c, back, d, p, 2 * m.ncap + d, greedy, x))
    decreases b, 3, Dist(m.sub, back, x.pos), 0
  {
    hide Gen, Out, Depth, Count, WellFormed, MustAdvance, Placed, CodeSize, Produces, OutAtom, GenAtom, Flatten,
        OutStarAll;
    var reg := 2 * m.ncap + d;
    var some := OutAtom(EnvOf(m), b, c, back, d, p.init, x);
    AtomProduces(m, b, c, back, d, p, top, x);
    var fs := seq(|some|, i requires 0 <= i < |some| => StarRest(EnvOf(m), b, c, back, d, p, reg, greedy, x, some[i]));
    forall i | 0 <= i < |some| ensures Produces(m, end - 5, some[i], end, fs[i]) {
      AtomOutcome(m, b, c, back, d, p, x, some[i]);
      PlusProduces(m, b, c, back, d, p, greedy, top, end, some[i]);
    }
    FlattenStar(EnvOf(m), b, c, back, d, p, reg, greedy, x, some, fs);
    PlusSplit(m, greedy, top, end, x, some, fs);
  }

  lemma {:induction false} PlusSplit(m: Code, greedy: bool, top: int, end: int, x: Point, some: seq<Point>,
      fs: seq<seq<Point>>)
    requires end - 5 in m.prog && m.prog[end - 5] == Split(greedy, top - end) && x.pos <= |m.sub.text|
    requires Produces(m, top, x, end - 5, some)
    requires |fs| == |some| && forall i :: 0 <= i < |some| ==> Produces(m, end - 5, some[i], end, fs[i])
    ensures Produces(m, end - 5, x, end, if greedy then Flatten(fs) + [x] else [x] + Flatten(fs))
  {
    ProducesBind(m, top, x, end - 5, some, end, fs);
    ProducesHere(m, end, x);
    ProducesSplit(m, end - 5, x, greedy, top, end, Flatten(fs), [x]);
  }

  lemma {:induction false} PlusRuns(m: Code, b: Node, c: nat, back: bool, d: nat, p: Plan, greedy: bool, top: int,
      end: int, x: Point)
    requires Planned(m, b, c, back, p, d, x) && !p.adv && MustAdvance(b)
    requires PlusCodeAt(m, b, c, back, d, p, greedy, top, end)
    ensures Produces(m, top, x, end, OutStarAll(EnvOf(m), b, c, back, d, p, 2 * m.ncap + d, greedy,
                                                OutAtom(EnvOf(m), b, c, back, d, p.init, x)))
    decreases b, 4, 0, 0
  {
    hide Gen, Out, Depth, Count, WellFormed, MustAdvance, Placed, CodeSize, Produces, OutAtom, GenAtom, Flatten,
        OutStar, OutStarAll,
         StarRest;
    var reg := 2 * m.ncap + d;
    var some := OutAtom(EnvOf(m), b, c, back, d, p.init, x);
    AtomProduces(m, b, c, back, d, p, top, x);
    var fs := seq(|some|, i requires 0 <= i < |some| => OutStar(EnvOf(m), b, c, back, d, p, reg, greedy, some[i]));
    forall i | 0 <= i < |some| ensures Produces(m, end - 5, some[i], end, fs[i]) {
      AtomOutcome(m, b, c, back, d, p, x, some[i]);
      PlusProduces(m, b, c, back, d, p, greedy, top, end, some[i]);
    }
    ProducesBind(m, top, x, end - 5, some, end, fs);
    FlattenStars(EnvOf(m), b, c, back, d, p, reg, greedy, some, fs);
  }

  lemma {:induction false} FlattenStars(env: Env, b: Node, c: nat, back: bool, d1: nat, p: Plan, reg: int, greedy: bool,
                                        rs: seq<Point>, fs: seq<seq<Point>>)
    requires WellFormed(b, CAPTURE_COUNT_MAX) && |fs| == |rs|
    requires forall i :: 0 <= i < |rs| ==> fs[i] == OutStar(env, b, c, back, d1, p, reg, greedy, rs[i])
    ensures Flatten(fs) == OutStarAll(env, b, c, back, d1, p, reg, greedy, rs)
    decreases |rs|
  {
    hide Gen, Out, Depth, Count, WellFormed, MustAdvance, Placed, CodeSize;
    if rs != [] {
      FlattenStars(env, b, c, back, d1, p, reg, greedy, rs[1..], fs[1..]);
    }
  }

  /** The form of a quantifier's code, with the registers of its atom counted from d. */
  lemma {:induction false} QuantShape(alpha: Alphabet, b: Node, c: nat, back: bool, d: nat, min: nat, max: nat,
      greedy: bool, p: Plan, d1: nat)
    requires WellFormed(b, CAPTURE_COUNT_MAX) && min <= max && p == PlanOf(alpha, b, c, back, min, max)
    requires d1 == d + Held(p, min, max)
    ensures GenQuant(alpha, b, c, back, d, min, max, greedy) ==
            QuantForm(p, d, greedy, min, max, When(p.once, ResetOf(c, Count(b))), GenAtom(alpha, b, c, back, d1, p))
  {
    hide Gen, Count, WellFormed, GenAtom, PlanOf;
  }

  /** The counted loop, from the instruction that loads the counter. */
  lemma {:induction false} CountedProduces(m: Code, b: Node, max: nat, greedy: bool, c: nat, back: bool, d: nat,
      at: int, end: int, x: Point, p: Plan,
                                           limit: nat, exact: bool)
    requires Planned(m, b, c, back, p, d + 1 + MarkRegs(p), x)
    requires 0 < max <= INT32_MAX && (exact ==> limit == 0 && !p.adv)
    requires at in m.prog && m.prog[at] == SetI32(d, max)
    requires LoopCodeAt(m, b, c, back, d, p, greedy, exact, limit, at + 6, end)
    ensures Produces(m, at, x, end,
                     OutLoop(EnvOf(m), b, c, back, d + 1 + MarkRegs(p), p.init,
                             Counter(2 * m.ncap + d, p.adv, greedy, limit), max,
                             Point(x.pos, Put(x.mem, 2 * m.ncap + d, max))))
    decreases b, 4, 0, 0
  {
    hide Gen, Out, Depth, Count, WellFormed, MustAdvance, Placed, CodeSize, Produces;
    var d1 := d + 1 + MarkRegs(p);
    var y := Point(x.pos, Put(x.mem, 2 * m.ncap + d, max));
    LoopProduces(m, b, c, back, d, p, greedy, exact, limit, at + 6, end, max, y);
    ProducesSet(m, at, x, d, max, end,
                OutLoop(EnvOf(m), b, c, back, d1, p.init, Counter(2 * m.ncap + d, p.adv, greedy, limit), max, y));
  }

  /** A quantifier as it is placed from at to end. */
  ghost predicate QuantAt(m: Code, b: Node, c: nat, back: bool, d: nat, min: nat, max: nat, greedy: bool, p: Plan,
      at: int, end: int) {
    && Belongs(m, b, c) && min <= max <= INT32_MAX && p == PlanOf(m.sub.alpha, b, c, back, min, max)
    && var code := GenQuant(m.sub.alpha, b, c, back, d, min, max, greedy);
       Placed(m.prog, at, code) && end == at + CodeSize(code)
  }

  /** The reset that is made once, before the quantifier proper. */
  ghost predicate ResetAt(m: Code, b: Node, c: nat, p: Plan, at: int) {
    && (p.once ==> at in m.prog && m.prog[at] == ResetOf(c, Count(b)) && Count(b) > 0)
    && (p.init ==> Count(b) > 0)
    && c + Count(b) <= m.ncap
  }

  lemma {:induction false} PlanFacts(alpha: Alphabet, b: Node, c: nat, back: bool, min: nat, max: nat)
    requires WellFormed(b, CAPTURE_COUNT_MAX)
    ensures var p := PlanOf(alpha, b, c, back, min, max);
            && (p.init ==> Count(b) > 0) && (p.once ==> Count(b) > 0 && min == 0)
            && (min > 0 && min == max ==> !p.adv)
  {
    hide Gen, WellFormed;
  }

  /** Without a check, the atom advances or none of its iterations is optional. */
  lemma {:induction false} PlanAdvances(alpha: Alphabet, b: Node, c: nat, back: bool, min: nat, max: nat)
    requires WellFormed(b, CAPTURE_COUNT_MAX)
    ensures var p := PlanOf(alpha, b, c, back, min, max); p.adv || MustAdvance(b) || (min > 0 && min == max)
  {
    hide Gen, WellFormed, MustAdvance, Count;
    if !NeedCheckAdv(Gen(alpha, b, c, back, -1)) {
      AnalysisMustAdvance(alpha, b, c, back, -1);
    }
  }

  lemma {:induction false} SkipCodePlaced(m: Code, b: Node, c: nat, back: bool, d: nat, greedy: bool, p: Plan, at: int,
      end: int)
    requires QuantAt(m, b, c, back, d, 0, 1, greedy, p, at, end)
    ensures ResetAt(m, b, c, p, at)
    ensures StarCodeAt(m, b, c, back, d, p, greedy, false, at + OnceSize(p), end)
  {
    hide Gen, Out, Depth, Count, WellFormed, MustAdvance, Placed, CodeSize, GenAtom, GenQuant, PlanOf, SkipCode,
        StarCode,
         LoopCode, CloseOf, StarAt, LoopAt, When;
    PlanFacts(m.sub.alpha, b, c, back, 0, 1);
    var d1 := d + MarkRegs(p);
    assert d1 == d + Held(p, 0, 1);
    QuantShape(m.sub.alpha, b, c, back, d, 0, 1, greedy, p, d1);
    var atom := GenAtom(m.sub.alpha, b, c, back, d1, p);
    PlacedWhen(m.prog, at, p.once, ResetOf(c, Count(b)), SkipCode(p, d, greedy, atom));
    SkipPlaced(m, p, d, greedy, atom, at + OnceSize(p));
  }

  lemma {:induction false} StarCodePlaced(m: Code, b: Node, c: nat, back: bool, d: nat, greedy: bool, p: Plan, at: int,
      end: int)
    requires QuantAt(m, b, c, back, d, 0, INT32_MAX, greedy, p, at, end)
    ensures ResetAt(m, b, c, p, at)
    ensures StarCodeAt(m, b, c, back, d, p, greedy, true, at + OnceSize(p), end)
  {
    hide Gen, Out, Depth, Count, WellFormed, MustAdvance, Placed, CodeSize, GenAtom, GenQuant, PlanOf, SkipCode,
        StarCode,
         LoopCode, CloseOf, StarAt, LoopAt, When;
    PlanFacts(m.sub.alpha, b, c, back, 0, INT32_MAX);
    var d1 := d + MarkRegs(p);
    assert d1 == d + Held(p, 0, INT32_MAX);
    QuantShape(m.sub.alpha, b, c, back, d, 0, INT32_MAX, greedy, p, d1);
    var atom := GenAtom(m.sub.alpha, b, c, back, d1, p);
    PlacedWhen(m.prog, at, p.once, ResetOf(c, Count(b)), StarCode(p, d, greedy, atom));
    StarPlaced(m, p, d, greedy, atom, at + OnceSize(p));
  }

  /** The code of b{0,max} is placed from at to end. */
  ghost predicate BoundedCodeAt(m: Code, b: Node, c: nat, back: bool, d: nat, p: Plan, greedy: bool, max: nat, at: int,
      end: int)
    requires WellFormed(b, CAPTURE_COUNT_MAX)
  {
    && at in m.prog && m.prog[at] == Split(!greedy, end - (at + 5))
    && at + 5 in m.prog && m.prog[at + 5] == SetI32(d, max)
    && LoopCodeAt(m, b, c, back, d, p, greedy, false, max, at + 11, end)
  }

  lemma {:induction false} BoundedCodePlaced(m: Code, b: Node, c: nat, back: bool, d: nat, max: nat, greedy: bool,
      p: Plan, at: int, end: int)
    requires QuantAt(m, b, c, back, d, 0, max, greedy, p, at, end) && 1 < max < INT32_MAX
    ensures ResetAt(m, b, c, p, at)
    ensures BoundedCodeAt(m, b, c, back, d, p, greedy, max, at + OnceSize(p), end)
  {
    hide Gen, Out, Depth, Count, WellFormed, MustAdvance, Placed, CodeSize, GenAtom, GenQuant, PlanOf, SkipCode,
        StarCode,
         LoopCode, CloseOf, StarAt, LoopAt, When;
    PlanFacts(m.sub.alpha, b, c, back, 0, max);
    var d1 := d + 1 + MarkRegs(p);
    assert d1 == d + Held(p, 0, max);
    QuantShape(m.sub.alpha, b, c, back, d, 0, max, greedy, p, d1);
    var atom := GenAtom(m.sub.alpha, b, c, back, d1, p);
    var loop := LoopCode(p, d, max, atom, CloseOf(p, d, greedy, false, max, atom));
    var split := Split(!greedy, CodeSize(loop));
    var at1 := at + OnceSize(p);
    PlacedWhen(m.prog, at, p.once, ResetOf(c, Count(b)), [split] + loop);
    PlacedCons(m.prog, at1, split, loop);
    LoopPlaced(m, p, d, greedy, false, max, max, atom, at1 + 5);
  }

  lemma {:induction false} CountedCodePlaced(m: Code, b: Node, c: nat, back: bool, d: nat, min: nat, max: nat,
      greedy: bool, p: Plan, at: int, end: int)
    requires QuantAt(m, b, c, back, d, min, max, greedy, p, at, end)
    requires min > 0 && !(min == 1 && max == INT32_MAX && !p.adv)
    ensures ResetAt(m, b, c, p, at) && !p.once && (min == max ==> !p.adv)
    ensures at in m.prog && m.prog[at] == SetI32(d, max)
    ensures LoopCodeAt(m, b, c, back, d, p, greedy, min == max, max - min, at + 6, end)
  {
    hide Gen, Out, Depth, Count, WellFormed, MustAdvance, Placed, CodeSize, GenAtom, GenQuant, PlanOf, SkipCode,
        StarCode,
         LoopCode, CloseOf, StarAt, LoopAt, When;
    PlanFacts(m.sub.alpha, b, c, back, min, max);
    var d1 := d + 1 + MarkRegs(p);
    assert d1 == d + Held(p, min, max);
    QuantShape(m.sub.alpha, b, c, back, d, min, max, greedy, p, d1);
    LoopPlaced(m, p, d, greedy, min == max, max, max - min, GenAtom(m.sub.alpha, b, c, back, d1, p), at);
  }

  lemma {:induction false} PlusPlaced(m: Code, b: Node, c: nat, back: bool, d: nat, greedy: bool, p: Plan, at: int,
      end: int)
    requires QuantAt(m, b, c, back, d, 1, INT32_MAX, greedy, p, at, end) && !p.adv
    ensures ResetAt(m, b, c, p, at) && PlusCodeAt(m, b, c, back, d, p, greedy, at, end)
  {
    hide Gen, Out, Depth, Count, WellFormed, MustAdvance, Placed, CodeSize, GenAtom, GenQuant, PlanOf, SkipCode,
        StarCode,
         LoopCode, CloseOf, StarAt, LoopAt, When;
    PlanFacts(m.sub.alpha, b, c, back, 1, INT32_MAX);
    QuantShape(m.sub.alpha, b, c, back, d, 1, INT32_MAX, greedy, p, d);
    var atom := GenAtom(m.sub.alpha, b, c, back, d, p);
    var split := Split(greedy, -(CodeSize(atom) + 5));
    PlacedConcat(m.prog, at, atom, [split]);
    PlacedOne(m.prog, at + CodeSize(atom), split);
  }

  lemma {:induction false} SkipRuns(m: Code, b: Node, c: nat, back: bool, d: nat, p: Plan, greedy: bool, at: int,
      end: int, x: Point)
    requires WellFormed(b, CAPTURE_COUNT_MAX) && ResetAt(m, b, c, p, at) && p == PlanOf(m.sub.alpha, b, c, back, 0,
        1) && (!p.adv ==> MustAdvance(b))
    requires StarCodeAt(m, b, c, back, d, p, greedy, false, at + OnceSize(p), end)
    requires Planned(m, b, c, back, p, d + MarkRegs(p), x)
    ensures Produces(m, at, x, end, OutQuant(EnvOf(m), b, c, back, d, 0, 1, greedy, x))
    decreases b, 4, 0, 0
  {
    hide Gen, Out, Depth, Count, WellFormed, MustAdvance, Placed, CodeSize, Produces, StarCodeAt, OutQuant, PlanOf,
        OutAtom, Advanced;
    var y := Point(x.pos, Reset(p.once, c, Count(b), x.mem));
    OptionalOut(EnvOf(m), b, c, back, d, 1, greedy, x, p, d + Held(p, 0, 1), y);
    SkipProduces(m, b, c, back, d, p, greedy, at + OnceSize(p), end, y);
    ProducesReset(m, p.once, c, Count(b), at, x, end, OutQuant(EnvOf(m), b, c, back, d, 0, 1, greedy, x));
  }

  lemma {:induction false} StarRuns(m: Code, b: Node, c: nat, back: bool, d: nat, p: Plan, greedy: bool, at: int,
      end: int, x: Point)
    requires WellFormed(b, CAPTURE_COUNT_MAX) && ResetAt(m, b, c, p, at) && p == PlanOf(m.sub.alpha, b, c, back, 0,
        INT32_MAX) && (!p.adv ==> MustAdvance(b))
    requires StarCodeAt(m, b, c, back, d, p, greedy, true, at + OnceSize(p), end)
    requires Planned(m, b, c, back, p, d + MarkRegs(p), x)
    ensures Produces(m, at, x, end, OutQuant(EnvOf(m), b, c, back, d, 0, INT32_MAX, greedy, x))
    decreases b, 4, 0, 0
  {
    hide Gen, Out, Depth, Count, WellFormed, MustAdvance, Placed, CodeSize, Produces, StarCodeAt, OutQuant, PlanOf,
        OutStar;
    var y := Point(x.pos, Reset(p.once, c, Count(b), x.mem));
    OptionalOut(EnvOf(m), b, c, back, d, INT32_MAX, greedy, x, p, d + Held(p, 0, INT32_MAX), y);
    StarProduces(m, b, c, back, d, p, greedy, at + OnceSize(p), end, y);
    ProducesReset(m, p.once, c, Count(b), at, x, end, OutQuant(EnvOf(m), b, c, back, d, 0, INT32_MAX, greedy, x));
  }

  lemma {:induction false} BoundedRuns(m: Code, b: Node, max: nat, c: nat, back: bool, d: nat, p: Plan, greedy: bool,
      at: int, end: int, x: Point)
    requires WellFormed(b, CAPTURE_COUNT_MAX) && ResetAt(m, b, c, p, at) && p == PlanOf(m.sub.alpha, b, c, back, 0,
        max) && 1 < max < INT32_MAX
    requires BoundedCodeAt(m, b, c, back, d, p, greedy, max, at + OnceSize(p), end)
    requires Planned(m, b, c, back, p, d + 1 + MarkRegs(p), x)
    ensures Produces(m, at, x, end, OutQuant(EnvOf(m), b, c, back, d, 0, max, greedy, x))
    decreases b, 5, 0, 0
  {
    hide Gen, Out, Depth, Count, WellFormed, MustAdvance, Placed, CodeSize, Produces, LoopCodeAt, OutQuant, PlanOf,
        OutLoop;
    var y := Point(x.pos, Reset(p.once, c, Count(b), x.mem));
    var d1 := d + 1 + MarkRegs(p);
    assert d1 == d + Held(p, 0, max);
    OptionalOut(EnvOf(m), b, c, back, d, max, greedy, x, p, d1, y);
    var at1 := at + OnceSize(p);
    CountedProduces(m, b, max, greedy, c, back, d, at1 + 5, end, y, p, max, false);
    ProducesHere(m, end, y);
    var some := OutLoop(EnvOf(m), b, c, back, d1, p.init, Counter(2 * m.ncap + d, p.adv, greedy, max), max,
                        Point(y.pos, Put(y.mem, 2 * m.ncap + d, max)));
    ProducesSplit(m, at1, y, !greedy, end, end, [y], some);
    ProducesReset(m, p.once, c, Count(b), at, x, end, OutQuant(EnvOf(m), b, c, back, d, 0, max, greedy, x));
  }

  lemma {:induction false} ErasedRuns(m: Code, b: Node, c: nat, back: bool, d: nat, p: Plan, greedy: bool, at: int,
      end: int, x: Point)
    requires QuantAt(m, b, c, back, d, 0, 0, greedy, p, at, end) && Fits(m, x, d)
    ensures Produces(m, at, x, end, OutQuant(EnvOf(m), b, c, back, d, 0, 0, greedy, x))
  {
    hide Gen, Out, Depth, Count, WellFormed, MustAdvance, Placed, CodeSize, Produces, OutQuant, GenQuant, PlanOf;
    var y := Point(x.pos, Reset(p.once, c, Count(b), x.mem));
    QuantShape(m.sub.alpha, b, c, back, d, 0, 0, greedy, p, d + Held(p, 0, 0));
    OptionalOut(EnvOf(m), b, c, back, d, 0, greedy, x, p, d + Held(p, 0, 0), y);
    if p.once {
      PlacedOne(m.prog, at, ResetOf(c, Count(b)));
    }
    PlanFacts(m.sub.alpha, b, c, back, 0, 0);
    ProducesHere(m, end, y);
    ProducesReset(m, p.once, c, Count(b), at, x, end, [y]);
  }

  lemma {:induction false} QuantProduces(m: Code, n: Node, c: nat, back: bool, d: nat, at: int, end: int, x: Point)
    requires n.Quant? && Belongs(m, n, c) && Fits(m, x, d + Depth(m.sub.alpha, n, c, back))
    requires CodeAt(m, n, c, back, d, at, end)
    ensures Produces(m, at, x, end, Out(EnvOf(m), n, c, back, d, x))
    decreases n, 0, 0, 0
  {
    hide Produces, GenQuant, OutQuant, PlanOf, Placed, CodeSize;
    var p := PlanOf(m.sub.alpha, n.body, c, back, n.min, n.max);
    if n.min == 0 {
      OptionalProduces(m, n.body, n.max, n.greedy, c, back, d, at, end, x, p);
    } else {
      RepeatedProduces(m, n.body, n.min, n.max, n.greedy, c, back, d, at, end, x, p);
    }
  }

  lemma {:induction false} RepeatedProduces(m: Code, b: Node, min: nat, max: nat, greedy: bool, c: nat, back: bool,
      d: nat, at: int, end: int,
                                            x: Point, p: Plan)
    requires QuantAt(m, b, c, back, d, min, max, greedy, p, at, end) && min > 0
    requires Fits(m, x, d + Held(p, min, max) + Depth(m.sub.alpha, b, c, back))
    ensures Produces(m, at, x, end, OutQuant(EnvOf(m), b, c, back, d, min, max, greedy, x))
    decreases b, 6, 0, 0
  {
    hide Gen, Out, Depth, MustAdvance, Produces, OutQuant, GenQuant, Placed, CodeSize, PlanOf, Count, WellFormed,
        LoopCodeAt,
         PlusCodeAt, OutLoop, OutStarAll, OutAtom;
    RepeatedOut(EnvOf(m), b, c, back, d, min, max, greedy, x, p, d + Held(p, min, max));
    if min == 1 && max == INT32_MAX && !p.adv {
      PlanAdvances(m.sub.alpha, b, c, back, min, max);
      PlusPlaced(m, b, c, back, d, greedy, p, at, end);
      PlusRuns(m, b, c, back, d, p, greedy, at, end, x);
    } else {
      CountedCodePlaced(m, b, c, back, d, min, max, greedy, p, at, end);
      assert d + Held(p, min, max) == d + 1 + MarkRegs(p);
      CountedProduces(m, b, max, greedy, c, back, d, at, end, x, p, max - min, min == max);
    }
  }

  lemma {:induction false} OptionalProduces(m: Code, b: Node, max: nat, greedy: bool, c: nat, back: bool, d: nat,
      at: int, end: int,
                                            x: Point, p: Plan)
    requires QuantAt(m, b, c, back, d, 0, max, greedy, p, at, end)
    requires Fits(m, x, if max == 0 then d else d + Held(p, 0, max) + Depth(m.sub.alpha, b, c, back))
    ensures Produces(m, at, x, end, OutQuant(EnvOf(m), b, c, back, d, 0, max, greedy, x))
    decreases b, 6, 0, 0
  {
    hide Gen, Out, Depth, MustAdvance, Produces, OutQuant, GenQuant, Placed, CodeSize, PlanOf, Count, WellFormed,
        BoundedCodeAt,
         StarCodeAt;
    PlanAdvances(m.sub.alpha, b, c, back, 0, max);
    if max == 0 {
      ErasedRuns(m, b, c, back, d, p, greedy, at, end, x);
    } else if max == 1 {
      SkipCodePlaced(m, b, c, back, d, greedy, p, at, end);
      SkipRuns(m, b, c, back, d, p, greedy, at, end, x);
    } else if max == INT32_MAX {
      StarCodePlaced(m, b, c, back, d, greedy, p, at, end);
      StarRuns(m, b, c, back, d, p, greedy, at, end, x);
    } else {
      BoundedCodePlaced(m, b, c, back, d, max, greedy, p, at, end);
      BoundedRuns(m, b, max, c, back, d, p, greedy, at, end, x);
    }
  }
}

/** Atoms whose captures the parser does not reset between iterations. Their code is straight-line and
    reads no capture, so whatever stale captures it starts from, it overwrites all it owns. */
module Stale {
  import Sequences
  import opened RegexpSyntax
  import opened Bytecode
  import opened QuantCode
  import opened CodeGen
  import opened Machine
  import opened Denotation
  import opened DenotationFrame
  import opened TestCode
  import opened RegexpSemantics
  import opened SemanticsFrame
  import opened Captures

  /** Straight-line patterns without back references; an erased quantifier leaves no code. */
  predicate Simple(n: Node) {
    match n
    case Empty => true
    case Test(_) => true
    case Assert(_) => true
    case Cat(l, r) => Simple(l) && Simple(r)
    case Group(b) => Simple(b)
    case Quant(_, _, max, _) => max == 0
    case _ => false
  }

  lemma {:induction false} NeedInitConcat(a: seq<Instr>, b: seq<Instr>)
    ensures NeedCaptureInit(a + b) <==> NeedCaptureInit(a) || NeedCaptureInit(b)
    decreases |a|
  {
    if a == [] {
      assert a + b == b;
    } else {
      assert (a + b)[1..] == a[1..] + b;
      NeedInitConcat(a[1..], b);
    }
  }

  /** The analysis only clears the flag of simple patterns. */
  lemma {:induction false} AnalysisSimple(alpha: Alphabet, n: Node, c: nat, back: bool, d: int)
    requires WellFormed(n, CAPTURE_COUNT_MAX)
    requires !NeedCaptureInit(Gen(alpha, n, c, back, d))
    ensures Simple(n)
    decreases n, 1
  {
    hide CodeSize, Count, PlanOf, GenQuant;
    match n
    case Cat(l, r) =>
      var cl, cr := Gen(alpha, l, c, back, d), Gen(alpha, r, c + Count(l), back, d);
      if back {
        NeedInitConcat(cr, cl);
      } else {
        NeedInitConcat(cl, cr);
      }
      AnalysisSimple(alpha, l, c, back, d);
      AnalysisSimple(alpha, r, c + Count(l), back, d);
    case Group(b) => GroupSimple(alpha, b, c, back, d);
    case Quant(b, min, max, greedy) =>
      if max > 0 {
        QuantNotSimple(alpha, b, c, back, d, min, max, greedy);
      }
    case _ =>
  }

  lemma {:induction false} GroupSimple(alpha: Alphabet, b: Node, c: nat, back: bool, d: int)
    requires WellFormed(b, CAPTURE_COUNT_MAX)
    requires !NeedCaptureInit(Gen(alpha, Group(b), c, back, d))
    ensures Simple(b)
    decreases b, 2
  {
    hide CodeSize, Count, PlanOf;
    var body := Gen(alpha, b, c + 1, back, d);
    var first := if back then SaveEnd(c) else SaveStart(c);
    var last := if back then SaveStart(c) else SaveEnd(c);
    NeedInitConcat([first] + body, [last]);
    NeedInitConcat([first], body);
    AnalysisSimple(alpha, b, c + 1, back, d);
  }

  /** The code of every quantifier that is not erased ends in an instruction the analysis stops at. */
  lemma {:induction false} QuantNotSimple(alpha: Alphabet, b: Node, c: nat, back: bool, d: int, min: nat, max: nat,
      greedy: bool)
    requires WellFormed(b, CAPTURE_COUNT_MAX) && min <= max && max > 0
    ensures NeedCaptureInit(GenQuant(alpha, b, c, back, d, min, max, greedy))
  {
    hide Gen, PlanOf, Count, WellFormed, CodeSize, NeedCaptureInit;
    var code := GenQuant(alpha, b, c, back, d, min, max, greedy);
    var p := PlanOf(alpha, b, c, back, min, max);
    StopsAt(code, if min == 0 then |When(p.once, ResetOf(c, Count(b)))| else |code| - 1);
  }

  lemma {:induction false} StopsAt(code: seq<Instr>, i: nat)
    requires i < |code| && Stops(code[i])
    ensures NeedCaptureInit(code)
    decreases i
  {
    if i > 0 {
      StopsAt(code[1..], i - 1);
    }
  }

  /** The groups under erased quantifiers, which no code ever sets, are null. */
  predicate DeadNull(n: Node, c: nat, mem: seq<int>) {
    match n
    case Cat(l, r) => DeadNull(l, c, mem) && DeadNull(r, c + Count(l), mem)
    case Group(b) => DeadNull(b, c + 1, mem)
    case Quant(b, _, _, _) =>
      forall g :: c <= g < c + Count(b) ==> CellsNull(mem, g)
    case _ => true
  }

  predicate CellsNull(mem: seq<int>, g: nat) {
    2 * g + 1 < |mem| && mem[2 * g] == mem[2 * g + 1] == NULL
  }

  lemma {:induction false} DeadNullKept(n: Node, c: nat, mem: seq<int>, mem': seq<int>)
    requires DeadNull(n, c, mem) && |mem'| == |mem|
    requires forall j :: 2 * c <= j < 2 * (c + Count(n)) && j < |mem| ==> mem'[j] == mem[j]
    ensures DeadNull(n, c, mem')
  {
    match n
    case Cat(l, r) =>
      DeadNullKept(l, c, mem, mem');
      DeadNullKept(r, c + Count(l), mem, mem');
    case Group(b) => DeadNullKept(b, c + 1, mem, mem');
    case Quant(b, _, _, _) =>
      forall g | c <= g < c + Count(b) ensures CellsNull(mem', g) {
        assert CellsNull(mem, g);
      }
    case _ =>
  }

  /** Groups that are settled and undefined are null. */
  lemma {:induction false} DeadNullFresh(env: Env, n: Node, c: nat, mem: seq<int>, caps: seq<Capture>)
    requires AllSettled(env, mem, caps, c, Count(n)) && AllUndefined(caps, c, Count(n))
    ensures DeadNull(n, c, mem)
  {
    match n
    case Cat(l, r) =>
      DeadNullFresh(env, l, c, mem, caps);
      DeadNullFresh(env, r, c + Count(l), mem, caps);
    case Group(b) => DeadNullFresh(env, b, c + 1, mem, caps);
    case Quant(b, _, _, _) =>
      forall g | c <= g < c + Count(b) ensures CellsNull(mem, g) {
        assert Settled(env, mem, caps, g) && IsUndefined(caps, g);
        SettledNull(env, mem, caps, g);
      }
    case _ =>
  }

  lemma {:induction false} SettledNull(env: Env, mem: seq<int>, caps: seq<Capture>, g: nat)
    requires Settled(env, mem, caps, g) && caps[g] == Undefined
    ensures CellsNull(mem, g)
  {
  }

  /** The outcome of a simple pattern: the captures it owns are settled, whatever they were before. */
  ghost predicate Overwritten(env: Env, n: Node, c: nat, rs: seq<Point>, ss: seq<State>) {
    |rs| == |ss| <= 1 && (rs != [] ==> Fresh(env, n, c, rs[0], ss[0]))
  }

  ghost predicate Fresh(env: Env, n: Node, c: nat, y: Point, t: State) {
    && y.pos == t.pos <= |env.sub.text| && |t.caps| == env.ncap && |y.mem| >= 2 * env.ncap
    && AllSettled(env, y.mem, t.caps, c, Count(n)) && DeadNull(n, c, y.mem)
  }

  /** Only positions and lengths are known to agree; the captures of n are undefined in the semantics. */
  ghost predicate Loose(env: Env, n: Node, c: nat, x: Point, s: State) {
    && x.pos == s.pos <= |env.sub.text| && |s.caps| == env.ncap && |x.mem| >= 2 * env.ncap
    && AllUndefined(s.caps, c, Count(n)) && DeadNull(n, c, x.mem)
  }

  lemma {:induction false} SimpleFaithful(env: Env, n: Node, c: nat, back: bool, d: nat, x: Point, s: State)
    requires Simple(n) && WellFormed(n, CAPTURE_COUNT_MAX) && c + Count(n) <= env.ncap && Loose(env, n, c, x, s)
    ensures Overwritten(env, n, c, Out(env, n, c, back, d, x), Match(env.sub, n, c, back, s))
    decreases n, 2
  {
    hide Overwritten, Fresh, AllUndefined;
    match n
    case Cat(l, r) => CatOverwrites(env, n, c, back, d, x, s);
    case Group(b) => GroupOverwrites(env, n, c, back, d, x, s);
    case Quant(b, min, max, greedy) => ErasedOverwrites(env, n, c, back, d, x, s);
    case _ => LeafOverwrites(env, n, c, back, d, x, s);
  }

  lemma {:induction false} LeafOverwrites(env: Env, n: Node, c: nat, back: bool, d: nat, x: Point, s: State)
    requires n.Empty? || n.Test? || n.Assert?
    requires WellFormed(n, CAPTURE_COUNT_MAX) && c <= env.ncap && Loose(env, n, c, x, s)
    ensures Overwritten(env, n, c, Out(env, n, c, back, d, x), Match(env.sub, n, c, back, s))
  {
    if n.Test? {
      if back {
        if x.pos > 0 {
          TestAccepts(env.sub.alpha, n.t, env.sub.text[x.pos - 1]);
        }
      } else if x.pos < |env.sub.text| {
        TestAccepts(env.sub.alpha, n.t, env.sub.text[x.pos]);
      }
    }
  }

  lemma {:induction false} ErasedOverwrites(env: Env, n: Node, c: nat, back: bool, d: nat, x: Point, s: State)
    requires n.Quant? && n.max == 0 && WellFormed(n, CAPTURE_COUNT_MAX) && c + Count(n) <= env.ncap && Loose(env, n, c,
        x, s)
    ensures Overwritten(env, n, c, Out(env, n, c, back, d, x), Match(env.sub, n, c, back, s))
  {
    hide PlanOf;
    var p := PlanOf(env.sub.alpha, n.body, c, back, n.min, n.max);
    var y := Point(x.pos, Reset(p.once, c, Count(n.body), x.mem));
    assert Out(env, n, c, back, d, x) == [y];
    forall g | c <= g < c + Count(n) ensures CellsNull(y.mem, g) && Settled(env, y.mem, s.caps, g) {
      assert CellsNull(x.mem, g) && IsUndefined(s.caps, g);
    }
  }

  lemma {:induction false} CatOverwrites(env: Env, n: Node, c: nat, back: bool, d: nat, x: Point, s: State)
    requires n.Cat? && Simple(n) && WellFormed(n, CAPTURE_COUNT_MAX) && c + Count(n) <= env.ncap && Loose(env, n, c, x,
        s)
    ensures Overwritten(env, n, c, Out(env, n, c, back, d, x), Match(env.sub, n, c, back, s))
    decreases n, 1
  {
    hide Overwritten, Fresh, AllUndefined, OutAll, MatchAll, DeadNull, Count, Out, Match;
    var cr := c + Count(n.l);
    CatUnfold(env, n, c, back, d, x, s);
    if back {
      SequenceOverwrites(env, n, n.r, cr, n.l, c, c, back, d, x, s);
    } else {
      SequenceOverwrites(env, n, n.l, c, n.r, cr, c, back, d, x, s);
    }
  }

  /** Both sides of a sequence, in the order of the match. */
  lemma {:induction false} CatUnfold(env: Env, n: Node, c: nat, back: bool, d: nat, x: Point, s: State)
    requires n.Cat? && WellFormed(n, CAPTURE_COUNT_MAX) && s.pos <= |env.sub.text|
    ensures var cr := c + Count(n.l);
      && Out(env, n, c, back, d, x) ==
           (if back then OutAll(env, n.l, c, back, d, Out(env, n.r, cr, back, d, x))
            else OutAll(env, n.r, cr, back, d, Out(env, n.l, c, back, d, x)))
      && Match(env.sub, n, c, back, s) ==
           (if back then MatchAll(env.sub, n.l, c, back, Match(env.sub, n.r, cr, back, s))
            else MatchAll(env.sub, n.r, cr, back, Match(env.sub, n.l, c, back, s)))
  {
    hide OutAll, MatchAll, Count;
  }

  lemma {:induction false} SequenceOverwrites(env: Env, n: Node, n1: Node, c1: nat, n2: Node, c2: nat, c: nat,
      back: bool, d: nat,
                                              x: Point, s: State)
    requires n1 < n && n2 < n && Simple(n1) && Simple(n2)
    requires WellFormed(n1, CAPTURE_COUNT_MAX) && WellFormed(n2, CAPTURE_COUNT_MAX) && c + Count(n) <= env.ncap
    requires (n == Cat(n1, n2) && c1 == c && c2 == c + Count(n1)) || (n == Cat(n2,
        n1) && c2 == c && c1 == c + Count(n2))
    requires Loose(env, n, c, x, s)
    ensures Overwritten(env, n, c, OutAll(env, n2, c2, back, d, Out(env, n1, c1, back, d, x)),
                        MatchAll(env.sub, n2, c2, back, Match(env.sub, n1, c1, back, s)))
    decreases n, 0
  {
    hide Out, Match, WellFormed, Simple, Settled;
    SimpleFaithful(env, n1, c1, back, d, x, s);
    var rs, ss := Out(env, n1, c1, back, d, x), Match(env.sub, n1, c1, back, s);
    if rs != [] {
      OutFramed(env, n1, c1, back, d, x, rs[0]);
      MatchFramed(env.sub, n1, c1, back, s, ss[0]);
      DeadNullKept(n2, c2, x.mem, rs[0].mem);
      UndefinedKept(c1, Count(n1), s, ss[0], c2, Count(n2), c, Count(n));
      SimpleFaithful(env, n2, c2, back, d, rs[0], ss[0]);
      var r2, s2 := Out(env, n2, c2, back, d, rs[0]), Match(env.sub, n2, c2, back, ss[0]);
      OneOfAll(env, n2, c2, back, d, rs[0], ss[0]);
      assert rs == [rs[0]] && ss == [ss[0]];
      if r2 != [] {
        OutFramed(env, n2, c2, back, d, rs[0], r2[0]);
        MatchFramed(env.sub, n2, c2, back, ss[0], s2[0]);
        DeadNullKept(n1, c1, rs[0].mem, r2[0].mem);
        SettledKept(env, c2, Count(n2), d, back, rs[0], ss[0], r2[0], s2[0], c1, Count(n1));
      }
    }
  }

  lemma {:induction false} OneOfAll(env: Env, n: Node, c: nat, back: bool, d: nat, x: Point, s: State)
    requires WellFormed(n, CAPTURE_COUNT_MAX) && s.pos <= |env.sub.text|
    ensures OutAll(env, n, c, back, d, [x]) == Out(env, n, c, back, d, x)
    ensures MatchAll(env.sub, n, c, back, [s]) == Match(env.sub, n, c, back, s)
  {
    hide Out, Match;
    Sequences.TailOne(x);
    Sequences.TailOne(s);
  }

  lemma {:induction false} SettledKept(env: Env, c2: nat, n2: nat, d: nat, back: bool, x: Point, s: State, y: Point,
      t: State, c: nat, k: nat)
    requires AllSettled(env, x.mem, s.caps, c, k) && c + k <= env.ncap <= |s.caps| && |x.mem| >= 2 * env.ncap
    requires Framed(env, c2, n2, d, back, x, y) && CapsFramed(c2, n2, s, t)
    requires c + k <= c2 || c2 + n2 <= c
    ensures AllSettled(env, y.mem, t.caps, c, k)
  {
    forall g | c <= g < c + k ensures Settled(env, y.mem, t.caps, g) {
      assert Settled(env, x.mem, s.caps, g);
    }
  }

  lemma {:induction false} GroupOverwrites(env: Env, n: Node, c: nat, back: bool, d: nat, x: Point, s: State)
    requires n.Group? && Simple(n) && WellFormed(n, CAPTURE_COUNT_MAX) && c + Count(n) <= env.ncap && Loose(env, n, c,
        x, s)
    ensures Overwritten(env, n, c, Out(env, n, c, back, d, x), Match(env.sub, n, c, back, s))
    decreases n, 1
  {
    hide Overwritten, Out, PutAll, CloseGroup;
    var k1, k2 := if back then 2 * c + 1 else 2 * c, if back then 2 * c else 2 * c + 1;
    GroupOut(env, n.body, c, back, d, x, k1, k2);
    SpanOverwrites(env, n.body, c, back, d, k1, k2, x, s);
  }

  lemma {:induction false} SpanOverwrites(env: Env, b: Node, c: nat, back: bool, d: nat, k1: nat, k2: nat, x: Point,
      s: State)
    requires Simple(b) && WellFormed(b, CAPTURE_COUNT_MAX) && c + 1 + Count(b) <= env.ncap && Loose(env, Group(b), c,
        x, s)
    requires if back then k1 == 2 * c + 1 && k2 == 2 * c else k1 == 2 * c && k2 == 2 * c + 1
    ensures Overwritten(env, Group(b), c, PutAll(Out(env, b, c + 1, back, d, Point(x.pos, Put(x.mem, k1, x.pos))), k2),
                        CloseGroup(Match(env.sub, b, c + 1, back, s), c, x.pos))
    decreases b, 3
  {
    hide Out, Match, WellFormed, Simple, Settled, AllSettled;
    var x1 := Point(x.pos, Put(x.mem, k1, x.pos));
    DeadNullKept(b, c + 1, x.mem, x1.mem);
    SimpleFaithful(env, b, c + 1, back, d, x1, s);
    var rs, ss := Out(env, b, c + 1, back, d, x1), Match(env.sub, b, c + 1, back, s);
    if rs != [] {
      OutFramed(env, b, c + 1, back, d, x1, rs[0]);
      assert rs[0].mem[k1] == x1.mem[k1];
      CloseFresh(env, b, c, back, x.pos, k1, k2, rs[0], ss[0]);
    }
  }

  lemma {:induction false} CloseFresh(env: Env, b: Node, c: nat, back: bool, from: nat, k1: nat, k2: nat, y: Point,
      t: State)
    requires Fresh(env, b, c + 1, y, t) && c + 1 + Count(b) <= env.ncap
    requires if back then k1 == 2 * c + 1 && k2 == 2 * c else k1 == 2 * c && k2 == 2 * c + 1
    requires y.mem[k1] == from && from <= |env.sub.text| && Ahead(env.sub, back, from, y.pos)
    ensures Fresh(env, Group(b), c, Point(y.pos, Put(y.mem, k2, y.pos)), SetSpan(t, c, from))
  {
    var z, u := Point(y.pos, Put(y.mem, k2, y.pos)), SetSpan(t, c, from);
    DeadNullKept(b, c + 1, y.mem, z.mem);
    forall g | c <= g < c + 1 + Count(b) ensures Settled(env, z.mem, u.caps, g) {
      if g > c {
        assert Settled(env, y.mem, t.caps, g);
      }
    }
  }
}

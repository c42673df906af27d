/** Where the counter of an unbounded quantifier gives out. It starts at INT32_MAX, so that an atom that can be empty
    may leave less of it to the optional iterations than the subject has characters. The pattern here is (?:|[^]){min,},
    whose atom prefers the empty alternative. */
module Counters {
  import opened RegexpSyntax
  import opened RegexpSemantics
  import opened Bytecode
  import opened QuantCode
  import opened CodeGen
  import opened Machine
  import opened Denotation
  import opened DenotationFrame

  function MaybeOne(): (r: Node) {
    Alt(Empty, Test(Any))
  }

  function AtMost(x: int, y: int): (r: int)
    ensures r <= x && r <= y && (r == x || r == y)
  {
    if x <= y then x else y
  }

  /** One run of the atom: it is skipped, or it takes a character. */
  lemma {:induction false} AtomRuns(env: Env, c: nat, d: nat, init: bool, x: Point)
    requires x.pos <= |env.sub.text| && WellFormed(MaybeOne(), CAPTURE_COUNT_MAX)
    ensures OutAtom(env, MaybeOne(), c, false, d, init, x) ==
      [x] + if x.pos < |env.sub.text| then [x.(pos := x.pos + 1)] else []
  {
    assert Reset(init, c, 0, x.mem) == x.mem;
    var text := env.sub.text;
    assert Out(env, Empty, c, false, d, x) == [x];
    assert Out(env, Test(Any), c, false, d, x) == if x.pos < |text| then [x.(pos := x.pos + 1)] else [];
  }

  lemma {:induction false} NextAllFirst(env: Env, c: nat, d: nat, init: bool, k: Counter, v: nat, from: nat, x: Point,
      rest: seq<Point>)
    requires WellFormed(MaybeOne(), CAPTURE_COUNT_MAX)
    ensures OutNextAll(env, MaybeOne(), c, false, d, init, k, v, from, [x] + rest) ==
      OutNext(env, MaybeOne(), c, false, d, init, k, v, from, x) + OutNextAll(env, MaybeOne(), c, false, d, init, k, v,
          from, rest)
    ensures rest == [] ==> OutNextAll(env, MaybeOne(), c, false, d, init, k, v, from, rest) == []
  {
    hide OutNext;
    assert ([x] + rest)[1..] == rest;
  }

  /** The preferred outcome of the loop with v iterations left: the demanded ones are all empty, and each of the others
      takes one character until the counter or the subject gives out. */
  lemma {:induction false} LoopRuns(env: Env, c: nat, d: nat, init: bool, k: Counter, v: nat, x: Point)
    requires WellFormed(MaybeOne(), CAPTURE_COUNT_MAX) && x.pos <= |env.sub.text| && v > 0
    requires k.greedy && (k.adv || k.limit == 0)
    ensures var r := OutLoop(env, MaybeOne(), c, false, d, init, k, v, x); var len := |env.sub.text|;
      if v > k.limit then r != [] && r[0].pos == AtMost(len, x.pos + k.limit)
      else if x.pos == len then r == []
      else r != [] && r[0].pos == AtMost(len, x.pos + v)
    decreases v, 0
  {
    hide OutAtom, OutNext, OutNextAll, Out, WellFormed, Count;
    var len := |env.sub.text|;
    var y := Mark(k.adv, k.reg + 1, x);
    AtomRuns(env, c, d, init, y);
    var next := y.(pos := y.pos + 1);
    NextAllFirst(env, c, d, init, k, v - 1, x.pos, y, if x.pos < len then [next] else []);
    NextAllFirst(env, c, d, init, k, v - 1, x.pos, next, []);
    assert [next] + [] == [next];
    NextRuns(env, c, d, init, k, v - 1, x.pos, y);
    if x.pos < len {
      NextRuns(env, c, d, init, k, v - 1, x.pos, next);
    }
  }

  /** The same after an iteration that ended at x, with v iterations left. */
  lemma {:induction false} NextRuns(env: Env, c: nat, d: nat, init: bool, k: Counter, v: nat, from: nat, x: Point)
    requires WellFormed(MaybeOne(), CAPTURE_COUNT_MAX) && x.pos <= |env.sub.text|
    requires k.greedy && (k.adv || k.limit == 0)
    ensures var r := OutNext(env, MaybeOne(), c, false, d, init, k, v, from, x); var len := |env.sub.text|;
      if v >= k.limit then r != [] && r[0].pos == AtMost(len, x.pos + k.limit)
      else if x.pos == from then r == []
      else r != [] && r[0].pos == AtMost(len, x.pos + v)
    decreases v, 1
  {
    hide OutLoop, WellFormed, Count;
    if v > 0 {
      LoopRuns(env, c, d, init, k, v, Point(x.pos, Put(x.mem, k.reg, v)));
    }
  }

  lemma {:induction false} RepeatFirst(s: Subject, c: nat, min: nat, x: State, rest: seq<State>)
    requires x.pos <= |s.text| && forall y :: y in rest ==> y.pos <= |s.text|
    ensures RepeatAll(s, MaybeOne(), c, false, min, INT32_MAX, true, [x] + rest) ==
      Repeat(s, MaybeOne(), c, false, min, INT32_MAX, true, x) + RepeatAll(s, MaybeOne(), c, false, min, INT32_MAX,
          true, rest)
  {
    hide Repeat;
    assert ([x] + rest)[1..] == rest;
  }

  /** The specification takes the whole subject. */
  lemma {:induction false} SpecificationRuns(s: Subject, c: nat, min: nat, x: State)
    requires x.pos <= |s.text|
    ensures var r := Repeat(s, MaybeOne(), c, false, min, INT32_MAX, true, x);
      r != [] && r[0].pos == |s.text|
    decreases min, |s.text| - x.pos
  {
    var y := x.(caps := ResetCaps(x.caps, c, Count(MaybeOne())));
    var next := y.(pos := y.pos + 1);
    var rest := if x.pos < |s.text| then [next] else [];
    assert Match(s, Empty, c, false, y) == [y];
    assert Match(s, Test(Any), c, false, y) == rest;
    assert Match(s, MaybeOne(), c, false, y) == [y] + rest;
    hide Match, RepeatAll;
    if min > 0 {
      RepeatFirst(s, c, min - 1, y, rest);
      SpecificationRuns(s, c, min - 1, y);
    } else {
      assert ([y] + rest)[1..] == rest && Moved([], x.pos) == [];
      assert rest != [] ==> rest[1..] == [];
      assert Moved([y] + rest, x.pos) == rest;
      if x.pos < |s.text| {
        RepeatFirst(s, c, 0, next, []);
        assert [next] + [] == rest;
        SpecificationRuns(s, c, 0, next);
      } else {
        NothingRepeated(s, c);
      }
    }
  }

  lemma {:induction false} NothingRepeated(s: Subject, c: nat)
    ensures RepeatAll(s, MaybeOne(), c, false, 0, INT32_MAX, true, []) == []
  {
  }

  /** The engine's preferred match of (?:|[^]){min,} is that of the specification exactly when the counter suffices for
      the demanded iterations and for one more per character. */
  lemma {:induction false} CounterSuffices(env: Env, c: nat, d: nat, min: nat, x: Point, s: State)
    requires 0 < min <= INT32_MAX && x.pos == s.pos <= |env.sub.text|
    ensures var n := Quant(MaybeOne(), min, INT32_MAX, true); var len := |env.sub.text|;
      && WellFormed(n, CAPTURE_COUNT_MAX)
      && var engine, wanted := Out(env, n, c, false, d, x), Match(env.sub, n, c, false, s);
        && engine != [] && wanted != []
        && engine[0].pos == AtMost(len, x.pos + (INT32_MAX - min)) && wanted[0].pos == len
        && (engine[0].pos == wanted[0].pos <==> min + (len - x.pos) <= INT32_MAX)
  {
    hide Out, Match, Repeat;
    EngineRuns(env, c, d, min, x);
    SpecificationRuns(env.sub, c, min, s);
    MatchRepeat(env.sub, c, min, s);
  }

  lemma {:induction false} MatchRepeat(s: Subject, c: nat, min: nat, x: State)
    requires x.pos <= |s.text|
    ensures Match(s, Quant(MaybeOne(), min, INT32_MAX, true), c, false, x) == Repeat(s, MaybeOne(), c, false, min,
        INT32_MAX, true, x)
  {
    hide Repeat;
  }

  lemma {:induction false} EngineRuns(env: Env, c: nat, d: nat, min: nat, x: Point)
    requires 0 < min <= INT32_MAX && x.pos <= |env.sub.text|
    ensures var n := Quant(MaybeOne(), min, INT32_MAX, true); var len := |env.sub.text|;
      && WellFormed(n, CAPTURE_COUNT_MAX)
      && var engine := Out(env, n, c, false, d, x);
        engine != [] && engine[0].pos == AtMost(len, x.pos + (INT32_MAX - min))
  {
    hide Gen, OutLoop, OutQuant, PlanOf;
    AlwaysChecked(env.sub.alpha, c, min);
    var b := MaybeOne();
    var p := PlanOf(env.sub.alpha, b, c, false, min, INT32_MAX);
    var d1 := d + Held(p, min, INT32_MAX);
    RepeatedOut(env, b, c, false, d, min, INT32_MAX, true, x, p, d1);
    var k := Counter(2 * env.ncap + d, p.adv, true, INT32_MAX - min);
    LoopRuns(env, c, d1, p.init, k, INT32_MAX, Point(x.pos, Put(x.mem, 2 * env.ncap + d, INT32_MAX)));
  }

  lemma {:induction false} AlwaysChecked(alpha: Alphabet, c: nat, min: nat)
    requires 0 < min <= INT32_MAX
    ensures WellFormed(MaybeOne(), CAPTURE_COUNT_MAX)
    ensures PlanOf(alpha, MaybeOne(), c, false, min, INT32_MAX).adv == (min != INT32_MAX)
  {
    var raw := Gen(alpha, MaybeOne(), c, false, -1);
    assert raw != [] && raw[0].Split?;
  }

  /** With twelve characters and 2147483640 demanded iterations, the engine takes seven of them. */
  lemma {:induction false} CounterGivesOut(env: Env, c: nat, d: nat, x: Point, s: State)
    requires x.pos == s.pos == 0 && |env.sub.text| == 12
    ensures var n := Quant(MaybeOne(), 2147483640, INT32_MAX, true);
      && WellFormed(n, CAPTURE_COUNT_MAX) && !CountersFit(n, 12)
      && var engine, wanted := Out(env, n, c, false, d, x), Match(env.sub, n, c, false, s);
        engine != [] && wanted != [] && engine[0].pos == 7 && wanted[0].pos == 12
  {
    hide Out, Match;
    CounterSuffices(env, c, d, 2147483640, x, s);
  }
}

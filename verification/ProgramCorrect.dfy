/** The whole compiled program, on the reference machine: for every pattern and every subject the run
    ends, and it ends in the first match of the backtracking semantics, with its captures. */
module ProgramCorrect {
  import opened RegexpSyntax
  import opened Bytecode
  import opened CodeGen
  import opened Machine
  import opened Denotation
  import opened Yields
  import opened QuantFlow
  import opened CodeOutcomes
  import opened Captures
  import opened Faithful
  import opened RegexpSemantics

  /** A pattern the parser accepts: within its limits, and within the counters' range on this subject. */
  predicate Acceptable(n: Node, len: nat) {
    && 1 + Count(n) <= CAPTURE_COUNT_MAX && WellFormed(n, 1 + Count(n)) && CountersFit(n, len)
  }

  /** The captures are all null, as lre_exec leaves them; the registers hold anything. */
  predicate Initial(mem: seq<int>, ncap: nat, regs: nat) {
    |mem| == 2 * ncap + regs && forall i :: 0 <= i < 2 * ncap ==> mem[i] == NULL
  }

  /** The machine has the program of pattern n at address 0. */
  ghost predicate Loaded(m: Code, n: Node, sticky: bool) {
    && Acceptable(n, |m.sub.text|) && m.ncap == 1 + Count(n)
    && WellFormed(n, CAPTURE_COUNT_MAX)
    && Placed(m.prog, 0, GenProgram(m.sub.alpha, n, sticky, 0))
  }

  /** The final configuration reports the first of the expected matches, or that there is none. */
  ghost predicate Reports(sub: Subject, ncap: nat, r: Config, expected: seq<State>) {
    if expected == [] then r == Done(false, 0, [])
    else
      && r.Done? && r.matched && r.pos == expected[0].pos
      && |expected[0].caps| == ncap && AllSettled(Env(sub, ncap), r.mem, expected[0].caps, 0, ncap)
  }

  /** Where the whole match, group 0, starts. */
  function BodyAt(sticky: bool): (r: int) {
    if sticky then 0 else 11
  }

  lemma {:induction false} GroupGen(alpha: Alphabet, n: Node)
    requires WellFormed(n, CAPTURE_COUNT_MAX)
    ensures Gen(alpha, Group(n), 0, false, 0) == [SaveStart(0)] + Gen(alpha, n, 1, false, 0) + [SaveEnd(0)]
  {
    hide WellFormed;
  }

  lemma {:induction false} ProgramPlaced(m: Code, n: Node, sticky: bool) returns (end: int)
    requires Loaded(m, n, sticky)
    ensures CodeAt(m, Group(n), 0, false, 0, BodyAt(sticky), end)
    ensures end in m.prog && m.prog[end] == MatchEnd
    ensures !sticky ==> 0 in m.prog && m.prog[0] == Split(true, 6)
    ensures !sticky ==> 5 in m.prog && m.prog[5] == Single(OpAny) && 6 in m.prog && m.prog[6] == Goto(-11)
  {
    hide CountersFit, Count, Gen, WellFormed;
    GroupGen(m.sub.alpha, n);
    var body := Gen(m.sub.alpha, n, 1, false, 0);
    var main := [SaveStart(0)] + body + [SaveEnd(0), MatchEnd];
    if !sticky {
      var loop := [Split(true, 6), Single(OpAny), Goto(-11)];
      assert loop == [Split(true, 6)] + ([Single(OpAny)] + [Goto(-11)]);
      PlacedConcat(m.prog, 0, loop, main);
      PlacedCons(m.prog, 0, Split(true, 6), [Single(OpAny)] + [Goto(-11)]);
      PlacedCons(m.prog, 5, Single(OpAny), [Goto(-11)]);
      PlacedOne(m.prog, 6, Goto(-11));
    } else {
      assert GenProgram(m.sub.alpha, n, sticky, 0) == main;
    }
    assert main == [SaveStart(0)] + body + [SaveEnd(0)] + [MatchEnd];
    PlacedConcat(m.prog, BodyAt(sticky), [SaveStart(0)] + body + [SaveEnd(0)], [MatchEnd]);
    end := BodyAt(sticky) + CodeSize([SaveStart(0)] + body + [SaveEnd(0)]);
    PlacedOne(m.prog, end, MatchEnd);
  }

  /** The outcomes of the search loop, as the code produces them. */
  function SearchOut(env: Env, n: Node, sticky: bool, x: Point): (r: seq<Point>)
    requires WellFormed(n, CAPTURE_COUNT_MAX) && x.pos <= |env.sub.text|
    decreases |env.sub.text| - x.pos
  {
    Out(env, Group(n), 0, false, 0, x)
    + if sticky || x.pos == |env.sub.text| then [] else SearchOut(env, n, sticky, x.(pos := x.pos + 1))
  }

  lemma {:induction false} SearchProduces(m: Code, n: Node, sticky: bool, end: int, x: Point)
    requires Loaded(m, n, sticky) && Fits(m, x, Depth(m.sub.alpha, Group(n), 0, false))
    requires CodeAt(m, Group(n), 0, false, 0, BodyAt(sticky), end)
    requires !sticky ==> 0 in m.prog && m.prog[0] == Split(true, 6)
    requires !sticky ==> 5 in m.prog && m.prog[5] == Single(OpAny) && 6 in m.prog && m.prog[6] == Goto(-11)
    ensures Produces(m, 0, x, end, SearchOut(EnvOf(m), n, sticky, x))
    decreases |m.sub.text| - x.pos
  {
    hide Gen, Out, Depth, Placed, CodeSize, Produces, CodeAt;
    var here := Out(EnvOf(m), Group(n), 0, false, 0, x);
    CodeProduces(m, Group(n), 0, false, 0, BodyAt(sticky), end, x);
    if sticky {
      assert here + [] == here;
    } else {
      var rest := [];
      if x.pos < |m.sub.text| {
        var y := x.(pos := x.pos + 1);
        SearchProduces(m, n, sticky, end, y);
        rest := SearchOut(EnvOf(m), n, sticky, y);
        ProducesMove(m, 6, y, 0, y, end, rest);
        ProducesMove(m, 5, x, 6, y, end, rest);
      } else {
        ProducesFail(m, 5, x, end);
      }
      ProducesSplit(m, 0, x, true, 11, end, here, rest);
    }
  }

  lemma {:induction false} InitialUntouched(env: Env, n: Node, c: nat, x: Point, s: State)
    requires env.ncap == c + Count(n) && x.pos == s.pos <= |env.sub.text|
    requires |x.mem| >= 2 * env.ncap && forall i :: 0 <= i < 2 * env.ncap ==> x.mem[i] == NULL
    requires s.caps == seq(env.ncap, _ => Undefined)
    ensures Untouched(env, n, c, x, s)
  {
    hide Count;
    forall g | 0 <= g < env.ncap ensures Settled(env, x.mem, s.caps, g) && IsUndefined(s.caps, g) {
      assert x.mem[2 * g] == NULL && x.mem[2 * g + 1] == NULL;
    }
  }

  lemma {:induction false} SearchFaithful(env: Env, n: Node, sticky: bool, x: Point)
    requires Acceptable(n, |env.sub.text|) && WellFormed(n, CAPTURE_COUNT_MAX) && env.ncap == 1 + Count(n)
    requires x.pos <= |env.sub.text|
    requires |x.mem| >= 2 * env.ncap && forall i :: 0 <= i < 2 * env.ncap ==> x.mem[i] == NULL
    ensures AllTwins(env, 0, env.ncap, SearchOut(env, n, sticky, x), Search(env.sub, n, sticky, x.pos))
    decreases |env.sub.text| - x.pos
  {
    hide Out, Attempt, WellFormed, AllTwins, Acceptable, Count, Search, SearchOut;
    AttemptFaithful(env, n, x);
    SearchTurns(env, n, sticky, x);
    var r1, s1 := Out(env, Group(n), 0, false, 0, x), Attempt(env.sub, n, x.pos);
    if sticky || x.pos == |env.sub.text| {
    } else {
      var y := x.(pos := x.pos + 1);
      SearchFaithful(env, n, sticky, y);
      AppendTwins(env, 0, env.ncap, r1, s1, SearchOut(env, n, sticky, y), Search(env.sub, n, sticky, y.pos));
    }
  }

  /** One turn of the search, of the code and of the specification. */
  lemma {:induction false} SearchTurns(env: Env, n: Node, sticky: bool, x: Point)
    requires WellFormed(n, CAPTURE_COUNT_MAX) && x.pos <= |env.sub.text|
    ensures sticky || x.pos == |env.sub.text| ==>
      SearchOut(env, n, sticky, x) == Out(env, Group(n), 0, false, 0, x) && Search(env.sub, n, sticky,
          x.pos) == Attempt(env.sub, n, x.pos)
    ensures !sticky && x.pos < |env.sub.text| ==>
      && SearchOut(env, n, sticky, x) == Out(env, Group(n), 0, false, 0, x) + SearchOut(env, n, sticky,
          x.(pos := x.pos + 1))
      && Search(env.sub, n, sticky, x.pos) == Attempt(env.sub, n, x.pos) + Search(env.sub, n, sticky, x.pos + 1)
  {
    hide Out, Attempt, WellFormed;
  }

  lemma {:induction false} AttemptFaithful(env: Env, n: Node, x: Point)
    requires Acceptable(n, |env.sub.text|) && WellFormed(n, CAPTURE_COUNT_MAX) && env.ncap == 1 + Count(n)
    requires x.pos <= |env.sub.text|
    requires |x.mem| >= 2 * env.ncap && forall i :: 0 <= i < 2 * env.ncap ==> x.mem[i] == NULL
    ensures WellFormed(Group(n), CAPTURE_COUNT_MAX)
    ensures AllTwins(env, 0, env.ncap, Out(env, Group(n), 0, false, 0, x), Attempt(env.sub, n, x.pos))
  {
    hide Out, Match, WellFormed, AllTwins, CountersFit;
    var s := State(x.pos, Unset(n));
    assert Fit(env, Group(n), 0) by { GroupFit(env, n); }
    InitialUntouched(env, Group(n), 0, x, s);
    NodeFaithful(env, Group(n), 0, false, 0, x, s);
    MatchGroup(env.sub, n, s);
  }

  lemma {:induction false} GroupFit(env: Env, n: Node)
    requires Acceptable(n, |env.sub.text|) && WellFormed(n, CAPTURE_COUNT_MAX) && env.ncap == 1 + Count(n)
    ensures Fit(env, Group(n), 0) && Count(Group(n)) == env.ncap
  {
  }

  lemma {:induction false} MatchGroup(s: Subject, n: Node, x: State)
    requires x.pos <= |s.text|
    ensures Match(s, Group(n), 0, false, x) == CloseGroup(Match(s, n, 1, false, x), 0, x.pos)
  {
    hide CloseGroup;
  }

  /** Compiled programs on the reference machine are correct, and their runs end. */
  lemma {:induction false} RunCorrect(m: Code, n: Node, sticky: bool, from: nat, mem: seq<int>)
    requires Loaded(m, n, sticky) && from <= |m.sub.text|
    requires Initial(mem, m.ncap, Depth(m.sub.alpha, n, 1, false))
    ensures exists k: nat :: Reports(m.sub, m.ncap, Steps(m, Run(0, from, mem, []), k), Search(m.sub, n, sticky, from))
  {
    hide Gen, Out, WellFormed, CountersFit, Count, Search, SearchOut, CodeAt, Placed, Step;
    var end := ProgramPlaced(m, n, sticky);
    var x := Point(from, mem);
    DepthGroup(m.sub.alpha, n);
    SearchProduces(m, n, sticky, end, x);
    SearchFaithful(EnvOf(m), n, sticky, x);
    Finish(m, end, x, SearchOut(EnvOf(m), n, sticky, x), Search(m.sub, n, sticky, from));
  }

  lemma {:induction false} DepthGroup(alpha: Alphabet, n: Node)
    requires WellFormed(n, CAPTURE_COUNT_MAX)
    ensures Depth(alpha, Group(n), 0, false) == Depth(alpha, n, 1, false)
  {
    hide Gen, PlanOf;
  }

  lemma {:induction false} Finish(m: Code, end: int, x: Point, rs: seq<Point>, ss: seq<State>)
    requires Produces(m, 0, x, end, rs) && AllTwins(EnvOf(m), 0, m.ncap, rs, ss)
    requires end in m.prog && m.prog[end] == MatchEnd
    ensures exists k: nat :: Reports(m.sub, m.ncap, Steps(m, At(0, x, []), k), ss)
  {
    assert Outcomes(m, At(0, x, []), [], end, rs);
    if rs == [] {
      assert Step(m, Fail([])) == Done(false, 0, []);
      ReachesStep(m, Fail([]));
      ReachesTrans(m, At(0, x, []), Fail([]), Done(false, 0, []));
      var k: nat :| Steps(m, At(0, x, []), k) == Done(false, 0, []);
      assert Reports(m.sub, m.ncap, Steps(m, At(0, x, []), k), ss);
    } else {
      var fs := OutcomesElim(m, At(0, x, []), [], end, rs);
      var at := At(end, rs[0], [] + fs);
      var last := Done(true, rs[0].pos, rs[0].mem);
      assert Step(m, at) == last;
      ReachesStep(m, at);
      ReachesTrans(m, At(0, x, []), at, last);
      var k: nat :| Steps(m, At(0, x, []), k) == last;
      assert Reports(m.sub, m.ncap, Steps(m, At(0, x, []), k), ss);
    }
  }
}

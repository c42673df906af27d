/** The counts of variable-length instructions fit their fields in all generated code. */
module CodeSized {
  import opened RegexpSyntax
  import opened Bytecode
  import opened QuantCode
  import opened CodeGen
  import opened Analysis

  lemma {:induction false} SizedConcat(a: seq<Instr>, b: seq<Instr>)
    requires AllSized(a) && AllSized(b)
    ensures AllSized(a + b)
  {
    hide Sized;
  }

  lemma {:induction false} QuantSized(p: Plan, d: int, greedy: bool, min: nat, max: nat, pre: seq<Instr>,
      atom: seq<Instr>)
    requires AllSized(pre) && AllSized(atom) && min <= max
    ensures AllSized(QuantForm(p, d, greedy, min, max, pre, atom))
  {
    hide CodeSize;
    assert AllSized(SkipCode(p, d, greedy, atom));
    assert AllSized(StarCode(p, d, greedy, atom));
    var k1, k2 := CloseOf(p, d, greedy, false, max, atom), CloseOf(p, d, greedy, min == max, max - min, atom);
    assert AllSized(LoopCode(p, d, max, atom, k1)) && AllSized(LoopCode(p, d, max, atom, k2));
  }

  /** The analysis can walk the code of any pattern. */
  lemma {:induction false} GenSized(alpha: Alphabet, n: Node, c: nat, back: bool, d: int)
    requires WellFormed(n, CAPTURE_COUNT_MAX)
    ensures AllSized(Gen(alpha, n, c, back, d))
    decreases n, 0
  {
    hide CodeSize, GenQuant, GenTest, Count, AllSized, AltForm;
    match n
    case Test(t) => SizedTest(alpha, t);
    case Assert(a) => SizedOne(Check(a));
    case BackRef(gs, icase) => SizedBackRef(back, icase, gs);
    case Cat(l, r) =>
      var gl, gr := Gen(alpha, l, c, back, d), Gen(alpha, r, c + Count(l), back, d);
      CatCode(alpha, l, r, c, back, d);
      GenSized(alpha, l, c, back, d);
      GenSized(alpha, r, c + Count(l), back, d);
      SizedConcat(gl, gr);
      SizedConcat(gr, gl);
    case Alt(l, r) =>
      var gl, gr := Gen(alpha, l, c, back, d), Gen(alpha, r, c + Count(l), back, d);
      AltCode(alpha, l, r, c, back, d);
      GenSized(alpha, l, c, back, d);
      GenSized(alpha, r, c + Count(l), back, d);
      SizedAlt(gl, gr);
    case Group(b) =>
      GenSized(alpha, b, c + 1, back, d);
      SizedAround(SaveStart(c), Gen(alpha, b, c + 1, back, d), SaveEnd(c));
      SizedAround(SaveEnd(c), Gen(alpha, b, c + 1, back, d), SaveStart(c));
    case Look(negated, behind, b) =>
      var body := Gen(alpha, b, c, behind, d);
      GenSized(alpha, b, c, behind, d);
      SizedAround(LookAround(negated, CodeSize(body) + 1), body, LookMatch(negated));
    case Quant(b, min, max, greedy) =>
      SizedQuant(alpha, b, c, back, d, min, max, greedy);
    case Empty => SizedNone();
  }

  lemma {:induction false} SizedQuant(alpha: Alphabet, b: Node, c: nat, back: bool, d: int, min: nat, max: nat,
      greedy: bool)
    requires WellFormed(b, CAPTURE_COUNT_MAX) && min <= max
    ensures AllSized(GenQuant(alpha, b, c, back, d, min, max, greedy))
    decreases b, 1
  {
    hide CodeSize, PlanOf, QuantForm, AllSized, WellFormed, Count, GenAtom, Gen;
    var p := PlanOf(alpha, b, c, back, min, max);
    var d1 := Up(d, Held(p, min, max));
    GenSized(alpha, b, c, back, d1);
    AtomSized(alpha, b, c, back, d1, p);
    QuantSized(p, d, greedy, min, max, When(p.once, ResetOf(c, Count(b))), GenAtom(alpha, b, c, back, d1, p));
  }

  lemma {:induction false} SizedNone()
    ensures AllSized([])
  {
  }

  lemma {:induction false} SizedOne(i: Instr)
    requires Sized(i)
    ensures AllSized([i])
  {
  }

  lemma {:induction false} SizedAlt(left: seq<Instr>, right: seq<Instr>)
    requires AllSized(left) && AllSized(right)
    ensures AllSized(AltForm(left, right))
  {
    assert Sized(Split(false, CodeSize(left) + 5)) && Sized(Goto(CodeSize(right)));
  }

  lemma {:induction false} SizedAround(first: Instr, code: seq<Instr>, last: Instr)
    requires AllSized(code) && Sized(first) && Sized(last)
    ensures AllSized([first] + code + [last])
  {
    hide Sized;
  }

  lemma {:induction false} SizedBackRef(back: bool, icase: bool, gs: seq<nat>)
    requires |gs| <= 255
    ensures AllSized([BackReference(back, icase, gs)])
  {
  }

  lemma {:induction false} SizedTest(alpha: Alphabet, t: CharTest)
    requires t.Class? ==> Increasing(t.ranges) && |t.ranges| < 65535
    ensures AllSized([Single(GenTest(alpha, t))]) && AllSized([Prev, Single(GenTest(alpha, t)), Prev])
  {
  }

  lemma {:induction false} AtomSized(alpha: Alphabet, b: Node, c: nat, back: bool, d1: int, p: Plan)
    requires WellFormed(b, CAPTURE_COUNT_MAX) && AllSized(Gen(alpha, b, c, back, d1))
    ensures AllSized(GenAtom(alpha, b, c, back, d1, p)) && AllSized(When(p.once, ResetOf(c, Count(b))))
  {
    hide Gen, WellFormed;
  }
}

/** The code the parser emits for each node of the syntax tree, as sequences of instructions, and
    the two analyses it runs over the code of an atom before it adds a quantifier. */
module CodeGen {
  import opened RegexpSyntax
  import opened Bytecode
  import opened QuantCode

  /** What re_need_check_adv_and_capture_init cannot predict past. */
  predicate Stops(i: Instr) {
    match i
    case Single(_) => false
    case Check(_) => false
    case SetI32(_, _) => false
    case SetCharPos(_) => false
    case Prev => false
    case SaveStart(_) => false
    case SaveEnd(_) => false
    case SaveReset(_, _) => false
    case BackReference(_, _, _) => false
    case _ => true
  }

  /** Unless some straight-line prefix of the code reads a character, advance has to be checked. */
  predicate NeedCheckAdv(code: seq<Instr>) {
    if code == [] then true
    else if Stops(code[0]) then true
    else if code[0].Single? then false
    else NeedCheckAdv(code[1..])
  }

  /** Unless the whole code is straight-line and free of back references, captures have to be
      reset before every iteration. */
  predicate NeedCaptureInit(code: seq<Instr>) {
    if code == [] then false
    else Stops(code[0]) || code[0].BackReference? || NeedCaptureInit(code[1..])
  }

  function RangeHigh(rs: seq<Interval>): (r: nat)
    requires rs != []
  {
    if rs[|rs| - 1].hi == UINT32_MAX then rs[|rs| - 1].lo else rs[|rs| - 1].hi
  }

  function PairsOf(rs: seq<Interval>, wide: bool): (ps: seq<Pair>)
    requires forall i :: 0 <= i < |rs| ==> rs[i].lo < rs[i].hi
    ensures |ps| == |rs|
    ensures forall i :: 0 <= i < |rs| ==>
      ps[i] == Pair(rs[i].lo, if !wide && rs[i].hi == UINT32_MAX then 0xffff else rs[i].hi - 1)
  {
    seq(|rs|, i requires 0 <= i < |rs| =>
      Pair(rs[i].lo, if !wide && rs[i].hi == UINT32_MAX then 0xffff else rs[i].hi - 1))
  }

  /** re_emit_range: nothing matches an empty class; 16-bit bounds are used when they fit. */
  function GenRange(rs: seq<Interval>, icase: bool): (r: CharOp)
    requires Increasing(rs)
  {
    if rs == [] then OpChar(UINT32_MAX, false)
    else
      var wide := RangeHigh(rs) > 0xffff;
      OpRange(PairsOf(rs, wide), icase, wide)
  }

  function GenTest(alpha: Alphabet, t: CharTest): (r: CharOp)
    requires t.Class? ==> Increasing(t.ranges)
  {
    match t
    case Literal(c, icase) => OpChar(if icase then alpha.canon(c) else c, icase)
    case Dot => OpDot
    case Any => OpAny
    case Space(negated) => OpSpace(negated)
    case Class(rs, icase) => GenRange(rs, icase)
  }

  function PlanOf(alpha: Alphabet, b: Node, c: nat, back: bool, min: nat, max: nat): (r: Plan)
    requires WellFormed(b, CAPTURE_COUNT_MAX)
    decreases b, 1
  {
    var raw := Gen(alpha, b, c, back, -1);
    var captures := Count(b) > 0;
    Plan(NeedCheckAdv(raw) && !(min > 0 && min == max),
         NeedCaptureInit(raw) && captures,
         !NeedCaptureInit(raw) && captures && min == 0)
  }

  /** The atom with the reset that precedes every iteration. */
  function GenAtom(alpha: Alphabet, b: Node, c: nat, back: bool, d: int, p: Plan): (r: seq<Instr>)
    requires WellFormed(b, CAPTURE_COUNT_MAX)
    decreases b, 1
  {
    When(p.init, ResetOf(c, Count(b))) + Gen(alpha, b, c, back, d)
  }

  function GenQuant(alpha: Alphabet, b: Node, c: nat, back: bool, d: int, min: nat, max: nat,
      greedy: bool): (r: seq<Instr>)
    requires WellFormed(b, CAPTURE_COUNT_MAX)
    requires min <= max
    decreases b, 2
  {
    var p := PlanOf(alpha, b, c, back, min, max);
    QuantForm(p, d, greedy, min, max, When(p.once, ResetOf(c, Count(b))),
              GenAtom(alpha, b, c, back, Up(d, Held(p, min, max)), p))
  }

  /** The code of an alternative around that of its two sides. */
  function AltForm(left: seq<Instr>, right: seq<Instr>): (code: seq<Instr>) {
    [Split(false, CodeSize(left) + 5)] + left + [Goto(CodeSize(right))] + right
  }

  /** The code of node n whose first group has number c, matched backwards when back holds. */
  function Gen(alpha: Alphabet, n: Node, c: nat, back: bool, d: int): (r: seq<Instr>)
    requires WellFormed(n, CAPTURE_COUNT_MAX)
    decreases n, 0
  {
    match n
    case Empty => []
    case Test(t) =>
      if back then [Prev, Single(GenTest(alpha, t)), Prev] else [Single(GenTest(alpha, t))]
    case Assert(a) => [Check(a)]
    case BackRef(gs, icase) => [BackReference(back, icase, gs)]
    case Cat(l, r) =>
      if back then Gen(alpha, r, c + Count(l), back, d) + Gen(alpha, l, c, back, d)
      else Gen(alpha, l, c, back, d) + Gen(alpha, r, c + Count(l), back, d)
    case Alt(l, r) =>
      var left := Gen(alpha, l, c, back, d);
      var right := Gen(alpha, r, c + Count(l), back, d);
      AltForm(left, right)
    case Group(b) =>
      if back then [SaveEnd(c)] + Gen(alpha, b, c + 1, back, d) + [SaveStart(c)]
      else [SaveStart(c)] + Gen(alpha, b, c + 1, back, d) + [SaveEnd(c)]
    case Quant(b, min, max, greedy) => GenQuant(alpha, b, c, back, d, min, max, greedy)
    case Look(negated, behind, b) =>
      var body := Gen(alpha, b, c, behind, d);
      [LookAround(negated, CodeSize(body) + 1)] + body + [LookMatch(negated)]
  }

  lemma {:induction false} CatCode(alpha: Alphabet, l: Node, r: Node, c: nat, back: bool, d: int)
    requires WellFormed(Cat(l, r), CAPTURE_COUNT_MAX)
    ensures Gen(alpha, Cat(l, r), c, back, d) ==
            if back then Gen(alpha, r, c + Count(l), back, d) + Gen(alpha, l, c, back, d)
            else Gen(alpha, l, c, back, d) + Gen(alpha, r, c + Count(l), back, d)
  {
    hide CodeSize, PlanOf, GenAtom, GenQuant, Count, AltForm;
  }

  lemma {:induction false} AltCode(alpha: Alphabet, l: Node, r: Node, c: nat, back: bool, d: int)
    requires WellFormed(Alt(l, r), CAPTURE_COUNT_MAX)
    ensures Gen(alpha, Alt(l, r), c, back, d) == AltForm(Gen(alpha, l, c, back, d), Gen(alpha, r, c + Count(l), back,
        d))
  {
    hide CodeSize, PlanOf, GenAtom, GenQuant, Count, AltForm;
  }

  /** lre_compile, without the header: the search loop unless sticky, then group 0. */
  function GenProgram(alpha: Alphabet, n: Node, sticky: bool, d: int): (r: seq<Instr>)
    requires WellFormed(n, CAPTURE_COUNT_MAX)
  {
    (if sticky then [] else [Split(true, 1 + 5), Single(OpAny), Goto(-(5 + 1 + 5))])
    + ([SaveStart(0)] + Gen(alpha, n, 1, false, d) + [SaveEnd(0), MatchEnd])
  }
}

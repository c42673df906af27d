/** A reference machine for the byte code: every choice point carries a full snapshot of the
    captures and registers. The engine keeps an undo log instead; Backtracker shows that the two agree. */
module Machine {
  import opened RegexpSyntax
  import opened Bytecode
  import RegexpSemantics

  /** The null pointer of a capture that is not set. */
  const NULL: int := -1

  datatype Kind = SplitFrame | LookFrame | NegFrame

  /** A choice point: where to resume, and the memory to resume with. */
  datatype Frame = Frame(kind: Kind, pc: int, pos: nat, mem: seq<int>)

  /** mem holds the two ends of every capture, then the registers; the newest frame is last. */
  datatype Config =
    | Run(pc: int, pos: nat, mem: seq<int>, stack: seq<Frame>)
    | Fail(stack: seq<Frame>)
    | Done(matched: bool, pos: nat, mem: seq<int>)
    | Stuck

  datatype Code = Code(prog: map<int, Instr>, sub: Subject, ncap: nat)

  /** The 32-bit decrement of an iteration counter. */
  function Decrement(v: int): (r: int) {
    (v - 1) % 0x1_0000_0000
  }

  /** A place in the subject together with a memory. */
  datatype Point = Point(pos: nat, mem: seq<int>)

  function Put(mem: seq<int>, k: int, v: int): (r: seq<int>)
    ensures |r| == |mem|
    ensures forall j :: 0 <= j < |mem| && j != k ==> r[j] == mem[j]
    ensures 0 <= k < |mem| ==> r[k] == v
  {
    if 0 <= k < |mem| then mem[k := v] else mem
  }

  /** The memory after a reset instruction that is there only under the condition on. */
  function Reset(on: bool, c: nat, n: nat, mem: seq<int>): (r: seq<int>)
    ensures |r| == |mem|
    ensures forall i :: 0 <= i < |mem| ==> r[i] == if on && n > 0 && 2 * c <= i < 2 * (c + n) then NULL else mem[i]
  {
    if on && n > 0 then NullRange(mem, c, c + n - 1) else mem
  }

  function PutAll(rs: seq<Point>, k: int): (r: seq<Point>)
    ensures |r| == |rs|
    ensures forall i :: 0 <= i < |rs| ==> r[i] == Point(rs[i].pos, Put(rs[i].mem, k, rs[i].pos))
  {
    if rs == [] then [] else [Point(rs[0].pos, Put(rs[0].mem, k, rs[0].pos))] + PutAll(rs[1..], k)
  }

  /** set_char_pos, when the advance is checked. */
  function Mark(adv: bool, reg: int, x: Point): (r: Point) {
    if adv then Point(x.pos, Put(x.mem, reg, x.pos)) else x
  }

  /** BackReference compares the first group both ends of which are set. */
  function FirstSet(mem: seq<int>, groups: seq<nat>): (r: (int, int)) {
    if groups == [] then (NULL, NULL)
    else
      var g := groups[0];
      if 2 * g + 1 < |mem| && mem[2 * g] != NULL && mem[2 * g + 1] != NULL then (mem[2 * g], mem[2 * g + 1])
      else FirstSet(mem, groups[1..])
  }

  /** Where the comparison with the captured text [a, b) ends, if it succeeds. */
  function Compare(s: Subject, a: int, b: int, icase: bool, back: bool, pos: nat): (r: seq<nat>) {
    if a == NULL || a >= b then [pos]
    else if a < 0 then []
    else RegexpSemantics.MatchSpan(s, RegexpSemantics.Span(a, b), icase, back, pos)
  }

  function NullRange(mem: seq<int>, lo: nat, hi: nat): (r: seq<int>)
    ensures |r| == |mem|
    ensures forall i :: 0 <= i < |mem| ==> r[i] == if 2 * lo <= i < 2 * hi + 2 then NULL else mem[i]
  {
    seq(|mem|, i requires 0 <= i < |mem| => if 2 * lo <= i < 2 * hi + 2 then NULL else mem[i])
  }

  /** A failure resumes the newest choice point; lookahead frames are skipped. */
  function Backtrack(stack: seq<Frame>): (r: Config) {
    if stack == [] then Done(false, 0, [])
    else
      var f := stack[|stack| - 1];
      var rest := stack[..|stack| - 1];
      if f.kind == LookFrame then Fail(rest) else Run(f.pc, f.pos, f.mem, rest)
  }

  /** The number of frames below the newest frame of the given kind. */
  function Below(stack: seq<Frame>, kind: Kind): (r: int)
    ensures -1 <= r < |stack|
    ensures r >= 0 ==> stack[r].kind == kind
  {
    if stack == [] then -1
    else if stack[|stack| - 1].kind == kind then |stack| - 1
    else Below(stack[..|stack| - 1], kind)
  }

  function Branch(gotoFirst: bool, target: int, next: int, pos: nat, mem: seq<int>, stack: seq<Frame>): (r: Config) {
    if gotoFirst then Run(target, pos, mem, stack + [Frame(SplitFrame, next, pos, mem)])
    else Run(next, pos, mem, stack + [Frame(SplitFrame, target, pos, mem)])
  }

  /** One instruction, with next the address after it. */
  function Exec(m: Code, i: Instr, next: int, pos: nat, mem: seq<int>, stack: seq<Frame>): (r: Config)
    requires pos <= |m.sub.text|
  {
    match i
    case Single(op) =>
      if pos < |m.sub.text| && OpAccepts(m.sub.alpha, op, m.sub.text[pos]) then Run(next, pos + 1, mem, stack)
      else Fail(stack)
    case Check(a) => if RegexpSemantics.Asserts(m.sub, a, pos) then Run(next, pos, mem, stack) else Fail(stack)
    case Goto(off) => Run(next + off, pos, mem, stack)
    case Split(gotoFirst, off) => Branch(gotoFirst, next + off, next, pos, mem, stack)
    case MatchEnd => Done(true, pos, mem)
    case LookAround(negated, off) =>
      Run(next, pos, mem, stack + [Frame(if negated then NegFrame else LookFrame, next + off, pos, mem)])
    case LookMatch(negated) =>
      var k := Below(stack, if negated then NegFrame else LookFrame);
      if k < 0 then Stuck
      else if negated then Fail(stack[..k])
      else Run(stack[k].pc, stack[k].pos, mem, stack[..k])
    case SaveStart(g) => if g < m.ncap && 2 * g < |mem| then Run(next, pos, mem[2 * g := pos], stack) else Stuck
    case SaveEnd(g) => if g < m.ncap && 2 * g + 1 < |mem| then Run(next, pos, mem[2 * g + 1 := pos], stack) else Stuck
    case SaveReset(lo, hi) =>
      if lo <= hi < m.ncap && 2 * hi + 1 < |mem| then Run(next, pos, NullRange(mem, lo, hi), stack) else Stuck
    case SetI32(r, v) =>
      var k := 2 * m.ncap + r;
      if k < |mem| then Run(next, pos, mem[k := v], stack) else Stuck
    case SetCharPos(r) =>
      var k := 2 * m.ncap + r;
      if k < |mem| then Run(next, pos, mem[k := pos], stack) else Stuck
    case CheckAdvance(r) =>
      var k := 2 * m.ncap + r;
      if k >= |mem| then Stuck else if mem[k] == pos then Fail(stack) else Run(next, pos, mem, stack)
    case Loop(r, off) =>
      var k := 2 * m.ncap + r;
      if k >= |mem| then Stuck
      else
        var v := Decrement(mem[k]);
        Run(if v != 0 then next + off else next, pos, mem[k := v], stack)
    case LoopSplit(adv, gotoFirst, r, limit, off) =>
      var k := 2 * m.ncap + r;
      if k >= |mem| || (adv && k + 1 >= |mem|) then Stuck
      else
        var v := Decrement(mem[k]);
        var mem1 := mem[k := v];
        if v > limit then Run(next + off, pos, mem1, stack)
        else if adv && mem1[k + 1] == pos && v != limit then Fail(stack)
        else if v != 0 then Branch(gotoFirst, next + off, next, pos, mem1, stack)
        else Run(next, pos, mem1, stack)
    case BackReference(back, icase, groups) =>
      if exists j :: 0 <= j < |groups| && groups[j] >= m.ncap then Stuck
      else
        var (a, b) := FirstSet(mem, groups);
        var p := Compare(m.sub, a, b, icase, back, pos);
        if p == [] then Fail(stack) else Run(next, p[0], mem, stack)
    case Prev => if pos == 0 then Fail(stack) else Run(next, pos - 1, mem, stack)
  }

  function Step(m: Code, cf: Config): (r: Config) {
    match cf
    case Run(pc, pos, mem, stack) =>
      if pc in m.prog && pos <= |m.sub.text| then Exec(m, m.prog[pc], pc + Size(m.prog[pc]), pos, mem, stack)
      else Stuck
    case Fail(stack) => Backtrack(stack)
    case _ => cf
  }

  function Steps(m: Code, cf: Config, n: nat): (r: Config)
    decreases n
  {
    if n == 0 then cf else Steps(m, Step(m, cf), n - 1)
  }

  ghost predicate Reaches(m: Code, a: Config, b: Config) {
    exists n: nat :: Steps(m, a, n) == b
  }

  lemma {:induction false} StepsAdd(m: Code, a: Config, i: nat, j: nat)
    ensures Steps(m, Steps(m, a, i), j) == Steps(m, a, i + j)
    decreases i
  {
    if i > 0 {
      StepsAdd(m, Step(m, a), i - 1, j);
    }
  }

  lemma {:induction false} ReachesSelf(m: Code, a: Config)
    ensures Reaches(m, a, a)
  {
    assert Steps(m, a, 0) == a;
  }

  lemma {:induction false} ReachesStep(m: Code, a: Config)
    ensures Reaches(m, a, Step(m, a))
  {
    assert Steps(m, a, 1) == Steps(m, Step(m, a), 0);
  }

  lemma {:induction false} ReachesTrans(m: Code, a: Config, b: Config, c: Config)
    requires Reaches(m, a, b) && Reaches(m, b, c)
    ensures Reaches(m, a, c)
  {
    var i: nat :| Steps(m, a, i) == b;
    var j: nat :| Steps(m, b, j) == c;
    StepsAdd(m, a, i, j);
  }

  /** The code block sits at address at of the program. */
  ghost predicate Placed(prog: map<int, Instr>, at: int, code: seq<Instr>)
    decreases |code|
  {
    code == [] || (at in prog && prog[at] == code[0] && Placed(prog, at + Size(code[0]), code[1..]))
  }

  lemma {:induction false} PlacedConcat(prog: map<int, Instr>, at: int, a: seq<Instr>, b: seq<Instr>)
    ensures Placed(prog, at, a + b) <==> Placed(prog, at, a) && Placed(prog, at + CodeSize(a), b)
    ensures CodeSize(a + b) == CodeSize(a) + CodeSize(b)
    decreases |a|
  {
    if a == [] {
      assert a + b == b;
    } else {
      assert (a + b)[1..] == a[1..] + b;
      PlacedConcat(prog, at + Size(a[0]), a[1..], b);
    }
  }
}

/** The instructions of libregexp-opcode.h and their sizes in bytes. Jump offsets are relative to
    the byte after the instruction, as in the engine. */
module Bytecode {
  import opened RegexpSyntax
  import RegexpSemantics

  /** Inclusive bounds, as the range instructions store them. */
  datatype Pair = Pair(lo: nat, hi: nat)

  /** The instructions that read one character. */
  datatype CharOp =
    | OpChar(v: nat, icase: bool)
    | OpDot
    | OpAny
    | OpSpace(negated: bool)
    | OpRange(pairs: seq<Pair>, icase: bool, wide: bool)

  datatype Instr =
    | Single(op: CharOp)
    | Check(a: Assertion)
    | Goto(off: int)
    | Split(gotoFirst: bool, off: int)
    | MatchEnd
    | LookMatch(negated: bool)
    | SaveStart(g: nat)
    | SaveEnd(g: nat)
    | SaveReset(lo: nat, hi: nat)
    | Loop(reg: nat, off: int)
    | LoopSplit(adv: bool, gotoFirst: bool, reg: nat, limit: nat, off: int)
    | SetI32(reg: nat, v: nat)
    | BackReference(back: bool, icase: bool, groups: seq<nat>)
    | LookAround(negated: bool, off: int)
    | SetCharPos(reg: nat)
    | CheckAdvance(reg: nat)
    | Prev

  function OpSize(op: CharOp): (n: nat)
    ensures n >= 1
  {
    match op
    case OpChar(v, _) => if v <= 0xffff then 3 else 5
    case OpRange(ps, _, wide) => if wide then 3 + 8 * |ps| else 3 + 4 * |ps|
    case _ => 1
  }

  function Size(i: Instr): (n: nat)
    ensures n >= 1
  {
    match i
    case Single(op) => OpSize(op)
    case Goto(_) => 5
    case Split(_, _) => 5
    case SaveStart(_) => 2
    case SaveEnd(_) => 2
    case SaveReset(_, _) => 3
    case Loop(_, _) => 6
    case LoopSplit(_, _, _, _, _) => 10
    case SetI32(_, _) => 6
    case BackReference(_, _, gs) => 2 + |gs|
    case LookAround(_, _) => 5
    case SetCharPos(_) => 2
    case CheckAdvance(_) => 2
    case _ => 1
  }

  function CodeSize(code: seq<Instr>): (r: nat) {
    if code == [] then 0 else Size(code[0]) + CodeSize(code[1..])
  }

  lemma {:induction false} CodeSizeConcat(a: seq<Instr>, b: seq<Instr>)
    ensures CodeSize(a + b) == CodeSize(a) + CodeSize(b)
  {
    if a == [] {
      assert a + b == b;
    } else {
      assert (a + b)[1..] == a[1..] + b;
      CodeSizeConcat(a[1..], b);
    }
  }

  lemma {:induction false} CodeSizeOne(i: Instr)
    ensures CodeSize([i]) == Size(i)
  {
    assert CodeSize([i][1..]) == 0;
  }

  /** Whether the instruction op lets the character c through. In the 16-bit form of a range a
      last bound of 0xffff stands for infinity. */
  predicate OpAccepts(alpha: Alphabet, op: CharOp, c: Char) {
    match op
    case OpChar(v, icase) => v == if icase then alpha.canon(c) else c
    case OpDot => !RegexpSemantics.IsLineTerminator(c)
    case OpAny => true
    case OpSpace(negated) => RegexpSemantics.IsSpace(c) != negated
    case OpRange(ps, icase, wide) => InPairs(ps, wide, if icase then alpha.canon(c) else c)
  }

  predicate InPairs(ps: seq<Pair>, wide: bool, c: Char) {
    exists i :: 0 <= i < |ps| && InPair(ps[i], !wide && i == |ps| - 1, c)
  }

  predicate InPair(p: Pair, openEnded: bool, c: Char) {
    p.lo <= c && (c <= p.hi || (openEnded && p.hi == 0xffff))
  }
}

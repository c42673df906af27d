/** The code around the atom of a quantifier, for each form the parser distinguishes. */
module QuantCode {
  import opened RegexpSyntax
  import opened Bytecode

  /** Register numbers: the parser writes 0 everywhere (d < 0 here); compute_register_count later
      replaces it by the depth d of the loops around the instruction. */
  function Reg(d: int, i: nat): (r: nat) {
    if d < 0 then 0 else d + i
  }

  function Up(d: int, i: nat): (r: int) {
    if d < 0 then d else d + i
  }

  function When(b: bool, i: Instr): (code: seq<Instr>)
    ensures CodeSize(code) == if b then Size(i) else 0
  {
    if b then [i] else []
  }

  /** The quantifier decisions the parser takes from the analyses and the bounds. */
  datatype Plan = Plan(
    adv: bool,    // the zero-advance check is emitted
    init: bool,   // captures are reset before every iteration
    once: bool)   // captures are reset once, before the quantified atom

  /** The size of the reset that precedes the quantified atom. */
  function OnceSize(p: Plan): (r: nat) {
    if p.once then 3 else 0
  }

  /** The size of the set_char_pos, or of the check_advance, of the zero-advance check. */
  function MarkSize(p: Plan): (r: nat) {
    if p.adv then 2 else 0
  }

  /** The registers the zero-advance check holds. */
  function MarkRegs(p: Plan): (r: nat) {
    if p.adv then 1 else 0
  }

  /** The registers a quantifier holds while its atom runs. */
  function Held(p: Plan, min: nat, max: nat): (r: nat) {
    MarkRegs(p)
    + (if (min == 0 && (max <= 1 || max == INT32_MAX)) || (min == 1 && max == INT32_MAX && !p.adv) then 0 else 1)
  }

  function ResetOf(c: nat, n: nat): (r: Instr) {
    SaveReset(c, if n > 0 then c + n - 1 else c)
  }

  /** atom? */
  function SkipCode(p: Plan, d: int, greedy: bool, atom: seq<Instr>): (r: seq<Instr>) {
    var a := MarkSize(p);
    [Split(!greedy, CodeSize(atom) + 2 * a)]
    + (When(p.adv, SetCharPos(Reg(d, 0))) + (atom + When(p.adv, CheckAdvance(Reg(d, 0)))))
  }

  /** atom* */
  function StarCode(p: Plan, d: int, greedy: bool, atom: seq<Instr>): (r: seq<Instr>) {
    var a := MarkSize(p);
    [Split(!greedy, CodeSize(atom) + 5 + 2 * a)]
    + (When(p.adv, SetCharPos(Reg(d, 0)))
       + (atom + (When(p.adv, CheckAdvance(Reg(d, 0))) + [Goto(-(5 + a + CodeSize(atom) + a + 5))])))
  }

  /** The instruction that closes a counted loop over atom. */
  function CloseOf(p: Plan, d: int, greedy: bool, exact: bool, limit: nat, atom: seq<Instr>): (r: Instr) {
    var a := MarkSize(p);
    if exact then Loop(Reg(d, 0), -(a + CodeSize(atom) + 6))
    else LoopSplit(p.adv, greedy, Reg(d, 0), limit, -(a + CodeSize(atom) + 10))
  }

  /** A counted loop: the counter is set to max, and the closing instruction counts it down. */
  function LoopCode(p: Plan, d: int, max: nat, atom: seq<Instr>, close: Instr): (r: seq<Instr>) {
    [SetI32(Reg(d, 0), max)] + (When(p.adv, SetCharPos(Reg(d, 1))) + (atom + [close]))
  }

  /** The code of a quantifier around the code of its atom. */
  function QuantForm(p: Plan, d: int, greedy: bool, min: nat, max: nat, pre: seq<Instr>,
      atom: seq<Instr>): (r: seq<Instr>)
    requires min <= max
  {
    if min == 0 then
      if max == 0 then pre
      else if max == 1 then pre + SkipCode(p, d, greedy, atom)
      else if max == INT32_MAX then pre + StarCode(p, d, greedy, atom)
      else
        var loop := LoopCode(p, d, max, atom, CloseOf(p, d, greedy, false, max, atom));
        pre + ([Split(!greedy, CodeSize(loop))] + loop)
    else if min == 1 && max == INT32_MAX && !p.adv then
      atom + [Split(greedy, -(CodeSize(atom) + 5))]
    else
      LoopCode(p, d, max, atom, CloseOf(p, d, greedy, min == max, max - min, atom))
  }
}

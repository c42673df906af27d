/** The zero-advance and capture analysis the parser runs over the bytes of an atom. */
module Analysis {
  import opened Bytecode
  import opened CodeGen
  import opened Encoding
  import opened Image
  import opened CodeBuffer

  /** The count of a variable-length instruction fits its field. */
  predicate Sized(i: Instr) {
    match i
    case Single(OpRange(ps, _, _)) => |ps| <= 0xffff
    case BackReference(_, _, gs) => |gs| < 256
    case _ => true
  }

  predicate AllSized(code: seq<Instr>) {
    forall i :: 0 <= i < |code| ==> Sized(code[i])
  }

  predicate ReadsChar(op: Byte) {
    1 <= op <= 8 || 36 <= op <= 39
  }

  /** The opcodes with no effect on either result. */
  predicate Neutral(op: Byte) {
    9 <= op <= 12 || 19 <= op <= 21 || 27 <= op <= 31 || op == 42 || op == 44
  }

  /** What the opcode tells of an instruction. */
  lemma {:induction false} Classified(i: Instr)
    ensures var op := Emit(i)[0];
      && (ReadsChar(op) <==> i.Single?) && (32 <= op <= 35 <==> i.BackReference?)
      && (Stops(i) <==> !ReadsChar(op) && !Neutral(op) && !(32 <= op <= 35))
      && (36 <= op <= 39 <==> i.Single? && i.op.OpRange?)
  {
  }

  /** The size of an instruction is found from its bytes. */
  lemma {:induction false} SizeFound(b: seq<Byte>, pos: nat, i: Instr, rest: seq<Byte>)
    requires pos <= |b| && b[pos..] == Emit(i) + rest && Sized(i)
    ensures pos + Size(i) <= |b| && b[pos] == Emit(i)[0]
    ensures i.Single? && i.op.OpRange? ==>
      && pos + 3 <= |b| && Size(i) == 3 + (if b[pos] < 38 then 4 else 8) * GetU16(b, pos + 1)
    ensures i.BackReference? ==> pos + 2 <= |b| && Size(i) == 2 + b[pos + 1] as int
    ensures !(i.Single? && i.op.OpRange?) && !i.BackReference? ==> Size(i) == OpcodeSize(b[pos])
  {
    hide Emit;
    var s := b[pos..];
    assert s[0] == b[pos] && s[..Size(i)] == Emit(i);
    FixedSize(i);
    if i.BackReference? {
      assert s[1] == b[pos + 1] && s[1] == Emit(i)[1];
    }
    if i.Single? && i.op.OpRange? {
      assert b[pos + 1..pos + 3] == s[1..3] == Emit(i)[1..3];
      GetPutU16(b, pos + 1, |i.op.pairs|);
    }
  }

  lemma {:induction false} FixedSize(i: Instr)
    requires Sized(i)
    ensures i.Single? && i.op.OpRange? ==>
      && Emit(i)[1..3] == PutU16(|i.op.pairs|) && Size(i) == 3 + (if Emit(i)[0] < 38 then 4 else 8) * |i.op.pairs|
    ensures i.BackReference? ==> Size(i) == 2 + Emit(i)[1] as int
    ensures !(i.Single? && i.op.OpRange?) && !i.BackReference? ==> Size(i) == OpcodeSize(Emit(i)[0])
  {
    hide EmitPairs, EmitGroups, PutU32, PutU16;
  }

  /** re_need_check_adv_and_capture_init, over the bytes from start to the end of the buffer. */
  method NeedCheckAdvAndCaptureInit(b: seq<Byte>, start: nat, ghost code: seq<Instr>)
    returns (needCheckAdv: bool, needCaptureInit: bool)
    requires start <= |b| && b[start..] == Bytes(code) && AllSized(code)
    ensures needCheckAdv <==> NeedCheckAdv(code)
    ensures needCaptureInit <==> NeedCaptureInit(code)
  {
    hide Emit, Sized, OpcodeSize;
    needCheckAdv, needCaptureInit := true, false;
    var pos: nat := start;
    ghost var rest := code;
    while pos < |b|
      invariant pos <= |b| && b[pos..] == Bytes(rest) && AllSized(rest)
      invariant NeedCheckAdv(code) == (needCheckAdv && NeedCheckAdv(rest))
      invariant NeedCaptureInit(code) == (needCaptureInit || NeedCaptureInit(rest))
      decreases |rest|
    {
      var opcode := b[pos];
      var len := OpcodeSize(opcode);
      Classified(rest[0]);
      SizeFound(b, pos, rest[0], Bytes(rest[1..]));
      if 36 <= opcode <= 39 {
        len := 3 + (if opcode < 38 then 4 else 8) * GetU16(b, pos + 1);
        needCheckAdv := false;
      } else if ReadsChar(opcode) {
        needCheckAdv := false;
      } else if Neutral(opcode) {
      } else if 32 <= opcode <= 35 {
        len := 2 + b[pos + 1] as int;
        needCaptureInit := true;
      } else {
        needCaptureInit := true;
        return;
      }
      assert b[pos + len..] == b[pos..][len..] == Bytes(rest[1..]);
      pos := pos + len;
      rest := rest[1..];
    }
  }
}

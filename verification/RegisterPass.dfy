/** The register allocation pass over the bytes of the program. */
module RegisterPass {
  import opened RegexpSyntax
  import opened Bytecode
  import opened Encoding
  import opened Image
  import opened CodeOutcomes
  import opened CodeBuffer
  import opened Analysis
  import opened QuantEmission
  import opened Registers

  predicate UsesReg(i: Instr) {
    Pushes(i) || Pops(i) > 0
  }

  predicate PushOp(op: Byte) {
    op == 27 || op == 42
  }

  function PopsOp(op: Byte): (r: nat) {
    if op == 43 || 22 <= op <= 24 then 1 else if op == 25 || op == 26 then 2 else 0
  }

  lemma {:induction false} OpcodeRegs(i: Instr)
    ensures PushOp(Emit(i)[0]) <==> Pushes(i)
    ensures PopsOp(Emit(i)[0]) == Pops(i)
    ensures UsesReg(i) ==> Size(i) >= 2
    ensures !UsesReg(i) ==> forall used: nat :: WithReg(i, used) == i
  {
  }

  /** The register is the second byte of an instruction, and nothing else depends on it. */
  lemma {:induction false} RegByte(i: Instr, used: nat)
    requires UsesReg(i) && Pops(i) <= used < 256
    ensures Size(i) >= 2
    ensures Emit(WithReg(i, used)) == Stored(Emit(i), 1, [(used - Pops(i)) % 256])
  {
    hide PutU32;
    var e, e1 := Emit(i), Emit(WithReg(i, used));
    assert e1[0] == e[0] && e1[1] == used - Pops(i) && e1[2..] == e[2..];
    assert e1 == [e1[0]] + [e1[1]] + e1[2..];
    assert e[..1] == [e[0]];
  }

  lemma {:induction false} StoredInside(front: seq<Byte>, e: seq<Byte>, back: seq<Byte>, b: seq<Byte>)
    requires 1 + |b| <= |e|
    ensures Stored(front + e + back, |front| + 1, b) == front + Stored(e, 1, b) + back
  {
    assert front + e + back == (front + e[..1]) + e[1..1 + |b|] + (e[1 + |b|..] + back);
    Patch(front + e[..1], e[1..1 + |b|], b, e[1 + |b|..] + back);
  }

  /** Writing the register into the second byte of the instruction. */
  lemma {:induction false} RegWritten(front: seq<Byte>, i: Instr, used: nat, back: seq<Byte>)
    requires Pops(i) <= used < 256
    ensures UsesReg(i) ==> Size(i) >= 2
    ensures UsesReg(i) ==>
      Stored(front + Emit(i) + back, |front| + 1, [(used - Pops(i)) % 256]) == front + Emit(WithReg(i, used)) + back
  {
    hide Emit, Stored, WithReg;
    if UsesReg(i) {
      RegByte(i, used);
      StoredInside(front, Emit(i), back, [(used - Pops(i)) % 256]);
    }
  }

  /** What the pass has done so far, and what is left. */
  ghost predicate Passing(bytes: seq<Byte>, base: seq<Byte>, code: seq<Instr>, pos: nat, used: nat, most: nat,
      done: seq<Instr>, rest: seq<Instr>) {
    && Balanced(code, 0) && Balanced(rest, used)
    && bytes == base + Bytes(done) + Bytes(rest) && pos == |base| + |Bytes(done)|
    && done + Assign(rest, used) == Assign(code, 0)
    && used <= most <= REGISTER_COUNT_MAX && Max(most, Peak(rest, used)) == Peak(code, 0)
  }

  lemma {:induction false} PassingStarts(base: seq<Byte>, code: seq<Instr>)
    requires Balanced(code, 0)
    ensures Passing(base + Bytes(code), base, code, |base|, 0, 0, [], code)
  {
    NoCode();
    assert base + [] == base;
    assert [] + Assign(code, 0) == Assign(code, 0);
  }

  lemma {:induction false} PassingEnds(bytes: seq<Byte>, base: seq<Byte>, code: seq<Instr>, pos: nat, used: nat,
      most: nat, done: seq<Instr>, rest: seq<Instr>)
    requires Passing(bytes, base, code, pos, used, most, done, rest)
    ensures pos <= |bytes| && (pos == |bytes| <==> rest == [])
    ensures rest == [] ==> most == Peak(code, 0) <= REGISTER_COUNT_MAX && bytes == base + Bytes(Assign(code, 0))
  {
    if rest == [] {
      assert done + [] == done && base + Bytes(done) + [] == base + Bytes(done);
    }
  }

  lemma {:induction false} PassingNext(base: seq<Byte>, code: seq<Instr>, pos: nat, used: nat, most: nat,
      done: seq<Instr>, i: Instr, rest: seq<Instr>)
    requires Balanced([i] + rest, used) && Balanced(code, 0)
    requires pos == |base| + |Bytes(done)| && done + Assign([i] + rest, used) == Assign(code, 0)
    requires used <= most <= REGISTER_COUNT_MAX && Max(most, Peak([i] + rest, used)) == Peak(code, 0)
    ensures Pops(i) <= used
    ensures After(i, used) > REGISTER_COUNT_MAX ==> Peak(code, 0) > REGISTER_COUNT_MAX
    ensures After(i, used) <= REGISTER_COUNT_MAX ==>
      Passing(base + Bytes(done) + Emit(WithReg(i, used)) + Bytes(rest), base, code, pos + Size(i), After(i, used),
              Max(most, After(i, used)), done + [WithReg(i, used)], rest)
  {
    hide Bytes, Emit;
    assert ([i] + rest)[1..] == rest;
    var j := WithReg(i, used);
    assert done + ([j] + Assign(rest, After(i, used))) == (done + [j]) + Assign(rest, After(i, used));
    Emitted(base, done, j);
  }

  lemma {:induction false} PassingHead(bytes: seq<Byte>, base: seq<Byte>, code: seq<Instr>, pos: nat, used: nat,
      most: nat, done: seq<Instr>, i: Instr, rest: seq<Instr>)
    requires Passing(bytes, base, code, pos, used, most, done, [i] + rest)
    ensures pos <= |bytes| && bytes[pos..] == Emit(i) + Bytes(rest)
    ensures bytes == base + Bytes(done) + Emit(i) + Bytes(rest)
    ensures Pops(i) <= used <= most <= REGISTER_COUNT_MAX && pos == |base + Bytes(done)|
    ensures After(i, used) > REGISTER_COUNT_MAX ==> Peak(code, 0) > REGISTER_COUNT_MAX
    ensures After(i, used) <= REGISTER_COUNT_MAX ==>
      Passing(base + Bytes(done) + Emit(WithReg(i, used)) + Bytes(rest), base, code, pos + Size(i), After(i, used),
              Max(most, After(i, used)), done + [WithReg(i, used)], rest)
  {
    hide Bytes, Emit;
    BytesTwo(i, rest);
    assert bytes == base + Bytes(done) + Emit(i) + Bytes(rest);
    PassingNext(base, code, pos, used, most, done, i, rest);
  }

  /** The size of the instruction at pos, from its opcode and its count. */
  method InstructionSize(b: seq<Byte>, pos: nat, ghost i: Instr, ghost rest: seq<Byte>) returns (len: nat)
    requires pos <= |b| && b[pos..] == Emit(i) + rest && Sized(i)
    ensures len == Size(i) && pos + len <= |b| && b[pos] == Emit(i)[0]
  {
    hide Emit, OpcodeSize, Sized;
    SizeFound(b, pos, i, rest);
    Classified(i);
    var opcode := b[pos];
    len := OpcodeSize(opcode);
    if 36 <= opcode <= 39 {
      len := 3 + (if opcode < 38 then 4 else 8) * GetU16(b, pos + 1);
    } else if 32 <= opcode <= 35 {
      len := 2 + b[pos + 1] as int;
    }
  }

  /** compute_register_count: the number of registers, or -1 when there are too many. */
  method ComputeRegisterCount(buf: Buffer, start: nat, ghost base: seq<Byte>,
      ghost code: seq<Instr>) returns (count: int)
    requires Holds(buf, base, code) && start == |base| && AllSized(code) && Balanced(code, 0)
    modifies buf
    ensures count == -1 || (count == Peak(code, 0) && Holds(buf, base, Assign(code, 0)))
    ensures count == -1 <==> Peak(code, 0) > REGISTER_COUNT_MAX
  {
    hide Bytes, Emit, Sized, Balanced, Assign, Peak, Passing, WithReg, Stored, PushOp, PopsOp, After, Pops, Pushes;
    var stackSize: nat, stackSizeMax: nat, pos: nat := 0, 0, start;
    ghost var done: seq<Instr>, rest := [], code;
    PassingStarts(base, code);
    PassingEnds(buf.bytes, base, code, pos, stackSize, stackSizeMax, done, rest);
    while pos < |buf.bytes|
      invariant Passing(buf.bytes, base, code, pos, stackSize, stackSizeMax, done, rest) && AllSized(rest)
      invariant pos <= |buf.bytes| && (pos == |buf.bytes| <==> rest == [])
      decreases |rest|
    {
      ghost var i, more, used, most := rest[0], rest[1..], stackSize, stackSizeMax;
      assert rest == [i] + more;
      PassingHead(buf.bytes, base, code, pos, used, stackSizeMax, done, i, more);
      OpcodeRegs(i);
      var len := InstructionSize(buf.bytes, pos, i, Bytes(more));
      var opcode := buf.bytes[pos];
      AfterOp(i, used);
      RegWritten(base + Bytes(done), i, used, Bytes(more));
      if PushOp(opcode) {
        buf.SetByte(pos + 1, stackSize);
        stackSize := stackSize + 1;
        if stackSize > stackSizeMax {
          if stackSize > REGISTER_COUNT_MAX {
            return -1;
          }
          stackSizeMax := stackSize;
        }
      } else if PopsOp(opcode) > 0 {
        stackSize := stackSize - PopsOp(opcode);
        buf.SetByte(pos + 1, stackSize);
      }
      assert stackSize == After(i, used);
      assert stackSizeMax == Max(most, After(i, used));
      assert buf.bytes == base + Bytes(done) + Emit(WithReg(i, used)) + Bytes(more);
      done, rest := done + [WithReg(i, used)], more;
      pos := pos + len;
      PassingEnds(buf.bytes, base, code, pos, stackSize, stackSizeMax, done, rest);
    }
    PassingEnds(buf.bytes, base, code, pos, stackSize, stackSizeMax, done, rest);
    return stackSizeMax;
  }

  lemma {:induction false} AfterOp(i: Instr, used: nat)
    requires Pops(i) <= used
    ensures Pushes(i) ==> After(i, used) == used + 1 && Pops(i) == 0
    ensures !Pushes(i) ==> After(i, used) == used - Pops(i)
    ensures !UsesReg(i) ==> WithReg(i, used) == i
  {
  }
}

/** lre_compile: the header, the search loop, the pattern, and the allocation of the registers. */
module Compile {
  import opened RegexpSyntax
  import opened Bytecode
  import opened CodeGen
  import opened Encoding
  import opened Image
  import opened CodeOutcomes
  import opened CodeBuffer
  import opened CodeSized
  import opened Analysis
  import opened QuantEmission
  import opened Spines
  import opened Parser
  import opened Registers
  import opened RegisterPass
  import opened Engine

  /** Every back reference is to one of total groups. */
  predicate Refers(n: Node, total: nat) {
    match n
    case BackRef(gs, _) => forall i :: 0 <= i < |gs| ==> gs[i] < total
    case Cat(l, r) => Refers(l, total) && Refers(r, total)
    case Alt(l, r) => Refers(l, total) && Refers(r, total)
    case Group(b) => Refers(b, total)
    case Quant(b, _, _, _) => Refers(b, total)
    case Look(_, _, b) => Refers(b, total)
    case _ => true
  }

  lemma {:induction false} RefersWellFormed(n: Node, wide: nat, total: nat)
    requires WellFormed(n, wide) && Refers(n, total)
    ensures WellFormed(n, total)
  {
    match n
    case Cat(l, r) =>
      RefersWellFormed(l, wide, total);
      RefersWellFormed(r, wide, total);
    case Alt(l, r) =>
      RefersWellFormed(l, wide, total);
      RefersWellFormed(r, wide, total);
    case Group(b) => RefersWellFormed(b, wide, total);
    case Quant(b, _, _, _) => RefersWellFormed(b, wide, total);
    case Look(_, _, b) => RefersWellFormed(b, wide, total);
    case _ =>
  }

  /** Every class has fewer than 65535 intervals. */
  predicate SmallClasses(n: Node) {
    match n
    case Test(t) => t.Class? ==> |t.ranges| < 65535
    case Cat(l, r) => SmallClasses(l) && SmallClasses(r)
    case Alt(l, r) => SmallClasses(l) && SmallClasses(r)
    case Group(b) => SmallClasses(b)
    case Quant(b, _, _, _) => SmallClasses(b)
    case Look(_, _, b) => SmallClasses(b)
    case _ => true
  }

  /** Of what a pattern has to keep to, only the sizes of its classes are left to check. */
  lemma {:induction false} WellFormedIff(n: Node, total: nat)
    requires Parsable(n) && Refers(n, total) && total <= 255
    ensures WellFormed(n, 255) <==> SmallClasses(n)
  {
    match n
    case Cat(l, r) =>
      WellFormedIff(l, total);
      WellFormedIff(r, total);
    case Alt(l, r) =>
      WellFormedIff(l, total);
      WellFormedIff(r, total);
    case Group(b) => WellFormedIff(b, total);
    case Quant(b, _, _, _) => WellFormedIff(b, total);
    case Look(_, _, b) => WellFormedIff(b, total);
    case _ =>
  }

  lemma {:induction false} CompilableIff(n: Node)
    requires Parsable(n) && Refers(n, 1 + Count(n))
    ensures Compilable(n, 1) <==> Count(n) <= 254 && SmallClasses(n)
    ensures Compilable(n, 1) ==> WellFormed(n, 255)
  {
    hide Parsable, Refers, Count, WellFormed, SmallClasses;
    if Count(n) <= 254 {
      WellFormedIff(n, 1 + Count(n));
    }
  }

  /** The limits of a pattern: 255 captures with that of the whole match, 65534 intervals a class, 255 registers, and
      the bytes an image may have. */
  predicate WithinLimits(alpha: Alphabet, n: Node, sticky: bool)
    requires Parsable(n) && Refers(n, 1 + Count(n))
  {
    && Count(n) <= 254 && SmallClasses(n)
    && (CompilableIff(n);
        Depth(alpha, n, 1, false) <= 255 && 8 + CodeSize(GenProgram(alpha, n, sticky, -1)) <= 0x3fff_ffff)
  }

  function SearchCode(sticky: bool): (r: seq<Instr>) {
    if sticky then [] else [Split(true, 6), Single(OpAny), Goto(-11)]
  }

  lemma {:induction false} SearchBytes()
    ensures Bytes([Split(true, 6), Single(OpAny), Goto(-11)]) == [14] + PutU32(6) + [6] + ([13] + PutU32(-11))
    ensures Bytes([SaveStart(0)]) == [19, 0] && Bytes([SaveEnd(0), MatchEnd]) == [20, 0] + [16]
  {
    hide Bytes, PutU32;
    var split, any, jump := Split(true, 6), Single(OpAny), Goto(-11);
    BytesTwo(split, [any] + [jump]);
    BytesTwo(any, [jump]);
    BytesOne(jump);
    assert [split] + ([any] + [jump]) == [split, any, jump];
    BytesOne(SaveStart(0));
    BytesTwo(SaveEnd(0), [MatchEnd]);
    BytesOne(MatchEnd);
    assert [SaveEnd(0)] + [MatchEnd] == [SaveEnd(0), MatchEnd];
  }

  /** The bytes of the whole program, from those of its parts. */
  lemma {:induction false} ProgramBytes(header: seq<Byte>, alpha: Alphabet, n: Node, sticky: bool)
    requires WellFormed(n, CAPTURE_COUNT_MAX)
    ensures header + Bytes(SearchCode(sticky)) + [19, 0] + Bytes(Gen(alpha, n, 1, false, -1)) + [20, 0] + [16] ==
            header + Bytes(GenProgram(alpha, n, sticky, -1))
  {
    hide Bytes, Gen;
    SearchBytes();
    var body := Gen(alpha, n, 1, false, -1);
    BytesConcat(SearchCode(sticky), [SaveStart(0)] + body + [SaveEnd(0), MatchEnd]);
    BytesConcat([SaveStart(0)] + body, [SaveEnd(0), MatchEnd]);
    BytesConcat([SaveStart(0)], body);
  }

  lemma {:induction false} ProgramSized(alpha: Alphabet, n: Node, sticky: bool)
    requires WellFormed(n, CAPTURE_COUNT_MAX)
    ensures AllSized(GenProgram(alpha, n, sticky, -1))
  {
    hide Gen;
    GenSized(alpha, n, 1, false, -1);
  }

  /** The allocation pass turns the program the parser emits into the one the theorem about runs is for. */
  lemma {:induction false} ProgramAllocates(alpha: Alphabet, n: Node, sticky: bool)
    requires WellFormed(n, CAPTURE_COUNT_MAX)
    ensures Allocates(GenProgram(alpha, n, sticky, -1), 0, GenProgram(alpha, n, sticky, 0), 0, Depth(alpha, n, 1,
        false))
  {
    hide Allocates, Gen, Depth;
    var h := Depth(alpha, n, 1, false);
    var raw, out := Gen(alpha, n, 1, false, -1), Gen(alpha, n, 1, false, 0);
    GenAllocates(alpha, n, 1, false, 0);
    PlainAllocates(SearchCode(sticky));
    PlainAllocates([SaveStart(0)]);
    PlainAllocates([SaveEnd(0), MatchEnd]);
    AllocatesConcat([SaveStart(0)], 0, [SaveStart(0)], 0, 0, raw, out, 0, h);
    AllocatesConcat([SaveStart(0)] + raw, 0, [SaveStart(0)] + out, 0, h, [SaveEnd(0), MatchEnd], [SaveEnd(0),
        MatchEnd], 0, 0);
    AllocatesConcat(SearchCode(sticky), 0, SearchCode(sticky), 0, 0, [SaveStart(0)] + raw + [SaveEnd(0), MatchEnd],
                    [SaveStart(0)] + out + [SaveEnd(0), MatchEnd], 0, h);
  }

  lemma {:induction false} PlainAllocates(code: seq<Instr>)
    requires forall i :: 0 <= i < |code| ==> !UsesReg(code[i])
    ensures Allocates(code, 0, code, 0, 0)
    decreases |code|
  {
    if code != [] {
      assert WithReg(code[0], 0) == code[0];
      PlainAllocates(code[1..]);
    }
  }

  /** The search loop, group 0 around the pattern, and the match. */
  method EmitProgram(s: ParseState, n: Node, sticky: bool) returns (ok: bool)
    requires Parsable(n) && s.captureCount == 1
    modifies s, s.byteCode
    ensures ok <==> Compilable(n, 1)
    ensures ok ==>
      s.captureCount == 1 + Count(n) && Holds(s.byteCode, old(s.byteCode.bytes), GenProgram(s.alpha, n, sticky, -1))
  {
    hide Gen, GenProgram, Count, WellFormed, Parsable, Bytes, PutU32;
    ghost var base := s.byteCode.bytes;
    SearchBytes();
    NoCode();
    if !sticky {
      var _ := s.byteCode.EmitOpU32(14, 1 + 5);
      s.byteCode.PutC(6);
      var _ := s.byteCode.EmitOpU32(13, -(5 + 1 + 5));
    }
    assert s.byteCode.bytes == base + Bytes(SearchCode(sticky));
    s.byteCode.EmitOpU8(19, 0);
    ok := s.ParseDisjunction(n, false);
    if ok {
      s.byteCode.EmitOpU8(20, 0);
      s.byteCode.PutC(16);
      ProgramBytes(base, s.alpha, n, sticky);
    }
  }

  /** The counts in the header, once the registers have been allocated. */
  method FillHeader(buf: Buffer, captures: nat, registers: nat, flags: nat, ghost body: seq<Byte>)
    requires buf.bytes == PutU16(flags) + [0] + [0] + PutU32(0) + body
    requires captures < 256 && registers < 256 && flags <= 0xffff && |body| < 0x1_0000_0000
    modifies buf
    ensures |buf.bytes| == RE_HEADER_LEN + |body| && buf.bytes[RE_HEADER_LEN..] == body
    ensures buf.bytes[RE_HEADER_CAPTURE_COUNT] == captures && buf.bytes[RE_HEADER_REGISTER_COUNT] == registers
    ensures GetU16(buf.bytes, 0) == flags && GetU32(buf.bytes, RE_HEADER_BYTECODE_LEN) == |body|
  {
    hide PutU32, PutU16, GetU16, GetU32, Stored;
    HeaderFilled(PutU16(flags) + [0] + [0] + PutU32(0), body, captures, registers, flags);
    buf.SetByte(RE_HEADER_CAPTURE_COUNT, captures);
    buf.SetByte(RE_HEADER_REGISTER_COUNT, registers);
    buf.SetU32(RE_HEADER_BYTECODE_LEN, |buf.bytes| - RE_HEADER_LEN);
  }

  /** lre_compile: it fails exactly when the pattern exceeds one of the limits. */
  method LreCompile(alpha: Alphabet, n: Node, sticky: bool, flags: nat) returns (r: Option<seq<Byte>>)
    requires Parsable(n) && Refers(n, 1 + Count(n)) && flags <= 0xffff
    ensures r.Some? <==> WithinLimits(alpha, n, sticky)
    ensures r.Some? ==> Compiled(r.value, alpha, n, sticky) && GetU16(r.value, 0) == flags
  {
    hide GenProgram, Depth, Count, WellFormed, Parsable, Refers, Bytes, CodeSize, PutU32, PutU16, GetU16, Allocates,
        AllSized, Balanced, Assign, Peak, GetU32, SmallClasses, Compilable;
    CompilableIff(n);
    var s := new ParseState(alpha);
    s.byteCode.PutU16(flags);
    s.byteCode.PutC(0);
    s.byteCode.PutC(0);
    s.byteCode.PutU32(0);
    ghost var header := s.byteCode.bytes;
    assert header == PutU16(flags) + [0] + [0] + PutU32(0);
    var ok := EmitProgram(s, n, sticky);
    if !ok {
      return None;
    }
    ghost var code, out := GenProgram(alpha, n, sticky, -1), GenProgram(alpha, n, sticky, 0);
    if |s.byteCode.bytes| > CODE_SIZE_MAX {
      return None;
    }
    ProgramSized(alpha, n, sticky);
    ProgramAllocates(alpha, n, sticky);
    AllocatesParts(code, out, Depth(alpha, n, 1, false));
    var registerCount := ComputeRegisterCount(s.byteCode, RE_HEADER_LEN, header, code);
    if registerCount < 0 {
      return None;
    }
    FillHeader(s.byteCode, s.captureCount, registerCount, flags, Bytes(out));
    RefersWellFormed(n, CAPTURE_COUNT_MAX, 1 + Count(n));
    return Some(s.byteCode.bytes);
  }

  lemma {:induction false} AllocatesParts(code: seq<Instr>, out: seq<Instr>, peak: nat)
    requires Allocates(code, 0, out, 0, peak)
    ensures Balanced(code, 0) && Assign(code, 0) == out && Peak(code, 0) == peak
    ensures CodeSize(out) == CodeSize(code)
  {
    AllocatesSize(code, 0, out, 0, peak);
  }

  lemma {:induction false} HeaderFilled(header: seq<Byte>, body: seq<Byte>, captures: nat, registers: nat, flags: nat)
    requires header == PutU16(flags) + [0] + [0] + PutU32(0) && captures < 256 && registers < 256 && flags <= 0xffff
    requires |body| < 0x1_0000_0000
    ensures var filled := Stored(Stored(Stored(header + body, 2, [captures % 256]), 3, [registers % 256]), 4,
        PutU32(|body|));
      && |filled| == 8 + |body|
      && filled[2] == captures && filled[3] == registers && filled[8..] == body && GetU16(filled, 0) == flags
      && GetU32(filled, 4) == |body|
  {
    hide PutU32, GetU32;
    var filled := Stored(Stored(Stored(header + body, 2, [captures % 256]), 3, [registers % 256]), 4, PutU32(|body|));
    assert filled[0..2] == PutU16(flags);
    GetPutU16(filled, 0, flags);
    GetPutU32(filled, 4, |body|);
  }
}

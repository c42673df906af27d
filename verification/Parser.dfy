/** The recursive-descent compiler. It walks the pattern in the order in which the parser meets its
    parts, and emits, inserts and patches bytes as the parser does. */
module Parser {
  import opened RegexpSyntax
  import opened Bytecode
  import opened QuantCode
  import opened CodeGen
  import opened Encoding
  import opened Image
  import opened CodeBuffer
  import opened QuantEmission
  import opened Spines
  import opened CodeSized
  import Sequences

  /** What separates calls on the same node: a part that is itself a spine stands in a group (?:...). */
  function TermRank(n: Node): (r: nat) {
    if n.Alt? || n.Cat? || n.Empty? then 5 else 1
  }

  function DisjunctionRank(n: Node): (r: nat) {
    if n.Alt? then 4 else 3
  }

  function AlternativeRank(n: Node): (r: nat) {
    if n.Alt? then 6 else 2
  }

  class ParseState {
    const alpha: Alphabet
    const byteCode: Buffer
    var captureCount: nat

    constructor (alpha: Alphabet)
      ensures this.alpha == alpha && fresh(byteCode) && byteCode.bytes == [] && captureCount == 1
    {
      this.alpha := alpha;
      byteCode := new Buffer();
      captureCount := 1;
    }

    /** The code of a part that started with the buffer at base and c groups is in the buffer. */
    ghost predicate Parsed(base: seq<Byte>, c: nat, count: nat, code: seq<Instr>)
      reads this, byteCode
    {
      captureCount == c + count && byteCode.bytes == base + Bytes(code)
    }

    /** re_emit_char */
    method EmitChar(c: Char, icase: bool)
      modifies byteCode
      ensures byteCode.bytes == old(byteCode.bytes) + Emit(Single(OpChar(c, icase)))
    {
      if c <= 0xffff {
        byteCode.EmitOpU16(1 + if icase then 1 else 0, c);
      } else {
        var _ := byteCode.EmitOpU32(3 + if icase then 1 else 0, c);
      }
    }

    /** re_emit_range: it fails when there are too many intervals to count in 16 bits. */
    method EmitRange(rs: seq<Interval>, icase: bool) returns (ok: bool)
      requires Increasing(rs)
      modifies byteCode
      ensures ok <==> |rs| < 65535
      ensures ok ==> byteCode.bytes == old(byteCode.bytes) + Emit(Single(GenRange(rs, icase)))
    {
      hide EmitPairs, PutU16, PutU32, Emit, EmitOp, GenRange, PairsOf;
      var len := |rs|;
      if len >= 65535 {
        return false;
      }
      if len == 0 {
        var _ := byteCode.EmitOpU32(3, -1);
        EmptyRange(icase);
        return true;
      }
      var high := rs[len - 1].hi;
      if high == UINT32_MAX {
        high := rs[len - 1].lo;
      }
      var wide := high > 0xffff;
      byteCode.EmitOpU16((if wide then 38 else 36) + (if icase then 1 else 0), len);
      EmitIntervals(rs, wide);
      RangeBytes(rs, icase, wide);
      return true;
    }

    method EmitIntervals(rs: seq<Interval>, wide: bool)
      requires forall i :: 0 <= i < |rs| ==> rs[i].lo < rs[i].hi
      modifies byteCode
      ensures byteCode.bytes == old(byteCode.bytes) + EmitPairs(PairsOf(rs, wide), wide)
    {
      hide PutU16, PutU32;
      ghost var ps := PairsOf(rs, wide);
      ghost var goal := byteCode.bytes + EmitPairs(ps, wide);
      var i := 0;
      assert ps[0..] == ps;
      while i < |rs|
        invariant 0 <= i <= |rs|
        invariant byteCode.bytes + EmitPairs(ps[i..], wide) == goal
      {
        assert ps[i..][1..] == ps[i + 1..] && ps[i..][0] == ps[i];
        EmitInterval(rs[i], wide, EmitPairs(ps[i + 1..], wide));
        i := i + 1;
      }
      assert ps[i..] == [];
    }

    /** One interval: 0xffff stands for infinity in the 16-bit form. */
    method EmitInterval(r: Interval, wide: bool, ghost rest: seq<Byte>)
      requires r.lo < r.hi
      modifies byteCode
      ensures var p := Pair(r.lo, if !wide && r.hi == UINT32_MAX then 0xffff else r.hi - 1);
        byteCode.bytes + rest ==
        old(byteCode.bytes) + ((if wide then PutU32(p.lo) + PutU32(p.hi) else PutU16(p.lo) + PutU16(p.hi)) + rest)
    {
      if wide {
        byteCode.PutU32(r.lo);
        byteCode.PutU32(r.hi - 1);
      } else {
        byteCode.PutU16(r.lo);
        var high := r.hi - 1;
        if high == UINT32_MAX - 1 {
          high := 0xffff;
        }
        byteCode.PutU16(high);
      }
    }

    /** The atoms that read one character; backward, a prev goes on each side. */
    method ParseTest(t: CharTest, back: bool) returns (ok: bool)
      requires Parsable(Test(t))
      modifies byteCode
      ensures ok <==> WellFormed(Test(t), CAPTURE_COUNT_MAX)
      ensures ok ==>
        byteCode.bytes
        == old(byteCode.bytes) + Bytes(if back then [Prev, Single(GenTest(alpha, t)), Prev] else [Single(GenTest(alpha,
            t))])
    {
      hide Emit, EmitOp, Bytes;
      ok := true;
      if back {
        byteCode.PutC(44);
      }
      match t {
        case Literal(c, icase) => EmitChar(if icase then alpha.canon(c) else c, icase);
        case Dot => byteCode.PutC(5);
        case Any => byteCode.PutC(6);
        case Space(negated) => byteCode.PutC(7 + if negated then 1 else 0);
        case Class(rs, icase) => ok := EmitRange(rs, icase);
      }
      if ok {
        SimpleBytes(t);
        TestBytes(old(byteCode.bytes), Single(GenTest(alpha, t)), back);
      }
      if back {
        byteCode.PutC(44);
      }
    }

    /** ^, $, \b and \B */
    method ParseAssertion(a: Assertion)
      modifies byteCode
      ensures byteCode.bytes == old(byteCode.bytes) + Bytes([Check(a)])
    {
      BytesOne(Check(a));
      match a
      case LineStart(multiline) => byteCode.PutC(9 + if multiline then 1 else 0);
      case LineEnd(multiline) => byteCode.PutC(11 + if multiline then 1 else 0);
      case WordBoundary(negated, icase) =>
        byteCode.PutC(28 + (if negated then 2 else 0) + if icase then 1 else 0);
    }

    /** A back reference to any of the groups. A group number that no pattern can define is refused
        here; the parser refuses it when it reaches the group. */
    method ParseBackReference(gs: seq<nat>, icase: bool, back: bool) returns (ok: bool)
      requires |gs| <= 255
      modifies byteCode
      ensures ok <==> WellFormed(BackRef(gs, icase), CAPTURE_COUNT_MAX)
      ensures ok ==> byteCode.bytes == old(byteCode.bytes) + Bytes([BackReference(back, icase, gs)])
    {
      BytesOne(BackReference(back, icase, gs));
      byteCode.EmitOpU8(32 + (if back then 2 else 0) + (if icase then 1 else 0), |gs|);
      ghost var goal := byteCode.bytes + EmitGroups(gs);
      assert goal == old(byteCode.bytes) + Emit(BackReference(back, icase, gs));
      var i := 0;
      assert gs[0..] == gs;
      while i < |gs|
        invariant 0 <= i <= |gs| && forall k :: 0 <= k < i ==> gs[k] < CAPTURE_COUNT_MAX
        invariant byteCode.bytes + EmitGroups(gs[i..]) == goal
      {
        if gs[i] >= CAPTURE_COUNT_MAX {
          return false;
        }
        assert gs[i..][1..] == gs[i + 1..];
        byteCode.PutC(gs[i]);
        i := i + 1;
      }
      assert gs[i..] == [];
      return true;
    }

    /** A split before the alternatives parsed so far, and after them a goto whose target is not known yet. */
    method OpenAlternative(start: nat, ghost base: seq<Byte>, ghost left: seq<Instr>) returns (pos: nat)
      requires Holds(byteCode, base, left) && start == |base|
      modifies byteCode
      ensures byteCode.bytes == base + Bytes([Split(false, CodeSize(left) + 5)] + left) + ([13] + PutU32(0))
      ensures pos == |base| + CodeSize(left) + 6
    {
      hide Bytes, CodeSize, Emit, Stored, Gapped;
      var len := |byteCode.bytes| - start;
      assert len == CodeSize(left);
      byteCode.Insert(start, 5);
      ghost var gapped := byteCode.bytes;
      GapRoom(base + Bytes(left), gapped, start, 5);
      StoreSplit(byteCode, start, true, len + 5);
      Filled(base, left, gapped, Split(false, len + 5), false);
      assert [Split(false, len + 5)] + ([] + left) == [Split(false, len + 5)] + left;
      pos := byteCode.EmitOpU32(REOP_GOTO, 0);
      CodeSizeConcat([Split(false, len + 5)], left);
      CodeSizeOne(Split(false, len + 5));
    }

    /** The target of the goto is patched once the next alternative has been parsed. */
    method CloseAlternative(pos: nat, ghost base: seq<Byte>, ghost left: seq<Instr>, ghost right: seq<Instr>)
      requires byteCode.bytes ==
        base + Bytes([Split(false, CodeSize(left) + 5)] + left) + ([13] + PutU32(0)) + Bytes(right)
      requires pos == |base| + CodeSize(left) + 6
      modifies byteCode
      ensures Holds(byteCode, base, AltForm(left, right))
    {
      hide Bytes, CodeSize, Stored, PutU32;
      ghost var split := Split(false, CodeSize(left) + 5);
      CodeSizeConcat([split], left);
      CodeSizeOne(split);
      PatchGoto(base, [split] + left, right, byteCode.bytes);
      var len := |byteCode.bytes| - (pos + 4);
      byteCode.SetU32(pos, len);
    }

    /** re_parse_alternative */
    method ParseAlternative(n: Node, back: bool) returns (ok: bool)
      requires Parsable(n) && captureCount <= CAPTURE_COUNT_MAX
      modifies this, byteCode
      ensures ok <==> Compilable(n, old(captureCount))
      ensures ok ==>
        Parsed(old(byteCode.bytes), old(captureCount), Count(n), Gen(alpha, n, old(captureCount), back, -1))
      decreases n, AlternativeRank(n)
    {
      hide Gen, Count, WellFormed, Parsable, Bytes, CodeSize, GenTerms, CountAll;
      ghost var base, c := byteCode.bytes, captureCount;
      var terms := Terms(n);
      TermsMean(alpha, n, c, back);
      var start := |byteCode.bytes|;
      var i := 0;
      NoTerms(alpha, terms, c, back);
      while i < |terms|
        invariant 0 <= i <= |terms| && AllWellFormed(terms[..i])
        invariant Parsed(base, c, CountAll(terms[..i]), GenTerms(alpha, terms[..i], c, back))
        invariant captureCount <= CAPTURE_COUNT_MAX
      {
        ghost var before := GenTerms(alpha, terms[..i], c, back);
        var termStart := |byteCode.bytes|;
        ok := ParseTerm(terms[i], back);
        NextTerm(alpha, terms, i, c, back);
        if !ok {
          return;
        }
        ghost var term := Gen(alpha, terms[i], c + CountAll(terms[..i]), back, -1);
        if back {
          Rotated(base, before, term);
          byteCode.Rotate(start, termStart);
        } else {
          BytesConcat(before, term);
          Sequences.Assoc(base, Bytes(before), Bytes(term));
        }
        i := i + 1;
      }
      assert terms[..i] == terms;
      ok := true;
    }

    /** re_parse_term, without the quantifier that may follow. */
    method ParseTerm(n: Node, back: bool) returns (ok: bool)
      requires Parsable(n) && captureCount <= CAPTURE_COUNT_MAX
      modifies this, byteCode
      ensures ok <==> Compilable(n, old(captureCount))
      ensures ok ==>
        Parsed(old(byteCode.bytes), old(captureCount), Count(n), Gen(alpha, n, old(captureCount), back, -1))
      decreases n, TermRank(n)
    {
      hide GenTerms, CountAll, Bytes, CodeSize, GenQuant;
      ok := true;
      match n
      case Test(t) => ok := ParseTest(t, back);
      case Assert(a) => ParseAssertion(a);
      case BackRef(gs, icase) => ok := ParseBackReference(gs, icase, back);
      case Group(b) => ok := ParseCapture(b, back);
      case Look(negated, behind, b) => ok := ParseLookaround(b, negated, behind);
      case Quant(b, min, max, greedy) => ok := ParseQuantified(b, min, max, greedy, back);
      case _ => ok := ParseDisjunction(n, back);
    }

    /** A capture group. */
    method ParseCapture(b: Node, back: bool) returns (ok: bool)
      requires Parsable(b) && captureCount <= CAPTURE_COUNT_MAX
      modifies this, byteCode
      ensures ok <==> Compilable(Group(b), old(captureCount))
      ensures ok ==>
        Parsed(old(byteCode.bytes), old(captureCount), 1 + Count(b), Gen(alpha, Group(b), old(captureCount), back, -1))
      decreases b, 7
    {
      hide Bytes, CodeSize, Emit, Gen, Count, WellFormed, Parsable;
      ghost var base, c := byteCode.bytes, captureCount;
      GroupParts(alpha, b, c, back);
      if captureCount >= CAPTURE_COUNT_MAX {
        return false;
      }
      var captureIndex := captureCount;
      captureCount := captureCount + 1;
      byteCode.EmitOpU8(if back then 20 else 19, captureIndex);
      ghost var base1 := byteCode.bytes;
      ok := ParseDisjunction(b, back);
      if ok {
        ghost var body := Gen(alpha, b, c + 1, back, -1);
        byteCode.EmitOpU8(if back then 19 else 20, captureIndex);
        GroupBytes(base, c, body, back);
      }
    }

    /** A lookahead or lookbehind: the jump over its body is patched. */
    method ParseLookaround(b: Node, negated: bool, behind: bool) returns (ok: bool)
      requires Parsable(b) && captureCount <= CAPTURE_COUNT_MAX
      modifies this, byteCode
      ensures ok <==> Compilable(b, old(captureCount))
      ensures ok ==>
        var body := Gen(alpha, b, old(captureCount), behind, -1);
        Parsed(old(byteCode.bytes), old(captureCount), Count(b),
               [LookAround(negated, CodeSize(body) + 1)] + body + [LookMatch(negated)])
      decreases b, 7
    {
      hide Bytes, CodeSize, Gen, Count, WellFormed, Parsable, PutU32, Stored;
      ghost var base, c := byteCode.bytes, captureCount;
      var pos := byteCode.EmitOpU32(40 + if negated then 1 else 0, 0);
      ok := ParseDisjunction(b, behind);
      if ok {
        ghost var body := Gen(alpha, b, c, behind, -1);
        byteCode.PutC(17 + if negated then 1 else 0);
        LookBytes(base, negated, body, byteCode.bytes);
        byteCode.SetU32(pos, |byteCode.bytes| - (pos + 4));
      }
    }

    /** An atom and the quantifier that follows it. */
    method ParseQuantified(b: Node, min: nat, max: nat, greedy: bool, back: bool) returns (ok: bool)
      requires Parsable(b) && min <= max <= INT32_MAX && captureCount <= CAPTURE_COUNT_MAX
      modifies this, byteCode
      ensures ok <==> Compilable(b, old(captureCount))
      ensures ok ==>
        Parsed(old(byteCode.bytes), old(captureCount), Count(b), GenQuant(alpha, b, old(captureCount), back, -1, min,
            max, greedy))
      decreases b, 7
    {
      hide Bytes, CodeSize, Gen, Count, WellFormed, Parsable, QuantForm, NeedCheckAdv, NeedCaptureInit;
      ghost var base, c := byteCode.bytes, captureCount;
      var lastAtomStart, lastCaptureCount := |byteCode.bytes|, captureCount;
      ok := ParseTerm(b, back);
      if ok {
        ghost var code := Gen(alpha, b, c, back, -1);
        GenSized(alpha, b, c, back, -1);
        Quantify(byteCode, lastAtomStart, lastCaptureCount, captureCount - lastCaptureCount, min, max, greedy, base,
            code);
      }
    }

    /** re_parse_disjunction */
    method ParseDisjunction(n: Node, back: bool) returns (ok: bool)
      requires Parsable(n) && captureCount <= CAPTURE_COUNT_MAX
      modifies this, byteCode
      ensures ok <==> Compilable(n, old(captureCount))
      ensures ok ==>
        Parsed(old(byteCode.bytes), old(captureCount), Count(n), Gen(alpha, n, old(captureCount), back, -1))
      decreases n, DisjunctionRank(n)
    {
      hide Gen, Count, WellFormed, Parsable, Bytes, CodeSize, AltForm, GenAlternatives, CountAll;
      ghost var base, c := byteCode.bytes, captureCount;
      var alts := Alternatives(n);
      AlternativesMean(alpha, n, c, back);
      var start := |byteCode.bytes|;
      ok := ParseAlternative(alts[0], back);
      OneAlternative(alpha, alts, c, back);
      if !ok {
        return;
      }
      var i := 1;
      while i < |alts|
        invariant 1 <= i <= |alts| && AllWellFormed(alts[..i])
        invariant Parsed(base, c, CountAll(alts[..i]), GenAlternatives(alpha, alts[..i], c, back))
        invariant captureCount <= CAPTURE_COUNT_MAX
      {
        ghost var left := GenAlternatives(alpha, alts[..i], c, back);
        var pos := OpenAlternative(start, base, left);
        ghost var base1 := byteCode.bytes;
        ok := ParseAlternative(alts[i], back);
        NextAlternative(alpha, alts, i, c, back);
        if !ok {
          return;
        }
        CloseAlternative(pos, base, left, Gen(alpha, alts[i], c + CountAll(alts[..i]), back, -1));
        i := i + 1;
      }
      assert alts[..i] == alts;
    }
  }

  lemma {:induction false} PatchGoto(base: seq<Byte>, left: seq<Instr>, right: seq<Instr>, s: seq<Byte>)
    requires s == base + Bytes(left) + ([13] + PutU32(0)) + Bytes(right)
    ensures |s| == |base| + CodeSize(left) + 5 + CodeSize(right)
    ensures Stored(s, |base| + CodeSize(left) + 1, PutU32(CodeSize(right))) ==
            base + Bytes(left + [Goto(CodeSize(right))] + right)
  {
    hide Bytes, CodeSize, PutU32;
    var jump := Goto(CodeSize(right));
    var front := base + Bytes(left) + [13];
    assert s == front + PutU32(0) + Bytes(right);
    assert |front| == |base| + CodeSize(left) + 1;
    Patch(front, PutU32(0), PutU32(CodeSize(right)), Bytes(right));
    BytesConcat(left + [jump], right);
    BytesConcat(left, [jump]);
    BytesOne(jump);
    assert Emit(jump) == [13] + PutU32(CodeSize(right));
    assert front + PutU32(CodeSize(right)) + Bytes(right) == base + (Bytes(left) + Emit(jump) + Bytes(right));
  }

  lemma {:induction false} GroupParts(alpha: Alphabet, b: Node, c: nat, back: bool)
    ensures Compilable(Group(b), c) <==> c < CAPTURE_COUNT_MAX && Compilable(b, c + 1)
    ensures Count(Group(b)) == 1 + Count(b)
    ensures Compilable(Group(b), c) ==>
      Gen(alpha, Group(b), c, back, -1) ==
      if back then [SaveEnd(c)] + Gen(alpha, b, c + 1, back, -1) + [SaveStart(c)]
      else [SaveStart(c)] + Gen(alpha, b, c + 1, back, -1) + [SaveEnd(c)]
  {
  }

  lemma {:induction false} GroupBytes(base: seq<Byte>, c: nat, body: seq<Instr>, back: bool)
    requires c < 256
    ensures var (first, last) := if back then (SaveEnd(c), SaveStart(c)) else (SaveStart(c), SaveEnd(c));
      base + [if back then 20 else 19, c % 256] + Bytes(body) + [if back then 19 else 20, c % 256] ==
      base + Bytes([first] + body + [last])
  {
    hide Bytes;
    var (first, last) := if back then (SaveEnd(c), SaveStart(c)) else (SaveStart(c), SaveEnd(c));
    BytesConcat([first] + body, [last]);
    BytesConcat([first], body);
    BytesOne(first);
    BytesOne(last);
  }

  lemma {:induction false} LookBytes(base: seq<Byte>, negated: bool, body: seq<Instr>, s: seq<Byte>)
    requires s == base + ([40 + Flag(negated)] + PutU32(0)) + Bytes(body) + [17 + Flag(negated)]
    ensures |s| == |base| + CodeSize(body) + 6
    ensures Stored(s, |base| + 1, PutU32(CodeSize(body) + 1)) ==
            base + Bytes([LookAround(negated, CodeSize(body) + 1)] + body + [LookMatch(negated)])
  {
    hide Bytes, CodeSize, PutU32;
    var look, end := LookAround(negated, CodeSize(body) + 1), LookMatch(negated);
    var front, back := base + [40 + Flag(negated)], Bytes(body) + [17 + Flag(negated)];
    assert s == front + PutU32(0) + back;
    Patch(front, PutU32(0), PutU32(CodeSize(body) + 1), back);
    BytesConcat([look] + body, [end]);
    BytesConcat([look], body);
    BytesOne(look);
    BytesOne(end);
    assert Emit(look) == [40 + Flag(negated)] + PutU32(CodeSize(body) + 1) && Emit(end) == [17 + Flag(negated)];
    assert front + PutU32(CodeSize(body) + 1) + back == base + (Emit(look) + Bytes(body) + Emit(end));
  }

  /** The rotation of a backward alternative, on code. */
  lemma {:induction false} Rotated(base: seq<Byte>, before: seq<Instr>, term: seq<Instr>)
    ensures var s := base + Bytes(before) + Bytes(term);
      s[..|base|] + s[|base| + |Bytes(before)|..] + s[|base|..|base| + |Bytes(before)|] == base + Bytes(term + before)
  {
    hide Bytes;
    BytesConcat(term, before);
    var s := base + Bytes(before) + Bytes(term);
    assert s[..|base|] == base && s[|base| + |Bytes(before)|..] == Bytes(term);
    assert s[|base|..|base| + |Bytes(before)|] == Bytes(before);
  }

  lemma {:induction false} NoTerms(alpha: Alphabet, terms: seq<Node>, c: nat, back: bool)
    ensures AllWellFormed(terms[..0]) && CountAll(terms[..0]) == 0 && GenTerms(alpha, terms[..0], c, back) == []
    ensures Bytes(GenTerms(alpha, terms[..0], c, back)) == []
  {
  }

  lemma {:induction false} NextTerm(alpha: Alphabet, terms: seq<Node>, i: nat, c: nat, back: bool)
    requires i < |terms| && AllWellFormed(terms[..i])
    ensures CountAll(terms[..i + 1]) == CountAll(terms[..i]) + Count(terms[i]) <= CountAll(terms)
    ensures AllWellFormed(terms) ==> WellFormed(terms[i], CAPTURE_COUNT_MAX)
    ensures WellFormed(terms[i], CAPTURE_COUNT_MAX) ==> AllWellFormed(terms[..i + 1])
    ensures WellFormed(terms[i], CAPTURE_COUNT_MAX) ==>
      var term := Gen(alpha, terms[i], c + CountAll(terms[..i]), back, -1);
      GenTerms(alpha, terms[..i + 1], c, back) ==
      if back then term + GenTerms(alpha, terms[..i], c, back) else GenTerms(alpha, terms[..i], c, back) + term
  {
    hide Gen, WellFormed, Count, GenTerms, CountAll;
    assert terms[..i + 1] == terms[..i] + [terms[i]];
    Snoc(terms[..i], terms[i]);
    CountPrefix(terms, i + 1);
    if WellFormed(terms[i], CAPTURE_COUNT_MAX) {
      TermsSnoc(alpha, terms[..i], terms[i], c, back);
    }
  }

  lemma {:induction false} OneAlternative(alpha: Alphabet, alts: seq<Node>, c: nat, back: bool)
    requires alts != []
    ensures CountAll(alts[..1]) == Count(alts[0]) <= CountAll(alts)
    ensures AllWellFormed(alts[..1]) <==> WellFormed(alts[0], CAPTURE_COUNT_MAX)
    ensures AllWellFormed(alts) ==> WellFormed(alts[0], CAPTURE_COUNT_MAX)
    ensures WellFormed(alts[0], CAPTURE_COUNT_MAX) ==>
      GenAlternatives(alpha, alts[..1], c, back) == Gen(alpha, alts[0], c, back, -1)
  {
    hide Gen, WellFormed, Count;
    SpineOne(alts[0]);
    assert alts[..1] == [alts[0]];
    CountPrefix(alts, 1);
  }

  lemma {:induction false} NextAlternative(alpha: Alphabet, alts: seq<Node>, i: nat, c: nat, back: bool)
    requires 0 < i < |alts| && AllWellFormed(alts[..i])
    ensures CountAll(alts[..i + 1]) == CountAll(alts[..i]) + Count(alts[i]) <= CountAll(alts)
    ensures AllWellFormed(alts) ==> WellFormed(alts[i], CAPTURE_COUNT_MAX)
    ensures WellFormed(alts[i], CAPTURE_COUNT_MAX) ==> AllWellFormed(alts[..i + 1])
    ensures WellFormed(alts[i], CAPTURE_COUNT_MAX) ==>
      GenAlternatives(alpha, alts[..i + 1], c, back) ==
      AltForm(GenAlternatives(alpha, alts[..i], c, back), Gen(alpha, alts[i], c + CountAll(alts[..i]), back, -1))
  {
    hide Gen, WellFormed, Count, AltForm, GenAlternatives, CountAll;
    assert alts[..i + 1] == alts[..i] + [alts[i]];
    Snoc(alts[..i], alts[i]);
    CountPrefix(alts, i + 1);
    if WellFormed(alts[i], CAPTURE_COUNT_MAX) {
      AlternativesSnoc(alpha, alts[..i], alts[i], c, back);
    }
  }

  lemma {:induction false} EmptyRange(icase: bool)
    ensures Emit(Single(GenRange([], icase))) == [3] + PutU32(-1)
  {
    assert PutU32(-1) == PutU32(UINT32_MAX);
  }

  lemma {:induction false} RangeBytes(rs: seq<Interval>, icase: bool, wide: bool)
    requires Increasing(rs) && rs != [] && wide == (RangeHigh(rs) > 0xffff)
    ensures Emit(Single(GenRange(rs, icase))) ==
            [36 + 2 * Flag(wide) + Flag(icase)] + PutU16(|rs|) + EmitPairs(PairsOf(rs, wide), wide)
  {
    hide EmitPairs, PutU16;
  }

  lemma {:induction false} SimpleBytes(t: CharTest)
    ensures t.Dot? ==> Emit(Single(OpDot)) == [5]
    ensures t.Any? ==> Emit(Single(OpAny)) == [6]
    ensures t.Space? ==> Emit(Single(OpSpace(t.negated))) == [7 + Flag(t.negated)]
  {
  }

  lemma {:induction false} TestBytes(base: seq<Byte>, i: Instr, back: bool)
    ensures base + Bytes(if back then [Prev, i, Prev] else [i]) ==
            if back then base + [44] + Emit(i) + [44] else base + Emit(i)
  {
    BytesOne(i);
    BytesOne(Prev);
    BytesTwo(i, [Prev]);
    BytesTwo(Prev, [i] + [Prev]);
    assert [Prev] + ([i] + [Prev]) == [Prev, i, Prev];
  }
}

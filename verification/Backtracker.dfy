/** The backtracking interpreter with its real stack: choice points linked through the stack, and an
    undo log of captures and registers between them. */
module Backtracker {
  import opened RegexpSyntax
  import opened Bytecode
  import opened Encoding
  import opened Machine
  import opened UndoLog
  import opened RangeSearch
  import opened Image
  import RegexpSemantics

  /** What a failure leads to: the newest choice point that is not a lookahead, if there is one. */
  function Resume(stack: seq<Frame>): (r: Config)
    decreases |stack|
  {
    if stack == [] then Done(false, 0, [])
    else
      var f := stack[|stack| - 1];
      var rest := stack[..|stack| - 1];
      if f.kind == LookFrame then Resume(rest) else Run(f.pc, f.pos, f.mem, rest)
  }

  /** Every end of a capture that is set lies in the subject. */
  predicate Sane(mem: seq<int>, ncap: nat, len: nat) {
    forall i :: 0 <= i < 2 * ncap && i < |mem| ==> mem[i] == NULL || 0 <= mem[i] <= len
  }

  predicate SaneFrames(stack: seq<Frame>, ncap: nat, len: nat) {
    forall i :: 0 <= i < |stack| ==> Sane(stack[i].mem, ncap, len)
  }

  predicate SaneConfig(c: Config, ncap: nat, len: nat) {
    match c
    case Run(_, _, mem, stack) => Sane(mem, ncap, len) && SaneFrames(stack, ncap, len)
    case Fail(stack) => SaneFrames(stack, ncap, len)
    case _ => true
  }

  lemma {:induction false} SanePut(mem: seq<int>, k: nat, v: int, ncap: nat, len: nat)
    requires Sane(mem, ncap, len) && k < |mem| && (k >= 2 * ncap || 0 <= v <= len)
    ensures Sane(mem[k := v], ncap, len)
  {
  }

  lemma {:induction false} SaneNull(mem: seq<int>, lo: nat, hi: nat, ncap: nat, len: nat)
    requires Sane(mem, ncap, len)
    ensures Sane(NullRange(mem, lo, hi), ncap, len)
  {
  }

  lemma {:induction false} ExecSane(m: Code, i: Instr, next: int, pos: nat, mem: seq<int>, stack: seq<Frame>)
    requires pos <= |m.sub.text| && Sane(mem, m.ncap, |m.sub.text|) && SaneFrames(stack, m.ncap, |m.sub.text|)
    ensures SaneConfig(Exec(m, i, next, pos, mem, stack), m.ncap, |m.sub.text|)
  {
    hide Below, FirstSet, Compare, RegexpSemantics.Asserts, OpAccepts, Sane;
    var ncap, len := m.ncap, |m.sub.text|;
    match i
    case SaveStart(g) =>
      if 2 * g < |mem| {
        SanePut(mem, 2 * g, pos, ncap, len);
      }
    case SaveEnd(g) =>
      if 2 * g + 1 < |mem| {
        SanePut(mem, 2 * g + 1, pos, ncap, len);
      }
    case SaveReset(lo, hi) => SaneNull(mem, lo, hi, ncap, len);
    case SetI32(r, v) =>
      if 2 * ncap + r < |mem| {
        SanePut(mem, 2 * ncap + r, v, ncap, len);
      }
    case SetCharPos(r) =>
      if 2 * ncap + r < |mem| {
        SanePut(mem, 2 * ncap + r, pos, ncap, len);
      }
    case Loop(r, _) =>
      if 2 * ncap + r < |mem| {
        SanePut(mem, 2 * ncap + r, Decrement(mem[2 * ncap + r]), ncap, len);
      }
    case LoopSplit(_, _, r, _, _) =>
      if 2 * ncap + r < |mem| {
        SanePut(mem, 2 * ncap + r, Decrement(mem[2 * ncap + r]), ncap, len);
      }
    case _ =>
  }

  lemma {:induction false} StepSane(m: Code, c: Config)
    requires SaneConfig(c, m.ncap, |m.sub.text|)
    ensures SaneConfig(Step(m, c), m.ncap, |m.sub.text|)
  {
    hide Exec, Sane;
    if c.Run? && c.pc in m.prog && c.pos <= |m.sub.text| {
      ExecSane(m, m.prog[c.pc], c.pc + Size(m.prog[c.pc]), c.pos, c.mem, c.stack);
    } else if c.Fail? && c.stack != [] {
      assert Sane(c.stack[|c.stack| - 1].mem, m.ncap, |m.sub.text|);
    }
  }

  lemma {:induction false} StepsDone(m: Code, c: Config, n: nat)
    requires c.Done? || c.Stuck?
    ensures Steps(m, c, n) == c
    decreases n
  {
    if n > 0 {
      StepsDone(m, c, n - 1);
    }
  }

  /** A run that is going to end takes a step, and is not stuck. */
  lemma {:induction false} StepsProgress(m: Code, c: Config, n: nat)
    requires c.Run? && Steps(m, c, n).Done?
    ensures n > 0 && Step(m, c) != Stuck && Steps(m, Step(m, c), n - 1) == Steps(m, c, n)
  {
    hide Exec;
    if Step(m, c) == Stuck && n > 0 {
      StepsDone(m, Stuck, n - 1);
    }
  }

  lemma {:induction false} ResumeSteps(m: Code, stack: seq<Frame>, n: nat) returns (used: nat)
    requires Steps(m, Fail(stack), n).Done?
    ensures 0 < used <= n && Steps(m, Resume(stack), n - used) == Steps(m, Fail(stack), n)
    decreases |stack|
  {
    hide Exec;
    if stack != [] && stack[|stack| - 1].kind == LookFrame {
      used := ResumeSteps(m, stack[..|stack| - 1], n - 1);
      used := used + 1;
    } else {
      used := 1;
    }
  }

  lemma {:induction false} ResumeSane(stack: seq<Frame>, ncap: nat, len: nat)
    requires SaneConfig(Fail(stack), ncap, len)
    ensures SaneConfig(Resume(stack), ncap, len)
    decreases |stack|
  {
    hide Sane;
    if stack != [] {
      assert Sane(stack[|stack| - 1].mem, ncap, len);
      ResumeSane(stack[..|stack| - 1], ncap, len);
    }
  }

  /** Address a holds the bytes of its instruction. */
  predicate Decodes(bytes: seq<Byte>, prog: map<int, Instr>, a: int) {
    0 <= a && a in prog && Good(prog[a]) && Fetch(bytes, a) == Some(prog[a])
  }

  /** How the interpretation of one instruction ends: at the next one, at no_match, or with the match. */
  datatype Next = Goes | Fails | Matches

  lemma {:induction false} BelowTop(stack: seq<Frame>, kind: Kind)
    ensures Below(stack, kind) >= 0 ==> stack != []
    ensures stack != [] && stack[|stack| - 1].kind == kind ==> Below(stack, kind) == |stack| - 1
    ensures stack != [] && stack[|stack| - 1].kind != kind ==> Below(stack, kind) == Below(stack[..|stack| - 1], kind)
  {
  }

  class Execution {
    const sub: Subject
    const captureCount: nat
    const byteCode: seq<Byte>
    const capture: array<int>

    var pc: int
    var cptr: nat
    var stack: seq<Elem>
    var sp: nat
    var bp: nat

    ghost var log0: seq<Entry>
    ghost var segs: seq<Seg>

    ghost predicate Valid()
      reads this
    {
      Layout(stack, sp, bp, log0, segs, capture.Length)
    }

    /** The snapshots a machine that copies its memory would hold. */
    ghost function Frames(): (r: seq<Frame>)
      reads this, capture
      ensures |r| == |segs|
    {
      Snapshots(capture[..], segs)
    }

    ghost function View(): (r: Config)
      reads this, capture
    {
      Run(pc, cptr, capture[..], Frames())
    }

    /** The stack starts empty, in a buffer of 32 cells. */
    constructor (sub: Subject, captureCount: nat, byteCode: seq<Byte>, capture: array<int>, pc: int, cptr: nat)
      ensures this.sub == sub && this.captureCount == captureCount && this.byteCode == byteCode
        && this.capture == capture
      ensures Valid() && View() == Run(pc, cptr, capture[..], [])
    {
      this.sub, this.captureCount, this.byteCode, this.capture := sub, captureCount, byteCode, capture;
      this.pc, this.cptr := pc, cptr;
      stack, sp, bp := seq(32, _ => Val(0)), 0, 0;
      log0, segs := [], [];
    }

    /** CHECK_STACK_SPACE: the buffer grows; its contents stay. */
    method CheckStackSpace(n: nat)
      requires sp <= |stack|
      modifies this`stack
      ensures sp + n <= |stack| && stack[..sp] == old(stack[..sp])
    {
      if |stack| - sp < n {
        var size := |stack| * 3 / 2;
        if size < sp + n {
          size := sp + n;
        }
        stack := stack + seq(size - |stack|, _ => Val(0));
      }
    }

    /** SAVE_CAPTURE */
    method SaveCapture(idx: nat, value: int)
      requires Valid() && idx < capture.Length
      modifies this`stack, this`sp, this`log0, this`segs, capture
      ensures Valid() && capture[..] == old(capture[..])[idx := value]
      ensures Frames() == old(Frames())
    {
      hide Cells, Base, Snapshots, Undo, WithLog, Log0With, Within;
      ghost var mem := capture[..];
      CheckStackSpace(2);
      ghost var e := Entry(idx, capture[idx]);
      ghost var log := Top(log0, segs) + [e];
      UndoPush(mem, Top(log0, segs), idx, value);
      SnapshotsWritten(mem, segs, mem[idx := value], log);
      assert Layout(stack, sp, bp, log0, segs, capture.Length);
      LayoutLogged(stack, sp, bp, log0, segs, capture.Length, e);
      stack := Store2(stack, sp, Val(idx), Val(capture[idx]));
      sp := sp + 2;
      capture[idx] := value;
      log0, segs := Log0With(log0, segs, log), WithLog(segs, log);
      assert capture[..] == mem[idx := value];
    }

    /** SAVE_CAPTURE_CHECK: the old value is saved once between two choice points. */
    method SaveCaptureCheck(idx: nat, value: int)
      requires Valid() && idx < capture.Length
      modifies this`stack, this`sp, this`log0, this`segs, capture
      ensures Valid() && capture[..] == old(capture[..])[idx := value]
      ensures Frames() == old(Frames())
    {
      hide Cells, Base, Snapshots, Undo, Within, Layout;
      ghost var mem, log := capture[..], Top(log0, segs);
      LayoutUnlogged(stack, sp, bp, log0, segs, capture.Length);
      var sp1 := sp;
      ghost var n := |log|;
      while sp1 > bp
        invariant 0 <= n <= |log| && sp1 == bp + 2 * n
      {
        assert stack[bp + 2 * (n - 1)] == Val(log[n - 1].idx);
        if stack[sp1 - 2] == Val(idx) {
          assert Logged(log, idx);
          UndoSkip(mem, log, idx, value);
          assert WithLog(segs, log) == segs;
          SnapshotsWritten(mem, segs, mem[idx := value], log);
          capture[idx] := value;
          assert capture[..] == mem[idx := value];
          return;
        }
        sp1 := sp1 - 2;
        n := n - 1;
      }
      SaveCapture(idx, value);
    }

    method PushFrame(kind: Kind, target: int)
      requires Valid()
      modifies this`stack, this`sp, this`bp, this`segs
      ensures Valid()
      ensures Frames() == old(Frames()) + [Frame(kind, target, cptr, capture[..])]
    {
      hide Cells, Base, Snapshots, Undo, Within;
      CheckStackSpace(3);
      assert Layout(stack, sp, bp, log0, segs, capture.Length);
      LayoutPushed(stack, sp, bp, log0, segs, capture.Length, kind, target, cptr);
      SnapshotsPushed(capture[..], segs, kind, target, cptr);
      stack := Store2(stack, sp, Val(target), Val(cptr))[sp + 2 := Link(bp, kind)];
      sp := sp + 3;
      bp := sp;
      segs := segs + [Seg(kind, target, cptr, [])];
    }

    /** The loop that undoes the modifications of capture[] since the newest choice point. */
    method UndoCaptures()
      requires Valid() && segs != []
      modifies this`sp, this`segs, capture
      ensures Valid() && sp == bp && Frames() == old(Frames())
      ensures segs == WithLog(old(segs), [])
    {
      hide Cells, Base, Snapshots, Undo, Within, Layout;
      while sp > bp
        invariant Valid() && Frames() == old(Frames()) && segs != []
        invariant segs == WithLog(old(segs), Top(log0, segs))
      {
        UndoOne();
      }
      LayoutUnlogged(stack, sp, bp, log0, segs, capture.Length);
    }

    method UndoOne()
      requires Valid() && segs != [] && sp > bp
      modifies this`sp, this`segs, capture
      ensures Valid() && sp == old(sp) - 2 && Frames() == old(Frames())
      ensures segs != [] && segs == WithLog(old(segs), Top(log0, segs))
    {
      hide Cells, Base, Snapshots, Undo, Within, Layout;
      ghost var log, mem := Top(log0, segs), capture[..];
      LayoutUnlogged(stack, sp, bp, log0, segs, capture.Length);
      LayoutShorter(stack, sp, bp, log0, segs, capture.Length);
      ghost var n := |log| - 1;
      ghost var e := log[n];
      assert sp - 2 == bp + 2 * n;
      UndoLast(mem, log);
      SnapshotsWritten(mem, segs, mem[e.idx := e.old_], log[..n]);
      capture[stack[sp - 2].v] := stack[sp - 1].v;
      assert capture[..] == mem[e.idx := e.old_];
      sp := sp - 2;
      segs := WithLog(segs, log[..n]);
    }

    method PopFrame() returns (kind: Kind)
      requires Valid() && segs != [] && sp == bp
      modifies this`pc, this`cptr, this`sp, this`bp, this`segs
      ensures Valid() && segs == old(segs)[..|old(segs)| - 1]
      ensures Frames() == old(Frames())[..|old(segs)| - 1]
      ensures old(Frames())[|old(segs)| - 1] == Frame(kind, pc, cptr, capture[..])
    {
      hide Cells, Base, Within, Layout;
      LayoutUnlogged(stack, sp, bp, log0, segs, capture.Length);
      LayoutPopped(stack, sp, bp, log0, segs, capture.Length);
      pc := stack[sp - 3].v;
      cptr := stack[sp - 2].v;
      kind := stack[sp - 1].kind;
      bp := stack[sp - 1].bp;
      sp := sp - 3;
      segs := segs[..|segs| - 1];
    }

    /** no_match */
    method NoMatch() returns (more: bool)
      requires Valid()
      modifies this`pc, this`cptr, this`sp, this`bp, this`segs, capture
      ensures Valid()
      ensures Resume(old(Frames())) == if more then View() else Done(false, 0, [])
    {
      hide Layout, Snapshots;
      while true
        invariant Valid() && Resume(Frames()) == Resume(old(Frames()))
        decreases |segs|
      {
        LayoutBottom(stack, sp, bp, log0, segs, capture.Length);
        if bp == 0 {
          return false;
        }
        UndoCaptures();
        var kind := PopFrame();
        if kind != LookFrame {
          return true;
        }
      }
    }

    /** negative_lookahead_match, up to its jump to no_match. */
    method NegativeLookaheadMatch()
      requires Valid() && Below(Frames(), NegFrame) >= 0
      modifies this`pc, this`cptr, this`sp, this`bp, this`segs, capture
      ensures Valid() && Frames() == old(Frames())[..Below(old(Frames()), NegFrame)]
    {
      hide Layout, Snapshots, Below;
      while true
        invariant Valid() && Below(Frames(), NegFrame) == Below(old(Frames()), NegFrame)
        invariant |segs| <= |old(segs)| && Frames() == old(Frames())[..|segs|]
        decreases |segs|
      {
        BelowTop(Frames(), NegFrame);
        UndoCaptures();
        var kind := PopFrame();
        if kind == NegFrame {
          return;
        }
      }
    }

    /** The first loop of lookahead_match: back to the lookahead, leaving in each link where its log ends. */
    method FindLookahead() returns (ghost lower: seq<Seg>, ghost upper: seq<Seg>)
      requires Valid() && Below(Frames(), LookFrame) >= 0
      modifies this`pc, this`cptr, this`stack, this`sp, this`bp
      ensures segs == lower + upper && upper != []
      ensures Marking(stack, sp, bp, old(sp), log0, lower, upper)
      ensures |lower| == Below(Frames(), LookFrame)
      ensures pc == Frames()[|lower|].pc && cptr == Frames()[|lower|].pos
    {
      hide Layout, Marking, Snapshots, Below, Cells, Base;
      lower, upper := segs, [];
      ghost var k := Below(Frames(), LookFrame);
      MarkingStarts(stack, sp, bp, log0, segs, capture.Length);
      assert Frames()[..|lower|] == Frames();
      while true
        invariant segs == lower + upper
        invariant Marking(stack, sp, bp, old(sp), log0, lower, upper)
        invariant Below(Frames()[..|lower|], LookFrame) == k
        decreases |lower|
      {
        ghost var below := Frames()[..|lower|];
        BelowTop(below, LookFrame);
        ghost var g, rest := lower[|lower| - 1], lower[..|lower| - 1];
        assert lower == rest + [g];
        SnapshotFields(capture[..], segs, |rest|);
        assert segs[|rest|] == g;
        MarkingDown(stack, sp, bp, old(sp), log0, rest, g, upper);
        var sp1 := sp;
        sp := bp;
        pc := stack[sp - 3].v;
        cptr := stack[sp - 2].v;
        var kind := stack[sp - 1].kind;
        bp := stack[sp - 1].bp;
        stack := stack[sp - 1 := Val(sp1)];
        sp := sp - 3;
        assert below[..|rest|] == Frames()[..|rest|];
        assert rest + ([g] + upper) == lower + upper;
        lower, upper := rest, [g] + upper;
        if kind == LookFrame {
          return;
        }
      }
    }

    /** The second loop: the logs of the merged choice points slide down over their frames. */
    method KeepUndoInfo(spTop: nat, ghost lower: seq<Seg>, ghost upper: seq<Seg>)
      requires Marking(stack, sp, bp, spTop, log0, lower, upper)
      modifies this`stack, this`sp
      ensures Copying(stack, sp, spTop, spTop, Cells(log0, lower) + LogCells(Logs(upper)), [])
    {
      hide Cells, Base, LogCells, Logs, Marking, Copying, Marked;
      CopyingStarts(stack, sp, bp, spTop, log0, lower, upper);
      var sp1: nat := sp;
      ghost var i: nat := 0;
      ghost var base := Cells(log0, lower);
      LogsFirst(upper);
      assert base + [] == base && upper[0..] == upper;
      while sp1 < spTop
        invariant i <= |upper|
        invariant Copying(stack, sp, sp1, spTop, base + LogCells(Logs(upper[..i])), upper[i..])
        decreases |upper| - i
      {
        CopyingMore(stack, sp, sp1, spTop, base + LogCells(Logs(upper[..i])), upper[i..]);
        ghost var g, rest, kept := upper[i], upper[i + 1..], base + LogCells(Logs(upper[..i]));
        assert upper[i..] == [g] + rest;
        CopyingLog(stack, sp, sp1, spTop, kept, g, rest);
        var nextSp := stack[sp1 + 2].v;
        sp1 := sp1 + 3;
        CopyLog(sp1, nextSp, spTop, kept, LogCells(g.log), Marked(nextSp, rest));
        sp1 := nextSp;
        LogsNext(base, upper, i);
        CopyingFrom(stack, sp, sp1, spTop, base + LogCells(Logs(upper[..i + 1])), rest);
        i := i + 1;
      }
      CopyingEnds(stack, sp, sp1, spTop, base + LogCells(Logs(upper[..i])), upper[i..]);
      assert upper[..i] == upper;
    }

    /** The inner loop: cells [sp1, nextSp) are copied down to sp. */
    method CopyLog(from: nat, nextSp: nat, spTop: nat, ghost kept: seq<Elem>, ghost log: seq<Elem>,
        ghost rest: seq<Elem>)
      requires Moving(stack, sp, from, spTop, kept, log + rest) && nextSp == from + |log|
      modifies this`stack, this`sp
      ensures Moving(stack, sp, nextSp, spTop, kept + log, rest)
    {
      hide Moving;
      var sp1 := from;
      ghost var t: nat := 0;
      assert kept + log[..0] == kept && log[0..] + rest == log + rest;
      while sp1 < nextSp
        invariant t <= |log| && sp1 == from + t
        invariant Moving(stack, sp, sp1, spTop, kept + log[..t], log[t..] + rest)
      {
        ghost var left := log[t..] + rest;
        MovingOne(stack, sp, sp1, spTop, kept + log[..t], left);
        assert left[0] == log[t] && left[1..] == log[t + 1..] + rest;
        assert kept + log[..t] + [log[t]] == kept + log[..t + 1];
        stack := stack[sp := stack[sp1]];
        sp := sp + 1;
        sp1 := sp1 + 1;
        t := t + 1;
      }
      assert kept + log[..t] == kept + log && log[t..] + rest == rest;
    }

    /** lookahead_match: the choice points of the lookahead go, what they logged stays. */
    method LookaheadMatch()
      requires Valid() && Below(Frames(), LookFrame) >= 0
      modifies this`pc, this`cptr, this`stack, this`sp, this`bp, this`log0, this`segs
      ensures Valid()
      ensures var k := Below(old(Frames()), LookFrame);
        Frames() == old(Frames())[..k] && pc == old(Frames())[k].pc && cptr == old(Frames())[k].pos
    {
      hide Cells, Base, LogCells, Logs, Marking, Copying, Below, Snapshots, Layout, Top, WithLog, Log0With;
      var spTop := sp;
      ghost var n := capture.Length;
      assert Within(log0, segs, n) by { LayoutWithin(stack, sp, bp, log0, segs, n); }
      ghost var lower, upper := FindLookahead();
      WithinParts(log0, lower, upper, n);
      if sp != 0 {
        MarkingBase(stack, sp, bp, spTop, log0, lower, upper);
        KeepUndoInfo(spTop, lower, upper);
        ghost var log := Top(log0, lower) + Logs(upper);
        Copied(stack, sp, bp, spTop, log0, lower, Logs(upper), n);
        SnapshotsCollapsed(capture[..], log0, lower, upper);
        log0, segs := Log0With(log0, lower, log), WithLog(lower, log);
      } else {
        MarkingEmpty(stack, sp, bp, spTop, log0, lower, upper, n);
        assert Frames()[..0] == [];
        log0, segs := [], [];
        assert Snapshots(capture[..], []) == [] by { SnapshotsNone(capture[..]); }
      }
    }

    /** The state after an instruction that leads to the configuration c of the reference machine. */
    ghost predicate Agrees(next: Next, c: Config)
      reads this, capture
    {
      && Valid()
      && match next
         case Goes => c == View()
         case Fails => c == Fail(Frames())
         case Matches => c == Done(true, cptr, capture[..])
    }

    /** The instructions that read one character. */
    method TestChar(op: CharOp) returns (ok: bool)
      requires cptr <= |sub.text| && SortedOp(op)
      modifies this`cptr
      ensures ok <==> old(cptr) < |sub.text| && OpAccepts(sub.alpha, op, sub.text[old(cptr)])
      ensures ok ==> cptr == old(cptr) + 1
    {
      if cptr >= |sub.text| {
        return false;
      }
      var c := sub.text[cptr];
      cptr := cptr + 1;
      match op
      case OpChar(v, icase) =>
        if icase {
          c := sub.alpha.canon(c);
        }
        return v == c;
      case OpDot => return !RegexpSemantics.IsLineTerminator(c);
      case OpAny => return true;
      case OpSpace(negated) => return RegexpSemantics.IsSpace(c) != negated;
      case OpRange(ps, icase, wide) =>
        if icase {
          c := sub.alpha.canon(c);
        }
        ok := InRange(ps, wide, c);
    }

    /** line_start, line_end and word_boundary. */
    method TestAssertion(a: Assertion) returns (ok: bool)
      requires cptr <= |sub.text|
      ensures ok <==> RegexpSemantics.Asserts(sub, a, cptr)
    {
      match a
      case LineStart(multiline) =>
        if cptr == 0 {
          return true;
        }
        if !multiline {
          return false;
        }
        return RegexpSemantics.IsLineTerminator(sub.text[cptr - 1]);
      case LineEnd(multiline) =>
        if cptr == |sub.text| {
          return true;
        }
        if !multiline {
          return false;
        }
        return RegexpSemantics.IsLineTerminator(sub.text[cptr]);
      case WordBoundary(negated, icase) =>
        var v1, v2 := false, false;
        if cptr != 0 {
          v1 := RegexpSemantics.IsWordChar(sub.text[cptr - 1], icase);
        }
        if cptr < |sub.text| {
          v2 := RegexpSemantics.IsWordChar(sub.text[cptr], icase);
        }
        return (v1 != v2) != negated;
    }

    /** The loops that compare the text of a capture with the text at cptr. */
    method CompareForward(start: nat, end: nat, icase: bool) returns (ok: bool)
      requires start < end <= |sub.text| && cptr <= |sub.text|
      modifies this`cptr
      ensures ok <==> RegexpSemantics.MatchSpan(sub, RegexpSemantics.Span(start, end), icase, false, old(cptr)) != []
      ensures ok ==> RegexpSemantics.MatchSpan(sub, RegexpSemantics.Span(start, end), icase, false, old(cptr)) == [cptr]
    {
      ghost var from := cptr;
      var cptr1 := start;
      while cptr1 < end
        invariant start <= cptr1 <= end && cptr == from + (cptr1 - start) <= |sub.text|
        invariant forall k :: start <= k < cptr1 ==>
          RegexpSemantics.Same(sub.alpha, sub.text[k], sub.text[from + k - start], icase)
      {
        if cptr >= |sub.text| {
          return false;
        }
        var c1, c2 := sub.text[cptr1], sub.text[cptr];
        cptr1, cptr := cptr1 + 1, cptr + 1;
        if icase {
          c1, c2 := sub.alpha.canon(c1), sub.alpha.canon(c2);
        }
        if c1 != c2 {
          assert !RegexpSemantics.Same(sub.alpha, sub.text[cptr1 - 1], sub.text[from + (cptr1 - 1) - start], icase);
          return false;
        }
      }
      return true;
    }

    method CompareBackward(start: nat, end: nat, icase: bool) returns (ok: bool)
      requires start < end <= |sub.text| && cptr <= |sub.text|
      modifies this`cptr
      ensures ok <==> RegexpSemantics.MatchSpan(sub, RegexpSemantics.Span(start, end), icase, true, old(cptr)) != []
      ensures ok ==> RegexpSemantics.MatchSpan(sub, RegexpSemantics.Span(start, end), icase, true, old(cptr)) == [cptr]
    {
      ghost var from := cptr;
      ghost var shift := from - end;
      var cptr1 := end;
      while cptr1 > start
        invariant start <= cptr1 <= end && cptr == cptr1 + shift
        invariant forall k :: cptr1 <= k < end ==>
          RegexpSemantics.Same(sub.alpha, sub.text[k], sub.text[k + shift], icase)
      {
        if cptr == 0 {
          return false;
        }
        var c1, c2 := sub.text[cptr1 - 1], sub.text[cptr - 1];
        cptr1, cptr := cptr1 - 1, cptr - 1;
        if icase {
          c1, c2 := sub.alpha.canon(c1), sub.alpha.canon(c2);
        }
        if c1 != c2 {
          assert !RegexpSemantics.Same(sub.alpha, sub.text[cptr1], sub.text[cptr1 + shift], icase);
          return false;
        }
      }
      return true;
    }

    /** back_reference: the first group that is set decides. */
    method TestBackReference(back: bool, icase: bool, groups: seq<nat>) returns (ok: bool)
      requires cptr <= |sub.text| && 2 * captureCount <= capture.Length && Sane(capture[..], captureCount, |sub.text|)
      requires forall j :: 0 <= j < |groups| ==> groups[j] < captureCount
      modifies this`cptr
      ensures var (a, b) := FirstSet(capture[..], groups);
        var p := Compare(sub, a, b, icase, back, old(cptr));
        (ok <==> p != []) && (ok ==> p == [cptr])
    {
      hide RegexpSemantics.MatchSpan;
      var i := 0;
      while i < |groups|
        invariant 0 <= i <= |groups|
        invariant FirstSet(capture[..], groups) == FirstSet(capture[..], groups[i..])
      {
        var val := groups[i];
        if val >= captureCount {
          return false;
        }
        var cptr1Start, cptr1End := capture[2 * val], capture[2 * val + 1];
        assert capture[..][2 * val] == cptr1Start && capture[..][2 * val + 1] == cptr1End;
        if cptr1Start != NULL && cptr1End != NULL {
          if cptr1Start >= cptr1End {
            return true;
          }
          if back {
            ok := CompareBackward(cptr1Start, cptr1End, icase);
          } else {
            ok := CompareForward(cptr1Start, cptr1End, icase);
          }
          return;
        }
        assert groups[i..][1..] == groups[i + 1..];
        i := i + 1;
      }
      return true;
    }

    /** goto, the splits and the lookaheads. */
    method ExecJump(ghost m: Code, i: Instr) returns (next: Next)
      requires Valid() && m.sub == sub && m.ncap == captureCount && cptr <= |sub.text|
      requires i.Goto? || i.Split? || i.LookAround?
      modifies this`pc, this`stack, this`sp, this`bp, this`segs
      ensures Agrees(next, old(Exec(m, i, pc, cptr, capture[..], Frames())))
    {
      hide Layout, Snapshots;
      match i {
        case Goto(off) => pc := pc + off;
        case Split(gotoFirst, off) => SplitTo(gotoFirst, off);
        case LookAround(negated, off) => PushFrame(if negated then NegFrame else LookFrame, pc + off);
      }
      next := Goes;
    }

    method SplitTo(gotoFirst: bool, off: int)
      requires Valid()
      modifies this`pc, this`stack, this`sp, this`bp, this`segs
      ensures Valid()
      ensures View() == old(Branch(gotoFirst, pc + off, pc, cptr, capture[..], Frames()))
    {
      hide Layout, Snapshots;
      var pc1 := pc + off;
      if gotoFirst {
        pc, pc1 := pc1, pc;
      }
      PushFrame(SplitFrame, pc1);
    }

    /** The instructions that write captures or registers. */
    method ExecSave(ghost m: Code, i: Instr) returns (next: Next)
      requires Valid() && m.sub == sub && m.ncap == captureCount && cptr <= |sub.text|
      requires i.SaveStart? || i.SaveEnd? || i.SaveReset? || i.SetI32? || i.SetCharPos?
      requires Exec(m, i, pc, cptr, capture[..], Frames()) != Stuck
      modifies this`stack, this`sp, this`log0, this`segs, capture
      ensures Agrees(next, old(Exec(m, i, pc, cptr, capture[..], Frames())))
    {
      hide Layout, Snapshots;
      match i {
        case SaveStart(g) => SaveCapture(2 * g, cptr);
        case SaveEnd(g) => SaveCapture(2 * g + 1, cptr);
        case SaveReset(lo, hi) => ResetCaptures(lo, hi);
        case SetI32(r, v) => SaveCaptureCheck(2 * captureCount + r, v);
        case SetCharPos(r) => SaveCaptureCheck(2 * captureCount + r, cptr);
      }
      next := Goes;
    }

    /** save_reset */
    method ResetCaptures(lo: nat, hi: nat)
      requires Valid() && lo <= hi && 2 * hi + 1 < capture.Length
      modifies this`stack, this`sp, this`log0, this`segs, capture
      ensures Valid() && capture[..] == NullRange(old(capture[..]), lo, hi)
      ensures Frames() == old(Frames())
    {
      hide Layout, Snapshots;
      var val := lo;
      while val <= hi
        invariant lo <= val <= hi + 1
        invariant Valid() && Frames() == old(Frames())
        invariant forall i :: 0 <= i < capture.Length ==>
          capture[..][i] == if 2 * lo <= i < 2 * val then NULL else old(capture[..])[i]
      {
        SaveCapture(2 * val, NULL);
        SaveCapture(2 * val + 1, NULL);
        val := val + 1;
      }
    }

    /** loop, the loop splits and check_advance. */
    method ExecLoop(ghost m: Code, i: Instr) returns (next: Next)
      requires Valid() && m.sub == sub && m.ncap == captureCount && cptr <= |sub.text|
      requires i.Loop? || i.LoopSplit? || i.CheckAdvance?
      requires Exec(m, i, pc, cptr, capture[..], Frames()) != Stuck
      modifies this`pc, this`stack, this`sp, this`bp, this`log0, this`segs, capture
      ensures Agrees(next, old(Exec(m, i, pc, cptr, capture[..], Frames())))
    {
      hide Layout, Snapshots;
      var idx := 2 * captureCount + i.reg;
      match i {
        case CheckAdvance(_) => return if capture[idx] == cptr then Fails else Goes;
        case Loop(_, off) =>
          var val2 := Decrement(capture[idx]);
          SaveCaptureCheck(idx, val2);
          if val2 != 0 {
            pc := pc + off;
          }
        case LoopSplit(adv, gotoFirst, _, limit, off) =>
          var val2 := Decrement(capture[idx]);
          SaveCaptureCheck(idx, val2);
          if val2 > limit {
            pc := pc + off;
          } else {
            if adv && capture[idx + 1] == cptr && val2 != limit {
              return Fails;
            }
            if val2 != 0 {
              SplitTo(gotoFirst, off);
            }
          }
      }
      next := Goes;
    }

    /** The tests: characters, assertions, back references, and prev. */
    method ExecTest(ghost m: Code, i: Instr) returns (next: Next)
      requires Valid() && m.sub == sub && m.ncap == captureCount && cptr <= |sub.text|
      requires i.Single? || i.Check? || i.BackReference? || i.Prev?
      requires Good(i) && 2 * captureCount <= capture.Length && Sane(capture[..], captureCount, |sub.text|)
      requires Exec(m, i, pc, cptr, capture[..], Frames()) != Stuck
      modifies this`cptr
      ensures Agrees(next, old(Exec(m, i, pc, cptr, capture[..], Frames())))
    {
      hide Layout, Snapshots, FirstSet, Compare, InPairs;
      var ok := false;
      match i {
        case Single(op) => ok := TestChar(op);
        case Check(a) => ok := TestAssertion(a);
        case BackReference(back, icase, groups) => ok := TestBackReference(back, icase, groups);
        case Prev =>
          if cptr != 0 {
            cptr := cptr - 1;
            ok := true;
          }
      }
      next := if ok then Goes else Fails;
    }

    /** match and the ends of lookarounds. */
    method ExecEnd(ghost m: Code, i: Instr) returns (next: Next)
      requires Valid() && m.sub == sub && m.ncap == captureCount && cptr <= |sub.text|
      requires i.MatchEnd? || i.LookMatch?
      requires Exec(m, i, pc, cptr, capture[..], Frames()) != Stuck
      modifies this`pc, this`cptr, this`stack, this`sp, this`bp, this`log0, this`segs, capture
      ensures Agrees(next, old(Exec(m, i, pc, cptr, capture[..], Frames())))
    {
      hide Layout, Snapshots, Below;
      match i
      case MatchEnd => next := Matches;
      case LookMatch(negated) =>
        if negated {
          NegativeLookaheadMatch();
          next := Fails;
        } else {
          LookaheadMatch();
          next := Goes;
        }
    }

    /** The byte code is an image of the program of m. */
    ghost predicate Runs(m: Code) {
      && m.sub == sub && m.ncap == captureCount && 2 * captureCount <= capture.Length
      && forall a :: a in m.prog ==> Decodes(byteCode, m.prog, a)
    }

    /** One turn of the interpreter's switch. */
    method ExecOne(ghost m: Code) returns (next: Next)
      requires Valid() && Runs(m) && SaneConfig(View(), captureCount, |sub.text|) && Step(m, View()) != Stuck
      modifies this`pc, this`cptr, this`stack, this`sp, this`bp, this`log0, this`segs, capture
      ensures Agrees(next, old(Step(m, View())))
    {
      hide Layout, Snapshots, Fetch, Exec, Good;
      assert Decodes(byteCode, m.prog, pc);
      var i := Fetch(byteCode, pc).value;
      pc := pc + Size(i);
      match i
      case Goto(_) => next := ExecJump(m, i);
      case Split(_, _) => next := ExecJump(m, i);
      case LookAround(_, _) => next := ExecJump(m, i);
      case Single(_) => next := ExecTest(m, i);
      case Check(_) => next := ExecTest(m, i);
      case BackReference(_, _, _) => next := ExecTest(m, i);
      case Prev => next := ExecTest(m, i);
      case Loop(_, _) => next := ExecLoop(m, i);
      case LoopSplit(_, _, _, _, _) => next := ExecLoop(m, i);
      case CheckAdvance(_) => next := ExecLoop(m, i);
      case MatchEnd => next := ExecEnd(m, i);
      case LookMatch(_) => next := ExecEnd(m, i);
      case _ => next := ExecSave(m, i);
    }

    /** One turn of the loop, with what no_match does after it. It fails when no choice point is left. */
    method Turn(ghost m: Code, ghost left: nat) returns (next: Next, ghost left1: nat)
      requires Valid() && Runs(m) && SaneConfig(View(), captureCount, |sub.text|)
      requires Steps(m, View(), left).Done?
      modifies this`pc, this`cptr, this`stack, this`sp, this`bp, this`log0, this`segs, capture
      ensures next == Goes ==>
        && Valid() && SaneConfig(View(), captureCount, |sub.text|)
        && left1 < left && Steps(m, View(), left1) == old(Steps(m, View(), left))
      ensures next == Matches ==> old(Steps(m, View(), left)) == Done(true, cptr, capture[..])
      ensures next == Fails ==> old(Steps(m, View(), left)) == Done(false, 0, [])
    {
      assert m.sub == sub && m.ncap == captureCount;
      hide Layout, Snapshots, Step, Steps, Exec, Runs, SaneConfig, Resume;
      StepsProgress(m, View(), left);
      StepSane(m, View());
      ghost var c := Step(m, View());
      next := ExecOne(m);
      left1 := left - 1;
      if next == Matches {
        StepsDone(m, c, left1);
      } else if next == Fails {
        next, left1 := TakeUp(m, left1);
      }
    }

    /** After a failure: the newest choice point that is not a lookahead is taken up. */
    method TakeUp(ghost m: Code, ghost left: nat) returns (next: Next, ghost left1: nat)
      requires Valid() && Runs(m) && SaneConfig(Fail(Frames()), captureCount, |sub.text|)
      requires Steps(m, Fail(Frames()), left).Done?
      modifies this`pc, this`cptr, this`stack, this`sp, this`bp, this`log0, this`segs, capture
      ensures next != Matches
      ensures next == Goes ==>
        && Valid() && SaneConfig(View(), captureCount, |sub.text|)
        && left1 <= left && Steps(m, View(), left1) == old(Steps(m, Fail(Frames()), left))
      ensures next == Fails ==> old(Steps(m, Fail(Frames()), left)) == Done(false, 0, [])
    {
      hide Layout, Snapshots, Step, Steps, Exec, SaneConfig, SaneFrames, Resume;
      ghost var used := ResumeSteps(m, Frames(), left);
      ResumeSane(Frames(), captureCount, |sub.text|);
      var more := NoMatch();
      left1 := left - used;
      next := if more then Goes else Fails;
      if !more {
        StepsDone(m, Done(false, 0, []), left1);
      }
    }

    /** lre_exec_backtrack: it refines the reference machine, whatever the choice points. */
    method Backtrack(ghost m: Code, ghost fuel: nat) returns (matched: bool)
      requires Valid() && Runs(m) && SaneConfig(View(), captureCount, |sub.text|)
      requires Steps(m, View(), fuel).Done?
      modifies this`pc, this`cptr, this`stack, this`sp, this`bp, this`log0, this`segs, capture
      ensures var r := old(Steps(m, View(), fuel));
        matched == r.matched && (matched ==> cptr == r.pos && capture[..] == r.mem)
    {
      hide Layout, Snapshots, Step, Steps, Exec, Runs, SaneConfig;
      ghost var left := fuel;
      while true
        invariant Valid() && SaneConfig(View(), captureCount, |sub.text|)
        invariant Steps(m, View(), left) == old(Steps(m, View(), fuel))
        decreases left
      {
        var next;
        next, left := Turn(m, left);
        if next != Goes {
          return next == Matches;
        }
      }
    }
  }
}

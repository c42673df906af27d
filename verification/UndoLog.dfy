/** The engine's stack, seen as a list of choice points that each carry an undo log instead of a
    snapshot, and what a log of old values means. */
module UndoLog {
  import opened Machine
  import Sequences

  /** The capture or register idx held old before it was written. */
  datatype Entry = Entry(idx: nat, old_: int)

  /** A choice point, and the log of what was written since it was pushed. */
  datatype Seg = Seg(kind: Kind, pc: int, pos: nat, log: seq<Entry>)

  /** The memory before the logged writes: the newest entry is undone first. */
  function Undo(mem: seq<int>, log: seq<Entry>): (r: seq<int>)
    ensures |r| == |mem|
    decreases |log|
  {
    if log == [] then mem
    else
      var e := log[|log| - 1];
      Undo(Put(mem, e.idx, e.old_), log[..|log| - 1])
  }

  /** The snapshots the logs stand for. */
  function Snapshots(mem: seq<int>, segs: seq<Seg>): (r: seq<Frame>)
    ensures |r| == |segs|
    decreases |segs|
  {
    if segs == [] then []
    else
      var g := segs[|segs| - 1];
      var before := Undo(mem, g.log);
      Snapshots(before, segs[..|segs| - 1]) + [Frame(g.kind, g.pc, g.pos, before)]
  }

  predicate Logged(log: seq<Entry>, idx: nat) {
    exists i :: 0 <= i < |log| && log[i].idx == idx
  }

  /** All the logs of some choice points, oldest first. */
  function Logs(segs: seq<Seg>): (r: seq<Entry>)
    decreases |segs|
  {
    if segs == [] then [] else Logs(segs[..|segs| - 1]) + segs[|segs| - 1].log
  }

  /** The log the next write goes to, when there is no choice point, is log0. */
  function Top(log0: seq<Entry>, segs: seq<Seg>): (r: seq<Entry>) {
    if segs == [] then log0 else segs[|segs| - 1].log
  }

  function WithLog(segs: seq<Seg>, log: seq<Entry>): (r: seq<Seg>)
    ensures |r| == |segs|
  {
    if segs == [] then [] else segs[|segs| - 1 := segs[|segs| - 1].(log := log)]
  }

  /** Writing after saving the old value leaves the meaning of the log alone. */
  lemma {:induction false} UndoPush(mem: seq<int>, log: seq<Entry>, idx: nat, v: int)
    requires idx < |mem|
    ensures Undo(mem[idx := v], log + [Entry(idx, mem[idx])]) == Undo(mem, log)
  {
    var more := log + [Entry(idx, mem[idx])];
    assert more[..|more| - 1] == log;
    assert Put(mem[idx := v], idx, mem[idx]) == mem;
  }

  lemma {:induction false} UndoLast(mem: seq<int>, log: seq<Entry>)
    requires log != [] && log[|log| - 1].idx < |mem|
    ensures Undo(mem, log) == Undo(mem[log[|log| - 1].idx := log[|log| - 1].old_], log[..|log| - 1])
  {
  }

  /** So does writing without saving, when the log has an older value already. */
  lemma {:induction false} UndoSkip(mem: seq<int>, log: seq<Entry>, idx: nat, v: int)
    requires idx < |mem| && Logged(log, idx)
    ensures Undo(mem[idx := v], log) == Undo(mem, log)
    decreases |log|
  {
    var e := log[|log| - 1];
    var rest := log[..|log| - 1];
    if e.idx == idx {
      assert Put(mem[idx := v], idx, e.old_) == Put(mem, idx, e.old_);
    } else {
      var i :| 0 <= i < |log| && log[i].idx == idx;
      assert rest[i].idx == idx;
      assert Put(mem[idx := v], e.idx, e.old_) == Put(mem, e.idx, e.old_)[idx := v];
      UndoSkip(Put(mem, e.idx, e.old_), rest, idx, v);
    }
  }

  lemma {:induction false} UndoConcat(mem: seq<int>, a: seq<Entry>, b: seq<Entry>)
    ensures Undo(mem, a + b) == Undo(Undo(mem, b), a)
    decreases |b|
  {
    if b == [] {
      assert a + b == a;
    } else {
      var e := b[|b| - 1];
      assert (a + b)[|a + b| - 1] == e && (a + b)[..|a + b| - 1] == a + b[..|b| - 1];
      UndoConcat(Put(mem, e.idx, e.old_), a, b[..|b| - 1]);
    }
  }

  /** The choice points below k restore what they always did once everything above is undone. */
  lemma {:induction false} SnapshotsBelow(mem: seq<int>, segs: seq<Seg>, k: nat)
    requires k <= |segs|
    ensures Snapshots(mem, segs)[..k] == Snapshots(Undo(mem, Logs(segs[k..])), segs[..k])
    decreases |segs|
  {
    if k == |segs| {
      assert segs[k..] == [] && segs[..k] == segs;
    } else {
      var rest, g := segs[..|segs| - 1], segs[|segs| - 1];
      var upper := segs[k..];
      assert upper[|upper| - 1] == g && upper[..|upper| - 1] == rest[k..];
      UndoConcat(mem, Logs(rest[k..]), g.log);
      assert rest[..k] == segs[..k];
      SnapshotsBelow(Undo(mem, g.log), rest, k);
    }
  }

  /** Moving the logs of the choice points from k on to the one below keeps all snapshots below k. */
  lemma {:induction false} SnapshotsMerged(mem: seq<int>, segs: seq<Seg>, k: nat, extra: seq<Entry>)
    requires 0 < k <= |segs| && extra == Logs(segs[k..])
    ensures Snapshots(mem, WithLog(segs[..k], segs[k - 1].log + extra)) == Snapshots(mem, segs)[..k]
  {
    SnapshotsBelow(mem, segs, k);
    UndoConcat(mem, segs[k - 1].log, extra);
    var merged := WithLog(segs[..k], segs[k - 1].log + extra);
    assert merged[..k - 1] == segs[..k][..k - 1];
  }

  lemma {:induction false} SnapshotsWritten(mem: seq<int>, segs: seq<Seg>, mem1: seq<int>, log: seq<Entry>)
    requires segs == [] || Undo(mem1, log) == Undo(mem, segs[|segs| - 1].log)
    ensures Snapshots(mem1, WithLog(segs, log)) == Snapshots(mem, segs)
  {
    if segs != [] {
      assert WithLog(segs, log)[..|segs| - 1] == segs[..|segs| - 1];
    }
  }

  lemma {:induction false} SnapshotsPushed(mem: seq<int>, segs: seq<Seg>, kind: Kind, pc: int, pos: nat)
    ensures Snapshots(mem, segs + [Seg(kind, pc, pos, [])]) == Snapshots(mem, segs) + [Frame(kind, pc, pos, mem)]
  {
    var more := segs + [Seg(kind, pc, pos, [])];
    assert more[..|more| - 1] == segs;
  }

  /** One cell of the engine's stack: a number or a pointer, or a link to the enclosing choice point. */
  datatype Elem = Val(v: int) | Link(bp: nat, kind: Kind)

  function LogCells(log: seq<Entry>): (r: seq<Elem>)
    ensures |r| == 2 * |log|
    ensures forall i :: 0 <= i < |log| ==> r[2 * i] == Val(log[i].idx) && r[2 * i + 1] == Val(log[i].old_)
    decreases |log|
  {
    if log == [] then []
    else LogCells(log[..|log| - 1]) + [Val(log[|log| - 1].idx), Val(log[|log| - 1].old_)]
  }

  /** The stack that holds these choice points: a frame is its target, its position and its link,
      and its log follows. */
  function Cells(log0: seq<Entry>, segs: seq<Seg>): (r: seq<Elem>)
    decreases |segs|, 1
  {
    Under(log0, segs) + LogCells(Top(log0, segs))
  }

  /** The part of the stack below the newest log. */
  function Under(log0: seq<Entry>, segs: seq<Seg>): (r: seq<Elem>)
    decreases |segs|, 0
  {
    if segs == [] then []
    else
      var g := segs[|segs| - 1];
      var rest := segs[..|segs| - 1];
      Cells(log0, rest) + [Val(g.pc), Val(g.pos), Link(Base(log0, rest), g.kind)]
  }

  /** Where the log of the newest choice point starts. */
  function Base(log0: seq<Entry>, segs: seq<Seg>): (r: nat)
    decreases |segs|, 1
  {
    |Under(log0, segs)|
  }

  lemma {:induction false} LogCellsConcat(a: seq<Entry>, b: seq<Entry>)
    ensures LogCells(a + b) == LogCells(a) + LogCells(b)
  {
    var l, r := LogCells(a + b), LogCells(a) + LogCells(b);
    forall i | 0 <= i < |l| ensures l[i] == r[i] {
      var k := i / 2;
      assert i == 2 * k || i == 2 * k + 1;
      if k < |a| {
        assert (a + b)[k] == a[k];
      } else {
        assert (a + b)[k] == b[k - |a|];
        assert r[i] == LogCells(b)[i - 2 * |a|];
      }
    }
  }

  lemma {:induction false} UnderSame(log0: seq<Entry>, segs: seq<Seg>, log: seq<Entry>)
    ensures Under(Log0With(log0, segs, log), WithLog(segs, log)) == Under(log0, segs)
    ensures Top(Log0With(log0, segs, log), WithLog(segs, log)) == log
  {
    if segs != [] {
      assert WithLog(segs, log)[..|segs| - 1] == segs[..|segs| - 1];
    }
  }

  lemma {:induction false} CellsPushed(log0: seq<Entry>, segs: seq<Seg>, kind: Kind, pc: int, pos: nat)
    ensures Cells(log0, segs + [Seg(kind, pc, pos, [])]) ==
            Cells(log0, segs) + [Val(pc), Val(pos), Link(Base(log0, segs), kind)]
    ensures Base(log0, segs + [Seg(kind, pc, pos, [])]) == |Cells(log0, segs)| + 3
  {
    var more := segs + [Seg(kind, pc, pos, [])];
    assert more[..|more| - 1] == segs;
  }

  /** log0 after the top log has become log. */
  function Log0With(log0: seq<Entry>, segs: seq<Seg>, log: seq<Entry>): (r: seq<Entry>) {
    if segs == [] then log else log0
  }

  /** Growing the top log grows the stack by the cells of the new entries. */
  lemma {:induction false} CellsLogged(log0: seq<Entry>, segs: seq<Seg>, extra: seq<Entry>)
    ensures var log := Top(log0, segs) + extra;
      && Cells(Log0With(log0, segs, log), WithLog(segs, log)) == Cells(log0, segs) + LogCells(extra)
      && Base(Log0With(log0, segs, log), WithLog(segs, log)) == Base(log0, segs)
  {
    hide Under, LogCells, Log0With, WithLog;
    var log := Top(log0, segs) + extra;
    LogCellsConcat(Top(log0, segs), extra);
    UnderSame(log0, segs, log);
    Sequences.Assoc(Under(log0, segs), LogCells(Top(log0, segs)), LogCells(extra));
  }

  /** The memory cells a log may touch. */
  predicate LogWithin(log: seq<Entry>, n: nat) {
    forall i :: 0 <= i < |log| ==> log[i].idx < n
  }

  predicate Within(log0: seq<Entry>, segs: seq<Seg>, n: nat) {
    LogWithin(log0, n) && forall i :: 0 <= i < |segs| ==> LogWithin(segs[i].log, n)
  }

  lemma {:induction false} LogsWithin(segs: seq<Seg>, n: nat)
    requires forall i :: 0 <= i < |segs| ==> LogWithin(segs[i].log, n)
    ensures LogWithin(Logs(segs), n)
    decreases |segs|
  {
    if segs != [] {
      LogsWithin(segs[..|segs| - 1], n);
      assert LogWithin(segs[|segs| - 1].log, n);
    }
  }

  /** A snapshot resumes where its choice point says. */
  lemma {:induction false} SnapshotFields(mem: seq<int>, segs: seq<Seg>, i: nat)
    requires i < |segs|
    ensures var f := Snapshots(mem, segs)[i]; f.kind == segs[i].kind && f.pc == segs[i].pc && f.pos == segs[i].pos
    decreases |segs|
  {
    if i < |segs| - 1 {
      SnapshotFields(Undo(mem, segs[|segs| - 1].log), segs[..|segs| - 1], i);
    }
  }

  /** The stack buffer holds the choice points, and nothing else below sp. */
  predicate Layout(stack: seq<Elem>, sp: nat, bp: nat, log0: seq<Entry>, segs: seq<Seg>, n: nat) {
    && sp <= |stack| && stack[..sp] == Cells(log0, segs) && bp == Base(log0, segs)
    && Within(log0, segs, n)
  }

  function Store2(stack: seq<Elem>, at: nat, a: Elem, b: Elem): (r: seq<Elem>)
    requires at + 2 <= |stack|
    ensures |r| == |stack| && r[..at + 2] == stack[..at] + [a, b]
  {
    stack[at := a][at + 1 := b]
  }

  lemma {:induction false} OneCell(e: Entry)
    ensures LogCells([e]) == [Val(e.idx), Val(e.old_)]
  {
    assert LogCells([e][..0]) == [];
  }

  lemma {:induction false} LayoutLogged(stack: seq<Elem>, sp: nat, bp: nat, log0: seq<Entry>, segs: seq<Seg>, n: nat,
      e: Entry)
    requires Layout(stack, sp, bp, log0, segs, n) && sp + 2 <= |stack| && e.idx < n
    ensures var log := Top(log0, segs) + [e];
      Layout(Store2(stack, sp, Val(e.idx), Val(e.old_)), sp + 2, bp, Log0With(log0, segs, log), WithLog(segs, log), n)
  {
    hide Cells, LogCells, WithLog, Log0With, Under;
    CellsLogged(log0, segs, [e]);
    OneCell(e);
    WithinLog(log0, segs, Top(log0, segs) + [e], n);
  }

  lemma {:induction false} LayoutPushed(stack: seq<Elem>, sp: nat, bp: nat, log0: seq<Entry>, segs: seq<Seg>, n: nat,
                                        kind: Kind, pc: int, pos: nat)
    requires Layout(stack, sp, bp, log0, segs, n) && sp + 3 <= |stack|
    ensures Layout(Store2(stack, sp, Val(pc), Val(pos))[sp + 2 := Link(bp, kind)], sp + 3, sp + 3, log0,
                   segs + [Seg(kind, pc, pos, [])], n)
  {
    CellsPushed(log0, segs, kind, pc, pos);
    hide Cells, LogCells;
  }

  /** What the newest log looks like on the stack. */
  lemma {:induction false} LayoutUnlogged(stack: seq<Elem>, sp: nat, bp: nat, log0: seq<Entry>, segs: seq<Seg>, n: nat)
    requires Layout(stack, sp, bp, log0, segs, n)
    ensures sp == bp + 2 * |Top(log0, segs)| && sp <= |stack|
    ensures forall i :: 0 <= i < |Top(log0, segs)| ==>
      && stack[bp + 2 * i] == Val(Top(log0, segs)[i].idx) && stack[bp + 2 * i + 1] == Val(Top(log0, segs)[i].old_)
      && Top(log0, segs)[i].idx < n
  {
    hide Under, LogCells;
    var log := Top(log0, segs);
    forall i | 0 <= i < |log|
      ensures stack[bp + 2 * i] == Val(log[i].idx) && stack[bp + 2 * i + 1] == Val(log[i].old_) && log[i].idx < n
    {
      assert stack[bp + 2 * i] == stack[..sp][bp + 2 * i] && stack[bp + 2 * i + 1] == stack[..sp][bp + 2 * i + 1];
    }
  }

  lemma {:induction false} LayoutBottom(stack: seq<Elem>, sp: nat, bp: nat, log0: seq<Entry>, segs: seq<Seg>, n: nat)
    requires Layout(stack, sp, bp, log0, segs, n)
    ensures bp == 0 <==> segs == []
    ensures sp == 0 ==> log0 == []
  {
    LayoutUnlogged(stack, sp, bp, log0, segs, n);
    assert segs != [] ==> |Under(log0, segs)| >= 3;
    assert Base(log0, segs) == 0 ==> segs == [];
  }

  /** The stack without the newest entry of the newest log. */
  lemma {:induction false} LayoutShorter(stack: seq<Elem>, sp: nat, bp: nat, log0: seq<Entry>, segs: seq<Seg>, n: nat)
    requires Layout(stack, sp, bp, log0, segs, n) && segs != [] && sp > bp
    ensures sp >= bp + 2 && Top(log0, segs) != []
    ensures var log := Top(log0, segs); Layout(stack, sp - 2, bp, log0, WithLog(segs, log[..|log| - 1]), n)
  {
    LayoutUnlogged(stack, sp, bp, log0, segs, n);
    var log := Top(log0, segs);
    var less := log[..|log| - 1];
    UnderSame(log0, segs, less);
    LastCell(log);
    WithinLog(log0, segs, less, n);
    hide Under, WithLog, LogCells;
    Shorter(stack, sp, Under(log0, segs), LogCells(less), Val(log[|log| - 1].idx), Val(log[|log| - 1].old_));
  }

  lemma {:induction false} LastCell(log: seq<Entry>)
    requires log != []
    ensures LogCells(log) == LogCells(log[..|log| - 1]) + [Val(log[|log| - 1].idx), Val(log[|log| - 1].old_)]
  {
  }

  lemma {:induction false} Shorter(stack: seq<Elem>, sp: nat, under: seq<Elem>, cells: seq<Elem>, x: Elem, y: Elem)
    requires sp <= |stack| && stack[..sp] == under + (cells + [x, y])
    ensures sp >= 2 && stack[..sp - 2] == under + cells
  {
    assert stack[..sp] == (under + cells) + [x, y];
    assert stack[..sp - 2] == stack[..sp][..sp - 2];
  }

  lemma {:induction false} WithinLog(log0: seq<Entry>, segs: seq<Seg>, log: seq<Entry>, n: nat)
    requires Within(log0, segs, n) && LogWithin(log, n)
    ensures Within(Log0With(log0, segs, log), WithLog(segs, log), n)
  {
  }

  /** What the newest frame looks like on the stack, and the stack without it. */
  lemma {:induction false} LayoutPopped(stack: seq<Elem>, sp: nat, bp: nat, log0: seq<Entry>, segs: seq<Seg>, n: nat)
    requires Layout(stack, sp, bp, log0, segs, n) && segs != [] && sp == bp
    ensures 3 <= sp <= |stack|
    ensures var g := segs[|segs| - 1];
      && stack[sp - 3] == Val(g.pc) && stack[sp - 2] == Val(g.pos) && stack[sp - 1].Link?
      && stack[sp - 1].kind == g.kind
      && Layout(stack, sp - 3, stack[sp - 1].bp, log0, segs[..|segs| - 1], n)
  {
    LayoutUnlogged(stack, sp, bp, log0, segs, n);
    var g := segs[|segs| - 1];
    var rest := segs[..|segs| - 1];
    var below := Cells(log0, rest);
    assert g.log == [] && LogCells(g.log) == [];
    assert Cells(log0, segs) == Under(log0, segs);
    assert stack[..sp] == below + [Val(g.pc), Val(g.pos), Link(Base(log0, rest), g.kind)];
    assert stack[sp - 3] == stack[..sp][sp - 3] && stack[sp - 2] == stack[..sp][sp - 2];
    assert stack[sp - 1] == stack[..sp][sp - 1];
    assert stack[..sp - 3] == below;
  }

  /** The stack from a choice point up, once each link has been replaced by the end of its log. */
  function Marked(base: nat, segs: seq<Seg>): (r: seq<Elem>)
    decreases |segs|
  {
    if segs == [] then []
    else
      [Val(segs[0].pc), Val(segs[0].pos), Val(base + 3 + 2 * |segs[0].log|)]
      + (LogCells(segs[0].log) + Marked(base + 3 + 2 * |segs[0].log|, segs[1..]))
  }

  /** The first loop of lookahead_match has passed the choice points upper: they are marked, and those
      of lower are as they were. */
  predicate Marking(stack: seq<Elem>, sp: nat, bp: nat, top: nat, log0: seq<Entry>, lower: seq<Seg>, upper: seq<Seg>) {
    && sp <= top <= |stack| && sp == |Cells(log0, lower)| && bp == Base(log0, lower)
    && stack[..top] == Cells(log0, lower) + Marked(sp, upper)
  }

  lemma {:induction false} MarkingStarts(stack: seq<Elem>, sp: nat, bp: nat, log0: seq<Entry>, segs: seq<Seg>, n: nat)
    requires Layout(stack, sp, bp, log0, segs, n)
    ensures Marking(stack, sp, bp, sp, log0, segs, [])
  {
    hide Cells, Base;
    assert Cells(log0, segs) + [] == Cells(log0, segs);
  }

  /** One round of the first loop. */
  lemma {:induction false} MarkingDown(stack: seq<Elem>, sp: nat, bp: nat, top: nat, log0: seq<Entry>, lower: seq<Seg>,
      g: Seg, upper: seq<Seg>)
    requires Marking(stack, sp, bp, top, log0, lower + [g], upper)
    ensures 3 <= bp <= |stack|
    ensures stack[bp - 3] == Val(g.pc) && stack[bp - 2] == Val(g.pos) && stack[bp - 1] == Link(Base(log0, lower),
        g.kind)
    ensures Marking(stack[bp - 1 := Val(sp)], bp - 3, Base(log0, lower), top, log0, lower, [g] + upper)
  {
    hide Cells, Base, Marked, LogCells;
    MarkedCells(log0, lower, g);
    var below := Cells(log0, lower);
    assert sp == |below| + 3 + 2 * |g.log|;
    MarkedCons(|below|, g, upper);
    Relink(stack, top, bp, below, Val(g.pc), Val(g.pos), Link(Base(log0, lower), g.kind), LogCells(g.log),
           Marked(sp, upper), Val(sp));
  }

  lemma {:induction false} MarkedCells(log0: seq<Entry>, rest: seq<Seg>, g: Seg)
    ensures Cells(log0, rest + [g]) ==
            Cells(log0, rest) + [Val(g.pc), Val(g.pos), Link(Base(log0, rest), g.kind)] + LogCells(g.log)
    ensures Base(log0, rest + [g]) == |Cells(log0, rest)| + 3
  {
    assert (rest + [g])[..|rest|] == rest;
  }

  lemma {:induction false} MarkedCons(base: nat, g: Seg, rest: seq<Seg>)
    ensures var next := base + 3 + 2 * |g.log|;
      Marked(base, [g] + rest) == [Val(g.pc), Val(g.pos), Val(next)] + (LogCells(g.log) + Marked(next, rest))
  {
    assert ([g] + rest)[1..] == rest;
  }

  lemma {:induction false} Relink(stack: seq<Elem>, top: nat, bp: nat, below: seq<Elem>, a: Elem, b: Elem, link: Elem,
      log: seq<Elem>, rest: seq<Elem>, next: Elem)
    requires top <= |stack| && stack[..top] == below + [a, b, link] + log + rest && bp == |below| + 3
    ensures bp <= top && stack[bp - 3] == a && stack[bp - 2] == b && stack[bp - 1] == link
    ensures stack[bp - 1 := next][..top] == below + ([a, b, next] + (log + rest))
  {
    var s := stack[..top];
    assert s[bp - 3] == a && s[bp - 2] == b && s[bp - 1] == link;
    assert stack[bp - 1 := next][..top] == s[bp - 1 := next];
    assert below + [a, b, link] + log + rest == below + ([a, b, link] + (log + rest));
  }

  /** The second loop of lookahead_match has kept these cells, and has the choice points rest to go. */
  predicate Copying(stack: seq<Elem>, sp: nat, sp1: nat, top: nat, kept: seq<Elem>, rest: seq<Seg>) {
    sp <= sp1 <= top <= |stack| && stack[..sp] == kept && stack[sp1..top] == Marked(sp1, rest)
  }

  /** The cells of a log are copied down: done are copied, left are still to be looked at. */
  predicate Moving(stack: seq<Elem>, sp: nat, sp1: nat, top: nat, done: seq<Elem>, left: seq<Elem>) {
    sp + 3 <= sp1 <= top <= |stack| && stack[..sp] == done && stack[sp1..top] == left
  }

  lemma {:induction false} CopyingStarts(stack: seq<Elem>, sp: nat, bp: nat, top: nat, log0: seq<Entry>,
      lower: seq<Seg>, upper: seq<Seg>)
    requires Marking(stack, sp, bp, top, log0, lower, upper)
    ensures Copying(stack, sp, sp, top, Cells(log0, lower), upper)
  {
    hide Cells, Base, Marked;
    var cells := Cells(log0, lower);
    assert stack[sp..top] == stack[..top][sp..];
    assert stack[..sp] == stack[..top][..sp];
  }

  lemma {:induction false} CopyingLog(stack: seq<Elem>, sp: nat, sp1: nat, top: nat, kept: seq<Elem>, g: Seg,
      rest: seq<Seg>)
    requires Copying(stack, sp, sp1, top, kept, [g] + rest)
    ensures sp1 + 3 + 2 * |g.log| <= top
    ensures stack[sp1 + 2] == Val(sp1 + 3 + 2 * |g.log|)
    ensures Moving(stack, sp, sp1 + 3, top, kept, LogCells(g.log) + Marked(sp1 + 3 + 2 * |g.log|, rest))
  {
    hide Marked, LogCells;
    MarkedCons(sp1, g, rest);
    var s := stack[sp1..top];
    assert stack[sp1 + 2] == s[2];
    assert stack[sp1 + 3..top] == s[3..];
  }

  lemma {:induction false} MovingOne(stack: seq<Elem>, sp: nat, sp1: nat, top: nat, done: seq<Elem>, left: seq<Elem>)
    requires Moving(stack, sp, sp1, top, done, left) && left != []
    ensures sp < sp1 < top <= |stack|
    ensures Moving(stack[sp := stack[sp1]], sp + 1, sp1 + 1, top, done + [left[0]], left[1..])
  {
    assert left[0] == stack[sp1];
    assert stack[sp := stack[sp1]][..sp + 1] == stack[..sp] + [stack[sp1]];
    assert stack[sp := stack[sp1]][sp1 + 1..top] == stack[sp1..top][1..];
  }

  lemma {:induction false} Copied(stack: seq<Elem>, sp: nat, bp: nat, top: nat, log0: seq<Entry>, lower: seq<Seg>,
      log: seq<Entry>, n: nat)
    requires Copying(stack, sp, top, top, Cells(log0, lower) + LogCells(log), [])
    requires bp == Base(log0, lower) && Within(log0, lower, n) && LogWithin(log, n)
    ensures var all := Top(log0, lower) + log; Layout(stack, sp, bp, Log0With(log0, lower, all), WithLog(lower, all), n)
  {
    CellsLogged(log0, lower, log);
    assert LogWithin(Top(log0, lower), n);
    WithinLog(log0, lower, Top(log0, lower) + log, n);
  }

  /** The snapshots below a lookahead survive the merging of its logs. */
  lemma {:induction false} SnapshotsCollapsed(mem: seq<int>, log0: seq<Entry>, lower: seq<Seg>, upper: seq<Seg>)
    ensures Snapshots(mem, WithLog(lower, Top(log0, lower) + Logs(upper))) == Snapshots(mem, lower + upper)[..|lower|]
  {
    if lower != [] {
      var segs := lower + upper;
      assert segs[|lower|..] == upper && segs[..|lower|] == lower;
      SnapshotsMerged(mem, segs, |lower|, Logs(upper));
    }
  }

  lemma {:induction false} LogsFirst(upper: seq<Seg>)
    ensures LogCells(Logs(upper[..0])) == []
  {
    assert upper[..0] == [];
  }

  lemma {:induction false} LogsNext(base: seq<Elem>, upper: seq<Seg>, i: nat)
    requires i < |upper|
    ensures base + LogCells(Logs(upper[..i + 1])) == base + LogCells(Logs(upper[..i])) + LogCells(upper[i].log)
  {
    assert upper[..i + 1][..i] == upper[..i];
    LogCellsConcat(Logs(upper[..i]), upper[i].log);
  }

  lemma {:induction false} CopyingMore(stack: seq<Elem>, sp: nat, sp1: nat, top: nat, kept: seq<Elem>, rest: seq<Seg>)
    requires Copying(stack, sp, sp1, top, kept, rest) && sp1 < top
    ensures rest != []
  {
  }

  lemma {:induction false} CopyingEnds(stack: seq<Elem>, sp: nat, sp1: nat, top: nat, kept: seq<Elem>, rest: seq<Seg>)
    requires Copying(stack, sp, sp1, top, kept, rest) && sp1 >= top
    ensures rest == [] && sp1 == top
  {
  }

  lemma {:induction false} CopyingFrom(stack: seq<Elem>, sp: nat, sp1: nat, top: nat, kept: seq<Elem>, rest: seq<Seg>)
    requires Moving(stack, sp, sp1, top, kept, Marked(sp1, rest))
    ensures Copying(stack, sp, sp1, top, kept, rest)
  {
  }

  lemma {:induction false} LayoutWithin(stack: seq<Elem>, sp: nat, bp: nat, log0: seq<Entry>, segs: seq<Seg>, n: nat)
    requires Layout(stack, sp, bp, log0, segs, n)
    ensures Within(log0, segs, n)
  {
  }

  lemma {:induction false} WithinParts(log0: seq<Entry>, lower: seq<Seg>, upper: seq<Seg>, n: nat)
    requires Within(log0, lower + upper, n)
    ensures Within(log0, lower, n) && LogWithin(Logs(upper), n)
  {
    var segs := lower + upper;
    forall i | 0 <= i < |lower| ensures LogWithin(lower[i].log, n) {
      assert segs[i] == lower[i];
    }
    forall i | 0 <= i < |upper| ensures LogWithin(upper[i].log, n) {
      assert segs[|lower| + i] == upper[i];
    }
    LogsWithin(upper, n);
  }

  /** Nothing is left below a lookahead at the bottom of the stack. */
  lemma {:induction false} MarkingEmpty(stack: seq<Elem>, sp: nat, bp: nat, top: nat, log0: seq<Entry>,
      lower: seq<Seg>, upper: seq<Seg>, n: nat)
    requires Marking(stack, sp, bp, top, log0, lower, upper) && sp == 0
    ensures lower == [] && Layout(stack, sp, bp, [], [], n)
  {
    assert lower != [] ==> |Under(log0, lower)| >= 3;
  }

  lemma {:induction false} MarkingBase(stack: seq<Elem>, sp: nat, bp: nat, top: nat, log0: seq<Entry>, lower: seq<Seg>,
      upper: seq<Seg>)
    requires Marking(stack, sp, bp, top, log0, lower, upper)
    ensures bp == Base(log0, lower)
  {
  }

  lemma {:induction false} SnapshotsNone(mem: seq<int>)
    ensures Snapshots(mem, []) == []
  {
  }
}

/** lre_exec on a compiled pattern: the undo-log interpreter, run on the bytes, reports exactly the
    match of the backtracking semantics. */
module Engine {
  import opened RegexpSyntax
  import opened Bytecode
  import opened CodeGen
  import opened Encoding
  import opened Machine
  import opened Image
  import opened Denotation
  import opened CodeOutcomes
  import opened Captures
  import opened ProgramCorrect
  import opened Backtracker
  import RegexpSemantics

  const RE_HEADER_CAPTURE_COUNT := 2
  const RE_HEADER_REGISTER_COUNT := 3
  const RE_HEADER_BYTECODE_LEN := 4
  const RE_HEADER_LEN := 8

  /** The image holds the program of pattern n: a header with its counts and the length of the code, then the code with
      its registers allocated. */
  ghost predicate Compiled(image: seq<Byte>, alpha: Alphabet, n: Node, sticky: bool) {
    && 1 + Count(n) <= CAPTURE_COUNT_MAX && WellFormed(n, 1 + Count(n)) && WellFormed(n, CAPTURE_COUNT_MAX)
    && RE_HEADER_LEN <= |image| <= CODE_SIZE_MAX
    && image[RE_HEADER_CAPTURE_COUNT] == 1 + Count(n)
    && image[RE_HEADER_REGISTER_COUNT] == Depth(alpha, n, 1, false)
    && GetU32(image, RE_HEADER_BYTECODE_LEN) == |image| - RE_HEADER_LEN
    && image[RE_HEADER_LEN..] == Bytes(GenProgram(alpha, n, sticky, 0))
  }

  /** lre_get_alloc_count: the number of cells lre_exec needs for captures and registers. */
  function AllocCount(image: seq<Byte>): (r: nat)
    requires |image| >= RE_HEADER_LEN
  {
    image[RE_HEADER_CAPTURE_COUNT] as int * 2 + image[RE_HEADER_REGISTER_COUNT] as int
  }

  lemma {:induction false} ProgramGood(image: seq<Byte>, alpha: Alphabet, n: Node, sticky: bool)
    requires Compiled(image, alpha, n, sticky)
    ensures AllGood(GenProgram(alpha, n, sticky, 0))
  {
    hide Gen, Depth, Count, WellFormed, Bytes, CodeSize, AllGood;
    var body := Gen(alpha, n, 1, false, 0);
    var loop := if sticky then [] else [Split(true, 6), Single(OpAny), Goto(-11)];
    var main := [SaveStart(0)] + body + [SaveEnd(0), MatchEnd];
    CodeSizeConcat(loop, main);
    CodeSizeConcat([SaveStart(0)] + body, [SaveEnd(0), MatchEnd]);
    CodeSizeConcat([SaveStart(0)], body);
    GenGood(alpha, n, 1, false, 0);
    assert AllGood([SaveStart(0)]) && AllGood([SaveEnd(0), MatchEnd]) && AllGood(loop) by { SmallGood(); }
    AllGoodConcat([SaveStart(0)], body);
    AllGoodConcat([SaveStart(0)] + body, [SaveEnd(0), MatchEnd]);
    AllGoodConcat(loop, main);
  }

  lemma {:induction false} SmallGood()
    ensures AllGood([]) && AllGood([SaveStart(0)]) && AllGood([SaveEnd(0), MatchEnd])
    ensures AllGood([Split(true, 6), Single(OpAny), Goto(-11)])
  {
  }

  function CodeOf(alpha: Alphabet, sub: Subject, n: Node, sticky: bool): (r: Code)
    requires WellFormed(n, CAPTURE_COUNT_MAX)
  {
    Code(ProgOf(GenProgram(alpha, n, sticky, 0), 0), sub, 1 + Count(n))
  }

  lemma {:induction false} ProgramDecodes(image: seq<Byte>, sub: Subject, n: Node, sticky: bool)
    requires Compiled(image, sub.alpha, n, sticky)
    ensures forall a :: a in CodeOf(sub.alpha, sub, n, sticky).prog ==>
      Decodes(image[RE_HEADER_LEN..], CodeOf(sub.alpha, sub, n, sticky).prog, a)
  {
    hide Gen, GenProgram, Depth, Count, WellFormed, Bytes, Fetch, ProgOf, AllGood;
    var code := GenProgram(sub.alpha, n, sticky, 0);
    var bytes := image[RE_HEADER_LEN..];
    ProgramGood(image, sub.alpha, n, sticky);
    assert [] + Bytes(code) == bytes;
    forall a | a in ProgOf(code, 0) ensures Decodes(bytes, ProgOf(code, 0), a) {
      FetchProg([], code, a);
    }
  }

  /** What the theorem about runs says of this image, subject and memory: the bytes decode to a program whose
      run ends in the expected match. */
  ghost predicate Runnable(image: seq<Byte>, sub: Subject, mem: seq<int>, cindex: nat, m: Code, fuel: nat,
      expected: seq<RegexpSemantics.State>)
    requires |image| >= RE_HEADER_LEN
  {
    && m.sub == sub && m.ncap == image[RE_HEADER_CAPTURE_COUNT]
    && (forall a :: a in m.prog ==> Decodes(image[RE_HEADER_LEN..], m.prog, a))
    && Reports(sub, m.ncap, Steps(m, Run(0, cindex, mem, []), fuel), expected)
  }

  lemma {:induction false} ImageRuns(image: seq<Byte>, sub: Subject, n: Node, sticky: bool, cindex: nat, mem: seq<int>)
    returns (m: Code, fuel: nat)
    requires Compiled(image, sub.alpha, n, sticky) && CountersFit(n, |sub.text|) && cindex <= |sub.text|
    requires |mem| == AllocCount(image) && forall i :: 0 <= i < 2 * (1 + Count(n)) ==> mem[i] == NULL
    ensures Runnable(image, sub, mem, cindex, m, fuel, RegexpSemantics.Search(sub, n, sticky, cindex))
  {
    hide Gen, GenProgram, Depth, Count, WellFormed, Bytes, CountersFit, RegexpSemantics.Search, AllSettled, Steps,
        Decodes, Placed;
    m := CodeOf(sub.alpha, sub, n, sticky);
    ProgramDecodes(image, sub, n, sticky);
    PlacedProgOf(GenProgram(sub.alpha, n, sticky, 0), 0);
    RunCorrect(m, n, sticky, cindex, mem);
    fuel :| Reports(m.sub, m.ncap, Steps(m, Run(0, cindex, mem, []), fuel), RegexpSemantics.Search(sub, n, sticky,
        cindex));
  }

  /** lre_exec */
  method LreExec(image: seq<Byte>, capture: array<int>, sub: Subject, cindex: nat, ghost n: Node, ghost sticky: bool)
    returns (matched: bool)
    requires Compiled(image, sub.alpha, n, sticky) && CountersFit(n, |sub.text|)
    requires capture.Length == AllocCount(image) && cindex <= |sub.text|
    modifies capture
    ensures matched <==> RegexpSemantics.Search(sub, n, sticky, cindex) != []
    ensures matched ==>
      var ncap := 1 + Count(n);
      AllSettled(Env(sub, ncap), capture[..], RegexpSemantics.Search(sub, n, sticky, cindex)[0].caps, 0, ncap)
  {
    hide Count, CountersFit, RegexpSemantics.Search, AllSettled, Steps, Decodes, WellFormed, GenProgram, Depth, Bytes,
        GetU32;
    var captureCount := image[RE_HEADER_CAPTURE_COUNT] as int;
    for i := 0 to 2 * captureCount
      invariant forall k :: 0 <= k < i ==> capture[k] == NULL
    {
      capture[i] := NULL;
    }
    ghost var m, fuel := ImageRuns(image, sub, n, sticky, cindex, capture[..]);
    var s := new Execution(sub, captureCount, image[RE_HEADER_LEN..], capture, 0, cindex);
    matched := s.Backtrack(m, fuel);
  }
}

/** The instruction emitted for a character test lets through exactly the characters that pass it. */
module TestCode {
  import opened RegexpSyntax
  import opened Bytecode
  import opened CodeGen
  import opened RegexpSemantics

  /** A strictly increasing list of intervals is sorted as a whole, not only step by step. */
  lemma {:induction false} IncreasingFar(rs: seq<Interval>, i: nat, j: nat)
    requires Increasing(rs) && i < j < |rs|
    ensures rs[i].hi < rs[j].lo
    decreases j - i
  {
    if i + 1 < j {
      IncreasingFar(rs, i, j - 1);
    }
  }

  /** Only the last interval can be unbounded, and the 16-bit form can express every bound below it. */
  lemma {:induction false} RangeBounds(rs: seq<Interval>, i: nat)
    requires Increasing(rs) && i < |rs|
    ensures i < |rs| - 1 ==> rs[i].hi < UINT32_MAX && rs[i].hi <= RangeHigh(rs)
    ensures rs[i].lo <= RangeHigh(rs) && (rs[i].hi != UINT32_MAX ==> rs[i].hi <= RangeHigh(rs))
  {
    if i < |rs| - 1 {
      IncreasingFar(rs, i, |rs| - 1);
    }
  }

  /** re_emit_range, in both of its forms. */
  lemma {:induction false} RangeAccepts(rs: seq<Interval>, icase: bool, c: Char)
    requires Increasing(rs) && rs != []
    ensures var wide := RangeHigh(rs) > 0xffff;
            InPairs(PairsOf(rs, wide), wide, c) <==> exists i :: 0 <= i < |rs| && rs[i].Holds(c)
  {
    var wide := RangeHigh(rs) > 0xffff;
    var ps := PairsOf(rs, wide);
    forall i | 0 <= i < |rs| ensures InPair(ps[i], !wide && i == |ps| - 1, c) <==> rs[i].Holds(c) {
      RangeBounds(rs, i);
    }
    if InPairs(ps, wide, c) {
      var i :| 0 <= i < |ps| && InPair(ps[i], !wide && i == |ps| - 1, c);
      assert rs[i].Holds(c);
    }
    if exists i :: 0 <= i < |rs| && rs[i].Holds(c) {
      var i :| 0 <= i < |rs| && rs[i].Holds(c);
      assert InPair(ps[i], !wide && i == |ps| - 1, c);
    }
  }

  lemma {:induction false} TestAccepts(alpha: Alphabet, t: CharTest, c: Char)
    requires t.Class? ==> Increasing(t.ranges)
    ensures OpAccepts(alpha, GenTest(alpha, t), c) <==> Accepts(alpha, t, c)
  {
    if t.Class? && t.ranges != [] {
      RangeAccepts(t.ranges, t.icase, if t.icase then alpha.canon(c) else c);
    }
  }
}

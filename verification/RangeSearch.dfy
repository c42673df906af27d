/** The binary search of the range instructions. */
module RangeSearch {
  import opened RegexpSyntax
  import opened Bytecode
  import opened CodeGen
  import opened TestCode

  /** The bounds increase; only then does a binary search make sense. */
  predicate Sorted(ps: seq<Pair>) {
    && (forall i :: 0 <= i < |ps| ==> ps[i].lo <= ps[i].hi)
    && (forall i, j :: 0 <= i < j < |ps| ==> ps[i].hi < ps[j].lo)
  }

  /** In the 16-bit form every bound fits 16 bits. */
  predicate Narrow(ps: seq<Pair>) {
    forall i :: 0 <= i < |ps| ==> ps[i].hi <= 0xffff
  }

  predicate SortedOp(op: CharOp) {
    op.OpRange? ==> op.pairs != [] && Sorted(op.pairs) && (!op.wide ==> Narrow(op.pairs))
  }

  lemma {:induction false} TestSorted(alpha: Alphabet, t: CharTest)
    requires t.Class? ==> Increasing(t.ranges)
    ensures SortedOp(GenTest(alpha, t))
  {
    if t.Class? && t.ranges != [] {
      var rs := t.ranges;
      var wide := RangeHigh(rs) > 0xffff;
      var ps := PairsOf(rs, wide);
      forall i | 0 <= i < |ps| ensures ps[i].lo <= ps[i].hi && (!wide ==> ps[i].hi <= 0xffff) {
        RangeBounds(rs, i);
      }
      forall i, j | 0 <= i < j < |ps| ensures ps[i].hi < ps[j].lo {
        IncreasingFar(rs, i, j);
        RangeBounds(rs, i);
      }
    }
  }

  /** The search of the engine. Its unsigned indices never wrap below zero: idxMax is only lowered
      to idx - 1 when idx is positive. */
  method InRange(ps: seq<Pair>, wide: bool, c: Char) returns (found: bool)
    requires ps != [] && Sorted(ps) && (!wide ==> Narrow(ps))
    ensures found <==> InPairs(ps, wide, c)
  {
    var idxMin: nat := 0;
    if c < ps[0].lo {
      return false;
    }
    var idxMax: nat := |ps| - 1;
    var high := ps[idxMax].hi;
    if !wide && c >= 0xffff && high == 0xffff {
      assert InPair(ps[idxMax], true, c);
      return true;
    }
    if c > high {
      return false;
    }
    while idxMin <= idxMax
      invariant 0 <= idxMin <= |ps| && idxMax < |ps| && idxMin <= idxMax + 1
      invariant forall i :: 0 <= i < idxMin ==> ps[i].hi < c
      invariant forall i :: idxMax < i < |ps| ==> c < ps[i].lo
      decreases idxMax + 1 - idxMin
    {
      var idx := (idxMin + idxMax) / 2;
      if c < ps[idx].lo {
        idxMax := idx - 1;
      } else if c > ps[idx].hi {
        idxMin := idx + 1;
      } else {
        assert InPair(ps[idx], !wide && idx == |ps| - 1, c);
        return true;
      }
    }
    return false;
  }
}

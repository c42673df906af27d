/** What the atoms of the semantics match, with the characters written out: laws of Search, and so of lre_exec. */
module Laws {
  import opened RegexpSyntax
  import opened RegexpSemantics
  import opened SemanticsFrame

  /** One attempt at i. */
  lemma {:induction false} Once(sub: Subject, n: Node, i: nat)
    requires i <= |sub.text|
    ensures Search(sub, n, true, i) == CloseGroup(Match(sub, n, 1, false, State(i, Unset(n))), 0, i)
  {
    assert Search(sub, n, true, i) == Attempt(sub, n, i) + [];
  }

  lemma {:induction false} ClosedEmpty(n: Node, i: nat, j: nat)
    requires Count(n) == 0 && i <= j
    ensures CloseGroup([State(j, Unset(n))], 0, i) == [State(j, [Span(i, j)])]
  {
    assert Unset(n)[0 := Span(i, j)] == [Span(i, j)];
  }

  /** One character test at i: it takes one character, and group 0 is that character. */
  lemma {:induction false} OneTest(sub: Subject, t: CharTest, i: nat)
    requires i <= |sub.text|
    ensures Search(sub, Test(t), true, i) ==
            if i < |sub.text| && Accepts(sub.alpha, t, sub.text[i]) then [State(i + 1, [Span(i, i + 1)])] else []
  {
    Once(sub, Test(t), i);
    ClosedEmpty(Test(t), i, i + 1);
  }

  /** The dot stops at the end and at the four line terminators. */
  lemma {:induction false} DotMatches(sub: Subject, i: nat)
    requires i <= |sub.text|
    ensures Search(sub, Test(Dot), true, i) ==
            if i == |sub.text| || sub.text[i] in {10, 13, 0x2028, 0x2029} then []
            else [State(i + 1, [Span(i, i + 1)])]
  {
    OneTest(sub, Dot, i);
  }

  lemma {:induction false} AnyMatches(sub: Subject, i: nat)
    requires i <= |sub.text|
    ensures Search(sub, Test(Any), true, i) == if i == |sub.text| then [] else [State(i + 1, [Span(i, i + 1)])]
  {
    OneTest(sub, Any, i);
  }

  lemma {:induction false} LiteralMatches(sub: Subject, l: Char, icase: bool, i: nat)
    requires i <= |sub.text|
    ensures Search(sub, Test(Literal(l, icase)), true, i) ==
            if i < |sub.text| && (sub.text[i] == l || (icase && sub.alpha.canon(sub.text[i]) == sub.alpha.canon(l)))
            then [State(i + 1, [Span(i, i + 1)])] else []
  {
    OneTest(sub, Literal(l, icase), i);
  }

  /** The white space and the line terminators of ECMA-262 sections 12.2 and 12.3. */
  lemma {:induction false} SpaceMatches(sub: Subject, negated: bool, i: nat)
    requires i <= |sub.text|
    ensures Search(sub, Test(Space(negated)), true, i) ==
            if i == |sub.text| then []
            else
              var c := sub.text[i];
              if (c in {9, 10, 11, 12, 13, 32, 0xa0, 0x1680, 0x2028, 0x2029, 0x202f, 0x205f, 0x3000, 0xfeff}
                 || 0x2000 <= c <= 0x200a) == negated then []
              else [State(i + 1, [Span(i, i + 1)])]
  {
    OneTest(sub, Space(negated), i);
  }

  lemma {:induction false} ClassMatches(sub: Subject, rs: seq<Interval>, icase: bool, i: nat)
    requires i <= |sub.text|
    ensures Search(sub, Test(Class(rs, icase)), true, i) ==
            if i < |sub.text| && (
                 var c := if icase then sub.alpha.canon(sub.text[i]) else sub.text[i];
                 exists r :: r in rs && r.lo <= c && (c < r.hi || r.hi == 0xffff_ffff))
            then [State(i + 1, [Span(i, i + 1)])] else []
  {
    OneTest(sub, Class(rs, icase), i);
    if i < |sub.text| {
      var c := if icase then sub.alpha.canon(sub.text[i]) else sub.text[i];
      if k :| 0 <= k < |rs| && rs[k].Holds(c) {
        assert rs[k] in rs;
      }
    }
  }

  /** An assertion at i takes no character. */
  lemma {:induction false} OneAssertion(sub: Subject, a: Assertion, i: nat)
    requires i <= |sub.text|
    ensures Search(sub, Assert(a), true, i) == if Asserts(sub, a, i) then [State(i, [Span(i, i)])] else []
  {
    Once(sub, Assert(a), i);
    ClosedEmpty(Assert(a), i, i);
  }

  lemma {:induction false} LineStartMatches(sub: Subject, multiline: bool, i: nat)
    requires i <= |sub.text|
    ensures Search(sub, Assert(LineStart(multiline)), true, i) ==
            if i == 0 || (multiline && sub.text[i - 1] in {10, 13, 0x2028, 0x2029}) then [State(i, [Span(i, i)])]
            else []
  {
    OneAssertion(sub, LineStart(multiline), i);
  }

  lemma {:induction false} LineEndMatches(sub: Subject, multiline: bool, i: nat)
    requires i <= |sub.text|
    ensures Search(sub, Assert(LineEnd(multiline)), true, i) ==
            if i == |sub.text| || (multiline && sub.text[i] in {10, 13, 0x2028, 0x2029}) then [State(i, [Span(i, i)])]
            else []
  {
    OneAssertion(sub, LineEnd(multiline), i);
  }

  /** A word boundary has a word character on one side only: a digit, a letter, the underscore, and, when ignoring case,
      the long s and the Kelvin sign. */
  lemma {:induction false} WordBoundaryMatches(sub: Subject, negated: bool, icase: bool, i: nat)
    requires i <= |sub.text|
    ensures
      var word := (c: int) =>
        || '0' as int <= c <= '9' as int || 'A' as int <= c <= 'Z' as int || 'a' as int <= c <= 'z' as int
        || c == '_' as int || (icase && c in {0x17f, 0x212a});
      var before, after := i > 0 && word(sub.text[i - 1]), i < |sub.text| && word(sub.text[i]);
      Search(sub, Assert(WordBoundary(negated, icase)), true, i) ==
      if (before != after) == negated then [] else [State(i, [Span(i, i)])]
  {
    OneAssertion(sub, WordBoundary(negated, icase), i);
  }

  /** Looking behind for one character tests the character in front. */
  lemma {:induction false} BehindMatches(sub: Subject, t: CharTest, i: nat)
    requires i <= |sub.text|
    ensures Search(sub, Look(false, true, Test(t)), true, i) != [] <==> i > 0 && Search(sub, Test(t), true, i - 1) != []
  {
    Once(sub, Look(false, true, Test(t)), i);
    if i > 0 {
      OneTest(sub, t, i - 1);
    }
  }

  /** The first of the named groups that is set, if any. */
  lemma {:induction false} FirstSet(caps: seq<Capture>, groups: seq<nat>, j: nat)
    requires j <= |groups| && forall k :: 0 <= k < j ==> groups[k] < |caps| ==> caps[groups[k]] == Undefined
    requires j < |groups| ==> groups[j] < |caps| && caps[groups[j]].Span?
    ensures FirstDefined(caps, groups) == if j < |groups| then caps[groups[j]] else Undefined
    decreases |groups|
  {
    if j > 0 {
      FirstSet(caps, groups[1..], j - 1);
    }
  }

  /** A back reference to groups that are all unset matches the empty string. */
  lemma {:induction false} UnsetMatches(sub: Subject, groups: seq<nat>, icase: bool, c: nat, back: bool, x: State)
    requires x.pos <= |sub.text|
    requires forall k :: 0 <= k < |groups| ==> groups[k] < |x.caps| ==> x.caps[groups[k]] == Undefined
    ensures Match(sub, BackRef(groups, icase), c, back, x) == [x]
  {
    FirstSet(x.caps, groups, |groups|);
  }

  /** The same characters, or, when ignoring case, characters with the same canonical ones. */
  predicate ReadsLike(alpha: Alphabet, a: seq<Char>, b: seq<Char>, icase: bool) {
    if icase then |a| == |b| && forall k :: 0 <= k < |a| ==> alpha.canon(a[k]) == alpha.canon(b[k]) else a == b
  }

  lemma {:induction false} ReadsEach(alpha: Alphabet, a: seq<Char>, b: seq<Char>, icase: bool)
    requires |a| == |b|
    ensures ReadsLike(alpha, a, b, icase) <==> forall k :: 0 <= k < |a| ==> Same(alpha, a[k], b[k], icase)
  {
    if forall k :: 0 <= k < |a| ==> Same(alpha, a[k], b[k], icase) {
      if !icase {
        assert forall k :: 0 <= k < |a| ==> Same(alpha, a[k], b[k], icase) ==> a[k] == b[k];
      }
    } else {
      var k :| 0 <= k < |a| && !Same(alpha, a[k], b[k], icase);
    }
  }

  lemma {:induction false} SameAt(sub: Subject, i: nat, j: nat, len: nat, icase: bool, k: nat)
    requires i + len <= |sub.text| && j + len <= |sub.text| && SameText(sub, i, j, len, icase) && k < len
    ensures Same(sub.alpha, sub.text[i..i + len][k], sub.text[j..j + len][k], icase)
  {
    hide Same;
    assert Same(sub.alpha, sub.text[i + k], sub.text[j + (i + k) - i], icase);
  }

  lemma {:induction false} DifferAt(sub: Subject, i: nat, j: nat, len: nat, icase: bool) returns (k: nat)
    requires i + len <= |sub.text| && j + len <= |sub.text| && !SameText(sub, i, j, len, icase)
    ensures k < len && !Same(sub.alpha, sub.text[i..i + len][k], sub.text[j..j + len][k], icase)
  {
    hide Same;
    var q :| i <= q < i + len && !Same(sub.alpha, sub.text[q], sub.text[j + q - i], icase);
    k := q - i;
  }

  /** Stretches read the same when their characters do. */
  lemma {:induction false} SameStretch(sub: Subject, i: nat, j: nat, len: nat, icase: bool)
    requires i + len <= |sub.text| && j + len <= |sub.text|
    ensures SameText(sub, i, j, len, icase) <==>
      ReadsLike(sub.alpha, sub.text[i..i + len], sub.text[j..j + len], icase)
  {
    hide ReadsLike, Same, SameText;
    var a, b := sub.text[i..i + len], sub.text[j..j + len];
    ReadsEach(sub.alpha, a, b, icase);
    if SameText(sub, i, j, len, icase) {
      forall k | 0 <= k < len ensures Same(sub.alpha, a[k], b[k], icase) {
        SameAt(sub, i, j, len, icase, k);
      }
    } else {
      var k := DifferAt(sub, i, j, len, icase);
    }
  }

  /** A back reference whose first group set holds the stretch [start, end) takes, in its direction, a stretch that
      reads the same, character by character, up to canonicalization when ignoring case; there is no other match. */
  lemma {:induction false} BackReferenceMatches(sub: Subject, groups: seq<nat>, icase: bool, c: nat, back: bool,
      x: State, j: nat, start: nat, end: nat)
    requires x.pos <= |sub.text| && j < |groups| && groups[j] < |x.caps| && x.caps[groups[j]] == Span(start, end)
    requires forall k :: 0 <= k < j ==> groups[k] < |x.caps| ==> x.caps[groups[k]] == Undefined
    requires start <= end <= |sub.text|
    ensures
      var from, to := if back then x.pos - (end - start) else x.pos, if back then x.pos else x.pos + (end - start);
      Match(sub, BackRef(groups, icase), c, back, x) ==
      if 0 <= from && to <= |sub.text| && ReadsLike(sub.alpha, sub.text[start..end], sub.text[from..to], icase) then
        [x.(pos := if back then from else to)]
      else []
  {
    hide FirstDefined, ReadsLike, SameText;
    FirstSet(x.caps, groups, j);
    var from := if back then x.pos - (end - start) else x.pos;
    if 0 <= from && from + (end - start) <= |sub.text| {
      SameStretch(sub, start, from, end - start, icase);
    }
  }

  /** A back reference to group 1 behind a match z of that group. */
  lemma {:induction false} BehindGroup(sub: Subject, b: Node, icase: bool, x: State, z: State)
    requires x.pos <= |sub.text| && 1 < |x.caps| && z in Match(sub, Group(b), 1, false, x)
    ensures x.pos <= z.pos <= |sub.text| && |z.caps| == |x.caps| && z.caps[1] == Span(x.pos, z.pos)
    ensures var to := z.pos + (z.pos - x.pos);
      Match(sub, BackRef([1], icase), 1 + Count(Group(b)), false, z) ==
      if to <= |sub.text| && ReadsLike(sub.alpha, sub.text[x.pos..z.pos], sub.text[z.pos..to], icase) then
        [z.(pos := to)]
      else []
  {
    hide Match, ReadsLike, Count;
    GroupSet(sub, b, 1, x, z);
    BackReferenceMatches(sub, [1], icase, 1 + Count(Group(b)), false, z, 0, x.pos, z.pos);
  }

  /** Both searches start alike. */
  lemma {:induction false} Starts(sub: Subject, b: Node, icase: bool, i: nat)
    requires i <= |sub.text|
    ensures var g, n, x := Group(b), Cat(Group(b), BackRef([1], icase)), State(i, Unset(Group(b)));
      && Search(sub, g, true, i) == CloseGroup(Match(sub, g, 1, false, x), 0, i)
      && Search(sub, n, true, i) ==
         CloseGroup(MatchAll(sub, BackRef([1], icase), 1 + Count(g), false, Match(sub, g, 1, false, x)), 0, i)
      && |x.caps| >= 2
  {
    hide Search, Match, MatchAll, CloseGroup, Unset;
    var g, n := Group(b), Cat(Group(b), BackRef([1], icase));
    Once(sub, n, i);
    Once(sub, g, i);
    assert Count(n) == Count(g) + Count(BackRef([1], icase)) == Count(g);
    SameUnset(n, g);
    CatMatches(sub, g, BackRef([1], icase), 1, State(i, Unset(g)));
  }

  lemma {:induction false} SameUnset(n: Node, n1: Node)
    requires Count(n) == Count(n1)
    ensures Unset(n) == Unset(n1)
  {
    hide Count, Unset;
    assert |Unset(n)| == |Unset(n1)|;
  }

  lemma {:induction false} CatMatches(sub: Subject, l: Node, r: Node, c: nat, x: State)
    requires x.pos <= |sub.text|
    ensures Match(sub, Cat(l, r), c, false, x) == MatchAll(sub, r, c + Count(l), false, Match(sub, l, c, false, x))
  {
    hide MatchAll;
  }

  /** A group followed by a back reference to it matches what the group matches when the same stands behind it, and
      nothing else. */
  lemma {:induction false} DoubledOnly(sub: Subject, b: Node, icase: bool, i: nat, y: State) returns (z: State)
    requires i <= |sub.text| && y in Search(sub, Cat(Group(b), BackRef([1], icase)), true, i)
    ensures z in Search(sub, Group(b), true, i) && i <= z.pos && y.pos == z.pos + (z.pos - i) <= |sub.text|
    ensures ReadsLike(sub.alpha, sub.text[i..z.pos], sub.text[z.pos..y.pos], icase)
    ensures 2 <= |y.caps| && y.caps[0] == Span(i, y.pos) && y.caps[1] == Span(i, z.pos)
  {
    hide Match, Search, CloseGroup, ReadsLike, MatchAll, Count, Unset;
    var g, x := Group(b), State(i, Unset(Group(b)));
    Starts(sub, b, icase, i);
    var xs := Match(sub, g, 1, false, x);
    var y1 := CloseGroupIn(MatchAll(sub, BackRef([1], icase), 1 + Count(g), false, xs), 0, i, y);
    var z1 := MatchAllIn(sub, BackRef([1], icase), 1 + Count(g), false, xs, y1);
    BehindGroup(sub, b, icase, x, z1);
    z := SetSpan(z1, 0, i);
    InCloseGroup(xs, 0, i, z1);
  }

  lemma {:induction false} DoubledAll(sub: Subject, b: Node, icase: bool, i: nat, z: State) returns (y: State)
    requires i <= |sub.text| && z in Search(sub, Group(b), true, i) && i <= z.pos && z.pos + (z.pos - i) <= |sub.text|
    requires ReadsLike(sub.alpha, sub.text[i..z.pos], sub.text[z.pos..z.pos + (z.pos - i)], icase)
    ensures y in Search(sub, Cat(Group(b), BackRef([1], icase)), true, i) && y.pos == z.pos + (z.pos - i)
  {
    hide Match, Search, CloseGroup, ReadsLike, MatchAll, Count, Unset;
    var g, x := Group(b), State(i, Unset(Group(b)));
    Starts(sub, b, icase, i);
    var xs := Match(sub, g, 1, false, x);
    var z1 := CloseGroupIn(xs, 0, i, z);
    BehindGroup(sub, b, icase, x, z1);
    var y1 := z1.(pos := z1.pos + (z1.pos - i));
    InMatchAll(sub, BackRef([1], icase), 1 + Count(g), false, xs, z1, y1);
    y := SetSpan(y1, 0, i);
    InCloseGroup(MatchAll(sub, BackRef([1], icase), 1 + Count(g), false, xs), 0, i, y1);
  }

  lemma {:induction false} InCloseGroup(xs: seq<State>, g: nat, from: nat, x: State)
    requires x in xs
    ensures SetSpan(x, g, from) in CloseGroup(xs, g, from)
  {
    hide SetSpan, CloseGroup;
    var k :| 0 <= k < |xs| && xs[k] == x;
    assert CloseGroup(xs, g, from)[k] == SetSpan(x, g, from);
  }

  /** A match of a group forwards sets its capture to what it has matched. */
  lemma {:induction false} GroupSet(sub: Subject, b: Node, c: nat, x: State, z: State)
    requires x.pos <= |sub.text| && c < |x.caps| && z in Match(sub, Group(b), c, false, x)
    ensures x.pos <= z.pos <= |sub.text| && |z.caps| == |x.caps| && z.caps[c] == Span(x.pos, z.pos)
  {
    hide CloseGroup;
    var w := CloseGroupIn(Match(sub, b, c + 1, false, x), c, x.pos, z);
    MatchFramed(sub, b, c + 1, false, x, w);
  }

  lemma {:induction false} InMatchAll(s: Subject, n: Node, c: nat, back: bool, xs: seq<State>, x: State, y: State)
    requires (forall x :: x in xs ==> x.pos <= |s.text|) && x in xs && y in Match(s, n, c, back, x)
    ensures y in MatchAll(s, n, c, back, xs)
    decreases |xs|
  {
    hide Match;
    if x != xs[0] {
      InMatchAll(s, n, c, back, xs[1..], x, y);
    }
  }
}

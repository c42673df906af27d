/** What a match leaves alone in the semantics: the captures of the groups outside the pattern. */
module SemanticsFrame {
  import opened RegexpSyntax
  import opened RegexpSemantics

  predicate CapsFramed(c: nat, n: nat, x: State, y: State) {
    |y.caps| == |x.caps| && forall g :: 0 <= g < |x.caps| && !(c <= g < c + n) ==> y.caps[g] == x.caps[g]
  }

  lemma {:induction false} MatchAllIn(s: Subject, n: Node, c: nat, back: bool, xs: seq<State>,
      y: State) returns (x: State)
    requires forall x :: x in xs ==> x.pos <= |s.text|
    requires y in MatchAll(s, n, c, back, xs)
    ensures x in xs && y in Match(s, n, c, back, x)
    decreases |xs|
  {
    hide Match;
    if y in Match(s, n, c, back, xs[0]) {
      x := xs[0];
    } else {
      x := MatchAllIn(s, n, c, back, xs[1..], y);
    }
  }

  lemma {:induction false} RepeatAllIn(s: Subject, b: Node, c: nat, back: bool, min: nat, max: nat, greedy: bool,
      xs: seq<State>, y: State)
    returns (x: State)
    requires forall x :: x in xs ==> x.pos <= |s.text|
    requires y in RepeatAll(s, b, c, back, min, max, greedy, xs)
    ensures x in xs && y in Repeat(s, b, c, back, min, max, greedy, x)
    decreases |xs|
  {
    hide Repeat;
    if y in Repeat(s, b, c, back, min, max, greedy, xs[0]) {
      x := xs[0];
    } else {
      x := RepeatAllIn(s, b, c, back, min, max, greedy, xs[1..], y);
    }
  }

  lemma {:induction false} MatchFramed(s: Subject, n: Node, c: nat, back: bool, x: State, y: State)
    requires x.pos <= |s.text| && y in Match(s, n, c, back, x)
    ensures CapsFramed(c, Count(n), x, y)
    decreases n, 1, 0, 0
  {
    hide MatchAll, Repeat, CloseGroup;
    match n
    case Cat(l, r) =>
      if back {
        SequenceFramed(s, n, r, c + Count(l), l, c, c, back, x, y);
      } else {
        SequenceFramed(s, n, l, c, r, c + Count(l), c, back, x, y);
      }
    case Alt(l, r) =>
      if y in Match(s, l, c, back, x) {
        MatchFramed(s, l, c, back, x, y);
      } else {
        MatchFramed(s, r, c + Count(l), back, x, y);
      }
    case Group(b) =>
      var z := CloseGroupIn(Match(s, b, c + 1, back, x), c, x.pos, y);
      MatchFramed(s, b, c + 1, back, x, z);
    case Quant(b, min, max, greedy) => RepeatFramed(s, b, c, back, min, max, greedy, x, y);
    case Look(negated, behind, b) =>
      var r := Match(s, b, c, behind, x);
      if !negated && r != [] {
        MatchFramed(s, b, c, behind, x, r[0]);
      }
    case _ =>
  }

  lemma {:induction false} CloseGroupIn(xs: seq<State>, g: nat, from: nat, y: State) returns (x: State)
    requires y in CloseGroup(xs, g, from)
    ensures x in xs && y == SetSpan(x, g, from)
  {
    var i :| 0 <= i < |xs| && y == CloseGroup(xs, g, from)[i];
    x := xs[i];
  }

  lemma {:induction false} SequenceFramed(s: Subject, n: Node, n1: Node, c1: nat, n2: Node, c2: nat, c: nat,
      back: bool, x: State, y: State)
    requires n1 < n && n2 < n && c <= c1 && c1 + Count(n1) <= c + Count(n) && c <= c2 && c2 + Count(n2) <= c + Count(n)
    requires x.pos <= |s.text| && y in MatchAll(s, n2, c2, back, Match(s, n1, c1, back, x))
    ensures CapsFramed(c, Count(n), x, y)
    decreases n, 0, 0, 0
  {
    hide Match, Count;
    var z := MatchAllIn(s, n2, c2, back, Match(s, n1, c1, back, x), y);
    MatchFramed(s, n1, c1, back, x, z);
    MatchFramed(s, n2, c2, back, z, y);
  }

  lemma {:induction false} RepeatFramed(s: Subject, b: Node, c: nat, back: bool, min: nat, max: nat, greedy: bool,
      x: State, y: State)
    requires x.pos <= |s.text| && y in Repeat(s, b, c, back, min, max, greedy, x)
    ensures CapsFramed(c, Count(b), x, y)
    decreases b, 2, min, Dist(s, back, x.pos)
  {
    hide Match, RepeatAll;
    if y != x {
      var x1 := x.(caps := ResetCaps(x.caps, c, Count(b)));
      var body := Match(s, b, c, back, x1);
      var z;
      if min > 0 {
        z := RepeatAllIn(s, b, c, back, min - 1, Less(max), greedy, body, y);
        MatchFramed(s, b, c, back, x1, z);
        RepeatFramed(s, b, c, back, min - 1, Less(max), greedy, z, y);
      } else {
        z := RepeatAllIn(s, b, c, back, 0, Less(max), greedy, Moved(body, x.pos), y);
        MatchFramed(s, b, c, back, x1, z);
        RepeatFramed(s, b, c, back, 0, Less(max), greedy, z, y);
      }
    }
  }
}

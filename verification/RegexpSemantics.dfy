/** The backtracking semantics of ECMA-262 section 22.2.2, as a list of successes: a pattern maps
    a match state to every state it can end in, in the order in which a backtracking matcher
    tries them. The match is the head of the list; an empty list is a failure. */
module RegexpSemantics {
  import opened RegexpSyntax

  datatype Capture = Undefined | Span(start: nat, end: nat)

  /** A match state (MatchState of section 22.2.2): an end index and a list of captures. */
  datatype State = State(pos: nat, caps: seq<Capture>)

  predicate IsLineTerminator(c: int) {
    c == 10 || c == 13 || c == 0x2028 || c == 0x2029
  }

  /** lre_is_word_byte: the upper and lower case letters, the digits and the underscore of lre_ctype_bits. */
  predicate IsWordByte(c: int) {
    0x41 <= c < 0x5b || 0x61 <= c < 0x7b || 0x30 <= c < 0x3a || c == 0x5f
  }

  predicate IsWordChar(c: Char, icase: bool) {
    if c < 256 then IsWordByte(c) else icase && (c == 0x17f || c == 0x212a)
  }

  /** lre_is_space: the ranges of char_range_s. */
  predicate IsSpace(c: int) {
    || 0x09 <= c < 0x0e || c == 0x20 || c == 0xa0 || c == 0x1680 || 0x2000 <= c < 0x200b || 0x2028 <= c < 0x202a
    || c == 0x202f || c == 0x205f || c == 0x3000 || c == 0xfeff
  }

  /** Whether the character c of the subject passes the test t. */
  predicate Accepts(a: Alphabet, t: CharTest, c: Char) {
    match t
    case Literal(l, icase) => if icase then a.canon(l) == a.canon(c) else l == c
    case Dot => !IsLineTerminator(c)
    case Any => true
    case Space(negated) => IsSpace(c) != negated
    case Class(rs, icase) =>
      var ch := if icase then a.canon(c) else c;
      exists i :: 0 <= i < |rs| && rs[i].Holds(ch)
  }

  predicate Asserts(s: Subject, a: Assertion, pos: nat)
    requires pos <= |s.text|
  {
    match a
    case LineStart(multiline) => pos == 0 || (multiline && IsLineTerminator(s.text[pos - 1]))
    case LineEnd(multiline) => pos == |s.text| || (multiline && IsLineTerminator(s.text[pos]))
    case WordBoundary(negated, icase) =>
      var before := pos > 0 && IsWordChar(s.text[pos - 1], icase);
      var after := pos < |s.text| && IsWordChar(s.text[pos], icase);
      (before != after) != negated
  }

  /** How far the matcher can still travel from pos in its direction. */
  function Dist(s: Subject, back: bool, pos: nat): (r: nat) {
    if back then pos else if pos <= |s.text| then |s.text| - pos else 0
  }

  function Same(a: Alphabet, x: Char, y: Char, icase: bool): (r: bool) {
    if icase then a.canon(x) == a.canon(y) else x == y
  }

  /** Whether the two stretches of length len starting at i and j read the same. */
  predicate SameText(s: Subject, i: nat, j: nat, len: nat, icase: bool)
    requires i + len <= |s.text| && j + len <= |s.text|
  {
    forall k :: i <= k < i + len ==> Same(s.alpha, s.text[k], s.text[j + k - i], icase)
  }

  /** BackreferenceMatcher: the first defined capture among the named groups must occur at pos. */
  function MatchSpan(s: Subject, c: Capture, icase: bool, back: bool, pos: nat): (r: seq<nat>) {
    match c
    case Undefined => [pos]
    case Span(start, end) =>
      if start > end || end > |s.text| then []
      else
        var len := end - start;
        if back then
          if len <= pos <= |s.text| && SameText(s, start, pos - len, len, icase) then [pos - len] else []
        else
          if pos + len <= |s.text| && SameText(s, start, pos, len, icase) then [pos + len] else []
  }

  function FirstDefined(caps: seq<Capture>, groups: seq<nat>): (r: Capture) {
    if groups == [] then Undefined
    else if groups[0] < |caps| && caps[groups[0]].Span? then caps[groups[0]]
    else FirstDefined(caps, groups[1..])
  }

  /** RepeatMatcher step 4: the captures of the atom are forgotten before every iteration. */
  function ResetCaps(caps: seq<Capture>, lo: nat, n: nat): (r: seq<Capture>)
    ensures |r| == |caps|
    ensures forall g :: 0 <= g < |caps| ==> r[g] == if lo <= g < lo + n then Undefined else caps[g]
  {
    seq(|caps|, g requires 0 <= g < |caps| => if lo <= g < lo + n then Undefined else caps[g])
  }

  function SetSpan(x: State, g: nat, from: nat): (r: State) {
    if g < |x.caps| then
      x.(caps := x.caps[g := if from <= x.pos then Span(from, x.pos) else Span(x.pos, from)])
    else x
  }

  function CloseGroup(xs: seq<State>, g: nat, from: nat): (r: seq<State>)
    ensures |r| == |xs| && forall i :: 0 <= i < |xs| ==> r[i] == SetSpan(xs[i], g, from)
  {
    if xs == [] then [] else [SetSpan(xs[0], g, from)] + CloseGroup(xs[1..], g, from)
  }

  /** The states that end elsewhere than at pos: an iteration past the minimum must not be empty. */
  function Moved(xs: seq<State>, pos: nat): (r: seq<State>)
    ensures forall x :: x in r <==> x in xs && x.pos != pos
  {
    if xs == [] then [] else (if xs[0].pos != pos then [xs[0]] else []) + Moved(xs[1..], pos)
  }

  /** One more than the largest distance left to any state of the list: 0 for the empty list. */
  function Radius(s: Subject, back: bool, xs: seq<State>): (r: nat)
    ensures forall x :: x in xs ==> Dist(s, back, x.pos) < r
  {
    if xs == [] then 0
    else
      var d := Dist(s, back, xs[0].pos) + 1;
      var rest := Radius(s, back, xs[1..]);
      if d > rest then d else rest
  }

  lemma {:induction false} RadiusBound(s: Subject, back: bool, xs: seq<State>, b: nat)
    requires forall x :: x in xs ==> Dist(s, back, x.pos) < b
    ensures Radius(s, back, xs) <= b
  {
    if xs != [] {
      assert xs[0] in xs;
      RadiusBound(s, back, xs[1..], b);
    }
  }

  /** A match moves in its direction only and stays inside the subject. */
  predicate Ahead(s: Subject, back: bool, from: nat, to: nat) {
    if back then to <= from else from <= to && (from <= |s.text| ==> to <= |s.text|)
  }

  function Less(max: nat): (r: nat)
    requires max > 0
  {
    if max == INT32_MAX then max else max - 1
  }

  /** CompileSubpattern and CompileAtom: every outcome of matching n, whose first group has number c. */
  function Match(s: Subject, n: Node, c: nat, back: bool, x: State): (r: seq<State>)
    requires x.pos <= |s.text|
    ensures forall y :: y in r ==> Ahead(s, back, x.pos, y.pos) && y.pos <= |s.text|
    decreases n, 0, 0, 0, 0, 0
  {
    match n
    case Empty => [x]
    case Test(t) =>
      if back then
        if x.pos > 0 && Accepts(s.alpha, t, s.text[x.pos - 1]) then [x.(pos := x.pos - 1)] else []
      else
        if x.pos < |s.text| && Accepts(s.alpha, t, s.text[x.pos]) then [x.(pos := x.pos + 1)] else []
    case Assert(a) => if Asserts(s, a, x.pos) then [x] else []
    case BackRef(gs, icase) =>
      var p := MatchSpan(s, FirstDefined(x.caps, gs), icase, back, x.pos);
      if p == [] then [] else [x.(pos := p[0])]
    case Cat(l, r) =>
      if back then MatchAll(s, l, c, back, Match(s, r, c + Count(l), back, x))
      else MatchAll(s, r, c + Count(l), back, Match(s, l, c, back, x))
    case Alt(l, r) => Match(s, l, c, back, x) + Match(s, r, c + Count(l), back, x)
    case Group(b) => CloseGroup(Match(s, b, c + 1, back, x), c, x.pos)
    case Quant(b, min, max, greedy) => Repeat(s, b, c, back, min, max, greedy, x)
    case Look(negated, behind, b) =>
      var r := Match(s, b, c, behind, x);
      if negated then (if r == [] then [x] else [])
      else if r == [] then [] else [r[0].(pos := x.pos)]
  }

  function MatchAll(s: Subject, n: Node, c: nat, back: bool, xs: seq<State>): (r: seq<State>)
    requires forall x :: x in xs ==> x.pos <= |s.text|
    ensures forall y :: y in r ==> y.pos <= |s.text| && exists x :: x in xs && Ahead(s, back, x.pos, y.pos)
    decreases n, 1, 0, 0, 0, |xs|
  {
    if xs == [] then []
    else
      Match(s, n, c, back, xs[0]) + MatchAll(s, n, c, back, xs[1..])
  }

  /** RepeatMatcher: max == INT32_MAX stands for infinity. */
  function Repeat(s: Subject, b: Node, c: nat, back: bool, min: nat, max: nat, greedy: bool, x: State): (r: seq<State>)
    requires x.pos <= |s.text|
    ensures forall y :: y in r ==> Ahead(s, back, x.pos, y.pos) && y.pos <= |s.text|
    decreases b, 2, min, Dist(s, back, x.pos) + 1, 0, 0
  {
    if max == 0 then [x]
    else
      var body := Match(s, b, c, back, x.(caps := ResetCaps(x.caps, c, Count(b))));
      if min > 0 then RepeatAll(s, b, c, back, min - 1, Less(max), greedy, body)
      else
        var moved := Moved(body, x.pos);
        RadiusBound(s, back, moved, Dist(s, back, x.pos));
        var more := RepeatAll(s, b, c, back, 0, Less(max), greedy, moved);
        if greedy then more + [x] else [x] + more
  }

  function RepeatAll(s: Subject, b: Node, c: nat, back: bool, min: nat, max: nat, greedy: bool, xs: seq<State>)
    : (r: seq<State>)
    requires forall x :: x in xs ==> x.pos <= |s.text|
    ensures forall y :: y in r ==> y.pos <= |s.text| && exists x :: x in xs && Ahead(s, back, x.pos, y.pos)
    decreases b, 2, min, Radius(s, back, xs), 1, |xs|
  {
    if xs == [] then []
    else
      Repeat(s, b, c, back, min, max, greedy, xs[0]) + RepeatAll(s, b, c, back, min, max, greedy, xs[1..])
  }

  /** The captures before a match: none is set. */
  function Unset(n: Node): (r: seq<Capture>)
    ensures |r| == 1 + Count(n) && forall g :: 0 <= g < |r| ==> r[g] == Undefined
  {
    seq(1 + Count(n), _ => Undefined)
  }

  /** A match of the whole pattern at one place. */
  function Attempt(s: Subject, n: Node, from: nat): (r: seq<State>)
    requires from <= |s.text|
  {
    CloseGroup(Match(s, n, 1, false, State(from, Unset(n))), 0, from)
  }

  /** RegExpBuiltinExec: the match is sought at from, then, unless sticky, at every later index. */
  function Search(s: Subject, n: Node, sticky: bool, from: nat): (r: seq<State>)
    requires from <= |s.text|
    decreases |s.text| - from
  {
    Attempt(s, n, from) + if sticky || from == |s.text| then [] else Search(s, n, sticky, from + 1)
  }
}

/** The syntax tree the regular expression parser walks, and the subject text it is matched against. */
module RegexpSyntax {

  const INT32_MAX := 0x7fff_ffff
  const UINT32_MAX := 0xffff_ffff
  const CAPTURE_COUNT_MAX := 255
  const REGISTER_COUNT_MAX := 255

  /** One character of the subject: a code unit (or a code point). */
  type Char = c: int | 0 <= c <= 0x10_ffff

  /** A half-open interval [lo, hi) of characters; hi == UINT32_MAX stands for infinity. */
  datatype Interval = Interval(lo: nat, hi: nat) {
    predicate Holds(c: int) {
      lo <= c && (c < hi || hi == UINT32_MAX)
    }
  }

  /** Canonicalization, whose tables in libunicode.c are not part of this model. */
  datatype Alphabet = Alphabet(canon: Char -> Char)

  datatype Subject = Subject(text: seq<Char>, alpha: Alphabet)

  /** What a pattern character demands of one character of the subject. */
  datatype CharTest =
    | Literal(c: Char, icase: bool)
    | Dot
    | Any
    | Space(negated: bool)
    | Class(ranges: seq<Interval>, icase: bool)

  datatype Assertion =
    | LineStart(multiline: bool)
    | LineEnd(multiline: bool)
    | WordBoundary(negated: bool, icase: bool)

  /** A pattern. A quantifier whose max is INT32_MAX is unbounded, as in the parser. */
  datatype Node =
    | Empty
    | Test(t: CharTest)
    | Assert(a: Assertion)
    | BackRef(groups: seq<nat>, icase: bool)
    | Cat(l: Node, r: Node)
    | Alt(l: Node, r: Node)
    | Group(body: Node)
    | Quant(body: Node, min: nat, max: nat, greedy: bool)
    | Look(negated: bool, behind: bool, body: Node)

  /** The number of capture groups in a pattern. */
  function Count(n: Node): (r: nat) {
    match n
    case Cat(l, r) => Count(l) + Count(r)
    case Alt(l, r) => Count(l) + Count(r)
    case Group(b) => 1 + Count(b)
    case Quant(b, _, _, _) => Count(b)
    case Look(_, _, b) => Count(b)
    case _ => 0
  }

  /** The intervals are non-empty and strictly increasing: what CharRange keeps in points[]. */
  predicate Increasing(rs: seq<Interval>) {
    && (forall i :: 0 <= i < |rs| ==> rs[i].lo < rs[i].hi <= UINT32_MAX)
    && (forall i :: 0 < i < |rs| ==> rs[i - 1].hi < rs[i].lo)
  }

  /** What the parser guarantees of the trees it builds, for a pattern with total groups. */
  predicate WellFormed(n: Node, total: nat) {
    match n
    case Test(t) => t.Class? ==> Increasing(t.ranges) && |t.ranges| < 65535
    case BackRef(gs, _) => |gs| <= 255 && forall i :: 0 <= i < |gs| ==> gs[i] < total
    case Cat(l, r) => WellFormed(l, total) && WellFormed(r, total)
    case Alt(l, r) => WellFormed(l, total) && WellFormed(r, total)
    case Group(b) => WellFormed(b, total)
    case Quant(b, min, max, _) => min <= max <= INT32_MAX && WellFormed(b, total)
    case Look(_, _, b) => WellFormed(b, total)
    case _ => true
  }

  /** Every match of n consumes a character, whichever alternatives are taken. */
  predicate MustAdvance(n: Node) {
    match n
    case Test(_) => true
    case Cat(l, r) => MustAdvance(l) || MustAdvance(r)
    case Alt(l, r) => MustAdvance(l) && MustAdvance(r)
    case Group(b) => MustAdvance(b)
    case Quant(b, min, _, _) => min > 0 && MustAdvance(b)
    case _ => false
  }

  /** What the engine's counters of remaining iterations can stand for: they start at INT32_MAX for an unbounded
      quantifier, and strings are shorter than that. An atom that always consumes a character runs out of them first;
      for the others, the demanded iterations and one for each character of the subject have to fit. */
  predicate CountersFit(n: Node, len: nat) {
    match n
    case Cat(l, r) => CountersFit(l, len) && CountersFit(r, len)
    case Alt(l, r) => CountersFit(l, len) && CountersFit(r, len)
    case Group(b) => CountersFit(b, len)
    case Quant(b, min, max, _) =>
      (min > 0 && max == INT32_MAX ==> len < INT32_MAX && (MustAdvance(b) || min + len <= INT32_MAX)) && CountersFit(b,
          len)
    case Look(_, _, b) => CountersFit(b, len)
    case _ => true
  }
}

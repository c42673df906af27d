/** The lists the parser's loops run over: the alternatives of a disjunction and the terms of an
    alternative, as spines of the syntax tree, and the code of a list. */
module Spines {
  import opened RegexpSyntax
  import opened Bytecode
  import opened CodeGen

  /** What the parser guarantees by construction. Its limits are checked as it goes. */
  predicate Parsable(n: Node) {
    match n
    case Test(t) => t.Class? ==> Increasing(t.ranges)
    case BackRef(gs, _) => |gs| <= 255
    case Cat(l, r) => Parsable(l) && Parsable(r)
    case Alt(l, r) => Parsable(l) && Parsable(r)
    case Group(b) => Parsable(b)
    case Quant(b, min, max, _) => min <= max <= INT32_MAX && Parsable(b)
    case Look(_, _, b) => Parsable(b)
    case _ => true
  }

  /** Within the parser's limits, when c groups come before it. */
  predicate Compilable(n: Node, c: nat) {
    WellFormed(n, CAPTURE_COUNT_MAX) && c + Count(n) <= CAPTURE_COUNT_MAX
  }

  function Last<T>(s: seq<T>): (r: T)
    requires s != []
  {
    s[|s| - 1]
  }

  function Front<T>(s: seq<T>): (r: seq<T>)
    requires s != []
  {
    s[..|s| - 1]
  }

  /** Every element is a part of n, or n itself when n is not a spine. */
  ghost predicate PartsOf(ns: seq<Node>, n: Node, spine: bool) {
    forall i :: 0 <= i < |ns| ==> ns[i] < n || (ns[i] == n && !spine)
  }

  function Terms(n: Node): (r: seq<Node>)
    ensures PartsOf(r, n, n.Cat? || n.Empty?)
  {
    match n
    case Empty => []
    case Cat(l, r) => Terms(l) + [r]
    case _ => [n]
  }

  function Alternatives(n: Node): (r: seq<Node>)
    ensures r != [] && PartsOf(r, n, n.Alt?)
  {
    match n
    case Alt(l, r) => Alternatives(l) + [r]
    case _ => [n]
  }

  function CountAll(ns: seq<Node>): (r: nat) {
    if ns == [] then 0 else CountAll(Front(ns)) + Count(Last(ns))
  }

  predicate AllWellFormed(ns: seq<Node>) {
    forall i :: 0 <= i < |ns| ==> WellFormed(ns[i], CAPTURE_COUNT_MAX)
  }

  predicate AllParsable(ns: seq<Node>) {
    forall i :: 0 <= i < |ns| ==> Parsable(ns[i])
  }

  /** The code of an alternative: backward, the terms are in reverse order. */
  function GenTerms(alpha: Alphabet, ns: seq<Node>, c: nat, back: bool): (r: seq<Instr>)
    requires AllWellFormed(ns)
  {
    if ns == [] then []
    else
      var last := Gen(alpha, Last(ns), c + CountAll(Front(ns)), back, -1);
      if back then last + GenTerms(alpha, Front(ns), c, back) else GenTerms(alpha, Front(ns), c, back) + last
  }

  /** The code of a disjunction. */
  function GenAlternatives(alpha: Alphabet, ns: seq<Node>, c: nat, back: bool): (r: seq<Instr>)
    requires ns != [] && AllWellFormed(ns)
  {
    if |ns| == 1 then Gen(alpha, ns[0], c, back, -1)
    else AltForm(GenAlternatives(alpha, Front(ns), c, back), Gen(alpha, Last(ns), c + CountAll(Front(ns)), back, -1))
  }

  lemma {:induction false} SpineOne(n: Node)
    ensures CountAll([n]) == Count(n) && Front([n]) == [] && Last([n]) == n
    ensures AllWellFormed([n]) <==> WellFormed(n, CAPTURE_COUNT_MAX)
    ensures AllParsable([n]) <==> Parsable(n)
  {
    hide WellFormed, Parsable;
    EmptySpine();
    assert [n][0] == n;
  }

  lemma {:induction false} EmptySpine()
    ensures CountAll([]) == 0 && AllWellFormed([]) && AllParsable([])
  {
  }

  lemma {:induction false} Snoc(ns: seq<Node>, n: Node)
    ensures Front(ns + [n]) == ns && Last(ns + [n]) == n
    ensures CountAll(ns + [n]) == CountAll(ns) + Count(n)
    ensures AllWellFormed(ns + [n]) <==> AllWellFormed(ns) && WellFormed(n, CAPTURE_COUNT_MAX)
    ensures AllParsable(ns + [n]) <==> AllParsable(ns) && Parsable(n)
  {
    hide WellFormed, Parsable, Count;
    var all := ns + [n];
    assert all[|ns|] == n && forall i :: 0 <= i < |ns| ==> all[i] == ns[i];
  }

  lemma {:induction false} TermsSnoc(alpha: Alphabet, ns: seq<Node>, n: Node, c: nat, back: bool)
    requires AllWellFormed(ns) && WellFormed(n, CAPTURE_COUNT_MAX)
    ensures AllWellFormed(ns + [n])
    ensures GenTerms(alpha, ns + [n], c, back) ==
            if back then Gen(alpha, n, c + CountAll(ns), back, -1) + GenTerms(alpha, ns, c, back)
            else GenTerms(alpha, ns, c, back) + Gen(alpha, n, c + CountAll(ns), back, -1)
  {
    hide Gen, WellFormed, CountAll;
    Snoc(ns, n);
  }

  lemma {:induction false} EmptyCode(alpha: Alphabet, c: nat, back: bool)
    ensures Gen(alpha, Empty, c, back, -1) == GenTerms(alpha, [], c, back)
  {
  }

  lemma {:induction false} TermsMean(alpha: Alphabet, n: Node, c: nat, back: bool)
    ensures AllParsable(Terms(n)) <==> Parsable(n)
    ensures AllWellFormed(Terms(n)) <==> WellFormed(n, CAPTURE_COUNT_MAX)
    ensures CountAll(Terms(n)) == Count(n)
    ensures WellFormed(n, CAPTURE_COUNT_MAX) ==> GenTerms(alpha, Terms(n), c, back) == Gen(alpha, n, c, back, -1)
  {
    hide Gen, GenTerms, AllWellFormed, AllParsable, CountAll;
    match n
    case Empty =>
      EmptySpine();
      EmptyCode(alpha, c, back);
    case Cat(l, r) =>
      TermsMean(alpha, l, c, back);
      Snoc(Terms(l), r);
      if WellFormed(n, CAPTURE_COUNT_MAX) {
        CatCode(alpha, l, r, c, back, -1);
        TermsSnoc(alpha, Terms(l), r, c, back);
      }
    case _ =>
      SpineOne(n);
      if WellFormed(n, CAPTURE_COUNT_MAX) {
        OneTerm(alpha, n, c, back);
      }
  }

  lemma {:induction false} OneTerm(alpha: Alphabet, n: Node, c: nat, back: bool)
    requires WellFormed(n, CAPTURE_COUNT_MAX)
    ensures GenTerms(alpha, [n], c, back) == Gen(alpha, n, c, back, -1)
  {
    hide Gen;
    SpineOne(n);
    var code := Gen(alpha, n, c, back, -1);
    assert code + [] == code && [] + code == code;
  }

  lemma {:induction false} AlternativesSnoc(alpha: Alphabet, ns: seq<Node>, n: Node, c: nat, back: bool)
    requires ns != [] && AllWellFormed(ns) && WellFormed(n, CAPTURE_COUNT_MAX)
    ensures AllWellFormed(ns + [n])
    ensures GenAlternatives(alpha, ns + [n], c, back) ==
            AltForm(GenAlternatives(alpha, ns, c, back), Gen(alpha, n, c + CountAll(ns), back, -1))
  {
    hide Gen, WellFormed, CountAll, AltForm;
    Snoc(ns, n);
  }

  lemma {:induction false} AlternativesMean(alpha: Alphabet, n: Node, c: nat, back: bool)
    ensures AllParsable(Alternatives(n)) <==> Parsable(n)
    ensures AllWellFormed(Alternatives(n)) <==> WellFormed(n, CAPTURE_COUNT_MAX)
    ensures CountAll(Alternatives(n)) == Count(n)
    ensures WellFormed(n, CAPTURE_COUNT_MAX) ==> GenAlternatives(alpha, Alternatives(n), c, back) == Gen(alpha, n, c,
        back, -1)
  {
    hide Gen, AltForm;
    match n
    case Alt(l, r) =>
      AlternativesMean(alpha, l, c, back);
      Snoc(Alternatives(l), r);
      if WellFormed(n, CAPTURE_COUNT_MAX) {
        hide GenAlternatives;
        AltCode(alpha, l, r, c, back, -1);
        AlternativesSnoc(alpha, Alternatives(l), r, c, back);
      }
    case _ => SpineOne(n);
  }

  /** A prefix of a list has no more groups than the list. */
  lemma {:induction false} CountPrefix(ns: seq<Node>, k: nat)
    requires k <= |ns|
    ensures CountAll(ns[..k]) <= CountAll(ns)
    ensures k < |ns| ==> CountAll(ns[..k]) + Count(ns[k]) <= CountAll(ns)
    decreases |ns|
  {
    hide Count;
    if k == |ns| {
      assert ns[..k] == ns;
    } else {
      assert Front(ns)[..k] == ns[..k];
      CountPrefix(Front(ns), k);
    }
  }
}

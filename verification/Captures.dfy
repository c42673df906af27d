/** How the engine's pairs of memory cells stand for the captures of the semantics. */
module Captures {
  import opened Machine
  import opened Denotation
  import opened RegexpSemantics
  import opened SemanticsFrame

  /** The two cells of group g against its capture: a capture with one end missing counts as undefined. */
  predicate Agrees(env: Env, mem: seq<int>, caps: seq<Capture>, g: nat) {
    && g < |caps| && 2 * g + 1 < |mem|
    && match caps[g]
       case Undefined => mem[2 * g] == NULL || mem[2 * g + 1] == NULL
       case Span(a, b) => mem[2 * g] == a && mem[2 * g + 1] == b && a <= b <= |env.sub.text|
  }

  /** The stricter form that holds of every group that is not open. */
  predicate Settled(env: Env, mem: seq<int>, caps: seq<Capture>, g: nat) {
    Agrees(env, mem, caps, g) && (caps[g] == Undefined ==> mem[2 * g] == mem[2 * g + 1] == NULL)
  }

  ghost predicate AllSettled(env: Env, mem: seq<int>, caps: seq<Capture>, c: nat, n: nat) {
    forall g :: c <= g < c + n ==> Settled(env, mem, caps, g)
  }

  predicate IsUndefined(caps: seq<Capture>, g: nat) {
    g < |caps| && caps[g] == Undefined
  }

  ghost predicate AllUndefined(caps: seq<Capture>, c: nat, n: nat) {
    forall g :: c <= g < c + n ==> IsUndefined(caps, g)
  }

  lemma {:induction false} UndefinedKept(c1: nat, n1: nat, s: State, t: State, c2: nat, n2: nat, c: nat, k: nat)
    requires CapsFramed(c1, n1, s, t) && AllUndefined(s.caps, c, k) && c <= c2 && c2 + n2 <= c + k
    requires c1 + n1 <= c2 || c2 + n2 <= c1
    ensures AllUndefined(t.caps, c2, n2)
  {
    forall g | c2 <= g < c2 + n2 ensures IsUndefined(t.caps, g) {
      assert IsUndefined(s.caps, g);
    }
  }
}

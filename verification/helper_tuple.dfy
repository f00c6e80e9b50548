/**
  `QemuHelperTuple` of libafl_qemu's helper module: helpers are chained as
  nested pairs `(H1, (H2, (H3, ())))`, and every `*_all` hook of the chain
  calls the head helper's hook and then the tail's `*_all`, ending at the unit
  chain, which does nothing.

  A helper is modelled by an identity, its `HOOKS_DO_SIDE_EFFECTS` constant (the
  trait's default unless the helper overrides it) and its `post_exec`, a
  function from the observers and the exit kind to their updated values. The
  order in which helpers' hooks run is recorded in a `Trace`.
*/
module HelperTuple {

  import Wrappers

  /** The per-helper hooks a chain dispatches. */
  datatype Hook = InitHooks | FirstExec | PreExec | PostExec

  /** One call of `hook` on the helper with identity `helper`. */
  datatype Event = Event(hook: Hook, helper: nat)

  /** A `QemuHelper`. `sideEffects` is `None` when the helper keeps the trait's
      default `HOOKS_DO_SIDE_EFFECTS`; `postExec` maps the observers `O` and
      the exit kind `K` to their values after the helper's `post_exec`. */
  datatype Helper<!O, !K> = Helper(id: nat, sideEffects: Wrappers.Option<bool>, postExec: (O, K) -> (O, K))

  /** A `QemuHelperTuple`: `()` or `(Head, Tail)`. */
  datatype Chain<!O, !K> = Unit | Pair(head: Helper<O, K>, tail: Chain<O, K>)

  /** The helpers of a chain in declaration order. */
  function Members<O, K>(c: Chain<O, K>): seq<Helper<O, K>> {
    match c
    case Unit => []
    case Pair(h, t) => [h] + Members(t)
  }

  // ---------------------------------------------------------------------------
  // HOOKS_DO_SIDE_EFFECTS

  /** `QemuHelper::HOOKS_DO_SIDE_EFFECTS`: true unless the helper overrides it. */
  function HelperDoesSideEffects<O, K>(h: Helper<O, K>): bool {
    match h.sideEffects
    case None => true
    case Some(b) => b
  }

  /** `QemuHelperTuple::HOOKS_DO_SIDE_EFFECTS`: false for `()`, the disjunction
      of head and tail for a pair. */
  function ChainDoesSideEffects<O, K>(c: Chain<O, K>): bool {
    match c
    case Unit => false
    case Pair(h, t) => HelperDoesSideEffects(h) || ChainDoesSideEffects(t)
  }

  /** Some helper in `hs` has hooks with side effects. */
  predicate SomeDoesSideEffects<O, K>(hs: seq<Helper<O, K>>) {
    exists i :: 0 <= i < |hs| && HelperDoesSideEffects(hs[i])
  }

  /** A chain's hooks have side effects iff some helper's hooks have them. */
  lemma {:induction false} ChainSideEffectsIffSomeMember<O, K>(c: Chain<O, K>)
    ensures ChainDoesSideEffects(c) <==> SomeDoesSideEffects(Members(c))
  {
    match c
    case Unit =>
    case Pair(h, t) =>
      ChainSideEffectsIffSomeMember(t);
      var m := Members(c);
      assert m == [h] + Members(t);
      if HelperDoesSideEffects(h) {
        assert HelperDoesSideEffects(m[0]);
      } else if ChainDoesSideEffects(t) {
        var i :| 0 <= i < |Members(t)| && HelperDoesSideEffects(Members(t)[i]);
        assert m[i + 1] == Members(t)[i];
      }
      if SomeDoesSideEffects(m) {
        var i :| 0 <= i < |m| && HelperDoesSideEffects(m[i]);
        if i > 0 {
          assert HelperDoesSideEffects(Members(t)[i - 1]);
        }
      }
  }

  /** A chain whose first helper keeps the trait's default has side effects,
      and a chain of helpers that all override the constant to false has none. */
  lemma {:induction false} DefaultHelpersDoSideEffects<O, K>(c: Chain<O, K>)
    ensures c.Pair? && c.head.sideEffects.None? ==> ChainDoesSideEffects(c)
    ensures (forall i :: 0 <= i < |Members(c)| ==> Members(c)[i].sideEffects == Wrappers.Some(false))
            ==> !ChainDoesSideEffects(c)
  {
    ChainSideEffectsIffSomeMember(c);
  }

  // ---------------------------------------------------------------------------
  // Dispatch order

  /** Records the hook calls of a run, in the order they happen. */
  class Trace {
    var events: seq<Event>

    constructor()
      ensures events == []
    {
      events := [];
    }

    method Record(e: Event)
      modifies this
      ensures events == old(events) + [e]
    {
      events := events + [e];
    }
  }

  /** The calls of `hook` that a chain makes: one per helper, in declaration
      order. */
  function Calls<O, K>(hook: Hook, c: Chain<O, K>): seq<Event> {
    var m := Members(c);
    seq(|m|, i requires 0 <= i < |m| => Event(hook, m[i].id))
  }

  /** The calls of a pair are the head's call followed by the tail's calls. */
  lemma CallsOfPair<O, K>(hook: Hook, h: Helper<O, K>, t: Chain<O, K>)
    ensures Calls(hook, Pair(h, t)) == [Event(hook, h.id)] + Calls(hook, t)
  {
    var r := Calls(hook, Pair(h, t));
    var s := [Event(hook, h.id)] + Calls(hook, t);
    assert |r| == |s|;
    forall i | 0 <= i < |r|
      ensures r[i] == s[i]
    {
      if i > 0 {
        assert Members(Pair(h, t))[i] == Members(t)[i - 1];
      }
    }
  }

  /** Calls `hook` on the head helper, then on the rest of the chain. */
  method Dispatch<O, K>(hook: Hook, c: Chain<O, K>, trace: Trace)
    modifies trace
    ensures trace.events == old(trace.events) + Calls(hook, c)
    decreases c
  {
    match c {
      case Unit =>
        assert Calls(hook, c) == [];
      case Pair(h, t) =>
        trace.Record(Event(hook, h.id));
        Dispatch(hook, t, trace);
        CallsOfPair(hook, h, t);
    }
  }

  /** `init_hooks_all`. */
  method InitHooksAll<O, K>(c: Chain<O, K>, trace: Trace)
    modifies trace
    ensures trace.events == old(trace.events) + Calls(InitHooks, c)
  {
    Dispatch(InitHooks, c, trace);
  }

  /** `first_exec_all`. */
  method FirstExecAll<O, K>(c: Chain<O, K>, trace: Trace)
    modifies trace
    ensures trace.events == old(trace.events) + Calls(FirstExec, c)
  {
    Dispatch(FirstExec, c, trace);
  }

  /** `pre_exec_all`. */
  method PreExecAll<O, K>(c: Chain<O, K>, trace: Trace)
    modifies trace
    ensures trace.events == old(trace.events) + Calls(PreExec, c)
  {
    Dispatch(PreExec, c, trace);
  }

  // ---------------------------------------------------------------------------
  // post_exec_all

  /** The helpers' `post_exec` updates applied left to right: the last helper
      acts on what all the earlier ones produced. */
  function Compose<O, K>(hs: seq<Helper<O, K>>, o: O, k: K): (O, K) {
    if |hs| == 0 then (o, k)
    else
      var (o1, k1) := Compose(hs[..|hs| - 1], o, k);
      hs[|hs| - 1].postExec(o1, k1)
  }

  /** Composing `[h] + hs` runs `h` first and feeds its result to `hs`. */
  lemma {:induction false} ComposeCons<O, K>(h: Helper<O, K>, hs: seq<Helper<O, K>>, o: O, k: K)
    ensures Compose([h] + hs, o, k) == Compose(hs, h.postExec(o, k).0, h.postExec(o, k).1)
    decreases |hs|
  {
    if |hs| > 0 {
      var all := [h] + hs;
      assert all[..|all| - 1] == [h] + hs[..|hs| - 1];
      ComposeCons(h, hs[..|hs| - 1], o, k);
    } else {
      assert ([h] + hs)[..0] == [];
    }
  }

  /** `post_exec_all`: each helper's `post_exec`, head first, on the same
      observers and exit kind, which each helper may update for the next. */
  method PostExecAll<O, K>(c: Chain<O, K>, o: O, k: K, trace: Trace) returns (o': O, k': K)
    modifies trace
    ensures (o', k') == Compose(Members(c), o, k)
    ensures trace.events == old(trace.events) + Calls(PostExec, c)
    decreases c
  {
    match c {
      case Unit =>
        o', k' := o, k;
        assert Calls(PostExec, c) == [];
      case Pair(h, t) =>
        trace.Record(Event(PostExec, h.id));
        var (o1, k1) := h.postExec(o, k);
        o', k' := PostExecAll(t, o1, k1, trace);
        ComposeCons(h, Members(t), o, k);
        CallsOfPair(PostExec, h, t);
    }
  }

  /** Three helpers A, B, C run in declaration order. */
  lemma DeclarationOrderExample<O, K>(a: Helper<O, K>, b: Helper<O, K>, c: Helper<O, K>)
    ensures Calls(PreExec, Pair(a, Pair(b, Pair(c, Unit))))
         == [Event(PreExec, a.id), Event(PreExec, b.id), Event(PreExec, c.id)]
  {
    assert Members(Pair(c, Unit)) == [c];
    assert Members(Pair(b, Pair(c, Unit))) == [b, c];
    assert Members(Pair(a, Pair(b, Pair(c, Unit)))) == [a, b, c];
  }
}

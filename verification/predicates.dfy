/** Node predicates as an AST.

  The source composes `java.util.function.Predicate` objects obtained from an
  attribute-test provider.  Here a predicate is a term built from the two
  provider tests (exact attribute value, regex find in the attribute value)
  and constant, AND and OR; it is evaluated against a node through an
  `Attrs` record that stands for the provider.
 */
module Predicates {
  import opened Wrappers

  datatype Pred =
    | Const(b: bool)                              // e.g. the builder's default `(node) -> false`
    | AttrEq(name: string, value: string)         // getAttributeTest(name, value)
    | AttrFind(name: string, pattern: string)     // getAttributeRegexTest(name, pattern)
    | And(left: Pred, right: Pred)                // left.and(right)
    | Or(left: Pred, right: Pred)                 // left.or(right)

  /** The attribute-test provider: exact equality and regex find of an
      attribute's value, both left uninterpreted. */
  datatype Attrs<-N> = Attrs(eq: (string, string, N) -> bool, find: (string, string, N) -> bool)

  const Never: Pred := Const(false)

  function Eval<N>(env: Attrs<N>, p: Pred, node: N): bool {
    match p
    case Const(b) => b
    case AttrEq(a, v) => env.eq(a, v, node)
    case AttrFind(a, v) => env.find(a, v, node)
    case And(l, r) => Eval(env, l, node) && Eval(env, r, node)
    case Or(l, r) => Eval(env, l, node) || Eval(env, r, node)
  }

  /** `result.and(test)` or `result.or(test)`. */
  function Join(a: Pred, b: Pred, conj: bool): Pred {
    if conj then And(a, b) else Or(a, b)
  }

  /** One step of the source's folds `result = result == null ? test :
      result.and(test)`: `Predicate.and(null)` throws NullPointerException. */
  function Combine(acc: Option<Pred>, test: Option<Pred>, conj: bool): (r: Result<Option<Pred>>)
    ensures acc.None? ==> r == Success(test)
    ensures acc.Some? && test.None? ==> r.Failure?
    ensures acc.Some? && test.Some? ==> r == Success(Some(Join(acc.value, test.value, conj)))
  {
    match acc
    case None => Success(test)
    case Some(a) =>
      match test
      case None => Failure(NullPointer("Predicate.and/or(null)"))
      case Some(t) => Success(Some(Join(a, t, conj)))
  }

  /** Left fold of non-null predicates with AND or OR; None when empty. */
  function Fold(ps: seq<Pred>, conj: bool): Option<Pred>
  {
    if |ps| == 0 then None
    else if |ps| == 1 then Some(ps[0])
    else Some(Join(Fold(ps[..|ps| - 1], conj).value, ps[|ps| - 1], conj))
  }

  /** An AND fold holds iff every operand holds; an OR fold iff some does. */
  lemma {:induction false} FoldMeaning<N>(env: Attrs<N>, ps: seq<Pred>, conj: bool, node: N)
    requires |ps| > 0
    ensures Fold(ps, conj).Some?
    ensures conj ==> (Eval(env, Fold(ps, conj).value, node) <==> forall i :: 0 <= i < |ps| ==> Eval(env, ps[i], node))
    ensures !conj ==> (Eval(env, Fold(ps, conj).value, node) <==> exists i :: 0 <= i < |ps| && Eval(env, ps[i], node))
  {
    if |ps| > 1 {
      var init := ps[..|ps| - 1];
      FoldMeaning(env, init, conj, node);
      assert forall i :: 0 <= i < |init| ==> init[i] == ps[i];
      if !conj && Eval(env, Fold(ps, conj).value, node) {
        if !Eval(env, ps[|ps| - 1], node) {
          var i :| 0 <= i < |init| && Eval(env, init[i], node);
          assert Eval(env, ps[i], node);
        }
      }
    }
  }
}

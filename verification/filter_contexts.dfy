/** Filter contexts: per property name, an ordered list of predicates.

  The four implementations of the source are the four constructors of `Ctx`:
  the `EMPTY` context, a context over one parsed rule configuration
  (FilterContextImpl), the binary `and`/`or` of two contexts
  (AbstractFilterContext.FilterContextPair) and the n-ary composite
  (FilterContextComposite).  `Count` and `Get` are the two primitives every
  other operation is written in terms of.
 */
module FilterContexts {
  import opened Wrappers
  import OrderedMaps
  import opened Json
  import opened Predicates
  import opened RuleSets

  datatype Ctx =
    | Empty
    | Impl(config: OrderedMaps.OMap<Json>)
    | Pair(left: Ctx, right: Ctx, conj: bool)
    | Composite(conj: bool, delegates: seq<Ctx>)

  function Max(a: nat, b: nat): nat {
    if a < b then b else a
  }

  /** `getAttributeList`: the name's value cast to a list; a missing name or
      JSON null reads as null. */
  function RuleSetList(config: OrderedMaps.OMap<Json>, name: string): (r: Result<Option<seq<Json>>>)
    ensures r.Success? && r.value.None? <==> OrderedMaps.Get(config, name).None? || OrderedMaps.Get(config, name) == Some(JNull)
    ensures r.Success? && r.value.Some? ==> OrderedMaps.Get(config, name) == Some(JArray(r.value.value))
  {
    AsList(OrderedMaps.Get(config, name), name)
  }

  /** `getCount(name)`. */
  function Count(ctx: Ctx, name: string): (r: Result<nat>)
    ensures ctx.Empty? ==> r == Success(0)
    ensures ctx.Impl? ==> (r.Success? <==> RuleSetList(ctx.config, name).Success?)
    ensures ctx.Impl? && r.Success? ==>
      r.value == (if RuleSetList(ctx.config, name).value.None? then 0 else |RuleSetList(ctx.config, name).value.value|)
    decreases ctx, 1
  {
    match ctx
    case Empty => Success(0)
    case Impl(config) =>
      var xs :- RuleSetList(config, name);
      Success(if xs.None? then 0 else |xs.value|)
    case Pair(l, r, _) =>
      var a :- Count(l, name);
      var b :- Count(r, name);
      Success(Max(a, b))
    case Composite(_, ds) => CountFrom(ctx, name, 0, 0)
  }

  /** The composite's running maximum over delegates `j..`, starting from `acc`. */
  function CountFrom(ctx: Ctx, name: string, j: nat, acc: nat): (r: Result<nat>)
    requires ctx.Composite? && j <= |ctx.delegates|
    ensures r.Success? <==> forall k :: j <= k < |ctx.delegates| ==> Count(ctx.delegates[k], name).Success?
    ensures r.Success? ==> acc <= r.value
    ensures r.Success? ==> forall k :: j <= k < |ctx.delegates| ==> Count(ctx.delegates[k], name).value <= r.value
    ensures r.Success? ==> r.value == acc || exists k :: j <= k < |ctx.delegates| && Count(ctx.delegates[k], name).value == r.value
    decreases ctx, 0, |ctx.delegates| - j
  {
    if j == |ctx.delegates| then Success(acc)
    else
      var h := Count(ctx.delegates[j], name);
      if h.Failure? then Failure(h.error)
      else
        var r := CountFrom(ctx, name, j + 1, Max(acc, h.value));
        assert r.Success? ==> h.value <= r.value;
        r
  }

  /** FilterContextImpl's `attrCfgs.get(i)` followed by the rule-set fold. */
  function RuleSetAt(xs: seq<Json>, i: int, dflt: Option<Pred>): (r: Result<Option<Pred>>)
    ensures (i < 0 || i >= |xs|) ==> r.Failure? && r.error == IndexOutOfBounds
    ensures 0 <= i < |xs| ==> r == RuleSetPred(xs[i], dflt)
  {
    if i < 0 || i >= |xs| then Failure(IndexOutOfBounds) else RuleSetPred(xs[i], dflt)
  }

  /** `get(name, i, outputIfNone)`; `dflt` None stands for a null default.
      The result is null only when the default is. */
  function Get(ctx: Ctx, name: string, i: int, dflt: Option<Pred>): (r: Result<Option<Pred>>)
    ensures r.Success? && r.value.None? ==> dflt.None?
    ensures ctx.Empty? ==> r == Success(dflt)
    ensures ctx.Impl? && RuleSetList(ctx.config, name) == Success(None) ==> r.Failure? && r.error.NullPointer?
    ensures ctx.Impl? && Count(ctx, name).Success? && !(0 <= i < Count(ctx, name).value) ==> r.Failure?
    ensures ctx.Impl? && RuleSetList(ctx.config, name).Success? && RuleSetList(ctx.config, name).value.Some? ==>
      r == RuleSetAt(RuleSetList(ctx.config, name).value.value, i, dflt)
    decreases ctx, 1
  {
    match ctx
    case Empty => Success(dflt)
    case Impl(config) =>
      var xs :- RuleSetList(config, name);
      if xs.None? then Failure(NullPointer("no rule sets for " + name))
      else RuleSetAt(xs.value, i, dflt)
    case Pair(l, r, conj) =>
      var lc :- Count(l, name);
      var lhs :- if i >= lc then Success(None) else Get(l, name, i, None);
      var rc :- Count(r, name);
      var rhs :- if i >= rc then Success(None) else Get(r, name, i, None);
      var both := if lhs.None? then rhs else if rhs.None? then lhs else Some(Join(lhs.value, rhs.value, conj));
      Success(if both.None? then dflt else both)
    case Composite(_, _) => GetFrom(ctx, name, i, dflt, 0, None)
  }

  /** The composite's fold over delegates `j..`, `acc` holding the fold so far. */
  function GetFrom(ctx: Ctx, name: string, i: int, dflt: Option<Pred>, j: nat, acc: Option<Pred>): (r: Result<Option<Pred>>)
    requires ctx.Composite? && j <= |ctx.delegates|
    ensures r.Success? && r.value.None? ==> dflt.None? && acc.None?
    decreases ctx, 0, |ctx.delegates| - j
  {
    if j == |ctx.delegates| then Success(if acc.None? then dflt else acc)
    else
      var d := ctx.delegates[j];
      var c :- Count(d, name);
      if i >= c then GetFrom(ctx, name, i, dflt, j + 1, acc)
      else
        var t :- Get(d, name, i, dflt);
        var acc' :- Combine(acc, t, ctx.conj);
        GetFrom(ctx, name, i, dflt, j + 1, acc')
  }

  /** Delegate `d` takes part in `get(name, i, ...)` of a composite or a pair. */
  predicate Active(d: Ctx, name: string, i: int) {
    Count(d, name).Success? && i < Count(d, name).value
  }

  /** A pair's count is the larger of its operands' counts. */
  lemma PairCountIsMax(l: Ctx, r: Ctx, conj: bool, name: string)
    ensures Count(Pair(l, r, conj), name).Success? <==> Count(l, name).Success? && Count(r, name).Success?
    ensures Count(Pair(l, r, conj), name).Success? ==>
      var n := Count(Pair(l, r, conj), name).value;
      n >= Count(l, name).value && n >= Count(r, name).value
      && (n == Count(l, name).value || n == Count(r, name).value)
  {
  }

  /** The composite's count is the maximum of its delegates' counts, and 0
      when it has none. */
  lemma CompositeCountIsMax(conj: bool, ds: seq<Ctx>, name: string)
    requires Count(Composite(conj, ds), name).Success?
    ensures var n := Count(Composite(conj, ds), name).value;
            && (forall k :: 0 <= k < |ds| ==> Count(ds[k], name).Success? && Count(ds[k], name).value <= n)
            && (|ds| == 0 ==> n == 0)
            && (|ds| > 0 ==> exists k :: 0 <= k < |ds| && Count(ds[k], name).value == n)
  {
    var n := Count(Composite(conj, ds), name).value;
    if |ds| > 0 && n == 0 {
      assert Count(ds[0], name).value == 0;
    }
  }

  /** Delegate `d` answers `get(name, i, dflt)` with a predicate that holds of `node`. */
  predicate Holds<N>(env: Attrs<N>, d: Ctx, name: string, i: int, dflt: Option<Pred>, node: N) {
    var t := Get(d, name, i, dflt);
    t.Success? && t.value.Some? && Eval(env, t.value.value, node)
  }

  /** Some delegate from `j` on is active. */
  predicate AnyActive(ctx: Ctx, name: string, i: int, j: nat)
    requires ctx.Composite?
  {
    exists k :: j <= k < |ctx.delegates| && Active(ctx.delegates[k], name, i)
  }

  /** The composite fold from delegate `j` on, with a non-null default,
      yields a predicate, and every active delegate from `j` on answers with
      one. */
  lemma GetFromAnswers(ctx: Ctx, name: string, i: int, dflt: Option<Pred>, j: nat, acc: Option<Pred>)
    requires ctx.Composite? && j <= |ctx.delegates| && dflt.Some?
    requires GetFrom(ctx, name, i, dflt, j, acc).Success?
    ensures GetFrom(ctx, name, i, dflt, j, acc).value.Some?
    ensures acc.None? && !AnyActive(ctx, name, i, j) ==> GetFrom(ctx, name, i, dflt, j, acc).value == dflt
    ensures forall k :: j <= k < |ctx.delegates| && Active(ctx.delegates[k], name, i) ==>
      Get(ctx.delegates[k], name, i, dflt).Success? && Get(ctx.delegates[k], name, i, dflt).value.Some?
  {
    if acc.None? && !AnyActive(ctx, name, i, j) {
      GetFromInactive(ctx, name, i, dflt, j);
    }
    forall k | j <= k < |ctx.delegates| && Active(ctx.delegates[k], name, i)
      ensures Get(ctx.delegates[k], name, i, dflt).Success? && Get(ctx.delegates[k], name, i, dflt).value.Some?
    {
      GetFromActive(ctx, name, i, dflt, j, acc, k);
    }
  }

  /** With no active delegate from `j` on and nothing folded yet, the
      default comes back. */
  lemma {:induction false} GetFromInactive(ctx: Ctx, name: string, i: int, dflt: Option<Pred>, j: nat)
    requires ctx.Composite? && j <= |ctx.delegates|
    requires GetFrom(ctx, name, i, dflt, j, None).Success?
    requires !AnyActive(ctx, name, i, j)
    ensures GetFrom(ctx, name, i, dflt, j, None) == Success(dflt)
    decreases |ctx.delegates| - j
  {
    if j < |ctx.delegates| {
      assert !Active(ctx.delegates[j], name, i);
      assert GetFrom(ctx, name, i, dflt, j, None) == GetFrom(ctx, name, i, dflt, j + 1, None);
      GetFromInactive(ctx, name, i, dflt, j + 1);
    }
  }

  /** A successful fold asked every active delegate from `j` on, and each
      answered; with a non-null default each answer is a predicate. */
  lemma {:induction false} GetFromActive(ctx: Ctx, name: string, i: int, dflt: Option<Pred>, j: nat, acc: Option<Pred>, k: nat)
    requires ctx.Composite? && j <= k < |ctx.delegates| && dflt.Some?
    requires GetFrom(ctx, name, i, dflt, j, acc).Success?
    requires Active(ctx.delegates[k], name, i)
    ensures Get(ctx.delegates[k], name, i, dflt).Success? && Get(ctx.delegates[k], name, i, dflt).value.Some?
    decreases |ctx.delegates| - j
  {
    var d := ctx.delegates[j];
    if j < k {
      var c := Count(d, name).value;
      if i >= c {
        GetFromActive(ctx, name, i, dflt, j + 1, acc, k);
      } else {
        var acc' := Combine(acc, Get(d, name, i, dflt).value, ctx.conj).value;
        assert GetFrom(ctx, name, i, dflt, j, acc) == GetFrom(ctx, name, i, dflt, j + 1, acc');
        GetFromActive(ctx, name, i, dflt, j + 1, acc', k);
      }
    }
  }

  /** AND composite: the fold from `j` on holds iff the fold so far and every
      remaining active delegate's predicate hold. */
  lemma {:induction false} GetFromConj<N>(env: Attrs<N>, ctx: Ctx, name: string, i: int, dflt: Option<Pred>,
                                          j: nat, acc: Option<Pred>, node: N)
    requires ctx.Composite? && ctx.conj && j <= |ctx.delegates| && dflt.Some?
    requires GetFrom(ctx, name, i, dflt, j, acc).Success?
    requires acc.Some? || AnyActive(ctx, name, i, j)
    ensures GetFrom(ctx, name, i, dflt, j, acc).value.Some?
    ensures Eval(env, GetFrom(ctx, name, i, dflt, j, acc).value.value, node) <==>
      (acc.None? || Eval(env, acc.value, node))
      && forall k :: j <= k < |ctx.delegates| && Active(ctx.delegates[k], name, i) ==>
           Holds(env, ctx.delegates[k], name, i, dflt, node)
    decreases |ctx.delegates| - j
  {
    GetFromAnswers(ctx, name, i, dflt, j, acc);
    var ds := ctx.delegates;
    if j < |ds| {
      var c := Count(ds[j], name).value;
      if i >= c {
        assert !Active(ds[j], name, i);
        GetFromConj(env, ctx, name, i, dflt, j + 1, acc, node);
      } else {
        var acc' := Combine(acc, Get(ds[j], name, i, dflt).value, ctx.conj).value;
        assert GetFrom(ctx, name, i, dflt, j, acc) == GetFrom(ctx, name, i, dflt, j + 1, acc');
        GetFromConj(env, ctx, name, i, dflt, j + 1, acc', node);
      }
    }
  }

  /** OR composite: the fold from `j` on holds iff the fold so far or some
      remaining active delegate's predicate holds. */
  lemma {:induction false} GetFromDisj<N>(env: Attrs<N>, ctx: Ctx, name: string, i: int, dflt: Option<Pred>,
                                          j: nat, acc: Option<Pred>, node: N)
    requires ctx.Composite? && !ctx.conj && j <= |ctx.delegates| && dflt.Some?
    requires GetFrom(ctx, name, i, dflt, j, acc).Success?
    requires acc.Some? || AnyActive(ctx, name, i, j)
    ensures GetFrom(ctx, name, i, dflt, j, acc).value.Some?
    ensures Eval(env, GetFrom(ctx, name, i, dflt, j, acc).value.value, node) <==>
      (acc.Some? && Eval(env, acc.value, node))
      || exists k :: j <= k < |ctx.delegates| && Active(ctx.delegates[k], name, i) &&
                     Holds(env, ctx.delegates[k], name, i, dflt, node)
    decreases |ctx.delegates| - j
  {
    GetFromAnswers(ctx, name, i, dflt, j, acc);
    var ds := ctx.delegates;
    if j < |ds| {
      var c := Count(ds[j], name).value;
      if i >= c {
        assert !Active(ds[j], name, i);
        GetFromDisj(env, ctx, name, i, dflt, j + 1, acc, node);
      } else {
        var acc' := Combine(acc, Get(ds[j], name, i, dflt).value, ctx.conj).value;
        assert GetFrom(ctx, name, i, dflt, j, acc) == GetFrom(ctx, name, i, dflt, j + 1, acc');
        GetFromDisj(env, ctx, name, i, dflt, j + 1, acc', node);
      }
    }
  }

  /** A composite's `get(name, i, d)` with a non-null `d`: the AND (or the
      OR) of the predicates of exactly those delegates whose count exceeds
      `i`, each asked with `d`; the default when there are none. */
  lemma CompositeGetMeaning<N>(env: Attrs<N>, conj: bool, ds: seq<Ctx>, name: string, i: int, d: Pred, node: N)
    requires Get(Composite(conj, ds), name, i, Some(d)).Success?
    ensures forall k :: 0 <= k < |ds| && Active(ds[k], name, i) ==>
      Get(ds[k], name, i, Some(d)).Success? && Get(ds[k], name, i, Some(d)).value.Some?
    ensures !AnyActive(Composite(conj, ds), name, i, 0) ==> Get(Composite(conj, ds), name, i, Some(d)) == Success(Some(d))
    ensures AnyActive(Composite(conj, ds), name, i, 0) && conj ==>
      (Holds(env, Composite(conj, ds), name, i, Some(d), node) <==>
         forall k :: 0 <= k < |ds| && Active(ds[k], name, i) ==> Holds(env, ds[k], name, i, Some(d), node))
    ensures AnyActive(Composite(conj, ds), name, i, 0) && !conj ==>
      (Holds(env, Composite(conj, ds), name, i, Some(d), node) <==>
         exists k :: 0 <= k < |ds| && Active(ds[k], name, i) && Holds(env, ds[k], name, i, Some(d), node))
  {
    var ctx := Composite(conj, ds);
    GetFromAnswers(ctx, name, i, Some(d), 0, None);
    if AnyActive(ctx, name, i, 0) {
      if conj {
        GetFromConj(env, ctx, name, i, Some(d), 0, None, node);
      } else {
        GetFromDisj(env, ctx, name, i, Some(d), 0, None, node);
      }
    }
  }

  /** A pair's `get(name, i, d)`: each side that has index `i` is asked with a
      null default; the non-null answers are AND-ed (or OR-ed), a lone
      answer is returned as is, and with none the default is. */
  lemma PairGetMeaning<N>(env: Attrs<N>, l: Ctx, r: Ctx, conj: bool, name: string, i: int, d: Pred, node: N)
    requires Get(Pair(l, r, conj), name, i, Some(d)).Success?
    ensures Active(l, name, i) ==> Get(l, name, i, None).Success?
    ensures Active(r, name, i) ==> Get(r, name, i, None).Success?
    ensures var lp := if Active(l, name, i) then Get(l, name, i, None).value else None;
            var rp := if Active(r, name, i) then Get(r, name, i, None).value else None;
            var p := Get(Pair(l, r, conj), name, i, Some(d)).value.value;
            && (lp.None? && rp.None? ==> p == d)
            && (lp.Some? || rp.Some? ==> (Eval(env, p, node) <==>
                  if conj then (lp.None? || Eval(env, lp.value, node)) && (rp.None? || Eval(env, rp.value, node))
                  else (lp.Some? && Eval(env, lp.value, node)) || (rp.Some? && Eval(env, rp.value, node))))
  {
  }
}

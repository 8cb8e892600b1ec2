/** The operations every filter context offers on top of `Count` and `Get`
  (AbstractFilterContext and the `EMPTY` context of FilterContext):
  folding a name's predicates, listing and iterating them, matching one
  node, and selecting and finding matching nodes in a node sequence.
 */
module FilterAlgebra {
  import opened Wrappers
  import opened Predicates
  import opened FilterContexts

  /** The answers of `get(name, k, dflt)` for k = 0, 1, ..., in index order. */
  type Answers = seq<Result<Option<Pred>>>

  /** The answers for the indices below `c`.  Every operation below inspects
      them in index order and stops exactly where the source's loop stops, so
      in this pure model it is immaterial that they are all computed. */
  function AnswersOf(ctx: Ctx, name: string, c: nat, dflt: Option<Pred>): (ts: Answers)
    ensures |ts| == c
    ensures forall k :: 0 <= k < c ==> ts[k] == Get(ctx, name, k, dflt)
  {
    seq(c, k => Get(ctx, name, k, dflt))
  }

  /** Answer `m` is a predicate. */
  predicate PresentIn(ts: Answers, m: int) {
    0 <= m < |ts| && ts[m].Success? && ts[m].value.Some?
  }

  /** Answer `m` is a predicate that holds of `node`. */
  predicate HoldsIn<N>(env: Attrs<N>, ts: Answers, m: int, node: N) {
    PresentIn(ts, m) && Eval(env, ts[m].value.value, node)
  }

  /** Some answer from `k` on is a predicate. */
  predicate AnyPresentIn(ts: Answers, k: nat) {
    exists m :: k <= m < |ts| && PresentIn(ts, m)
  }

  /** The source's fold `result = result == null ? test : result.and(test)`
      (or `.or`) over the answers from `k` on, `acc` being the fold so far;
      a null fold gives the default. */
  function FoldFrom(ts: Answers, conj: bool, dflt: Option<Pred>, k: nat, acc: Option<Pred>): (r: Result<Option<Pred>>)
    requires k <= |ts|
    ensures r.Success? && r.value.None? ==> dflt.None?
    decreases |ts| - k
  {
    if k == |ts| then Success(if acc.None? then dflt else acc)
    else
      var t :- ts[k];
      var acc' :- Combine(acc, t, conj);
      FoldFrom(ts, conj, dflt, k + 1, acc')
  }

  /** The fold from `k` on inspects every answer, and with a non-null default
      yields a predicate: the default when nothing was folded. */
  lemma {:induction false} FoldFromAnswers(ts: Answers, conj: bool, d: Pred, k: nat, acc: Option<Pred>)
    requires k <= |ts|
    requires FoldFrom(ts, conj, Some(d), k, acc).Success?
    ensures forall m :: k <= m < |ts| ==> ts[m].Success?
    ensures FoldFrom(ts, conj, Some(d), k, acc).value.Some?
    ensures acc.None? && !AnyPresentIn(ts, k) ==> FoldFrom(ts, conj, Some(d), k, acc) == Success(Some(d))
    decreases |ts| - k
  {
    if k < |ts| {
      var acc' := Combine(acc, ts[k].value, conj).value;
      FoldFromAnswers(ts, conj, d, k + 1, acc');
      if acc.None? && !AnyPresentIn(ts, k) {
        assert !PresentIn(ts, k);
        assert !AnyPresentIn(ts, k + 1);
      }
    }
  }

  /** AND fold from `k` on: holds iff the fold so far and every remaining
      predicate hold. */
  lemma {:induction false} FoldFromConj<N>(env: Attrs<N>, ts: Answers, d: Pred, k: nat, acc: Option<Pred>, node: N)
    requires k <= |ts|
    requires FoldFrom(ts, true, Some(d), k, acc).Success?
    requires acc.Some? || AnyPresentIn(ts, k)
    ensures FoldFrom(ts, true, Some(d), k, acc).value.Some?
    ensures Eval(env, FoldFrom(ts, true, Some(d), k, acc).value.value, node) <==>
      ((acc.None? || Eval(env, acc.value, node))
       && forall m :: k <= m < |ts| && PresentIn(ts, m) ==> HoldsIn(env, ts, m, node))
    decreases |ts| - k
  {
    FoldFromAnswers(ts, true, d, k, acc);
    if k == |ts| {
      assert !AnyPresentIn(ts, k);
    } else {
      var acc' := Combine(acc, ts[k].value, true).value;
      if acc'.None? {
        assert !PresentIn(ts, k);
        assert AnyPresentIn(ts, k + 1);
      }
      FoldFromConj(env, ts, d, k + 1, acc', node);
      assert acc'.Some? ==> (Eval(env, acc'.value, node) <==>
        (acc.None? || Eval(env, acc.value, node)) && (PresentIn(ts, k) ==> HoldsIn(env, ts, k, node)));
      assert (forall m :: k <= m < |ts| && PresentIn(ts, m) ==> HoldsIn(env, ts, m, node)) <==>
        (PresentIn(ts, k) ==> HoldsIn(env, ts, k, node))
        && (forall m :: k + 1 <= m < |ts| && PresentIn(ts, m) ==> HoldsIn(env, ts, m, node));
    }
  }

  /** OR fold from `k` on: holds iff the fold so far or some remaining
      predicate holds. */
  lemma {:induction false} FoldFromDisj<N>(env: Attrs<N>, ts: Answers, d: Pred, k: nat, acc: Option<Pred>, node: N)
    requires k <= |ts|
    requires FoldFrom(ts, false, Some(d), k, acc).Success?
    requires acc.Some? || AnyPresentIn(ts, k)
    ensures FoldFrom(ts, false, Some(d), k, acc).value.Some?
    ensures Eval(env, FoldFrom(ts, false, Some(d), k, acc).value.value, node) <==>
      ((acc.Some? && Eval(env, acc.value, node))
       || exists m :: k <= m < |ts| && HoldsIn(env, ts, m, node))
    decreases |ts| - k
  {
    FoldFromAnswers(ts, false, d, k, acc);
    if k == |ts| {
      assert !AnyPresentIn(ts, k);
    } else {
      var acc' := Combine(acc, ts[k].value, false).value;
      if acc'.None? {
        assert !PresentIn(ts, k);
        assert AnyPresentIn(ts, k + 1);
      }
      FoldFromDisj(env, ts, d, k + 1, acc', node);
      assert acc'.Some? ==> (Eval(env, acc'.value, node) <==>
        (acc.Some? && Eval(env, acc.value, node)) || HoldsIn(env, ts, k, node));
      assert (exists m :: k <= m < |ts| && HoldsIn(env, ts, m, node)) <==>
        HoldsIn(env, ts, k, node) || (exists m :: k + 1 <= m < |ts| && HoldsIn(env, ts, m, node));
    }
  }

  /** `compose(name, and, outputIfNone)`: the left fold of `get(name, k, null)`
      for k below the count; `EMPTY.and`/`EMPTY.or` return the default. */
  function Compose(ctx: Ctx, name: string, conj: bool, dflt: Option<Pred>): (r: Result<Option<Pred>>)
    ensures ctx.Empty? ==> r == Success(dflt)
    ensures !ctx.Empty? && Count(ctx, name) == Success(0) ==> r == Success(dflt)
    ensures r.Success? && r.value.None? ==> dflt.None?
  {
    if ctx.Empty? then Success(dflt)
    else
      var c :- Count(ctx, name);
      FoldFrom(AnswersOf(ctx, name, c, None), conj, dflt, 0, None)
  }

  /** Index `k` of `name` answers `get(name, k, null)` with a predicate. */
  predicate Present(ctx: Ctx, name: string, k: int) {
    Get(ctx, name, k, None).Success? && Get(ctx, name, k, None).value.Some?
  }

  /** `and(name, d)` holds iff every predicate `get(name, k, null)` holds,
      `or(name, d)` iff one does; with no predicate at all the default is
      returned. */
  lemma ComposeMeaning<N>(env: Attrs<N>, ctx: Ctx, name: string, conj: bool, d: Pred, node: N)
    requires !ctx.Empty? && Count(ctx, name).Success?
    requires Compose(ctx, name, conj, Some(d)).Success?
    ensures Compose(ctx, name, conj, Some(d)).value.Some?
    ensures forall m :: 0 <= m < Count(ctx, name).value ==> Get(ctx, name, m, None).Success?
    ensures (forall m :: 0 <= m < Count(ctx, name).value ==> !Present(ctx, name, m)) ==>
      Compose(ctx, name, conj, Some(d)) == Success(Some(d))
    ensures (exists m :: 0 <= m < Count(ctx, name).value && Present(ctx, name, m)) && conj ==>
      (Eval(env, Compose(ctx, name, conj, Some(d)).value.value, node) <==>
         forall m :: 0 <= m < Count(ctx, name).value && Present(ctx, name, m) ==> Holds(env, ctx, name, m, None, node))
    ensures (exists m :: 0 <= m < Count(ctx, name).value && Present(ctx, name, m)) && !conj ==>
      (Eval(env, Compose(ctx, name, conj, Some(d)).value.value, node) <==>
         exists m :: 0 <= m < Count(ctx, name).value && Holds(env, ctx, name, m, None, node))
  {
    var c := Count(ctx, name).value;
    ComposeAnswers(ctx, name, conj, d);
    if exists m :: 0 <= m < c && Present(ctx, name, m) {
      if conj {
        ComposeConj(env, ctx, name, d, node);
      } else {
        ComposeDisj(env, ctx, name, d, node);
      }
    }
  }

  /** With a default, compose yields a predicate, every index was asked, and
      with no predicate present the default comes back. */
  lemma ComposeAnswers(ctx: Ctx, name: string, conj: bool, d: Pred)
    requires !ctx.Empty? && Count(ctx, name).Success?
    requires Compose(ctx, name, conj, Some(d)).Success?
    ensures forall m :: 0 <= m < Count(ctx, name).value ==> Get(ctx, name, m, None).Success?
    ensures (forall m :: 0 <= m < Count(ctx, name).value ==> !Present(ctx, name, m)) ==>
      Compose(ctx, name, conj, Some(d)) == Success(Some(d))
  {
    var c := Count(ctx, name).value;
    var ts := AnswersOf(ctx, name, c, None);
    assert Compose(ctx, name, conj, Some(d)) == FoldFrom(ts, conj, Some(d), 0, None);
    FoldFromAnswers(ts, conj, d, 0, None);
    if forall m :: 0 <= m < c ==> !Present(ctx, name, m) {
      forall m | 0 <= m < c ensures !PresentIn(ts, m) {
        assert !Present(ctx, name, m);
        assert ts[m] == Get(ctx, name, m, None);
      }
      assert !AnyPresentIn(ts, 0);
    }
  }

  lemma ComposeConj<N>(env: Attrs<N>, ctx: Ctx, name: string, d: Pred, node: N)
    requires !ctx.Empty? && Count(ctx, name).Success?
    requires Compose(ctx, name, true, Some(d)).Success?
    requires exists m :: 0 <= m < Count(ctx, name).value && Present(ctx, name, m)
    ensures Compose(ctx, name, true, Some(d)).value.Some?
    ensures Eval(env, Compose(ctx, name, true, Some(d)).value.value, node) <==>
      forall m :: 0 <= m < Count(ctx, name).value && Present(ctx, name, m) ==> Holds(env, ctx, name, m, None, node)
  {
    var c := Count(ctx, name).value;
    var ts := AnswersOf(ctx, name, c, None);
    assert Compose(ctx, name, true, Some(d)) == FoldFrom(ts, true, Some(d), 0, None);
    AnswersAgree(env, ctx, name, c, node);
    var m :| 0 <= m < c && Present(ctx, name, m);
    assert PresentIn(ts, m);
    FoldFromConj(env, ts, d, 0, None, node);
  }

  lemma ComposeDisj<N>(env: Attrs<N>, ctx: Ctx, name: string, d: Pred, node: N)
    requires !ctx.Empty? && Count(ctx, name).Success?
    requires Compose(ctx, name, false, Some(d)).Success?
    requires exists m :: 0 <= m < Count(ctx, name).value && Present(ctx, name, m)
    ensures Compose(ctx, name, false, Some(d)).value.Some?
    ensures Eval(env, Compose(ctx, name, false, Some(d)).value.value, node) <==>
      exists m :: 0 <= m < Count(ctx, name).value && Holds(env, ctx, name, m, None, node)
  {
    var c := Count(ctx, name).value;
    var ts := AnswersOf(ctx, name, c, None);
    assert Compose(ctx, name, false, Some(d)) == FoldFrom(ts, false, Some(d), 0, None);
    AnswersAgree(env, ctx, name, c, node);
    var m :| 0 <= m < c && Present(ctx, name, m);
    assert PresentIn(ts, m);
    FoldFromDisj(env, ts, d, 0, None, node);
  }

  /** Reading the answers is reading the context. */
  lemma AnswersAgree<N>(env: Attrs<N>, ctx: Ctx, name: string, c: nat, node: N)
    ensures forall m :: 0 <= m < c ==> (PresentIn(AnswersOf(ctx, name, c, None), m) <==> Present(ctx, name, m))
    ensures forall m :: 0 <= m < c ==>
      (HoldsIn(env, AnswersOf(ctx, name, c, None), m, node) <==> Holds(env, ctx, name, m, None, node))
  {
  }

  /** `and(other)` / `or(other)` of two contexts; `EMPTY.and(other)` is
      `EMPTY` and `EMPTY.or(other)` is `other`. */
  function CtxAnd(a: Ctx, b: Ctx): (r: Ctx)
    ensures a.Empty? ==> r == Empty
    ensures !a.Empty? ==> r == Pair(a, b, true)
  {
    if a.Empty? then Empty else Pair(a, b, true)
  }

  function CtxOr(a: Ctx, b: Ctx): (r: Ctx)
    ensures a.Empty? ==> r == b
    ensures !a.Empty? ==> r == Pair(a, b, false)
  {
    if a.Empty? then b else Pair(a, b, false)
  }

  /** `EMPTY.or(other)` is observably `other` for every name and index,
      while `EMPTY.and(other)` answers like `EMPTY`. */
  lemma EmptyIsUnitOfOr(b: Ctx, name: string, i: int, d: Option<Pred>)
    ensures Count(CtxOr(Empty, b), name) == Count(b, name)
    ensures Get(CtxOr(Empty, b), name, i, d) == Get(b, name, i, d)
    ensures Count(CtxAnd(Empty, b), name) == Success(0)
    ensures Get(CtxAnd(Empty, b), name, i, d) == Success(d)
  {
  }

  /** The answers from `k` on, all predicates when the default is non-null. */
  function IterFrom(ts: Answers, k: nat): (r: Result<seq<Pred>>)
    requires k <= |ts|
    requires forall m :: 0 <= m < |ts| && ts[m].Success? ==> ts[m].value.Some?
    ensures r.Success? ==> |r.value| == |ts| - k
    ensures r.Success? ==> forall m :: k <= m < |ts| ==> ts[m] == Success(Some(r.value[m - k]))
    ensures r.Failure? ==> exists m :: k <= m < |ts| && ts[m].Failure?
    decreases |ts| - k
  {
    if k == |ts| then Success([])
    else
      var t :- ts[k];
      var rest :- IterFrom(ts, k + 1);
      Success([t.value] + rest)
  }

  /** `iterator(name, resultIfNone)`, drained: exactly `getCount(name)`
      predicates, the k-th being `get(name, k, resultIfNone)`.  `EMPTY`
      yields nothing whatever the default; every other context refuses a
      null default when the iterator is made. */
  function Iterate(ctx: Ctx, name: string, d: Option<Pred>): (r: Result<seq<Pred>>)
    ensures ctx.Empty? ==> r == Success([])
    ensures !ctx.Empty? && d.None? ==> r.Failure? && r.error.NullPointer?
    ensures r.Success? ==> Count(ctx, name).Success? && |r.value| == Count(ctx, name).value
    ensures r.Success? ==> forall m :: 0 <= m < |r.value| ==> Get(ctx, name, m, d) == Success(Some(r.value[m]))
  {
    if ctx.Empty? then Success([])
    else if d.None? then Failure(NullPointer("defaultResult"))
    else
      var c :- Count(ctx, name);
      IterFrom(AnswersOf(ctx, name, c, d), 0)
  }

  /** The non-null answers from `k` on, in index order. */
  function NonNullFrom(ts: Answers, k: nat): (r: Result<seq<Pred>>)
    requires k <= |ts|
    ensures r.Success? ==> |r.value| <= |ts| - k
    ensures r.Success? ==> forall m :: k <= m < |ts| ==> ts[m].Success?
    ensures r.Success? && (forall m :: k <= m < |ts| ==> PresentIn(ts, m)) ==> |r.value| == |ts| - k
    decreases |ts| - k
  {
    if k == |ts| then Success([])
    else
      var t :- ts[k];
      var rest :- NonNullFrom(ts, k + 1);
      assert (forall m :: k <= m < |ts| ==> PresentIn(ts, m)) ==> PresentIn(ts, k);
      Success(if t.Some? then [t.value] + rest else rest)
  }

  /** The predicates kept from `k` on are exactly the non-null answers. */
  lemma {:induction false} NonNullFromContents(ts: Answers, k: nat)
    requires k <= |ts|
    requires NonNullFrom(ts, k).Success?
    ensures forall m :: k <= m < |ts| && PresentIn(ts, m) ==> ts[m].value.value in NonNullFrom(ts, k).value
    ensures forall p :: p in NonNullFrom(ts, k).value ==> exists m :: k <= m < |ts| && ts[m] == Success(Some(p))
    decreases |ts| - k
  {
    if k < |ts| {
      NonNullFromContents(ts, k + 1);
      var rest := NonNullFrom(ts, k + 1).value;
      var r := NonNullFrom(ts, k).value;
      forall p | p in r
        ensures exists m :: k <= m < |ts| && ts[m] == Success(Some(p))
      {
        if ts[k].value.Some? && p == ts[k].value.value {
          assert ts[k] == Success(Some(p));
        } else {
          assert p in rest;
        }
      }
    }
  }

  /** `getAll(name)`: the non-null predicates `get(name, k, null)`, in index
      order; `EMPTY.getAll` is the empty list. */
  function GetAll(ctx: Ctx, name: string): (r: Result<seq<Pred>>)
    ensures ctx.Empty? ==> r == Success([])
    ensures r.Success? && !ctx.Empty? ==> Count(ctx, name).Success? && |r.value| <= Count(ctx, name).value
  {
    if ctx.Empty? then Success([])
    else
      var c :- Count(ctx, name);
      NonNullFrom(AnswersOf(ctx, name, c, None), 0)
  }

  /** Every predicate `getAll` lists is the answer of some index below the count. */
  lemma GetAllSound(ctx: Ctx, name: string, c: nat, r: seq<Pred>, p: Pred)
    requires !ctx.Empty? && Count(ctx, name) == Success(c) && GetAll(ctx, name) == Success(r)
    requires p in r
    ensures exists m :: 0 <= m < c && Get(ctx, name, m, None) == Success(Some(p))
  {
    var ts := AnswersOf(ctx, name, c, None);
    assert NonNullFrom(ts, 0) == Success(r);
    NonNullFromContents(ts, 0);
    var m :| 0 <= m < c && ts[m] == Success(Some(p));
    assert Get(ctx, name, m, None) == Success(Some(p));
  }

  /** Every non-null answer below the count is listed by `getAll`. */
  lemma GetAllComplete(ctx: Ctx, name: string, c: nat, r: seq<Pred>, m: nat)
    requires !ctx.Empty? && Count(ctx, name) == Success(c) && GetAll(ctx, name) == Success(r)
    requires m < c && Present(ctx, name, m)
    ensures Get(ctx, name, m, None).value.value in r
  {
    var ts := AnswersOf(ctx, name, c, None);
    assert NonNullFrom(ts, 0) == Success(r);
    NonNullFromContents(ts, 0);
    assert ts[m] == Get(ctx, name, m, None);
    assert PresentIn(ts, m);
  }

  /** `anyMatch`'s loop from index `k` on: it stops at the first predicate
      that holds, so later answers are never inspected. */
  function AnyFrom<N>(env: Attrs<N>, ts: Answers, node: N, k: nat): (r: Result<bool>)
    requires k <= |ts|
    ensures r == Success(true) ==> exists m :: k <= m < |ts| && HoldsIn(env, ts, m, node)
    ensures r == Success(false) ==> forall m :: k <= m < |ts| ==> ts[m].Success? && !HoldsIn(env, ts, m, node)
    ensures r.Failure? ==> exists m :: k <= m < |ts| && ts[m].Failure?
    decreases |ts| - k
  {
    if k == |ts| then Success(false)
    else
      var t :- ts[k];
      if t.Some? && Eval(env, t.value, node) then
        assert HoldsIn(env, ts, k, node);
        Success(true)
      else AnyFrom(env, ts, node, k + 1)
  }

  /** `anyMatch(name, predicateIfNone, node)`: true iff some index below the
      count answers with a predicate that holds; false on `EMPTY` and when
      the name has no predicates. */
  function AnyMatch<N>(env: Attrs<N>, ctx: Ctx, name: string, dflt: Option<Pred>, node: N): (r: Result<bool>)
    ensures ctx.Empty? ==> r == Success(false)
    ensures !ctx.Empty? && Count(ctx, name) == Success(0) ==> r == Success(false)
    ensures r == Success(true) ==> (Count(ctx, name).Success? &&
      exists m :: 0 <= m < Count(ctx, name).value && Holds(env, ctx, name, m, dflt, node))
    ensures r == Success(false) && !ctx.Empty? ==> (Count(ctx, name).Success? &&
      forall m :: 0 <= m < Count(ctx, name).value ==> Get(ctx, name, m, dflt).Success? && !Holds(env, ctx, name, m, dflt, node))
  {
    if ctx.Empty? then Success(false)
    else
      var c :- Count(ctx, name);
      var ts := AnswersOf(ctx, name, c, dflt);
      assert forall m :: 0 <= m < c ==> (HoldsIn(env, ts, m, node) <==> Holds(env, ctx, name, m, dflt, node));
      AnyFrom(env, ts, node, 0)
  }

  /** `allMatch`'s loop from index `k` on: it stops at the first index whose
      predicate is null or fails. */
  function AllFrom<N>(env: Attrs<N>, ts: Answers, node: N, k: nat): (r: Result<bool>)
    requires k <= |ts|
    ensures r == Success(true) ==> forall m :: k <= m < |ts| ==> HoldsIn(env, ts, m, node)
    ensures r == Success(false) ==> exists m :: k <= m < |ts| && ts[m].Success? && !HoldsIn(env, ts, m, node)
    ensures r.Failure? ==> exists m :: k <= m < |ts| && ts[m].Failure?
    decreases |ts| - k
  {
    if k == |ts| then Success(true)
    else
      var t :- ts[k];
      if t.None? || !Eval(env, t.value, node) then
        assert !HoldsIn(env, ts, k, node);
        Success(false)
      else AllFrom(env, ts, node, k + 1)
  }

  /** `allMatch(name, predicateIfNone, node)`: true iff every index below the
      count answers with a predicate that holds; false on `EMPTY`, but
      vacuously true on any other context where the name has no predicates. */
  function AllMatch<N>(env: Attrs<N>, ctx: Ctx, name: string, dflt: Option<Pred>, node: N): (r: Result<bool>)
    ensures ctx.Empty? ==> r == Success(false)
    ensures !ctx.Empty? && Count(ctx, name) == Success(0) ==> r == Success(true)
    ensures r == Success(true) ==> (Count(ctx, name).Success? &&
      forall m :: 0 <= m < Count(ctx, name).value ==> Holds(env, ctx, name, m, dflt, node))
    ensures r == Success(false) && !ctx.Empty? ==> (Count(ctx, name).Success? &&
      exists m :: 0 <= m < Count(ctx, name).value && Get(ctx, name, m, dflt).Success? && !Holds(env, ctx, name, m, dflt, node))
  {
    if ctx.Empty? then Success(false)
    else
      var c :- Count(ctx, name);
      var ts := AnswersOf(ctx, name, c, dflt);
      assert forall m :: 0 <= m < c ==> (HoldsIn(env, ts, m, node) <==> Holds(env, ctx, name, m, dflt, node));
      AllFrom(env, ts, node, 0)
  }

  /** The two contexts with no predicates for a name disagree on `allMatch`:
      `EMPTY` says false, a rule configuration lacking the name says true. */
  lemma EmptyAllMatchDiffers<N>(env: Attrs<N>, name: string, d: Option<Pred>, node: N)
    ensures AllMatch(env, Empty, name, d, node) == Success(false)
    ensures AllMatch(env, Impl([]), name, d, node) == Success(true)
    ensures AnyMatch(env, Impl([]), name, d, node) == Success(false)
  {
    assert Count(Impl([]), name) == Success(0);
  }

  /** What one selection asks of each candidate. */
  datatype Query = Query(ctx: Ctx, name: string, dflt: Option<Pred>, all: bool)

  function Matches<N>(env: Attrs<N>, q: Query, node: N): Result<bool> {
    if q.all then AllMatch(env, q.ctx, q.name, q.dflt, node) else AnyMatch(env, q.ctx, q.name, q.dflt, node)
  }

  /** The test a selection applies to each candidate, as a function value. */
  function Asker<N>(env: Attrs<N>, q: Query): N -> Result<bool> {
    node => Matches(env, q, node)
  }

  /** Reference definition: the candidates among the first `n` of `s` that
      `ask` accepts, in order; a failure if asking one of them fails. */
  function Selected<N>(ask: N -> Result<bool>, s: seq<N>, n: nat): Result<seq<N>>
    requires n <= |s|
  {
    if n == 0 then Success([])
    else
      var prev :- Selected(ask, s, n - 1);
      var m :- ask(s[n - 1]);
      Success(if m then prev + [s[n - 1]] else prev)
  }

  /** The loop of `selectMatching`: asks candidates in order until they are
      exhausted or `limit` have been accepted. */
  method SelectUntil<N>(ask: N -> Result<bool>, candidates: seq<N>, limit: int)
      returns (r: Result<seq<N>>, consumed: nat)
    requires limit > 0
    ensures consumed <= |candidates|
    ensures r.Success? ==> Selected(ask, candidates, consumed) == r
    ensures r.Success? ==> |r.value| <= limit
    ensures r.Success? ==> consumed == |candidates| || |r.value| >= limit
    ensures consumed > 0 ==> (Selected(ask, candidates, consumed - 1).Success?
      && |Selected(ask, candidates, consumed - 1).value| < limit)
    ensures r.Failure? ==> consumed > 0 && ask(candidates[consumed - 1]).Failure?
  {
    var found: seq<N> := [];
    ghost var before: seq<N> := [];
    var pos := 0;
    while pos < |candidates| && |found| < limit
      invariant 0 <= pos <= |candidates|
      invariant Selected(ask, candidates, pos) == Success(found)
      invariant |found| <= limit
      invariant pos > 0 ==> Selected(ask, candidates, pos - 1) == Success(before) && |before| < limit
    {
      var m := ask(candidates[pos]);
      if m.Failure? {
        return Failure(m.error), pos + 1;
      }
      before := found;
      if m.value {
        found := found + [candidates[pos]];
      }
      pos := pos + 1;
    }
    return Success(found), pos;
  }

  /** `selectMatching(name, predicateIfNone, candidates, limit, all)`: pulls
      candidates until the iterator is exhausted or `limit` matches are
      collected.  `consumed` is how many candidates were pulled. */
  method SelectMatching<N>(env: Attrs<N>, q: Query, candidates: seq<N>, limit: int)
      returns (r: Result<seq<N>>, consumed: nat)
    ensures consumed <= |candidates|
    ensures q.ctx.Empty? || limit <= 0 ==> r == Success([]) && consumed == 0
    ensures r.Success? ==> Selected(Asker(env, q), candidates, consumed) == r
    ensures r.Success? && limit > 0 ==> |r.value| <= limit
    ensures r.Success? && !q.ctx.Empty? ==> consumed == |candidates| || |r.value| >= limit
    ensures consumed > 0 ==> (Selected(Asker(env, q), candidates, consumed - 1).Success?
      && |Selected(Asker(env, q), candidates, consumed - 1).value| < limit)
    ensures r.Failure? ==> consumed > 0 && Matches(env, q, candidates[consumed - 1]).Failure?
  {
    if q.ctx.Empty? || limit <= 0 {
      return Success([]), 0;
    }
    r, consumed := SelectUntil(Asker(env, q), candidates, limit);
  }

  /** `ask` accepts none of the first `n` candidates of `s`, and every one of
      them could be asked. */
  predicate NoneMatch<N>(ask: N -> Result<bool>, s: seq<N>, n: nat)
    requires n <= |s|
  {
    forall k :: 0 <= k < n ==> ask(s[k]) == Success(false)
  }

  /** Nothing is selected exactly when no candidate is accepted. */
  lemma {:induction false} SelectedEmpty<N>(ask: N -> Result<bool>, s: seq<N>, n: nat)
    requires n <= |s|
    ensures Selected(ask, s, n) == Success([]) <==> NoneMatch(ask, s, n)
  {
    if n > 0 {
      SelectedEmpty(ask, s, n - 1);
      if Selected(ask, s, n - 1).Success? && Selected(ask, s, n - 1).value != [] {
        assert Selected(ask, s, n).Success? ==> |Selected(ask, s, n).value| > 0;
      }
    }
  }

  /** `findFirstMatchingAllFilters` / `findFirstMatchingAnyFilter`: the first
      candidate that matches, or `outputIfNone` when none does. */
  method FindFirst<N>(env: Attrs<N>, q: Query, candidates: seq<N>, outputIfNone: N) returns (r: Result<N>)
    ensures r.Success? ==>
      (exists k :: 0 <= k < |candidates| && r.value == candidates[k] && Matches(env, q, candidates[k]) == Success(true)
         && NoneMatch(Asker(env, q), candidates, k))
      || (r.value == outputIfNone && (q.ctx.Empty? || NoneMatch(Asker(env, q), candidates, |candidates|)))
    ensures q.ctx.Empty? ==> r == Success(outputIfNone)
    ensures r.Failure? ==>
      (exists k :: 0 <= k < |candidates| && Matches(env, q, candidates[k]).Failure?
         && NoneMatch(Asker(env, q), candidates, k))
  {
    var found, consumed := SelectMatching(env, q, candidates, 1);
    if found.Failure? {
      SelectedEmpty(Asker(env, q), candidates, consumed - 1);
      return Failure(found.error);
    }
    if |found.value| == 0 {
      if !q.ctx.Empty? {
        SelectedEmpty(Asker(env, q), candidates, consumed);
      }
      return Success(outputIfNone);
    }
    var k := consumed - 1;
    SelectedEmpty(Asker(env, q), candidates, k);
    assert Matches(env, q, candidates[k]) == Success(true);
    return Success(candidates[k]);
  }
}

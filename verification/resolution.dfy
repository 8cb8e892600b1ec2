/** Resolution without a resolver, and the transparency of the cache.

  `Resolve` computes what `parse` computes when nothing is cached: the same
  document selection, the same `extends`/`include` walk and the same merge,
  with no state.  The lemmas below show that the resolver's cache never
  changes an answer: every cached map is the stateless resolution of the
  pair it is stored for, so a `parse` that succeeds returns the stateless
  resolution of its pair, whatever the cache held.  This holds as long as
  distinct pairs get distinct keys, which the cache's keying guarantees only
  for locations without `#` and object names without `#`
  (`PropertiesParser.BuildKeyCollision`).
 */
module Resolution {
  import opened Wrappers
  import opened OrderedMaps
  import opened Json
  import opened Strings
  import opened PropertiesParser

  /** The cache-miss path of `parse` with every nested `parse` a miss too. */
  function Resolve(store: Store, fuel: nat, location: string, objectName: Option<string>): Result<PropMap>
    decreases fuel, 1
  {
    match OpenObject(store, location, objectName)
    case Failure(e) => Failure(e)
    case Success((config, obj)) =>
      match SpecOf(obj)
      case Failure(e) => Failure(e)
      case Success(spec) =>
        if !Inherits(spec) then
          if spec.props.None? then Failure(NullPointer("properties not defined in: " + location))
          else Success(spec.props.value)
        else
          match ResolveRefsR(store, fuel, location, config, References(spec))
          case Failure(e) => Failure(e)
          case Success(layers) =>
            var own := if spec.props.Some? then [spec.props.value] else [];
            Success(MergeLayers(layers + own))
  }

  function ResolveRefsR(store: Store, fuel: nat, location: string, config: OMap<Json>, refs: seq<Json>): Result<seq<PropMap>>
    decreases fuel, 0, |refs|
  {
    if |refs| == 0 then Success([])
    else if refs[0] == JNull then Failure(NullPointer("include entry"))
    else if !refs[0].JString? then Failure(ClassCast("include entry"))
    else
      var first :- ResolveRefR(store, fuel, location, config, refs[0].s);
      var rest :- ResolveRefsR(store, fuel, location, config, refs[1..]);
      Success([first] + rest)
  }

  function ResolveRefR(store: Store, fuel: nat, location: string, config: OMap<Json>, ref: string): Result<PropMap>
    decreases fuel, 0, 0
  {
    if StartsWith(ref, [ObjectHook]) then HookTarget(location, config, ref)
    else if fuel == 0 then Failure(OutOfFuel)
    else Resolve(store, fuel - 1, RefTarget(ref).0, RefTarget(ref).1)
  }

  /** A `#` reference: the raw member of the current document. */
  function HookTarget(location: string, config: OMap<Json>, ref: string): Result<PropMap> {
    match AsObject(Get(config, ref), ref)
    case Failure(e) => Failure(e)
    case Success(None) =>
      Failure(NullPointer("Failed not locate: " + ref + ", referenced from within: " + location))
    case Success(Some(o)) => Success(o)
  }

  /** The pair an external reference names: a whole location, or the
      object after the reference's last `#` in the location before it. */
  function RefTarget(ref: string): (r: (string, Option<string>))
    ensures WellKeyed(r.0, r.1)
  {
    if ObjectHook !in ref then (ref, None)
    else
      var (file, name) := SplitAtLast(ref, ObjectHook);
      (file, Some(name))
  }


  // ---------------------------------------------------------------------
  // More fuel changes no successful answer

  lemma {:induction false} ResolveMono(store: Store, f: nat, g: nat, location: string, objectName: Option<string>)
    requires f <= g && Resolve(store, f, location, objectName).Success?
    ensures Resolve(store, g, location, objectName) == Resolve(store, f, location, objectName)
    decreases f, 1
  {
    match OpenObject(store, location, objectName)
    case Failure(_) =>
    case Success((config, obj)) =>
      match SpecOf(obj)
      case Failure(_) =>
      case Success(spec) =>
        if Inherits(spec) {
          ResolveRefsMono(store, f, g, location, config, References(spec));
        }
  }

  lemma {:induction false} ResolveRefsMono(store: Store, f: nat, g: nat, location: string, config: OMap<Json>, refs: seq<Json>)
    requires f <= g && ResolveRefsR(store, f, location, config, refs).Success?
    ensures ResolveRefsR(store, g, location, config, refs) == ResolveRefsR(store, f, location, config, refs)
    decreases f, 0, |refs|
  {
    if |refs| > 0 {
      ResolveRefMono(store, f, g, location, config, refs[0].s);
      ResolveRefsMono(store, f, g, location, config, refs[1..]);
    }
  }

  lemma {:induction false} ResolveRefMono(store: Store, f: nat, g: nat, location: string, config: OMap<Json>, ref: string)
    requires f <= g && ResolveRefR(store, f, location, config, ref).Success?
    ensures ResolveRefR(store, g, location, config, ref) == ResolveRefR(store, f, location, config, ref)
    decreases f, 0, 0
  {
    if !StartsWith(ref, [ObjectHook]) {
      var k :| f == k + 1;
      var h :| g == h + 1;
      ExternalRefMono(store, k, h, location, config, ref);
    }
  }

  /** The external case, stated at successor fuels. */
  lemma {:induction false} ExternalRefMono(store: Store, f: nat, g: nat, location: string, config: OMap<Json>, ref: string)
    requires f <= g && !StartsWith(ref, [ObjectHook]) && ResolveRefR(store, f + 1, location, config, ref).Success?
    ensures ResolveRefR(store, g + 1, location, config, ref) == ResolveRefR(store, f + 1, location, config, ref)
    decreases f, 2
  {
    ResolveMono(store, f, g, RefTarget(ref).0, RefTarget(ref).1);
  }

  /** `v` is the map the pair resolves to, given enough fuel. */
  ghost predicate Resolves(store: Store, location: string, objectName: Option<string>, v: PropMap) {
    exists f: nat :: Resolve(store, f, location, objectName) == Success(v)
  }

  /** A pair resolves to at most one map. */
  lemma ResolvesUnique(store: Store, location: string, objectName: Option<string>, v: PropMap, w: PropMap)
    requires Resolves(store, location, objectName, v) && Resolves(store, location, objectName, w)
    ensures v == w
  {
    var f: nat :| Resolve(store, f, location, objectName) == Success(v);
    var g: nat :| Resolve(store, g, location, objectName) == Success(w);
    if f <= g {
      ResolveMono(store, f, g, location, objectName);
    } else {
      ResolveMono(store, g, f, location, objectName);
    }
  }

  // ---------------------------------------------------------------------
  // Keys

  /** A pair whose cache key names it alone: a whole-file location without
      `#`, or an object name without `#`. */
  predicate WellKeyed(location: string, objectName: Option<string>) {
    match objectName
    case None => ObjectHook !in location
    case Some(n) => ObjectHook !in n
  }

  /** Well-keyed pairs with the same key are the same pair. */
  lemma WellKeyedInjective(l1: string, o1: Option<string>, l2: string, o2: Option<string>)
    requires WellKeyed(l1, o1) && WellKeyed(l2, o2)
    requires BuildKey(l1, o1) == BuildKey(l2, o2)
    ensures l1 == l2 && o1 == o2
  {
    if o1.Some? && o2.Some? {
      BuildKeyInjective(l1, o1.value, l2, o2.value);
    }
  }

  /** `v` may be cached under `key`: it is the resolution of the one
      well-keyed pair with that key. */
  ghost predicate Stores(store: Store, key: string, v: PropMap) {
    exists location: string, objectName: Option<string> ::
      WellKeyed(location, objectName) && BuildKey(location, objectName) == key
      && Resolves(store, location, objectName, v)
  }

  /** Every cached map is the resolution of the pair it is stored for. */
  ghost predicate Sound(st: Resolver, store: Store) {
    forall key :: key in st.cache ==> Stores(store, key, st.cache[key])
  }

  lemma NewResolverSound(store: Store, useCache: bool)
    ensures Sound(NewResolver(useCache), store)
  {
  }

  // ---------------------------------------------------------------------
  // The cache is transparent

  /** From a sound cache, `parse` of a well-keyed pair keeps the cache
      sound, returns only the pair's resolution, and returns it whenever
      resolution at the same fuel succeeds. */
  lemma {:induction false} ParseSound(st: Resolver, store: Store, fuel: nat, location: string, objectName: Option<string>)
    requires Sound(st, store) && WellKeyed(location, objectName)
    ensures Sound(Parse(st, store, fuel, location, objectName).st, store)
    ensures Parse(st, store, fuel, location, objectName).result.Success? ==>
      Resolves(store, location, objectName, Parse(st, store, fuel, location, objectName).result.value)
    ensures Resolve(store, fuel, location, objectName).Success? ==>
      Parse(st, store, fuel, location, objectName).result == Resolve(store, fuel, location, objectName)
    decreases fuel, 2
  {
    var key := BuildKey(location, objectName);
    if key in st.cache {
      var l, o :| WellKeyed(l, o) && BuildKey(l, o) == key && Resolves(store, l, o, st.cache[key]);
      WellKeyedInjective(l, o, location, objectName);
      var direct := Resolve(store, fuel, location, objectName);
      if direct.Success? {
        ResolvesUnique(store, location, objectName, st.cache[key], direct.value);
      }
    } else {
      var st1 := st.(loads := st.loads + [location]);
      LoadSound(st1, store, fuel, location, objectName);
      var r := Load(st1, store, fuel, location, objectName);
      if st.useCache && r.result.Success? {
        var st' := r.st.(cache := r.st.cache[key := r.result.value]);
        assert Stores(store, key, r.result.value);
        forall k | k in st'.cache ensures Stores(store, k, st'.cache[k]) {
          if k != key {
            assert k in r.st.cache;
          }
        }
      }
    }
  }

  lemma {:induction false} LoadSound(st: Resolver, store: Store, fuel: nat, location: string, objectName: Option<string>)
    requires Sound(st, store)
    ensures Sound(Load(st, store, fuel, location, objectName).st, store)
    ensures Load(st, store, fuel, location, objectName).result.Success? ==>
      Resolves(store, location, objectName, Load(st, store, fuel, location, objectName).result.value)
    ensures Resolve(store, fuel, location, objectName).Success? ==>
      Load(st, store, fuel, location, objectName).result == Resolve(store, fuel, location, objectName)
    decreases fuel, 1
  {
    var r := Load(st, store, fuel, location, objectName);
    match OpenObject(store, location, objectName)
    case Failure(_) =>
    case Success((config, obj)) =>
      match SpecOf(obj)
      case Failure(_) =>
      case Success(spec) =>
        if !Inherits(spec) {
          assert Resolve(store, fuel, location, objectName) == r.result;
        } else {
          var refs := References(spec);
          ResolveRefsSound(st, store, fuel, location, config, refs);
          var ls := ResolveRefs(st, store, fuel, location, config, refs);
          if ls.result.Success? {
            var f: nat :| ResolveRefsR(store, f, location, config, refs) == ls.result;
            assert Resolve(store, f, location, objectName) == r.result;
          }
        }
  }

  lemma {:induction false} ResolveRefsSound(st: Resolver, store: Store, fuel: nat, location: string, config: OMap<Json>, refs: seq<Json>)
    requires Sound(st, store)
    ensures Sound(ResolveRefs(st, store, fuel, location, config, refs).st, store)
    ensures ResolveRefs(st, store, fuel, location, config, refs).result.Success? ==>
      exists f: nat :: ResolveRefsR(store, f, location, config, refs) == ResolveRefs(st, store, fuel, location, config, refs).result
    ensures ResolveRefsR(store, fuel, location, config, refs).Success? ==>
      ResolveRefs(st, store, fuel, location, config, refs).result == ResolveRefsR(store, fuel, location, config, refs)
    decreases fuel, 0, |refs|
  {
    if |refs| == 0 {
      assert ResolveRefsR(store, 0, location, config, refs) == Success([]);
    } else if refs[0].JString? {
      var h := ResolveRef(st, store, fuel, location, config, refs[0].s);
      ResolveRefSound(st, store, fuel, location, config, refs[0].s);
      if h.result.Success? {
        ResolveRefsSound(h.st, store, fuel, location, config, refs[1..]);
        var t := ResolveRefs(h.st, store, fuel, location, config, refs[1..]);
        if t.result.Success? {
          var f1: nat :| ResolveRefR(store, f1, location, config, refs[0].s) == h.result;
          var f2: nat :| ResolveRefsR(store, f2, location, config, refs[1..]) == t.result;
          var g := if f1 <= f2 then f2 else f1;
          ResolveRefMono(store, f1, g, location, config, refs[0].s);
          ResolveRefsMono(store, f2, g, location, config, refs[1..]);
          assert ResolveRefsR(store, g, location, config, refs) == ResolveRefs(st, store, fuel, location, config, refs).result;
        }
      }
    }
  }

  lemma {:induction false} ResolveRefSound(st: Resolver, store: Store, fuel: nat, location: string, config: OMap<Json>, ref: string)
    requires Sound(st, store)
    ensures Sound(ResolveRef(st, store, fuel, location, config, ref).st, store)
    ensures ResolveRef(st, store, fuel, location, config, ref).result.Success? ==>
      exists f: nat :: ResolveRefR(store, f, location, config, ref) == ResolveRef(st, store, fuel, location, config, ref).result
    ensures ResolveRefR(store, fuel, location, config, ref).Success? ==>
      ResolveRef(st, store, fuel, location, config, ref).result == ResolveRefR(store, fuel, location, config, ref)
    decreases fuel, 0, 0
  {
    if StartsWith(ref, [ObjectHook]) {
      assert ResolveRefR(store, fuel, location, config, ref) == ResolveRef(st, store, fuel, location, config, ref).result;
    } else if fuel > 0 {
      var k :| fuel == k + 1;
      ExternalRefSound(st, store, k, location, config, ref);
    }
  }

  /** The external case, stated at a successor fuel. */
  lemma {:induction false} ExternalRefSound(st: Resolver, store: Store, k: nat, location: string, config: OMap<Json>, ref: string)
    requires Sound(st, store) && !StartsWith(ref, [ObjectHook])
    ensures Sound(ResolveRef(st, store, k + 1, location, config, ref).st, store)
    ensures ResolveRef(st, store, k + 1, location, config, ref).result.Success? ==>
      exists f: nat :: ResolveRefR(store, f, location, config, ref) == ResolveRef(st, store, k + 1, location, config, ref).result
    ensures ResolveRefR(store, k + 1, location, config, ref).Success? ==>
      ResolveRef(st, store, k + 1, location, config, ref).result == ResolveRefR(store, k + 1, location, config, ref)
    decreases k, 3
  {
    var (file, name) := RefTarget(ref);
    ParseSound(st, store, k, file, name);
    var r := ResolveRef(st, store, k + 1, location, config, ref);
    if r.result.Success? {
      var g: nat :| Resolve(store, g, file, name) == r.result;
      assert ResolveRefR(store, g + 1, location, config, ref) == r.result;
    }
  }

  /** Whatever a sound cache holds, a successful `parse` of a well-keyed
      pair returns what that pair resolves to with an empty cache. */
  lemma ParseTransparent(st: Resolver, store: Store, fuel: nat, fuel': nat, location: string, objectName: Option<string>)
    requires Sound(st, store) && WellKeyed(location, objectName)
    requires Parse(st, store, fuel, location, objectName).result.Success?
    requires Parse(NewResolver(true), store, fuel', location, objectName).result.Success?
    ensures Parse(st, store, fuel, location, objectName).result == Parse(NewResolver(true), store, fuel', location, objectName).result
  {
    ParseSound(st, store, fuel, location, objectName);
    ParseSound(NewResolver(true), store, fuel', location, objectName);
    ResolvesUnique(store, location, objectName,
      Parse(st, store, fuel, location, objectName).result.value,
      Parse(NewResolver(true), store, fuel', location, objectName).result.value);
  }
}

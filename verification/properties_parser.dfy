/** The rule-config resolver (PropertiesParser).

  A location names a JSON document; the document's top level maps object
  names to objects with optional `properties`, `extends` and `include`
  members.  Resolving a (location, object name) pair yields the object's
  property map, with everything it extends or includes merged underneath
  it.  Results are cached under `location` or `location#objectName`.

  The stream provider and the JSON decoder become a `Store` from location
  to decoded document.  Every location whose stream is requested is
  appended to the resolver's `loads` log, so that "answered from the cache
  without reading again" can be stated.  The source detects no reference
  cycles; here each hop through an `extends` or `include` reference spends
  one unit of `fuel`.
 */
module PropertiesParser {
  import opened Wrappers
  import opened OrderedMaps
  import opened Json
  import opened Strings

  const PropertiesKey: string := "properties"
  const ExtendsKey: string := "extends"
  const IncludeKey: string := "include"
  const ObjectHook: char := '#'
  const CommentPrefix: string := "!--"

  /** A resolved property map: property name to its (undecoded) rule list. */
  type PropMap = OMap<Json>

  datatype Document = Parsed(root: Json) | Unparsable

  /** What the stream provider and the JSON decoder would deliver. */
  type Store = map<string, Document>

  datatype Resolver = Resolver(useCache: bool, cache: map<string, PropMap>, loads: seq<string>)

  /** A fresh resolver: with caching off the cache is the immutable empty map. */
  function NewResolver(useCache: bool): (r: Resolver)
    ensures r.cache == map[] && r.loads == []
  {
    Resolver(useCache, map[], [])
  }

  datatype Outcome = Outcome(result: Result<PropMap>, st: Resolver)

  datatype Layers = Layers(result: Result<seq<PropMap>>, st: Resolver)

  /** The cache key: the location alone, or `location#objectName`. */
  function BuildKey(location: string, objectName: Option<string>): string {
    match objectName
    case None => location
    case Some(n) => location + [ObjectHook] + n
  }

  /** A key built from an object name without `#` splits back, at its last
      `#`, into the location and the object name that built it. */
  lemma BuildKeySplitsBack(location: string, name: string)
    requires ObjectHook !in name
    ensures ObjectHook in BuildKey(location, Some(name))
    ensures SplitAtLast(BuildKey(location, Some(name)), ObjectHook) == (location, name)
  {
    SplitAtLastOfJoin(location, ObjectHook, name);
  }

  /** Object names without `#` give distinct keys for distinct pairs. */
  lemma BuildKeyInjective(l1: string, n1: string, l2: string, n2: string)
    requires ObjectHook !in n1 && ObjectHook !in n2
    requires BuildKey(l1, Some(n1)) == BuildKey(l2, Some(n2))
    ensures l1 == l2 && n1 == n2
  {
    BuildKeySplitsBack(l1, n1);
    BuildKeySplitsBack(l2, n2);
  }

  /** A plain location containing `#` shares its key with a named object:
      the cache does not tell `parse("a#b")` from `parse("a", "b")`. */
  lemma BuildKeyCollision()
    ensures BuildKey("a#b", None) == BuildKey("a", Some("b"))
  {
  }

  predicate IsComment(key: string) {
    StartsWith(key, CommentPrefix)
  }

  /** Index of the first top-level key that is not a comment. */
  function FirstNonComment(config: OMap<Json>): (r: Option<nat>)
    ensures r.Some? ==> r.value < |config| && !IsComment(config[r.value].0)
    ensures r.Some? ==> forall j :: 0 <= j < r.value ==> IsComment(config[j].0)
    ensures r.None? ==> forall j :: 0 <= j < |config| ==> IsComment(config[j].0)
  {
    if |config| == 0 then None
    else if !IsComment(config[0].0) then Some(0)
    else
      var r := FirstNonComment(config[1..]);
      if r.Some? then Some(r.value + 1) else None
  }

  /** The target object of a document: the named one, or else the first
      member whose key is not a comment. */
  function SelectObject(config: OMap<Json>, location: string, objectName: Option<string>): (r: Result<OMap<Json>>)
    ensures objectName.Some? ==>
      (r.Success? <==> Get(config, objectName.value).Some? && Get(config, objectName.value).value.JObject?)
    ensures objectName.Some? && r.Success? ==> r.value == Get(config, objectName.value).value.entries
    ensures objectName.None? && FirstNonComment(config).None? ==> r.Failure?
    ensures objectName.None? && FirstNonComment(config).Some? ==>
      var v := config[FirstNonComment(config).value].1;
      (r.Success? <==> v.JObject?) && (r.Success? ==> r.value == v.entries)
  {
    match objectName
    case Some(n) =>
      var o :- AsObject(Get(config, n), "object " + n);
      if o.None? then Failure(NullPointer("No JSON Object named: " + n + " specified in: " + location))
      else Success(o.value)
    case None =>
      var i := FirstNonComment(config);
      if i.None? then Failure(NullPointer("No JSON Object specified in: " + location))
      else
        var key := config[i.value].0;
        FirstEntryOfKey(config, i.value);
        var o :- AsObject(Get(config, key), "object " + key);
        if o.None? then Failure(NullPointer("No JSON Object specified in: " + location))
        else Success(o.value)
  }

  /** The first non-comment entry is the first entry with its key, so looking
      its key up again finds that very entry. */
  lemma FirstEntryOfKey(config: OMap<Json>, i: nat)
    requires i < |config| && !IsComment(config[i].0)
    requires forall j :: 0 <= j < i ==> IsComment(config[j].0)
    ensures HasKey(config, config[i].0)
    ensures Get(config, config[i].0) == Some(config[i].1)
  {
    var k := config[i].0;
    assert HasKey(config, k);
    var f := FirstIndex(config, k);
    assert f == i by {
      if f < i {
        assert false;
      }
    }
  }

  /** The members of a target object that drive resolution. */
  datatype Spec = Spec(props: Option<PropMap>, parent: Option<string>, siblings: Option<seq<Json>>)

  function SpecOf(obj: OMap<Json>): (r: Result<Spec>)
    ensures r.Success? ==> AsObject(Get(obj, PropertiesKey), PropertiesKey) == Success(r.value.props)
    ensures r.Success? ==> AsString(Get(obj, ExtendsKey), ExtendsKey) == Success(r.value.parent)
    ensures r.Success? ==> AsList(Get(obj, IncludeKey), IncludeKey) == Success(r.value.siblings)
  {
    var props :- AsObject(Get(obj, PropertiesKey), PropertiesKey);
    var parent :- AsString(Get(obj, ExtendsKey), ExtendsKey);
    var siblings :- AsList(Get(obj, IncludeKey), IncludeKey);
    Success(Spec(props, parent, siblings))
  }

  /** An object inherits when it names a parent or a non-empty include list. */
  predicate Inherits(spec: Spec) {
    spec.parent.Some? || (spec.siblings.Some? && |spec.siblings.value| > 0)
  }

  /** The references of an inheriting object, in merge order: the parent
      first, then every include entry in list order. */
  function References(spec: Spec): seq<Json> {
    (if spec.parent.Some? then [JString(spec.parent.value)] else []) + spec.siblings.GetOr([])
  }

  /** Open and decode a location, then select its target object; the
      document's top level is returned too, for `#` references. */
  function OpenObject(store: Store, location: string, objectName: Option<string>): Result<(OMap<Json>, OMap<Json>)> {
    if location !in store then Failure(NotFound(location))
    else match store[location]
      case Unparsable => Failure(Malformed(location))
      case Parsed(root) =>
        if !root.JObject? then Failure(ClassCast("document root of " + location))
        else
          var obj :- SelectObject(root.entries, location, objectName);
          Success((root.entries, obj))
  }

  /** How a resolver state may evolve during a call: the caching flag is
      fixed, nothing is cached with caching off, cached entries are never
      replaced, and the read log only grows. */
  predicate Evolves(st: Resolver, st': Resolver) {
    && st'.useCache == st.useCache
    && (!st.useCache ==> st'.cache == st.cache)
    && (forall k :: k in st.cache ==> k in st'.cache && st'.cache[k] == st.cache[k])
    && st.loads <= st'.loads
  }

  lemma EvolvesTransitive(a: Resolver, b: Resolver, c: Resolver)
    requires Evolves(a, b) && Evolves(b, c)
    ensures Evolves(a, c)
  {
  }

  /** `parse(location, objectName)`. */
  function Parse(st: Resolver, store: Store, fuel: nat, location: string, objectName: Option<string>): (r: Outcome)
    ensures Evolves(st, r.st)
    ensures BuildKey(location, objectName) in st.cache ==>
      r == Outcome(Success(st.cache[BuildKey(location, objectName)]), st)
    ensures st.useCache && r.result.Success? ==>
      BuildKey(location, objectName) in r.st.cache && r.st.cache[BuildKey(location, objectName)] == r.result.value
    ensures BuildKey(location, objectName) !in st.cache ==>
      |r.st.loads| > |st.loads| && r.st.loads[|st.loads|] == location
    decreases fuel, 2
  {
    var key := BuildKey(location, objectName);
    if key in st.cache then Outcome(Success(st.cache[key]), st)
    else
      var st1 := st.(loads := st.loads + [location]);
      var r := Load(st1, store, fuel, location, objectName);
      EvolvesTransitive(st, st1, r.st);
      if st.useCache && r.result.Success? then
        Outcome(r.result, r.st.(cache := r.st.cache[key := r.result.value]))
      else r
  }

  /** The cache-miss path of `parse`: resolve the target object. */
  function Load(st: Resolver, store: Store, fuel: nat, location: string, objectName: Option<string>): (r: Outcome)
    ensures Evolves(st, r.st)
    decreases fuel, 1
  {
    match OpenObject(store, location, objectName)
    case Failure(e) => Outcome(Failure(e), st)
    case Success((config, obj)) =>
      match SpecOf(obj)
      case Failure(e) => Outcome(Failure(e), st)
      case Success(spec) =>
        if !Inherits(spec) then
          if spec.props.None? then
            Outcome(Failure(NullPointer("properties not defined in: " + location)), st)
          else Outcome(Success(spec.props.value), st)
        else
          var ls := ResolveRefs(st, store, fuel, location, config, References(spec));
          match ls.result
          case Failure(e) => Outcome(Failure(e), ls.st)
          case Success(layers) =>
            var own := if spec.props.Some? then [spec.props.value] else [];
            Outcome(Success(MergeLayers(layers + own)), ls.st)
  }

  /** Resolve every reference in order, threading the resolver state; the
      first failure stops the walk.  A null entry passes the loop's cast to
      `String` and fails at `startsWith`; any other non-string entry fails
      the cast. */
  function ResolveRefs(st: Resolver, store: Store, fuel: nat, location: string, config: OMap<Json>, refs: seq<Json>): (r: Layers)
    ensures Evolves(st, r.st)
    ensures r.result.Success? ==> |r.result.value| == |refs|
    ensures |refs| > 0 && refs[0] == JNull ==> r.result.Failure? && r.result.error.NullPointer?
    ensures |refs| > 0 && !refs[0].JString? && refs[0] != JNull ==> r.result.Failure? && r.result.error.ClassCast?
    decreases fuel, 0, |refs|
  {
    if |refs| == 0 then Layers(Success([]), st)
    else if refs[0] == JNull then Layers(Failure(NullPointer("include entry")), st)
    else if !refs[0].JString? then Layers(Failure(ClassCast("include entry")), st)
    else
      var h := ResolveRef(st, store, fuel, location, config, refs[0].s);
      match h.result
      case Failure(e) => Layers(Failure(e), h.st)
      case Success(first) =>
        var t := ResolveRefs(h.st, store, fuel, location, config, refs[1..]);
        EvolvesTransitive(st, h.st, t.st);
        match t.result
        case Failure(e) => t
        case Success(rest) => Layers(Success([first] + rest), t.st)
  }

  /** `getPropertiesToInclude` followed by the null check of `include`. */
  function ResolveRef(st: Resolver, store: Store, fuel: nat, location: string, config: OMap<Json>, ref: string): (r: Outcome)
    ensures Evolves(st, r.st)
    ensures StartsWith(ref, [ObjectHook]) ==> r.st == st
    decreases fuel, 0, 0
  {
    if StartsWith(ref, [ObjectHook]) then
      match AsObject(Get(config, ref), ref)
      case Failure(e) => Outcome(Failure(e), st)
      case Success(None) =>
        Outcome(Failure(NullPointer("Failed not locate: " + ref + ", referenced from within: " + location)), st)
      case Success(Some(o)) => Outcome(Success(o), st)
    else if fuel == 0 then Outcome(Failure(OutOfFuel), st)
    else if ObjectHook !in ref then Parse(st, store, fuel - 1, ref, None)
    else
      var (file, name) := SplitAtLast(ref, ObjectHook);
      Parse(st, store, fuel - 1, file, Some(name))
  }

  // ---------------------------------------------------------------------
  // Properties of resolution

  /** Without `extends` and with an absent or empty `include`, the result is
      the object's own `properties` member, verbatim; a missing one fails. */
  lemma ResolveWithoutInheritance(st: Resolver, store: Store, fuel: nat, location: string, objectName: Option<string>,
                                  config: OMap<Json>, obj: OMap<Json>, spec: Spec)
    requires BuildKey(location, objectName) !in st.cache
    requires OpenObject(store, location, objectName) == Success((config, obj))
    requires SpecOf(obj) == Success(spec) && !Inherits(spec)
    ensures Parse(st, store, fuel, location, objectName).result.Success? <==> spec.props.Some?
    ensures spec.props.Some? ==> Parse(st, store, fuel, location, objectName).result == Success(spec.props.value)
  {
  }

  /** With inheritance, the result is the merge of the resolved references
      (the parent first, then the includes in order) with the object's own
      `properties` on top. */
  lemma ResolveWithInheritance(st: Resolver, store: Store, fuel: nat, location: string, objectName: Option<string>,
                               config: OMap<Json>, obj: OMap<Json>, spec: Spec)
    requires BuildKey(location, objectName) !in st.cache
    requires OpenObject(store, location, objectName) == Success((config, obj))
    requires SpecOf(obj) == Success(spec) && Inherits(spec)
    ensures var st1 := st.(loads := st.loads + [location]);
            var ls := ResolveRefs(st1, store, fuel, location, config, References(spec));
            && (Parse(st, store, fuel, location, objectName).result.Success? <==> ls.result.Success?)
            && (ls.result.Success? ==>
                  Parse(st, store, fuel, location, objectName).result
                  == Success(MergeLayers(ls.result.value + (if spec.props.Some? then [spec.props.value] else []))))
  {
  }

  /** The object's own properties override everything it inherits. */
  lemma {:induction false} OwnPropertiesWin(layers: seq<PropMap>, props: PropMap, k: string)
    requires HasKey(props, k)
    ensures Get(MergeLayers(layers + [props]), k) == Some(LastValue(props, k))
  {
    MergeLayersLastWins(layers + [props], k, |layers|);
  }

  /** Among the references, a later one overrides an earlier one: a key takes
      its value from the last reference that defines it, unless the object's
      own properties define it. */
  lemma {:induction false} LaterReferenceWins(layers: seq<PropMap>, own: seq<PropMap>, k: string, j: nat)
    requires |own| <= 1
    requires j < |layers| && HasKey(layers[j], k)
    requires forall j' :: j < j' < |layers| ==> !HasKey(layers[j'], k)
    requires forall o :: o in own ==> !HasKey(o, k)
    ensures Get(MergeLayers(layers + own), k) == Some(LastValue(layers[j], k))
  {
    var all := layers + own;
    assert all[j] == layers[j];
    forall j' | j < j' < |all| ensures !HasKey(all[j'], k) {
      if j' >= |layers| { assert all[j'] in own; }
    }
    MergeLayersLastWins(all, k, j);
  }

  /** The parent is the bottom layer: `References` puts it first. */
  lemma ParentComesFirst(spec: Spec)
    requires spec.parent.Some?
    ensures References(spec)[0] == JString(spec.parent.value)
    ensures References(spec)[1..] == spec.siblings.GetOr([])
  {
  }

  /** Each resolved layer belongs to the reference at the same position; the
      first comes from resolving the first reference in the initial state. */
  lemma ResolveRefsFirstLayer(st: Resolver, store: Store, fuel: nat, location: string, config: OMap<Json>, refs: seq<Json>)
    requires |refs| > 0
    requires ResolveRefs(st, store, fuel, location, config, refs).result.Success?
    ensures refs[0].JString?
    ensures ResolveRef(st, store, fuel, location, config, refs[0].s).result
            == Success(ResolveRefs(st, store, fuel, location, config, refs).result.value[0])
  {
  }

  /** A `#` reference is the raw member of the current document with that
      very key (`#` included); its own `extends`/`include` are not resolved
      and nothing is read. */
  lemma HookReferenceIsRaw(st: Resolver, store: Store, fuel: nat, location: string, config: OMap<Json>, ref: string)
    requires StartsWith(ref, [ObjectHook])
    ensures var r := ResolveRef(st, store, fuel, location, config, ref);
            && r.st == st
            && (r.result.Success? <==> Get(config, ref).Some? && Get(config, ref).value.JObject?)
            && (r.result.Success? ==> r.result.value == Get(config, ref).value.entries)
  {
  }

  /** A reference without `#` resolves a whole external location; one with
      `#` past its start resolves the object after its last `#`. */
  lemma ExternalReference(st: Resolver, store: Store, fuel: nat, location: string, config: OMap<Json>, ref: string)
    requires !StartsWith(ref, [ObjectHook]) && fuel > 0
    ensures ObjectHook !in ref ==>
      ResolveRef(st, store, fuel, location, config, ref) == Parse(st, store, fuel - 1, ref, None)
    ensures ObjectHook in ref ==>
      exists file, name ::
        && file + [ObjectHook] + name == ref && ObjectHook !in name
        && ResolveRef(st, store, fuel, location, config, ref) == Parse(st, store, fuel - 1, file, Some(name))
  {
    if ObjectHook in ref {
      var (file, name) := SplitAtLast(ref, ObjectHook);
      assert file + [ObjectHook] + name == ref && ObjectHook !in name;
    }
  }

  /** With caching on, resolving the same pair again returns the same map and
      reads nothing. */
  lemma ParseTwiceFromCache(st: Resolver, store: Store, fuel: nat, fuel': nat, location: string, objectName: Option<string>)
    requires st.useCache
    requires Parse(st, store, fuel, location, objectName).result.Success?
    ensures var r := Parse(st, store, fuel, location, objectName);
            Parse(r.st, store, fuel', location, objectName) == Outcome(r.result, r.st)
  {
  }

  /** With caching off nothing is ever stored. */
  lemma NoCacheStoresNothing(store: Store, fuel: nat, location: string, objectName: Option<string>)
    ensures Parse(NewResolver(false), store, fuel, location, objectName).st.cache == map[]
  {
  }
}

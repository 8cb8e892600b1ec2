/** FilterBuilderImpl: one predicate per property name, OR-ed over the
  rule configuration files in order.  The configured attribute-test
  provider and JSON parser are represented only by whether they are set;
  the files are read through the resolver of PropertiesParser with caching
  on, one resolver shared by the whole build.
 */
module FilterBuilder {
  import opened Wrappers
  import opened OrderedMaps
  import opened PropertiesParser
  import opened Predicates
  import opened FilterContexts
  import opened FilterAlgebra
  import opened Resolution

  datatype Builder = Builder(
    paths: seq<string>,          // configFilePaths
    names: seq<string>,          // propertyNames
    hasAttributeContext: bool,   // attributeContext != null
    hasJsonParser: bool,         // jsonParser != null
    defaultTest: Pred)           // defaultTest

  /** `reset()`: no files, no names, no collaborators, and a default test
      that rejects every node. */
  function Reset(): (b: Builder)
    ensures b.paths == [] && b.names == []
    ensures !b.hasAttributeContext && !b.hasJsonParser
    ensures forall env: Attrs<int>, node: int :: !Eval(env, b.defaultTest, node)
  {
    Builder([], [], false, false, Never)
  }

  /** Reading one configuration file with the resolver in a given state:
      `PropertiesParser.parse(location)` over a store, as `Build` supplies it. */
  type FileParser = (Resolver, string) -> Outcome

  datatype Outcome2 = Outcome2(result: Result<Pred>, st: Resolver)

  /** The contributions of several files, with the resolver state each
      file was parsed in. */
  datatype TestsOutcome = TestsOutcome(result: Result<seq<Pred>>, states: seq<Resolver>, st: Resolver)

  datatype MapOutcome = MapOutcome(result: Result<map<string, Pred>>, st: Resolver)

  /** One file's contribution for a name, given the file's properties: the
      properties as a FilterContextImpl, then `context.or(name,
      defaultTest)`. */
  function FileTest(b: Builder, name: string, props: PropMap): (r: Result<Pred>)
    ensures r.Success? <==> Compose(Impl(props), name, false, Some(b.defaultTest)).Success?
    ensures r.Success? ==> Compose(Impl(props), name, false, Some(b.defaultTest)) == Success(Some(r.value))
  {
    match Compose(Impl(props), name, false, Some(b.defaultTest))
    case Failure(e) => Failure(e)
    case Success(t) => Success(t.value)
  }

  /** `FileTest` for each name. */
  function Tests(b: Builder): string -> PropMap -> Result<Pred> {
    name => props => FileTest(b, name, props)
  }

  /** Reading a file with the resolver in state `st`, then applying `test` to
      its properties; a failed read is the result. */
  function ReadThen(parse: FileParser, test: PropMap -> Result<Pred>, st: Resolver, path: string): (r: Outcome2)
    ensures r.st == parse(st, path).st
    ensures parse(st, path).result.Failure? ==> r.result == Failure(parse(st, path).result.error)
    ensures parse(st, path).result.Success? ==> r.result == test(parse(st, path).result.value)
  {
    var o := parse(st, path);
    match o.result
    case Failure(e) => Outcome2(Failure(e), o.st)
    case Success(props) => Outcome2(test(props), o.st)
  }

  /** The step each name's walk over the files takes. */
  function PerFile(parse: FileParser, tests: string -> PropMap -> Result<Pred>): string -> (Resolver, string) -> Outcome2 {
    name => (st, path) => ReadThen(parse, tests(name), st, path)
  }

  /** A file's contribution for a name, read through `parse`. */
  function Contribution(b: Builder, parse: FileParser): string -> (Resolver, string) -> Outcome2 {
    PerFile(parse, Tests(b))
  }

  /** The contributions of the files `paths` in order, each file read with
      the resolver state the previous one left; the first failure stops the
      walk. */
  function FileTests(step: (Resolver, string) -> Outcome2, paths: seq<string>, st: Resolver): (r: TestsOutcome)
    ensures r.result.Success? ==> |r.result.value| == |r.states| == |paths|
    ensures r.result.Success? ==> forall i :: 0 <= i < |r.states| ==>
      step(r.states[i], paths[i]).result == Success(r.result.value[i])
    decreases |paths|
  {
    if |paths| == 0 then TestsOutcome(Success([]), [], st)
    else
      var h := step(st, paths[0]);
      match h.result
      case Failure(e) => TestsOutcome(Failure(e), [], h.st)
      case Success(t) =>
        var rest := FileTests(step, paths[1..], h.st);
        match rest.result
        case Failure(e) => rest
        case Success(ts) => TestsOutcome(Success([t] + ts), [st] + rest.states, rest.st)
  }

  /** The walk threads the resolver: the first file is read in the initial
      state, each later file in the state the previous read left, and the
      walk ends in the state the last read left. */
  lemma {:induction false} FileTestsThreaded(step: (Resolver, string) -> Outcome2, paths: seq<string>, st: Resolver)
    requires FileTests(step, paths, st).result.Success?
    ensures |paths| > 0 ==> FileTests(step, paths, st).states[0] == st
    ensures forall i :: 0 < i < |FileTests(step, paths, st).states| ==>
      FileTests(step, paths, st).states[i] == step(FileTests(step, paths, st).states[i - 1], paths[i - 1]).st
    ensures FileTests(step, paths, st).st ==
      if |paths| == 0 then st else step(FileTests(step, paths, st).states[|paths| - 1], paths[|paths| - 1]).st
    decreases |paths|
  {
    if |paths| > 0 {
      var h := step(st, paths[0]);
      var rest := FileTests(step, paths[1..], h.st);
      FileTestsThreaded(step, paths[1..], h.st);
      var r := FileTests(step, paths, st);
      assert r.states == [st] + rest.states;
      forall i | 0 < i < |r.states| ensures r.states[i] == step(r.states[i - 1], paths[i - 1]).st {
        if i > 1 {
          assert r.states[i] == rest.states[i - 1] && r.states[i - 1] == rest.states[i - 2];
          assert paths[i - 1] == paths[1..][i - 2];
        }
      }
    }
  }

  /** The per-name loop over `names`, `out` holding the names done; each
      name's contributions come from `per(name)` over `paths`. */
  function BuildNames(per: string -> (Resolver, string) -> Outcome2, paths: seq<string>, names: seq<string>,
                      st: Resolver, out: map<string, Pred>): (r: MapOutcome)
    ensures r.result.Success? ==> (r.result.value.Keys ==
      out.Keys + (if |paths| > 0 then set n | n in names else {}))
    decreases |names|
  {
    if |names| == 0 then MapOutcome(Success(out), st)
    else
      var name := names[0];
      var tests := FileTests(per(name), paths, st);
      match tests.result
      case Failure(e) => MapOutcome(Failure(e), tests.st)
      case Success(ts) =>
        var out' := if |ts| == 0 then out else out[name := Fold(ts, false).value];
        assert names == [name] + names[1..];
        BuildNames(per, paths, names[1..], tests.st, out')
  }

  /** `build()` with the file reader as a parameter. */
  function BuildWith(b: Builder, parse: FileParser): (r: Result<map<string, Pred>>)
    ensures !b.hasAttributeContext || !b.hasJsonParser ==> r.Failure? && r.error.NullPointer?
    ensures r.Success? ==> r.value.Keys == if |b.paths| > 0 then set n | n in b.names else {}
  {
    if !b.hasAttributeContext then Failure(NullPointer("attributeContext"))
    else if !b.hasJsonParser then Failure(NullPointer("jsonParser"))
    else
      BuildNames(Contribution(b, parse), b.paths, b.names, NewResolver(true), map[]).result
  }

  /** The file reader `build()` uses: a caching PropertiesParser over the
      store, asked for a whole file. */
  function FileReader(store: Store, fuel: nat): FileParser {
    (st, location) => Parse(st, store, fuel, location, None)
  }

  /** `build()`: fails when the attribute context or the JSON parser is
      unset; otherwise every requested name gets a predicate as soon as there
      is one configuration file, and no other name does. */
  function Build(b: Builder, store: Store, fuel: nat): (r: Result<map<string, Pred>>)
    ensures !b.hasAttributeContext || !b.hasJsonParser ==> r.Failure? && r.error.NullPointer?
    ensures r.Success? ==> r.value.Keys == if |b.paths| > 0 then set n | n in b.names else {}
    ensures r == BuildWith(b, FileReader(store, fuel))
  {
    BuildWith(b, FileReader(store, fuel))
  }

  /** `ts` are the results of `step` over `paths` in order, file `m` read
      with the resolver in state `sts[m]`, which is the state the previous
      file left. */
  predicate StepsAre(step: (Resolver, string) -> Outcome2, paths: seq<string>, ts: seq<Pred>, sts: seq<Resolver>) {
    && |ts| == |sts| == |paths|
    && (forall m :: 0 <= m < |ts| ==> step(sts[m], paths[m]).result == Success(ts[m]))
    && (forall m :: 0 < m < |sts| ==> sts[m] == step(sts[m - 1], paths[m - 1]).st)
  }

  /** The predicate a name is given: the OR of one contribution per file,
      the files read in states that all satisfy `inv`. */
  ghost predicate OrOfSteps(step: (Resolver, string) -> Outcome2, paths: seq<string>, inv: Resolver -> bool, p: Pred) {
    exists ts: seq<Pred>, sts: seq<Resolver> ::
      && StepsAre(step, paths, ts, sts)
      && (forall m :: 0 <= m < |sts| ==> inv(sts[m]))
      && Fold(ts, false) == Some(p)
  }

  /** `ts` and `sts` witness that `p` is such an OR. */
  lemma OrOfStepsIntro(step: (Resolver, string) -> Outcome2, paths: seq<string>, inv: Resolver -> bool,
                       ts: seq<Pred>, sts: seq<Resolver>, p: Pred)
    requires StepsAre(step, paths, ts, sts) && (forall m :: 0 <= m < |sts| ==> inv(sts[m]))
    requires Fold(ts, false) == Some(p)
    ensures OrOfSteps(step, paths, inv, p)
  {
  }

  /** A state property that every step preserves holds along a threaded
      sequence of states that starts with it. */
  lemma {:induction false} ThreadKeeps(step: (Resolver, string) -> Outcome2, paths: seq<string>,
                                       inv: Resolver -> bool, sts: seq<Resolver>, i: nat)
    requires |sts| == |paths| && i < |sts| && inv(sts[0])
    requires forall m :: 0 < m < |sts| ==> sts[m] == step(sts[m - 1], paths[m - 1]).st
    requires forall s, path :: path in paths && inv(s) ==> inv(step(s, path).st)
    ensures inv(sts[i])
    decreases i
  {
    if i > 0 {
      ThreadKeeps(step, paths, inv, sts, i - 1);
      assert paths[i - 1] in paths;
    }
  }

  /** A state property that every step preserves holds of every state the
      walk over the files passes through, and of the state it ends in. */
  lemma FileTestsKeep(step: (Resolver, string) -> Outcome2, paths: seq<string>, inv: Resolver -> bool, st: Resolver)
    requires inv(st)
    requires forall s, path :: path in paths && inv(s) ==> inv(step(s, path).st)
    ensures FileTests(step, paths, st).result.Success? ==> inv(FileTests(step, paths, st).st)
    ensures FileTests(step, paths, st).result.Success? ==>
      forall m :: 0 <= m < |FileTests(step, paths, st).states| ==> inv(FileTests(step, paths, st).states[m])
  {
    var r := FileTests(step, paths, st);
    if r.result.Success? && |paths| > 0 {
      FileTestsThreaded(step, paths, st);
      forall m | 0 <= m < |r.states| ensures inv(r.states[m]) {
        ThreadKeeps(step, paths, inv, r.states, m);
      }
      ThreadKeeps(step, paths, inv, r.states, |paths| - 1);
      assert paths[|paths| - 1] in paths;
    }
  }

  /** Storing one more OR of contributions keeps every stored predicate one. */
  lemma StoreOr(per: string -> (Resolver, string) -> Outcome2, paths: seq<string>, inv: Resolver -> bool,
                out: map<string, Pred>, name: string, p: Pred)
    requires forall k :: k in out ==> OrOfSteps(per(k), paths, inv, out[k])
    requires OrOfSteps(per(name), paths, inv, p)
    ensures forall k :: k in out[name := p] ==> OrOfSteps(per(k), paths, inv, out[name := p][k])
  {
  }

  /** Every predicate the per-name loop stores is the OR of one step result
      per file, the files read in states satisfying any property that the
      initial state has and every step preserves. */
  lemma {:induction false} BuildNamesMeaning(per: string -> (Resolver, string) -> Outcome2, paths: seq<string>,
                                             inv: Resolver -> bool, names: seq<string>, st: Resolver,
                                             out: map<string, Pred>, n: string)
    requires inv(st)
    requires forall k, s, path :: path in paths && inv(s) ==> inv(per(k)(s, path).st)
    requires forall k :: k in out ==> OrOfSteps(per(k), paths, inv, out[k])
    requires BuildNames(per, paths, names, st, out).result.Success?
    requires n in BuildNames(per, paths, names, st, out).result.value
    ensures OrOfSteps(per(n), paths, inv, BuildNames(per, paths, names, st, out).result.value[n])
    decreases |names|
  {
    if |names| > 0 {
      var name := names[0];
      var tests := FileTests(per(name), paths, st);
      FileTestsKeep(per(name), paths, inv, st);
      var ts := tests.result.value;
      var out' := if |ts| == 0 then out else out[name := Fold(ts, false).value];
      if |ts| > 0 {
        FileTestsThreaded(per(name), paths, st);
        OrOfStepsIntro(per(name), paths, inv, ts, tests.states, Fold(ts, false).value);
        StoreOr(per, paths, inv, out, name, Fold(ts, false).value);
      }
      BuildNamesMeaning(per, paths, inv, names[1..], tests.st, out', n);
    }
  }

  /** `t` is what `test` makes of some properties that `good` accepts for
      the file `path`. */
  ghost predicate FreshBy(test: PropMap -> Result<Pred>, good: (string, PropMap) -> bool, path: string, t: Pred) {
    exists props: PropMap :: good(path, props) && test(props) == Success(t)
  }

  /** A file reader that keeps `inv` of the resolver and, from a state
      satisfying `inv`, returns only properties that `good` accepts. */
  ghost predicate ReaderKeeps(parse: FileParser, inv: Resolver -> bool, good: (string, PropMap) -> bool, paths: seq<string>) {
    forall s, path :: path in paths && inv(s) ==>
      && inv(parse(s, path).st)
      && (parse(s, path).result.Success? ==> good(path, parse(s, path).result.value))
  }

  /** Reading then testing leaves the resolver as reading does. */
  lemma PerFileKeeps(parse: FileParser, tests: string -> PropMap -> Result<Pred>, paths: seq<string>, inv: Resolver -> bool)
    requires forall s, path :: path in paths && inv(s) ==> inv(parse(s, path).st)
    ensures forall k, s, path :: path in paths && inv(s) ==> inv(PerFile(parse, tests)(k)(s, path).st)
  {
    forall k, s, path | path in paths && inv(s) ensures inv(PerFile(parse, tests)(k)(s, path).st) {
      assert PerFile(parse, tests)(k)(s, path).st == parse(s, path).st;
    }
  }

  /** A name the loop stored is the OR of one step result per file, each
      file read in a state satisfying any property that the initial state
      has and reading preserves. */
  lemma BuildNamesOr<N>(env: Attrs<N>, parse: FileParser, tests: string -> PropMap -> Result<Pred>,
                        inv: Resolver -> bool, paths: seq<string>, names: seq<string>, name: string, node: N)
    returns (ts: seq<Pred>, sts: seq<Resolver>)
    requires inv(NewResolver(true))
    requires forall s, path :: path in paths && inv(s) ==> inv(parse(s, path).st)
    requires BuildNames(PerFile(parse, tests), paths, names, NewResolver(true), map[]).result.Success?
    requires name in BuildNames(PerFile(parse, tests), paths, names, NewResolver(true), map[]).result.value
    ensures StepsAre(PerFile(parse, tests)(name), paths, ts, sts) && |ts| > 0
    ensures forall m :: 0 <= m < |sts| ==> inv(sts[m])
    ensures Eval(env, BuildNames(PerFile(parse, tests), paths, names, NewResolver(true), map[]).result.value[name], node)
      <==> exists m :: 0 <= m < |ts| && Eval(env, ts[m], node)
  {
    var per := PerFile(parse, tests);
    PerFileKeeps(parse, tests, paths, inv);
    BuildNamesMeaning(per, paths, inv, names, NewResolver(true), map[], name);
    var p := BuildNames(per, paths, names, NewResolver(true), map[]).result.value[name];
    ts, sts :| StepsAre(per(name), paths, ts, sts) && (forall m :: 0 <= m < |sts| ==> inv(sts[m])) && Fold(ts, false) == Some(p);
    FoldMeaning(env, ts, false, node);
  }

  /** Step results of a reader that keeps `inv` and returns only what `good`
      accepts, read in states satisfying `inv`, are tests of accepted
      properties. */
  lemma FreshTests(parse: FileParser, tests: string -> PropMap -> Result<Pred>, inv: Resolver -> bool,
                   good: (string, PropMap) -> bool, paths: seq<string>, name: string, ts: seq<Pred>, sts: seq<Resolver>)
    requires ReaderKeeps(parse, inv, good, paths)
    requires StepsAre(PerFile(parse, tests)(name), paths, ts, sts)
    requires forall m :: 0 <= m < |sts| ==> inv(sts[m])
    ensures forall m :: 0 <= m < |ts| ==> FreshBy(tests(name), good, paths[m], ts[m])
  {
    forall m | 0 <= m < |ts| ensures FreshBy(tests(name), good, paths[m], ts[m]) {
      assert PerFile(parse, tests)(name)(sts[m], paths[m]).result == Success(ts[m]);
      assert paths[m] in paths;
    }
  }

  /** With such a reader, each stored predicate is the OR of one test of
      accepted properties per file. */
  lemma BuildNamesFresh<N>(env: Attrs<N>, parse: FileParser, tests: string -> PropMap -> Result<Pred>,
                           inv: Resolver -> bool, good: (string, PropMap) -> bool,
                           paths: seq<string>, names: seq<string>, name: string, node: N)
    returns (ts: seq<Pred>)
    requires inv(NewResolver(true)) && ReaderKeeps(parse, inv, good, paths)
    requires BuildNames(PerFile(parse, tests), paths, names, NewResolver(true), map[]).result.Success?
    requires name in BuildNames(PerFile(parse, tests), paths, names, NewResolver(true), map[]).result.value
    ensures |ts| == |paths| > 0
    ensures forall m :: 0 <= m < |ts| ==> FreshBy(tests(name), good, paths[m], ts[m])
    ensures Eval(env, BuildNames(PerFile(parse, tests), paths, names, NewResolver(true), map[]).result.value[name], node)
      <==> exists m :: 0 <= m < |ts| && Eval(env, ts[m], node)
  {
    var sts;
    ts, sts := BuildNamesOr(env, parse, tests, inv, paths, names, name, node);
    FreshTests(parse, tests, inv, good, paths, name, ts, sts);
  }

  /** The resolver states whose cache is sound for `store`. */
  ghost function SoundFor(store: Store): Resolver -> bool {
    s => Sound(s, store)
  }

  /** The properties a file resolves to without any cache. */
  ghost function ResolvesIn(store: Store): (string, PropMap) -> bool {
    (path, props) => Resolves(store, path, None, props)
  }

  /** The caching reader of `build()` keeps the cache sound and returns what
      a file resolves to, on paths without `#`. */
  lemma FileReaderTransparent(store: Store, fuel: nat, paths: seq<string>)
    requires forall path :: path in paths ==> ObjectHook !in path
    ensures SoundFor(store)(NewResolver(true))
    ensures ReaderKeeps(FileReader(store, fuel), SoundFor(store), ResolvesIn(store), paths)
  {
    NewResolverSound(store, true);
    forall s, path | path in paths && Sound(s, store)
      ensures Sound(FileReader(store, fuel)(s, path).st, store)
      ensures FileReader(store, fuel)(s, path).result.Success? ==>
        Resolves(store, path, None, FileReader(store, fuel)(s, path).result.value)
    {
      ParseSound(s, store, fuel, path, None);
    }
  }

  /** `t` is `or(name, defaultTest)` of the properties the file `path`
      resolves to, whatever a cache held. */
  ghost predicate FreshContribution(b: Builder, store: Store, name: string, path: string, t: Pred) {
    exists props: PropMap :: Resolves(store, path, None, props) && FileTest(b, name, props) == Success(t)
  }

  lemma FreshIsContribution(b: Builder, store: Store, name: string, path: string, t: Pred)
    requires FreshBy(Tests(b)(name), ResolvesIn(store), path, t)
    ensures FreshContribution(b, store, name, path, t)
  {
    var props :| ResolvesIn(store)(path, props) && Tests(b)(name)(props) == Success(t);
    assert FileTest(b, name, props) == Success(t);
  }

  /** A contribution fixed by what the file resolves to is the one a new
      caching parser gives, whenever that parser gets through the file. */
  lemma FreshIsNewParse(b: Builder, store: Store, fuel: nat, name: string, path: string, t: Pred)
    requires ObjectHook !in path && FreshContribution(b, store, name, path, t)
    requires Contribution(b, FileReader(store, fuel))(name)(NewResolver(true), path).result.Success?
    ensures Contribution(b, FileReader(store, fuel))(name)(NewResolver(true), path).result == Success(t)
  {
    var props :| Resolves(store, path, None, props) && FileTest(b, name, props) == Success(t);
    NewResolverSound(store, true);
    ParseSound(NewResolver(true), store, fuel, path, None);
    var o := Parse(NewResolver(true), store, fuel, path, None);
    ResolvesUnique(store, path, None, props, o.result.value);
  }

  /** `build()` gives each name the OR of one contribution per configuration
      file, `or(name, defaultTest)` of the properties the file resolves to,
      whatever the shared cache held when the file was read.  Paths must
      not contain `#`: such a path shares its cache key with a named
      object. */
  lemma BuildMeaning<N>(env: Attrs<N>, b: Builder, store: Store, fuel: nat, name: string, node: N)
    returns (ts: seq<Pred>)
    requires forall path :: path in b.paths ==> ObjectHook !in path
    requires Build(b, store, fuel).Success? && name in Build(b, store, fuel).value
    ensures |ts| == |b.paths| > 0
    ensures forall m :: 0 <= m < |ts| ==> FreshContribution(b, store, name, b.paths[m], ts[m])
    ensures Eval(env, Build(b, store, fuel).value[name], node) <==> exists m :: 0 <= m < |ts| && Eval(env, ts[m], node)
  {
    FileReaderTransparent(store, fuel, b.paths);
    ts := BuildNamesFresh(env, FileReader(store, fuel), Tests(b), SoundFor(store), ResolvesIn(store), b.paths, b.names, name, node);
    forall m | 0 <= m < |ts| ensures FreshContribution(b, store, name, b.paths[m], ts[m]) {
      FreshIsContribution(b, store, name, b.paths[m], ts[m]);
    }
  }

  /** A file that does not mention the name contributes the default test. */
  lemma AbsentNameGivesDefault(props: OMap<Json.Json>, name: string, d: Pred)
    requires !HasKey(props, name)
    ensures Compose(Impl(props), name, false, Some(d)) == Success(Some(d))
  {
    assert OrderedMaps.Get(props, name).None?;
    assert Count(Impl(props), name) == Success(0);
  }
}

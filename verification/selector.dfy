/** The single-pass selector (SelectorImpl, the Selector defaults) and its
  collecting consumer (SelectorImpl.CollectingConsumer).

  Each node goes, in node order, to the first name in the caller's order
  whose predicate holds and which can still take a value; a single-valued
  name takes one value, a multi-valued name collects an insertion-ordered
  set.  The consumer is a LinkedHashMap from names to collected entries plus
  a count of accepted values.
 */
module Selection {
  import opened Wrappers
  import opened OrderedMaps
  import opened Predicates
  import opened Meta

  /** The consumer's state: the collected entries and `valueCount`. */
  datatype Collector<V> = Collector(entries: OMap<Entry<V>>, valueCount: nat)

  function NewCollector<V>(): (c: Collector<V>)
    ensures c.valueCount == 0 && forall n :: !HasKey(c.entries, n)
  {
    Collector([], 0)
  }

  /** What the consumer keeps true: a map without repeated names, a set
      exactly under the multi-valued names, and no more names than values. */
  ghost predicate Valid<V>(c: Collector<V>, multi: string -> bool) {
    && Distinct(c.entries)
    && (forall n :: HasKey(c.entries, n) ==> Get(c.entries, n).value.Multi? == multi(n))
    && |c.entries| <= c.valueCount
  }

  /** `getNameCount()`: the size of the map. */
  function NameCount<V>(c: Collector<V>): (r: nat)
    ensures Distinct(c.entries) ==> r == |Keys(c.entries)|
  {
    DistinctKeysCount(c.entries);
    |c.entries|
  }

  lemma {:induction false} DistinctKeysCount<V>(m: OMap<V>)
    ensures Distinct(m) ==> |Keys(m)| == |m|
  {
    if |m| > 0 && Distinct(m) {
      KeysCons(m);
      assert Distinct(m[1..]);
      DistinctKeysCount(m[1..]);
      forall i | 0 <= i < |m[1..]| ensures m[1..][i].0 != m[0].0 {
        assert m[1..][i] == m[i + 1];
      }
    }
  }

  /** `isConsumed(name)`: the name has an entry. */
  predicate IsConsumed<V>(c: Collector<V>, name: string) {
    HasKey(c.entries, name)
  }

  /** `LinkedHashSet.add`: a value already present is absorbed. */
  function AddToSet<V(==)>(vs: seq<V>, v: V): (r: seq<V>)
    ensures v in r && forall x :: x in vs ==> x in r
    ensures forall x :: x in r ==> x in vs || x == v
    ensures v in vs ==> r == vs
    ensures v !in vs ==> r == vs + [v]
  {
    if v in vs then vs else vs + [v]
  }

  datatype Consumed<V> = Consumed(ok: bool, next: Collector<V>)

  /** `b` keeps every name of `a` at its position: names are only appended. */
  predicate NamesPrefix<V>(a: OMap<Entry<V>>, b: OMap<Entry<V>>) {
    |a| <= |b| && forall i :: 0 <= i < |a| ==> b[i].0 == a[i].0
  }

  /** `consume(name, value)` with the converted value: a first value starts
      a scalar or a one-element set; a later value joins a multi-valued
      name's set; a second value for a single-valued name is refused and
      changes nothing. */
  function Consume<V(==)>(c: Collector<V>, multi: string -> bool, name: string, v: V): (r: Consumed<V>)
    requires Valid(c, multi)
    ensures r.ok <==> multi(name) || !IsConsumed(c, name)
    ensures !r.ok ==> r.next == c
    ensures r.ok ==> r.next.valueCount == c.valueCount + 1
    ensures r.ok && !multi(name) ==> Get(r.next.entries, name) == Some(Single(v))
    ensures r.ok && multi(name) && !IsConsumed(c, name) ==> Get(r.next.entries, name) == Some(Multi([v]))
    ensures r.ok && multi(name) && IsConsumed(c, name) ==>
      Get(r.next.entries, name) == Some(Multi(AddToSet(Get(c.entries, name).value.values, v)))
    ensures forall n :: n != name ==> Get(r.next.entries, n) == Get(c.entries, n)
    ensures Valid(r.next, multi)
    ensures NamesPrefix(c.entries, r.next.entries)
    ensures r.ok && !IsConsumed(c, name) ==> r.next.entries == c.entries + [(name, Get(r.next.entries, name).value)]
  {
    match Get(c.entries, name)
    case None =>
      var e := if multi(name) then Multi([v]) else Single(v);
      var entries := Put(c.entries, name, e);
      Consumed(true, Collector(entries, c.valueCount + 1))
    case Some(cached) =>
      if multi(name) then
        var entries := Put(c.entries, name, Multi(AddToSet(cached.values, v)));
        Consumed(true, Collector(entries, c.valueCount + 1))
      else Consumed(false, c)
  }

  /** `flush()` of CollectIntoMap: an unmodifiable copy of the entries, in
      the consumer's own order (the order names were first filled), and an
      emptied consumer with `valueCount` back at 0. */
  function FlushMap<V>(c: Collector<V>): (r: (OMap<Entry<V>>, Collector<V>))
    ensures r.0 == c.entries
    ensures forall n :: Get(r.0, n) == Get(c.entries, n)
    ensures r.1 == NewCollector()
  {
    (c.entries, NewCollector())
  }

  /** `flush()` of CollectIntoMetadata: a view over a copy of the entries
      in which an absent name reads as null, and an emptied consumer. */
  function FlushMetadata(c: Collector<string>): (r: (Metadata, Collector<string>))
    ensures forall n :: !IsConsumed(c, n) ==> GetValues(r.0, n) == Success(None)
    ensures forall n, d :: !IsConsumed(c, n) ==> GetValue(r.0, n, d) == Success(d)
    ensures forall n :: IsConsumed(c, n) && Get(c.entries, n).value.Single? ==>
      GetValue(r.0, n, None) == Success(Some(Get(c.entries, n).value.value))
    ensures forall n :: IsConsumed(c, n) && Get(c.entries, n).value.Multi? ==>
      GetValues(r.0, n) == Success(Some(Get(c.entries, n).value.values))
    ensures r.1 == NewCollector()
  {
    (Snapshot(c.entries), NewCollector())
  }

  // ---------------------------------------------------------------------
  // select

  /** A name the inner loop does not skip: multi-valued, or not yet filled. */
  predicate Eligible<V>(c: Collector<V>, multi: string -> bool, name: string) {
    multi(name) || !IsConsumed(c, name)
  }

  /** The name takes the node: eligible, and its predicate holds. */
  predicate Fires<N, V>(env: Attrs<N>, tests: map<string, Pred>, c: Collector<V>, multi: string -> bool, name: string, node: N)
    requires name in tests
  {
    Eligible(c, multi, name) && Eval(env, tests[name], node)
  }

  /** The selector's fixed parts: `nodeTests` and the value test. */
  datatype Config<!N, V> = Config(env: Attrs<N>, tests: map<string, Pred>, multi: string -> bool, convert: (string, N) -> V)

  /** Every name the loop may evaluate has a predicate. */
  predicate Covers<N, V>(cfg: Config<N, V>, names: seq<string>) {
    forall n :: n in names ==> n in cfg.tests
  }

  /** The inner loop's scan from name `i` on: the index of the first name
      that fires, or `|names|` when none does. */
  function FirstFiring<N, V>(cfg: Config<N, V>, c: Collector<V>, names: seq<string>, node: N, i: nat): (k: nat)
    requires Covers(cfg, names) && i <= |names|
    ensures i <= k <= |names|
    ensures k < |names| ==> Fires(cfg.env, cfg.tests, c, cfg.multi, names[k], node)
    ensures forall j :: i <= j < k ==> !Fires(cfg.env, cfg.tests, c, cfg.multi, names[j], node)
    decreases |names| - i
  {
    if i == |names| || Fires(cfg.env, cfg.tests, c, cfg.multi, names[i], node) then i
    else FirstFiring(cfg, c, names, node, i + 1)
  }

  /** One node through the inner loop: the first name that fires consumes
      it and the loop breaks; when none fires nothing changes. */
  function Step<N, V(==)>(cfg: Config<N, V>, c: Collector<V>, names: seq<string>, node: N): (r: Collector<V>)
    requires Valid(c, cfg.multi) && Covers(cfg, names)
    ensures Valid(r, cfg.multi)
  {
    var k := FirstFiring(cfg, c, names, node, 0);
    if k == |names| then c else Consume(c, cfg.multi, names[k], cfg.convert(names[k], node)).next
  }

  /** The node goes to the name that fires first, and to no other: any
      firing name preceded only by names that do not fire is the one. */
  lemma FirstFiringIsUnique<N, V>(cfg: Config<N, V>, c: Collector<V>, names: seq<string>, node: N, k: nat)
    requires Covers(cfg, names) && k < |names|
    requires Fires(cfg.env, cfg.tests, c, cfg.multi, names[k], node)
    requires forall j :: 0 <= j < k ==> !Fires(cfg.env, cfg.tests, c, cfg.multi, names[j], node)
    ensures FirstFiring(cfg, c, names, node, 0) == k
  {
  }

  /** The whole pass over the nodes, in node order. */
  function SelectAll<N, V(==)>(cfg: Config<N, V>, c: Collector<V>, names: seq<string>, nodes: seq<N>): (r: Collector<V>)
    requires Valid(c, cfg.multi) && Covers(cfg, names)
    ensures Valid(r, cfg.multi)
  {
    if |nodes| == 0 then c
    else Step(cfg, SelectAll(cfg, c, names, nodes[..|nodes| - 1]), names, nodes[|nodes| - 1])
  }

  /** The inner loop over the names for one node: skip a filled
      single-valued name, consume at the first predicate that holds, break. */
  method ScanNames<N, V(==)>(cfg: Config<N, V>, c: Collector<V>, names: seq<string>, node: N) returns (next: Collector<V>)
    requires Valid(c, cfg.multi) && Covers(cfg, names)
    ensures next == Step(cfg, c, names, node)
  {
    var i := 0;
    while i < |names|
      invariant 0 <= i <= |names|
      invariant FirstFiring(cfg, c, names, node, 0) == FirstFiring(cfg, c, names, node, i)
    {
      var name := names[i];
      if !cfg.multi(name) && IsConsumed(c, name) {
        i := i + 1;
        continue;
      }
      if Eval(cfg.env, cfg.tests[name], node) {
        return Consume(c, cfg.multi, name, cfg.convert(name, node)).next;
      }
      i := i + 1;
    }
    return c;
  }

  /** `select(nodeIterator, consumer, names)` up to the final flush: the
      nested loops over nodes and names. */
  method Collect<N, V(==)>(cfg: Config<N, V>, c0: Collector<V>, names: seq<string>, nodes: seq<N>) returns (c: Collector<V>)
    requires Valid(c0, cfg.multi) && Covers(cfg, names)
    ensures c == SelectAll(cfg, c0, names, nodes)
  {
    c := c0;
    var k := 0;
    while k < |nodes|
      invariant 0 <= k <= |nodes|
      invariant Valid(c, cfg.multi)
      invariant c == SelectAll(cfg, c0, names, nodes[..k])
    {
      c := ScanNames(cfg, c, names, nodes[k]);
      assert nodes[..k + 1][..k] == nodes[..k];
      k := k + 1;
    }
    assert nodes[..k] == nodes;
  }

  /** `selectAsMap(nodeIterator, names)`: the pass, then the flush; the
      consumer is left empty for the next call. */
  method SelectAsMap<N, V(==)>(cfg: Config<N, V>, nodes: seq<N>, names: seq<string>) returns (r: OMap<Entry<V>>, after: Collector<V>)
    requires Covers(cfg, names)
    ensures r == SelectAll(cfg, NewCollector(), names, nodes).entries
    ensures after == NewCollector()
  {
    var c := Collect(cfg, NewCollector(), names, nodes);
    var flushed := FlushMap(c);
    r, after := flushed.0, flushed.1;
  }

  /** `selectAsMetadata(nodeIterator, names)`. */
  method SelectAsMetadata<N>(cfg: Config<N, string>, nodes: seq<N>, names: seq<string>) returns (r: Metadata, after: Collector<string>)
    requires Covers(cfg, names)
    ensures r == Snapshot(SelectAll(cfg, NewCollector(), names, nodes).entries)
    ensures after == NewCollector()
  {
    var c := Collect(cfg, NewCollector(), names, nodes);
    var flushed := FlushMetadata(c);
    r, after := flushed.0, flushed.1;
  }

  /** The array overload of `selectAsMap`: no names, the empty map. */
  method SelectAsMapOf<N, V(==)>(cfg: Config<N, V>, nodes: seq<N>, names: seq<string>) returns (r: OMap<Entry<V>>)
    requires Covers(cfg, names)
    ensures |names| == 0 ==> r == []
    ensures r == SelectAll(cfg, NewCollector(), names, nodes).entries
  {
    if |names| == 0 {
      NoNamesCollectNothing(cfg, NewCollector(), nodes);
      return [];
    }
    var after;
    r, after := SelectAsMap(cfg, nodes, names);
  }

  /** The array overload of `selectAsMetadata`: no names, `Metadata.EMPTY`. */
  method SelectAsMetadataOf<N>(cfg: Config<N, string>, nodes: seq<N>, names: seq<string>) returns (r: Metadata)
    requires Covers(cfg, names)
    ensures |names| == 0 ==> r == Empty
    ensures |names| > 0 ==> r == Snapshot(SelectAll(cfg, NewCollector(), names, nodes).entries)
  {
    if |names| == 0 {
      return Empty;
    }
    var after;
    r, after := SelectAsMetadata(cfg, nodes, names);
  }

  // ---------------------------------------------------------------------
  // Properties of the pass

  /** With no names the pass collects nothing, so the empty-array shortcut
      of `selectAsMap` agrees with the collection overload. */
  lemma {:induction false} NoNamesCollectNothing<N, V>(cfg: Config<N, V>, c: Collector<V>, nodes: seq<N>)
    requires Valid(c, cfg.multi)
    ensures SelectAll(cfg, c, [], nodes) == c
  {
    if |nodes| > 0 {
      NoNamesCollectNothing(cfg, c, nodes[..|nodes| - 1]);
    }
  }

  /** The empty-array shortcut of `selectAsMetadata` does not agree with the
      collection overload on `getValues`: `Metadata.EMPTY` answers the empty
      set, the flushed view answers null. */
  lemma NoNamesMetadataViewsDiffer<N>(cfg: Config<N, string>, nodes: seq<N>, name: string)
    ensures SelectAll(cfg, NewCollector(), [], nodes) == NewCollector()
    ensures GetValues(Empty, name) == Success(Some([]))
    ensures GetValues(Snapshot(SelectAll(cfg, NewCollector(), [], nodes).entries), name) == Success(None)
  {
    NoNamesCollectNothing(cfg, NewCollector(), nodes);
  }

  /** A name outside the requested names, and a single-valued name already
      filled, keep their entry through the whole pass. */
  lemma {:induction false} UntouchedNames<N, V>(cfg: Config<N, V>, c: Collector<V>, names: seq<string>, nodes: seq<N>, n: string)
    requires Valid(c, cfg.multi) && Covers(cfg, names)
    requires n !in names || (!cfg.multi(n) && IsConsumed(c, n))
    ensures Get(SelectAll(cfg, c, names, nodes).entries, n) == Get(c.entries, n)
  {
    if |nodes| > 0 {
      var prev := SelectAll(cfg, c, names, nodes[..|nodes| - 1]);
      UntouchedNames(cfg, c, names, nodes[..|nodes| - 1], n);
      if n in names {
        assert HasKey(prev.entries, n);
      }
      var k := FirstFiring(cfg, prev, names, nodes[|nodes| - 1], 0);
      if k < |names| {
        assert names[k] != n;
      }
    }
  }

  /** The map's order is the order in which names were first filled: the
      names collected after the first `k` nodes keep their positions to the
      end of the pass. */
  lemma {:induction false} FillOrder<N, V>(cfg: Config<N, V>, c: Collector<V>, names: seq<string>, nodes: seq<N>, k: nat)
    requires Valid(c, cfg.multi) && Covers(cfg, names) && k <= |nodes|
    ensures NamesPrefix(SelectAll(cfg, c, names, nodes[..k]).entries, SelectAll(cfg, c, names, nodes).entries)
  {
    if k == |nodes| {
      assert nodes[..k] == nodes;
    } else {
      var init := nodes[..|nodes| - 1];
      assert init[..k] == nodes[..k];
      FillOrder(cfg, c, names, init, k);
      var a := SelectAll(cfg, c, names, nodes[..k]).entries;
      var mid := SelectAll(cfg, c, names, init).entries;
      var last := SelectAll(cfg, c, names, nodes).entries;
      assert NamesPrefix(mid, last);
      forall i | 0 <= i < |a| ensures last[i].0 == a[i].0 {
        assert mid[i].0 == a[i].0;
      }
    }
  }

  /** Each node adds at most one value: `valueCount` grows by at most the
      number of nodes, and never falls below the number of names. */
  lemma {:induction false} ValueCountBound<N, V>(cfg: Config<N, V>, c: Collector<V>, names: seq<string>, nodes: seq<N>)
    requires Valid(c, cfg.multi) && Covers(cfg, names)
    ensures c.valueCount <= SelectAll(cfg, c, names, nodes).valueCount <= c.valueCount + |nodes|
    ensures NameCount(SelectAll(cfg, c, names, nodes)) <= SelectAll(cfg, c, names, nodes).valueCount
  {
    if |nodes| > 0 {
      ValueCountBound(cfg, c, names, nodes[..|nodes| - 1]);
    }
  }
}

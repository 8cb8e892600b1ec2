/** Read-only views of collected metadata (Metadata, MetadataImpl,
  MetadataComposite and the view CollectIntoMetadata.flush returns), the
  fall-back rules over several names or several delegates, the comma
  joiner and the strict locale parser.

  Java null is `None`; a thrown exception is a `Failure`.
 */
module Meta {
  import opened Wrappers
  import opened OrderedMaps

  /** A collected value: one value, or an insertion-ordered set of values
      (a LinkedHashSet, so no value occurs twice). */
  datatype Entry<V> = Single(value: V) | Multi(values: seq<V>)

  datatype Metadata =
    | Empty                                    // Metadata.EMPTY
    | Impl(values: OMap<Entry<string>>)        // MetadataImpl over a fixed map
    | Snapshot(values: OMap<Entry<string>>)    // the anonymous view of CollectIntoMetadata.flush
    | Composite(delegates: seq<Metadata>)      // MetadataComposite

  /** A stored entry read through the cast to String. */
  function AsValue(e: Entry<string>): (r: Result<string>)
    ensures r.Success? <==> e.Single?
    ensures e.Single? ==> r.value == e.value
  {
    match e
    case Single(s) => Success(s)
    case Multi(_) => Failure(ClassCast("a Set read as a String"))
  }

  /** A stored entry read through the cast to Set. */
  function AsValues(e: Entry<string>): (r: Result<seq<string>>)
    ensures r.Success? <==> e.Multi?
    ensures e.Multi? ==> r.value == e.values
  {
    match e
    case Multi(vs) => Success(vs)
    case Single(_) => Failure(ClassCast("a String read as a Set"))
  }

  // ---------------------------------------------------------------------
  // First non-null and first non-empty answers

  /** No answer before index `k` is null-free: all are `Success(None)`. */
  predicate NullsBefore<T>(a: seq<Result<Option<T>>>, k: int)
    requires k <= |a|
  {
    forall i :: 0 <= i < k ==> a[i] == Success(None)
  }

  /** The loop `value = next(); if (value != null) break;` followed by
      `value == null ? outputIfNone : value`, over answers in order. */
  function FirstValue<T>(a: seq<Result<Option<T>>>, dflt: Option<T>): (r: Result<Option<T>>)
    ensures NullsBefore(a, |a|) ==> r == Success(dflt)
    ensures forall k :: 0 <= k < |a| && NullsBefore(a, k) && a[k] != Success(None) ==> r == a[k]
  {
    if |a| == 0 then Success(dflt)
    else if a[0] != Success(None) then a[0]
    else
      var r := FirstValue(a[1..], dflt);
      assert forall k :: 1 <= k <= |a| && NullsBefore(a, k) ==> NullsBefore(a[1..], k - 1);
      r
  }

  /** An answer a set-valued loop goes past: null or the empty set. */
  predicate Blank<T>(x: Result<Option<seq<T>>>) {
    x.Success? && (x.value.None? || |x.value.value| == 0)
  }

  predicate BlanksBefore<T>(a: seq<Result<Option<seq<T>>>>, k: int)
    requires k <= |a|
  {
    forall i :: 0 <= i < k ==> Blank(a[i])
  }

  /** The loop `values = next(); if (values != null && !values.isEmpty())
      break;` started from `init`: the first non-empty answer, else the
      last answer, else `init`. */
  function FirstNonEmpty<T>(a: seq<Result<Option<seq<T>>>>, init: Option<seq<T>>): (r: Result<Option<seq<T>>>)
    ensures |a| == 0 ==> r == Success(init)
    ensures forall k :: 0 <= k < |a| && BlanksBefore(a, k) && !Blank(a[k]) ==> r == a[k]
    ensures |a| > 0 && BlanksBefore(a, |a|) ==> r == a[|a| - 1]
  {
    if |a| == 0 then Success(init)
    else if !Blank(a[0]) || |a| == 1 then a[0]
    else
      var r := FirstNonEmpty(a[1..], init);
      assert forall k :: 1 <= k <= |a| && BlanksBefore(a, k) ==> BlanksBefore(a[1..], k - 1);
      r
  }

  // ---------------------------------------------------------------------
  // getValue / getValues

  /** `getValue(name, outputIfNone)`. */
  function GetValue(m: Metadata, name: string, dflt: Option<string>): (r: Result<Option<string>>)
    ensures m.Empty? ==> r == Success(dflt)
    ensures (m.Impl? || m.Snapshot?) && !HasKey(m.values, name) ==> r == Success(dflt)
    ensures (m.Impl? || m.Snapshot?) && HasKey(m.values, name) ==>
      (r.Success? <==> Get(m.values, name).value.Single?)
    ensures (m.Impl? || m.Snapshot?) && r.Success? && HasKey(m.values, name) ==>
      r.value == Some(Get(m.values, name).value.value)
    decreases m, 1
  {
    match m
    case Empty => Success(dflt)
    case Impl(vs) =>
      (match Get(vs, name)
       case None => Success(dflt)
       case Some(e) => var s :- AsValue(e); Success(Some(s)))
    case Snapshot(vs) =>
      (match Get(vs, name)
       case None => Success(dflt)
       case Some(e) => var s :- AsValue(e); Success(Some(s)))
    case Composite(ds) => FirstValue(DelegateValues(m, name), dflt)
  }

  /** Each delegate's `getValue(name, null)`, in delegate order. */
  function DelegateValues(m: Metadata, name: string): (a: seq<Result<Option<string>>>)
    requires m.Composite?
    decreases m, 0
  {
    seq(|m.delegates|, i requires 0 <= i < |m.delegates| => GetValue(m.delegates[i], name, None))
  }

  /** `getValues(name)`. */
  function GetValues(m: Metadata, name: string): (r: Result<Option<seq<string>>>)
    ensures m.Empty? ==> r == Success(Some([]))
    ensures m.Impl? && !HasKey(m.values, name) ==> r == Success(Some([]))
    ensures m.Snapshot? && !HasKey(m.values, name) ==> r == Success(None)
    ensures (m.Impl? || m.Snapshot?) && HasKey(m.values, name) ==>
      (r.Success? <==> Get(m.values, name).value.Multi?)
    ensures (m.Impl? || m.Snapshot?) && r.Success? && HasKey(m.values, name) ==>
      r.value == Some(Get(m.values, name).value.values)
    decreases m, 1
  {
    match m
    case Empty => Success(Some([]))
    case Impl(vs) =>
      (match Get(vs, name)
       case None => Success(Some([]))
       case Some(e) => var s :- AsValues(e); Success(Some(s)))
    case Snapshot(vs) =>
      (match Get(vs, name)
       case None => Success(None)
       case Some(e) => var s :- AsValues(e); Success(Some(s)))
    case Composite(ds) => FirstNonEmpty(DelegateSets(m, name), None)
  }

  /** Each delegate's `getValues(name)`, in delegate order. */
  function DelegateSets(m: Metadata, name: string): (a: seq<Result<Option<seq<string>>>>)
    requires m.Composite?
    decreases m, 0
  {
    seq(|m.delegates|, i requires 0 <= i < |m.delegates| => GetValues(m.delegates[i], name))
  }

  /** A composite answers `getValue` from the first delegate with a
      non-null value, in delegate order. */
  lemma CompositeGetValueFirst(ds: seq<Metadata>, name: string, dflt: Option<string>, k: nat)
    requires k < |ds|
    requires forall i :: 0 <= i < k ==> GetValue(ds[i], name, None) == Success(None)
    requires GetValue(ds[k], name, None) != Success(None)
    ensures GetValue(Composite(ds), name, dflt) == GetValue(ds[k], name, None)
  {
    var a := DelegateValues(Composite(ds), name);
    assert NullsBefore(a, k);
  }

  /** With no delegate holding a value, a composite gives the default. */
  lemma CompositeGetValueNone(ds: seq<Metadata>, name: string, dflt: Option<string>)
    requires forall i :: 0 <= i < |ds| ==> GetValue(ds[i], name, None) == Success(None)
    ensures GetValue(Composite(ds), name, dflt) == Success(dflt)
  {
    var a := DelegateValues(Composite(ds), name);
    assert NullsBefore(a, |a|);
  }

  /** A composite answers `getValues` from the first delegate with a
      non-empty set. */
  lemma CompositeGetValuesFirst(ds: seq<Metadata>, name: string, k: nat)
    requires k < |ds|
    requires forall i :: 0 <= i < k ==> Blank(GetValues(ds[i], name))
    requires !Blank(GetValues(ds[k], name))
    ensures GetValues(Composite(ds), name) == GetValues(ds[k], name)
  {
    var a := DelegateSets(Composite(ds), name);
    assert BlanksBefore(a, k);
  }

  /** When no delegate has a non-empty set, the last delegate's answer
      stands, and null when there are no delegates. */
  lemma CompositeGetValuesBlank(ds: seq<Metadata>, name: string)
    requires forall i :: 0 <= i < |ds| ==> Blank(GetValues(ds[i], name))
    ensures |ds| == 0 ==> GetValues(Composite(ds), name) == Success(None)
    ensures |ds| > 0 ==> GetValues(Composite(ds), name) == GetValues(ds[|ds| - 1], name)
  {
    var a := DelegateSets(Composite(ds), name);
    assert BlanksBefore(a, |a|);
  }

  // ---------------------------------------------------------------------
  // The defaults over several candidate names

  /** `getValue(nameOptions, outputIfNone)`: the first option with a value. */
  function GetValueOf(m: Metadata, options: seq<string>, dflt: Option<string>): (r: Result<Option<string>>)
    ensures forall k :: (0 <= k < |options| && (forall i :: 0 <= i < k ==> GetValue(m, options[i], None) == Success(None))
      && GetValue(m, options[k], None) != Success(None)) ==> r == GetValue(m, options[k], None)
    ensures (forall i :: 0 <= i < |options| ==> GetValue(m, options[i], None) == Success(None)) ==> r == Success(dflt)
  {
    var a := seq(|options|, i requires 0 <= i < |options| => GetValue(m, options[i], None));
    assert forall i :: 0 <= i < |options| ==> a[i] == GetValue(m, options[i], None);
    FirstValue(a, dflt)
  }

  /** `getValues(option)` for each name option, in order. */
  function OptionSets(m: Metadata, options: seq<string>): (a: seq<Result<Option<seq<string>>>>)
    ensures |a| == |options|
    ensures forall i :: 0 <= i < |options| ==> a[i] == GetValues(m, options[i])
  {
    seq(|options|, i requires 0 <= i < |options| => GetValues(m, options[i]))
  }

  /** `getValues(nameOptions)`: the first option with a non-empty set, else
      the last option's answer, else the empty set. */
  function GetValuesOf(m: Metadata, options: seq<string>): (r: Result<Option<seq<string>>>)
    ensures |options| == 0 ==> r == Success(Some([]))
  {
    FirstNonEmpty(OptionSets(m, options), Some([]))
  }

  /** The first option whose set is non-empty decides `getValues`. */
  lemma GetValuesOfFirst(m: Metadata, options: seq<string>, k: nat)
    requires k < |options|
    requires forall i :: 0 <= i < k ==> Blank(GetValues(m, options[i]))
    requires !Blank(GetValues(m, options[k]))
    ensures GetValuesOf(m, options) == GetValues(m, options[k])
  {
    assert BlanksBefore(OptionSets(m, options), k);
  }

  /** With every option blank, the last option's answer stands. */
  lemma GetValuesOfBlank(m: Metadata, options: seq<string>)
    requires |options| > 0
    requires forall i :: 0 <= i < |options| ==> Blank(GetValues(m, options[i]))
    ensures GetValuesOf(m, options) == GetValues(m, options[|options| - 1])
  {
    assert BlanksBefore(OptionSets(m, options), |options|);
  }

  // ---------------------------------------------------------------------
  // toString(Collection, outputIfNone)

  /** The elements separated by ", ". */
  function Joined(xs: seq<string>): string
    requires |xs| > 0
  {
    if |xs| == 1 then xs[0] else Joined(xs[..|xs| - 1]) + ", " + xs[|xs| - 1]
  }

  /** Joining keeps every element and adds one separator between neighbours. */
  lemma {:induction false} JoinedLength(xs: seq<string>)
    requires |xs| > 0
    ensures |Joined(xs)| == TotalLength(xs) + 2 * (|xs| - 1)
  {
    if |xs| > 1 {
      JoinedLength(xs[..|xs| - 1]);
      assert xs[..|xs| - 1] + [xs[|xs| - 1]] == xs;
      TotalLengthSnoc(xs[..|xs| - 1], xs[|xs| - 1]);
    }
  }

  function TotalLength(xs: seq<string>): nat {
    if |xs| == 0 then 0 else |xs[0]| + TotalLength(xs[1..])
  }

  lemma {:induction false} TotalLengthSnoc(xs: seq<string>, x: string)
    ensures TotalLength(xs + [x]) == TotalLength(xs) + |x|
  {
    if |xs| > 0 {
      assert (xs + [x])[1..] == xs[1..] + [x];
      TotalLengthSnoc(xs[1..], x);
    }
  }

  /** `toString(c, outputIfNone)`: the default for a null or empty
      collection, otherwise the elements joined with ", ". */
  method ToString(c: Option<seq<string>>, dflt: Option<string>) returns (r: Option<string>)
    ensures c.None? || |c.value| == 0 ==> r == dflt
    ensures c.Some? && |c.value| > 0 ==> r == Some(Joined(c.value))
  {
    if c.None? || |c.value| == 0 {
      return dflt;
    }
    var xs := c.value;
    var b := "";
    var i := 0;
    while i < |xs|
      invariant 0 <= i <= |xs|
      invariant i == 0 ==> b == ""
      invariant 0 < i ==> b == Joined(xs[..i]) + (if i < |xs| then ", " else "")
    {
      assert xs[..i + 1][..i] == xs[..i];
      b := b + xs[i];
      if i < |xs| - 1 {
        b := b + ", ";
      }
      i := i + 1;
    }
    assert xs[..i] == xs;
    assert b == Joined(xs) + "";
    assert Joined(xs) + "" == Joined(xs);
    return Some(b);
  }

  /** `combineValues(name, outputIfNone)`, also `getAsSingle`: the set
      under `name` joined into one string. */
  method CombineValues(m: Metadata, name: string, dflt: Option<string>) returns (r: Result<Option<string>>)
    ensures GetValues(m, name).Failure? ==> r.Failure?
    ensures GetValues(m, name).Success? && Blank(GetValues(m, name)) ==> r == Success(dflt)
    ensures !Blank(GetValues(m, name)) && GetValues(m, name).Success? ==>
      r == Success(Some(Joined(GetValues(m, name).value.value)))
  {
    var vs := GetValues(m, name);
    if vs.Failure? {
      return Failure(vs.error);
    }
    var s := ToString(vs.value, dflt);
    return Success(s);
  }

  // ---------------------------------------------------------------------
  // toLocale

  datatype Locale = Locale(language: string, country: string, variant: string)

  predicate IsLower(c: char) { 'a' <= c <= 'z' }
  predicate IsUpper(c: char) { 'A' <= c <= 'Z' }

  /** `toLocale(str)`: "ll", "ll_CC", "ll__V" or "ll_CC_V", checked
      strictly; a ParseException carries the offset 0, 2, 4 or 5 where the
      check failed. */
  function ToLocale(s: string): (r: Result<Locale>)
    ensures r.Failure? ==> r.error.InvalidLocale? && r.error.offset in {0, 2, 4, 5}
    ensures |s| != 2 && |s| != 5 && |s| < 7 ==> r == Failure(InvalidLocale(0))
    ensures r.Success? ==> |s| >= 2 && IsLower(s[0]) && IsLower(s[1]) && r.value.language == s[..2]
    ensures |s| == 2 && IsLower(s[0]) && IsLower(s[1]) ==> r == Success(Locale(s, "", ""))
  {
    var len := |s|;
    if len != 2 && len != 5 && len < 7 then Failure(InvalidLocale(0))
    else if !IsLower(s[0]) || !IsLower(s[1]) then Failure(InvalidLocale(0))
    else if len == 2 then Success(Locale(s, "", ""))
    else if s[2] != '_' then Failure(InvalidLocale(2))
    else if s[3] == '_' then Success(Locale(s[..2], "", s[4..]))
    else if !IsUpper(s[3]) || !IsUpper(s[4]) then Failure(InvalidLocale(4))
    else if len == 5 then Success(Locale(s[..2], s[3..5], ""))
    else if s[5] != '_' then Failure(InvalidLocale(5))
    else Success(Locale(s[..2], s[3..5], s[6..]))
  }

  /** The locales `toLocale` can produce. */
  predicate Parsable(l: Locale) {
    && |l.language| == 2 && IsLower(l.language[0]) && IsLower(l.language[1])
    && (|| (l.country == "" && l.variant == "")
        || (l.country == "" && (|l.variant| == 1 || |l.variant| >= 3))
        || (|l.country| == 2 && IsUpper(l.country[0]) && IsUpper(l.country[1])))
  }

  /** The locale written back in the underscore form `toLocale` reads. */
  function FormatLocale(l: Locale): string {
    if l.country == "" && l.variant == "" then l.language
    else if l.variant == "" then l.language + "_" + l.country
    else l.language + "_" + l.country + "_" + l.variant
  }

  /** Every parsable locale survives formatting and parsing. */
  lemma ToLocaleOfFormat(l: Locale)
    requires Parsable(l)
    ensures ToLocale(FormatLocale(l)) == Success(l)
  {
    var s := FormatLocale(l);
    assert s[..2] == l.language;
    if l.country != "" {
      assert s[3..5] == l.country;
      if l.variant != "" {
        assert s[6..] == l.variant;
      }
    } else if l.variant != "" {
      assert s[4..] == l.variant;
    }
  }

  /** Whatever `toLocale` accepts is a parsable locale written in exactly
      that form. */
  lemma FormatOfToLocale(s: string)
    requires ToLocale(s).Success?
    ensures Parsable(ToLocale(s).value)
    ensures FormatLocale(ToLocale(s).value) == s
  {
    var l := ToLocale(s).value;
    if |s| == 2 {
    } else if s[3] == '_' {
      assert s == s[..2] + "_" + "" + "_" + s[4..];
    } else if |s| == 5 {
      assert s == s[..2] + "_" + s[3..5];
    } else {
      assert s == s[..2] + "_" + s[3..5] + "_" + s[6..];
    }
  }

  /** `getLocale(name, outputIfNone)`: the default when no value is stored. */
  function GetLocale(m: Metadata, name: string, dflt: Option<Locale>): (r: Result<Option<Locale>>)
    ensures GetValue(m, name, None) == Success(None) ==> r == Success(dflt)
    ensures GetValue(m, name, None).Success? && GetValue(m, name, None).value.Some? ==>
      (r.Success? <==> ToLocale(GetValue(m, name, None).value.value).Success?)
    ensures GetValue(m, name, None).Success? && GetValue(m, name, None).value.Some? && r.Success? ==>
      r.value == Some(ToLocale(GetValue(m, name, None).value.value).value)
    ensures GetValue(m, name, None).Failure? ==> r.Failure?
  {
    var v :- GetValue(m, name, None);
    match v
    case None => Success(dflt)
    case Some(s) => var l :- ToLocale(s); Success(Some(l))
  }

  /** `getLocale(nameOptions, outputIfNone)`. */
  function GetLocaleOf(m: Metadata, options: seq<string>, dflt: Option<Locale>): (r: Result<Option<Locale>>)
    ensures GetValueOf(m, options, None) == Success(None) ==> r == Success(dflt)
    ensures GetValueOf(m, options, None).Success? && GetValueOf(m, options, None).value.Some? ==>
      (r.Success? <==> ToLocale(GetValueOf(m, options, None).value.value).Success?)
    ensures GetValueOf(m, options, None).Success? && GetValueOf(m, options, None).value.Some? && r.Success? ==>
      r.value == Some(ToLocale(GetValueOf(m, options, None).value.value).value)
    ensures GetValueOf(m, options, None).Failure? ==> r.Failure?
  {
    var v :- GetValueOf(m, options, None);
    match v
    case None => Success(dflt)
    case Some(s) => var l :- ToLocale(s); Success(Some(l))
  }

  /** A locale stored in the form `toLocale` reads comes back as that very
      locale. */
  lemma GetLocaleOfStored(m: Metadata, name: string, dflt: Option<Locale>, l: Locale)
    requires Parsable(l)
    requires GetValue(m, name, None) == Success(Some(FormatLocale(l)))
    ensures GetLocale(m, name, dflt) == Success(Some(l))
  {
    ToLocaleOfFormat(l);
  }

  /** A locale read from a stored value is one whose form is that value. */
  lemma GetLocaleFormatsBack(m: Metadata, name: string, dflt: Option<Locale>)
    requires GetValue(m, name, None).Success? && GetValue(m, name, None).value.Some?
    requires GetLocale(m, name, dflt).Success?
    ensures GetLocale(m, name, dflt).value.Some?
    ensures FormatLocale(GetLocale(m, name, dflt).value.value) == GetValue(m, name, None).value.value
  {
    FormatOfToLocale(GetValue(m, name, None).value.value);
  }

  // ---------------------------------------------------------------------
  // toMap

  /** The map an ordered map stands for. */
  function AsMap<V>(m: OMap<V>): (r: map<string, V>)
    ensures r.Keys == Keys(m)
    ensures forall k :: k in r ==> Some(r[k]) == Get(m, k)
  {
    map k | k in Keys(m) :: Get(m, k).value
  }

  /** `toMap()`, declared by MetadataImpl and MetadataComposite only; None
      for the views that do not have it. */
  function ToMap(m: Metadata): Option<map<string, Entry<string>>>
    decreases m, 1
  {
    match m
    case Impl(vs) => Some(AsMap(vs))
    case Composite(ds) => MergeFrom(m, 0, map[])
    case _ => None
  }

  /** `map.putAll(delegate.toMap())` for delegates `j..`. */
  function MergeFrom(m: Metadata, j: nat, acc: map<string, Entry<string>>): Option<map<string, Entry<string>>>
    requires m.Composite? && j <= |m.delegates|
    decreases m, 0, |m.delegates| - j
  {
    if j == |m.delegates| then Some(acc)
    else
      match ToMap(m.delegates[j])
      case None => None
      case Some(d) => MergeFrom(m, j + 1, acc + d)
  }

  /** A fixed map's view hands back exactly its entries. */
  lemma ImplToMap(vs: OMap<Entry<string>>, k: string)
    ensures ToMap(Impl(vs)).Some?
    ensures k in ToMap(Impl(vs)).value <==> HasKey(vs, k)
    ensures HasKey(vs, k) ==> ToMap(Impl(vs)).value[k] == Get(vs, k).value
  {
  }

  /** `md.toMap()` exists and has the key `k`. */
  predicate MapHas(md: Metadata, k: string) {
    ToMap(md).Some? && k in ToMap(md).value
  }

  /** A composite's map exists only when every delegate's map does. */
  lemma {:induction false} MergeFromNeedsAll(m: Metadata, j: nat, acc: map<string, Entry<string>>)
    requires m.Composite? && j <= |m.delegates|
    requires MergeFrom(m, j, acc).Some?
    ensures forall i :: j <= i < |m.delegates| ==> ToMap(m.delegates[i]).Some?
    decreases |m.delegates| - j
  {
    if j < |m.delegates| {
      MergeFromNeedsAll(m, j + 1, acc + ToMap(m.delegates[j]).value);
    }
  }

  /** A key is in a composite's map iff it was already there or some
      delegate has it. */
  lemma {:induction false} MergeFromKeys(m: Metadata, j: nat, acc: map<string, Entry<string>>, k: string)
    requires m.Composite? && j <= |m.delegates|
    requires MergeFrom(m, j, acc).Some?
    ensures k in MergeFrom(m, j, acc).value <==> (k in acc || exists i :: j <= i < |m.delegates| && MapHas(m.delegates[i], k))
    decreases |m.delegates| - j
  {
    if j < |m.delegates| {
      MergeFromKeys(m, j + 1, acc + ToMap(m.delegates[j]).value, k);
    }
  }

  /** A key no delegate has keeps the value it had. */
  lemma {:induction false} MergeFromKeeps(m: Metadata, j: nat, acc: map<string, Entry<string>>, k: string)
    requires m.Composite? && j <= |m.delegates|
    requires MergeFrom(m, j, acc).Some? && k in acc
    requires forall i :: j <= i < |m.delegates| ==> !MapHas(m.delegates[i], k)
    ensures k in MergeFrom(m, j, acc).value && MergeFrom(m, j, acc).value[k] == acc[k]
    decreases |m.delegates| - j
  {
    if j < |m.delegates| {
      MergeFromKeeps(m, j + 1, acc + ToMap(m.delegates[j]).value, k);
    }
  }

  /** Later delegates win in a composite's map: a key takes the value of the
      last delegate that has it. */
  lemma {:induction false} MergeFromLastWins(m: Metadata, j: nat, acc: map<string, Entry<string>>, k: string, i: nat)
    requires m.Composite? && j <= i < |m.delegates|
    requires MergeFrom(m, j, acc).Some?
    requires MapHas(m.delegates[i], k)
    requires forall i' :: i < i' < |m.delegates| ==> !MapHas(m.delegates[i'], k)
    ensures k in MergeFrom(m, j, acc).value && MergeFrom(m, j, acc).value[k] == ToMap(m.delegates[i]).value[k]
    decreases |m.delegates| - j
  {
    var d := ToMap(m.delegates[j]).value;
    if j < i {
      MergeFromLastWins(m, j + 1, acc + d, k, i);
    } else {
      MergeFromKeeps(m, j + 1, acc + d, k);
    }
  }

  /** A composite has a map when every delegate has one. */
  lemma {:induction false} MergeFromSome(m: Metadata, j: nat, acc: map<string, Entry<string>>)
    requires m.Composite? && j <= |m.delegates|
    requires forall i :: j <= i < |m.delegates| ==> ToMap(m.delegates[i]).Some?
    ensures MergeFrom(m, j, acc).Some?
    decreases |m.delegates| - j
  {
    if j < |m.delegates| {
      MergeFromSome(m, j + 1, acc + ToMap(m.delegates[j]).value);
    }
  }

  /** A composite over delegates whose maps are all empty has the empty map. */
  lemma MergeOfEmpty(ds: seq<Metadata>)
    requires forall i :: 0 <= i < |ds| ==> ToMap(ds[i]) == Some(map[])
    ensures ToMap(Composite(ds)) == Some(map[])
  {
    var m := Composite(ds);
    MergeFromSome(m, 0, map[]);
    forall k ensures k !in MergeFrom(m, 0, map[]).value {
      MergeFromKeys(m, 0, map[], k);
    }
  }
}

/** Collectors: CollectIntoMap over a LinkedHashMap buffer, and the getter
  and setter names CollectIntoBean derives from a property name.
 */
module Collectors {
  import opened Wrappers
  import opened Strings
  import opened OrderedMaps

  /** CollectIntoMap: every operation goes straight to the buffer. */
  datatype MapCollector<V> = MapCollector(buffer: OMap<V>)

  /** `toMap()`: a collector over a new, empty LinkedHashMap. */
  function ToMap<V>(): (c: MapCollector<V>)
    ensures forall k :: Get(c.buffer, k) == None
    ensures Distinct(c.buffer)
  {
    MapCollector([])
  }

  /** `put(propertyName, value)`. */
  function PutValue<V>(c: MapCollector<V>, name: string, value: V): (r: MapCollector<V>)
    ensures Get(r.buffer, name) == Some(value)
    ensures forall k :: k != name ==> Get(r.buffer, k) == Get(c.buffer, k)
    ensures Distinct(c.buffer) ==> Distinct(r.buffer)
  {
    MapCollector(Put(c.buffer, name, value))
  }

  /** `getOrDefault(propertyName, valueIfNone)`. */
  function GetOrDefaultValue<V>(c: MapCollector<V>, name: string, d: V): (r: V)
    ensures !HasKey(c.buffer, name) ==> r == d
    ensures HasKey(c.buffer, name) ==> Some(r) == Get(c.buffer, name)
  {
    GetOrDefault(c.buffer, name, d)
  }

  /** `getOrDefault` after `put` under the same name gives the value put. */
  lemma GetAfterPut<V>(c: MapCollector<V>, name: string, value: V, d: V)
    ensures GetOrDefaultValue(PutValue(c, name, value), name, d) == value
  {
  }

  /** `buildResult()`: the buffer itself. */
  function BuildResult<V>(c: MapCollector<V>): OMap<V> {
    c.buffer
  }

  /** Several puts in a row, in order. */
  function PutEach<V>(c: MapCollector<V>, puts: OMap<V>): (r: MapCollector<V>)
    decreases |puts|
  {
    if |puts| == 0 then c else PutEach(PutValue(c, puts[0].0, puts[0].1), puts[1..])
  }

  /** The result reflects every put made before it: a name holds the last
      value put under it, and a name never put keeps what the buffer held. */
  lemma {:induction false} BuildResultAfterPuts<V>(c: MapCollector<V>, puts: OMap<V>, k: string)
    ensures Get(BuildResult(PutEach(c, puts)), k) ==
      (if HasKey(puts, k) then Some(LastValue(puts, k)) else Get(c.buffer, k))
    decreases |puts|
  {
    if |puts| > 0 {
      HasKeyCons(puts, k);
      BuildResultAfterPuts(PutValue(c, puts[0].0, puts[0].1), puts[1..], k);
    }
  }

  // ---------------------------------------------------------------------
  // buildMethodName

  /** `Character.toUpperCase` on an ASCII code point. */
  function ToUpper(c: char): char {
    if 'a' <= c <= 'z' then (c as int - 32) as char else c
  }

  /** `Character.toLowerCase` on an ASCII code point. */
  function ToLower(c: char): char {
    if 'A' <= c <= 'Z' then (c as int + 32) as char else c
  }

  /** `buildMethodName(prefix, key)` as written: `toUpperCase(int)` returns
      an int, so string concatenation appends its decimal digits rather than
      the upper-cased character; an empty key throws at `codePointAt(0)`. */
  function BuildMethodNameAsWritten(prefix: string, key: string): (r: Result<string>)
    ensures |key| == 0 <==> r == Failure(IndexOutOfBounds)
    ensures r.Success? ==> StartsWith(r.value, prefix) && EndsWith(r.value, key[1..])
    ensures r.Success? ==> |r.value| > |prefix| + |key| - 1
    ensures r.Success? ==> forall i :: |prefix| <= i < |r.value| - (|key| - 1) ==> '0' <= r.value[i] <= '9'
    ensures r.Success? ==> DecimalValue(r.value[|prefix|..|r.value| - (|key| - 1)]) == ToUpper(key[0]) as nat
  {
    if |key| == 0 then Failure(IndexOutOfBounds)
    else
      var digits := NatToDecimal(ToUpper(key[0]) as nat);
      var r := prefix + digits + key[1..];
      assert r[..|prefix|] == prefix;
      assert r[|r| - |key[1..]|..] == key[1..];
      assert r[|prefix|..|r| - (|key| - 1)] == digits;
      DecimalRoundTrip(ToUpper(key[0]) as nat);
      Success(r)
  }

  /** The getter name for "title" comes out as "get84itle" ('T' is 84). */
  lemma TitleGetterAsWritten()
    ensures BuildMethodNameAsWritten("get", "title") == Success("get84itle")
  {
    assert ToUpper('t') as nat == 84;
    assert NatToDecimal(84) == NatToDecimal(8) + [DigitChar(4)] == "84";
    assert "title"[1..] == "itle";
    assert "get" + "84" + "itle" == "get84itle";
  }

  /** The written form never names a bean accessor: where the accessor has
      the upper-cased first letter, it has a digit. */
  lemma AsWrittenIsNotAccessor(prefix: string, key: string)
    requires |key| > 0 && 'a' <= key[0] <= 'z'
    ensures BuildMethodNameAsWritten(prefix, key).Success?
    ensures BuildMethodName(prefix, key).Success?
    ensures BuildMethodNameAsWritten(prefix, key) != BuildMethodName(prefix, key)
  {
    var w := BuildMethodNameAsWritten(prefix, key).value;
    var b := BuildMethodName(prefix, key).value;
    assert '0' <= w[|prefix|] <= '9';
    assert 'A' <= b[|prefix|] <= 'Z';
  }

  /** `buildMethodName` as evidently intended: the prefix, then the key with
      its first character upper-cased, as the JavaBeans accessor names are
      formed ("get" + "title" is "getTitle"). */
  function BuildMethodName(prefix: string, key: string): (r: Result<string>)
    ensures |key| == 0 <==> r == Failure(IndexOutOfBounds)
    ensures r.Success? ==> |r.value| == |prefix| + |key|
    ensures r.Success? ==> StartsWith(r.value, prefix)
    ensures r.Success? ==> r.value[|prefix|] == ToUpper(key[0]) && r.value[|prefix| + 1..] == key[1..]
  {
    if |key| == 0 then Failure(IndexOutOfBounds)
    else
      var r := prefix + [ToUpper(key[0])] + key[1..];
      assert r[..|prefix|] == prefix;
      assert r[|prefix| + 1..] == key[1..];
      Success(r)
  }

  /** The property an accessor name stands for: the part after the prefix
      with its first character lower-cased. */
  function PropertyOf(prefix: string, methodName: string): (key: string)
    requires StartsWith(methodName, prefix) && |methodName| > |prefix|
    ensures |key| == |methodName| - |prefix|
  {
    [ToLower(methodName[|prefix|])] + methodName[|prefix| + 1..]
  }

  /** For a property whose name starts with a lower-case ASCII letter, the
      accessor name leads back to the property. */
  lemma PropertyOfMethodName(prefix: string, key: string)
    requires |key| > 0 && 'a' <= key[0] <= 'z'
    ensures BuildMethodName(prefix, key).Success?
    ensures PropertyOf(prefix, BuildMethodName(prefix, key).value) == key
  {
    var r := BuildMethodName(prefix, key).value;
    assert ToLower(ToUpper(key[0])) == key[0];
    assert [key[0]] + key[1..] == key;
  }

  lemma TitleGetter()
    ensures BuildMethodName("get", "title") == Success("getTitle")
  {
    assert ToUpper('t') == 'T';
    assert "title"[1..] == "itle";
    assert "get" + ['T'] + "itle" == "getTitle";
  }
}

/** Decoded JSON values.  An object's members are a sequence in the order
  the decoder iterates them, so that "the first key" of an object has a
  meaning; lookups take the first member with a name.
 */
module Json {
  import opened Wrappers
  import opened OrderedMaps
  import opened Strings

  datatype Json =
    | JNull
    | JBool(b: bool)
    | JNumber(n: int)
    | JString(s: string)
    | JArray(items: seq<Json>)
    | JObject(entries: OMap<Json>)

  /** A cast `(Map) value` of a possibly missing member: a missing member
      or JSON null reads as Java null, an object as its members, anything
      else throws ClassCastException. */
  function AsObject(v: Option<Json>, what: string): (r: Result<Option<OMap<Json>>>)
    ensures r.Success? && r.value.Some? <==> v.Some? && v.value.JObject?
    ensures r.Success? && r.value.Some? ==> r.value.value == v.value.entries
    ensures r.Success? && r.value.None? <==> v.None? || v.value == JNull
  {
    match v
    case None => Success(None)
    case Some(JNull) => Success(None)
    case Some(JObject(e)) => Success(Some(e))
    case Some(_) => Failure(ClassCast(what))
  }

  /** A cast `(String) value`, with the same reading of null. */
  function AsString(v: Option<Json>, what: string): (r: Result<Option<string>>)
    ensures r.Success? && r.value.Some? <==> v.Some? && v.value.JString?
    ensures v.Some? && v.value.JString? ==> r == Success(Some(v.value.s))
    ensures r.Success? && r.value.None? <==> v.None? || v.value == JNull
  {
    match v
    case None => Success(None)
    case Some(JNull) => Success(None)
    case Some(JString(s)) => Success(Some(s))
    case Some(_) => Failure(ClassCast(what))
  }

  /** A cast `(List) value`, with the same reading of null. */
  function AsList(v: Option<Json>, what: string): (r: Result<Option<seq<Json>>>)
    ensures r.Success? && r.value.Some? <==> v.Some? && v.value.JArray?
    ensures v.Some? && v.value.JArray? ==> r == Success(Some(v.value.items))
    ensures r.Success? && r.value.None? <==> v.None? || v.value == JNull
  {
    match v
    case None => Success(None)
    case Some(JNull) => Success(None)
    case Some(JArray(xs)) => Success(Some(xs))
    case Some(_) => Failure(ClassCast(what))
  }

  /** `toString()` of a decoded value: strings as themselves, and lists and
      maps as `java.util` collections print them (`[a, b]`, `{k=v, ...}`);
      calling it on a top-level null throws. */
  function JavaToString(v: Json): (r: Result<string>)
    ensures r.Failure? <==> v == JNull
    ensures v.JString? ==> r == Success(v.s)
  {
    if v == JNull then Failure(NullPointer("toString of null")) else Success(Render(v))
  }

  function Render(v: Json): string
    decreases v, 1
  {
    match v
    case JNull => "null"
    case JBool(b) => if b then "true" else "false"
    case JNumber(n) => IntToDecimal(n)
    case JString(s) => s
    case JArray(xs) => "[" + RenderItems(v, 0) + "]"
    case JObject(es) => "{" + RenderEntries(v, 0) + "}"
  }

  function RenderItems(v: Json, i: nat): string
    requires v.JArray? && i <= |v.items|
    decreases v, 0, |v.items| - i
  {
    if i == |v.items| then ""
    else (if i > 0 then ", " else "") + Render(v.items[i]) + RenderItems(v, i + 1)
  }

  function RenderEntries(v: Json, i: nat): string
    requires v.JObject? && i <= |v.entries|
    decreases v, 0, |v.entries| - i
  {
    if i == |v.entries| then ""
    else
      var e := v.entries[i];
      assert e in v.entries;
      (if i > 0 then ", " else "") + e.0 + "=" + Render(e.1) + RenderEntries(v, i + 1)
  }
}

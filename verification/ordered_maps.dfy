/** Insertion-ordered maps with string keys (java.util.LinkedHashMap) as
  sequences of pairs.

  `Put` on a present key replaces the value in place, keeping the key's
  original position; `Put` on an absent key appends.  `PutAll` copies the
  source's entries in the source's order.
 */
module OrderedMaps {
  import opened Wrappers

  type OMap<V> = seq<(string, V)>

  function Keys<V>(m: OMap<V>): set<string> {
    set i | 0 <= i < |m| :: m[i].0
  }

  predicate HasKey<V>(m: OMap<V>, k: string) {
    exists i :: 0 <= i < |m| && m[i].0 == k
  }

  /** No key occurs twice: what a LinkedHashMap always holds. */
  predicate Distinct<V>(m: OMap<V>) {
    forall i, j :: 0 <= i < j < |m| ==> m[i].0 != m[j].0
  }

  /** Position of the first entry with key `k`. */
  function FirstIndex<V>(m: OMap<V>, k: string): (i: nat)
    requires HasKey(m, k)
    ensures i < |m| && m[i].0 == k
    ensures forall j :: 0 <= j < i ==> m[j].0 != k
  {
    if m[0].0 == k then 0
    else
      assert HasKey(m[1..], k) by {
        var i :| 0 <= i < |m| && m[i].0 == k;
        assert m[1..][i - 1].0 == k;
      }
      1 + FirstIndex(m[1..], k)
  }

  /** `get`: the value of the first entry with key `k`, or None. */
  function Get<V>(m: OMap<V>, k: string): (r: Option<V>)
    ensures r.Some? <==> HasKey(m, k)
    ensures r.Some? ==> r.value == m[FirstIndex(m, k)].1
  {
    if |m| == 0 then None
    else if m[0].0 == k then Some(m[0].1)
    else
      assert HasKey(m, k) <==> HasKey(m[1..], k) by {
        if HasKey(m, k) {
          var i :| 0 <= i < |m| && m[i].0 == k;
          assert m[1..][i - 1].0 == k;
        }
        if HasKey(m[1..], k) {
          var i :| 0 <= i < |m[1..]| && m[1..][i].0 == k;
          assert m[i + 1].0 == k;
        }
      }
      Get(m[1..], k)
  }

  function GetOrDefault<V>(m: OMap<V>, k: string, d: V): V {
    Get(m, k).GetOr(d)
  }

  /** `put`: overwrite in place, or append a new last entry. */
  function Put<V>(m: OMap<V>, k: string, v: V): (r: OMap<V>)
    ensures Get(r, k) == Some(v)
    ensures forall k' :: k' != k ==> Get(r, k') == Get(m, k')
    ensures HasKey(m, k) ==> |r| == |m|
    ensures !HasKey(m, k) ==> r == m + [(k, v)]
    ensures forall i :: 0 <= i < |m| ==> r[i].0 == m[i].0
    ensures Distinct(m) ==> Distinct(r)
  {
    if HasKey(m, k) then
      var i := FirstIndex(m, k);
      var r := m[i := (k, v)];
      assert forall k' :: Get(r, k') == (if k' == k then Some(v) else Get(m, k')) by {
        forall k' ensures Get(r, k') == (if k' == k then Some(v) else Get(m, k')) {
          if HasKey(m, k') {
            FirstIndexIs(r, k', FirstIndex(m, k'));
          } else {
            assert !HasKey(r, k');
          }
        }
      }
      r
    else
      var r := m + [(k, v)];
      assert forall k' :: Get(r, k') == (if k' == k then Some(v) else Get(m, k')) by {
        forall k' ensures Get(r, k') == (if k' == k then Some(v) else Get(m, k')) {
          if HasKey(m, k') {
            FirstIndexIs(r, k', FirstIndex(m, k'));
          } else if k' == k {
            FirstIndexIs(r, k, |m|);
          } else {
            assert !HasKey(r, k');
          }
        }
      }
      r
  }

  /** An entry preceded by no entry with its key is the first one. */
  lemma FirstIndexIs<V>(m: OMap<V>, k: string, i: nat)
    requires i < |m| && m[i].0 == k
    requires forall j :: 0 <= j < i ==> m[j].0 != k
    ensures HasKey(m, k) && FirstIndex(m, k) == i
  {
    assert HasKey(m, k);
  }

  lemma HasKeyCons<V>(m: OMap<V>, k: string)
    requires |m| > 0
    ensures HasKey(m, k) <==> m[0].0 == k || HasKey(m[1..], k)
  {
    if HasKey(m, k) && m[0].0 != k {
      var i :| 0 <= i < |m| && m[i].0 == k;
      assert m[1..][i - 1].0 == k;
    }
    if HasKey(m[1..], k) {
      var i :| 0 <= i < |m[1..]| && m[1..][i].0 == k;
      assert m[i + 1].0 == k;
    }
  }

  /** The value of the last entry with key `k`: the one `PutAll` keeps. */
  function LastValue<V>(m: OMap<V>, k: string): V
    requires HasKey(m, k)
  {
    HasKeyCons(m, k);
    if HasKey(m[1..], k) then LastValue(m[1..], k) else m[0].1
  }

  /** `putAll`: every entry of `src`, in order, written over `m`. */
  function PutAll<V>(m: OMap<V>, src: OMap<V>): (r: OMap<V>)
    ensures Keys(r) == Keys(m) + Keys(src)
    ensures Distinct(m) ==> Distinct(r)
    decreases |src|
  {
    if |src| == 0 then m
    else
      KeysOfPut(m, src[0].0, src[0].1);
      KeysCons(src);
      PutAll(Put(m, src[0].0, src[0].1), src[1..])
  }

  /** After `putAll` a key holds the source's last value for it, or its old value. */
  lemma {:induction false} GetPutAll<V>(m: OMap<V>, src: OMap<V>, k: string)
    ensures Get(PutAll(m, src), k) == (if HasKey(src, k) then Some(LastValue(src, k)) else Get(m, k))
    decreases |src|
  {
    if |src| > 0 {
      HasKeyCons(src, k);
      GetPutAll(Put(m, src[0].0, src[0].1), src[1..], k);
    }
  }

  lemma KeysCons<V>(m: OMap<V>)
    requires |m| > 0
    ensures Keys(m) == {m[0].0} + Keys(m[1..])
  {
    forall x | x in Keys(m) ensures x in {m[0].0} + Keys(m[1..]) {
      var i :| 0 <= i < |m| && m[i].0 == x;
      if i > 0 { assert m[1..][i - 1].0 == x; }
    }
    forall x | x in Keys(m[1..]) ensures x in Keys(m) {
      var i :| 0 <= i < |m[1..]| && m[1..][i].0 == x;
      assert m[i + 1].0 == x;
    }
  }

  lemma KeysOfPut<V>(m: OMap<V>, k: string, v: V)
    ensures Keys(Put(m, k, v)) == Keys(m) + {k}
  {
    var r := Put(m, k, v);
    forall x | x in Keys(r) ensures x in Keys(m) + {k} {
      assert HasKey(r, x);
      if x != k { assert Get(m, x) == Get(r, x); }
    }
    forall x | x in Keys(m) + {k} ensures x in Keys(r) {
      if x != k {
        assert HasKey(m, x);
        assert Get(r, x) == Get(m, x);
      }
      assert Get(r, x).Some?;
    }
  }

  /** In a map without repeated keys the first and the last entry for a key coincide. */
  lemma {:induction false} LastValueOfDistinct<V>(m: OMap<V>, k: string)
    requires Distinct(m) && HasKey(m, k)
    ensures Get(m, k) == Some(LastValue(m, k))
  {
    if HasKey(m[1..], k) {
      var i :| 0 <= i < |m[1..]| && m[1..][i].0 == k;
      assert m[0].0 != k by { assert m[i + 1].0 == k; }
      assert Distinct(m[1..]);
      LastValueOfDistinct(m[1..], k);
    }
  }

  /** Layers written one over the other, first layer at the bottom. */
  function MergeLayers<V>(layers: seq<OMap<V>>): (r: OMap<V>)
    ensures Distinct(r)
  {
    if |layers| == 0 then []
    else PutAll(MergeLayers(layers[..|layers| - 1]), layers[|layers| - 1])
  }

  /** The top-most layer that holds `k` decides its value: later layers win. */
  lemma {:induction false} MergeLayersLastWins<V>(layers: seq<OMap<V>>, k: string, j: nat)
    requires j < |layers| && HasKey(layers[j], k)
    requires forall j' :: j < j' < |layers| ==> !HasKey(layers[j'], k)
    ensures Get(MergeLayers(layers), k) == Some(LastValue(layers[j], k))
    decreases |layers|
  {
    var n := |layers| - 1;
    GetPutAll(MergeLayers(layers[..n]), layers[n], k);
    if j < n {
      assert layers[..n][j] == layers[j];
      MergeLayersLastWins(layers[..n], k, j);
    }
  }

  /** A key no layer holds is absent from the merge. */
  lemma {:induction false} MergeLayersAbsent<V>(layers: seq<OMap<V>>, k: string)
    requires forall j :: 0 <= j < |layers| ==> !HasKey(layers[j], k)
    ensures Get(MergeLayers(layers), k) == None
    decreases |layers|
  {
    if |layers| > 0 {
      var n := |layers| - 1;
      assert forall j :: 0 <= j < n ==> layers[..n][j] == layers[j];
      MergeLayersAbsent(layers[..n], k);
      GetPutAll(MergeLayers(layers[..n]), layers[n], k);
    }
  }
}

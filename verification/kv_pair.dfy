/** `kv_pair<K, V>` and `find_value<Pack, K>` (metaprogram/A_star/kv_pair.hpp): a pack of
    pairs used as an association list in which the earliest pair for a key wins. */
module KvPairs {
  import opened Wrappers
  import Pack

  datatype KvPair<K, V> = KvPair(key: K, value: V)

  /** `expand_outside<get_key>`. */
  function Keys<K, V>(s: seq<KvPair<K, V>>): (ks: seq<K>)
    ensures |ks| == |s|
    ensures forall i :: 0 <= i < |s| ==> ks[i] == s[i].key
  {
    Pack.ExpandOutside(s, (p: KvPair<K, V>) => p.key)
  }

  /** `find_value<Pack, K>::type`: the first pair whose key is K, or `null_type`. */
  function FindValue<K(==), V>(s: seq<KvPair<K, V>>, k: K): (r: Option<KvPair<K, V>>)
    ensures r.None? <==> k !in Keys(s)
    ensures r.Some? ==> exists i :: 0 <= i < |s| && s[i] == r.value && s[i].key == k
                                    && forall j :: 0 <= j < i ==> s[j].key != k
  {
    Pack.Find(s, (p: KvPair<K, V>) => p.key == k)
  }

  /** Pairs appended behind a key that is already present never change its lookup. */
  lemma FindValueAppend<K, V>(s: seq<KvPair<K, V>>, t: seq<KvPair<K, V>>, k: K)
    requires k in Keys(s)
    ensures FindValue(s + t, k) == FindValue(s, k)
  {
    Pack.FindConcat(s, t, (p: KvPair<K, V>) => p.key == k);
  }

  /** The value of the first pair whose key is k, by walking the pack; the same answer as
      `find_value` (ValueOfIsFindValue) without going through `filter`. */
  function ValueOf<K(==), V>(s: seq<KvPair<K, V>>, k: K): V
    requires k in Keys(s)
  {
    if s[0].key == k then s[0].value
    else
      assert k in Keys(s[1..]) by {
        var i :| 0 <= i < |s| && Keys(s)[i] == k;
        assert Keys(s[1..])[i - 1] == k;
      }
      ValueOf(s[1..], k)
  }

  /** ValueOf yields the value of the earliest pair with the key. */
  lemma {:induction false} ValueOfFirst<K(!new), V>(s: seq<KvPair<K, V>>, k: K, i: nat)
    requires i < |s| && s[i].key == k && forall j :: 0 <= j < i ==> s[j].key != k
    ensures k in Keys(s) && ValueOf(s, k) == s[i].value
  {
    assert Keys(s)[i] == k;
    if i > 0 {
      assert s[1..][i - 1] == s[i];
      ValueOfFirst(s[1..], k, i - 1);
    }
  }

  /** The recursive lookup agrees with `find_value` on every present key. */
  lemma ValueOfIsFindValue<K(!new), V>(s: seq<KvPair<K, V>>, k: K)
    requires k in Keys(s)
    ensures FindValue(s, k) == Some(KvPair(k, ValueOf(s, k)))
  {
    var i :| 0 <= i < |s| && s[i] == FindValue(s, k).value && s[i].key == k
             && forall j :: 0 <= j < i ==> s[j].key != k;
    ValueOfFirst(s, k, i);
  }
}

/** The immutable radix tree the rule engine stores its prefix and suffix
    rules in, seen through the two operations it uses: inserting a key with
    a value, and finding the longest stored key that is a prefix of a
    string. The tree is modelled by the map from its keys to their values. */
module Radix {
  import opened Wrappers

  type Tree<V> = map<string, V>

  /** The empty tree (`iradix.New()`). */
  function Empty<V>(): (t: Tree<V>)
    ensures t.Keys == {}
  {
    map[]
  }

  /** `Insert(key, value)`: the key is added, or its value replaced;
      inserting a key already present leaves the key set as it was. */
  function Insert<V>(t: Tree<V>, key: string, value: V): (r: Tree<V>)
    ensures r.Keys == t.Keys + {key}
    ensures key in t ==> r.Keys == t.Keys
    ensures r[key] == value
    ensures forall k :: k in t && k != key ==> r[k] == t[k]
  {
    t[key := value]
  }

  /** The longest key of `t` that is a prefix of `s` and at most `n` long. */
  function LongestPrefixUpTo<V>(t: Tree<V>, s: string, n: nat): (r: Option<string>)
    requires n <= |s|
    ensures r.Some? ==> r.value in t && r.value <= s && |r.value| <= n
    ensures forall k :: k in t && k <= s && |k| <= n ==> r.Some? && |k| <= |r.value|
    decreases n
  {
    if s[..n] in t then Some(s[..n])
    else if n == 0 then None
    else
      assert forall k :: k <= s && |k| == n ==> k == s[..n];
      LongestPrefixUpTo(t, s, n - 1)
  }

  /** `Root().LongestPrefix(s)`: the longest key of `t` that is a prefix of
      `s`, or None when no key is. */
  function LongestPrefix<V>(t: Tree<V>, s: string): (r: Option<string>)
    ensures r.Some? ==> r.value in t && r.value <= s
    ensures r.Some? ==> forall k :: k in t && k <= s ==> |k| <= |r.value|
    ensures r.None? <==> forall k :: k in t ==> !(k <= s)
  {
    LongestPrefixUpTo(t, s, |s|)
  }

  /** The longest prefix is the only key of its length that is a prefix. */
  lemma LongestPrefixUnique<V>(t: Tree<V>, s: string, k: string)
    requires k in t && k <= s
    requires LongestPrefix(t, s).Some? && |k| == |LongestPrefix(t, s).value|
    ensures k == LongestPrefix(t, s).value
  {
  }

  /** With one key, the longest prefix is that key when it is a prefix. */
  lemma LongestPrefixSingle<V>(key: string, value: V, s: string)
    ensures LongestPrefix(map[key := value], s) == if key <= s then Some(key) else None
  {
    var r := LongestPrefix(map[key := value], s);
    if r.Some? {
      assert r.value in map[key := value];
    }
  }
}

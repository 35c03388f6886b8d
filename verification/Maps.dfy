/** Walking a Go map: its keys, each once, in no particular order. */
module Maps {
  import opened Seqs

  method KeysOf<K, V>(m: map<K, V>) returns (keys: seq<K>)
    ensures (forall k :: k in keys <==> k in m) && Distinct(keys)
  {
    keys := [];
    var todo := m.Keys;
    while exists k :: k in todo
      invariant todo <= m.Keys && (forall k :: k in keys <==> k in m && k !in todo) && Distinct(keys)
      decreases todo
    {
      var k :| k in todo;
      assert forall i :: 0 <= i < |keys| ==> keys[i] in keys && keys[i] != k;
      keys := keys + [k];
      todo := todo - {k};
    }
  }
}

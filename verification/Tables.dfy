/** Lists of named values. */
module Tables {
  import opened Unicode

  /** The first entry under a name. */
  function Lookup<V>(table: seq<(Text, V)>, key: Text): (r: Option<V>)
    ensures r.Some? <==> exists i :: 0 <= i < |table| && table[i].0 == key
  {
    if table == [] then None
    else if table[0].0 == key then Some(table[0].1)
    else
      assert forall i :: 0 < i < |table| ==> table[i] == table[1..][i - 1];
      Lookup(table[1..], key)
  }

  lemma {:induction false} LookupFinds<V>(table: seq<(Text, V)>, key: Text) returns (i: nat)
    requires Lookup(table, key).Some?
    ensures i < |table| && table[i] == (key, Lookup(table, key).value)
  {
    if table[0].0 == key {
      i := 0;
    } else {
      i := LookupFinds(table[1..], key);
      i := i + 1;
    }
  }
}

/** The map from row key to span list that the conversion fills, one put per
    row: HashMap.put replaces the value of a key already present, so the last
    row with a given key decides its spans. */
module KeyedTable {
  import opened Wrappers

  /** No entry after position i has the key of entry i. */
  ghost predicate LastWithKey<K, V>(entries: seq<Option<(K, V)>>, i: int)
    requires 0 <= i < |entries| && entries[i].Some?
  {
    forall j :: i < j < |entries| && entries[j].Some? ==> entries[j].value.0 != entries[i].value.0
  }

  /** No entry has key k. */
  ghost predicate KeyAbsent<K, V>(entries: seq<Option<(K, V)>>, k: K) {
    forall j :: 0 <= j < |entries| && entries[j].Some? ==> entries[j].value.0 != k
  }

  ghost function KeysOf<K, V>(entries: seq<Option<(K, V)>>): set<K> {
    set e | e in entries && e.Some? :: e.value.0
  }

  /** Map.put of every present entry, in order (a None entry, a skipped row, puts nothing).
      The table ends up with the keys it had plus the keys of the entries; a
      key's value is that of the last entry with the key, or its old value when
      no entry has it. */
  function PutAll<K(==), V>(entries: seq<Option<(K, V)>>, m: map<K, V>): (r: map<K, V>)
    ensures r.Keys == m.Keys + KeysOf(entries)
    ensures forall i :: 0 <= i < |entries| && entries[i].Some? && LastWithKey(entries, i) ==>
              entries[i].value.0 in r && r[entries[i].value.0] == entries[i].value.1
    ensures forall k :: k in m && KeyAbsent(entries, k) ==> r[k] == m[k]
    decreases |entries|
  {
    if |entries| == 0 then m
    else
      var m' := if entries[0].Some? then m[entries[0].value.0 := entries[0].value.1] else m;
      var r := PutAll(entries[1..], m');
      PutAllStep(entries, m, m', r);
      r
  }

  lemma KeysOfCons<K, V>(entries: seq<Option<(K, V)>>)
    requires |entries| > 0
    ensures KeysOf(entries) == (if entries[0].Some? then {entries[0].value.0} else {}) + KeysOf(entries[1..])
  {
    assert entries == [entries[0]] + entries[1..];
  }

  lemma KeyAbsentOfTail<K, V>(entries: seq<Option<(K, V)>>, k: K)
    requires |entries| > 0 && KeyAbsent(entries, k)
    ensures KeyAbsent(entries[1..], k)
  {
    forall j | 0 <= j < |entries[1..]| && entries[1..][j].Some?
      ensures entries[1..][j].value.0 != k
    {
      assert entries[1..][j] == entries[j + 1];
    }
  }

  lemma LastWithKeyOfTail<K, V>(entries: seq<Option<(K, V)>>, i: int)
    requires 0 < i < |entries| && entries[i].Some? && LastWithKey(entries, i)
    ensures entries[1..][i - 1] == entries[i] && LastWithKey(entries[1..], i - 1)
  {
    var rest := entries[1..];
    forall j | i - 1 < j < |rest| && rest[j].Some?
      ensures rest[j].value.0 != rest[i - 1].value.0
    {
      assert rest[j] == entries[j + 1];
    }
  }

  /** One step of PutAll: what holds of the rest of the entries, put into the
      table after the first entry, holds of all the entries. */
  lemma PutAllStep<K, V>(entries: seq<Option<(K, V)>>, m: map<K, V>, m': map<K, V>, r: map<K, V>)
    requires |entries| > 0
    requires m' == if entries[0].Some? then m[entries[0].value.0 := entries[0].value.1] else m
    requires r.Keys == m'.Keys + KeysOf(entries[1..])
    requires forall i :: 0 <= i < |entries[1..]| && entries[1..][i].Some? && LastWithKey(entries[1..], i) ==>
               entries[1..][i].value.0 in r && r[entries[1..][i].value.0] == entries[1..][i].value.1
    requires forall k :: k in m' && KeyAbsent(entries[1..], k) ==> r[k] == m'[k]
    ensures r.Keys == m.Keys + KeysOf(entries)
    ensures forall i :: 0 <= i < |entries| && entries[i].Some? && LastWithKey(entries, i) ==>
              entries[i].value.0 in r && r[entries[i].value.0] == entries[i].value.1
    ensures forall k :: k in m && KeyAbsent(entries, k) ==> r[k] == m[k]
  {
    KeysOfCons(entries);
    forall i | 0 <= i < |entries| && entries[i].Some? && LastWithKey(entries, i)
      ensures entries[i].value.0 in r && r[entries[i].value.0] == entries[i].value.1
    {
      if i == 0 {
        forall j | 0 <= j < |entries[1..]| && entries[1..][j].Some?
          ensures entries[1..][j].value.0 != entries[0].value.0
        {
          assert entries[1..][j] == entries[j + 1];
        }
        assert KeyAbsent(entries[1..], entries[0].value.0);
      } else {
        LastWithKeyOfTail(entries, i);
      }
    }
    forall k | k in m && KeyAbsent(entries, k)
      ensures r[k] == m[k]
    {
      KeyAbsentOfTail(entries, k);
    }
  }
}

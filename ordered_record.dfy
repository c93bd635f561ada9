// A JavaScript `Record<string, string>` as the importer uses it: keys are
// enumerated in insertion order, and assigning to a key that is already
// present overwrites its value where it stands.

module OrderedRecord {
  import opened Strings

  datatype Entry = Entry(key: String, value: String)

  type Record = seq<Entry>

  function Keys(r: Record): (ks: seq<String>)
    ensures |ks| == |r| && forall i :: 0 <= i < |r| ==> ks[i] == r[i].key
  {
    if |r| == 0 then [] else [r[0].key] + Keys(r[1..])
  }

  /** The keys of a record are those of all but its last entry, then the
      last entry's. */
  lemma {:induction false} KeysSnoc(r: Record, k: String)
    requires |r| > 0
    ensures Keys(r) == Keys(r[..|r| - 1]) + [r[|r| - 1].key]
    ensures k in Keys(r) <==> k in Keys(r[..|r| - 1]) || k == r[|r| - 1].key
    decreases |r|
  {
    var last := r[|r| - 1].key;
    if |r| == 1 {
      assert Keys(r) == [last];
      assert Keys(r[..0]) == [];
    } else {
      var init := r[..|r| - 1];
      KeysSnoc(r[1..], k);
      assert r[1..][..|r| - 2] == init[1..];
      assert Keys(r) == [r[0].key] + Keys(r[1..]);
      assert Keys(init) == [init[0].key] + Keys(init[1..]);
      assert Keys(r) == [r[0].key] + (Keys(init[1..]) + [last]);
    }
  }

  predicate DistinctKeys(r: Record) {
    forall i, j :: 0 <= i < j < |r| ==> r[i].key != r[j].key
  }

  /** The position of `k` in the record, or -1. */
  function Position(r: Record, k: String): (i: int)
    ensures -1 <= i < |r|
    ensures i >= 0 ==> r[i].key == k && forall j :: 0 <= j < i ==> r[j].key != k
    ensures i == -1 ==> forall j :: 0 <= j < |r| ==> r[j].key != k
  {
    if |r| == 0 then -1
    else if r[0].key == k then 0
    else var i := Position(r[1..], k); if i == -1 then -1 else i + 1
  }

  /** `record[k]`, `undefined` being `None`. */
  function Get(r: Record, k: String): (v: Option<String>)
    ensures v.Some? <==> k in Keys(r)
  {
    var i := Position(r, k);
    if i == -1 then None else Some(r[i].value)
  }

  /** `record[k] = v`. */
  function Put(r: Record, k: String, v: String): (r': Record)
    ensures Get(r', k) == Some(v)
    ensures forall k' :: k' != k ==> Get(r', k') == Get(r, k')
    ensures Keys(r') == if k in Keys(r) then Keys(r) else Keys(r) + [k]
    ensures DistinctKeys(r) ==> DistinctKeys(r')
  {
    var i := Position(r, k);
    if i == -1 then
      AppendFacts(r, k, v);
      r + [Entry(k, v)]
    else
      UpdateFacts(r, i, k, v);
      r[i := Entry(k, v)]
  }

  /** `Position` finds the first entry with the key. */
  lemma PositionOfFirst(r: Record, i: int, k: String)
    requires 0 <= i < |r| && r[i].key == k
    requires forall j :: 0 <= j < i ==> r[j].key != k
    ensures Position(r, k) == i
  {
  }

  /** Two records with the same keys in the same order find a key at the
      same position. */
  lemma SamePositions(r: Record, r': Record, k: String)
    requires |r| == |r'| && forall j :: 0 <= j < |r| ==> r[j].key == r'[j].key
    ensures Position(r', k) == Position(r, k)
  {
    var p := Position(r, k);
    if p >= 0 {
      PositionOfFirst(r', p, k);
    }
  }

  lemma AppendFacts(r: Record, k: String, v: String)
    requires Position(r, k) == -1
    ensures var r' := r + [Entry(k, v)];
            Get(r', k) == Some(v)
            && (forall k' :: k' != k ==> Get(r', k') == Get(r, k'))
            && Keys(r') == Keys(r) + [k] && k !in Keys(r)
            && (DistinctKeys(r) ==> DistinctKeys(r'))
  {
    var r' := r + [Entry(k, v)];
    PositionOfFirst(r', |r|, k);
    forall k' | k' != k ensures Get(r', k') == Get(r, k') {
      AppendOther(r, k, v, k');
    }
    AppendKeys(r, k, v);
    if DistinctKeys(r) {
      AppendDistinct(r, k, v);
    }
  }

  lemma AppendOther(r: Record, k: String, v: String, k': String)
    requires Position(r, k) == -1 && k' != k
    ensures Get(r + [Entry(k, v)], k') == Get(r, k')
  {
    var r' := r + [Entry(k, v)];
    var p := Position(r, k');
    if p >= 0 {
      PositionOfFirst(r', p, k');
    } else {
      assert r'[|r|].key != k';
      assert forall j :: 0 <= j < |r| ==> r'[j] == r[j];
    }
  }

  lemma AppendKeys(r: Record, k: String, v: String)
    requires Position(r, k) == -1
    ensures Keys(r + [Entry(k, v)]) == Keys(r) + [k] && k !in Keys(r)
  {
    var r' := r + [Entry(k, v)];
    var ks, ks' := Keys(r), Keys(r');
    assert forall j :: 0 <= j < |r| ==> r'[j] == r[j];
    assert forall j :: 0 <= j < |ks'| ==> ks'[j] == (ks + [k])[j];
    assert forall j :: 0 <= j < |ks| ==> ks[j] != k;
  }

  lemma AppendDistinct(r: Record, k: String, v: String)
    requires Position(r, k) == -1 && DistinctKeys(r)
    ensures DistinctKeys(r + [Entry(k, v)])
  {
    var r' := r + [Entry(k, v)];
    forall i, j | 0 <= i < j < |r'| ensures r'[i].key != r'[j].key {
      assert r'[i] == r[i];
      if j < |r| {
        assert r'[j] == r[j];
      }
    }
  }

  lemma UpdateFacts(r: Record, i: int, k: String, v: String)
    requires 0 <= i && Position(r, k) == i
    ensures Get(r[i := Entry(k, v)], k) == Some(v)
    ensures forall k' :: k' != k ==> Get(r[i := Entry(k, v)], k') == Get(r, k')
    ensures Keys(r[i := Entry(k, v)]) == Keys(r) && k in Keys(r)
    ensures DistinctKeys(r) ==> DistinctKeys(r[i := Entry(k, v)])
  {
    var r' := r[i := Entry(k, v)];
    SameKeysUpdated(r, i, k, v);
    PositionOfFirst(r', i, k);
    forall k' | k' != k ensures Get(r', k') == Get(r, k') {
      UpdateOther(r, i, k, v, k');
    }
    UpdateKeys(r, i, k, v);
    if DistinctKeys(r) {
      UpdateDistinct(r, i, k, v);
    }
  }

  lemma UpdateDistinct(r: Record, i: int, k: String, v: String)
    requires 0 <= i < |r| && r[i].key == k && DistinctKeys(r)
    ensures DistinctKeys(r[i := Entry(k, v)])
  {
    var r' := r[i := Entry(k, v)];
    forall a, b | 0 <= a < b < |r'| ensures r'[a].key != r'[b].key {
      assert r'[a].key == r[a].key && r'[b].key == r[b].key;
    }
  }

  lemma UpdateOther(r: Record, i: int, k: String, v: String, k': String)
    requires 0 <= i < |r| && r[i].key == k && k' != k
    ensures Get(r[i := Entry(k, v)], k') == Get(r, k')
  {
    var r' := r[i := Entry(k, v)];
    SameKeysUpdated(r, i, k, v);
    SamePositions(r, r', k');
    var p := Position(r, k');
    if p >= 0 {
      assert p != i;
      assert r'[p] == r[p];
    }
  }

  lemma SameKeysUpdated(r: Record, i: int, k: String, v: String)
    requires 0 <= i < |r| && r[i].key == k
    ensures var r' := r[i := Entry(k, v)];
            |r'| == |r| && forall j :: 0 <= j < |r| ==> r'[j].key == r[j].key
  {
  }

  lemma UpdateKeys(r: Record, i: int, k: String, v: String)
    requires 0 <= i < |r| && r[i].key == k
    ensures Keys(r[i := Entry(k, v)]) == Keys(r) && k in Keys(r)
  {
    var r' := r[i := Entry(k, v)];
    var ks, ks' := Keys(r), Keys(r');
    assert forall j :: 0 <= j < |ks| ==> ks[j] == ks'[j];
    assert ks[i] == k;
  }

  /** Assigning each pair in turn. */
  function PutAll(r: Record, pairs: seq<Entry>): Record
    decreases |pairs|
  {
    if |pairs| == 0 then r else PutAll(Put(r, pairs[0].key, pairs[0].value), pairs[1..])
  }

  /** Assigning a list of pairs and then one more pair is assigning the
      longer list. */
  lemma {:induction false} PutAllSnoc(r: Record, pairs: seq<Entry>, e: Entry)
    ensures PutAll(r, pairs + [e]) == Put(PutAll(r, pairs), e.key, e.value)
    decreases |pairs|
  {
    if |pairs| == 0 {
      assert pairs + [e] == [e];
      assert PutAll(Put(r, e.key, e.value), []) == Put(r, e.key, e.value);
    } else {
      assert (pairs + [e])[1..] == pairs[1..] + [e];
      PutAllSnoc(Put(r, pairs[0].key, pairs[0].value), pairs[1..], e);
    }
  }

  // ---------------------------------------------------------------------
  // Reference definitions: the keys in order of first appearance, and the
  // last value assigned to a key.

  /** `acc` followed by the keys of `ks` not seen before, in order of first
      appearance. */
  function AppendNew(acc: seq<String>, ks: seq<String>): seq<String>
    decreases |ks|
  {
    if |ks| == 0 then acc
    else AppendNew(if ks[0] in acc then acc else acc + [ks[0]], ks[1..])
  }

  /** The last value paired with `k`, if any. */
  function LastValue(pairs: seq<Entry>, k: String): Option<String>
    decreases |pairs|
  {
    if |pairs| == 0 then None
    else
      var later := LastValue(pairs[1..], k);
      if later.Some? then later
      else if pairs[0].key == k then Some(pairs[0].value)
      else None
  }

  /** Assigning a list of pairs keeps the keys in order of first appearance
      (a repeated key keeps its first place). */
  lemma {:induction false} PutAllKeys(r: Record, pairs: seq<Entry>)
    ensures Keys(PutAll(r, pairs)) == AppendNew(Keys(r), Keys(pairs))
    decreases |pairs|
  {
    if |pairs| > 0 {
      var r1 := Put(r, pairs[0].key, pairs[0].value);
      PutAllKeys(r1, pairs[1..]);
      assert Keys(pairs)[1..] == Keys(pairs[1..]);
    }
  }

  /** After assigning a list of pairs, each key holds the last value
      assigned to it, and a key never assigned keeps its old value. */
  lemma {:induction false} PutAllLastWins(r: Record, pairs: seq<Entry>, k: String)
    ensures Get(PutAll(r, pairs), k) ==
            if LastValue(pairs, k).Some? then LastValue(pairs, k) else Get(r, k)
    decreases |pairs|
  {
    if |pairs| > 0 {
      PutAllLastWins(Put(r, pairs[0].key, pairs[0].value), pairs[1..], k);
    }
  }

  /** Assigning never duplicates a key. */
  lemma {:induction false} PutAllDistinct(r: Record, pairs: seq<Entry>)
    requires DistinctKeys(r)
    ensures DistinctKeys(PutAll(r, pairs))
    decreases |pairs|
  {
    if |pairs| > 0 {
      PutAllDistinct(Put(r, pairs[0].key, pairs[0].value), pairs[1..]);
    }
  }
}

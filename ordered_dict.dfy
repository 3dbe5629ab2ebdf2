/** A plain JavaScript object used as a dictionary (`game.votes`,
    `game.finalChoices`, the vote tally). Its keys are strings, and
    `Object.keys`, `Object.values` and `Object.entries` list them in the order
    in which each key was first assigned; assigning to a key that is already
    there keeps its position. The object is modelled as its list of entries in
    that order. Object keys are strings. */
module OrderedDict {
  import opened Wrappers
  import opened Lists

  type Key = string
  type Dict<V> = seq<(Key, V)>

  /** `Object.keys(d)`. */
  function Keys<V>(d: Dict<V>): seq<Key> {
    seq(|d|, i requires 0 <= i < |d| => d[i].0)
  }

  /** `Object.values(d)`. */
  function Values<V>(d: Dict<V>): seq<V> {
    seq(|d|, i requires 0 <= i < |d| => d[i].1)
  }

  /** Every key has one entry, as in a real object. */
  predicate WellFormed<V>(d: Dict<V>) {
    Distinct(Keys(d))
  }

  /** The position of the entry for `k`, or `|d|` when there is none. */
  function Find<V>(d: Dict<V>, k: Key): (i: nat)
    ensures i <= |d|
    ensures i < |d| ==> d[i].0 == k
    ensures forall j :: 0 <= j < i ==> d[j].0 != k
  {
    if d == [] then 0
    else if d[0].0 == k then 0
    else 1 + Find(d[1..], k)
  }

  /** `d[k]`, `undefined` being `None`. */
  function Get<V>(d: Dict<V>, k: Key): (r: Option<V>)
    ensures r.Some? <==> k in Keys(d)
  {
    var i := Find(d, k);
    assert k in Keys(d) ==> i < |d| by {
      if k in Keys(d) {
        var j :| 0 <= j < |d| && Keys(d)[j] == k;
      }
    }
    assert forall j :: 0 <= j < |d| ==> Keys(d)[j] == d[j].0;
    if i < |d| then Some(d[i].1) else None
  }

  /** `d[k] = v`: overwrites the entry of an existing key in place, and
      otherwise appends a new entry at the end. */
  function Put<V>(d: Dict<V>, k: Key, v: V): (r: Dict<V>)
    ensures Keys(r) == if k in Keys(d) then Keys(d) else Keys(d) + [k]
    ensures forall e :: e in r ==> e in d || e == (k, v)
  {
    var i := Find(d, k);
    if i < |d| then
      assert Keys(d)[i] == k;
      assert Keys(d[i := (k, v)]) == Keys(d);
      assert forall j :: 0 <= j < |d| ==> d[i := (k, v)][j] == if j == i then (k, v) else d[j];
      d[i := (k, v)]
    else
      assert k !in Keys(d) by { assert forall j :: 0 <= j < |d| ==> Keys(d)[j] == d[j].0; }
      assert Keys(d + [(k, v)]) == Keys(d) + [k];
      d + [(k, v)]
  }

  /** Reading back after `d[k] = v`: `k` holds `v`, and every other key holds
      what it held before. */
  lemma PutGet<V>(d: Dict<V>, k: Key, v: V, k': Key)
    ensures Get(Put(d, k, v), k') == if k' == k then Some(v) else Get(d, k')
  {
    var i, r := Find(d, k), Put(d, k, v);
    if i < |d| {
      if k' == k {
        FindIs(r, k, i);
      } else {
        FindIs(r, k', Find(d, k'));
      }
    } else {
      if k' == k {
        FindIs(r, k, i);
      } else {
        FindIs(r, k', if Find(d, k') < |d| then Find(d, k') else |r|);
      }
    }
  }

  /** Assigning a key keeps one entry per key. */
  lemma PutWellFormed<V>(d: Dict<V>, k: Key, v: V)
    requires WellFormed(d)
    ensures WellFormed(Put(d, k, v))
  {
  }

  /** What `Get` finds is an entry of `d`; in a well-formed dictionary it is
      the one entry for `k`. */
  lemma GetEntry<V>(d: Dict<V>, k: Key)
    ensures Get(d, k).Some? ==> (k, Get(d, k).value) in d
    ensures WellFormed(d) ==> forall i :: 0 <= i < |d| && d[i].0 == k ==> Get(d, k) == Some(d[i].1)
  {
    assert forall j :: 0 <= j < |d| ==> Keys(d)[j] == d[j].0;
  }

  /** `Find` is determined by its contract: the first position holding `k`. */
  lemma FindIs<V>(d: Dict<V>, k: Key, i: nat)
    requires i <= |d|
    requires i < |d| ==> d[i].0 == k
    requires forall j :: 0 <= j < i ==> d[j].0 != k
    ensures Find(d, k) == i
  {
  }

  /** A well-formed dictionary has one entry per key, so `Object.keys(d).length`
      counts the distinct keys. */
  lemma KeyCount<V>(d: Dict<V>)
    requires WellFormed(d)
    ensures |Elements(Keys(d))| == |d|
  {
    DistinctCardinality(Keys(d));
  }
}

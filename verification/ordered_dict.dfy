/** Python's insertion-ordered `dict`, as a sequence of key/value pairs.

  Assigning an existing key replaces its value in place; assigning a new key
  appends it.  A dict comprehension is a left-to-right fold of assignments,
  so a key that occurs twice keeps its first position and its last value.
  The model uses this one definition for HTML attribute mappings, for the
  structured-logging `values` mapping and for the HTML component table.
 */
module OrderedDict {
  import opened Wrappers

  type Dict<V> = seq<(string, V)>

  function Keys<V>(d: Dict<V>): (ks: seq<string>)
    ensures |ks| == |d|
    ensures forall i :: 0 <= i < |d| ==> ks[i] == d[i].0
  {
    seq(|d|, i requires 0 <= i < |d| => d[i].0)
  }

  predicate UniqueKeys<V>(d: Dict<V>) {
    forall i, j :: 0 <= i < j < |d| ==> d[i].0 != d[j].0
  }

  /** Some pair of `ps` has key `k`. */
  predicate HasKey<V>(ps: seq<(string, V)>, k: string) {
    exists i :: 0 <= i < |ps| && ps[i].0 == k
  }

  /** No pair after position `i` repeats the key of `ps[i]`. */
  predicate LastForKey<V>(ps: seq<(string, V)>, i: int)
    requires 0 <= i < |ps|
  {
    forall j :: i < j < |ps| ==> ps[j].0 != ps[i].0
  }

  /** Position of the pair with key `k`: the first one, the only one in a dict. */
  function IndexOf<V>(d: Dict<V>, k: string): (r: Option<nat>)
    ensures r.Some? ==> r.value < |d| && d[r.value].0 == k
    ensures r.Some? ==> forall j :: 0 <= j < r.value ==> d[j].0 != k
    ensures r.None? <==> !HasKey(d, k)
  {
    if |d| == 0 then None
    else if d[0].0 == k then Some(0)
    else
      match IndexOf(d[1..], k)
      case Some(i) => Some(i + 1)
      case None =>
        assert forall j :: 0 < j < |d| ==> d[j].0 == d[1..][j - 1].0;
        None
  }

  /** `d[k]`, or None when `k` is absent. */
  function Get<V>(d: Dict<V>, k: string): (r: Option<V>)
    ensures r.Some? <==> HasKey(d, k)
  {
    match IndexOf(d, k)
    case Some(i) => Some(d[i].1)
    case None => None
  }

  lemma GetUnique<V>(d: Dict<V>, i: int)
    requires UniqueKeys(d)
    requires 0 <= i < |d|
    ensures Get(d, d[i].0) == Some(d[i].1)
  {
    var j := IndexOf(d, d[i].0);
    assert j.Some?;
    assert !(j.value < i);
    assert !(i < j.value);
  }

  /** `d[k] = v`: replace the value of an existing key in place, else append. */
  function Insert<V>(d: Dict<V>, k: string, v: V): (r: Dict<V>)
    ensures Get(r, k) == Some(v)
    ensures forall k' :: k' != k ==> Get(r, k') == Get(d, k')
    ensures HasKey(d, k) ==> Keys(r) == Keys(d)
    ensures !HasKey(d, k) ==> r == d + [(k, v)]
    ensures UniqueKeys(d) ==> UniqueKeys(r)
  {
    match IndexOf(d, k)
    case Some(i) =>
      var r := d[i := (k, v)];
      assert r[i].0 == k;
      var b := IndexOf(r, k);
      assert b.Some?;
      assert !(b.value < i);
      assert !(i < b.value);
      forall k' | k' != k ensures Get(r, k') == Get(d, k') {
        SameKeysSameIndex(d, r, k', i);
      }
      assert Keys(r) == Keys(d);
      r
    case None =>
      var r := d + [(k, v)];
      assert r[|d|].0 == k;
      assert IndexOf(r, k) == Some(|d|);
      forall k' | k' != k ensures Get(r, k') == Get(d, k') {
        PrefixIndex(d, r, k');
      }
      r
  }

  /** Overwriting the value at `i` moves no key. */
  lemma SameKeysSameIndex<V>(d: Dict<V>, r: Dict<V>, k: string, i: nat)
    requires |r| == |d| && i < |d|
    requires forall j :: 0 <= j < |d| && j != i ==> r[j] == d[j]
    requires r[i].0 == d[i].0 || (r[i].0 != k && d[i].0 != k)
    requires r[i].0 != k
    ensures Get(r, k) == Get(d, k)
  {
    var a := IndexOf(d, k);
    var b := IndexOf(r, k);
    if a.Some? {
      assert r[a.value] == d[a.value];
      assert HasKey(r, k);
      assert !(b.value < a.value);
      assert !(a.value < b.value);
    } else {
      assert forall j :: 0 <= j < |r| ==> r[j].0 != k;
    }
  }

  /** Appending a pair with another key moves no key. */
  lemma PrefixIndex<V>(d: Dict<V>, r: Dict<V>, k: string)
    requires |r| == |d| + 1 && r[..|d|] == d && r[|d|].0 != k
    ensures Get(r, k) == Get(d, k)
  {
    var a := IndexOf(d, k);
    var b := IndexOf(r, k);
    assert forall j :: 0 <= j < |d| ==> r[j] == d[j];
    if a.Some? {
      assert HasKey(r, k);
      assert !(b.value < a.value);
      assert !(a.value < b.value);
    } else {
      assert forall j :: 0 <= j < |r| ==> r[j].0 != k;
    }
  }

  /** A key occurs in `ps + [last]` iff it occurs in `ps` or is `last`'s. */
  lemma HasKeySnoc<V>(ps: seq<(string, V)>, last: (string, V), k: string)
    ensures HasKey(ps + [last], k) <==> HasKey(ps, k) || last.0 == k
  {
    var qs := ps + [last];
    if HasKey(qs, k) {
      var i :| 0 <= i < |qs| && qs[i].0 == k;
      if i < |ps| {
        assert ps[i].0 == k;
      }
    }
    if HasKey(ps, k) {
      var i :| 0 <= i < |ps| && ps[i].0 == k;
      assert qs[i].0 == k;
    }
    if last.0 == k {
      assert qs[|ps|].0 == k;
    }
  }

  /** A position that is last for its key in `ps + [last]`, other than the
      appended one, is last for its key in `ps` too. */
  lemma LastForKeyInit<V>(ps: seq<(string, V)>, last: (string, V), i: int)
    requires 0 <= i < |ps|
    requires LastForKey(ps + [last], i)
    ensures LastForKey(ps, i) && last.0 != ps[i].0
  {
    var qs := ps + [last];
    assert qs[|ps|] == last && qs[i] == ps[i];
    forall j | i < j < |ps| ensures ps[j].0 != ps[i].0 {
      assert qs[j] == ps[j];
    }
  }

  /** Appending a pair moves no key already present, and places a new key
      at the end. */
  lemma IndexOfSnoc<V>(ps: seq<(string, V)>, last: (string, V), k: string)
    ensures HasKey(ps, k) ==> IndexOf(ps + [last], k) == IndexOf(ps, k)
    ensures !HasKey(ps, k) && last.0 == k ==> IndexOf(ps + [last], k) == Some(|ps|)
  {
    var qs := ps + [last];
    if HasKey(ps, k) {
      var a := IndexOf(ps, k).value;
      assert qs[a].0 == k;
      var b := IndexOf(qs, k);
      assert b.Some?;
      assert !(b.value < a);
      assert !(a < b.value);
    } else if last.0 == k {
      assert qs[|ps|].0 == k;
      var b := IndexOf(qs, k);
      assert b.Some?;
      assert !(b.value < |ps|);
    }
  }

  /** The keys of `d` come in the order of their first occurrence in `ps`. */
  predicate FirstOccurrenceOrder<V>(d: Dict<V>, ps: seq<(string, V)>) {
    forall i, j :: 0 <= i < j < |d| ==>
      && IndexOf(ps, d[i].0).Some?
      && IndexOf(ps, d[j].0).Some?
      && IndexOf(ps, d[i].0).value < IndexOf(ps, d[j].0).value
  }

  /** `{k: v for k, v in ps}`: assign the pairs from left to right. */
  function FromPairs<V>(ps: seq<(string, V)>): (r: Dict<V>)
    ensures UniqueKeys(r)
    ensures forall k :: Get(r, k).Some? <==> HasKey(ps, k)
    ensures forall i :: 0 <= i < |ps| && LastForKey(ps, i) ==> Get(r, ps[i].0) == Some(ps[i].1)
    ensures FirstOccurrenceOrder(r, ps)
  {
    if |ps| == 0 then []
    else
      var init := ps[..|ps| - 1];
      var last := ps[|ps| - 1];
      assert ps == init + [last];
      var prev := FromPairs(init);
      var r := Insert(prev, last.0, last.1);
      forall k ensures Get(r, k).Some? <==> HasKey(ps, k) {
        HasKeySnoc(init, last, k);
      }
      forall i | 0 <= i < |ps| && LastForKey(ps, i)
        ensures Get(r, ps[i].0) == Some(ps[i].1)
      {
        if i < |ps| - 1 {
          LastForKeyInit(init, last, i);
          assert init[i] == ps[i];
        }
      }
      FromPairsOrder(init, last, prev, r);
      r
  }

  /** The inductive step of `FromPairs`'s key order. */
  lemma FromPairsOrder<V>(init: seq<(string, V)>, last: (string, V), prev: Dict<V>, r: Dict<V>)
    requires forall k :: Get(prev, k).Some? <==> HasKey(init, k)
    requires FirstOccurrenceOrder(prev, init)
    requires r == Insert(prev, last.0, last.1)
    ensures FirstOccurrenceOrder(r, init + [last])
  {
    var ps := init + [last];
    forall i | 0 <= i < |prev| ensures HasKey(init, prev[i].0) && IndexOf(ps, prev[i].0) == IndexOf(init, prev[i].0) {
      assert HasKey(prev, prev[i].0);
      IndexOfSnoc(init, last, prev[i].0);
    }
    if HasKey(prev, last.0) {
      assert Keys(r) == Keys(prev);
      forall i | 0 <= i < |r| ensures r[i].0 == prev[i].0 {
        assert Keys(r)[i] == Keys(prev)[i];
      }
    } else {
      assert !HasKey(init, last.0);
      IndexOfSnoc(init, last, last.0);
      assert r[|prev|] == last;
      forall i | 0 <= i < |prev| ensures r[i] == prev[i] {
      }
    }
  }

  /** A dict built from pairs whose keys are already distinct is those pairs. */
  lemma {:induction false} FromPairsUnique<V>(ps: seq<(string, V)>)
    requires UniqueKeys(ps)
    ensures FromPairs(ps) == ps
  {
    if |ps| > 0 {
      var init := ps[..|ps| - 1];
      var last := ps[|ps| - 1];
      assert ps == init + [last];
      assert UniqueKeys(init) by {
        forall i, j | 0 <= i < j < |init| ensures init[i].0 != init[j].0 {
          assert init[i] == ps[i] && init[j] == ps[j];
        }
      }
      FromPairsUnique(init);
      assert !HasKey(init, last.0) by {
        forall i | 0 <= i < |init| ensures init[i].0 != last.0 {
          assert init[i] == ps[i];
        }
      }
      assert FromPairs(ps) == Insert(FromPairs(init), last.0, last.1);
    }
  }
}

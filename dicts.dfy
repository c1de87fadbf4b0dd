/** Python dictionaries with string keys: the sequence of their items in insertion
    order. Assigning to a key that is present replaces its value in place; a new
    key goes last. `sorted` orders keys by code point. */
module Dicts {
  import opened Outcomes
  import opened PyText

  type Dict<V> = seq<(string, V)>

  function Keys<V>(d: Dict<V>): (ks: seq<string>)
    ensures |ks| == |d| && forall i :: 0 <= i < |d| ==> ks[i] == d[i].0
  {
    seq(|d|, i requires 0 <= i < |d| => d[i].0)
  }

  /** What every Python dictionary satisfies: no key occurs twice. */
  predicate DistinctKeys<V>(d: Dict<V>) {
    forall i, j :: 0 <= i < j < |d| ==> d[i].0 != d[j].0
  }

  /** `d.get(k)`. */
  function Lookup<V>(d: Dict<V>, k: string): (r: Option<V>)
    ensures r.Some? <==> k in Keys(d)
  {
    if d == [] then None
    else if d[0].0 == k then Some(d[0].1)
    else
      var r := Lookup(d[1..], k);
      assert Keys(d) == [d[0].0] + Keys(d[1..]);
      r
  }

  /** In a dictionary each item is what its key looks up. */
  lemma {:induction false} LookupAt<V>(d: Dict<V>, i: nat)
    requires DistinctKeys(d) && i < |d|
    ensures Lookup(d, d[i].0) == Some(d[i].1)
  {
    if i > 0 {
      assert d[0].0 != d[i].0;
      assert d[1..][i - 1] == d[i];
      LookupAt(d[1..], i - 1);
    }
  }

  /** A key looks up a value exactly when that item is in the dictionary. */
  lemma LookupMember<V>(d: Dict<V>, k: string, v: V)
    requires DistinctKeys(d)
    ensures Lookup(d, k) == Some(v) <==> (k, v) in d
  {
    if (k, v) in d {
      var i :| 0 <= i < |d| && d[i] == (k, v);
      LookupAt(d, i);
    } else if Lookup(d, k).Some? {
      var i :| 0 <= i < |d| && Keys(d)[i] == k;
      LookupAt(d, i);
    }
  }

  /** Two dictionaries holding the same items look up alike, whatever their order. */
  lemma LookupPermutation<V>(a: Dict<V>, b: Dict<V>, k: string)
    requires DistinctKeys(a) && DistinctKeys(b) && multiset(a) == multiset(b)
    ensures Lookup(a, k) == Lookup(b, k)
  {
    if Lookup(a, k).Some? {
      LookupMember(a, k, Lookup(a, k).value);
      assert (k, Lookup(a, k).value) in multiset(b);
      LookupMember(b, k, Lookup(a, k).value);
    } else if Lookup(b, k).Some? {
      LookupMember(b, k, Lookup(b, k).value);
      assert (k, Lookup(b, k).value) in multiset(a);
      LookupMember(a, k, Lookup(b, k).value);
    }
  }

  // ---------------------------------------------------------------------------
  // d.update({k: v})

  /** `d.update({k: v})`: a key already present keeps its place and takes the new
      value; a new key is added last. */
  function Update<V>(d: Dict<V>, k: string, v: V): (r: Dict<V>)
    ensures k !in Keys(d) ==> r == d + [(k, v)]
  {
    if d == [] then [(k, v)]
    else if d[0].0 == k then [(k, v)] + d[1..]
    else
      var rest := Update(d[1..], k, v);
      assert Keys(d) == [d[0].0] + Keys(d[1..]);
      assert d == [d[0]] + d[1..];
      [d[0]] + rest
  }

  /** Updating a key that is present changes its value and nothing else. */
  lemma {:induction false} UpdateInPlace<V>(d: Dict<V>, k: string, v: V)
    requires DistinctKeys(d) && k in Keys(d)
    ensures |Update(d, k, v)| == |d|
    ensures forall i :: 0 <= i < |d| ==> Update(d, k, v)[i] == (if d[i].0 == k then (k, v) else d[i])
    decreases |d|, 1
  {
    if d[0].0 == k {
      forall i | 0 < i < |d| ensures d[i].0 != k {
        assert d[0].0 != d[i].0;
      }
    } else {
      UpdatePastHead(d, k, v);
    }
  }

  lemma {:induction false} UpdatePastHead<V>(d: Dict<V>, k: string, v: V)
    requires DistinctKeys(d) && k in Keys(d) && d[0].0 != k
    ensures |Update(d, k, v)| == |d|
    ensures forall i :: 0 <= i < |d| ==> Update(d, k, v)[i] == (if d[i].0 == k then (k, v) else d[i])
    decreases |d|, 0
  {
    var tail := d[1..];
    var r := Update(d, k, v);
    assert r == [d[0]] + Update(tail, k, v);
    assert Keys(d) == [d[0].0] + Keys(tail);
    assert DistinctKeys(tail) by {
      forall i, j | 0 <= i < j < |tail| ensures tail[i].0 != tail[j].0 {
        assert tail[i] == d[i + 1] && tail[j] == d[j + 1];
      }
    }
    UpdateInPlace(tail, k, v);
    forall i | 0 < i < |d| ensures r[i] == (if d[i].0 == k then (k, v) else d[i]) {
      assert r[i] == Update(tail, k, v)[i - 1];
      assert tail[i - 1] == d[i];
    }
  }

  /** Updating keeps the keys distinct. */
  lemma UpdateDistinct<V>(d: Dict<V>, k: string, v: V)
    requires DistinctKeys(d)
    ensures DistinctKeys(Update(d, k, v))
  {
    var r := Update(d, k, v);
    if k in Keys(d) {
      UpdateInPlace(d, k, v);
      forall i, j | 0 <= i < j < |r| ensures r[i].0 != r[j].0 {
        assert r[i].0 == d[i].0 && r[j].0 == d[j].0;
      }
    } else {
      forall i, j | 0 <= i < j < |r| ensures r[i].0 != r[j].0 {
        if j == |d| {
          assert Keys(d)[i] == d[i].0;
        }
      }
    }
  }

  /** After the update the key looks up the new value and every other key what it
      looked up before. */
  lemma UpdateLookup<V>(d: Dict<V>, k: string, v: V, k': string)
    requires DistinctKeys(d)
    ensures Lookup(Update(d, k, v), k') == if k' == k then Some(v) else Lookup(d, k')
  {
    var r := Update(d, k, v);
    UpdateDistinct(d, k, v);
    if k in Keys(d) {
      UpdateInPlace(d, k, v);
    }
    if k' == k {
      LookupMember(r, k, v);
      if k !in Keys(d) {
        assert r[|d|] == (k, v);
      } else {
        var i :| 0 <= i < |d| && Keys(d)[i] == k;
        assert r[i] == (k, v);
      }
    } else if Lookup(d, k').Some? {
      var w := Lookup(d, k').value;
      LookupMember(d, k', w);
      var i :| 0 <= i < |d| && d[i] == (k', w);
      assert r[i] == (k', w);
      LookupMember(r, k', w);
    } else {
      forall i | 0 <= i < |r| ensures Keys(r)[i] != k' {
        if i < |d| {
          assert Keys(d)[i] == d[i].0;
        }
      }
    }
  }

  // ---------------------------------------------------------------------------
  // building a dictionary from a sequence of items, later items winning

  /** Updating an empty dictionary with each pair in turn. */
  function FromPairs<V>(ps: seq<(string, V)>): (d: Dict<V>)
    ensures DistinctKeys(d)
  {
    if ps == [] then []
    else
      var init := FromPairs(ps[..|ps| - 1]);
      UpdateDistinct(init, ps[|ps| - 1].0, ps[|ps| - 1].1);
      Update(init, ps[|ps| - 1].0, ps[|ps| - 1].1)
  }

  /** The value of the last pair with key `k`. */
  function LastValue<V>(ps: seq<(string, V)>, k: string): Option<V> {
    if ps == [] then None
    else if ps[|ps| - 1].0 == k then Some(ps[|ps| - 1].1)
    else LastValue(ps[..|ps| - 1], k)
  }

  /** A key of the result looks up the value of its last pair: later pairs overwrite
      earlier ones. */
  lemma {:induction false} FromPairsLookup<V>(ps: seq<(string, V)>, k: string)
    ensures Lookup(FromPairs(ps), k) == LastValue(ps, k)
  {
    if ps != [] {
      var init := ps[..|ps| - 1];
      FromPairsLookup(init, k);
      UpdateLookup(FromPairs(init), ps[|ps| - 1].0, ps[|ps| - 1].1, k);
    }
  }

  lemma {:induction false} LastValueDefined<V>(ps: seq<(string, V)>, k: string)
    ensures LastValue(ps, k).Some? <==> exists i :: 0 <= i < |ps| && ps[i].0 == k
  {
    if ps != [] {
      var init := ps[..|ps| - 1];
      LastValueDefined(init, k);
      if ps[|ps| - 1].0 != k {
        forall i | 0 <= i < |ps| - 1 ensures init[i] == ps[i] { }
      }
    }
  }

  /** The pair `(k, v)` occurs in `ps` and no later pair has the key `k`. */
  ghost predicate LastOccurrence<V>(ps: seq<(string, V)>, k: string, v: V) {
    exists i :: 0 <= i < |ps| && ps[i] == (k, v) && forall j :: i < j < |ps| ==> ps[j].0 != k
  }

  /** `LastValue` finds the value of the last pair with the key. */
  lemma {:induction false} LastValueIsLast<V>(ps: seq<(string, V)>, k: string, v: V)
    ensures LastValue(ps, k) == Some(v) <==> LastOccurrence(ps, k, v)
  {
    if ps != [] {
      var n := |ps| - 1;
      var init := ps[..n];
      if ps[n].0 != k {
        LastValueIsLast(init, k, v);
        if LastOccurrence(init, k, v) {
          var i :| 0 <= i < n && init[i] == (k, v) && forall j :: i < j < n ==> init[j].0 != k;
          assert ps[i] == (k, v);
          forall j | i < j < |ps| ensures ps[j].0 != k {
            if j < n {
              assert init[j] == ps[j];
            }
          }
          assert LastOccurrence(ps, k, v);
        }
        if LastOccurrence(ps, k, v) {
          var i :| 0 <= i < |ps| && ps[i] == (k, v) && forall j :: i < j < |ps| ==> ps[j].0 != k;
          assert i < n && init[i] == (k, v);
          forall j | i < j < n ensures init[j].0 != k {
            assert init[j] == ps[j];
          }
          assert LastOccurrence(init, k, v);
        }
      } else {
        if LastOccurrence(ps, k, v) {
          var i :| 0 <= i < |ps| && ps[i] == (k, v) && forall j :: i < j < |ps| ==> ps[j].0 != k;
          assert i == n;
        }
        if LastValue(ps, k) == Some(v) {
          assert ps[n] == (k, v);
          assert LastOccurrence(ps, k, v);
        }
      }
    }
  }

  /** The keys of the result are exactly the keys of the pairs. */
  lemma FromPairsKeys<V>(ps: seq<(string, V)>, k: string)
    ensures k in Keys(FromPairs(ps)) <==> exists i :: 0 <= i < |ps| && ps[i].0 == k
  {
    FromPairsLookup(ps, k);
    LastValueDefined(ps, k);
  }

  lemma FromPairsSnoc<V>(ps: seq<(string, V)>, p: (string, V))
    ensures FromPairs(ps + [p]) == Update(FromPairs(ps), p.0, p.1)
  {
    assert (ps + [p])[..|ps|] == ps;
  }

  // ---------------------------------------------------------------------------
  // { key: d[key] for key in sorted(d) }

  predicate StrictlySorted<V>(d: Dict<V>) {
    forall i, j :: 0 <= i < j < |d| ==> Less(d[i].0, d[j].0)
  }

  lemma SortedDistinct<V>(d: Dict<V>)
    requires StrictlySorted(d)
    ensures DistinctKeys(d)
  {
    forall i, j | 0 <= i < j < |d| ensures d[i].0 != d[j].0 {
      if d[i].0 == d[j].0 {
        LessIrreflexive(d[i].0);
      }
    }
  }

  /** An item in front of a sorted dictionary whose keys all follow it. */
  lemma SortedCons<V>(p: (string, V), d: Dict<V>)
    requires StrictlySorted(d)
    requires forall q :: q in d ==> Less(p.0, q.0)
    ensures StrictlySorted([p] + d)
  {
    var r := [p] + d;
    forall i, j | 0 <= i < j < |r| ensures Less(r[i].0, r[j].0) {
      if i == 0 {
        assert r[j] == d[j - 1];
      } else {
        assert r[i] == d[i - 1] && r[j] == d[j - 1];
      }
    }
  }

  /** Places an item before the first key greater than its own. */
  function Insert<V>(d: Dict<V>, p: (string, V)): (r: Dict<V>)
    ensures multiset(r) == multiset(d) + multiset{p}
  {
    if d == [] then [p]
    else if Less(p.0, d[0].0) then [p] + d
    else
      assert d == [d[0]] + d[1..];
      [d[0]] + Insert(d[1..], p)
  }

  lemma SortedTail<V>(d: Dict<V>)
    requires StrictlySorted(d) && |d| > 0
    ensures StrictlySorted(d[1..])
  {
    forall i, j | 0 <= i < j < |d| - 1 ensures Less(d[1..][i].0, d[1..][j].0) {
      assert d[1..][i] == d[i + 1] && d[1..][j] == d[j + 1];
    }
  }

  /** The first key of a sorted dictionary comes before all the others. */
  lemma SortedHead<V>(d: Dict<V>, q: (string, V))
    requires StrictlySorted(d) && |d| > 0 && q in d[1..]
    ensures Less(d[0].0, q.0)
  {
    var j :| 0 <= j < |d| - 1 && d[1..][j] == q;
    assert d[j + 1] == q;
  }

  /** Inserting into a sorted dictionary a key it lacks keeps it sorted. */
  lemma {:induction false} InsertSorted<V>(d: Dict<V>, p: (string, V))
    requires StrictlySorted(d) && p.0 !in Keys(d)
    ensures StrictlySorted(Insert(d, p))
  {
    if d == [] {
    } else if Less(p.0, d[0].0) {
      forall q | q in d ensures Less(p.0, q.0) {
        if q != d[0] {
          assert q in d[1..] by {
            assert d == [d[0]] + d[1..];
          }
          SortedHead(d, q);
          LessTransitive(p.0, d[0].0, q.0);
        }
      }
      SortedCons(p, d);
    } else {
      assert Keys(d) == [d[0].0] + Keys(d[1..]);
      SortedTail(d);
      InsertSorted(d[1..], p);
      var rest := Insert(d[1..], p);
      assert p.0 != d[0].0 by {
        assert Keys(d)[0] == d[0].0;
      }
      LessTotal(p.0, d[0].0);
      forall q | q in rest ensures Less(d[0].0, q.0) {
        assert q in multiset(rest);
        if q != p {
          SortedHead(d, q);
        }
      }
      SortedCons(d[0], rest);
    }
  }

  lemma DistinctTail<V>(d: Dict<V>)
    requires DistinctKeys(d) && |d| > 0
    ensures DistinctKeys(d[1..])
  {
    forall i, j | 0 <= i < j < |d| - 1 ensures d[1..][i].0 != d[1..][j].0 {
      assert d[1..][i] == d[i + 1] && d[1..][j] == d[j + 1];
    }
  }

  /** `{key: d[key] for key in sorted(d)}`: the same items, keys in ascending order. */
  function SortDict<V>(d: Dict<V>): (r: Dict<V>)
    ensures multiset(r) == multiset(d)
    ensures DistinctKeys(d) ==> StrictlySorted(r) && DistinctKeys(r)
  {
    if d == [] then []
    else
      var rest := SortDict(d[1..]);
      assert d == [d[0]] + d[1..];
      var r := Insert(rest, d[0]);
      if DistinctKeys(d) then
        DistinctTail(d);
        assert forall i :: 0 <= i < |rest| ==> Keys(rest)[i] != d[0].0 by {
          forall i | 0 <= i < |rest| ensures Keys(rest)[i] != d[0].0 {
            assert rest[i] in multiset(d[1..]);
            var j :| 0 <= j < |d| - 1 && d[1..][j] == rest[i];
            assert d[j + 1] == rest[i];
          }
        }
        InsertSorted(rest, d[0]);
        SortedDistinct(r);
        r
      else r
  }

  /** Sorting changes the order of the items and nothing they look up. */
  lemma SortDictLookup<V>(d: Dict<V>, k: string)
    requires DistinctKeys(d)
    ensures Lookup(SortDict(d), k) == Lookup(d, k)
  {
    LookupPermutation(SortDict(d), d, k);
  }
}

/** Python dictionaries as the transform uses them: keys kept in first-insertion order,
    and insertion of a key that is already present leaves its stored value alone. */
module OrderedDict {
  import opened Options

  /** Entries in the order their keys were first inserted. */
  type Dict<K, V> = seq<(K, V)>

  predicate HasKey<K(==), V>(d: Dict<K, V>, k: K)
  {
    exists i :: 0 <= i < |d| && d[i].0 == k
  }

  predicate UniqueKeys<K(==), V>(d: Dict<K, V>)
  {
    forall i, j :: 0 <= i < j < |d| ==> d[i].0 != d[j].0
  }

  /** The value of the first entry whose key is `k`, if there is one. */
  function Lookup<K(==), V>(d: Dict<K, V>, k: K): (r: Option<V>)
    ensures r.Some? <==> HasKey(d, k)
    ensures r.Some? ==> exists i :: 0 <= i < |d| && d[i] == (k, r.value) && forall j :: 0 <= j < i ==> d[j].0 != k
  {
    if |d| == 0 then None
    else if d[0].0 == k then Some(d[0].1)
    else
      var r := Lookup(d[1..], k);
      assert HasKey(d, k) ==> HasKey(d[1..], k) by {
        if HasKey(d, k) {
          var i :| 0 <= i < |d| && d[i].0 == k;
          assert d[1..][i - 1].0 == k;
        }
      }
      assert r.Some? ==> exists i :: 0 <= i < |d| && d[i] == (k, r.value) && forall j :: 0 <= j < i ==> d[j].0 != k by {
        if r.Some? {
          var i :| 0 <= i < |d[1..]| && d[1..][i] == (k, r.value) && forall j :: 0 <= j < i ==> d[1..][j].0 != k;
          assert d[i + 1] == (k, r.value);
          assert forall j :: 0 <= j < i + 1 ==> d[j].0 != k by {
            forall j | 0 <= j < i + 1 ensures d[j].0 != k {
              if j > 0 { assert d[j] == d[1..][j - 1]; }
            }
          }
        }
      }
      r
  }

  /** The lookup in a concatenation finds the first part's entry before the second's. */
  lemma {:induction false} LookupAppend<K, V>(a: Dict<K, V>, b: Dict<K, V>, k: K)
    ensures Lookup(a + b, k) == if HasKey(a, k) then Lookup(a, k) else Lookup(b, k)
  {
    if |a| == 0 {
      assert a + b == b;
    } else if a[0].0 == k {
      assert (a + b)[0] == a[0];
    } else {
      assert (a + b)[0] == a[0];
      assert (a + b)[1..] == a[1..] + b;
      LookupAppend(a[1..], b, k);
    }
  }

  /** `if k not in d: d[k] = v` */
  function InsertIfAbsent<K(==), V>(d: Dict<K, V>, k: K, v: V): (r: Dict<K, V>)
    ensures d <= r && |r| <= |d| + 1
    ensures Lookup(r, k) == if HasKey(d, k) then Lookup(d, k) else Some(v)
    ensures UniqueKeys(d) ==> UniqueKeys(r)
  {
    if HasKey(d, k) then d
    else
      LookupAppend(d, [(k, v)], k);
      d + [(k, v)]
  }

  /** Inserting `k` changes the lookup of no other key. */
  lemma InsertIfAbsentOthers<K, V>(d: Dict<K, V>, k: K, v: V, k': K)
    requires k' != k
    ensures Lookup(InsertIfAbsent(d, k, v), k') == Lookup(d, k')
  {
    if !HasKey(d, k) {
      LookupAppend(d, [(k, v)], k');
    }
  }

  /** Insert every pair of `ps`, in order, with first-wins semantics. */
  function InsertAll<K(==), V>(d: Dict<K, V>, ps: seq<(K, V)>): Dict<K, V>
    decreases |ps|
  {
    if |ps| == 0 then d else InsertAll(InsertIfAbsent(d, ps[0].0, ps[0].1), ps[1..])
  }

  /** Insertion only appends: existing entries keep their positions, and keys stay unique. */
  lemma {:induction false} InsertAllExtends<K, V>(d: Dict<K, V>, ps: seq<(K, V)>)
    ensures d <= InsertAll(d, ps)
    ensures UniqueKeys(d) ==> UniqueKeys(InsertAll(d, ps))
    decreases |ps|
  {
    if |ps| != 0 {
      InsertAllExtends(InsertIfAbsent(d, ps[0].0, ps[0].1), ps[1..]);
    }
  }

  /** First-seen wins: after inserting `ps`, every key maps to its value in `d` if it
      was already there, and otherwise to the value of its first occurrence in `ps`. */
  lemma {:induction false} InsertAllFirstSeen<K, V>(d: Dict<K, V>, ps: seq<(K, V)>, k: K)
    ensures Lookup(InsertAll(d, ps), k) == Lookup(d + ps, k)
    decreases |ps|
  {
    if |ps| == 0 {
      assert d + ps == d;
    } else {
      var d' := InsertIfAbsent(d, ps[0].0, ps[0].1);
      InsertAllFirstSeen(d', ps[1..], k);
      LookupAppend(d', ps[1..], k);
      LookupAppend(d, ps, k);
    }
  }

  /** Inserting two runs of pairs one after the other is inserting their concatenation. */
  lemma {:induction false} InsertAllConcat<K, V>(d: Dict<K, V>, a: seq<(K, V)>, b: seq<(K, V)>)
    ensures InsertAll(d, a + b) == InsertAll(InsertAll(d, a), b)
    decreases |a|
  {
    if |a| == 0 {
      assert a + b == b;
    } else {
      assert (a + b)[0] == a[0];
      assert (a + b)[1..] == a[1..] + b;
      InsertAllConcat(InsertIfAbsent(d, a[0].0, a[0].1), a[1..], b);
    }
  }

  /** Every key of a dictionary is still a key of any extension of it. */
  lemma HasKeyPrefix<K, V>(d: Dict<K, V>, r: Dict<K, V>)
    requires d <= r
    ensures forall k :: HasKey(d, k) ==> HasKey(r, k)
  {
    forall k | HasKey(d, k) ensures HasKey(r, k) {
      var i :| 0 <= i < |d| && d[i].0 == k;
      assert r[i] == d[i];
    }
  }

  /** Every key inserted is afterwards present. */
  lemma InsertAllCovers<K, V>(d: Dict<K, V>, ps: seq<(K, V)>)
    ensures forall n :: 0 <= n < |ps| ==> HasKey(InsertAll(d, ps), ps[n].0)
  {
    forall n | 0 <= n < |ps| ensures HasKey(InsertAll(d, ps), ps[n].0) {
      InsertAllFirstSeen(d, ps, ps[n].0);
      assert (d + ps)[|d| + n].0 == ps[n].0;
    }
  }
}

/** A string-keyed map that remembers insertion order, as a plain JS object
    does for non-index keys: assigning to a new key appends it, assigning to
    an existing key keeps its position, deleting removes it. */
module OrderedMap {

  datatype OMap<V> = OMap(keys: seq<string>, vals: map<string, V>)

  /** No element occurs twice. */
  predicate Distinct(s: seq<string>) {
    forall i, j | 0 <= i < j < |s| :: s[i] != s[j]
  }

  /** `keys` lists every key of `vals` exactly once, in insertion order. */
  predicate Valid<V>(m: OMap<V>) {
    && Distinct(m.keys)
    && (forall k | k in m.vals :: k in m.keys)
    && (forall k | k in m.keys :: k in m.vals)
  }

  /** `a` is `b` with some elements dropped and the rest left in order. */
  ghost predicate Subseq(a: seq<string>, b: seq<string>) {
    if |a| == 0 then true
    else if |b| == 0 then false
    else if a[0] == b[0] then Subseq(a[1..], b[1..])
    else Subseq(a, b[1..])
  }

  function Empty<V>(): (m: OMap<V>)
    ensures Valid(m) && |m.keys| == 0
  {
    OMap([], map[])
  }

  /** `m[k] = v`: `k` now maps to `v`, no other key changes, and `k` keeps its
      place when already present or is appended when new. */
  function Put<V>(m: OMap<V>, k: string, v: V): (r: OMap<V>)
    requires Valid(m)
    ensures Valid(r)
    ensures k in r.vals && r.vals[k] == v
    ensures forall x | x != k :: (x in r.vals <==> x in m.vals) && (x in m.vals ==> r.vals[x] == m.vals[x])
    ensures k in m.vals ==> r.keys == m.keys
    ensures k !in m.vals ==> r.keys == m.keys + [k]
  {
    OMap(if k in m.vals then m.keys else m.keys + [k], m.vals[k := v])
  }

  /** The keys of `keys`, in order, whose value satisfies `keep`. */
  function FilterKeys<V>(keys: seq<string>, vals: map<string, V>, keep: V -> bool): (r: seq<string>)
    requires forall k | k in keys :: k in vals
    ensures forall k :: k in r <==> k in keys && keep(vals[k])
    ensures Distinct(keys) ==> Distinct(r)
    ensures Subseq(r, keys)
  {
    if |keys| == 0 then []
    else
      var rest := FilterKeys(keys[1..], vals, keep);
      if keep(vals[keys[0]]) then [keys[0]] + rest else rest
  }

  /** Delete every entry whose value fails `keep`; the survivors keep their
      values and their relative order. */
  function Filter<V>(m: OMap<V>, keep: V -> bool): (r: OMap<V>)
    requires Valid(m)
    ensures Valid(r)
    ensures forall k :: k in r.vals <==> k in m.vals && keep(m.vals[k])
    ensures forall k | k in r.vals :: r.vals[k] == m.vals[k]
    ensures Subseq(r.keys, m.keys)
  {
    OMap(FilterKeys(m.keys, m.vals, keep), map k | k in m.vals && keep(m.vals[k]) :: m.vals[k])
  }

  /** Position `i` of `keys` holds the earliest key whose value `keep` accepts. */
  ghost predicate IsFirstKept<V>(keys: seq<string>, vals: map<string, V>, keep: V -> bool, i: int)
    requires forall k | k in keys :: k in vals
  {
    && 0 <= i < |keys|
    && keep(vals[keys[i]])
    && forall j | 0 <= j < i :: !keep(vals[keys[j]])
  }

  /** The first key left by the filter is the earliest accepted key in
      insertion order. */
  lemma {:induction false} FilterKeysFirst<V>(keys: seq<string>, vals: map<string, V>, keep: V -> bool, i: int)
    requires forall k | k in keys :: k in vals
    requires IsFirstKept(keys, vals, keep, i)
    ensures |FilterKeys(keys, vals, keep)| > 0
    ensures FilterKeys(keys, vals, keep)[0] == keys[i]
  {
    if i > 0 {
      assert IsFirstKept(keys[1..], vals, keep, i - 1);
      FilterKeysFirst(keys[1..], vals, keep, i - 1);
    }
  }

  /** Every element of a subsequence occurs in the sequence it was taken from. */
  lemma {:induction false} SubseqMembers(a: seq<string>, b: seq<string>)
    requires Subseq(a, b)
    ensures forall x | x in a :: x in b
  {
    if |a| > 0 {
      if a[0] == b[0] {
        SubseqMembers(a[1..], b[1..]);
        forall x | x in a ensures x in b {
          if x != a[0] {
            assert x in a[1..];
          }
        }
      } else {
        SubseqMembers(a, b[1..]);
      }
    }
  }

  /** Two duplicate-free subsequences of a duplicate-free sequence with the
      same elements are equal: order is fixed by the sequence they come from. */
  lemma {:induction false} SubseqDetermined(a: seq<string>, b: seq<string>, s: seq<string>)
    requires Distinct(s)
    requires Subseq(a, s) && Subseq(b, s)
    requires forall x :: x in a <==> x in b
    ensures a == b
  {
    if |b| > 0 { assert b[0] in a; }
    if |a| > 0 { assert a[0] in b; }
    if |s| == 0 || |a| == 0 || |b| == 0 {
    } else {
      var tail := s[1..];
      assert Distinct(tail) by {
        forall i, j | 0 <= i < j < |tail| ensures tail[i] != tail[j] {
          assert tail[i] == s[i + 1] && tail[j] == s[j + 1];
        }
      }
      assert s[0] !in tail by {
        forall i | 0 <= i < |tail| ensures tail[i] != s[0] {
          assert tail[i] == s[i + 1];
        }
      }
      if a[0] == s[0] && b[0] == s[0] {
        SubseqMembers(a[1..], tail);
        SubseqMembers(b[1..], tail);
        forall x ensures x in a[1..] <==> x in b[1..] {
          if x in a[1..] {
            assert x in b && x != s[0];
            assert x == b[0] || x in b[1..] by {
              var i :| 0 <= i < |b| && b[i] == x;
              if i > 0 { assert b[1..][i - 1] == x; }
            }
          }
          if x in b[1..] {
            assert x in a && x != s[0];
            assert x == a[0] || x in a[1..] by {
              var i :| 0 <= i < |a| && a[i] == x;
              if i > 0 { assert a[1..][i - 1] == x; }
            }
          }
        }
        SubseqDetermined(a[1..], b[1..], tail);
        assert a == [a[0]] + a[1..] && b == [b[0]] + b[1..];
      } else if a[0] == s[0] {
        SubseqMembers(b, tail);
      } else if b[0] == s[0] {
        SubseqMembers(a, tail);
      } else {
        SubseqDetermined(a, b, tail);
      }
    }
  }

  /** The contract of `Filter` pins its result down: any valid map with the
      same entries whose keys are a subsequence of the original's is it. */
  lemma FilterIsUnique<V>(m: OMap<V>, keep: V -> bool, r: OMap<V>)
    requires Valid(m) && Valid(r)
    requires forall k :: k in r.vals <==> k in m.vals && keep(m.vals[k])
    requires forall k | k in r.vals :: r.vals[k] == m.vals[k]
    requires Subseq(r.keys, m.keys)
    ensures r == Filter(m, keep)
  {
    var f := Filter(m, keep);
    SubseqDetermined(r.keys, f.keys, m.keys);
    assert r.vals == f.vals;
  }
}

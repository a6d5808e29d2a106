/** A JavaScript object's own string-keyed properties, in insertion order:
    request headers, `process.env`, the error objects of `_toJSON`.
    `Set` is `obj[k] = v` (an existing key keeps its place, a new key goes
    last) and `Spread` is `{ ...base, ...extra }`. */
module Fields {
  import opened Wrappers

  type Fields<V> = seq<(string, V)>

  function Keys<V>(f: Fields<V>): (ks: seq<string>)
    ensures |ks| == |f|
    ensures forall i :: 0 <= i < |f| ==> ks[i] == f[i].0
  {
    if f == [] then [] else [f[0].0] + Keys(f[1..])
  }

  /** Every key occurs once, as in any object. */
  predicate DistinctKeys<V>(f: Fields<V>) {
    forall i, j :: 0 <= i < j < |f| ==> f[i].0 != f[j].0
  }

  /** `obj[k]`: `None` stands for `undefined`. */
  function Get<V>(f: Fields<V>, k: string): (r: Option<V>)
  {
    if f == [] then None
    else if f[0].0 == k then Some(f[0].1)
    else Get(f[1..], k)
  }

  /** A key reads as `undefined` exactly when the object lacks it, and
      otherwise reads as a value stored under it. */
  lemma {:induction false} GetKeys<V>(f: Fields<V>, k: string)
    ensures Get(f, k).None? <==> k !in Keys(f)
    ensures Get(f, k).Some? ==> (k, Get(f, k).value) in f
  {
    if f != [] {
      assert Keys(f) == [f[0].0] + Keys(f[1..]);
      GetKeys(f[1..], k);
    }
  }

  /** `obj[k] = v`. */
  function Set<V>(f: Fields<V>, k: string, v: V): Fields<V> {
    if f == [] then [(k, v)]
    else if f[0].0 == k then [(k, v)] + f[1..]
    else [f[0]] + Set(f[1..], k, v)
  }

  /** After `obj[k] = v`, `k` reads `v` and every other key reads as before. */
  lemma {:induction false} SetGet<V>(f: Fields<V>, k: string, v: V, k': string)
    ensures Get(Set(f, k, v), k') == if k' == k then Some(v) else Get(f, k')
  {
    if f != [] {
      var r := Set(f, k, v);
      if f[0].0 == k {
        assert r[0] == (k, v) && r[1..] == f[1..];
      } else {
        SetGet(f[1..], k, v, k');
        assert r[0] == f[0] && r[1..] == Set(f[1..], k, v);
      }
    }
  }

  /** An assigned key keeps its place if present and is otherwise added last. */
  lemma {:induction false} SetKeys<V>(f: Fields<V>, k: string, v: V)
    ensures Keys(Set(f, k, v)) == if k in Keys(f) then Keys(f) else Keys(f) + [k]
  {
    if f != [] {
      KeysCons(f[0], f[1..]);
      assert [f[0]] + f[1..] == f;
      if f[0].0 == k {
        KeysCons((k, v), f[1..]);
      } else {
        var tail := Set(f[1..], k, v);
        SetKeys(f[1..], k, v);
        KeysCons(f[0], tail);
        assert k in Keys(f) <==> k in Keys(f[1..]);
        assert [f[0].0] + (Keys(f[1..]) + [k]) == [f[0].0] + Keys(f[1..]) + [k];
      }
    }
  }

  lemma KeysCons<V>(e: (string, V), f: Fields<V>)
    ensures Keys([e] + f) == [e.0] + Keys(f)
  {
    assert ([e] + f)[0] == e && ([e] + f)[1..] == f;
  }

  /** Assigning a property never creates a duplicate key. */
  lemma SetKeepsDistinct<V>(f: Fields<V>, k: string, v: V)
    requires DistinctKeys(f)
    ensures DistinctKeys(Set(f, k, v))
  {
    var r := Set(f, k, v);
    SetKeys(f, k, v);
    forall i, j | 0 <= i < j < |r| ensures r[i].0 != r[j].0 {
      assert r[i].0 == Keys(r)[i] && r[j].0 == Keys(r)[j];
      if k !in Keys(f) && j == |f| {
        assert Keys(r)[i] == Keys(f)[i];
      } else {
        assert Keys(r)[i] == f[i].0 && Keys(r)[j] == f[j].0;
      }
    }
  }

  /** `{ ...base, ...extra }`: the properties of `extra` are assigned onto a
      copy of `base`, one by one, in their order. */
  function Spread<V>(base: Fields<V>, extra: Fields<V>): Fields<V>
    decreases |extra|
  {
    if extra == [] then base
    else Spread(Set(base, extra[0].0, extra[0].1), extra[1..])
  }

  /** A key of `extra` reads its value from `extra`; any other key reads
      through to `base`; and no key appears twice. */
  lemma {:induction false} SpreadGet<V>(base: Fields<V>, extra: Fields<V>, k: string)
    requires DistinctKeys(base) && DistinctKeys(extra)
    ensures Get(Spread(base, extra), k) == if k in Keys(extra) then Get(extra, k) else Get(base, k)
    ensures DistinctKeys(Spread(base, extra))
    ensures forall k' :: k' in Keys(Spread(base, extra)) <==> k' in Keys(base) || k' in Keys(extra)
    decreases |extra|
  {
    if extra != [] {
      var tail := extra[1..];
      assert Keys(extra) == [extra[0].0] + Keys(tail);
      assert DistinctKeys(tail);
      assert extra[0].0 !in Keys(tail) by {
        forall i | 0 <= i < |tail| ensures tail[i].0 != extra[0].0 {
          assert tail[i] == extra[i + 1];
        }
      }
      SetKeepsDistinct(base, extra[0].0, extra[0].1);
      SetKeys(base, extra[0].0, extra[0].1);
      GetKeys(tail, k);
      SetGet(base, extra[0].0, extra[0].1, k);
      SpreadGet(Set(base, extra[0].0, extra[0].1), tail, k);
    }
  }

  /** The object with the properties named in `names` taken out (the rest
      of a destructuring pattern), in their order. */
  function Without<V>(f: Fields<V>, names: seq<string>): Fields<V> {
    if f == [] then []
    else (if f[0].0 in names then [] else [f[0]]) + Without(f[1..], names)
  }

  /** Removed properties read as `undefined`; every other reads as before. */
  lemma {:induction false} WithoutGet<V>(f: Fields<V>, names: seq<string>, k: string)
    ensures Get(Without(f, names), k) == if k in names then None else Get(f, k)
  {
    if f != [] {
      WithoutGet(f[1..], names, k);
      var rest := Without(f[1..], names);
      if f[0].0 !in names {
        assert ([f[0]] + rest)[1..] == rest;
      } else {
        assert [] + rest == rest;
      }
    }
  }

  /** Taking properties out keeps exactly the others' keys. */
  lemma {:induction false} WithoutKeys<V>(f: Fields<V>, names: seq<string>)
    ensures forall k :: k in Keys(Without(f, names)) <==> k in Keys(f) && k !in names
  {
    if f != [] {
      WithoutKeys(f[1..], names);
      var rest := Without(f[1..], names);
      assert Keys(f) == [f[0].0] + Keys(f[1..]);
      if f[0].0 !in names {
        assert Keys([f[0]] + rest) == [f[0].0] + Keys(rest);
      } else {
        assert [] + rest == rest;
      }
    }
  }

  /** In an object, the first key does not occur again. */
  lemma HeadNotInTail<V>(f: Fields<V>)
    requires f != [] && DistinctKeys(f)
    ensures DistinctKeys(f[1..]) && f[0].0 !in Keys(f[1..])
  {
    forall i | 0 <= i < |f[1..]| ensures f[1..][i].0 != f[0].0 {
      assert f[1..][i] == f[i + 1];
    }
  }

  /** Taking properties out never duplicates a key. */
  lemma {:induction false} WithoutDistinct<V>(f: Fields<V>, names: seq<string>)
    requires DistinctKeys(f)
    ensures DistinctKeys(Without(f, names))
  {
    if f != [] {
      HeadNotInTail(f);
      WithoutDistinct(f[1..], names);
      WithoutKeys(f[1..], names);
      var rest := Without(f[1..], names);
      if f[0].0 !in names {
        var r := [f[0]] + rest;
        forall i, j | 0 <= i < j < |r| ensures r[i].0 != r[j].0 {
          assert r[j] == rest[j - 1];
          if i == 0 {
            assert r[j].0 == Keys(rest)[j - 1];
          } else {
            assert r[i] == rest[i - 1];
          }
        }
      } else {
        assert [] + rest == rest;
      }
    }
  }

  /** Taking properties out keeps entries of the original only. */
  lemma {:induction false} WithoutSubset<V>(f: Fields<V>, names: seq<string>)
    ensures forall e :: e in Without(f, names) ==> e in f
  {
    if f != [] {
      WithoutSubset(f[1..], names);
      assert forall e :: e in f[1..] ==> e in f;
    }
  }
}

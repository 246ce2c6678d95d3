/**
 * src/lib/utils/array-utils.ts: `createCombinations`, which lists every map
 * from a list of keys to a list of values by counting in the mixed radix
 * whose base is the number of values, the first key being the least
 * significant digit.
 */
module ArrayUtils {

  /** `b ** e` on naturals. */
  function Pow(b: nat, e: nat): (r: nat)
    ensures b > 0 ==> r > 0
  {
    if e == 0 then 1 else b * Pow(b, e - 1)
  }

  /** The map of index `t`: every key gets the value at its digit of `t` in
      base |values|, a key occurring twice keeps its last value, and with
      no values the lookup `array2[NaN]` is undefined and no key is set. */
  function Combination<K, V>(keys: seq<K>, values: seq<V>, t: nat): map<K, V>
  {
    if keys == [] || values == [] then map[]
    else map[keys[0] := values[t % |values|]] + Combination(keys[1..], values, t / |values|)
  }

  /** Digit `k` of `t` in base `b`. */
  function Digit(t: nat, b: nat, k: nat): (d: nat)
    requires b > 0
    ensures d < b
    decreases k
  {
    if k == 0 then t % b else Digit(t / b, b, k - 1)
  }

  predicate Distinct<T(==)>(s: seq<T>)
  {
    forall i, j :: 0 <= i < j < |s| ==> s[i] != s[j]
  }

  lemma DivModUnique(b: nat, q: nat, r: nat)
    requires 0 < b && r < b
    ensures (b * q + r) / b == q && (b * q + r) % b == r
  {
    var t := b * q + r;
    var q', r' := t / b, t % b;
    assert t == b * q' + r';
    var d := q - q';
    assert b * d == r' - r;
    assert b * d == b + b * (d - 1);
    assert b * d == b * (d + 1) - b;
    assert d >= 1 ==> b * (d - 1) >= 0;
    assert d <= -1 ==> b * (d + 1) <= 0;
  }

  /** `createCombinations` (src/lib/utils/array-utils.ts:1-24): exactly
      |values|^|keys| maps, map `i` being the combination of index `i`. */
  method CreateCombinations<K(==), V>(keys: seq<K>, values: seq<V>) returns (combinations: seq<map<K, V>>)
    ensures |combinations| == Pow(|values|, |keys|)
    ensures forall i :: 0 <= i < |combinations| ==> combinations[i] == Combination(keys, values, i)
  {
    combinations := [];
    var total := Pow(|values|, |keys|);
    var i := 0;
    while i < total
      invariant i <= total
      invariant |combinations| == i
      invariant forall k :: 0 <= k < i ==> combinations[k] == Combination(keys, values, k)
    {
      var m := BuildCombination(keys, values, i);
      combinations := combinations + [m];
      i := i + 1;
    }
  }

  /** The body of the outer loop (src/lib/utils/array-utils.ts:6-18): the
      map of index `i`, one key at a time, with `temp` holding the digits
      not used yet. */
  method BuildCombination<K(==), V>(keys: seq<K>, values: seq<V>, i: nat) returns (m: map<K, V>)
    ensures m == Combination(keys, values, i)
  {
    m := map[];
    var temp: nat := i;
    var j := 0;
    assert keys[0..] == keys;
    while j < |keys|
      invariant j <= |keys|
      invariant m + Combination(keys[j..], values, temp) == Combination(keys, values, i)
    {
      var key := keys[j];
      CombinationSuffix(m, keys, values, j, temp);
      if |values| > 0 {
        var value := values[temp % |values|];
        m := m[key := value];
        temp := temp / |values|;
      }
      j := j + 1;
    }
    assert m + map[] == m;
  }

  /** One step of the inner loop of `createCombinations`: the map built so
      far, extended by key `j`, and the combination of the remaining keys
      together make up the same map as before. */
  lemma CombinationSuffix<K, V>(m: map<K, V>, keys: seq<K>, values: seq<V>, j: nat, temp: nat)
    requires j < |keys|
    ensures values != [] ==>
              m[keys[j] := values[temp % |values|]] + Combination(keys[j + 1..], values, temp / |values|)
              == m + Combination(keys[j..], values, temp)
    ensures values == [] ==> m + Combination(keys[j + 1..], values, temp) == m + Combination(keys[j..], values, temp)
  {
    var suffix := keys[j..];
    assert suffix[0] == keys[j] && suffix[1..] == keys[j + 1..];
    if values != [] {
      var head := map[keys[j] := values[temp % |values|]];
      var tail := Combination(keys[j + 1..], values, temp / |values|);
      assert Combination(suffix, values, temp) == head + tail;
      assert m[keys[j] := values[temp % |values|]] == m + head;
      assert (m + head) + tail == m + (head + tail);
    }
  }

  /** With at least one value, every map binds exactly the keys, each to one
      of the values. */
  lemma {:induction false} CombinationKeys<K, V>(keys: seq<K>, values: seq<V>, t: nat)
    requires values != []
    ensures Combination(keys, values, t).Keys == set k | k in keys
    ensures forall k :: k in Combination(keys, values, t) ==> Combination(keys, values, t)[k] in values
  {
    if keys != [] {
      CombinationKeys(keys[1..], values, t / |values|);
      assert keys == [keys[0]] + keys[1..];
    }
  }

  /** With distinct keys, the k-th key gets the value at digit k of the
      index: the first key varies fastest. */
  lemma {:induction false} CombinationDigit<K, V>(keys: seq<K>, values: seq<V>, t: nat, k: nat)
    requires Distinct(keys) && values != [] && k < |keys|
    ensures keys[k] in Combination(keys, values, t)
    ensures Combination(keys, values, t)[keys[k]] == values[Digit(t, |values|, k)]
  {
    var b, rest := |values|, keys[1..];
    var tail := Combination(rest, values, t / b);
    assert Combination(keys, values, t) == map[keys[0] := values[t % b]] + tail;
    CombinationKeys(rest, values, t / b);
    assert Distinct(rest);
    if k == 0 {
      assert keys[0] !in rest;
    } else {
      assert rest[k - 1] == keys[k];
      CombinationDigit(rest, values, t / b, k - 1);
    }
  }

  /** Digit `k` of `t` is `floor(t / b^k) mod b`. */
  lemma {:induction false} DigitPow(t: nat, b: nat, k: nat)
    requires b > 0
    ensures Digit(t, b, k) == (t / Pow(b, k)) % b
    decreases k
  {
    if k > 0 {
      DigitPow(t / b, b, k - 1);
      DivDiv(t, b, Pow(b, k - 1));
    }
  }

  lemma DivDiv(t: nat, b: nat, c: nat)
    requires b > 0 && c > 0
    ensures (t / b) / c == t / (b * c)
  {
    var q, r := DivMod(t, b);
    var q', r' := DivMod(q, c);
    Regroup(b, c, q', r', r);
    RemainderBound(b, c, r', r);
    DivModUnique(b * c, q', b * r' + r);
  }

  /** Quotient and remainder of `t` by `b`. */
  lemma DivMod(t: nat, b: nat) returns (q: nat, r: nat)
    requires b > 0
    ensures q == t / b && r == t % b && t == b * q + r && r < b
  {
    q, r := t / b, t % b;
  }

  lemma Regroup(b: nat, c: nat, q: nat, r': nat, r: nat)
    ensures b * (c * q + r') + r == (b * c) * q + (b * r' + r)
  {
    assert b * (c * q + r') == b * (c * q) + b * r';
    assert b * (c * q) == (b * c) * q;
  }

  lemma RemainderBound(b: nat, c: nat, r': nat, r: nat)
    requires r' < c && r < b
    ensures b * r' + r < b * c
  {
    MulMonotone(b, r', c - 1);
    assert b * (c - 1) + b == b * c;
  }

  lemma MulMonotone(b: nat, x: nat, y: nat)
    requires x <= y
    ensures b * x <= b * y
  {
    assert b * y == b * x + b * (y - x);
  }

  /** The first position of `v` in `values`. */
  function IndexOf<V(==)>(values: seq<V>, v: V): (d: nat)
    requires v in values
    ensures d < |values| && values[d] == v
  {
    if values[0] == v then 0 else 1 + IndexOf(values[1..], v)
  }

  /** The index whose digits pick, key by key, the position in `values` of
      the value `m` gives the key. */
  function Encode<K(==), V(==)>(keys: seq<K>, values: seq<V>, m: map<K, V>): nat
    requires values != []
    requires forall k :: k in keys ==> k in m && m[k] in values
  {
    if keys == [] then 0
    else IndexOf(values, m[keys[0]]) + |values| * Encode(keys[1..], values, m)
  }

  lemma {:induction false} EncodeBound<K, V>(keys: seq<K>, values: seq<V>, m: map<K, V>)
    requires values != []
    requires forall k :: k in keys ==> k in m && m[k] in values
    ensures Encode(keys, values, m) < Pow(|values|, |keys|)
  {
    if keys != [] {
      var b, rest := |values|, keys[1..];
      EncodeBound(rest, values, m);
      var e := Encode(rest, values, m);
      assert Encode(keys, values, m) < b * e + b;
      assert b * e + b == b * (e + 1);
      MulMonotone(b, e + 1, Pow(b, |rest|));
    }
  }

  /** The first step of a combination, with its index written as a digit
      and the rest. */
  lemma CombinationStep<K, V>(keys: seq<K>, values: seq<V>, d: nat, e: nat)
    requires keys != [] && d < |values|
    ensures Combination(keys, values, d + |values| * e)
         == map[keys[0] := values[d]] + Combination(keys[1..], values, e)
  {
    DivModUnique(|values|, e, d);
  }

  /** The combination of index `Encode(keys, values, m)` gives every key
      the value `m` gives it. */
  lemma {:induction false} EncodeAt<K, V>(keys: seq<K>, values: seq<V>, m: map<K, V>)
    requires Distinct(keys) && values != []
    requires forall k :: k in keys ==> k in m && m[k] in values
    ensures forall k :: k in keys ==>
              k in Combination(keys, values, Encode(keys, values, m))
              && Combination(keys, values, Encode(keys, values, m))[k] == m[k]
  {
    if keys != [] {
      var rest := keys[1..];
      assert keys == [keys[0]] + rest;
      assert Distinct(rest);
      EncodeAt(rest, values, m);
      var e := Encode(rest, values, m);
      var d := IndexOf(values, m[keys[0]]);
      CombinationStep(keys, values, d, e);
      var tail := Combination(rest, values, e);
      var c := map[keys[0] := m[keys[0]]] + tail;
      assert Combination(keys, values, Encode(keys, values, m)) == c;
      CombinationKeys(rest, values, e);
      assert keys[0] !in rest;
      forall k | k in keys ensures k in c && c[k] == m[k] {
        if k != keys[0] {
          assert k in rest;
          assert k in tail && c[k] == tail[k];
        } else {
          assert k !in tail;
        }
      }
    }
  }

  /** Every map from the (distinct) keys into the values appears among the
      combinations. */
  lemma CombinationsComplete<K, V>(keys: seq<K>, values: seq<V>, m: map<K, V>)
    requires Distinct(keys) && values != []
    requires m.Keys == set k | k in keys
    requires forall k :: k in m ==> m[k] in values
    ensures Encode(keys, values, m) < Pow(|values|, |keys|)
    ensures Combination(keys, values, Encode(keys, values, m)) == m
  {
    EncodeBound(keys, values, m);
    EncodeAt(keys, values, m);
    CombinationKeys(keys, values, Encode(keys, values, m));
  }

  /** With distinct keys and distinct values no map is listed twice: the
      index is determined by its combination. */
  lemma {:induction false} CombinationsUnique<K, V>(keys: seq<K>, values: seq<V>, t: nat, t': nat)
    requires Distinct(keys) && Distinct(values) && values != []
    requires t < Pow(|values|, |keys|) && t' < Pow(|values|, |keys|)
    ensures Combination(keys, values, t) == Combination(keys, values, t') ==> t == t'
  {
    if keys != [] && Combination(keys, values, t) == Combination(keys, values, t') {
      var b, rest := |values|, keys[1..];
      assert Distinct(rest);
      var q, r := Split(t, b, Pow(b, |rest|));
      var q', r' := Split(t', b, Pow(b, |rest|));
      CombinationHead(keys, values, t);
      CombinationHead(keys, values, t');
      assert values[r] == values[r'];
      CombinationsUnique(rest, values, q, q');
    }
  }

  /** A combination taken apart: the first key's value, and the rest. */
  lemma CombinationHead<K, V>(keys: seq<K>, values: seq<V>, t: nat)
    requires Distinct(keys) && values != [] && keys != []
    ensures var c := Combination(keys, values, t);
            && keys[0] in c && c[keys[0]] == values[t % |values|]
            && c - {keys[0]} == Combination(keys[1..], values, t / |values|)
  {
    var rest := keys[1..];
    var tail := Combination(rest, values, t / |values|);
    assert keys[0] !in rest;
    CombinationKeys(rest, values, t / |values|);
    assert keys[0] !in tail;
  }

  /** Quotient and remainder of `t` by `b`, the quotient below `p` when `t`
      is below `b * p`. */
  lemma Split(t: nat, b: nat, p: nat) returns (q: nat, r: nat)
    requires b > 0 && t < b * p
    ensures q == t / b && r == t % b && t == b * q + r && r < b && q < p
  {
    q, r := t / b, t % b;
  }

  /** No keys give exactly one, empty, map; keys without values give no map
      at all. */
  lemma EmptyInputs<K, V>(keys: seq<K>, values: seq<V>)
    ensures Pow(|values|, 0) == 1 && Combination<K, V>([], values, 0) == map[]
    ensures keys != [] && values == [] ==> Pow(|values|, |keys|) == 0
  {
  }

  /** The combinations of keys p, q over values true, false, in the order
      of src/lib/utils/array-utils.test.ts:6-25. */
  lemma BooleanExample()
    ensures Pow(2, 2) == 4
    ensures Combination("pq", [true, false], 0) == map['p' := true, 'q' := true]
    ensures Combination("pq", [true, false], 1) == map['p' := false, 'q' := true]
    ensures Combination("pq", [true, false], 2) == map['p' := true, 'q' := false]
    ensures Combination("pq", [true, false], 3) == map['p' := false, 'q' := false]
  {
    assert "pq"[1..] == "q" && "q"[1..] == "";
  }
}

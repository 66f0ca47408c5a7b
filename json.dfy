/** JavaScript request objects (`req.body`, `req.params`, `req.query`) as
    ordered lists of entries: the order is the object's key order, which
    decides `for…in` iteration and the result of `{...a, ...b}`. */
module Json {
  import opened Wrappers

  /** A JSON value as the middleware sees it; arrays and nested objects are not inspected. */
  datatype Value = Str(s: string) | Num(n: real) | Bool(b: bool) | Null | Structured

  datatype Entry = Entry(key: string, value: Value)

  type Record = seq<Entry>

  /** The keys of an object, in order. */
  function Keys(r: Record): (ks: seq<string>)
    ensures |ks| == |r|
    ensures forall i :: 0 <= i < |r| ==> ks[i] == r[i].key
  {
    seq(|r|, i requires 0 <= i < |r| => r[i].key)
  }

  /** The keys of an object end with the key of its last entry. */
  lemma KeysSnoc(es: seq<Entry>)
    requires es != []
    ensures Keys(es) == Keys(es[..|es| - 1]) + [es[|es| - 1].key]
  {
    var init := es[..|es| - 1];
    forall i | 0 <= i < |es|
      ensures Keys(es)[i] == (Keys(init) + [es[|es| - 1].key])[i]
    {
      if i < |init| {
        assert init[i] == es[i];
      }
    }
  }

  predicate HasKey(r: Record, k: string) {
    k in Keys(r)
  }

  predicate Distinct<T(==)>(s: seq<T>) {
    forall i, j :: 0 <= i < j < |s| ==> s[i] != s[j]
  }

  /** A JavaScript object never holds one key twice. */
  predicate DistinctKeys(r: Record) {
    Distinct(Keys(r))
  }

  /** `obj[k]`; None stands for `undefined`. */
  function Get(r: Record, k: string): (v: Option<Value>)
    ensures v.None? <==> !HasKey(r, k)
    ensures v.Some? ==> Entry(k, v.value) in r
  {
    if r == [] then None
    else if r[0].key == k then Some(r[0].value)
    else
      assert Keys(r) == [r[0].key] + Keys(r[1..]);
      Get(r[1..], k)
  }

  /** The value of the last entry with key `k`: what a series of assignments `obj[key] = value` leaves behind. */
  function Last(es: seq<Entry>, k: string): (v: Option<Value>)
    ensures v.None? <==> !HasKey(es, k)
  {
    if es == [] then None
    else if es[|es| - 1].key == k then Some(es[|es| - 1].value)
    else
      KeysSnoc(es);
      Last(es[..|es| - 1], k)
  }

  /** In an object the last assignment to a key is also the only one. */
  lemma {:induction false} LastOfDistinct(es: seq<Entry>, k: string)
    requires DistinctKeys(es)
    ensures Last(es, k) == Get(es, k)
  {
    if es != [] {
      var init := es[..|es| - 1];
      KeysSnoc(es);
      if es[|es| - 1].key == k {
        GetTail(es, k);
      } else {
        LastOfDistinct(init, k);
        GetInit(es, k);
      }
    }
  }

  /** `Last` is the value of the last entry with the key. */
  lemma {:induction false} LastAt(es: seq<Entry>, k: string, i: nat)
    requires i < |es| && es[i].key == k
    requires forall j :: i < j < |es| ==> es[j].key != k
    ensures Last(es, k) == Some(es[i].value)
    decreases |es|
  {
    if i < |es| - 1 {
      var init := es[..|es| - 1];
      assert forall j :: i < j < |init| ==> init[j] == es[j];
      LastAt(init, k, i);
    }
  }

  lemma {:induction false} GetTail(es: seq<Entry>, k: string)
    requires es != [] && es[|es| - 1].key == k && !HasKey(es[..|es| - 1], k)
    ensures Get(es, k) == Some(es[|es| - 1].value)
  {
    if |es| > 1 {
      var init := es[..|es| - 1];
      assert es[0] == init[0];
      assert es[1..][..|es[1..]| - 1] == init[1..];
      assert Keys(init) == [init[0].key] + Keys(init[1..]);
      GetTail(es[1..], k);
    }
  }

  /** Removing a last entry with another key does not change `Get`. */
  lemma {:induction false} GetInit(es: seq<Entry>, k: string)
    requires es != [] && es[|es| - 1].key != k
    ensures Get(es, k) == Get(es[..|es| - 1], k)
  {
    var init := es[..|es| - 1];
    if |es| > 1 {
      assert init[0] == es[0];
      if es[0].key != k {
        var tail := es[1..];
        assert tail[..|tail| - 1] == init[1..];
        GetInit(tail, k);
      }
    } else {
      assert init == [];
    }
  }

  /** `obj[k] = v`: an existing key keeps its place, a new key goes last
      (what that does to lookups is `PutGet`). */
  function Put(r: Record, k: string, v: Value): (r': Record)
    ensures r' != []
  {
    if r == [] then [Entry(k, v)]
    else if r[0].key == k then [Entry(k, v)] + r[1..]
    else [r[0]] + Put(r[1..], k, v)
  }

  /** After `obj[k] = v`, `obj[k]` is `v` and every other key reads as before. */
  lemma {:induction false} PutGet(r: Record, k: string, v: Value)
    ensures Get(Put(r, k, v), k) == Some(v)
    ensures forall k' :: k' != k ==> Get(Put(r, k, v), k') == Get(r, k')
  {
    var r' := Put(r, k, v);
    if r != [] {
      if r[0].key == k {
        assert r'[1..] == r[1..];
      } else {
        PutGet(r[1..], k, v);
        assert r'[1..] == Put(r[1..], k, v);
      }
    }
  }

  /** The keys of an object start with the key of its first entry. */
  lemma KeysCons(r: Record)
    requires r != []
    ensures Keys(r) == [r[0].key] + Keys(r[1..])
  {
  }

  lemma KeysOfCons(e: Entry, r: Record)
    ensures Keys([e] + r) == [e.key] + Keys(r)
  {
  }

  /** Assignment keeps the order of the keys and adds a new key at the end. */
  lemma {:induction false} PutKeys(r: Record, k: string, v: Value)
    ensures Keys(Put(r, k, v)) == if k in Keys(r) then Keys(r) else Keys(r) + [k]
  {
    if r != [] {
      KeysCons(r);
      if r[0].key == k {
        var r' := Put(r, k, v);
        KeysCons(r');
        assert r'[0].key == k && r'[1..] == r[1..];
      } else {
        PutKeys(r[1..], k, v);
        PutKeysBehind(r, k, v);
      }
    }
  }

  /** The step of `PutKeys` past a first entry with another key. */
  lemma PutKeysBehind(r: Record, k: string, v: Value)
    requires r != [] && r[0].key != k
    requires Keys(Put(r[1..], k, v)) == if k in Keys(r[1..]) then Keys(r[1..]) else Keys(r[1..]) + [k]
    ensures Keys(Put(r, k, v)) == if k in Keys(r) then Keys(r) else Keys(r) + [k]
  {
    PutBehind(r, k, v);
    assert [r[0]] + r[1..] == r;
    KeysBehind(r[0], r[1..], Put(r[1..], k, v), k);
  }

  lemma PutBehind(r: Record, k: string, v: Value)
    requires r != [] && r[0].key != k
    ensures Put(r, k, v) == [r[0]] + Put(r[1..], k, v)
  {
  }

  /** Keys of `[e] + t` against those of `[e] + rest`, when `t` is `rest` with `k` assigned. */
  lemma KeysBehind(e: Entry, rest: Record, t: Record, k: string)
    requires e.key != k
    requires Keys(t) == if k in Keys(rest) then Keys(rest) else Keys(rest) + [k]
    ensures Keys([e] + t) == if k in Keys([e] + rest) then Keys([e] + rest) else Keys([e] + rest) + [k]
  {
    KeysOfCons(e, t);
    KeysOfCons(e, rest);
    var a, ks := e.key, Keys(rest);
    assert k in [a] + ks <==> k in ks;
    if k !in ks {
      assert [a] + (ks + [k]) == [a] + ks + [k];
    }
  }

  /** The rest of an object without repeated keys has none either. */
  lemma DistinctKeysTail(r: Record)
    requires r != [] && DistinctKeys(r)
    ensures DistinctKeys(r[1..])
  {
    var rest := r[1..];
    forall a, b | 0 <= a < b < |rest| ensures Keys(rest)[a] != Keys(rest)[b] {
      assert Keys(rest)[a] == Keys(r)[a + 1] && Keys(rest)[b] == Keys(r)[b + 1];
    }
  }

  /** Assigning to a key the object has replaces that one entry in place. */
  lemma {:induction false} PutAt(r: Record, i: nat, v: Value)
    requires i < |r| && DistinctKeys(r)
    ensures Put(r, r[i].key, v) == r[..i] + [Entry(r[i].key, v)] + r[i + 1..]
    decreases i
  {
    var k := r[i].key;
    if i > 0 {
      var rest := r[1..];
      assert r[0].key != k by {
        assert Keys(r)[0] != Keys(r)[i];
      }
      assert Put(r, k, v) == [r[0]] + Put(rest, k, v) by {
        PutBehind(r, k, v);
      }
      assert Put(rest, k, v) == rest[..i - 1] + [Entry(k, v)] + rest[i..] by {
        DistinctKeysTail(r);
        assert rest[i - 1] == r[i];
        PutAt(rest, i - 1, v);
      }
      assert r[..i] + [Entry(k, v)] + r[i + 1..] == [r[0]] + (rest[..i - 1] + [Entry(k, v)] + rest[i..]);
    }
  }

  /** A sequence without repetitions stays so when an element not in it is added. */
  lemma DistinctSnoc(s: seq<string>, x: string)
    requires Distinct(s) && x !in s
    ensures Distinct(s + [x])
  {
    var t := s + [x];
    forall i, j | 0 <= i < j < |t| ensures t[i] != t[j] {
      assert t[i] == s[i];
      if j < |s| {
        assert t[j] == s[j];
      }
    }
  }

  /** Assigning to an object keeps its keys distinct. */
  lemma PutDistinct(r: Record, k: string, v: Value)
    requires DistinctKeys(r)
    ensures DistinctKeys(Put(r, k, v))
  {
    PutKeys(r, k, v);
    if k !in Keys(r) {
      DistinctSnoc(Keys(r), k);
    }
  }

  /** The entries of `es` assigned one after the other onto `r`: `{...r, ...es}`
      and the `for…in` copy loops both build objects this way. */
  function PutAll(r: Record, es: seq<Entry>): (r': Record)
    ensures forall k :: Get(r', k) == if HasKey(es, k) then Last(es, k) else Get(r, k)
    ensures DistinctKeys(r) ==> DistinctKeys(r')
  {
    if es == [] then r
    else
      var e := es[|es| - 1];
      var init := es[..|es| - 1];
      KeysSnoc(es);
      var r0 := PutAll(r, init);
      PutGet(r0, e.key, e.value);
      if DistinctKeys(r) then PutDistinct(r0, e.key, e.value); Put(r0, e.key, e.value)
      else Put(r0, e.key, e.value)
  }

  /** `{...a, ...b}` for an object `b`. */
  function Spread(a: Record, b: Record): (r: Record)
    requires DistinctKeys(b)
    ensures forall k :: Get(r, k) == if HasKey(b, k) then Get(b, k) else Get(a, k)
    ensures DistinctKeys(a) ==> DistinctKeys(r)
  {
    forall k ensures Last(b, k) == Get(b, k) { LastOfDistinct(b, k); }
    PutAll(a, b)
  }
}

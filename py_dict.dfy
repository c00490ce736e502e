/** Python's insertion-ordered `dict` (CPython 3.7 and later), as a sequence
    of key/value pairs, together with the first-occurrence de-duplication that
    its key order follows. */
module PyDict {
  import opened Wrappers

  type Dict<V> = seq<(string, V)>

  function Keys<V>(d: Dict<V>): seq<string> {
    seq(|d|, i requires 0 <= i < |d| => d[i].0)
  }

  lemma KeysConcat<V>(a: Dict<V>, b: Dict<V>)
    ensures Keys(a + b) == Keys(a) + Keys(b)
  {
  }

  predicate Distinct<T(==)>(s: seq<T>) {
    forall i, j :: 0 <= i < j < |s| ==> s[i] != s[j]
  }

  /** A well-formed dict: no key occurs twice. */
  predicate IsDict<V>(d: Dict<V>) {
    Distinct(Keys(d))
  }

  /** `d.get(k)`: the value stored under `k`, or `None` when `k` is absent
      (the `KeyError` of `d[k]`). */
  function Get<V>(d: Dict<V>, k: string): (r: Option<V>)
    ensures r.Some? <==> k in Keys(d)
    ensures r.Some? ==> (k, r.value) in d
  {
    if d == [] then None
    else
      assert Keys(d) == [d[0].0] + Keys(d[1..]);
      if d[0].0 == k then Some(d[0].1) else Get(d[1..], k)
  }

  /** In a well-formed dict, the value found is the one stored with the key. */
  lemma {:induction false} GetStored<V>(d: Dict<V>, k: string, i: nat)
    requires IsDict(d) && i < |d| && d[i].0 == k
    ensures Get(d, k) == Some(d[i].1)
  {
    assert Keys(d)[i] == d[i].0;
    if i > 0 {
      assert Keys(d)[0] == d[0].0;
      assert Keys(d[1..]) == Keys(d)[1..];
      GetStored(d[1..], k, i - 1);
    }
  }

  /** `d[k] = v`: an existing key keeps its position and takes the new value;
      a new key goes at the end. */
  function Put<V>(d: Dict<V>, k: string, v: V): (r: Dict<V>)
    ensures Keys(r) == AddUnique(Keys(d), k)
  {
    if d == [] then [(k, v)]
    else if d[0].0 == k then
      assert Keys(d) == [k] + Keys(d[1..]);
      [(k, v)] + d[1..]
    else
      var r := [d[0]] + Put(d[1..], k, v);
      assert Keys(d) == [d[0].0] + Keys(d[1..]);
      assert Keys(r) == [d[0].0] + Keys(Put(d[1..], k, v));
      r
  }

  /** After `d[k] = v`, looking up `k` gives `v` and every other key gives what
      it gave before. */
  lemma {:induction false} PutGet<V>(d: Dict<V>, k: string, v: V, k': string)
    ensures Get(Put(d, k, v), k') == if k' == k then Some(v) else Get(d, k')
  {
    if d != [] && d[0].0 != k {
      PutGet(d[1..], k, v, k');
      assert Put(d, k, v)[1..] == Put(d[1..], k, v);
    } else if d != [] {
      assert Put(d, k, v)[1..] == d[1..];
    }
  }

  lemma PutIsDict<V>(d: Dict<V>, k: string, v: V)
    requires IsDict(d)
    ensures IsDict(Put(d, k, v))
  {
    AddUniqueDistinct(Keys(d), k);
  }

  /** `d.update(e)`: `d[k] = v` for every pair of `e`, in order. The pairs of a
      dict comprehension under construction may repeat a key. */
  function Update<V>(d: Dict<V>, e: seq<(string, V)>): Dict<V>
  {
    if e == [] then d else Put(Update(d, e[..|e| - 1]), e[|e| - 1].0, e[|e| - 1].1)
  }

  /** Updating with `a + b` is updating with `a`, then with `b`. */
  lemma {:induction false} UpdateConcat<V>(d: Dict<V>, a: seq<(string, V)>, b: seq<(string, V)>)
    ensures Update(d, a + b) == Update(Update(d, a), b)
  {
    if b == [] {
      assert a + b == a;
    } else {
      assert (a + b)[..|a + b| - 1] == a + b[..|b| - 1];
      UpdateConcat(d, a, b[..|b| - 1]);
    }
  }

  /** `{k: v for (k, v) in pairs}` */
  function FromPairs<V>(pairs: seq<(string, V)>): Dict<V> {
    Update([], pairs)
  }

  /** The value paired with `k` by the last pair of `e` whose key is `k`. */
  function LastValue<V>(e: seq<(string, V)>, k: string): Option<V> {
    if e == [] then None
    else if e[|e| - 1].0 == k then Some(e[|e| - 1].1)
    else LastValue(e[..|e| - 1], k)
  }

  /** After `d.update(e)`, a key of `e` holds the value of its last pair in `e`
      and any other key holds what it held in `d`. */
  lemma {:induction false} UpdateGet<V>(d: Dict<V>, e: seq<(string, V)>, k: string)
    ensures Get(Update(d, e), k) == if LastValue(e, k).Some? then LastValue(e, k) else Get(d, k)
  {
    if e != [] {
      UpdateGet(d, e[..|e| - 1], k);
      PutGet(Update(d, e[..|e| - 1]), e[|e| - 1].0, e[|e| - 1].1, k);
    }
  }

  /** After `d.update(e)` the keys of `d` keep their order and the new keys of
      `e` follow in the order they first occur in `e`. */
  lemma {:induction false} UpdateKeys<V>(d: Dict<V>, e: seq<(string, V)>)
    ensures Keys(Update(d, e)) == DedupOnto(Keys(d), Keys(e))
  {
    if e != [] {
      UpdateKeys(d, e[..|e| - 1]);
      assert Keys(e)[..|e| - 1] == Keys(e[..|e| - 1]);
    }
  }

  lemma UpdateIsDict<V>(d: Dict<V>, e: seq<(string, V)>)
    requires IsDict(d)
    ensures IsDict(Update(d, e))
  {
    UpdateKeys(d, e);
    DedupOntoDistinct(Keys(d), Keys(e));
  }

  /** A dict comprehension has one entry per distinct key, in the order the
      keys first occur, each holding the value of the key's last pair. */
  lemma FromPairsEntries<V>(pairs: seq<(string, V)>)
    ensures IsDict(FromPairs(pairs))
    ensures Keys(FromPairs(pairs)) == Dedup(Keys(pairs))
    ensures forall k :: Get(FromPairs(pairs), k) == LastValue(pairs, k)
  {
    UpdateKeys([], pairs);
    UpdateIsDict([], pairs);
    forall k
      ensures Get(FromPairs(pairs), k) == LastValue(pairs, k)
    {
      UpdateGet([], pairs, k);
    }
  }

  /** Overlaying a dict onto an empty dict copies it. */
  lemma {:induction false} UpdateEmpty<V>(e: Dict<V>)
    requires IsDict(e)
    ensures Update([], e) == e
  {
    if e != [] {
      var p, k, v := e[..|e| - 1], e[|e| - 1].0, e[|e| - 1].1;
      assert Keys(p) == Keys(e)[..|e| - 1];
      assert IsDict(p);
      assert k !in Keys(p) by {
        assert Keys(e)[|e| - 1] == k;
      }
      calc {
        Update([], e);
        Put(Update([], p), k, v);
        { UpdateEmpty(p); }
        Put(p, k, v);
        { AppendAbsent(p, k, v); }
        p + [(k, v)];
        e;
      }
    }
  }

  lemma {:induction false} AppendAbsent<V>(d: Dict<V>, k: string, v: V)
    requires k !in Keys(d)
    ensures Put(d, k, v) == d + [(k, v)]
  {
    if d != [] {
      assert Keys(d) == [d[0].0] + Keys(d[1..]);
      AppendAbsent(d[1..], k, v);
      assert [d[0]] + (d[1..] + [(k, v)]) == d + [(k, v)];
    }
  }

  // ---------------------------------------------------------------------------
  // first-occurrence de-duplication

  function AddUnique(acc: seq<string>, x: string): seq<string> {
    if x in acc then acc else acc + [x]
  }

  /** `acc` followed by the elements of `s` not yet seen, each once, in the
      order of their first occurrence. */
  function DedupOnto(acc: seq<string>, s: seq<string>): seq<string> {
    if s == [] then acc else AddUnique(DedupOnto(acc, s[..|s| - 1]), s[|s| - 1])
  }

  function Dedup(s: seq<string>): seq<string> {
    DedupOnto([], s)
  }

  /** The position of the first occurrence of `x` in `s`. */
  function FirstIndex(s: seq<string>, x: string): (i: nat)
    requires x in s
    ensures i < |s| && s[i] == x && x !in s[..i]
  {
    if x in s[..|s| - 1] then FirstIndex(s[..|s| - 1], x) else |s| - 1
  }

  lemma AddUniqueDistinct(acc: seq<string>, x: string)
    requires Distinct(acc)
    ensures Distinct(AddUnique(acc, x))
  {
  }

  lemma {:induction false} DedupOntoDistinct(acc: seq<string>, s: seq<string>)
    requires Distinct(acc)
    ensures Distinct(DedupOnto(acc, s))
  {
    if s != [] {
      DedupOntoDistinct(acc, s[..|s| - 1]);
    }
  }

  /** De-duplication loses no element and invents none. */
  lemma {:induction false} DedupOntoElements(acc: seq<string>, s: seq<string>)
    ensures forall x :: x in DedupOnto(acc, s) <==> x in acc || x in s
  {
    if s != [] {
      DedupOntoElements(acc, s[..|s| - 1]);
      assert s == s[..|s| - 1] + [s[|s| - 1]];
    }
  }

  lemma {:induction false} DedupOntoKeepsPrefix(acc: seq<string>, s: seq<string>)
    ensures |acc| <= |DedupOnto(acc, s)| && DedupOnto(acc, s)[..|acc|] == acc
  {
    if s != [] {
      DedupOntoKeepsPrefix(acc, s[..|s| - 1]);
    }
  }

  /** De-duplication keeps the order of first occurrences. */
  lemma {:induction false} DedupFirstOccurrenceOrder(s: seq<string>)
    ensures forall x :: x in Dedup(s) <==> x in s
    ensures forall i, j :: 0 <= i < j < |Dedup(s)| ==> FirstIndex(s, Dedup(s)[i]) < FirstIndex(s, Dedup(s)[j])
  {
    DedupOntoElements([], s);
    if s != [] {
      var p, x := s[..|s| - 1], s[|s| - 1];
      var r := Dedup(p);
      DedupFirstOccurrenceOrder(p);
      forall y | y in p
        ensures FirstIndex(s, y) == FirstIndex(p, y)
      {
      }
      if x !in r {
        assert x !in p;
        forall i | 0 <= i < |r|
          ensures FirstIndex(s, r[i]) < FirstIndex(s, x)
        {
          assert r[i] in r;
        }
      }
    }
  }
}

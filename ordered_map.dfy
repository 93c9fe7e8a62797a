/** PHP arrays with string keys as the parser uses them: a sequence of
    key/value entries in insertion order. Assigning to an existing key
    replaces its value where it stands; assigning to a new key appends. */
module OrderedMap {
  import opened Wrappers

  /** A string key and a string value: every array the parser fills maps
      strings to strings. */
  type Entry = (string, string)

  type Assoc = seq<Entry>

  function Keys(m: Assoc): (ks: seq<string>)
    ensures |ks| == |m|
    ensures forall i {:trigger ks[i]} :: 0 <= i < |m| ==> ks[i] == m[i].0
    decreases |m|
  {
    if m == [] then [] else [m[0].0] + Keys(m[1..])
  }

  /** Every PHP array has this: no key appears twice. */
  predicate DistinctKeys(m: Assoc) {
    forall i, j :: 0 <= i < j < |m| ==> m[i].0 != m[j].0
  }

  /** $m[$k], or None where the key is undefined. */
  function Get(m: Assoc, k: string): (r: Option<string>)
    ensures r.Some? <==> k in Keys(m)
    decreases |m|
  {
    if m == [] then None
    else if m[0].0 == k then Some(m[0].1)
    else Get(m[1..], k)
  }

  /** $m[$k] = $v. */
  function Put(m: Assoc, k: string, v: string): (r: Assoc)
    ensures |m| <= |r| <= |m| + 1
    decreases |m|
  {
    if m == [] then [(k, v)]
    else if m[0].0 == k then [(k, v)] + m[1..]
    else [m[0]] + Put(m[1..], k, v)
  }

  /** After $m[$k] = $v the key holds `v` and every other key keeps its value. */
  lemma {:induction false} PutGet(m: Assoc, k: string, v: string, k': string)
    ensures Get(Put(m, k, v), k') == if k' == k then Some(v) else Get(m, k')
    decreases |m|
  {
    var r := Put(m, k, v);
    if m == [] {
      assert r[1..] == [];
    } else if m[0].0 == k {
      assert r[1..] == m[1..];
    } else {
      assert r[1..] == Put(m[1..], k, v);
      PutGet(m[1..], k, v, k');
    }
  }

  /** Assigning to a key the array lacks appends the entry. */
  lemma {:induction false} PutNew(m: Assoc, k: string, v: string)
    requires k !in Keys(m)
    ensures Put(m, k, v) == m + [(k, v)]
    decreases |m|
  {
    if m != [] {
      assert Keys(m)[0] == m[0].0;
      assert k !in Keys(m[1..]) by {
        forall i | 0 <= i < |m| - 1 ensures Keys(m[1..])[i] != k {
          assert Keys(m[1..])[i] == m[i + 1].0 == Keys(m)[i + 1];
        }
      }
      PutNew(m[1..], k, v);
      assert m == [m[0]] + m[1..];
    }
  }

  /** Assigning to an existing key changes that entry's value and nothing
      else: every entry keeps its position. */
  lemma {:induction false} PutInPlace(m: Assoc, k: string, v: string)
    requires DistinctKeys(m) && k in Keys(m)
    ensures |Put(m, k, v)| == |m|
    ensures forall i :: 0 <= i < |m| ==> Put(m, k, v)[i] == if m[i].0 == k then (k, v) else m[i]
    decreases |m|
  {
    var r := Put(m, k, v);
    if m[0].0 == k {
      forall i | 1 <= i < |m| ensures m[i].0 != k {
        assert m[0].0 != m[i].0;
      }
    } else {
      assert k in Keys(m[1..]) by {
        var i :| 0 <= i < |m| && Keys(m)[i] == k;
        assert i > 0 && Keys(m[1..])[i - 1] == m[i].0;
      }
      PutInPlace(m[1..], k, v);
      assert r == [m[0]] + Put(m[1..], k, v);
      forall i | 0 <= i < |m| ensures r[i] == if m[i].0 == k then (k, v) else m[i] {
        if i > 0 {
          assert r[i] == Put(m[1..], k, v)[i - 1] && m[i] == m[1..][i - 1];
        }
      }
    }
  }

  lemma PutDistinct(m: Assoc, k: string, v: string)
    requires DistinctKeys(m)
    ensures DistinctKeys(Put(m, k, v))
  {
    var r := Put(m, k, v);
    if k in Keys(m) {
      PutInPlace(m, k, v);
      forall i, j | 0 <= i < j < |r| ensures r[i].0 != r[j].0 {
        assert r[i].0 == m[i].0 && r[j].0 == m[j].0;
      }
    } else {
      PutNew(m, k, v);
      assert forall i :: 0 <= i < |m| ==> Keys(m)[i] == m[i].0;
    }
  }

  /** A run of assignments, in order. */
  function PutAll(m: Assoc, ps: seq<Entry>): (r: Assoc)
    ensures |m| <= |r| <= |m| + |ps|
    decreases |ps|
  {
    if ps == [] then m
    else
      var last := ps[|ps| - 1];
      Put(PutAll(m, ps[..|ps| - 1]), last.0, last.1)
  }

  lemma PutAllOne(m: Assoc, a: Entry)
    ensures PutAll(m, [a]) == Put(m, a.0, a.1)
  {
    assert [a][..0] == [];
  }

  lemma PutAllTwo(m: Assoc, a: Entry, b: Entry)
    ensures PutAll(m, [a, b]) == Put(Put(m, a.0, a.1), b.0, b.1)
  {
    assert [a, b][..1] == [a];
    PutAllOne(m, a);
  }

  /** Assignments to keys that are all new append, in order. */
  lemma {:induction false} PutAllFresh(m: Assoc, ps: seq<Entry>)
    requires DistinctKeys(m + ps)
    ensures PutAll(m, ps) == m + ps
    decreases |ps|
  {
    if ps == [] {
      assert m + ps == m;
    } else {
      var init, last := ps[..|ps| - 1], ps[|ps| - 1];
      assert m + ps == (m + init) + [last];
      assert DistinctKeys(m + init) by {
        assert forall i :: 0 <= i < |m + init| ==> (m + init)[i] == (m + ps)[i];
      }
      PutAllFresh(m, init);
      assert last.0 !in Keys(m + init) by {
        forall i | 0 <= i < |m + init| ensures Keys(m + init)[i] != last.0 {
          assert (m + init)[i] == (m + ps)[i] && last == (m + ps)[|m + ps| - 1];
        }
      }
      PutNew(m + init, last.0, last.1);
    }
  }

  lemma {:induction false} PutAllDistinct(m: Assoc, ps: seq<Entry>)
    requires DistinctKeys(m)
    ensures DistinctKeys(PutAll(m, ps))
    decreases |ps|
  {
    if ps != [] {
      PutAllDistinct(m, ps[..|ps| - 1]);
      PutDistinct(PutAll(m, ps[..|ps| - 1]), ps[|ps| - 1].0, ps[|ps| - 1].1);
    }
  }

  /** The value the last pair of `ps` with key `k` carries, or `d` if none has it. */
  function LastValue(ps: seq<Entry>, k: string, d: Option<string>): Option<string>
    decreases |ps|
  {
    if ps == [] then d
    else if ps[|ps| - 1].0 == k then Some(ps[|ps| - 1].1)
    else LastValue(ps[..|ps| - 1], k, d)
  }

  /** Last write wins: after a run of assignments a key holds the value of
      the last assignment to it, or what it held before if none assigned it. */
  lemma {:induction false} GetPutAll(m: Assoc, ps: seq<Entry>, k: string)
    ensures Get(PutAll(m, ps), k) == LastValue(ps, k, Get(m, k))
    decreases |ps|
  {
    if ps != [] {
      GetPutAll(m, ps[..|ps| - 1], k);
      PutGet(PutAll(m, ps[..|ps| - 1]), ps[|ps| - 1].0, ps[|ps| - 1].1, k);
    }
  }

  lemma {:induction false} PutAllAppend(m: Assoc, ps: seq<Entry>, qs: seq<Entry>)
    ensures PutAll(m, ps + qs) == PutAll(PutAll(m, ps), qs)
    decreases |qs|
  {
    if qs == [] {
      assert ps + qs == ps;
    } else {
      assert (ps + qs)[..|ps + qs| - 1] == ps + qs[..|qs| - 1];
      PutAllAppend(m, ps, qs[..|qs| - 1]);
    }
  }

  lemma {:induction false} LastValueAppend(ps: seq<Entry>, qs: seq<Entry>, k: string, d: Option<string>)
    ensures LastValue(ps + qs, k, d) == LastValue(qs, k, LastValue(ps, k, d))
    decreases |qs|
  {
    if qs == [] {
      assert ps + qs == ps;
    } else {
      assert (ps + qs)[..|ps + qs| - 1] == ps + qs[..|qs| - 1];
      LastValueAppend(ps, qs[..|qs| - 1], k, d);
    }
  }

  /** A key that no pair of `ps` carries keeps its value. */
  lemma {:induction false} LastValueAbsent(ps: seq<Entry>, k: string, d: Option<string>)
    requires forall i :: 0 <= i < |ps| ==> ps[i].0 != k
    ensures LastValue(ps, k, d) == d
    decreases |ps|
  {
    if ps != [] {
      LastValueAbsent(ps[..|ps| - 1], k, d);
    }
  }

  /** The last pair with key `k` decides, whatever came before. */
  lemma {:induction false} LastValueAt(ps: seq<Entry>, i: nat, d: Option<string>)
    requires i < |ps|
    requires forall j :: i < j < |ps| ==> ps[j].0 != ps[i].0
    ensures LastValue(ps, ps[i].0, d) == Some(ps[i].1)
    decreases |ps|
  {
    if i < |ps| - 1 {
      var init := ps[..|ps| - 1];
      assert forall j :: 0 <= j < |init| ==> init[j] == ps[j];
      LastValueAt(init, i, d);
    }
  }

  lemma KeysAppend(x: Assoc, y: Assoc)
    ensures Keys(x + y) == Keys(x) + Keys(y)
  {
    assert forall i :: 0 <= i < |x + y| ==> Keys(x + y)[i] == (Keys(x) + Keys(y))[i];
  }

  /** A value comes from the default or from a pair that carries the key. */
  lemma {:induction false} LastValueSome(ps: seq<Entry>, k: string, d: Option<string>)
    ensures LastValue(ps, k, d).Some? <==> d.Some? || k in Keys(ps)
    decreases |ps|
  {
    if ps != [] {
      var init, last := ps[..|ps| - 1], ps[|ps| - 1];
      LastValueSome(init, k, d);
      assert ps == init + [last];
      KeysAppend(init, [last]);
    }
  }

  /** After a run of assignments the array holds exactly the keys it held
      before and the keys assigned. */
  lemma PutAllKeys(m: Assoc, ps: seq<Entry>, k: string)
    ensures k in Keys(PutAll(m, ps)) <==> k in Keys(m) || k in Keys(ps)
  {
    GetPutAll(m, ps, k);
    LastValueSome(ps, k, Get(m, k));
  }

  /** Assignments that never name one of the first `n` keys leave those
      entries where they are. */
  lemma {:induction false} PutAllKeepsPrefix(m: Assoc, ps: seq<Entry>, n: nat)
    requires DistinctKeys(m) && n <= |m|
    requires forall j :: 0 <= j < |ps| ==> ps[j].0 !in Keys(m[..n])
    ensures |PutAll(m, ps)| >= n && PutAll(m, ps)[..n] == m[..n]
    decreases |ps|
  {
    if ps != [] {
      var init := ps[..|ps| - 1];
      var last := ps[|ps| - 1];
      assert forall j :: 0 <= j < |init| ==> init[j] == ps[j];
      PutAllKeepsPrefix(m, init, n);
      var before := PutAll(m, init);
      var after := Put(before, last.0, last.1);
      assert after == PutAll(m, ps);
      if last.0 in Keys(before) {
        PutAllDistinct(m, init);
        PutInPlace(before, last.0, last.1);
      } else {
        PutNew(before, last.0, last.1);
      }
      forall i | 0 <= i < n ensures after[i] == m[i] {
        assert before[i] == before[..n][i] == m[i];
        assert Keys(m[..n])[i] == m[i].0;
      }
      assert after[..n] == m[..n];
    }
  }
}

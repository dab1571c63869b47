/** An insertion-ordered map of strings in the manner of java.util.LinkedHashMap: a
    sequence of key/value entries whose order is the order in which each key
    was FIRST put. Putting a key that is already present replaces its value
    in place and leaves the order alone. */
module LinkedMap {
  import opened Wrappers

  type Entries = seq<(string, string)>

  /** The keys in entry order. */
  function Keys(m: Entries): (ks: seq<string>)
    ensures |ks| == |m|
    ensures forall i :: 0 <= i < |m| ==> ks[i] == m[i].0
  {
    if |m| == 0 then [] else [m[0].0] + Keys(m[1..])
  }

  /** No key appears in two entries. */
  predicate Distinct(m: Entries) {
    forall i, j :: 0 <= i < j < |m| ==> m[i].0 != m[j].0
  }

  /** `get(k)`: the value of the entry holding `k`, if there is one. */
  function Get(m: Entries, k: string): (r: Option<string>)
    ensures r.Some? <==> k in Keys(m)
    ensures r.Some? ==> exists i :: 0 <= i < |m| && m[i] == (k, r.value)
  {
    var i := FirstIndex(Keys(m), k);
    if i < |m| then Some(m[i].1) else None
  }

  /** `put(k, v)`: a present key keeps its position and takes the new value;
      an absent key is appended. Every other key keeps its value. */
  function Put(m: Entries, k: string, v: string): (r: Entries)
    ensures Get(r, k) == Some(v)
    ensures forall k' :: k' != k ==> Get(r, k') == Get(m, k')
    ensures k in Keys(m) ==> Keys(r) == Keys(m)
    ensures k !in Keys(m) ==> Keys(r) == Keys(m) + [k]
    ensures Distinct(m) ==> Distinct(r)
  {
    var i := FirstIndex(Keys(m), k);
    if i < |m| then
      ReplaceInPlace(m, i, k, v);
      m[i := (k, v)]
    else
      AppendAbsent(m, k, v);
      m + [(k, v)]
  }

  lemma ReplaceInPlace(m: Entries, i: nat, k: string, v: string)
    requires i == FirstIndex(Keys(m), k) < |m|
    ensures var r := m[i := (k, v)];
            && Keys(r) == Keys(m)
            && Get(r, k) == Some(v)
            && (forall k' :: k' != k ==> Get(r, k') == Get(m, k'))
            && (Distinct(m) ==> Distinct(r))
  {
    ReplaceKeys(m, i, k, v);
    ReplaceOthers(m, i, k, v);
    assert m[i := (k, v)][i] == (k, v);
    assert Distinct(m) ==> Distinct(m[i := (k, v)]) by {
      assert forall j :: 0 <= j < |m| ==> m[i := (k, v)][j].0 == m[j].0;
    }
  }

  lemma ReplaceKeys(m: Entries, i: nat, k: string, v: string)
    requires i == FirstIndex(Keys(m), k) < |m|
    ensures Keys(m[i := (k, v)]) == Keys(m)
  {
    assert forall j :: 0 <= j < |m| ==> Keys(m[i := (k, v)])[j] == Keys(m)[j];
  }

  lemma ReplaceOthers(m: Entries, i: nat, k: string, v: string)
    requires i == FirstIndex(Keys(m), k) < |m|
    requires Keys(m[i := (k, v)]) == Keys(m)
    ensures forall k' :: k' != k ==> Get(m[i := (k, v)], k') == Get(m, k')
  {
    var r := m[i := (k, v)];
    forall k' | k' != k ensures Get(r, k') == Get(m, k') {
      var j := FirstIndex(Keys(m), k');
      if j < |m| {
        assert r[j] == m[j];
      }
    }
  }

  lemma AppendAbsent(m: Entries, k: string, v: string)
    requires FirstIndex(Keys(m), k) == |m|
    ensures var r := m + [(k, v)];
            && Keys(r) == Keys(m) + [k]
            && Get(r, k) == Some(v)
            && (forall k' :: k' != k ==> Get(r, k') == Get(m, k'))
            && (Distinct(m) ==> Distinct(r))
  {
    KeysAppend(m, [(k, v)]);
    assert Keys([(k, v)]) == [k];
    assert FirstIndex(Keys(m) + [k], k) == |m|;
    assert k !in Keys(m);
    AppendAbsentOthers(m, k, v);
    AppendAbsentDistinct(m, k, v);
  }

  lemma AppendAbsentOthers(m: Entries, k: string, v: string)
    requires Keys(m + [(k, v)]) == Keys(m) + [k]
    ensures forall k' :: k' != k ==> Get(m + [(k, v)], k') == Get(m, k')
  {
    var r := m + [(k, v)];
    var ks := Keys(m);
    forall k' | k' != k ensures Get(r, k') == Get(m, k') {
      if k' in ks {
        FirstIndexAppend(ks, [k], k');
        var j := FirstIndex(ks, k');
        assert r[j] == m[j];
      } else {
        assert k' !in ks + [k];
      }
    }
  }

  lemma AppendAbsentDistinct(m: Entries, k: string, v: string)
    requires k !in Keys(m)
    ensures Distinct(m) ==> Distinct(m + [(k, v)])
  {
    var r := m + [(k, v)];
    forall i, j | 0 <= i < j < |r| && Distinct(m) ensures r[i].0 != r[j].0 {
      assert r[i] == m[i];
      assert Keys(m)[i] == m[i].0;
      if j < |m| { assert r[j] == m[j]; }
    }
  }

  /** The map built by putting every pair of `ps` in order, as a loop of
      `put` calls into a fresh LinkedHashMap does. */
  function FromPairs(ps: Entries): (m: Entries)
    ensures Distinct(m)
  {
    if |ps| == 0 then []
    else
      var last := ps[|ps| - 1];
      Put(FromPairs(ps[..|ps| - 1]), last.0, last.1)
  }

  /** The position of the first `k` in `s`; `|s|` when there is none. */
  function FirstIndex(s: seq<string>, k: string): (i: nat)
    ensures i <= |s|
    ensures i < |s| <==> k in s
    ensures i < |s| ==> s[i] == k
    ensures forall j :: 0 <= j < i ==> s[j] != k
  {
    if |s| == 0 then 0
    else if s[0] == k then 0
    else 1 + FirstIndex(s[1..], k)
  }

  lemma KeysAppend(a: Entries, b: Entries)
    ensures Keys(a + b) == Keys(a) + Keys(b)
  {
    assert forall i :: 0 <= i < |a + b| ==> Keys(a + b)[i] == (Keys(a) + Keys(b))[i];
  }

  /** Appending to a sequence does not move the first occurrence of a key
      that was already there. */
  lemma FirstIndexAppend(s: seq<string>, t: seq<string>, k: string)
    requires k in s
    ensures FirstIndex(s + t, k) == FirstIndex(s, k)
  {
    var i := FirstIndex(s, k);
    assert (s + t)[i] == k;
    assert forall j :: 0 <= j < i ==> (s + t)[j] == s[j];
  }

  /** The map holds exactly the keys that occur among the pairs. */
  lemma {:induction false} FromPairsKeys(ps: Entries)
    ensures forall k :: k in Keys(FromPairs(ps)) <==> k in Keys(ps)
  {
    if |ps| > 0 {
      var pre := ps[..|ps| - 1];
      var last := ps[|ps| - 1];
      FromPairsKeys(pre);
      assert ps == pre + [last];
      KeysAppend(pre, [last]);
    }
  }

  /** Each key takes the value of the LAST pair that holds it. */
  lemma {:induction false} FromPairsLastWins(ps: Entries, i: int)
    requires 0 <= i < |ps|
    requires forall j :: i < j < |ps| ==> ps[j].0 != ps[i].0
    ensures Get(FromPairs(ps), ps[i].0) == Some(ps[i].1)
  {
    if i < |ps| - 1 {
      var pre := ps[..|ps| - 1];
      assert pre[i] == ps[i];
      FromPairsLastWins(pre, i);
    }
  }

  /** The entries of `m` stand in the order in which their keys first occur
      in the sequence `ks`. */
  predicate InFirstOccurrenceOrder(m: Entries, ks: seq<string>) {
    forall a, b :: 0 <= a < b < |m| ==> FirstIndex(ks, m[a].0) < FirstIndex(ks, m[b].0) < |ks|
  }

  /** Keys stand in the order of their FIRST occurrence among the pairs. */
  lemma {:induction false} FromPairsFirstOccurrenceOrder(ps: Entries)
    ensures InFirstOccurrenceOrder(FromPairs(ps), Keys(ps))
  {
    if |ps| > 0 {
      var pre := ps[..|ps| - 1];
      var last := ps[|ps| - 1];
      assert Keys(ps) == Keys(pre) + [last.0] by {
        assert ps == pre + [last];
        KeysAppend(pre, [last]);
      }
      assert InFirstOccurrenceOrder(FromPairs(ps), Keys(pre) + [last.0]) by {
        FromPairsFirstOccurrenceOrder(pre);
        FromPairsKeys(pre);
        OrderStep(ps, pre, last);
      }
    }
  }

  /** One `put` of FromPairs keeps the first-occurrence order. */
  lemma OrderStep(ps: Entries, pre: Entries, last: (string, string))
    requires |ps| > 0 && pre == ps[..|ps| - 1] && last == ps[|ps| - 1]
    requires InFirstOccurrenceOrder(FromPairs(pre), Keys(pre))
    requires forall k :: k in Keys(FromPairs(pre)) <==> k in Keys(pre)
    ensures InFirstOccurrenceOrder(FromPairs(ps), Keys(pre) + [last.0])
  {
    assert FromPairs(ps) == Put(FromPairs(pre), last.0, last.1);
    OrderStepPut(FromPairs(pre), Keys(pre), last.0, last.1);
  }

  /** One `put` keeps the first-occurrence order, for any map whose keys
      are exactly those of `ks`. */
  lemma OrderStepPut(m': Entries, ks: seq<string>, k: string, v: string)
    requires InFirstOccurrenceOrder(m', ks)
    requires forall x :: x in Keys(m') <==> x in ks
    ensures InFirstOccurrenceOrder(Put(m', k, v), ks + [k])
  {
    var m := Put(m', k, v);
    forall a, b | 0 <= a < b < |m|
      ensures FirstIndex(ks + [k], m[a].0) < FirstIndex(ks + [k], m[b].0) < |ks + [k]|
    {
      if b < |m'| {
        OrderStepOld(m', ks, k, v, a, b);
      } else {
        OrderStepNew(m', ks, k, v, a);
      }
    }
  }

  /** Two keys that were already present keep their relative order. */
  lemma OrderStepOld(m': Entries, ks: seq<string>, k: string, v: string, a: int, b: int)
    requires 0 <= a < b < |m'|
    requires FirstIndex(ks, m'[a].0) < FirstIndex(ks, m'[b].0) < |ks|
    ensures var m := Put(m', k, v);
            FirstIndex(ks + [k], m[a].0) < FirstIndex(ks + [k], m[b].0) < |ks| + 1
  {
    var m := Put(m', k, v);
    assert m[a].0 == m'[a].0 && m[b].0 == m'[b].0 by {
      assert Keys(m)[a] == Keys(m')[a] && Keys(m)[b] == Keys(m')[b];
    }
    FirstIndexAppend(ks, [k], m'[a].0);
    FirstIndexAppend(ks, [k], m'[b].0);
  }

  /** A newly appended key comes after every key already present. */
  lemma OrderStepNew(m': Entries, ks: seq<string>, k: string, v: string, a: int)
    requires forall x :: x in Keys(m') <==> x in ks
    requires k !in Keys(m')
    requires 0 <= a < |m'|
    ensures var m := Put(m', k, v);
            |m| == |m'| + 1 &&
            FirstIndex(ks + [k], m[a].0) < FirstIndex(ks + [k], m[|m| - 1].0) < |ks| + 1
  {
    assert Put(m', k, v) == m' + [(k, v)] by { PutAbsentAppends(m', k, v); }
    var x := m'[a].0;
    assert x in ks by { assert Keys(m')[a] == x; }
    assert FirstIndex(ks + [k], x) < |ks| by {
      FirstIndexAppend(ks, [k], x);
    }
    assert FirstIndex(ks + [k], k) == |ks| by {
      assert k !in ks;
      assert (ks + [k])[|ks|] == k;
    }
  }

  /** Putting pairs whose keys are already distinct rebuilds them exactly. */
  lemma {:induction false} FromPairsOfDistinct(ps: Entries)
    requires Distinct(ps)
    ensures FromPairs(ps) == ps
  {
    if |ps| > 0 {
      var pre := ps[..|ps| - 1];
      var last := ps[|ps| - 1];
      assert Distinct(pre);
      FromPairsOfDistinct(pre);
      assert last.0 !in Keys(pre);
      PutAbsentAppends(pre, last.0, last.1);
      assert pre + [last] == ps;
    }
  }

  /** Putting an absent key appends exactly that entry. */
  lemma {:induction false} PutAbsentAppends(m: Entries, k: string, v: string)
    requires k !in Keys(m)
    ensures Put(m, k, v) == m + [(k, v)]
  {
    if |m| > 0 {
      assert Keys(m) == [m[0].0] + Keys(m[1..]);
      PutAbsentAppends(m[1..], k, v);
      assert [m[0]] + (m[1..] + [(k, v)]) == m + [(k, v)];
    }
  }
}

/** A Ruby hash receiving a sequence of `h[key] = value` writes, as a map
    and the list of writes applied to it in order. */
module Hashes {

  /** `h[w.0] = w.1` for each write in turn. */
  function AssignAll<K(==), V>(m: map<K, V>, ws: seq<(K, V)>): map<K, V>
    decreases |ws|
  {
    if ws == [] then m
    else AssignAll(m, ws[..|ws| - 1])[ws[|ws| - 1].0 := ws[|ws| - 1].1]
  }

  function KeysOf<K(==), V>(ws: seq<(K, V)>): set<K> {
    set i | 0 <= i < |ws| :: ws[i].0
  }

  /** Write `i` is the last one to its key. */
  predicate IsLastWrite<K(==), V>(ws: seq<(K, V)>, i: int) {
    0 <= i < |ws| && forall j :: i < j < |ws| ==> ws[j].0 != ws[i].0
  }

  /** `r` is what the writes `ws` leave in a hash that held `m`: the keys are
      the old ones and the written ones, the last write to a key is what it
      holds, and a key nobody wrote keeps its old value. */
  predicate LastWriteWins<K(==), V(==)>(m: map<K, V>, ws: seq<(K, V)>, r: map<K, V>) {
    && r.Keys == m.Keys + KeysOf(ws)
    && (forall i :: 0 <= i < |ws| && IsLastWrite(ws, i) ==> r[ws[i].0] == ws[i].1)
    && (forall k :: k in m && k !in KeysOf(ws) ==> r[k] == m[k])
  }

  /** The writes leave the hash exactly as the last-write-wins rule says. */
  lemma {:induction false} AssignAllLastWriteWins<K, V>(m: map<K, V>, ws: seq<(K, V)>)
    ensures LastWriteWins(m, ws, AssignAll(m, ws))
    decreases |ws|
  {
    if ws != [] {
      var init := ws[..|ws| - 1];
      var w := ws[|ws| - 1];
      AssignAllLastWriteWins(m, init);
      var r := AssignAll(m, ws);
      assert KeysOf(ws) == KeysOf(init) + {w.0} by {
        forall k | k in KeysOf(ws) ensures k in KeysOf(init) + {w.0} {
          var i :| 0 <= i < |ws| && ws[i].0 == k;
          if i < |ws| - 1 { assert init[i].0 == k; }
        }
        forall k | k in KeysOf(init) ensures k in KeysOf(ws) {
          var i :| 0 <= i < |init| && init[i].0 == k;
          assert ws[i].0 == k;
        }
      }
      forall i | 0 <= i < |ws| && IsLastWrite(ws, i) ensures r[ws[i].0] == ws[i].1 {
        if i < |ws| - 1 {
          assert IsLastWrite(init, i);
        }
      }
    }
  }

  /** One more write on top of a prefix of the writes. */
  lemma AssignAllStep<K, V>(m: map<K, V>, ws: seq<(K, V)>, i: nat)
    requires i < |ws|
    ensures AssignAll(m, ws[..i + 1]) == AssignAll(m, ws[..i])[ws[i].0 := ws[i].1]
  {
    assert ws[..i + 1][..i] == ws[..i];
  }

  /** A key written twice holds the second value. */
  lemma Overwrite<K, V>(m: map<K, V>, k: K, a: V, b: V)
    ensures m[k := a][k := b] == m[k := b]
  {
  }

  /** One more write at the end. */
  lemma AssignAllPush<K, V>(m: map<K, V>, ws: seq<(K, V)>, w: (K, V))
    ensures AssignAll(m, ws + [w]) == AssignAll(m, ws)[w.0 := w.1]
  {
    assert (ws + [w])[..|ws|] == ws;
  }

  /** The keys written by two runs of writes. */
  lemma KeysOfAppend<K, V>(ws: seq<(K, V)>, vs: seq<(K, V)>)
    ensures KeysOf(ws + vs) == KeysOf(ws) + KeysOf(vs)
  {
    forall k | k in KeysOf(ws + vs) ensures k in KeysOf(ws) + KeysOf(vs) {
      var j :| 0 <= j < |ws + vs| && (ws + vs)[j].0 == k;
      if j < |ws| { assert ws[j].0 == k; } else { assert vs[j - |ws|].0 == k; }
    }
    forall k | k in KeysOf(ws) + KeysOf(vs) ensures k in KeysOf(ws + vs) {
      if k in KeysOf(ws) {
        var j :| 0 <= j < |ws| && ws[j].0 == k;
        assert (ws + vs)[j].0 == k;
      } else {
        var j :| 0 <= j < |vs| && vs[j].0 == k;
        assert (ws + vs)[|ws| + j].0 == k;
      }
    }
  }

  /** Two runs of writes in a row are one run of their concatenation. */
  lemma {:induction false} AssignAllAppend<K, V>(m: map<K, V>, ws: seq<(K, V)>, vs: seq<(K, V)>)
    ensures AssignAll(AssignAll(m, ws), vs) == AssignAll(m, ws + vs)
    decreases |vs|
  {
    if vs == [] {
      assert ws + vs == ws;
    } else {
      var init := vs[..|vs| - 1];
      AssignAllAppend(m, ws, init);
      assert (ws + vs)[..|ws + vs| - 1] == ws + init;
    }
  }

  /** Every value the writes leave behind was either there before or written. */
  lemma {:induction false} AssignAllValues<K, V>(m: map<K, V>, ws: seq<(K, V)>, k: K)
    requires k in AssignAll(m, ws)
    ensures (k in m && AssignAll(m, ws)[k] == m[k])
            || exists i :: 0 <= i < |ws| && ws[i] == (k, AssignAll(m, ws)[k])
    decreases |ws|
  {
    if ws != [] {
      var init := ws[..|ws| - 1];
      if ws[|ws| - 1].0 != k {
        AssignAllValues(m, init, k);
        if !(k in m && AssignAll(m, init)[k] == m[k]) {
          var i :| 0 <= i < |init| && init[i] == (k, AssignAll(m, init)[k]);
          assert ws[i] == init[i];
        }
      }
    }
  }

  /** Maps that agree on a key still agree on it after the same writes. */
  lemma {:induction false} AssignAllAgree<K, V>(m1: map<K, V>, m2: map<K, V>, ws: seq<(K, V)>, k: K)
    requires (k in m1 <==> k in m2) && (k in m1 ==> m1[k] == m2[k])
    ensures k in AssignAll(m1, ws) <==> k in AssignAll(m2, ws)
    ensures k in AssignAll(m1, ws) ==> AssignAll(m1, ws)[k] == AssignAll(m2, ws)[k]
    decreases |ws|
  {
    if ws != [] {
      AssignAllAgree(m1, m2, ws[..|ws| - 1], k);
    }
  }
}

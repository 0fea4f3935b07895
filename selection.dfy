/**
 * A selection is the `features` object that both the client form and the
 * server's request bodies carry: category name to chosen option id.
 */
module Selections {
  import opened Wrappers

  /** `None` is a key that is present with value `null` (or `undefined`). */
  type Selection = map<string, Option<int>>

  /** The required categories, in the order both boundaries check them. */
  const Required: seq<string> := ["exterior", "wheels", "interior", "engine"]

  /** The key is present and its value is neither `null` nor `undefined`. */
  predicate Chosen(sel: Selection, c: string)
  {
    c in sel && sel[c].Some?
  }

  /** JavaScript truthiness of `selectedFeatures[c]`: an absent key, `null` and the id 0 are falsy. */
  predicate Truthy(sel: Selection, c: string)
  {
    Chosen(sel, c) && sel[c].value != 0
  }

  /** Some key of a non-empty selection; which one is left unspecified. */
  ghost function AnyKey(m: Selection): (k: string)
    requires m != map[]
    ensures k in m
  {
    var k :| k in m; k
  }

  /** The sum of `w` over the entries of `m`, visited in an unspecified order. */
  ghost function MapSum(m: Selection, w: (string, Option<int>) -> int): (sum: int)
    decreases |m|
  {
    if m == map[] then 0
    else
      var k := AnyKey(m);
      assert |m - {k}| < |m| by { assert (m - {k}).Keys < m.Keys; }
      w(k, m[k]) + MapSum(m - {k}, w)
  }

  /** The order of the visit does not matter: any entry may be taken first. */
  lemma {:induction false} MapSumPick(m: Selection, w: (string, Option<int>) -> int, k: string)
    requires k in m
    ensures MapSum(m, w) == w(k, m[k]) + MapSum(m - {k}, w)
    decreases |m|
  {
    var j := AnyKey(m);
    assert |m - {j}| < |m| by { assert (m - {j}).Keys < m.Keys; }
    if j != k {
      assert |m - {k}| < |m| by { assert (m - {k}).Keys < m.Keys; }
      MapSumPick(m - {j}, w, k);
      MapSumPick(m - {k}, w, j);
      assert m - {j} - {k} == m - {k} - {j};
      assert (m - {j})[k] == m[k] && (m - {k})[j] == m[j];
    }
  }

  /** The sum of `w` over the entries of `m` visited in the order of `ks`. */
  function SeqSum(ks: seq<string>, m: Selection, w: (string, Option<int>) -> int): (sum: int)
    requires forall i :: 0 <= i < |ks| ==> ks[i] in m
  {
    if ks == [] then 0 else w(ks[0], m[ks[0]]) + SeqSum(ks[1..], m, w)
  }

  /** Visiting the entries in any order without repetition gives the same sum. */
  lemma {:induction false} SeqSumIsMapSum(ks: seq<string>, m: Selection, w: (string, Option<int>) -> int)
    requires forall i, j :: 0 <= i < j < |ks| ==> ks[i] != ks[j]
    requires forall k :: k in m <==> k in ks
    ensures SeqSum(ks, m, w) == MapSum(m, w)
  {
    if ks == [] {
      assert m == map[];
    } else {
      var k := ks[0];
      MapSumPick(m, w, k);
      var rest := m - {k};
      assert forall x :: x in rest <==> x in ks[1..] by {
        forall x ensures x in rest <==> x in ks[1..] {
          if x in ks[1..] {
            var i :| 0 <= i < |ks[1..]| && ks[1..][i] == x;
            assert ks[i + 1] == x;
          }
        }
      }
      SeqSumIsMapSum(ks[1..], rest, w);
      SeqSumOnSubmap(ks[1..], rest, m, w);
    }
  }

  /** `SeqSum` only looks at the entries it visits. */
  lemma {:induction false} SeqSumOnSubmap(ks: seq<string>, small: Selection, big: Selection, w: (string, Option<int>) -> int)
    requires forall i :: 0 <= i < |ks| ==> ks[i] in small
    requires forall k :: k in small ==> k in big && small[k] == big[k]
    ensures SeqSum(ks, small, w) == SeqSum(ks, big, w)
  {
    if ks != [] {
      SeqSumOnSubmap(ks[1..], small, big, w);
    }
  }

  /** With non-negative weights the sum is non-negative and bounds every single weight. */
  lemma {:induction false} MapSumBounds(m: Selection, w: (string, Option<int>) -> int)
    requires forall k :: k in m ==> w(k, m[k]) >= 0
    ensures MapSum(m, w) >= 0
    ensures forall k :: k in m ==> MapSum(m, w) >= w(k, m[k])
    decreases |m|
  {
    if m != map[] {
      forall k | k in m ensures MapSum(m, w) >= w(k, m[k]) && MapSum(m - {k}, w) >= 0 {
        assert |m - {k}| < |m| by { assert (m - {k}).Keys < m.Keys; }
        MapSumPick(m, w, k);
        MapSumBounds(m - {k}, w);
      }
    }
  }

  /** An entry of weight zero can be dropped without changing the sum. */
  lemma MapSumDropZero(m: Selection, w: (string, Option<int>) -> int, k: string)
    requires k in m && w(k, m[k]) == 0
    ensures MapSum(m, w) == MapSum(m - {k}, w)
  {
    MapSumPick(m, w, k);
  }
}

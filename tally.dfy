/**
 * Counting into a dictionary, as in `d[k] = d.get(k, 0) + w`, done once per entry
 * of a list of (key, weight) pairs: the validator counts issues per category
 * (weight 1) and the fixer sums fix counts per fix type (weight = count).
 */
module Tally {

  /** The keys that occur in the entries. */
  function KeySet(entries: seq<(string, nat)>): set<string> {
    set i | 0 <= i < |entries| :: entries[i].0
  }

  /** The summed weight of the entries with key `k`. */
  function KeyWeight(entries: seq<(string, nat)>, k: string): nat {
    if entries == [] then 0
    else
      var last := entries[|entries| - 1];
      KeyWeight(entries[..|entries| - 1], k) + (if last.0 == k then last.1 else 0)
  }

  /** The summed weight of all entries. */
  function TotalWeight(entries: seq<(string, nat)>): nat {
    if entries == [] then 0
    else TotalWeight(entries[..|entries| - 1]) + entries[|entries| - 1].1
  }

  /** `m` is the dictionary the counting loop builds from `entries`. */
  predicate IsTally(m: map<string, nat>, entries: seq<(string, nat)>) {
    && m.Keys == KeySet(entries)
    && forall k :: k in m ==> m[k] == KeyWeight(entries, k)
  }

  /** `d[k] = d.get(k, 0) + w` */
  function AddTo(m: map<string, nat>, k: string, w: nat): (r: map<string, nat>)
    ensures r.Keys == m.Keys + {k}
    ensures r[k] == (if k in m then m[k] else 0) + w
    ensures forall j :: j in m && j != k ==> r[j] == m[j]
  {
    m[k := (if k in m then m[k] else 0) + w]
  }

  /** One step of the counting loop keeps the dictionary equal to the tally so far. */
  lemma {:induction false} AddToExtends(m: map<string, nat>, entries: seq<(string, nat)>, k: string, w: nat)
    requires IsTally(m, entries)
    ensures IsTally(AddTo(m, k, w), entries + [(k, w)])
  {
    var e := entries + [(k, w)];
    assert e[..|e| - 1] == entries;
    assert KeySet(e) == KeySet(entries) + {k} by {
      forall x | x in KeySet(e) ensures x in KeySet(entries) + {k} {
        var i :| 0 <= i < |e| && e[i].0 == x;
        if i < |entries| { assert entries[i].0 == x; }
      }
      forall x | x in KeySet(entries) ensures x in KeySet(e) {
        var i :| 0 <= i < |entries| && entries[i].0 == x;
        assert e[i].0 == x;
      }
      assert e[|entries|].0 == k;
    }
    if k !in m {
      assert KeyWeight(entries, k) == 0 by { KeyWeightAbsent(entries, k); }
    }
  }

  /** A key that does not occur carries no weight. */
  lemma {:induction false} KeyWeightAbsent(entries: seq<(string, nat)>, k: string)
    requires k !in KeySet(entries)
    ensures KeyWeight(entries, k) == 0
  {
    if entries != [] {
      var init := entries[..|entries| - 1];
      assert KeySet(init) <= KeySet(entries) by {
        forall x | x in KeySet(init) ensures x in KeySet(entries) {
          var i :| 0 <= i < |init| && init[i].0 == x;
          assert entries[i].0 == x;
        }
      }
      assert entries[|entries| - 1].0 in KeySet(entries);
      KeyWeightAbsent(init, k);
    }
  }

  ghost function Pick(s: set<string>): string
    requires s != {}
  {
    var x :| x in s; x
  }

  /** The sum of a dictionary's values, `sum(d.values())`. */
  ghost function SumValues(m: map<string, nat>): nat
    decreases |m.Keys|
  {
    if m.Keys == {} then 0
    else
      var k := Pick(m.Keys);
      assert (m - {k}).Keys == m.Keys - {k};
      m[k] + SumValues(m - {k})
  }

  /** Any key may be taken out first when summing the values. */
  lemma {:induction false} SumValuesRemove(m: map<string, nat>, k: string)
    requires k in m
    ensures SumValues(m) == m[k] + SumValues(m - {k})
    decreases |m.Keys|
  {
    var p := Pick(m.Keys);
    assert (m - {p}).Keys == m.Keys - {p};
    if p != k {
      assert (m - {k}).Keys == m.Keys - {k};
      SumValuesRemove(m - {p}, k);
      SumValuesRemove(m - {k}, p);
      assert m - {p} - {k} == m - {k} - {p};
    }
  }

  /** How `sum(d.values())` changes under `d[k] = d.get(k, 0) + w`. */
  lemma {:induction false} SumValuesAddTo(m: map<string, nat>, k: string, w: nat)
    ensures SumValues(AddTo(m, k, w)) == SumValues(m) + w
  {
    var r := AddTo(m, k, w);
    SumValuesRemove(r, k);
    assert r - {k} == m - {k};
    if k in m {
      SumValuesRemove(m, k);
    } else {
      assert m - {k} == m;
    }
  }

  /** The entries determine their tally. */
  lemma TallyUnique(m1: map<string, nat>, m2: map<string, nat>, entries: seq<(string, nat)>)
    requires IsTally(m1, entries) && IsTally(m2, entries)
    ensures m1 == m2
  {
    assert m1.Keys == m2.Keys;
    assert forall k :: k in m1 ==> m1[k] == m2[k];
  }

  /** The values of the tally sum to the total weight of the entries. */
  lemma {:induction false} TallySum(m: map<string, nat>, entries: seq<(string, nat)>)
    requires IsTally(m, entries)
    ensures SumValues(m) == TotalWeight(entries)
  {
    if entries == [] {
      assert m.Keys == {};
    } else {
      var init := entries[..|entries| - 1];
      var (k, w) := entries[|entries| - 1];
      var m0 := map j | j in KeySet(init) :: KeyWeight(init, j);
      TallySum(m0, init);
      AddToExtends(m0, init, k, w);
      assert init + [(k, w)] == entries;
      TallyUnique(AddTo(m0, k, w), m, entries);
      SumValuesAddTo(m0, k, w);
    }
  }
}

/** Ascending enumeration of a finite set of 32-bit keys: the order the
    histogram export sorts its (address, cycles) pairs into. */
module OrderedKeys {
  import opened Machine

  /** `k` is the least key of `s`. */
  predicate IsMin(k: U32, s: set<U32>) {
    k in s && forall j :: j in s ==> k <= j
  }

  lemma {:induction false} MinExists(s: set<U32>)
    requires s != {}
    ensures exists k :: IsMin(k, s)
    decreases |s|
  {
    var x :| x in s;
    var rest := s - {x};
    if rest == {} {
      assert s == {x};
      assert IsMin(x, s);
    } else {
      MinExists(rest);
      var m :| IsMin(m, rest);
      assert s == rest + {x};
      if x < m {
        assert IsMin(x, s);
      } else {
        assert IsMin(m, s);
      }
    }
  }

  function MinKey(s: set<U32>): (k: U32)
    requires s != {}
    ensures k in s && forall j :: j in s ==> k <= j
  {
    MinExists(s);
    var k :| IsMin(k, s);
    k
  }

  /** The keys in ascending order: the order of the sorted pair vector. */
  function SortedKeys(s: set<U32>): (ks: seq<U32>)
    ensures |ks| == |s|
    ensures forall i, j :: 0 <= i < j < |ks| ==> ks[i] < ks[j]
    ensures forall k :: k in s <==> k in ks
    decreases |s|
  {
    if s == {} then []
    else
      var k := MinKey(s);
      var rest := SortedKeys(s - {k});
      [k] + rest
  }
}

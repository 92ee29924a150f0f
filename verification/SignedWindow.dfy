/** The newest entries of a log kept in a bounded map. */
module SignedWindow {
  import opened MachineIntegers

  function Least(keys: set<U64>): (k: U64)
    requires keys != {}
    ensures k in keys && forall j :: j in keys ==> k <= j
  {
    LeastExists(keys);
    var k :| k in keys && forall j :: j in keys ==> k <= j;
    k
  }

  ghost predicate IsLeast(k: U64, keys: set<U64>) {
    k in keys && forall j :: j in keys ==> k <= j
  }

  lemma LeastExists(keys: set<U64>)
    requires keys != {}
    ensures exists k :: IsLeast(k, keys)
  {
    var k := FindLeast(keys);
  }

  lemma {:induction false} FindLeast(keys: set<U64>) returns (k: U64)
    requires keys != {}
    ensures IsLeast(k, keys)
    decreases |keys|
  {
    k :| k in keys;
    var others := keys - {k};
    assert keys == others + {k};
    if others != {} {
      var l := FindLeast(others);
      if l < k {
        k := l;
      }
    }
  }

  /** The keys above `k`. */
  function Above(keys: set<U64>, k: U64): set<U64> {
    set j | j in keys && j > k
  }

  /** The `capacity` highest of `keys`: those with fewer than that many above
      them. */
  function Highest(keys: set<U64>, capacity: nat): set<U64> {
    set k | k in keys && |Above(keys, k)| < capacity
  }

  /** The entries of the `capacity` highest numbers. */
  function Newest<V>(log: map<U64, V>, capacity: nat): map<U64, V> {
    map k | k in Highest(log.Keys, capacity) :: log[k]
  }

  lemma SubsetSize(a: set<U64>, b: set<U64>)
    requires a <= b
    ensures |a| <= |b|
    ensures |a| == |b| ==> a == b
  {
    assert b == a + (b - a);
  }

  /** Nothing is dropped while the map fits. */
  lemma HighestOfFew(keys: set<U64>, capacity: nat)
    requires |keys| <= capacity
    ensures Highest(keys, capacity) == keys
  {
    forall k | k in keys ensures |Above(keys, k)| < capacity {
      SubsetSize(Above(keys, k), keys - {k});
    }
  }

  /** Dropping the lowest key of a map that does not fit keeps the highest. */
  lemma HighestWithoutLeast(keys: set<U64>, capacity: nat)
    requires |keys| > capacity
    ensures Highest(keys - {Least(keys)}, capacity) == Highest(keys, capacity)
  {
    var l := Least(keys);
    assert Above(keys, l) == keys - {l};
    forall k ensures Above(keys - {l}, k) == if k in keys then Above(keys, k) else Above(keys - {l}, k) {
      if k in keys {
        assert Above(keys - {l}, k) == Above(keys, k);
      }
    }
  }

  lemma {:induction false} HighestSize(keys: set<U64>, capacity: nat)
    ensures |Highest(keys, capacity)| == if |keys| <= capacity then |keys| else capacity
    decreases |keys|
  {
    if |keys| <= capacity {
      HighestOfFew(keys, capacity);
    } else {
      HighestWithoutLeast(keys, capacity);
      HighestSize(keys - {Least(keys)}, capacity);
    }
  }

  /** Trimming before an insertion changes nothing about the trimmed result. */
  lemma HighestAbsorbs(keys: set<U64>, n: U64, capacity: nat)
    ensures Highest(Highest(keys, capacity) + {n}, capacity) == Highest(keys + {n}, capacity)
  {
    var kept := Highest(keys, capacity);
    forall k: U64
      ensures k in Highest(kept + {n}, capacity) <==> k in Highest(keys + {n}, capacity)
    {
      var some, all := Above(kept + {n}, k), Above(keys + {n}, k);
      SubsetSize(some, all);
      SubsetSize(Above(keys, k), all);
      if some != all {
        var j :| j in all && j !in some;
        SubsetSize(Above(keys, j), Above(keys, k));
        // Everything kept lies above `j`, hence above `k`.
        forall t | t in kept ensures t > j {
          if t < j {
            SubsetSize(Above(keys, j), Above(keys, t));
          }
        }
        SubsetSize(kept, some);
        SubsetSize(Above(keys, j), keys);
        HighestSize(keys, capacity);
      }
    }
  }

  lemma NewestAbsorbs<V>(log: map<U64, V>, n: U64, v: V, capacity: nat)
    ensures Newest(Newest(log, capacity)[n := v], capacity) == Newest(log[n := v], capacity)
  {
    HighestAbsorbs(log.Keys, n, capacity);
    assert Newest(log, capacity).Keys == Highest(log.Keys, capacity);
    assert Newest(log, capacity)[n := v].Keys == Highest(log.Keys, capacity) + {n};
    assert log[n := v].Keys == log.Keys + {n};
  }
}

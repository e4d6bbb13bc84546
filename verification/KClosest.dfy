/** src/dht/kclosestnodessearch.cpp: keeps the entries closest to a key. */
module KClosest {
  import opened Common
  import opened Keys
  import opened DhtEntries

  /** `chosen` are the `k` smallest numbers of `seen`, or all of them when there are fewer. */
  ghost predicate KSmallest(chosen: set<int>, seen: set<int>, k: nat)
  {
    && chosen <= seen
    && |chosen| == (if |seen| <= k then |seen| else k)
    && forall x, y :: x in chosen && y in seen && y !in chosen ==> x < y
  }

  /** There is only one such set, so it does not depend on the order of arrival. */
  lemma KSmallestIsUnique(a: set<int>, b: set<int>, seen: set<int>, k: nat)
    requires KSmallest(a, seen, k) && KSmallest(b, seen, k)
    ensures a == b
  {
    if a != b {
      var x, y := SameSizeDifference(a, b);
      assert false;
    }
  }

  /** Different sets of equal size differ in both directions. */
  lemma SameSizeDifference(a: set<int>, b: set<int>) returns (x: int, y: int)
    requires |a| == |b| && a != b
    ensures x in a && x !in b && y in b && y !in a
  {
    var common := a * b;
    assert a == common + (a - b) && b == common + (b - a);
    assert |a| == |common| + |a - b| && |b| == |common| + |b - a|;
    x := PickElement(a - b);
    y := PickElement(b - a);
  }

  /** What tryInsert does to the distances. `max` is the largest one kept. */
  function Offer(chosen: set<int>, k: nat, d: int, max: int): set<int>
  {
    if |chosen| < k then chosen + {d}
    else if d < max then chosen + {d} - {max}
    else chosen
  }

  /** Offering a distance keeps the k smallest, except that a repeated distance below the
      largest one of a full map pushes that largest one out. */
  lemma OfferKeepsSmallest(chosen: set<int>, seen: set<int>, k: nat, d: int, max: int)
    requires k >= 1 && KSmallest(chosen, seen, k)
    requires |chosen| >= k ==> max in chosen && forall x :: x in chosen ==> x <= max
    ensures KSmallest(Offer(chosen, k, d, max), seen + {d}, k) <==> !(|chosen| == k && d in chosen && d < max)
  {
    var seen', chosen' := seen + {d}, Offer(chosen, k, d, max);
    if d in seen {
      assert seen' == seen;
    }
    if |chosen| < k {
      SubsetOfEqualSize(chosen, seen);
      assert chosen' == seen';
    } else if d < max {
      if d in chosen {
        assert chosen' == chosen - {max};
        assert |chosen'| == k - 1;
        Bigger(chosen, seen);
      } else {
        assert d !in seen;
        assert chosen' == chosen - {max} + {d};
        assert |chosen - {max}| == k - 1;
        Bigger(chosen, seen);
      }
    } else {
      Bigger(chosen, seen);
    }
  }

  /** For example, offering the distance 1 twice to a search for two entries. */
  lemma RepeatedDistanceLosesAnEntry()
    ensures KSmallest({1, 2}, {1, 2}, 2) && !KSmallest(Offer({1, 2}, 2, 1, 2), {1, 2} + {1}, 2)
  {
    assert |{1, 2}| == 2;
    OfferKeepsSmallest({1, 2}, {1, 2}, 2, 1, 2);
  }

  lemma Bigger(a: set<int>, b: set<int>)
    requires a <= b
    ensures |a| <= |b|
  {
    assert b == a + (b - a);
  }

  lemma SubsetOfEqualSize(a: set<int>, b: set<int>)
    requires a <= b && |a| == |b|
    ensures a == b
  {
    assert b == a + (b - a);
    assert |b - a| == 0;
  }

  /** std::map::insert: an entry at the same distance stays. */
  function WithEntry(m: map<int, KBucketEntry>, d: int, e: KBucketEntry): (r: map<int, KBucketEntry>)
    ensures r.Keys == m.Keys + {d} && |r| <= |m| + 1
    ensures forall x :: x in r ==> r[x] == if x in m then m[x] else e
  {
    if d in m then m else m[d := e]
  }

  class KClosestNodesSearch {
    const key: Key
    const maxEntries: nat
    var emap: map<int, KBucketEntry>

    /** The ids of all entries offered so far. */
    ghost var offered: set<Key>

    ghost function Seen(): set<int>
      reads this
    {
      set i | i in offered :: Val(Distance(key, i))
    }

    ghost predicate Valid()
      reads this
    {
      && maxEntries >= 1
      && |emap| <= maxEntries
      && forall d :: d in emap ==> emap[d].id in offered && d == Val(Distance(key, emap[d].id))
    }

    /** The map holds the entries closest to the key. */
    ghost predicate HoldsClosest()
      reads this
    {
      KSmallest(emap.Keys, Seen(), maxEntries)
    }

    constructor (key: Key, maxEntries: nat)
      requires maxEntries >= 1
      ensures Valid() && HoldsClosest() && offered == {} && this.key == key && this.maxEntries == maxEntries
    {
      this.key, this.maxEntries := key, maxEntries;
      emap, offered := map[], {};
      new;
      assert Seen() == {};
    }

    /** The changes of tryInsert to the map, for an entry at distance `d`. */
    method Place(d: int, e: KBucketEntry) returns (ghost max: int)
      requires maxEntries >= 1 && |emap| <= maxEntries
      modifies this`emap
      ensures |emap| <= maxEntries
      ensures |old(emap)| == maxEntries ==> max in old(emap) && forall x :: x in old(emap) ==> x <= max
      ensures emap.Keys == Offer(old(emap).Keys, maxEntries, d, max)
      ensures forall x :: x in emap ==> x in old(emap) || x == d
      ensures forall x :: x in emap ==> emap[x] == if x in old(emap) then old(emap)[x] else e
    {
      if |emap| < maxEntries {
        emap := WithEntry(emap, d, e);
        max := 0;
      } else {
        var last :| last in emap.Keys && forall x :: x in emap.Keys ==> x <= last by {
          var m := LargestExists(emap.Keys);
        }
        max := last;
        if d < last {
          KeepsSize(emap.Keys, d, last);
          emap := WithEntry(emap, d, e);
          emap := emap - {last};
        }
      }
    }

    method TryInsert(e: KBucketEntry)
      requires Valid()
      modifies this
      ensures Valid()
      ensures offered == old(offered) + {e.id}
      ensures forall d :: d in emap && d in old(emap) ==> emap[d] == old(emap)[d]
      // The whole effect on what the search is for:
      ensures old(HoldsClosest()) ==>
        var d := Val(Distance(key, e.id));
        HoldsClosest() <==> !(|old(emap)| == maxEntries && d in old(emap) && exists m :: m in old(emap) && d < m)
      // In particular, for entries with distinct ids:
      ensures old(HoldsClosest()) && e.id !in old(offered) ==> HoldsClosest()
    {
      hide Val, Distance, Offer, KSmallest;
      var d := Val(Distance(key, e.id));
      ghost var before, seen := emap.Keys, Seen();
      ghost var max := Place(d, e);
      offered := offered + {e.id};
      assert Seen() == seen + {d};
      if KSmallest(before, seen, maxEntries) {
        OfferKeepsSmallest(before, seen, maxEntries, d, max);
        if d in before {
          DistanceIsInjective(key, e.id, old(emap)[d].id);
        }
      }
    }
  }

  lemma KeepsSize(s: set<int>, d: int, max: int)
    requires max in s && d != max
    ensures |s + {d} - {max}| <= |s|
  {
    assert s + {d} - {max} == s - {max} + {d};
    assert |s - {max}| == |s| - 1;
  }
}

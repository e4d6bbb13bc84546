/** src/dht/kbucket.cpp and src/dht/kbuckettable.cpp: buckets as objects, and the ordered list
    of them that makes up the routing table. */
module RoutingTables {
  import opened Common
  import opened Keys
  import opened DhtEntries
  import opened KBuckets

  const KEY_MIN: Key := [0, 0, 0, 0, 0]

  /** Key::max(): only its first byte is FF. */
  const KEY_MAX: Key := [0xFF00_0000, 0, 0, 0, 0]

  const MAX_VALUE: nat := 0xFF000000_00000000_00000000_00000000_00000000

  lemma ExtremeKeys()
    ensures Val(KEY_MIN) == 0 && Val(KEY_MAX) == MAX_VALUE
  {
    hide Power;
    PowerOfLimbs();
    PowerStep(4);
    var z := [0, 0, 0, 0];
    assert KEY_MIN[1..] == z && KEY_MAX[1..] == z;
    assert z[1..] == [0, 0, 0] && [0, 0, 0][1..] == [0, 0] && [0, 0][1..] == [0] && [0][1..] == [];
    assert Number([0], TWO_32) == 0;
    assert Number([0, 0], TWO_32) == 0;
    assert Number([0, 0, 0], TWO_32) == 0;
    assert Number(z, TWO_32) == 0;
  }

  class KBucket {
    const minKey: Key
    const maxKey: Key
    const ourId: Key
    var entries: seq<KBucketEntry>
    var pendingEntries: seq<KBucketEntry>
    var pinging: map<Call, KBucketEntry>
    var lastModified: nat

    ghost function Value(): Contents
      reads this
    {
      Contents(entries, pendingEntries, pinging)
    }

    ghost predicate Valid()
      reads this
    {
      && 0 <= Val(minKey) <= Val(maxKey) <= MAX_VALUE
      && Sound(Value(), Val(minKey), Val(maxKey))
    }

    constructor (minKey: Key, maxKey: Key, ourId: Key, now: nat)
      requires 0 <= Val(minKey) <= Val(maxKey) <= MAX_VALUE
      ensures Valid() && Value() == Contents([], [], map[])
      ensures this.minKey == minKey && this.maxKey == maxKey && this.ourId == ourId
    {
      this.minKey, this.maxKey, this.ourId := minKey, maxKey, ourId;
      entries, pendingEntries, pinging, lastModified := [], [], map[], now;
    }

    predicate KeyInRange(k: Key)
    {
      LessEq(minKey, k) && LessEq(k, maxKey)
    }

    lemma RangeIsNumeric(k: Key)
      ensures KeyInRange(k) <==> InRange(k, Val(minKey), Val(maxKey))
    {
      hide Memcmp, Val;
      ComparisonIsNumeric(minKey, k);
      ComparisonIsNumeric(k, maxKey);
    }

    method SplitAllowed() returns (b: bool)
      requires Valid()
      ensures b <==> InRange(ourId, Val(minKey), Val(maxKey)) && Val(minKey) + K < Val(maxKey)
    {
      hide Memcmp, Val, Sound;
      RangeIsNumeric(ourId);
      if !KeyInRange(ourId) {
        return false;
      }
      var k := AddByte(minKey, K);
      ComparisonIsNumeric(maxKey, k);
      return !LessEq(maxKey, k);
    }

    method ReplaceBadEntry(e: KBucketEntry, now: nat) returns (replaced: bool)
      requires Valid() && InRange(e.id, Val(minKey), Val(maxKey))
      modifies this`entries, this`lastModified
      ensures Valid()
      ensures replaced <==> ReplaceBad(old(entries), e, now).Some?
      ensures entries == if replaced then ReplaceBad(old(entries), e, now).value else old(entries)
      ensures lastModified == if replaced then now else old(lastModified)
    {
      hide First, Sound, InRange;
      StoreSound(Value(), e, now, Val(minKey), Val(maxKey));
      for i := 0 to |entries|
        invariant entries == old(entries)
        invariant forall j :: 0 <= j < i ==> !entries[j].IsBad(now)
      {
        if entries[i].IsBad(now) {
          lastModified := now;
          entries := entries[..i] + entries[i + 1..] + [e];
          return true;
        }
      }
      return false;
    }

    method PingQuestionable(e: KBucketEntry, call: nat, now: nat)
      requires Valid() && InRange(e.id, Val(minKey), Val(maxKey))
      modifies this
      ensures Valid()
      ensures Value() == KBuckets.PingQuestionable(old(Value()), e, call, now)
      ensures lastModified == old(lastModified)
    {
      hide First, Sound, InRange;
      PingSound(Value(), e, call, now, Val(minKey), Val(maxKey));
      if |pinging| >= 2 {
        var i := FindSame(pendingEntries, e);
        if i < |pendingEntries| {
          pendingEntries := pendingEntries[..i] + pendingEntries[i + 1..];
        }
        ghost var rest := pendingEntries;
        while |pendingEntries| >= K
          invariant entries == old(entries) && pinging == old(pinging) && lastModified == old(lastModified)
          invariant pendingEntries == if |rest| < K then rest else rest[..|pendingEntries|]
          invariant |rest| >= K ==> K - 1 <= |pendingEntries| <= |rest|
          decreases |pendingEntries|
        {
          pendingEntries := pendingEntries[..|pendingEntries| - 1];
        }
        pendingEntries := [e] + pendingEntries;
        return;
      }
      for i := 0 to |entries|
        invariant Value() == old(Value()) && lastModified == old(lastModified)
        invariant forall j :: 0 <= j < i ==> !entries[j].IsQuestionable(now)
      {
        var x := entries[i];
        if x.IsQuestionable(now) {
          entries := entries[i := x.(questionablePings := x.questionablePings + 1)];
          pinging := pinging[Call(call, x.addr) := e];
          return;
        }
      }
    }

    /** std::find */
    method FindSame(es: seq<KBucketEntry>, e: KBucketEntry) returns (i: nat)
      ensures i == FirstSame(es, e)
    {
      hide First;
      i := 0;
      while i < |es| && !es[i].Same(e)
        invariant i <= |es|
        invariant forall j :: 0 <= j < i ==> !es[j].Same(e)
      {
        i := i + 1;
      }
    }

    /** Returns whether the bucket has to be split before the entry can get a place. */
    method Insert(e: KBucketEntry, call: nat, now: nat) returns (split: bool)
      requires Valid() && InRange(e.id, Val(minKey), Val(maxKey))
      modifies this
      ensures Valid()
      ensures split <==> Store(old(entries), e, now).None? && InRange(ourId, Val(minKey), Val(maxKey)) && Val(minKey) + K < Val(maxKey)
      ensures Value() ==
        var r := Store(old(entries), e, now);
        if r.Some? then old(Value()).(entries := r.value)
        else if split then old(Value())
        else KBuckets.PingQuestionable(old(Value()), e, call, now)
      ensures lastModified == if Store(old(entries), e, now).Some? then now else old(lastModified)
    {
      hide First, Sound, InRange, Val;
      StoreSound(Value(), e, now, Val(minKey), Val(maxKey));
      SizeIsLimited(Value(), Val(minKey), Val(maxKey));
      var i := FindSame(entries, e);
      if i < |entries| {
        // hasResponded() is called on the old entry, which is then replaced by the new one
        lastModified := now;
        entries := entries[..i] + entries[i + 1..] + [e];
        return false;
      }
      if |entries| < K {
        entries := entries + [e];
        lastModified := now;
      } else {
        var replaced := ReplaceBadEntry(e, now);
        if !replaced {
          var allowed := SplitAllowed();
          if |entries| == K && allowed {
            return true;
          }
          PingQuestionable(e, call, now);
        }
      }
      return false;
    }

    method ReplaceOrPing(e: KBucketEntry, call: nat, now: nat)
      requires Valid() && InRange(e.id, Val(minKey), Val(maxKey))
      modifies this
      ensures Valid() && Value() == KBuckets.ReplaceOrPing(old(Value()), e, call, now)
      ensures lastModified == if ReplaceBad(old(entries), e, now).Some? then now else old(lastModified)
    {
      hide Sound, InRange, ReplaceBad, KBuckets.PingQuestionable;
      var replaced := ReplaceBadEntry(e, now);
      if !replaced {
        PingQuestionable(e, call, now);
      }
    }

    /** The answer to a ping arrived. */
    method OnResponse(c: Call, call: nat, now: nat)
      requires Valid()
      modifies this
      ensures Valid() && Value() == KBuckets.OnResponse(old(Value()), c, call, now)
      ensures lastModified == now
    {
      hide Sound, InRange, KBuckets.ReplaceOrPing;
      lastModified := now;
      if c !in pinging {
        return;
      }
      PingOverSound(Value(), c, Val(minKey), Val(maxKey));
      var entry := pinging[c];
      pinging := pinging - {c};
      ReplaceOrPing(entry, call, now);
    }

    /** The first entry at the address gives way to `entry`. */
    method ReplaceSilent(addr: Address, entry: KBucketEntry, now: nat)
      modifies this`entries, this`lastModified
      ensures var i := FirstAt(old(entries), addr);
        && entries == (if i < |old(entries)| then Swap(old(entries), i, entry) else old(entries))
        && lastModified == if i < |old(entries)| then now else old(lastModified)
    {
      hide First;
      var i := 0;
      while i < |entries| && entries[i].addr != addr
        invariant i <= |entries|
        invariant forall j :: 0 <= j < i ==> entries[j].addr != addr
      {
        i := i + 1;
      }
      if i < |entries| {
        lastModified := now;
        entries := entries[..i] + entries[i + 1..] + [entry];
      }
    }

    /** A ping was not answered: its entry gives way to the candidate, and the next one is tried. */
    method OnTimeout(c: Call, call: nat, now: nat)
      requires Valid()
      modifies this
      ensures Valid() && Value() == KBuckets.OnTimeout(old(Value()), c, call, now)
      ensures lastModified == if c in old(pinging) && (FirstAt(old(entries), c.dest) < |old(entries)| || NextIsPlaced(old(Value()), c, now))
                              then now else old(lastModified)
    {
      hide First, Sound, InRange, KBuckets.ReplaceOrPing, ReplaceBad;
      if c !in pinging {
        return;
      }
      PingOverSound(Value(), c, Val(minKey), Val(maxKey));
      var entry := pinging[c];
      ReplaceSilent(c.dest, entry, now);
      pinging := pinging - {c};
      assert Value() == PingFailed(old(Value()), c);
      if |pinging| < 2 && |pendingEntries| > 0 {
        var pe := pendingEntries[0];
        BadIsReplaced(entries, pe, now);
        pendingEntries := pendingEntries[1..];
        ReplaceOrPing(pe, call, now);
      }
    }

    /** A request to this address, from anywhere, was not answered. */
    method RequestTimedOut(addr: Address) returns (found: bool)
      requires Valid()
      modifies this`entries
      ensures Valid() && entries == OnRequestTimeout(old(entries), addr)
      ensures found <==> FirstAt(old(entries), addr) < |old(entries)|
      ensures !found ==> entries == old(entries)
    {
      hide First, Sound;
      RequestTimeoutSound(Value(), addr, Val(minKey), Val(maxKey));
      for i := 0 to |entries|
        invariant entries == old(entries)
        invariant forall j :: 0 <= j < i ==> entries[j].addr != addr
      {
        if entries[i].addr == addr {
          entries := entries[i := entries[i].(failedQueries := entries[i].failedQueries + 1)];
          return true;
        }
      }
      return false;
    }

    /** Two buckets for the two halves of the range; None stands for UnableToSplit. */
    method Split(now: nat) returns (r: Option<(KBucket, KBucket)>)
      requires Valid()
      ensures r.None? <==> Val(maxKey) - Val(minKey) <= 2
      ensures r.Some? ==>
        var (left, right) := r.value;
        && fresh(left) && fresh(right) && left != right && left.Valid() && right.Valid()
        && Halves(this, left, right)
        && Idents(left.entries) + Idents(right.entries) == Idents(entries)
        && |left.entries| + |right.entries| <= |entries|
        && Among(left.entries, entries) && Among(right.entries, entries)
        && Unique(left.entries) && Unique(right.entries)
        && (Unique(entries) ==> left.entries == Within(entries, left) && right.entries == Within(entries, right))
    {
      hide First, Sound, Val, Idents, Memcmp, Store, KBuckets.PingQuestionable, Unique, Within;
      var m := Mid(minKey, maxKey);
      var m1 := AddByte(m, 1);
      ComparisonIsNumeric(m, minKey);
      ComparisonIsNumeric(m1, maxKey);
      if m == minKey || m1 == maxKey {
        return None;
      }
      var left := new KBucket(minKey, m, ourId, now);
      var right := new KBucket(m1, maxKey, ourId, now);
      SizeIsLimited(Value(), Val(minKey), Val(maxKey));
      IdentsOfNothing();
      NothingWithin(left);
      NothingWithin(right);
      for i := 0 to |entries|
        invariant left.Valid() && right.Valid()
        invariant |left.entries| + |right.entries| <= i
        invariant Idents(left.entries) + Idents(right.entries) == Idents(entries[..i])
        invariant Among(left.entries, entries) && Among(right.entries, entries)
        invariant Unique(left.entries) && Unique(right.entries)
        invariant Unique(entries) ==> left.entries == Within(entries[..i], left) && right.entries == Within(entries[..i], right)
      {
        var e := entries[i];
        NextWithin(entries, i, left, now);
        NextWithin(entries, i, right, now);
        left.RangeIsNumeric(e.id);
        EntryInRange(Value(), i, Val(minKey), Val(maxKey));
        assert entries[..i + 1] == entries[..i] + [e];
        IdentsConcat(entries[..i], [e]);
        IdentsOne(e);
        if left.KeyInRange(e.id) {
          StoreWithRoom(left.entries, e, now);
          var _ := left.Insert(e, 0, now);
        } else {
          StoreWithRoom(right.entries, e, now);
          var _ := right.Insert(e, 0, now);
        }
      }
      assert entries[..|entries|] == entries;
      return Some((left, right));
    }
  }

  /** The entries that belong to a bucket, in their order. */
  ghost function Within(es: seq<KBucketEntry>, b: KBucket): seq<KBucketEntry>
  {
    if es == [] then []
    else
      var n := |es| - 1;
      Within(es[..n], b) + if InRange(es[n].id, Val(b.minKey), Val(b.maxKey)) then [es[n]] else []
  }

  lemma {:induction false} WithinIsAmong(es: seq<KBucketEntry>, b: KBucket)
    ensures forall i :: 0 <= i < |Within(es, b)| ==> Within(es, b)[i] in es
    decreases |es|
  {
    hide Val;
    if es != [] {
      WithinIsAmong(es[..|es| - 1], b);
    }
  }

  /** The next entry of a list without duplicates is appended to the half that it belongs to. */
  lemma NextWithin(es: seq<KBucketEntry>, i: nat, b: KBucket, now: nat)
    requires i < |es|
    ensures var before := Within(es[..i], b);
            && Within(es[..i + 1], b) == (before + if InRange(es[i].id, Val(b.minKey), Val(b.maxKey)) then [es[i]] else [])
            && (Unique(es) && |before| < K ==> Store(before, es[i], now) == Some(before + [es[i]]))
  {
    hide Val, First;
    assert es[..i + 1][..i] == es[..i];
    WithinIsAmong(es[..i], b);
  }

  ghost predicate Among(es: seq<KBucketEntry>, all: seq<KBucketEntry>)
  {
    forall i :: 0 <= i < |es| ==> es[i] in all
  }

  /** The ranges of two buckets are the two halves of the range of a third. */
  ghost predicate Halves(b: KBucket, left: KBucket, right: KBucket)
  {
    && left.minKey == b.minKey && right.maxKey == b.maxKey
    && Val(right.minKey) == Val(left.maxKey) + 1
    && Val(left.maxKey) == (Val(b.minKey) + Val(b.maxKey)) / 2
    && left.ourId == b.ourId && right.ourId == b.ourId
  }

  lemma SizeIsLimited(b: Contents, min: int, max: int)
    requires Sound(b, min, max)
    ensures |b.entries| <= K
  {
  }

  lemma BadIsReplaced(es: seq<KBucketEntry>, e: KBucketEntry, now: nat)
    ensures ReplaceBad(es, e, now).Some? <==> FirstBad(es, now) < |es|
  {
    hide First;
  }

  /** All that is needed of a stored entry. */
  lemma StoreFacts(es: seq<KBucketEntry>, e: KBucketEntry, now: nat)
    requires Store(es, e, now).Some?
    ensures var r, v := Store(es, e, now).value, Victim(es, e, now);
            && IsNewest(r, e)
            && Idents(r) <= Idents(es) + {Ident(e)} && Idents(es) <= Idents(r) + IdentOf(v)
            && (v.Some? ==> v.value in es && v.value.IsBad(now))
            && (Unique(es) ==> Unique(r))
  {
    hide First, Idents, Unique, Store, Victim;
    StoreAppends(es, e, now);
    StoreLosesOnlyTheBad(es, e, now);
    if Unique(es) {
      StoreKeepsUnique(es, e, now);
    }
  }

  /** What is to happen to a bucket that cannot store an entry. */
  lemma StoreFails(b: Contents, e: KBucketEntry, now: nat, min: int, max: int)
    requires Sound(b, min, max)
    ensures Store(b.entries, e, now).None? <==> |b.entries| == K && NoneBad(b.entries, now) && !Holds(b.entries, e)
  {
    hide First, InRange;
  }

  lemma PingKeepsLength(b: Contents, e: KBucketEntry, call: nat, now: nat)
    ensures |KBuckets.PingQuestionable(b, e, call, now).entries| == |b.entries|
  {
    hide First;
  }

  lemma EntryInRange(b: Contents, i: nat, min: int, max: int)
    requires Sound(b, min, max) && i < |b.entries|
    ensures InRange(b.entries[i].id, min, max)
  {
  }

  lemma NothingWithin(b: KBucket)
    ensures Within([], b) == []
  {
  }

  lemma IdentsOfNothing()
    ensures Idents([]) == {} && Unique([])
  {
  }

  /** In a bucket with room, storing an entry only adds it. */
  lemma StoreWithRoom(es: seq<KBucketEntry>, e: KBucketEntry, now: nat)
    requires |es| < K
    ensures var r := Store(es, e, now);
            r.Some? && |r.value| <= |es| + 1 && Idents(r.value) == Idents(es) + {Ident(e)}
    ensures forall all :: Among(es, all) && e in all ==> Among(Store(es, e, now).value, all)
    ensures Unique(es) ==> Unique(Store(es, e, now).value)
  {
    hide First, Idents, Unique;
    if Unique(es) {
      StoreKeepsUnique(es, e, now);
    }
    StoreLosesOnlyTheBad(es, e, now);
  }

  // ----- Ranges

  datatype KeyRange = KeyRange(min: int, max: int)
  {
    predicate Has(k: int) { min <= k <= max }
  }

  /** The ranges are consecutive, disjoint and together are [lo, hi]. */
  ghost predicate Tiles(rs: seq<KeyRange>, lo: int, hi: int)
  {
    && |rs| > 0 && rs[0].min == lo && rs[|rs| - 1].max == hi
    && (forall i :: 0 <= i < |rs| ==> rs[i].min <= rs[i].max)
    && forall i :: 0 <= i < |rs| - 1 ==> rs[i + 1].min == rs[i].max + 1
  }

  lemma {:induction false} TilesAreOrdered(rs: seq<KeyRange>, lo: int, hi: int, i: nat, j: nat)
    requires Tiles(rs, lo, hi) && i < j < |rs|
    ensures rs[i].max < rs[j].min
    decreases j
  {
    assert rs[j - 1 + 1].min == rs[j - 1].max + 1;
    if i < j - 1 {
      TilesAreOrdered(rs, lo, hi, i, j - 1);
    }
  }

  /** Every key of the interval lies in exactly one range, and no other key in any. */
  lemma TilesPartition(rs: seq<KeyRange>, lo: int, hi: int, k: int)
    requires Tiles(rs, lo, hi)
    ensures lo <= k <= hi <==> exists i :: 0 <= i < |rs| && rs[i].Has(k)
    ensures forall i, j :: 0 <= i < |rs| && 0 <= j < |rs| && rs[i].Has(k) && rs[j].Has(k) ==> i == j
  {
    if lo <= k <= hi {
      var i := TileOf(rs, lo, hi, k, |rs| - 1);
    }
    forall i | 0 <= i < |rs| && rs[i].Has(k) ensures lo <= k <= hi {
      if i > 0 {
        TilesAreOrdered(rs, lo, hi, 0, i);
      }
      if i < |rs| - 1 {
        TilesAreOrdered(rs, lo, hi, i, |rs| - 1);
      }
    }
    forall i, j | 0 <= i < j < |rs| ensures !(rs[i].Has(k) && rs[j].Has(k)) {
      TilesAreOrdered(rs, lo, hi, i, j);
    }
  }

  lemma {:induction false} TileOf(rs: seq<KeyRange>, lo: int, hi: int, k: int, last: nat) returns (i: nat)
    requires Tiles(rs, lo, hi) && last < |rs| && lo <= k <= rs[last].max
    ensures i < |rs| && rs[i].Has(k)
    decreases last
  {
    if k >= rs[last].min {
      i := last;
    } else {
      assert rs[last - 1 + 1].min == rs[last - 1].max + 1;
      i := TileOf(rs, lo, hi, k, last - 1);
    }
  }

  /** One range replaced by its two halves. */
  function SplitAt(rs: seq<KeyRange>, i: nat): seq<KeyRange>
    requires i < |rs|
  {
    var m := (rs[i].min + rs[i].max) / 2;
    rs[..i] + [KeyRange(rs[i].min, m), KeyRange(m + 1, rs[i].max)] + rs[i + 1..]
  }

  lemma SplitTiles(rs: seq<KeyRange>, lo: int, hi: int, i: nat)
    requires Tiles(rs, lo, hi) && i < |rs| && rs[i].min < rs[i].max
    ensures Tiles(SplitAt(rs, i), lo, hi)
  {
    var rs' := SplitAt(rs, i);
    assert forall j :: 0 <= j < i ==> rs'[j] == rs[j];
    assert forall j :: i + 1 < j < |rs'| ==> rs'[j] == rs[j - 1];
    forall j | 0 <= j < |rs'| - 1 ensures rs'[j + 1].min == rs'[j].max + 1 {
      if j + 1 < i {
        assert rs[j + 1].min == rs[j].max + 1;
      } else if j + 1 == i {
        assert rs[j + 1].min == rs[j].max + 1;
      } else if j > i + 1 {
        assert rs[j - 1 + 1].min == rs[j - 1].max + 1;
      } else if j == i + 1 {
        assert rs[i + 1].min == rs[i].max + 1;
      }
    }
  }

  /** The range around our own id has at most 1 / 2^(n-1) of the width of the whole interval. */
  ghost predicate HomeIsNarrow(rs: seq<KeyRange>, ours: int)
  {
    forall i :: 0 <= i < |rs| && rs[i].Has(ours) ==> (rs[i].max - rs[i].min) * Power(2, |rs| - 1) <= MAX_VALUE
  }

  /** Splitting the range around our id keeps that. */
  lemma SplitKeepsNarrow(rs: seq<KeyRange>, lo: int, hi: int, i: nat, ours: int)
    requires Tiles(rs, lo, hi) && HomeIsNarrow(rs, ours) && i < |rs| && rs[i].Has(ours) && rs[i].min < rs[i].max
    ensures HomeIsNarrow(SplitAt(rs, i), ours)
  {
    hide Power;
    var rs', n := SplitAt(rs, i), |rs|;
    var w := rs[i].max - rs[i].min;
    forall j | 0 <= j < |rs'| && rs'[j].Has(ours)
      ensures (rs'[j].max - rs'[j].min) * Power(2, n) <= MAX_VALUE
    {
      TilesPartition(rs, lo, hi, ours);
      if j < i || j > i + 1 {
        assert false;
      } else {
        HalfWidth(rs'[j].max - rs'[j].min, w, n - 1);
      }
    }
  }

  lemma HalfWidth(half: int, w: int, n: nat)
    requires 0 <= half && 2 * half <= w && w * Power(2, n) <= MAX_VALUE
    ensures half * Power(2, n + 1) <= MAX_VALUE
  {
    var p := Power(2, n);
    assert half * (2 * p) == (2 * half) * p;
    MulMonotone(2 * half, w, p);
  }

  /** A range wide enough to be split means that there are at most 156 of them. */
  lemma FewSplits(w: int, n: nat)
    requires w > K && w * Power(2, n) <= MAX_VALUE
    ensures n <= 155
  {
    hide Power;
    if n > 155 {
      PowerMonotone(156, n);
      PowerOf156();
      MulMonotone(21, w, Power(2, n));
    }
  }

  lemma {:induction false} PowerMonotone(m: nat, n: nat)
    requires m <= n
    ensures Power(2, m) <= Power(2, n)
    decreases n
  {
    if m < n {
      PowerMonotone(m, n - 1);
    }
  }

  lemma PowerOf156()
    ensures 21 * Power(2, 156) > MAX_VALUE
  {
    hide Power;
    PowerOf160();
    PowerAdds(2, 4, 156);
    assert Power(2, 4) == 16 by { PowersOfTwoSmall(); }
    assert 16 * Power(2, 156) == KEY_SPACE;
  }

  lemma PowersOfTwoSmall()
    ensures Power(2, 4) == 16
  {
    assert Power(2, 2) == 4;
  }

  // ----- The table

  function RangeOf(b: KBucket): KeyRange { KeyRange(Val(b.minKey), Val(b.maxKey)) }

  function Ranges(bs: seq<KBucket>): seq<KeyRange>
  {
    seq(|bs|, i requires 0 <= i < |bs| => RangeOf(bs[i]))
  }

  ghost predicate FullFor(b: KBucket, e: KBucketEntry)
    reads b
  {
    RangeOf(b).Has(Val(e.id)) && |b.entries| == K
  }

  class KBucketTable {
    const ourId: Key
    var buckets: seq<KBucket>

    /** What holds of every table grown from empty. */
    ghost predicate Valid()
      reads this, buckets
    {
      && Distinct(buckets)
      && (forall i :: 0 <= i < |buckets| ==> buckets[i].Valid() && buckets[i].ourId == ourId)
      && (buckets != [] ==> Tiles(Ranges(buckets), 0, MAX_VALUE))
      && HomeIsNarrow(Ranges(buckets), Val(ourId))
      && |buckets| <= 157
      && (|buckets| > 1 ==> Val(ourId) <= MAX_VALUE)
    }

    ghost function Lists(): seq<seq<KBucketEntry>>
      reads this, buckets
    {
      seq(|buckets|, i requires 0 <= i < |buckets| reads this, buckets => buckets[i].entries)
    }

    /** The nodes that the table knows. */
    ghost function Known(): set<(Address, Key)>
      reads this, buckets
    {
      Ids(Lists())
    }

    /** No bucket has an entry twice. */
    ghost predicate NoDuplicates()
      reads this, buckets
    {
      forall i :: 0 <= i < |buckets| ==> Unique(buckets[i].entries)
    }

    /** Our own bucket is where the entry belongs; it is full, has no bad entry and is wide enough. */
    ghost predicate NeedsSplit(b: KBucket, e: KBucketEntry, now: nat)
      reads b
    {
      && RangeOf(b).Has(Val(e.id)) && |b.entries| == K && NoneBad(b.entries, now) && !Holds(b.entries, e)
      && RangeOf(b).Has(Val(ourId)) && RangeOf(b).min + K < RangeOf(b).max
    }

    /** The entry is in one of the buckets. */
    ghost predicate Has(e: KBucketEntry)
      reads this, buckets
    {
      exists i :: 0 <= i < |buckets| && e in buckets[i].entries
    }

    /** The entry is stored, or the bucket that it belongs to is full. */
    ghost predicate Settled(e: KBucketEntry)
      reads this, buckets
    {
      Newest(e) || exists i :: 0 <= i < |buckets| && FullFor(buckets[i], e)
    }

    /** The entry is the newest one of the bucket that it belongs to. */
    ghost predicate Newest(e: KBucketEntry)
      reads this, buckets
    {
      exists i :: 0 <= i < |buckets| && RangeOf(buckets[i]).Has(Val(e.id)) && IsNewest(buckets[i].entries, e)
    }

    /** The bucket is where the entry belongs and has a place for it: it has its node already, or it
        has room or a bad entry. */
    ghost predicate HasPlace(b: KBucket, e: KBucketEntry, now: nat)
      reads b
    {
      RangeOf(b).Has(Val(e.id)) && (Holds(b.entries, e) || |b.entries| < K || !NoneBad(b.entries, now))
    }

    constructor (ourId: Key)
      ensures Valid() && buckets == [] && this.ourId == ourId
    {
      this.ourId, buckets := ourId, [];
    }

    method FindBucket(id: Key) returns (i: nat)
      requires Valid()
      ensures i <= |buckets|
      ensures i < |buckets| ==> RangeOf(buckets[i]).Has(Val(id))
      ensures i == |buckets| && buckets != [] ==> Val(id) > MAX_VALUE
      ensures forall j :: 0 <= j < |buckets| && RangeOf(buckets[j]).Has(Val(id)) ==> j == i
    {
      hide Val, Memcmp, Sound, Power;
      i := 0;
      while i < |buckets|
        invariant i <= |buckets|
        invariant forall j :: 0 <= j < i ==> !RangeOf(buckets[j]).Has(Val(id))
      {
        buckets[i].RangeIsNumeric(id);
        if buckets[i].KeyInRange(id) {
          TilesPartition(Ranges(buckets), 0, MAX_VALUE, Val(id));
          assert forall j :: 0 <= j < |buckets| ==> Ranges(buckets)[j] == RangeOf(buckets[j]);
          return;
        }
        i := i + 1;
      }
      if buckets != [] {
        TilesPartition(Ranges(buckets), 0, MAX_VALUE, Val(id));
        WholeNumber(id);
        assert forall j :: 0 <= j < |buckets| ==> Ranges(buckets)[j] == RangeOf(buckets[j]);
      }
    }

    /** Makes a known node the most recent one, gives it a free place or the place of a bad
        node, splits our own bucket to make room, or lets it wait for a ping. */
    method Insert(e: KBucketEntry, call: nat, now: nat) returns (ghost dropped: Option<KBucketEntry>)
      requires Valid()
      modifies this, buckets
      ensures Valid()
      ensures Known() <= old(Known()) + {Ident(e)}
      ensures dropped.None? ==> old(Known()) <= Known()
      ensures dropped.Some? ==> old(Has(dropped.value)) && dropped.value.IsBad(now) && old(Known()) <= Known() + {Ident(dropped.value)}
      ensures |buckets| == (if old(buckets) == [] then 1 else |old(buckets)|) +
        if old(exists i :: 0 <= i < |buckets| && NeedsSplit(buckets[i], e, now)) then 1 else 0
      ensures old(NoDuplicates()) ==> NoDuplicates()
      ensures old(buckets) != [] && Val(e.id) > MAX_VALUE ==> buckets == old(buckets) && Known() == old(Known())
      ensures Val(e.id) > MAX_VALUE || Settled(e)
      // stored just as it was given, if there is a place for it
      ensures old((buckets == [] && Val(e.id) <= MAX_VALUE) || exists i :: 0 <= i < |buckets| && HasPlace(buckets[i], e, now)) ==> Newest(e)
    {
      hide Val, Sound, Idents, First, Tiles, HomeIsNarrow, Ids, Distinct, Ranges, Unique, Holds;
      ghost var known := Known();
      if buckets == [] {
        assert Lists() == [];
        NothingKnown();
        AddFirstBucket(now);
      }
      var i := FindBucket(e.id);
      if i == |buckets| {
        return None;
      }
      var split: bool;
      split, dropped := InsertAt(i, e, call, now);
      if split {
        SplitBucket(i, e, call, now);
      }
    }

    /** Inserts into one bucket. */
    method InsertAt(i: nat, e: KBucketEntry, call: nat, now: nat) returns (split: bool, ghost dropped: Option<KBucketEntry>)
      requires Valid() && i < |buckets| && RangeOf(buckets[i]).Has(Val(e.id))
      modifies buckets[i]
      ensures Valid()
      ensures Known() <= old(Known()) + {Ident(e)}
      ensures dropped.None? ==> old(Known()) <= Known()
      ensures dropped.Some? ==> dropped.value in old(buckets[i].entries) && dropped.value.IsBad(now)
      ensures dropped.Some? ==> old(Known()) <= Known() + {Ident(dropped.value)}
      ensures split <==> old(NeedsSplit(buckets[i], e, now))
      ensures old(NoDuplicates()) ==> NoDuplicates()
      ensures split ==> dropped.None?
      ensures split ==> NoneBad(buckets[i].entries, now) && Known() == old(Known())
      ensures split || Settled(e)
      ensures old(HasPlace(buckets[i], e, now)) ==> Newest(e)
    {
      hide Val, Sound, Idents, First, Tiles, HomeIsNarrow, Ids, Ranges, KBuckets.PingQuestionable, Unique, Holds, Store, Victim, IsNewest;
      ghost var b, lists := buckets[i].Value(), Lists();
      StoreFails(b, e, now, Val(buckets[i].minKey), Val(buckets[i].maxKey));
      split := buckets[i].Insert(e, call, now);
      ghost var es := buckets[i].entries;
      assert Lists() == lists[i := es];
      dropped := None;
      StoreIfThereIsAPlace(b.entries, e, now);
      if Store(b.entries, e, now).Some? {
        StoreFacts(b.entries, e, now);
        dropped := Victim(b.entries, e, now);
        IdsUpdate(lists, i, es, {Ident(e)}, IdentOf(dropped));
      } else {
        PingKeepsIdents(b, e, call, now);
        PingUnique(b, e, call, now);
        PingKeepsLength(b, e, call, now);
        assert split || FullFor(buckets[i], e);
        IdsUpdate(lists, i, es, {}, {});
      }
    }

    /** The whole interval in one bucket. */
    method AddFirstBucket(now: nat)
      requires Valid() && buckets == []
      modifies this
      ensures Valid() && |buckets| == 1 && fresh(buckets[0]) && buckets[0].entries == [] && Known() == {} && NoDuplicates()
    {
      hide Val, Sound, Power;
      ExtremeKeys();
      var b := new KBucket(KEY_MIN, KEY_MAX, ourId, now);
      buckets := [b];
      assert Lists() == [b.entries] && [b.entries][1..] == [];
      assert Ids([b.entries]) == Idents(b.entries) + Ids([]);
      FirstRange(Val(ourId));
      assert Ranges(buckets) == [KeyRange(0, MAX_VALUE)];
    }

    /** A node can be in one bucket only, and without duplicates at one position only. */
    lemma OnePlacePerNode(i: nat, x: nat, j: nat, y: nat)
      requires Valid() && i < |buckets| && x < |buckets[i].entries| && j < |buckets| && y < |buckets[j].entries|
      requires buckets[i].entries[x].Same(buckets[j].entries[y])
      ensures i == j && (NoDuplicates() ==> x == y)
    {
      hide Val, Tiles, HomeIsNarrow, Power;
      var id := buckets[i].entries[x].id;
      EntryInRange(buckets[i].Value(), x, Val(buckets[i].minKey), Val(buckets[i].maxKey));
      EntryInRange(buckets[j].Value(), y, Val(buckets[j].minKey), Val(buckets[j].maxKey));
      TilesPartition(Ranges(buckets), 0, MAX_VALUE, Val(id));
      assert Ranges(buckets)[i] == RangeOf(buckets[i]) && Ranges(buckets)[j] == RangeOf(buckets[j]);
      if NoDuplicates() {
        assert Unique(buckets[i].entries);
      }
    }

    /** Replaces our own bucket, which is full, by its halves and offers the entry to one of them. */
    method SplitBucket(i: nat, e: KBucketEntry, call: nat, now: nat)
      requires Valid() && i < |buckets|
      requires RangeOf(buckets[i]).Has(Val(ourId)) && RangeOf(buckets[i]).Has(Val(e.id))
      requires RangeOf(buckets[i]).min + K < RangeOf(buckets[i]).max
      requires NoneBad(buckets[i].entries, now)
      modifies this
      ensures Valid()
      ensures old(Known()) <= Known() <= old(Known()) + {Ident(e)}
      ensures |buckets| == |old(buckets)| + 1 && Settled(e)
      ensures old(NoDuplicates()) ==> NoDuplicates()
    {
      hide Val, Sound, Idents, Tiles, HomeIsNarrow, Ids, Memcmp, Power, MAX_VALUE, SplitAt, Unique, Holds;
      var b := buckets[i];
      ghost var lists := Lists();
      var halves := b.Split(now);
      // never UnableToSplit
      var (left, right) := halves.value;
      left.RangeIsNumeric(e.id);
      ghost var l0, r0 := left.entries, right.entries;
      if left.KeyInRange(e.id) {
        OfferToChild(left, e, call, now);
      } else {
        OfferToChild(right, e, call, now);
      }
      Replace(i, left, right);
      IdsSplit(lists, i, left.entries, right.entries, {Ident(e)});
      assert buckets[i] == left && buckets[i + 1] == right;
    }

    /** The two halves take the place of the bucket. */
    method Replace(i: nat, left: KBucket, right: KBucket)
      requires Valid() && i < |buckets| && Halves(buckets[i], left, right)
      requires left != right && left !in buckets && right !in buckets && left.Valid() && right.Valid()
      requires RangeOf(buckets[i]).Has(Val(ourId)) && RangeOf(buckets[i]).min + K < RangeOf(buckets[i]).max
      modifies this
      ensures Valid() && |buckets| == |old(buckets)| + 1
      ensures buckets == old(buckets)[..i] + [left, right] + old(buckets)[i + 1..]
      ensures Lists() == old(Lists())[..i] + [left.entries, right.entries] + old(Lists())[i + 1..]
    {
      hide Val, Tiles, HomeIsNarrow, Sound;
      SplitRanges(this, i, left, right);
      ghost var bs := buckets;
      buckets := buckets[..i] + [left, right] + buckets[i + 1..];
      forall j | 0 <= j < |buckets| ensures buckets[j] == left || buckets[j] == right || buckets[j] in bs {}
    }

    /** A ping sent for some bucket was answered, or timed out. Then at most the silent entry and
        one bad entry give way to candidates. */
    method PingOver(i: nat, c: Call, answered: bool, call: nat, now: nat)
      returns (ghost silent: Option<KBucketEntry>, ghost bad: Option<KBucketEntry>)
      requires Valid() && i < |buckets|
      modifies buckets[i]
      ensures Valid()
      ensures buckets[i].Value() ==
        if answered then KBuckets.OnResponse(old(buckets[i].Value()), c, call, now)
        else KBuckets.OnTimeout(old(buckets[i].Value()), c, call, now)
      ensures old(Unique(buckets[i].entries)) ==>
        (Unique(buckets[i].entries) <==>
           !if answered then ResponseDuplicates(old(buckets[i].Value()), c, now)
            else TimeoutDuplicates(old(buckets[i].Value()), c, now))
      ensures silent.Some? ==> !answered && silent.value in old(buckets[i].entries) && silent.value.addr == c.dest
      ensures bad.Some? ==> bad.value in old(buckets[i].entries) && bad.value.IsBad(now)
      ensures old(Known()) <= Known() + IdentOf(silent) + IdentOf(bad)
      ensures Known() <= old(Known()) + Candidates(old(buckets[i].Value()))
    {
      hide Val, Tiles, HomeIsNarrow, Sound, KBuckets.OnResponse, KBuckets.OnTimeout, Ids, Idents, Candidates, Unique, ResponseDuplicates, TimeoutDuplicates;
      ghost var b, lists := buckets[i].Value(), Lists();
      silent, bad := None, None;
      if answered {
        buckets[i].OnResponse(c, call, now);
        bad := ResponseLosesOnlyTheBad(b, c, call, now);
        if Unique(b.entries) {
          ResponseUnique(b, c, call, now);
        }
      } else {
        buckets[i].OnTimeout(c, call, now);
        silent, bad := TimeoutLosesTwo(b, c, call, now);
        if Unique(b.entries) {
          TimeoutUnique(b, c, call, now);
        }
      }
      assert Lists() == lists[i := buckets[i].entries];
      IdsUpdate(lists, i, buckets[i].entries, Candidates(b), IdentOf(silent) + IdentOf(bad));
    }

    /** Some request to `addr` was not answered: the first bucket that knows it takes note. */
    method OnTimeout(addr: Address) returns (ghost at: nat)
      requires Valid()
      modifies buckets
      ensures Valid() && Known() == old(Known())
      ensures old(NoDuplicates()) ==> NoDuplicates()
      ensures at <= |buckets|
      ensures forall i :: 0 <= i < |buckets| && i != at ==> buckets[i].entries == old(buckets[i].entries)
      ensures forall i :: 0 <= i < at ==> !Knows(buckets[i].entries, addr)
      ensures at < |buckets| ==>
        Knows(old(buckets[at].entries), addr) && buckets[at].entries == OnRequestTimeout(old(buckets[at].entries), addr)
    {
      hide KBucketTable.Valid, KBucketTable.Known, KBucketTable.NoDuplicates, Knows, OnRequestTimeout;
      assert forall i, j :: 0 <= i < j < |buckets| ==> buckets[i] != buckets[j] by { Different(); }
      for i := 0 to |buckets|
        invariant Valid() && Known() == old(Known()) && (old(NoDuplicates()) ==> NoDuplicates())
        invariant forall j :: 0 <= j < |buckets| ==> buckets[j].entries == old(buckets[j].entries)
        invariant forall j :: 0 <= j < i ==> !Knows(buckets[j].entries, addr)
      {
        var found := NoteFailure(i, addr);
        if found {
          return i;
        }
      }
      return |buckets|;
    }

    lemma Different()
      requires Valid()
      ensures forall i, j :: 0 <= i < j < |buckets| ==> buckets[i] != buckets[j]
    {
    }

    /** The same for one bucket. */
    method NoteFailure(i: nat, addr: Address) returns (found: bool)
      requires Valid() && i < |buckets|
      modifies {buckets[i]}`entries
      ensures Valid() && Known() == old(Known()) && (old(NoDuplicates()) ==> NoDuplicates())
      ensures found <==> old(Knows(buckets[i].entries, addr))
      ensures buckets[i].entries == if found then OnRequestTimeout(old(buckets[i].entries), addr) else old(buckets[i].entries)
    {
      hide Val, Tiles, HomeIsNarrow, Sound, Idents, First, Ids, Unique, OnRequestTimeout;
      ghost var lists := Lists();
      assert lists[i] == buckets[i].entries;
      found := buckets[i].RequestTimedOut(addr);
      assert Lists() == lists[i := buckets[i].entries];
      if found {
        FailureNoted(lists, i, addr);
      } else {
        assert Lists() == lists;
      }
    }
  }

  lemma FailureNoted(lists: seq<seq<KBucketEntry>>, i: nat, addr: Address)
    requires i < |lists| && Knows(lists[i], addr)
    ensures Ids(lists[i := OnRequestTimeout(lists[i], addr)]) == Ids(lists)
    ensures Unique(lists[i]) ==> Unique(OnRequestTimeout(lists[i], addr))
  {
    hide First, Idents, Ids, Unique;
    var es, j := lists[i], FirstAt(lists[i], addr);
    var e := es[j].(failedQueries := es[j].failedQueries + 1);
    CountingKeepsIdents(es, j, e);
    if Unique(es) {
      CountingKeepsUnique(es, j, e);
    }
    IdsUpdate(lists, i, es[j := e], {}, {});
  }

  predicate Knows(es: seq<KBucketEntry>, addr: Address) { FirstAt(es, addr) < |es| }

  /** The entry is offered to a half without bad entries; if that half is full as well, the
      answer is ignored. */
  method OfferToChild(child: KBucket, e: KBucketEntry, call: nat, now: nat)
    requires child.Valid() && InRange(e.id, Val(child.minKey), Val(child.maxKey)) && NoneBad(child.entries, now)
    modifies child
    ensures child.Valid()
    ensures Idents(old(child.entries)) <= Idents(child.entries) <= Idents(old(child.entries)) + {Ident(e)}
    ensures IsNewest(child.entries, e) || FullFor(child, e)
    ensures old(Unique(child.entries)) ==> Unique(child.entries)
  {
    hide Val, Sound, Idents, First, KBuckets.PingQuestionable, Unique;
    ghost var b := child.Value();
    var _ := child.Insert(e, call, now);
    PingUnique(b, e, call, now);
    if Store(b.entries, e, now).Some? {
      StoreAppends(b.entries, e, now);
      StoreLosesOnlyTheBad(b.entries, e, now);
      if Unique(b.entries) {
        StoreKeepsUnique(b.entries, e, now);
      }
    } else {
      StoreFails(b, e, now, Val(child.minKey), Val(child.maxKey));
      PingKeepsIdents(b, e, call, now);
      PingKeepsLength(b, e, call, now);
    }
  }

  /** The ranges after a split, and everything that holds of them. */
  lemma SplitRanges(t: KBucketTable, i: nat, left: KBucket, right: KBucket)
    requires t.Valid() && i < |t.buckets| && Halves(t.buckets[i], left, right)
    requires RangeOf(t.buckets[i]).Has(Val(t.ourId)) && RangeOf(t.buckets[i]).min + K < RangeOf(t.buckets[i]).max
    ensures var bs := t.buckets[..i] + [left, right] + t.buckets[i + 1..];
            && Tiles(Ranges(bs), 0, MAX_VALUE) && HomeIsNarrow(Ranges(bs), Val(t.ourId))
            && |bs| <= 157 && Val(t.ourId) <= MAX_VALUE
  {
    hide Val, Tiles, HomeIsNarrow, Sound, Power;
    var rs, ours := Ranges(t.buckets), Val(t.ourId);
    var bs := t.buckets[..i] + [left, right] + t.buckets[i + 1..];
    assert Ranges(bs) == SplitAt(rs, i);
    SplitTiles(rs, 0, MAX_VALUE, i);
    SplitKeepsNarrow(rs, 0, MAX_VALUE, i, ours);
    NarrowHome(rs, i, ours);
    TilesPartition(rs, 0, MAX_VALUE, ours);
    FewSplits(rs[i].max - rs[i].min, |rs| - 1);
  }

  lemma NarrowHome(rs: seq<KeyRange>, i: nat, ours: int)
    requires HomeIsNarrow(rs, ours) && i < |rs| && rs[i].Has(ours)
    ensures (rs[i].max - rs[i].min) * Power(2, |rs| - 1) <= MAX_VALUE
  {
  }

  /** The nodes in a list of entry lists. */
  function Ids(lists: seq<seq<KBucketEntry>>): set<(Address, Key)>
  {
    if lists == [] then {} else Idents(lists[0]) + Ids(lists[1..])
  }

  lemma NothingKnown()
    ensures Ids([]) == {}
  {
  }

  lemma {:induction false} IdsConcat(a: seq<seq<KBucketEntry>>, b: seq<seq<KBucketEntry>>)
    ensures Ids(a + b) == Ids(a) + Ids(b)
    decreases |a|
  {
    hide Idents;
    if a == [] {
      assert a + b == b;
    } else {
      assert (a + b)[1..] == a[1..] + b;
      IdsConcat(a[1..], b);
    }
  }

  lemma IdsAround(lists: seq<seq<KBucketEntry>>, i: nat, mid: seq<seq<KBucketEntry>>)
    requires i < |lists|
    ensures Ids(lists) == Ids(lists[..i]) + Idents(lists[i]) + Ids(lists[i + 1..])
    ensures Ids(lists[..i] + mid + lists[i + 1..]) == Ids(lists[..i]) + Ids(mid) + Ids(lists[i + 1..])
  {
    hide Idents;
    assert lists == lists[..i] + ([lists[i]] + lists[i + 1..]);
    IdsConcat(lists[..i], [lists[i]] + lists[i + 1..]);
    assert ([lists[i]] + lists[i + 1..])[1..] == lists[i + 1..];
    IdsConcat(lists[..i], mid);
    IdsConcat(lists[..i] + mid, lists[i + 1..]);
  }

  /** Changing one list, up to what it gains and what it loses. */
  lemma IdsUpdate(lists: seq<seq<KBucketEntry>>, i: nat, es: seq<KBucketEntry>,
                  gained: set<(Address, Key)>, lost: set<(Address, Key)>)
    requires i < |lists|
    requires Idents(es) <= Idents(lists[i]) + gained && Idents(lists[i]) <= Idents(es) + lost
    ensures Ids(lists[i := es]) <= Ids(lists) + gained && Ids(lists) <= Ids(lists[i := es]) + lost
    ensures Idents(es) <= Ids(lists[i := es])
  {
    hide Idents;
    IdsAround(lists, i, [es]);
    assert lists[i := es] == lists[..i] + [es] + lists[i + 1..];
    assert [es][1..] == [] && Ids([es]) == Idents(es) + Ids([]);
  }

  lemma IdsSplit(lists: seq<seq<KBucketEntry>>, i: nat, l: seq<KBucketEntry>, r: seq<KBucketEntry>, gained: set<(Address, Key)>)
    requires i < |lists|
    requires Idents(lists[i]) <= Idents(l) + Idents(r) <= Idents(lists[i]) + gained
    ensures Ids(lists) <= Ids(lists[..i] + [l, r] + lists[i + 1..]) <= Ids(lists) + gained
    ensures Idents(l) + Idents(r) <= Ids(lists[..i] + [l, r] + lists[i + 1..])
  {
    hide Idents;
    IdsAround(lists, i, [l, r]);
    assert [l, r][1..] == [r] && [r][1..] == [];
    assert Ids([r]) == Idents(r) + Ids([]);
    assert Ids([l, r]) == Idents(l) + Ids([r]);
  }

  lemma FirstRange(ours: int)
    ensures Tiles([KeyRange(0, MAX_VALUE)], 0, MAX_VALUE) && HomeIsNarrow([KeyRange(0, MAX_VALUE)], ours)
  {
  }
}

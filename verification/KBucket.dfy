/** src/dht/kbucket.cpp: a bucket of the routing table. The functions say what each event does
    to the contents of a bucket; the class does it with the source's loops. */
module KBuckets {
  import opened Common
  import opened Keys
  import opened DhtEntries

  const K: nat := 20

  /** A ping that has been sent: which call it is, and to which address it went. */
  datatype Call = Call(id: nat, dest: Address)

  /** Live entries in order of last contact, candidates waiting for a place, and candidates
      for whose sake a questionable entry is being pinged. */
  datatype Contents = Contents(
    entries: seq<KBucketEntry>, pending: seq<KBucketEntry>, pinging: map<Call, KBucketEntry>)

  // ----- Finding entries

  /** The first position whose entry satisfies `p`, or the length of the list. */
  function First(es: seq<KBucketEntry>, p: KBucketEntry -> bool): (r: nat)
    ensures r <= |es|
    ensures r < |es| ==> p(es[r])
    ensures forall j :: 0 <= j < r ==> !p(es[j])
  {
    if es == [] || p(es[0]) then 0 else 1 + First(es[1..], p)
  }

  function FirstSame(es: seq<KBucketEntry>, e: KBucketEntry): nat { First(es, (x: KBucketEntry) => x.Same(e)) }

  function FirstBad(es: seq<KBucketEntry>, now: nat): nat { First(es, (x: KBucketEntry) => x.IsBad(now)) }

  function FirstQuestionable(es: seq<KBucketEntry>, now: nat): nat { First(es, (x: KBucketEntry) => x.IsQuestionable(now)) }

  function FirstAt(es: seq<KBucketEntry>, a: Address): nat { First(es, (x: KBucketEntry) => x.addr == a) }

  /** Erases position `i` and appends `e`. */
  function Swap(es: seq<KBucketEntry>, i: nat, e: KBucketEntry): seq<KBucketEntry>
    requires i < |es|
  {
    es[..i] + es[i + 1..] + [e]
  }

  // ----- What the events do

  /** replaceBadEntry. */
  function ReplaceBad(es: seq<KBucketEntry>, e: KBucketEntry, now: nat): Option<seq<KBucketEntry>>
  {
    var i := FirstBad(es, now);
    if i < |es| then Some(Swap(es, i, e)) else None
  }

  /** The ways in which `insert` finds room: refresh the same entry, append, or replace a bad one. */
  function Store(es: seq<KBucketEntry>, e: KBucketEntry, now: nat): Option<seq<KBucketEntry>>
  {
    var i := FirstSame(es, e);
    if i < |es| then Some(Swap(es, i, e))
    else if |es| < K then Some(es + [e])
    else ReplaceBad(es, e, now)
  }

  function Without(es: seq<KBucketEntry>, e: KBucketEntry): seq<KBucketEntry>
  {
    var i := FirstSame(es, e);
    if i < |es| then es[..i] + es[i + 1..] else es
  }

  /** The freshest candidate goes first; the stalest ones are dropped to keep at most K. */
  function Queue(pending: seq<KBucketEntry>, e: KBucketEntry): seq<KBucketEntry>
  {
    var rest := Without(pending, e);
    [e] + if |rest| >= K then rest[..K - 1] else rest
  }

  /** pingQuestionable, with `call` as the id of the ping it may send. */
  function PingQuestionable(b: Contents, e: KBucketEntry, call: nat, now: nat): Contents
  {
    if |b.pinging| >= 2 then b.(pending := Queue(b.pending, e))
    else
      var i := FirstQuestionable(b.entries, now);
      if i < |b.entries| then
        var x := b.entries[i];
        Contents(b.entries[i := x.(questionablePings := x.questionablePings + 1)], b.pending,
                 b.pinging[Call(call, x.addr) := e])
      else b
  }

  function ReplaceOrPing(b: Contents, e: KBucketEntry, call: nat, now: nat): Contents
  {
    var r := ReplaceBad(b.entries, e, now);
    if r.Some? then b.(entries := r.value) else PingQuestionable(b, e, call, now)
  }

  function OnResponse(b: Contents, c: Call, call: nat, now: nat): Contents
  {
    if c !in b.pinging then b
    else ReplaceOrPing(b.(pinging := b.pinging - {c}), b.pinging[c], call, now)
  }

  /** The entry whose ping timed out gives way to the candidate. */
  function PingFailed(b: Contents, c: Call): Contents
    requires c in b.pinging
  {
    var i := FirstAt(b.entries, c.dest);
    var entries := if i < |b.entries| then Swap(b.entries, i, b.pinging[c]) else b.entries;
    Contents(entries, b.pending, b.pinging - {c})
  }

  function OnTimeout(b: Contents, c: Call, call: nat, now: nat): Contents
  {
    if c !in b.pinging then b
    else
      var b' := PingFailed(b, c);
      if |b'.pinging| < 2 && |b'.pending| > 0
      then ReplaceOrPing(b'.(pending := b'.pending[1..]), b'.pending[0], call, now)
      else b'
  }

  /** A request to `addr` went unanswered. */
  function OnRequestTimeout(es: seq<KBucketEntry>, addr: Address): seq<KBucketEntry>
  {
    var i := FirstAt(es, addr);
    if i < |es| then es[i := es[i].(failedQueries := es[i].failedQueries + 1)] else es
  }

  // ----- What they keep

  predicate InRange(id: Key, min: int, max: int) { min <= Val(id) <= max }

  predicate AllInRange(es: seq<KBucketEntry>, min: int, max: int)
  {
    forall i :: 0 <= i < |es| ==> InRange(es[i].id, min, max)
  }

  /** At most K entries, K candidates and two pings, all with ids that belong here. */
  predicate Sound(b: Contents, min: int, max: int)
  {
    && |b.entries| <= K && |b.pending| <= K && |b.pinging| <= 2
    && AllInRange(b.entries, min, max)
    && AllInRange(b.pending, min, max)
    && forall c :: c in b.pinging ==> InRange(b.pinging[c].id, min, max)
  }

  lemma StoreSound(b: Contents, e: KBucketEntry, now: nat, min: int, max: int)
    requires Sound(b, min, max) && InRange(e.id, min, max)
    ensures Store(b.entries, e, now).Some? ==> Sound(b.(entries := Store(b.entries, e, now).value), min, max)
    ensures ReplaceBad(b.entries, e, now).Some? ==> Sound(b.(entries := ReplaceBad(b.entries, e, now).value), min, max)
  {
    hide First, InRange;
  }

  lemma PingSound(b: Contents, e: KBucketEntry, call: nat, now: nat, min: int, max: int)
    requires Sound(b, min, max) && InRange(e.id, min, max)
    ensures Sound(PingQuestionable(b, e, call, now), min, max)
  {
    hide First, Val;
  }

  /** The state between taking note of an answer or a timeout and looking for the next candidate. */
  lemma PingOverSound(b: Contents, c: Call, min: int, max: int)
    requires Sound(b, min, max) && c in b.pinging
    ensures InRange(b.pinging[c].id, min, max)
    ensures Sound(b.(pinging := b.pinging - {c}), min, max)
    ensures var b' := PingFailed(b, c);
            && Sound(b', min, max)
            && (|b'.pending| > 0 ==> InRange(b'.pending[0].id, min, max) && Sound(b'.(pending := b'.pending[1..]), min, max))
  {
    hide First, InRange;
    FewerKeys(b.pinging, c);
  }

  lemma FewerKeys(m: map<Call, KBucketEntry>, c: Call)
    requires c in m
    ensures |m - {c}| == |m| - 1
  {
    assert (m - {c}).Keys == m.Keys - {c};
  }

  lemma RequestTimeoutSound(b: Contents, addr: Address, min: int, max: int)
    requires Sound(b, min, max)
    ensures Sound(b.(entries := OnRequestTimeout(b.entries, addr)), min, max)
  {
    hide First;
  }

  // ----- Which nodes a bucket knows

  function Idents(es: seq<KBucketEntry>): set<(Address, Key)>
  {
    set i | 0 <= i < |es| :: (es[i].addr, es[i].id)
  }

  function Ident(e: KBucketEntry): (Address, Key) { (e.addr, e.id) }

  lemma IdentsConcat(a: seq<KBucketEntry>, b: seq<KBucketEntry>)
    ensures Idents(a + b) == Idents(a) + Idents(b)
  {
    forall i | 0 <= i < |a| ensures (a + b)[i] == a[i] {}
    forall i | 0 <= i < |b| ensures (a + b)[|a| + i] == b[i] {}
  }

  lemma IdentsSwap(es: seq<KBucketEntry>, i: nat, e: KBucketEntry)
    requires i < |es|
    ensures Idents(es) <= Idents(Swap(es, i, e)) + {Ident(es[i])}
    ensures Idents(Swap(es, i, e)) <= Idents(es) + {Ident(e)}
    ensures Ident(e) in Idents(Swap(es, i, e))
  {
    hide Idents;
    assert es == es[..i] + ([es[i]] + es[i + 1..]);
    IdentsConcat(es[..i], [es[i]] + es[i + 1..]);
    IdentsConcat([es[i]], es[i + 1..]);
    IdentsConcat(es[..i], es[i + 1..]);
    IdentsConcat(es[..i] + es[i + 1..], [e]);
    IdentsOne(es[i]);
    IdentsOne(e);
  }

  lemma IdentsOne(e: KBucketEntry)
    ensures Idents([e]) == {Ident(e)}
  {
    assert [e][0] == e;
  }

  /** The entry that `insert` throws out, if it throws one out. */
  function Victim(es: seq<KBucketEntry>, e: KBucketEntry, now: nat): Option<KBucketEntry>
  {
    var i := FirstBad(es, now);
    if FirstSame(es, e) == |es| && |es| >= K && i < |es| then Some(es[i]) else None
  }

  /** Storing an entry adds it and loses at most one old entry, which was bad. */
  lemma StoreLosesOnlyTheBad(es: seq<KBucketEntry>, e: KBucketEntry, now: nat)
    requires Store(es, e, now).Some?
    ensures var r, v := Store(es, e, now).value, Victim(es, e, now);
            && Ident(e) in Idents(r)
            && Idents(r) <= Idents(es) + {Ident(e)}
            && (v.None? ==> Idents(es) <= Idents(r))
            && (v.Some? ==> v.value in es && v.value.IsBad(now) && Idents(es) <= Idents(r) + {Ident(v.value)})
  {
    hide First, Idents;
    var i := FirstSame(es, e);
    if i < |es| {
      IdentsSwap(es, i, e);
    } else if |es| < K {
      IdentsConcat(es, [e]);
      IdentsOne(e);
    } else {
      IdentsSwap(es, FirstBad(es, now), e);
    }
  }

  /** Counting a ping or a failed query does not change who is known. */
  lemma CountingKeepsIdents(es: seq<KBucketEntry>, i: nat, e: KBucketEntry)
    requires i < |es| && e.Same(es[i])
    ensures Idents(es[i := e]) == Idents(es)
  {
    var es' := es[i := e];
    forall j | 0 <= j < |es| ensures Ident(es'[j]) == Ident(es[j]) {}
    forall x | x in Idents(es) ensures x in Idents(es') {
      var j :| 0 <= j < |es| && (es[j].addr, es[j].id) == x;
      assert Ident(es'[j]) == x;
    }
  }

  lemma PingKeepsIdents(b: Contents, e: KBucketEntry, call: nat, now: nat)
    ensures Idents(PingQuestionable(b, e, call, now).entries) == Idents(b.entries)
  {
    hide First, Idents;
    var i := FirstQuestionable(b.entries, now);
    if |b.pinging| < 2 && i < |b.entries| {
      var x := b.entries[i];
      CountingKeepsIdents(b.entries, i, x.(questionablePings := x.questionablePings + 1));
    }
  }

  // ----- What the end of a ping does to them

  /** Nodes waiting for a place. */
  function Candidates(b: Contents): set<(Address, Key)>
  {
    Idents(b.pending) + set c | c in b.pinging :: Ident(b.pinging[c])
  }

  function IdentOf(e: Option<KBucketEntry>): set<(Address, Key)> { if e.Some? then {Ident(e.value)} else {} }

  /** The entry that a candidate replaces at once, if there is one. */
  function BadEntry(es: seq<KBucketEntry>, now: nat): Option<KBucketEntry>
  {
    var i := FirstBad(es, now);
    if i < |es| then Some(es[i]) else None
  }

  lemma ReplaceOrPingLoses(b: Contents, e: KBucketEntry, call: nat, now: nat)
    ensures var es, v := ReplaceOrPing(b, e, call, now).entries, BadEntry(b.entries, now);
            && (v.Some? ==> v.value in b.entries && v.value.IsBad(now))
            && Idents(b.entries) <= Idents(es) + IdentOf(v)
            && Idents(es) <= Idents(b.entries) + {Ident(e)}
  {
    hide First, Idents, PingQuestionable;
    var i := FirstBad(b.entries, now);
    if i < |b.entries| {
      IdentsSwap(b.entries, i, e);
    } else {
      PingKeepsIdents(b, e, call, now);
    }
  }

  /** An answered ping loses at most one node, which was bad; only the candidate can be gained. */
  lemma ResponseLosesOnlyTheBad(b: Contents, c: Call, call: nat, now: nat) returns (bad: Option<KBucketEntry>)
    ensures bad.Some? ==> bad.value in b.entries && bad.value.IsBad(now)
    ensures var es := OnResponse(b, c, call, now).entries;
            Idents(b.entries) <= Idents(es) + IdentOf(bad) && Idents(es) <= Idents(b.entries) + Candidates(b)
  {
    hide Idents, ReplaceOrPing;
    bad := None;
    if c in b.pinging {
      ReplaceOrPingLoses(b.(pinging := b.pinging - {c}), b.pinging[c], call, now);
      bad := BadEntry(b.entries, now);
    }
  }

  /** A ping that was not answered loses at most the entry at its address and one bad entry. */
  lemma TimeoutLosesTwo(b: Contents, c: Call, call: nat, now: nat) returns (silent: Option<KBucketEntry>, bad: Option<KBucketEntry>)
    ensures silent.Some? ==> silent.value in b.entries && silent.value.addr == c.dest
    ensures bad.Some? ==> bad.value in b.entries && bad.value.IsBad(now)
    ensures var es := OnTimeout(b, c, call, now).entries;
            && Idents(b.entries) <= Idents(es) + IdentOf(silent) + IdentOf(bad)
            && Idents(es) <= Idents(b.entries) + Candidates(b)
  {
    hide Idents, ReplaceOrPing, First;
    silent, bad := None, None;
    if c in b.pinging {
      var i, es := FirstAt(b.entries, c.dest), b.entries;
      var b' := PingFailed(b, c);
      if i < |es| {
        silent := Some(es[i]);
        IdentsSwap(es, i, b.pinging[c]);
      }
      if |b'.pinging| < 2 && |b'.pending| > 0 {
        var e, b'' := b'.pending[0], b'.(pending := b'.pending[1..]);
        FirstIdent(b'.pending);
        ReplaceOrPingLoses(b'', e, call, now);
        bad := BadEntry(b'.entries, now);
        if bad.Some? && bad.value !in es {
          JustPlaced(b, c, call, now);
          bad := None;
        }
      }
    }
  }

  lemma FirstIdent(es: seq<KBucketEntry>)
    requires |es| > 0
    ensures Ident(es[0]) in Idents(es)
  {
  }

  /** If the bad entry is the candidate that was just placed, nothing but the silent entry is lost. */
  lemma JustPlaced(b: Contents, c: Call, call: nat, now: nat)
    requires c in b.pinging && |PingFailed(b, c).pinging| < 2 && |b.pending| > 0
    requires var v := BadEntry(PingFailed(b, c).entries, now); v.Some? && v.value !in b.entries
    ensures var i := FirstAt(b.entries, c.dest);
            && i < |b.entries|
            && Idents(b.entries) <= Idents(OnTimeout(b, c, call, now).entries) + {Ident(b.entries[i])}
  {
    hide Idents, First, PingQuestionable;
    var i, es, e := FirstAt(b.entries, c.dest), b.entries, b.pending[0];
    var es' := PingFailed(b, c).entries;
    var j := FirstBad(es', now);
    assert es'[j] !in es;
    if i < |es| {
      var rest := es[..i] + es[i + 1..];
      assert forall k :: 0 <= k < |rest| ==> es'[k] == rest[k] && rest[k] in es;
      assert j == |rest|;
      assert es'[..j] + es'[j + 1..] + [e] == rest + [e];
      IdentsSwap(es, i, e);
      assert Swap(es, i, e) == OnTimeout(b, c, call, now).entries;
    }
  }

  // ----- Whether an entry can be in a bucket twice

  ghost predicate Unique(es: seq<KBucketEntry>)
  {
    forall i, j :: 0 <= i < j < |es| ==> !es[i].Same(es[j])
  }

  /** The entry stands at a position other than `i`. */
  ghost predicate Elsewhere(es: seq<KBucketEntry>, i: nat, e: KBucketEntry)
  {
    exists k :: 0 <= k < |es| && k != i && es[k].Same(e)
  }

  /** Erasing one entry and appending another yields no duplicate exactly if there is none among
      the entries that stay, and the appended one is not among them. */
  lemma SwapUnique(es: seq<KBucketEntry>, i: nat, e: KBucketEntry)
    requires i < |es|
    ensures Unique(Swap(es, i, e)) <==> Unique(es[..i] + es[i + 1..]) && !Elsewhere(es, i, e)
    ensures Unique(es) ==> Unique(es[..i] + es[i + 1..])
  {
    var rest, r := es[..i] + es[i + 1..], Swap(es, i, e);
    assert r[..|rest|] == rest && r[|rest|] == e;
    assert forall k :: 0 <= k < |rest| ==> r[k] == rest[k];
    assert forall k :: 0 <= k < |rest| ==> rest[k] == es[if k < i then k else k + 1];
    forall k | 0 <= k < |es| && k != i ensures es[k] == rest[if k < i then k else k - 1] {}
  }

  /** Storing never creates a duplicate: an entry that is there already is moved. */
  lemma StoreKeepsUnique(es: seq<KBucketEntry>, e: KBucketEntry, now: nat)
    requires Unique(es) && Store(es, e, now).Some?
    ensures Unique(Store(es, e, now).value)
  {
    hide First;
    var i := FirstSame(es, e);
    if i < |es| {
      SwapUnique(es, i, e);
    } else if |es| >= K {
      SwapUnique(es, FirstBad(es, now), e);
    }
  }

  /** Replacing a bad entry does, exactly if the new entry stands elsewhere in the list. */
  lemma ReplaceBadUnique(es: seq<KBucketEntry>, e: KBucketEntry, now: nat)
    requires Unique(es) && ReplaceBad(es, e, now).Some?
    ensures Unique(ReplaceBad(es, e, now).value) <==> !Elsewhere(es, FirstBad(es, now), e)
  {
    hide First, Unique, Elsewhere;
    SwapUnique(es, FirstBad(es, now), e);
  }

  lemma CountingKeepsUnique(es: seq<KBucketEntry>, i: nat, e: KBucketEntry)
    requires i < |es| && e.Same(es[i]) && Unique(es)
    ensures Unique(es[i := e])
  {
  }

  /** Neither counting failed requests nor pinging creates a duplicate. */
  lemma CountersKeepUnique(b: Contents, addr: Address, e: KBucketEntry, call: nat, now: nat)
    requires Unique(b.entries)
    ensures Unique(OnRequestTimeout(b.entries, addr))
    ensures Unique(PingQuestionable(b, e, call, now).entries)
  {
    hide First, Unique;
    var i, j := FirstAt(b.entries, addr), FirstQuestionable(b.entries, now);
    if i < |b.entries| {
      CountingKeepsUnique(b.entries, i, b.entries[i].(failedQueries := b.entries[i].failedQueries + 1));
    }
    if j < |b.entries| {
      CountingKeepsUnique(b.entries, j, b.entries[j].(questionablePings := b.entries[j].questionablePings + 1));
    }
  }

  /** A bad entry would give way to the candidate, which stands elsewhere in the list already. */
  ghost predicate PlacedTwice(es: seq<KBucketEntry>, e: KBucketEntry, now: nat)
  {
    FirstBad(es, now) < |es| && Elsewhere(es, FirstBad(es, now), e)
  }

  ghost predicate ResponseDuplicates(b: Contents, c: Call, now: nat)
  {
    c in b.pinging && PlacedTwice(b.entries, b.pinging[c], now)
  }

  /** An answered ping puts its candidate in the bucket twice exactly if the candidate has been
      stored meanwhile and some other entry is the first bad one. */
  lemma ResponseUnique(b: Contents, c: Call, call: nat, now: nat)
    requires Unique(b.entries)
    ensures Unique(OnResponse(b, c, call, now).entries) <==> !ResponseDuplicates(b, c, now)
  {
    hide First, Unique, Elsewhere;
    if c in b.pinging {
      var e := b.pinging[c];
      if FirstBad(b.entries, now) < |b.entries| {
        ReplaceBadUnique(b.entries, e, now);
      } else {
        CountersKeepUnique(b.(pinging := b.pinging - {c}), 0, e, call, now);
      }
    }
  }

  /** After a ping that was not answered, the next waiting candidate takes the place of a bad entry. */
  ghost predicate NextIsPlaced(b: Contents, c: Call, now: nat)
    requires c in b.pinging
  {
    var b' := PingFailed(b, c);
    |b'.pinging| < 2 && |b.pending| > 0 && FirstBad(b'.entries, now) < |b'.entries|
  }

  /** The candidate is appended, but stands elsewhere; `gone` is the position of another entry
      that leaves the new list, if one does. */
  ghost predicate FirstIsTwice(es: seq<KBucketEntry>, i: nat, e: KBucketEntry, gone: nat)
  {
    && i < |es| && gone != |es| - 1
    && exists k :: 0 <= k < |es| - 1 && k != gone && Swap(es, i, e)[k].Same(e)
  }

  ghost predicate TimeoutDuplicates(b: Contents, c: Call, now: nat)
  {
    && c in b.pinging
    && var i, e, es := FirstAt(b.entries, c.dest), b.pinging[c], PingFailed(b, c).entries;
       if NextIsPlaced(b, c, now) then
         PlacedTwice(es, b.pending[0], now) || FirstIsTwice(b.entries, i, e, FirstBad(es, now))
       else i < |b.entries| && Elsewhere(b.entries, i, e)
  }

  /** The same for a ping that was not answered, which may place two candidates. */
  lemma TimeoutUnique(b: Contents, c: Call, call: nat, now: nat)
    requires Unique(b.entries)
    ensures Unique(OnTimeout(b, c, call, now).entries) <==> !TimeoutDuplicates(b, c, now)
  {
    hide First, Unique, Elsewhere, FirstIsTwice;
    if c in b.pinging {
      var i, e, es, b' := FirstAt(b.entries, c.dest), b.pinging[c], b.entries, PingFailed(b, c);
      if i < |es| {
        SwapUnique(es, i, e);
      }
      if NextIsPlaced(b, c, now) {
        var j := FirstBad(b'.entries, now);
        SwapUnique(b'.entries, j, b.pending[0]);
        TwoSwapsUnique(es, i, e, j);
      } else if |b'.pinging| < 2 && |b'.pending| > 0 {
        PingUnique(b'.(pending := b'.pending[1..]), b'.pending[0], call, now);
      }
    }
  }

  lemma PingUnique(b: Contents, e: KBucketEntry, call: nat, now: nat)
    ensures Unique(PingQuestionable(b, e, call, now).entries) <==> Unique(b.entries)
  {
    hide First;
    var i := FirstQuestionable(b.entries, now);
    if |b.pinging| < 2 && i < |b.entries| {
      var es' := PingQuestionable(b, e, call, now).entries;
      assert forall k :: 0 <= k < |es'| ==> es'[k].Same(b.entries[k]);
      assert |es'| == |b.entries|;
    }
  }

  /** What is left when a second entry leaves the list. */
  lemma TwoSwapsUnique(es: seq<KBucketEntry>, i: nat, e: KBucketEntry, j: nat)
    requires Unique(es) && i <= |es| && j < |es|
    ensures var es' := if i < |es| then Swap(es, i, e) else es;
            Unique(es'[..j] + es'[j + 1..]) <==> !FirstIsTwice(es, i, e, j)
  {
    hide Elsewhere;
    if i < |es| {
      SwapUnique(es, i, e);
      var es', n := Swap(es, i, e), |es| - 1;
      var old' := es[..i] + es[i + 1..];
      assert es'[..n] == old' && es'[n] == e;
      if j == n {
        assert es'[..j] + es'[j + 1..] == old';
      } else {
        var rest := old'[..j] + old'[j + 1..];
        SwapUnique(old', j, e);
        assert es'[..j] + es'[j + 1..] == Swap(old', j, e);
        assert Elsewhere(old', j, e) <==> FirstIsTwice(es, i, e, j) by { SamePlaces(es, i, e, j); }
      }
    } else {
      SwapUnique(es, j, e);
    }
  }

  lemma SamePlaces(es: seq<KBucketEntry>, i: nat, e: KBucketEntry, j: nat)
    requires i < |es| && j < |es| - 1
    ensures Elsewhere(es[..i] + es[i + 1..], j, e) <==> FirstIsTwice(es, i, e, j)
  {
    var rest := es[..i] + es[i + 1..];
    assert forall k :: 0 <= k < |rest| ==> Swap(es, i, e)[k] == rest[k];
  }

  /** A full list with two bad entries and a waiting candidate: the candidate is stored, and then
      the ping that was sent for its sake is answered. */
  lemma StoredThenAnswered(b: Contents, c: Call, call: nat, now: nat, j: nat, k: nat)
    requires Unique(b.entries) && |b.entries| >= K && c in b.pinging
    requires forall i :: 0 <= i < |b.entries| ==> !b.entries[i].Same(b.pinging[c])
    requires j < k < |b.entries| && b.entries[j].IsBad(now) && b.entries[k].IsBad(now)
    ensures var r := Store(b.entries, b.pinging[c], now);
            r.Some? && Unique(r.value) && !Unique(OnResponse(b.(entries := r.value), c, call, now).entries)
  {
    hide First, Unique;
    var es, e := b.entries, b.pinging[c];
    StoreKeepsUnique(es, e, now);
    var i, r, n := FirstBad(es, now), Store(es, e, now).value, |es| - 1;
    assert r == Swap(es, i, e) && r[n] == e;
    assert r[k - 1] == es[k];
    assert FirstBad(r, now) < n;
    assert Elsewhere(r, FirstBad(r, now), e);
    ResponseUnique(b.(entries := r), c, call, now);
  }

  /** A run that ends like that. The bucket holds twenty entries; a new entry has to wait for a
      ping, then requests to two other entries fail, the new entry is seen again and stored, and
      the ping is answered. */
  function Twenty(): (es: seq<KBucketEntry>)
    ensures |es| == K && forall i :: 0 <= i < K ==> es[i] == KBucketEntry(i, [0, 0, 0, 0, 1], 0, 0, 0)
  {
    seq(K, i requires 0 <= i < K => KBucketEntry(i, [0, 0, 0, 0, 1], 0, 0, 0))
  }

  function FailedThrice(es: seq<KBucketEntry>, addr: Address): seq<KBucketEntry>
  {
    OnRequestTimeout(OnRequestTimeout(OnRequestTimeout(es, addr), addr), addr)
  }

  lemma FailedOnce(es: seq<KBucketEntry>, a: nat)
    requires a < |es| && forall i :: 0 <= i <= a ==> es[i].addr == i
    ensures OnRequestTimeout(es, a) == es[a := es[a].(failedQueries := es[a].failedQueries + 1)]
  {
    hide First;
    assert FirstAt(es, a) == a;
  }

  lemma FailedThriceIs(es: seq<KBucketEntry>, a: nat)
    requires a < |es| && forall i :: 0 <= i <= a ==> es[i].addr == i
    ensures FailedThrice(es, a) == es[a := es[a].(failedQueries := es[a].failedQueries + 3)]
  {
    hide First, OnRequestTimeout;
    FailedOnce(es, a);
    var es1 := OnRequestTimeout(es, a);
    FailedOnce(es1, a);
    var es2 := OnRequestTimeout(es1, a);
    FailedOnce(es2, a);
  }

  lemma DuplicateRun(call: nat)
    ensures var b, e, now := Contents(Twenty(), [], map[]), KBucketEntry(K, [0, 0, 0, 0, 1], 0, 0, 0), QUESTIONABLE_AFTER + 1;
            && Unique(b.entries) && Store(b.entries, e, now).None?
            && var b1 := PingQuestionable(b, e, call, now);
               var b2 := b1.(entries := FailedThrice(FailedThrice(b1.entries, 1), 2));
               var r := Store(b2.entries, e, now);
               && r.Some? && Unique(r.value)
               && !Unique(OnResponse(b2.(entries := r.value), Call(call, 0), call, now).entries)
  {
    hide First, FailedThrice, Store, OnResponse, Twenty, Unique;
    var b, e, now := Contents(Twenty(), [], map[]), KBucketEntry(K, [0, 0, 0, 0, 1], 0, 0, 0), QUESTIONABLE_AFTER + 1;
    NobodyIsBad(b.entries, e, now);
    var b1 := PingQuestionable(b, e, call, now);
    assert b1.pinging == map[Call(call, 0) := e] by {
      assert b.entries[0].IsQuestionable(now);
      assert FirstQuestionable(b.entries, now) == 0;
    }
    FailedThriceIs(b1.entries, 1);
    var es2 := FailedThrice(b1.entries, 1);
    FailedThriceIs(es2, 2);
    var b2 := b1.(entries := FailedThrice(es2, 2));
    DifferentAddresses(b2.entries);
    StoredThenAnswered(b2, Call(call, 0), call, now, 1, 2);
  }

  lemma DifferentAddresses(es: seq<KBucketEntry>)
    requires forall i :: 0 <= i < |es| ==> es[i].addr == i
    ensures Unique(es)
  {
  }

  lemma NobodyIsBad(es: seq<KBucketEntry>, e: KBucketEntry, now: nat)
    requires |es| == K && e.addr == K
    requires forall i :: 0 <= i < K ==> es[i].addr == i && es[i].failedQueries == 0 && es[i].questionablePings == 0
    ensures Unique(es) && Store(es, e, now).None?
  {
    hide First;
    assert FirstSame(es, e) == K;
  }

  // ----- What the events mean for single entries

  predicate Holds(es: seq<KBucketEntry>, e: KBucketEntry)
  {
    exists i :: 0 <= i < |es| && es[i].Same(e)
  }

  ghost predicate NoneBad(es: seq<KBucketEntry>, now: nat)
  {
    forall i :: 0 <= i < |es| ==> !es[i].IsBad(now)
  }

  ghost predicate NoneQuestionable(es: seq<KBucketEntry>, now: nat)
  {
    forall i :: 0 <= i < |es| ==> !es[i].IsQuestionable(now)
  }

  /** `e` is the most recent entry of the list. */
  predicate IsNewest(es: seq<KBucketEntry>, e: KBucketEntry) { |es| > 0 && es[|es| - 1] == e }

  /** Position `i` is taken out of `es`, `e` is appended, and the others keep their order. */
  ghost predicate Replaced(es: seq<KBucketEntry>, i: nat, e: KBucketEntry, r: seq<KBucketEntry>)
  {
    i < |es| && r == es[..i] + es[i + 1..] + [e]
  }

  /** A stored entry is the newest one, just as it was given. It replaces the first entry of the
      same node or else, in a full bucket, the first bad entry; all others stay, in their order. */
  lemma StoreAppends(es: seq<KBucketEntry>, e: KBucketEntry, now: nat)
    requires Store(es, e, now).Some?
    ensures var r := Store(es, e, now).value;
            && IsNewest(r, e)
            && (Holds(es, e) ==> exists i: nat :: Replaced(es, i, e, r) && es[i].Same(e) && forall j :: 0 <= j < i ==> !es[j].Same(e))
            && (!Holds(es, e) && |es| < K ==> r == es + [e])
            && (!Holds(es, e) && |es| >= K ==>
                  exists i: nat :: Replaced(es, i, e, r) && es[i].IsBad(now) && forall j :: 0 <= j < i ==> !es[j].IsBad(now))
  {
    hide First;
    var i, k := FirstSame(es, e), FirstBad(es, now);
    var r := Store(es, e, now).value;
    if i < |es| {
      assert Replaced(es, i, e, r);
    } else if |es| >= K {
      assert Replaced(es, k, e, r);
    }
  }

  /** An entry has a place if its node has one already, or there is room, or a bad entry. */
  lemma StoreIfThereIsAPlace(es: seq<KBucketEntry>, e: KBucketEntry, now: nat)
    ensures Store(es, e, now).Some? <==> Holds(es, e) || |es| < K || !NoneBad(es, now)
  {
    hide First;
  }

  /** Queueing puts the candidate first; the others keep their order without an older entry of its
      node, and the last ones are dropped if there are too many. */
  lemma QueueMeans(pending: seq<KBucketEntry>, e: KBucketEntry)
    ensures var r := Queue(pending, e);
            && r[0] == e && |r| <= K
            && exists rest: seq<KBucketEntry> :: Cut(pending, e, rest) && r[1..] <= rest && (|r| < K ==> r[1..] == rest)
  {
    hide First;
    var rest := Without(pending, e);
    assert Cut(pending, e, rest);
    var r := Queue(pending, e);
    assert r[1..] == if |rest| >= K then rest[..K - 1] else rest;
  }

  /** `rest` is `es` without its first entry for the node of `e`, if it has one. */
  ghost predicate Cut(es: seq<KBucketEntry>, e: KBucketEntry, rest: seq<KBucketEntry>)
  {
    if Holds(es, e)
    then exists i :: 0 <= i < |es| && es[i].Same(e) && (forall j :: 0 <= j < i ==> !es[j].Same(e)) && rest == es[..i] + es[i + 1..]
    else rest == es
  }

  /** Entry `i` is pinged for the sake of `e`. */
  ghost predicate Pinged(b: Contents, e: KBucketEntry, call: nat, i: nat, r: Contents)
  {
    && i < |b.entries|
    && r.entries == b.entries[i := b.entries[i].(questionablePings := b.entries[i].questionablePings + 1)]
    && r.pinging == b.pinging[Call(call, b.entries[i].addr) := e] && r.pending == b.pending
  }

  /** With two pings out the candidate is queued; otherwise the first questionable entry is pinged
      for it; and without one nothing happens. */
  lemma PingMeans(b: Contents, e: KBucketEntry, call: nat, now: nat)
    ensures var r := PingQuestionable(b, e, call, now);
            && (|b.pinging| >= 2 ==> r == b.(pending := Queue(b.pending, e)))
            && (|b.pinging| < 2 && NoneQuestionable(b.entries, now) ==> r == b)
            && (|b.pinging| < 2 && !NoneQuestionable(b.entries, now) ==>
                  exists i: nat :: Pinged(b, e, call, i, r) && b.entries[i].IsQuestionable(now)
                              && forall j :: 0 <= j < i ==> !b.entries[j].IsQuestionable(now))
  {
    hide First, Queue;
    var i := FirstQuestionable(b.entries, now);
    if |b.pinging| < 2 && i < |b.entries| {
      assert Pinged(b, e, call, i, PingQuestionable(b, e, call, now));
    }
  }

  /** A candidate takes the place of the first bad entry, or waits for a ping, or is queued; it is
      given up only if nobody is bad or questionable and no two pings are out. */
  ghost predicate IsTried(b: Contents, e: KBucketEntry, call: nat, now: nat, r: Contents)
  {
    if NoneBad(b.entries, now) then r == PingQuestionable(b, e, call, now)
    else
      && r.pending == b.pending && r.pinging == b.pinging
      && exists i: nat :: Replaced(b.entries, i, e, r.entries) && b.entries[i].IsBad(now) && forall j :: 0 <= j < i ==> !b.entries[j].IsBad(now)
  }

  lemma ReplaceOrPingTries(b: Contents, e: KBucketEntry, call: nat, now: nat)
    ensures IsTried(b, e, call, now, ReplaceOrPing(b, e, call, now))
  {
    hide First, PingQuestionable;
    var i := FirstBad(b.entries, now);
    if i < |b.entries| {
      assert Replaced(b.entries, i, e, ReplaceOrPing(b, e, call, now).entries);
    }
  }

  /** When a ping is answered it is over, and its candidate is tried on another entry. */
  lemma ResponseMeans(b: Contents, c: Call, call: nat, now: nat)
    ensures c !in b.pinging ==> OnResponse(b, c, call, now) == b
    ensures c in b.pinging ==> IsTried(b.(pinging := b.pinging - {c}), b.pinging[c], call, now, OnResponse(b, c, call, now))
  {
    hide ReplaceOrPing, IsTried;
    if c in b.pinging {
      ReplaceOrPingTries(b.(pinging := b.pinging - {c}), b.pinging[c], call, now);
    }
  }

  /** The candidate of a ping that was not answered replaces the first entry at its address. */
  ghost predicate GivesWay(b: Contents, c: Call, b': Contents)
    requires c in b.pinging
  {
    && b'.pending == b.pending && b'.pinging == b.pinging - {c}
    && if forall i :: 0 <= i < |b.entries| ==> b.entries[i].addr != c.dest then b'.entries == b.entries
       else exists i: nat :: Replaced(b.entries, i, b.pinging[c], b'.entries) && b.entries[i].addr == c.dest
                        && forall j :: 0 <= j < i ==> b.entries[j].addr != c.dest
  }

  /** Then the ping is over, and the first waiting candidate is tried, if fewer than two pings are out. */
  lemma TimeoutMeans(b: Contents, c: Call, call: nat, now: nat)
    ensures c !in b.pinging ==> OnTimeout(b, c, call, now) == b
    ensures c in b.pinging ==>
      exists b' :: GivesWay(b, c, b')
        && if |b'.pinging| < 2 && |b'.pending| > 0
           then IsTried(b'.(pending := b'.pending[1..]), b'.pending[0], call, now, OnTimeout(b, c, call, now))
           else OnTimeout(b, c, call, now) == b'
  {
    hide First, ReplaceOrPing, IsTried;
    if c in b.pinging {
      var i, b' := FirstAt(b.entries, c.dest), PingFailed(b, c);
      assert i < |b.entries| ==> Replaced(b.entries, i, b.pinging[c], b'.entries);
      assert GivesWay(b, c, b');
      if |b'.pinging| < 2 && |b'.pending| > 0 {
        ReplaceOrPingTries(b'.(pending := b'.pending[1..]), b'.pending[0], call, now);
      }
    }
  }

  /** A request that was not answered counts against the first entry at its address. */
  lemma RequestTimeoutMeans(es: seq<KBucketEntry>, addr: Address)
    ensures var r := OnRequestTimeout(es, addr);
            if forall i :: 0 <= i < |es| ==> es[i].addr != addr then r == es
            else exists i :: 0 <= i < |es| && es[i].addr == addr && (forall j :: 0 <= j < i ==> es[j].addr != addr)
                             && r == es[i := es[i].(failedQueries := es[i].failedQueries + 1)]
  {
    hide First;
    var i := FirstAt(es, addr);
    if i < |es| {
      assert es[i].addr == addr;
    }
  }
}

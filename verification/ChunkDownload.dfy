/** src/download/chunkdownload.cpp: one chunk being downloaded in pieces from several sources. */
module ChunkDownloads {
  import opened Common

  const MAX_PIECE_LEN: nat := 16384

  /** PieceDownloader objects; 0 is the null pointer. */
  type Source = nat

  type Requests = map<Source, set<int>>

  // ----- Counting

  function Count(bits: seq<bool>): nat
  {
    if bits == [] then 0 else Count(bits[..|bits| - 1]) + if bits[|bits| - 1] then 1 else 0
  }

  lemma {:induction false} CountSet(bits: seq<bool>, i: nat)
    requires i < |bits| && !bits[i]
    ensures Count(bits[i := true]) == Count(bits) + 1
    decreases |bits|
  {
    var n := |bits| - 1;
    var bits' := bits[i := true];
    if i < n {
      CountSet(bits[..n], i);
      assert bits'[..n] == bits[..n][i := true];
    } else {
      assert bits'[..n] == bits[..n];
    }
  }

  lemma {:induction false} CountAll(bits: seq<bool>)
    ensures Count(bits) <= |bits|
    ensures Count(bits) == |bits| <==> forall i :: 0 <= i < |bits| ==> bits[i]
    decreases |bits|
  {
    if bits != [] {
      var n := |bits| - 1;
      CountAll(bits[..n]);
      if forall i :: 0 <= i < |bits| ==> bits[i] {
        assert forall i :: 0 <= i < n ==> bits[..n][i];
      }
      if Count(bits) == |bits| {
        assert forall i :: 0 <= i < n ==> bits[i] == bits[..n][i];
      }
    }
  }

  function Below(n: nat): (s: set<int>)
    ensures forall i :: i in s <==> 0 <= i < n
    ensures |s| == n
  {
    if n == 0 then {} else Below(n - 1) + {n - 1}
  }

  lemma AtMost(s: set<int>, n: nat)
    requires s <= Below(n)
    ensures |s| <= n
  {
    assert Below(n) == s + (Below(n) - s);
  }

  // ----- Requests

  /** `pdown` lists the keys of `dstatus`, and requests are for pieces of this chunk. */
  ghost predicate Agree(pdown: seq<Source>, dstatus: Requests, num: nat)
  {
    && Distinct(pdown)
    && (forall i :: 0 <= i < |pdown| ==> pdown[i] in dstatus && pdown[i] != 0)
    && (forall q :: q in dstatus ==> q in pdown && dstatus[q] <= Below(num))
  }

  /** Nobody is asked for piece `i` any more. */
  function NotRequested(dstatus: Requests, i: int): Requests
  {
    map q | q in dstatus :: dstatus[q] - {i}
  }

  predicate IsMissing(pieces: seq<bool>, i: int) { 0 <= i < |pieces| && !pieces[i] }

  /** Nothing that has arrived is still marked as requested. */
  ghost predicate NoStale(dstatus: Requests, pieces: seq<bool>)
  {
    forall q, i :: q in dstatus && i in dstatus[q] ==> IsMissing(pieces, i)
  }

  /** How many sources other than `pd` a piece has been requested from. */
  function Others(dstatus: Requests, pd: Source, i: int): nat
  {
    |Askers(dstatus, pd, i)|
  }

  function Askers(dstatus: Requests, pd: Source, i: int): set<Source>
  {
    set q | q in dstatus.Keys && q != pd && i in dstatus[q]
  }

  /** A piece that could be requested from `pd`. */
  predicate Candidate(pieces: seq<bool>, dstatus: Requests, pd: Source, i: int)
  {
    IsMissing(pieces, i) && !(pd in dstatus && i in dstatus[pd])
  }

  /** Nothing has been taken off the lists of requests, except piece `i`. */
  ghost predicate MoreRequests(before: Requests, after: Requests, i: int)
  {
    && before.Keys == after.Keys
    && forall q, j :: q in before && j in before[q] && j != i ==> j in after[q]
  }

  /** Every missing piece has been requested already. */
  ghost predicate AskedForAll(pieces: seq<bool>, requested: set<int>)
  {
    forall i :: IsMissing(pieces, i) ==> i in requested
  }

  /** The best piece to request next: of the candidates with the fewest other requesters, the first. */
  ghost predicate IsBest(pieces: seq<bool>, dstatus: Requests, pd: Source, best: int)
  {
    && Candidate(pieces, dstatus, pd, best)
    && (forall j :: Candidate(pieces, dstatus, pd, j) ==> Others(dstatus, pd, best) <= Others(dstatus, pd, j))
    && (forall j :: Candidate(pieces, dstatus, pd, j) && j < best ==> Others(dstatus, pd, best) < Others(dstatus, pd, j))
  }

  ghost predicate InFlight(dstatus: Requests, i: int)
  {
    exists q :: q in dstatus && i in dstatus[q]
  }

  /** A piece in flight is requested a second time only when every missing piece is in flight. */
  lemma DuplicatesOnlyAtTheEnd(pieces: seq<bool>, dstatus: Requests, pd: Source, best: int, i: int)
    requires pd in dstatus && IsBest(pieces, dstatus, pd, best) && InFlight(dstatus, best)
    requires 0 <= i < |pieces| && !pieces[i]
    ensures InFlight(dstatus, i)
  {
    if i in dstatus[pd] {
    } else {
      assert Candidate(pieces, dstatus, pd, i);
      var q :| q in dstatus && best in dstatus[q];
      OthersCount(dstatus, pd, best, q);
      var rest := Askers(dstatus, pd, i);
      var r := PickElement(rest);
    }
  }

  lemma OthersCount(dstatus: Requests, pd: Source, i: int, q: Source)
    requires q in dstatus && q != pd && i in dstatus[q]
    ensures Others(dstatus, pd, i) > 0
  {
    assert q in Askers(dstatus, pd, i);
  }

  /** Every other source that is asked for the piece counts once. */
  lemma OthersCountsEach(dstatus: Requests, pd: Source, i: int, q: Source)
    requires q in dstatus && i !in dstatus[q]
    ensures Others(dstatus[q := dstatus[q] + {i}], pd, i) == Others(dstatus, pd, i) + if q == pd then 0 else 1
    ensures (forall r :: r in dstatus && r != pd ==> i !in dstatus[r]) ==> Others(dstatus, pd, i) == 0
  {
    var dstatus' := dstatus[q := dstatus[q] + {i}];
    var s, s' := Askers(dstatus, pd, i), Askers(dstatus', pd, i);
    assert s' == if q == pd then s else s + {q};
    if forall r :: r in dstatus && r != pd ==> i !in dstatus[r] {
      assert s == {};
    }
  }

  /** Requests that could still be made, over all sources of a list. */
  function Free(sources: seq<Source>, dstatus: Requests, num: nat): int
  {
    if sources == [] then 0
    else
      var q := sources[|sources| - 1];
      Free(sources[..|sources| - 1], dstatus, num) + if q in dstatus then num - |dstatus[q]| else 0
  }

  lemma {:induction false} FreeIsNatural(sources: seq<Source>, dstatus: Requests, num: nat)
    requires forall q :: q in dstatus ==> dstatus[q] <= Below(num)
    ensures Free(sources, dstatus, num) >= 0
    decreases |sources|
  {
    if sources != [] {
      FreeIsNatural(sources[..|sources| - 1], dstatus, num);
      var q := sources[|sources| - 1];
      if q in dstatus {
        AtMost(dstatus[q], num);
      }
    }
  }

  lemma {:induction false} FreeElsewhere(sources: seq<Source>, dstatus: Requests, num: nat, pd: Source, s: set<int>)
    requires pd !in sources
    ensures Free(sources, dstatus[pd := s], num) == Free(sources, dstatus, num)
    decreases |sources|
  {
    if sources != [] {
      assert sources[|sources| - 1] in sources;
      FreeElsewhere(sources[..|sources| - 1], dstatus, num, pd, s);
    }
  }

  /** One more request uses up one of them. */
  lemma {:induction false} RequestUsesOne(sources: seq<Source>, dstatus: Requests, num: nat, pd: Source, i: int)
    requires Distinct(sources) && pd in sources && pd in dstatus && i !in dstatus[pd]
    ensures Free(sources, dstatus[pd := dstatus[pd] + {i}], num) == Free(sources, dstatus, num) - 1
    decreases |sources|
  {
    var n := |sources| - 1;
    var dstatus' := dstatus[pd := dstatus[pd] + {i}];
    if sources[n] == pd {
      assert pd !in sources[..n];
      FreeElsewhere(sources[..n], dstatus, num, pd, dstatus[pd] + {i});
      assert |dstatus[pd] + {i}| == |dstatus[pd]| + 1;
    } else {
      assert pd in sources[..n];
      RequestUsesOne(sources[..n], dstatus, num, pd, i);
    }
  }

  // ----- Hashing

  /** What the hash generator should have seen after the first `n` pieces. */
  function InOrder(data: seq<Option<seq<Byte>>>, n: nat): seq<seq<Byte>>
    requires n <= |data| && forall i :: 0 <= i < n ==> data[i].Some?
  {
    seq(n, i requires 0 <= i < n => data[i].value)
  }

  /** The hash generator has seen the longest run of arrived pieces from the start, each once
      and in order. */
  ghost predicate HashOk(pieces: seq<bool>, data: seq<Option<seq<Byte>>>, hashed: seq<seq<Byte>>, n: nat)
  {
    && |pieces| == |data| && n <= |pieces|
    && (forall i :: 0 <= i < |pieces| ==> (pieces[i] <==> data[i].Some?))
    && (forall i :: 0 <= i < n ==> pieces[i])
    && hashed == InOrder(data, n)
  }

  // ----- Requests that were sent

  /** A request for a piece, and what the source had been asked for when it was sent. */
  datatype Sent = Sent(source: Source, before: set<int>, piece: int)

  function Granted(d: Requests, log: seq<Sent>): Requests
  {
    if log == [] then d
    else
      var d', s := Granted(d, log[..|log| - 1]), log[|log| - 1];
      if s.source in d' then d'[s.source := d'[s.source] + {s.piece}] else d'
  }

  /** From `d0` to `d` nothing but the requests newly logged was added, and each of them went to
      a source that was not choked and accepted it. */
  ghost predicate OnlyAccepted(d0: Requests, d: Requests, log0: seq<Sent>, log: seq<Sent>,
                               isChoked: Source -> bool, canAddRequest: (Source, set<int>) -> bool)
  {
    && log0 <= log && d == Granted(d0, log[|log0|..])
    && forall i :: |log0| <= i < |log| ==> !isChoked(log[i].source) && canAddRequest(log[i].source, log[i].before)
  }

  lemma NothingSent(d: Requests, log: seq<Sent>, isChoked: Source -> bool, canAddRequest: (Source, set<int>) -> bool)
    ensures OnlyAccepted(d, d, log, log, isChoked, canAddRequest)
  {
  }

  lemma OneSent(d0: Requests, d: Requests, log0: seq<Sent>, log: seq<Sent>, s: Sent,
                isChoked: Source -> bool, canAddRequest: (Source, set<int>) -> bool)
    requires OnlyAccepted(d0, d, log0, log, isChoked, canAddRequest) && s.source in d
    requires !isChoked(s.source) && canAddRequest(s.source, s.before)
    ensures OnlyAccepted(d0, d[s.source := d[s.source] + {s.piece}], log0, log + [s], isChoked, canAddRequest)
  {
    var new_, new' := log[|log0|..], (log + [s])[|log0|..];
    assert new' == new_ + [s] && new'[..|new'| - 1] == new_;
  }

  lemma SentInTurn(d0: Requests, d1: Requests, d2: Requests, log0: seq<Sent>, log1: seq<Sent>, log2: seq<Sent>,
                   isChoked: Source -> bool, canAddRequest: (Source, set<int>) -> bool)
    requires OnlyAccepted(d0, d1, log0, log1, isChoked, canAddRequest)
    requires OnlyAccepted(d1, d2, log1, log2, isChoked, canAddRequest)
    ensures OnlyAccepted(d0, d2, log0, log2, isChoked, canAddRequest)
  {
    GrantedTwice(d0, log1[|log0|..], log2[|log1|..]);
    assert log2[|log0|..] == log1[|log0|..] + log2[|log1|..];
  }

  lemma {:induction false} GrantedTwice(d: Requests, a: seq<Sent>, b: seq<Sent>)
    ensures Granted(Granted(d, a), b) == Granted(d, a + b)
    decreases |b|
  {
    if b == [] {
      assert a + b == a;
    } else {
      GrantedTwice(d, a, b[..|b| - 1]);
      assert (a + b)[..|a + b| - 1] == a + b[..|b| - 1];
    }
  }

  class ChunkDownload {
    const num: nat
    const lastSize: nat
    /** The length of the chunk. */
    ghost const size: nat
    var pieces: seq<bool>
    var pieceData: seq<Option<seq<Byte>>>
    var numDownloaded: nat
    var numPiecesInHash: nat
    var pdown: seq<Source>
    var dstatus: Requests
    /** The data given to the hash generator so far, and whether it was told to finish. */
    var hashed: seq<seq<Byte>>
    var hashEnded: bool
    /** Every request that was sent. */
    ghost var requests: seq<Sent>

    ghost predicate Invariant()
      reads this
    {
      && num > 0 && |pieces| == num
      && (num - 1) * MAX_PIECE_LEN + lastSize == size && 0 < lastSize <= MAX_PIECE_LEN
      && numDownloaded == Count(pieces)
      && Agree(pdown, dstatus, num)
      && HashOk(pieces, pieceData, hashed, numPiecesInHash)
    }

    ghost predicate Valid()
      reads this
    {
      && Invariant()
      && (numPiecesInHash < num ==> !pieces[numPiecesInHash])
    }

    constructor (chunkSize: nat)
      requires chunkSize > 0
      ensures Valid() && NoStale(dstatus, pieces) && pdown == [] && hashed == []
      ensures (forall i :: 0 <= i < num ==> !pieces[i]) && requests == []
      ensures size == chunkSize
    {
      var n := chunkSize / MAX_PIECE_LEN;
      if chunkSize % MAX_PIECE_LEN != 0 {
        lastSize := chunkSize % MAX_PIECE_LEN;
        n := n + 1;
      } else {
        lastSize := MAX_PIECE_LEN;
      }
      num, size := n, chunkSize;
      pieces, pieceData := seq(n, _ => false), seq(n, _ => None);
      numDownloaded, numPiecesInHash, pdown, dstatus, hashed, hashEnded := 0, 0, [], map[], [], false;
      requests := [];
      new;
      NoneCounted(num);
    }

    /** Whatever the order of arrival: if every piece that arrived is the one that the chunk has
        there, the hash generator has seen the beginning of the chunk. */
    lemma HashSeesTheChunk(chunk: seq<seq<Byte>>)
      requires Valid() && |chunk| == num
      requires forall i :: 0 <= i < num && pieceData[i].Some? ==> pieceData[i].value == chunk[i]
      ensures hashed == chunk[..numPiecesInHash]
      ensures numDownloaded == num ==> hashed == chunk
    {
      hide Count, Agree;
      CountAll(pieces);
      assert chunk[..num] == chunk;
    }

    /** A piece reaches up to the next multiple of 16384, or to the end of the chunk. */
    lemma LengthIs(i: nat)
      requires Invariant() && i < num
      ensures Length(i) == Min(MAX_PIECE_LEN, size - i * MAX_PIECE_LEN) && Length(i) > 0
      ensures i == num - 1 ==> i * MAX_PIECE_LEN + Length(i) == size
    {
      hide Count, HashOk, Agree;
    }

    /** The length of a piece. */
    function Length(i: nat): nat { if i == num - 1 then lastSize else MAX_PIECE_LEN }

    /** Gives the hash generator every piece that has become part of the unbroken run. */
    method UpdateHash()
      requires Invariant()
      modifies this`hashed, this`numPiecesInHash
      ensures Valid() && numPiecesInHash >= old(numPiecesInHash)
    {
      hide Count, Agree;
      var nn := numPiecesInHash;
      while nn < num && pieces[nn]
        invariant numPiecesInHash <= nn <= num
        invariant forall i :: 0 <= i < nn ==> pieces[i]
      {
        nn := nn + 1;
      }
      for i := numPiecesInHash to nn
        invariant hashed == InOrder(pieceData, i)
      {
        hashed := hashed + [pieceData[i].value];
      }
      numPiecesInHash := nn;
    }

    method BestPiece(pd: Source) returns (best: nat)
      requires |pieces| == num
      ensures best <= num
      ensures best == num ==> forall j :: !Candidate(pieces, dstatus, pd, j)
      ensures best < num ==> IsBest(pieces, dstatus, pd, best)
    {
      hide Others;
      best := num;
      var bestCount := 0;
      for i := 0 to num
        invariant best == num ==> forall j :: 0 <= j < i ==> !Candidate(pieces, dstatus, pd, j)
        invariant best != num ==> best < i && Candidate(pieces, dstatus, pd, best) && bestCount == Others(dstatus, pd, best)
        invariant best != num ==> bestCount > 0
        invariant best != num ==> forall j :: 0 <= j < i && Candidate(pieces, dstatus, pd, j) ==> bestCount <= Others(dstatus, pd, j)
        invariant best != num ==> forall j :: 0 <= j < best && Candidate(pieces, dstatus, pd, j) ==> bestCount < Others(dstatus, pd, j)
      {
        if !pieces[i] && !(pd in dstatus && i in dstatus[pd]) {
          var timesDownloading := Others(dstatus, pd, i);
          if timesDownloading == 0 {
            return i;
          }
          if best == num || bestCount > timesDownloading {
            bestCount := timesDownloading;
            best := i;
          }
        }
      }
    }

    /** Requests the best piece from `pd`, if there is one. */
    method SendRequest(pd: Source, isChoked: Source -> bool) returns (sent: bool)
      requires Invariant()
      modifies this`dstatus, this`requests
      ensures Invariant() && dstatus.Keys == old(dstatus).Keys
      ensures !sent ==> dstatus == old(dstatus) && requests == old(requests)
      ensures !sent && pd in dstatus && !isChoked(pd) ==> AskedForAll(pieces, dstatus[pd])
      ensures sent ==> exists i: nat ::
        pd in old(dstatus) && IsBest(pieces, old(dstatus), pd, i) && dstatus == old(dstatus)[pd := old(dstatus)[pd] + {i}]
        && requests == old(requests) + [Sent(pd, old(dstatus)[pd], i)] && !isChoked(pd)
      ensures old(NoStale(dstatus, pieces)) <==> NoStale(dstatus, pieces)
      ensures forall q :: q in dstatus ==> old(dstatus)[q] <= dstatus[q] && (q != pd ==> dstatus[q] == old(dstatus)[q])
      ensures sent ==> pd in pdown && Free(pdown, dstatus, num) == old(Free(pdown, dstatus, num)) - 1
    {
      hide Count, Others, HashOk;
      if pd !in dstatus || isChoked(pd) {
        return false;
      }
      var bp := BestPiece(pd);
      if bp >= num {
        assert forall j :: IsMissing(pieces, j) ==> j in dstatus[pd] || Candidate(pieces, dstatus, pd, j);
        return false;
      }
      RequestUsesOne(pdown, dstatus, num, pd, bp);
      requests := requests + [Sent(pd, dstatus[pd], bp)];
      dstatus := dstatus[pd := dstatus[pd] + {bp}];
      return true;
    }

    /** Goes round the sources until none of them can take another request. A source says whether
        it is choked, and whether it has room given what it has been asked for. */
    method SendRequests(isChoked: Source -> bool, canAddRequest: (Source, set<int>) -> bool)
      requires Valid()
      modifies this`dstatus, this`requests
      ensures Valid() && dstatus.Keys == old(dstatus).Keys
      ensures forall q :: q in old(dstatus) ==> old(dstatus)[q] <= dstatus[q]
      ensures old(NoStale(dstatus, pieces)) <==> NoStale(dstatus, pieces)
      ensures forall q :: q in pdown ==> Saturated(q, isChoked, canAddRequest)
      ensures OnlyAccepted(old(dstatus), dstatus, old(requests), requests, isChoked, canAddRequest)
    {
      hide Count, Others, HashOk, NoStale, Agree, Free, IsBest, Candidate, OnlyAccepted;
      var tmp := pdown;
      KnownSources(pdown, dstatus, num);
      NothingSent(dstatus, requests, isChoked, canAddRequest);
      while |tmp| > 0
        invariant OnlyAccepted(old(dstatus), dstatus, old(requests), requests, isChoked, canAddRequest)
        invariant Valid() && dstatus.Keys == old(dstatus).Keys
        invariant forall q :: q in old(dstatus) ==> old(dstatus)[q] <= dstatus[q]
        invariant old(NoStale(dstatus, pieces)) <==> NoStale(dstatus, pieces)
        invariant forall q :: q in tmp ==> q in pdown
        invariant forall q :: q in pdown ==> q in tmp || Saturated(q, isChoked, canAddRequest)
        decreases Free(pdown, dstatus, num) + |tmp|
      {
        FreeBound(pdown, dstatus, num);
        ghost var d, log := dstatus, requests;
        tmp := OneRound(tmp, isChoked, canAddRequest);
        SentInTurn(old(dstatus), d, dstatus, old(requests), log, requests, isChoked, canAddRequest);
        FreeBound(pdown, dstatus, num);
      }
    }

    /** There is nothing more that `q` could or would be asked for. */
    ghost predicate Saturated(q: Source, isChoked: Source -> bool, canAddRequest: (Source, set<int>) -> bool)
      reads this
    {
      q in dstatus && (isChoked(q) || !canAddRequest(q, dstatus[q]) || AskedForAll(pieces, dstatus[q]))
    }

    /** Asks every source of the list once, and takes those off it that cannot be asked. */
    method OneRound(sources: seq<Source>, isChoked: Source -> bool, canAddRequest: (Source, set<int>) -> bool)
      returns (tmp: seq<Source>)
      requires Valid() && |sources| > 0 && forall q :: q in sources ==> q in pdown
      modifies this`dstatus, this`requests
      ensures Valid() && dstatus.Keys == old(dstatus).Keys
      ensures forall q :: q in old(dstatus) ==> old(dstatus)[q] <= dstatus[q]
      ensures old(NoStale(dstatus, pieces)) <==> NoStale(dstatus, pieces)
      ensures forall q :: q in tmp ==> q in sources
      ensures forall q :: q in sources ==> q in tmp || Saturated(q, isChoked, canAddRequest)
      ensures forall q :: old(Saturated(q, isChoked, canAddRequest)) && q !in sources ==> Saturated(q, isChoked, canAddRequest)
      ensures Free(pdown, dstatus, num) + |tmp| < old(Free(pdown, dstatus, num)) + |sources|
      ensures OnlyAccepted(old(dstatus), dstatus, old(requests), requests, isChoked, canAddRequest)
    {
      hide Count, Others, HashOk, NoStale, Agree, Free, IsBest, Candidate, OnlyAccepted;
      KnownSources(pdown, dstatus, num);
      tmp := sources;
      var i := 0;
      NothingSent(dstatus, requests, isChoked, canAddRequest);
      while i < |tmp|
        invariant OnlyAccepted(old(dstatus), dstatus, old(requests), requests, isChoked, canAddRequest)
        invariant i <= |tmp| <= |sources|
        invariant Valid() && dstatus.Keys == old(dstatus).Keys
        invariant forall q :: q in old(dstatus) ==> old(dstatus)[q] <= dstatus[q]
        invariant old(NoStale(dstatus, pieces)) <==> NoStale(dstatus, pieces)
        invariant forall q :: q in tmp ==> q in sources
        invariant forall q :: q in sources ==> q in tmp || Saturated(q, isChoked, canAddRequest)
        invariant forall q :: q !in sources && q in dstatus ==> dstatus[q] == old(dstatus)[q]
        invariant Free(pdown, dstatus, num) + i == old(Free(pdown, dstatus, num))
        decreases |tmp| - i
      {
        var pd := tmp[i];
        var sent := false;
        if !isChoked(pd) && canAddRequest(pd, dstatus[pd]) {
          ghost var d, log := dstatus, requests;
          sent := SendRequest(pd, isChoked);
          if sent {
            OneSent(old(dstatus), d, old(requests), log, requests[|requests| - 1], isChoked, canAddRequest);
          }
        }
        if sent {
          i := i + 1;
        } else {
          ErasedAt(tmp, i);
          tmp := tmp[..i] + tmp[i + 1..];
        }
      }
    }

    /** Takes piece `i` off the list of every source. */
    method EndgameCancel(i: int)
      requires Invariant()
      modifies this`dstatus
      ensures Invariant()
      ensures dstatus == NotRequested(old(dstatus), i)
    {
      hide Count, HashOk;
      for k := 0 to |pdown|
        invariant Invariant() && dstatus.Keys == old(dstatus).Keys
        invariant forall j :: 0 <= j < k ==> dstatus[pdown[j]] == old(dstatus)[pdown[j]] - {i}
        invariant forall j :: k <= j < |pdown| ==> dstatus[pdown[j]] == old(dstatus)[pdown[j]]
      {
        var pd := pdown[k];
        if pd in dstatus && i in dstatus[pd] {
          dstatus := dstatus[pd := dstatus[pd] - {i}];
        }
      }
      forall q | q in dstatus ensures dstatus[q] == old(dstatus)[q] - {i} {
        var j :| 0 <= j < |pdown| && pdown[j] == q;
      }
    }

    /** The requests after piece `pp` has arrived from `provider`. */
    ghost function AfterArrival(pp: int, provider: Source): Requests
      reads this
    {
      if |pdown| > 1 then NotRequested(dstatus, pp)
      else if provider in dstatus then dstatus[provider := dstatus[provider] - {pp}]
      else dstatus
    }

    /** The requests after a piece has arrived that may have to be asked for again. */
    ghost function WithoutPiece(pp: int, provider: Source, writable: bool): Requests
      reads this
    {
      if writable then AfterArrival(pp, provider)
      else if provider in dstatus then dstatus[provider := dstatus[provider] - {pp}]
      else dstatus
    }

    /** A piece that will be used and is not the last one missing comes from a source that is not
        the only assigned one, which has been asked for it. */
    ghost predicate GoesStale(pp: nat, size: nat, provider: Source, writable: bool)
      reads this
    {
      && writable && pp < num && IsMissing(pieces, pp) && size == Length(pp)
      && (exists i :: i != pp && IsMissing(pieces, i))
      && |pdown| == 1 && pdown[0] != provider && pdown[0] in dstatus && pp in dstatus[pdown[0]]
    }

    /** Takes note of an arrived piece: its requests, its data, the hash. */
    method Arrived(pp: nat, data: seq<Byte>, provider: Source)
      requires Valid() && pp < num && !pieces[pp]
      modifies this
      ensures Valid() && pdown == old(pdown) && hashEnded == old(hashEnded)
      ensures pieces == old(pieces)[pp := true] && pieceData == old(pieceData)[pp := Some(data)]
      ensures numDownloaded == old(numDownloaded) + 1 && numPiecesInHash >= old(numPiecesInHash)
      ensures dstatus == old(AfterArrival(pp, provider)) && requests == old(requests)
    {
      hide Count, HashOk, Agree;
      CancelTwice(dstatus, provider, pp);
      if provider in dstatus {
        FewerRequests(pdown, dstatus, pieces, num, provider, pp);
        dstatus := dstatus[provider := dstatus[provider] - {pp}];
      }
      HashStays(pieces, pieceData, hashed, numPiecesInHash, pp, data);
      pieceData := pieceData[pp := Some(data)];
      CountSet(pieces, pp);
      pieces := pieces[pp := true];
      numDownloaded := numDownloaded + 1;
      if |pdown| > 1 {
        EndgameCancel(pp);
      }
      UpdateHash();
    }

    /** A piece that is missing, and has the right size. */
    predicate Wanted(offset: nat, size: nat)
      requires |pieces| == num
      reads this
    {
      var pp := offset / MAX_PIECE_LEN;
      pp < num && !pieces[pp] && size == Length(pp)
    }

    /** A piece arrived. `writable` says whether it could be stored. Returns whether the chunk is
        now complete, and whether the piece was used. */
    method Piece(offset: nat, data: seq<Byte>, provider: Source, writable: bool,
                 isChoked: Source -> bool, canAddRequest: (Source, set<int>) -> bool)
      returns (complete: bool, ok: bool)
      requires Valid()
      modifies this
      ensures Valid()
      ensures ok <==> writable && old(Wanted(offset, |data|))
      ensures ok ==> var pp := offset / MAX_PIECE_LEN;
        pieces == old(pieces)[pp := true] && pieceData == old(pieceData)[pp := Some(data)]
      ensures !ok ==> pieces == old(pieces) && pieceData == old(pieceData)
      // complete exactly when the last missing piece arrives, and then everything has been hashed in order
      ensures complete <==> ok && forall i :: 0 <= i < num ==> pieces[i]
      ensures complete ==> hashEnded && numPiecesInHash == num && pdown == [] && hashed == InOrder(pieceData, num)
      // a piece that is not wanted changes nothing; after any other one the sources stay, keep their
      // other requests and are asked for as much as they take
      ensures !old(Wanted(offset, |data|)) ==> dstatus == old(dstatus) && pdown == old(pdown)
      ensures old(Wanted(offset, |data|)) && !complete ==> pdown == old(pdown) && MoreRequests(old(dstatus), dstatus, offset / MAX_PIECE_LEN)
      ensures old(Wanted(offset, |data|)) && !complete ==> forall q :: q in pdown ==> Saturated(q, isChoked, canAddRequest)
      ensures old(Wanted(offset, |data|)) && !complete ==>
        OnlyAccepted(old(WithoutPiece(offset / MAX_PIECE_LEN, provider, writable)), dstatus, old(requests), requests, isChoked, canAddRequest)
      // no arrived piece stays requested, except in one case
      ensures old(NoStale(dstatus, pieces)) ==>
        (NoStale(dstatus, pieces) <==> !old(GoesStale(offset / MAX_PIECE_LEN, |data|, provider, writable)))
    {
      hide Count, HashOk, NoStale, Agree, OnlyAccepted;
      KnownSources(pdown, dstatus, num);
      ok := false;
      var pp := offset / MAX_PIECE_LEN;
      var len := Length(pp);
      if pp >= num || pieces[pp] || |data| != len {
        return false, false;
      }
      CountAll(pieces);
      if writable {
        FirstSource(pdown, dstatus, num);
        LastMissing(pieces, pp);
        if NoStale(dstatus, pieces) {
          NoStaleAfter(pdown, dstatus, pieces, num, pp, provider);
        }
        Arrived(pp, data, provider);
        ok := true;
        CountAll(pieces);
        if numDownloaded >= num {
          hashEnded := true;
          AllHashed(pieces, pieceData, hashed, numPiecesInHash);
          dstatus, pdown := map[], [];
          NoSources(num, pieces);
          return true, true;
        }
      } else if provider in dstatus {
        FewerRequests(pdown, dstatus, pieces, num, provider, pp);
        dstatus := dstatus[provider := dstatus[provider] - {pp}];
      }
      SendRequests(isChoked, canAddRequest);
      return false, ok;
    }

    method Assign(pd: Source, isChoked: Source -> bool, canAddRequest: (Source, set<int>) -> bool) returns (added: bool)
      requires Valid()
      modifies this
      ensures Valid() && pieces == old(pieces)
      ensures added <==> pd != 0 && pd !in old(pdown)
      ensures pdown == if added then old(pdown) + [pd] else old(pdown)
      ensures added ==> forall q :: q in pdown ==> Saturated(q, isChoked, canAddRequest)
      ensures if added then MoreRequests(old(dstatus)[pd := {}], dstatus, -1) else dstatus == old(dstatus)
      ensures added ==> OnlyAccepted(old(dstatus)[pd := {}], dstatus, old(requests), requests, isChoked, canAddRequest)
      ensures old(NoStale(dstatus, pieces)) ==> NoStale(dstatus, pieces)
    {
      hide Count, HashOk, OnlyAccepted;
      if pd == 0 || pd in pdown {
        return false;
      }
      pdown := pdown + [pd];
      dstatus := dstatus[pd := {}];
      SendRequests(isChoked, canAddRequest);
      return true;
    }

    /** Forgets a source and what was requested from it; both `release` and `killed` do this. */
    method Release(pd: Source)
      requires Valid()
      modifies this
      ensures Valid() && pieces == old(pieces) && pd !in pdown
      ensures dstatus == old(dstatus) - {pd} && pdown == Without(old(pdown), pd) && requests == old(requests)
      ensures old(NoStale(dstatus, pieces)) ==> NoStale(dstatus, pieces)
    {
      hide Count, HashOk;
      AgreeWithout(pdown, dstatus, num, pd);
      dstatus := dstatus - {pd};
      pdown := Without(pdown, pd);
    }

    /** A request was rejected or timed out: the source is given up, whichever it was. */
    method NotDownloaded(pd: Source, isChoked: Source -> bool, canAddRequest: (Source, set<int>) -> bool)
      requires Valid()
      modifies this
      ensures Valid() && pieces == old(pieces) && pdown == Without(old(pdown), pd)
      ensures old(NoStale(dstatus, pieces)) ==> NoStale(dstatus, pieces)
      ensures MoreRequests(old(dstatus) - {pd}, dstatus, -1)
      ensures OnlyAccepted(old(dstatus) - {pd}, dstatus, old(requests), requests, isChoked, canAddRequest)
      ensures forall q :: q in pdown ==> Saturated(q, isChoked, canAddRequest)
    {
      hide Count, HashOk, NoStale, Agree, Without, OnlyAccepted;
      WithoutIs(pdown, pd);
      KnownSources(pdown, dstatus, num);
      if pd in dstatus {
        Release(pd);
      } else {
        assert dstatus - {pd} == dstatus;
      }
      SendRequests(isChoked, canAddRequest);
    }
  }

  /** For example: two pieces are missing, source 1 has been asked for both, and source 2 sends one. */
  lemma StaleRequest()
    ensures var pieces, dstatus := [false, false], map[1 := {0, 1}];
            && Agree([1], dstatus, 2) && NoStale(dstatus, pieces)
            && !NoStale(dstatus, pieces[0 := true])
  {
    var pieces, dstatus := [false, false], map[1 := {0, 1}];
    assert [1][0] == 1;
    NoStaleAfter([1], dstatus, pieces, 2, 0, 2);
  }

  /** And that happens to every chunk of several pieces if a source that is not assigned sends its
      first piece. */
  method StaleRequestRun(chunkSize: nat, data: seq<Byte>) returns (chunk: ChunkDownload)
    requires chunkSize > MAX_PIECE_LEN && |data| == MAX_PIECE_LEN
    ensures chunk.Valid() && chunk.pieces[0] && !NoStale(chunk.dstatus, chunk.pieces)
  {
    hide Agree, HashOk, NoStale;
    chunk := new ChunkDownload(chunkSize);
    var added := chunk.Assign(1, _ => false, (_, _) => true);
    assert 1 in chunk.pdown && chunk.Saturated(1, _ => false, (_, _) => true);
    assert IsMissing(chunk.pieces, 0) && IsMissing(chunk.pieces, 1);
    var complete, ok := chunk.Piece(0, data, 2, true, _ => false, (_, _) => true);
  }

  /** removeAll */
  function Without(s: seq<Source>, pd: Source): seq<Source>
  {
    if s == [] then [] else Without(s[..|s| - 1], pd) + if s[|s| - 1] == pd then [] else [s[|s| - 1]]
  }

  lemma {:induction false} WithoutIs(s: seq<Source>, pd: Source)
    ensures pd !in Without(s, pd)
    ensures forall q :: q in Without(s, pd) <==> q in s && q != pd
    ensures Distinct(s) ==> Distinct(Without(s, pd))
    ensures pd !in s ==> Without(s, pd) == s
    decreases |s|
  {
    if s != [] {
      var n := |s| - 1;
      WithoutIs(s[..n], pd);
      assert s == s[..n] + [s[n]];
      if Distinct(s) {
        assert Distinct(s[..n]);
        assert s[n] !in s[..n];
      }
    }
  }

  lemma AgreeWithout(pdown: seq<Source>, dstatus: Requests, num: nat, pd: Source)
    requires Agree(pdown, dstatus, num)
    ensures Agree(Without(pdown, pd), dstatus - {pd}, num) && pd !in Without(pdown, pd)
  {
    hide Without;
    WithoutIs(pdown, pd);
    var s := Without(pdown, pd);
    forall i | 0 <= i < |s| ensures s[i] in dstatus - {pd} && s[i] != 0 {
      assert s[i] in s;
      var j :| 0 <= j < |pdown| && pdown[j] == s[i];
    }
  }

  lemma CancelTwice(dstatus: Requests, provider: Source, i: int)
    ensures var d1 := if provider in dstatus then dstatus[provider := dstatus[provider] - {i}] else dstatus;
            NotRequested(d1, i) == NotRequested(dstatus, i)
  {
    var d1 := if provider in dstatus then dstatus[provider := dstatus[provider] - {i}] else dstatus;
    var a, b := NotRequested(d1, i), NotRequested(dstatus, i);
    forall q | q in a ensures a[q] == b[q] {
      if q == provider {
        assert dstatus[q] - {i} - {i} == dstatus[q] - {i};
      }
    }
  }

  lemma FirstSource(pdown: seq<Source>, dstatus: Requests, num: nat)
    requires Agree(pdown, dstatus, num)
    ensures |pdown| == 1 ==> pdown[0] in dstatus && forall q :: q in dstatus ==> q == pdown[0]
    ensures |pdown| == 0 ==> forall q :: q !in dstatus
  {
  }

  lemma NoSources(num: nat, pieces: seq<bool>)
    ensures Agree([], map[], num) && NoStale(map[], pieces)
  {
  }

  lemma HashStays(pieces: seq<bool>, data: seq<Option<seq<Byte>>>, hashed: seq<seq<Byte>>, n: nat, i: nat, d: seq<Byte>)
    requires HashOk(pieces, data, hashed, n) && i < |pieces| && !pieces[i]
    ensures |data| == |pieces| && HashOk(pieces[i := true], data[i := Some(d)], hashed, n)
  {
  }

  lemma AllHashed(pieces: seq<bool>, data: seq<Option<seq<Byte>>>, hashed: seq<seq<Byte>>, n: nat)
    requires HashOk(pieces, data, hashed, n) && (n < |pieces| ==> !pieces[n]) && forall i :: 0 <= i < |pieces| ==> pieces[i]
    ensures n == |pieces| == |data| && (forall i :: 0 <= i < n ==> data[i].Some?) && hashed == InOrder(data, n)
  {
  }

  lemma FewerRequests(pdown: seq<Source>, dstatus: Requests, pieces: seq<bool>, num: nat, q: Source, i: int)
    requires Agree(pdown, dstatus, num) && q in dstatus && 0 <= i < |pieces| && !pieces[i]
    ensures Agree(pdown, dstatus[q := dstatus[q] - {i}], num)
    ensures NoStale(dstatus, pieces) <==> NoStale(dstatus[q := dstatus[q] - {i}], pieces)
  {
    var d' := dstatus[q := dstatus[q] - {i}];
    if NoStale(dstatus, pieces) {
      forall r, j | r in d' && j in d'[r] ensures IsMissing(pieces, j) {
        assert j in dstatus[r];
      }
    }
    if NoStale(d', pieces) {
      forall r, j | r in dstatus && j in dstatus[r] ensures IsMissing(pieces, j) {
        if !(r == q && j == i) {
          assert r in d' && j in d'[r];
        }
      }
    }
  }

  lemma LastMissing(pieces: seq<bool>, pp: nat)
    requires IsMissing(pieces, pp)
    ensures (exists i :: i != pp && IsMissing(pieces, i)) <==> Count(pieces[pp := true]) < |pieces|
  {
    hide Count;
    var pieces' := pieces[pp := true];
    CountAll(pieces');
    if i :| i != pp && IsMissing(pieces, i) {
      assert !pieces'[i];
    } else {
      forall i | 0 <= i < |pieces'| ensures pieces'[i] {
        assert i == pp || !IsMissing(pieces, i);
      }
    }
  }

  lemma NoStaleAfter(pdown: seq<Source>, dstatus: Requests, pieces: seq<bool>, num: nat, pp: nat, provider: Source)
    requires Agree(pdown, dstatus, num) && pp < |pieces| && NoStale(dstatus, pieces)
    ensures var d := if |pdown| > 1 then NotRequested(dstatus, pp)
                     else if provider in dstatus then dstatus[provider := dstatus[provider] - {pp}]
                     else dstatus;
            NoStale(d, pieces[pp := true]) <==>
              !(|pdown| == 1 && pdown[0] != provider && pdown[0] in dstatus && pp in dstatus[pdown[0]])
  {
    var d := if |pdown| > 1 then NotRequested(dstatus, pp)
             else if provider in dstatus then dstatus[provider := dstatus[provider] - {pp}]
             else dstatus;
    FirstSource(pdown, dstatus, num);
    if |pdown| == 1 && pdown[0] != provider && pdown[0] in dstatus && pp in dstatus[pdown[0]] {
      assert pp in d[pdown[0]] && !IsMissing(pieces[pp := true], pp);
    } else {
      forall r, j | r in d && j in d[r] ensures IsMissing(pieces[pp := true], j) {
        assert j in dstatus[r] && j != pp && IsMissing(pieces, j);
      }
    }
  }

  lemma FreeBound(pdown: seq<Source>, dstatus: Requests, num: nat)
    requires Agree(pdown, dstatus, num)
    ensures Free(pdown, dstatus, num) >= 0
  {
    FreeIsNatural(pdown, dstatus, num);
  }

  lemma KnownSources(pdown: seq<Source>, dstatus: Requests, num: nat)
    requires Agree(pdown, dstatus, num)
    ensures forall q :: q in pdown <==> q in dstatus
  {
  }

  lemma {:induction false} NoneCounted(n: nat)
    ensures Count(seq(n, _ => false)) == 0
  {
    var s := seq(n, _ => false);
    if n > 0 {
      NoneCounted(n - 1);
      assert s[..n - 1] == seq(n - 1, _ => false);
    }
  }
}

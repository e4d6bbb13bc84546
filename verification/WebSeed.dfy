/** src/download/webseed.cpp: asks an HTTP server for ranges of files, and puts the bytes that
    come back into chunks. */
module WebSeeds {
  import opened Common
  import opened TorrentLayouts
  import opened MultiFileCaches

  datatype Range = Range(file: nat, off: int, len: int)

  /** The ranges are, in order, exactly the torrent bytes from `a` to `b`, with no two
      neighbours in the same file. */
  ghost predicate Cut(l: Layout, q: seq<Range>, a: int, b: int)
    decreases |q|
  {
    if q == [] then a == b
    else
      var n := |q| - 1;
      var r := q[n];
      && r.file < |l.files| && r.off >= 0 && r.len > 0 && r.off + r.len <= l.files[r.file].size
      && l.files[r.file].off + r.off + r.len == b
      && (n > 0 ==> q[n - 1].file != r.file)
      && Cut(l, q[..n], a, b - r.len)
  }

  /** Adding a range that starts where the last one ends, or extending that one. */
  function Added(q: seq<Range>, r: Range): seq<Range>
  {
    if |q| == 0 || q[|q| - 1].file != r.file then q + [r]
    else q[|q| - 1 := q[|q| - 1].(len := q[|q| - 1].len + r.len)]
  }

  lemma AddedCut(l: Layout, q: seq<Range>, a: int, b: int, r: Range)
    requires Cut(l, q, a, b)
    requires r.file < |l.files| && r.off >= 0 && r.len > 0 && r.off + r.len <= l.files[r.file].size
    requires l.files[r.file].off + r.off == b
    ensures Cut(l, Added(q, r), a, b + r.len)
  {
    var q' := Added(q, r);
    var n := |q'| - 1;
    if |q| == 0 || q[|q| - 1].file != r.file {
      assert q'[..n] == q;
    } else {
      assert q'[..n] == q[..n];
      assert n > 0 ==> q'[n - 1] == q[n - 1];
    }
  }

  /** What a server sends for a queue of ranges of the files of `torrent`. */
  function Served(l: Layout, q: seq<Range>, torrent: seq<Byte>): seq<Byte>
    decreases |q|
  {
    if q == [] then []
    else
      var r := q[|q| - 1];
      Served(l, q[..|q| - 1], torrent) +
      if r.file < |l.files| && 0 <= l.files[r.file].off + r.off <= l.files[r.file].off + r.off + r.len <= |torrent|
      then torrent[l.files[r.file].off + r.off..l.files[r.file].off + r.off + r.len]
      else []
  }

  /** For ranges cut from `a` to `b` that is the torrent from `a` to `b`. */
  lemma {:induction false} ServedIsTheTorrent(l: Layout, q: seq<Range>, a: int, b: int, torrent: seq<Byte>)
    requires l.Valid() && |torrent| == l.total && 0 <= a <= l.total && Cut(l, q, a, b)
    ensures a <= b <= l.total && Served(l, q, torrent) == torrent[a..b]
    decreases |q|
  {
    if q != [] {
      var r := q[|q| - 1];
      FileEnds(l, r.file);
      ServedIsTheTorrent(l, q[..|q| - 1], a, b - r.len, torrent);
      assert torrent[a..b] == torrent[a..b - r.len] + torrent[b - r.len..b];
    }
  }

  lemma FileEnds(l: Layout, i: nat)
    requires l.Valid() && i < |l.files|
    ensures l.files[i].End() <= l.total
  {
    OffsetsGrow(l, i, |l.files| - 1);
  }

  /** The byte belongs to a chunk that is not complete. */
  ghost predicate Wanted(l: Layout, onDisk: set<nat>, p: int)
  {
    exists c: nat :: InChunk(l, c, p) && c !in onDisk
  }

  /** What has been written lies between `a` and `b`, and each byte is where it belongs: byte k of
      the stream at position a + k. Nothing was written to chunks that were complete from the
      start, and everything to chunks that still are not. */
  ghost predicate AllKept(l: Layout, initial: set<nat>, onDisk: set<nat>, a: int, b: int, stream: seq<Byte>, written: map<int, Byte>)
  {
    && b - a <= |stream|
    && (forall p :: p in written ==> a <= p < b && written[p] == stream[p - a] && Wanted(l, initial, p))
    && forall p :: a <= p < b && Wanted(l, onDisk, p) ==> p in written
  }

  lemma StreamGrows(l: Layout, initial: set<nat>, onDisk: set<nat>, a: int, b: int, stream: seq<Byte>, more: seq<Byte>, written: map<int, Byte>)
    requires AllKept(l, initial, onDisk, a, b, stream, written)
    ensures AllKept(l, initial, onDisk, a, b, stream + more, written)
  {
    hide Wanted;
  }

  /** A chunk may become complete at any time. */
  lemma DiskGrows(l: Layout, initial: set<nat>, onDisk: set<nat>, a: int, b: int, stream: seq<Byte>, written: map<int, Byte>, c: nat)
    requires AllKept(l, initial, onDisk, a, b, stream, written)
    ensures AllKept(l, initial, onDisk + {c}, a, b, stream, written)
  {
    hide InChunk;
  }

  /** What the bytes of one more chunk add: all of them, if the chunk is not complete, or nothing. */
  function Keep(onDisk: set<nat>, written: map<int, Byte>, at: int, c: nat, data: seq<Byte>): map<int, Byte>
  {
    if c in onDisk then written else Put(written, at, data)
  }

  /** More bytes of one chunk. */
  lemma KeepsMore(l: Layout, initial: set<nat>, onDisk: set<nat>, a: int, b: int, stream: seq<Byte>, written: map<int, Byte>, c: nat, data: seq<Byte>)
    requires l.Valid() && AllKept(l, initial, onDisk, a, b, stream, written) && a <= b && initial <= onDisk
    requires b - a + |data| <= |stream| && data == stream[b - a..b - a + |data|]
    requires forall p :: b <= p < b + |data| ==> InChunk(l, c, p)
    ensures AllKept(l, initial, onDisk, a, b + |data|, stream, Keep(onDisk, written, b, c, data))
    ensures NewBytes(l, onDisk, b, b + |data|, written, Keep(onDisk, written, b, c, data))
  {
    hide InChunk, Put, Wanted;
    var written' := Keep(onDisk, written, b, c, data);
    forall p: int
      ensures p in written' <==> p in written || (b <= p < b + |data| && Wanted(l, onDisk, p))
      ensures p in written' ==> a <= p < b + |data| && written'[p] == stream[p - a] && Wanted(l, initial, p)
    {
      PutAt(written, b, data, p);
      if b <= p < b + |data| {
        assert InChunk(l, c, p);
        OneChunk(l, onDisk, c, p);
        OneChunk(l, initial, c, p);
      }
    }
  }

  /** Of the positions from `b` to `b'` exactly those were written whose chunk was not complete. */
  ghost predicate NewBytes(l: Layout, onDisk: set<nat>, b: int, b': int, written: map<int, Byte>, written': map<int, Byte>)
  {
    forall p :: p in written' <==> p in written || (b <= p < b' && Wanted(l, onDisk, p))
  }

  lemma NewBytesAdd(l: Layout, onDisk: set<nat>, b: int, b': int, b'': int, w: map<int, Byte>, w': map<int, Byte>, w'': map<int, Byte>)
    requires b <= b' <= b'' && NewBytes(l, onDisk, b, b', w, w') && NewBytes(l, onDisk, b', b'', w', w'')
    ensures NewBytes(l, onDisk, b, b'', w, w'')
  {
    hide Wanted;
  }

  lemma OneChunk(l: Layout, onDisk: set<nat>, c: nat, p: int)
    requires l.Valid() && InChunk(l, c, p)
    ensures Wanted(l, onDisk, p) <==> c !in onDisk
  {
    hide InChunk, Layout.Valid;
    if Wanted(l, onDisk, p) {
      var d: nat :| InChunk(l, d, p) && d !in onDisk;
      ChunksAreDisjoint(l, c, d, p);
    }
  }

  /** The chunks in [a, b) that are not on disk. */
  function Missing(onDisk: set<nat>, a: nat, b: nat): seq<nat>
    decreases b
  {
    if b <= a then [] else Missing(onDisk, a, b - 1) + if b - 1 in onDisk then [] else [b - 1]
  }

  /** Chunks reported as complete, in order: none that was complete from the start, and all that
      still are not complete otherwise. */
  ghost predicate Reported(ready: seq<nat>, initial: set<nat>, onDisk: set<nat>, a: nat, b: nat)
  {
    && (forall i :: 0 <= i < |ready| ==> a <= ready[i] < b && ready[i] !in initial)
    && (forall i, j :: 0 <= i < j < |ready| ==> ready[i] < ready[j])
    && forall c :: a <= c < b && c !in onDisk ==> c in ready
  }

  lemma ReportOne(ready: seq<nat>, initial: set<nat>, onDisk: set<nat>, a: nat, b: nat)
    requires Reported(ready, initial, onDisk, a, b) && a <= b && initial <= onDisk
    ensures Reported(if b in onDisk then ready else ready + [b], initial, onDisk, a, b + 1)
  {
    var ready' := if b in onDisk then ready else ready + [b];
    forall c | a <= c < b + 1 && c !in onDisk ensures c in ready' {
      if c == b {
        assert ready'[|ready|] == b;
      }
    }
  }

  class WebSeed {
    const layout: Layout
    /** Chunks that are complete; their bytes are skipped. */
    var onDisk: set<nat>
    var rangeQueue: seq<Range>
    var firstChunk: nat
    var lastChunk: nat
    var curChunk: nat
    var bytesOfCurChunk: nat
    /** What has been written to chunks, by torrent position, and the chunks reported as complete. */
    var written: map<int, Byte>
    var ready: seq<nat>

    /** Everything received since the download of firstChunk to lastChunk began. */
    ghost var stream: seq<Byte>
    /** The chunks that were complete then. */
    ghost var initial: set<nat>

    ghost predicate Valid()
      reads this
    {
      && layout.Valid() && layout.HasChunk(lastChunk)
      && firstChunk <= curChunk <= lastChunk + 1 && firstChunk <= lastChunk
      && (curChunk > lastChunk ==> bytesOfCurChunk == 0)
      && (curChunk <= lastChunk ==> layout.ChunkStart(curChunk) + bytesOfCurChunk < layout.ChunkEnd(curChunk))
      && initial <= onDisk
      && AllKept(layout, initial, onDisk, layout.ChunkStart(firstChunk), Position(), stream, written)
      && (curChunk <= lastChunk ==> Position() - layout.ChunkStart(firstChunk) == |stream|)
      && Reported(ready, initial, onDisk, firstChunk, curChunk)
    }

    /** The torrent position of the next byte. */
    ghost function Position(): int
      reads this
    {
      if curChunk <= lastChunk then layout.ChunkStart(curChunk) + bytesOfCurChunk else layout.ChunkEnd(lastChunk)
    }

    constructor (layout: Layout, onDisk: set<nat>, first: nat, last: nat)
      requires layout.Valid() && layout.HasChunk(last) && first <= last
      ensures Valid() && stream == [] && this.layout == layout && this.onDisk == onDisk == initial
      ensures firstChunk == first && lastChunk == last && rangeQueue == []
    {
      this.layout, this.onDisk := layout, onDisk;
      rangeQueue, firstChunk, lastChunk, curChunk, bytesOfCurChunk := [], first, last, first, 0;
      written, ready, stream, initial := map[], [], [], onDisk;
      new;
      EarlierChunk(layout, first, last);
      ChunkBounds(layout, first);
    }

    /** Another source completes a chunk. */
    method ChunkFinished(c: nat)
      requires Valid()
      modifies this`onDisk
      ensures Valid() && onDisk == old(onDisk) + {c}
    {
      hide Layout.ChunkStart, Layout.ChunkEnd, Layout.Valid, Layout.HasChunk, AllKept;
      DiskGrows(layout, initial, onDisk, layout.ChunkStart(firstChunk), Position(), stream, written, c);
      onDisk := onDisk + {c};
    }

    /** If the server answers the ranges of this download with the bytes of the torrent, then only
        those are written, each at its own place; and once the last chunk is passed, every chunk
        that nobody else has completed has been written and reported. */
    lemma DownloadsTheTorrent(ranges: seq<Range>, torrent: seq<Byte>)
      requires Valid() && |torrent| == layout.total
      requires Cut(layout, ranges, layout.ChunkStart(firstChunk), layout.ChunkEnd(lastChunk))
      requires stream <= Served(layout, ranges, torrent)
      ensures forall p :: p in written ==> 0 <= p < |torrent| && written[p] == torrent[p] && Wanted(layout, initial, p)
      ensures curChunk > lastChunk ==> forall c: nat :: firstChunk <= c <= lastChunk && c !in onDisk ==> c in ready
      ensures curChunk > lastChunk ==> forall c: nat, p ::
        firstChunk <= c <= lastChunk && c !in onDisk && InChunk(layout, c, p) ==> p in written
    {
      hide Layout.ChunkStart, Layout.ChunkEnd, Layout.Valid, Cut, Served, Wanted, Layout.HasChunk;
      var a, b := layout.ChunkStart(firstChunk), layout.ChunkEnd(lastChunk);
      EarlierChunk(layout, firstChunk, lastChunk);
      StartsInside(layout, firstChunk);
      ServedIsTheTorrent(layout, ranges, a, b, torrent);
      assert forall p :: p in written ==> stream[p - a] == torrent[a..b][p - a];
      if curChunk > lastChunk {
        forall c: nat, p | firstChunk <= c <= lastChunk && c !in onDisk && InChunk(layout, c, p) ensures p in written {
          ChunkStartsGrow(layout, firstChunk, c);
          EndsGrow(layout, c, lastChunk);
          OneChunk(layout, onDisk, c, p);
        }
      }
    }

    /** Appends the ranges of one more chunk. */
    method FillRangeList(chunk: nat, ghost a: int)
      requires layout.Valid() && layout.HasChunk(chunk) && Cut(layout, rangeQueue, a, layout.ChunkStart(chunk))
      modifies this`rangeQueue
      ensures Cut(layout, rangeQueue, a, layout.ChunkEnd(chunk))
    {
      hide Layout.ChunkStart, Layout.ChunkEnd, PartSize, PartOffset, Cut, Cover, Layout.Valid, AtFile, Added;
      var tflist := layout.FilesOf(chunk);
      AtFirstFile(layout, chunk);
      var passed: nat := 0;
      for i := 0 to |tflist|
        invariant AtFile(layout, chunk, tflist, i, passed)
        invariant Cut(layout, rangeQueue, a, layout.ChunkStart(chunk) + passed)
      {
        AtNextFile(layout, chunk, tflist, i, passed);
        var r := Range(tflist[i], PartOffset(layout, chunk, tflist, i), PartSize(layout, chunk, tflist, i, passed));
        RangeIs(layout, chunk, tflist, i, passed);
        AddedCut(layout, rangeQueue, a, layout.ChunkStart(chunk) + passed, r);
        rangeQueue := Added(rangeQueue, r);
        passed := passed + r.len;
      }
      AtEnd(layout, chunk, tflist, passed);
    }

    /** The ranges to ask for, for all chunks of a download. */
    method FillRanges()
      requires layout.Valid() && layout.HasChunk(lastChunk) && firstChunk <= lastChunk
      modifies this`rangeQueue
      ensures Cut(layout, rangeQueue, layout.ChunkStart(firstChunk), layout.ChunkEnd(lastChunk))
    {
      hide Layout.ChunkStart, Layout.ChunkEnd, Cut, Layout.Valid;
      rangeQueue := [];
      NoRanges(layout, layout.ChunkStart(firstChunk));
      var i := firstChunk;
      while i <= lastChunk
        invariant firstChunk <= i <= lastChunk + 1
        invariant Cut(layout, rangeQueue, layout.ChunkStart(firstChunk),
                      if i <= lastChunk then layout.ChunkStart(i) else layout.ChunkEnd(lastChunk))
      {
        EarlierChunk(layout, i, lastChunk);
        FillRangeList(i, layout.ChunkStart(firstChunk));
        i := i + 1;
      }
    }

    /** Takes in the next part of the response: writes exactly those of its bytes whose chunks are
        not complete now, and reports these chunks when they end. */
    method HandleData(tmp: seq<Byte>)
      requires Valid()
      modifies this`curChunk, this`bytesOfCurChunk, this`written, this`ready, this`stream
      ensures Valid() && stream == old(stream) + tmp
      ensures Position() == Min(old(Position()) + |tmp|, layout.ChunkEnd(lastChunk))
      ensures NewBytes(layout, onDisk, old(Position()), Position(), old(written), written)
      ensures ready == old(ready) + Missing(onDisk, old(curChunk), curChunk)
    {
      hide Layout.ChunkStart, Layout.ChunkEnd, Layout.Valid, Layout.HasChunk, Put, AllKept, NewBytes, Reported;
      var off := 0;
      ghost var s, start := stream, layout.ChunkStart(firstChunk);
      stream := s + tmp;
      StreamGrows(layout, initial, onDisk, start, Position(), s, tmp, written);
      NothingNew(layout, onDisk, Position(), written);
      while off < |tmp| && curChunk <= lastChunk
        invariant off <= |tmp| && stream == s + tmp
        invariant layout.Valid() && layout.HasChunk(lastChunk) && firstChunk <= old(curChunk) <= curChunk <= lastChunk + 1
        invariant curChunk > lastChunk ==> bytesOfCurChunk == 0
        invariant curChunk <= lastChunk ==> layout.ChunkStart(curChunk) + bytesOfCurChunk < layout.ChunkEnd(curChunk)
        invariant Position() == old(Position()) + off
        invariant old(curChunk <= lastChunk) ==> Position() - start == |s| + off
        invariant AllKept(layout, initial, onDisk, start, Position(), stream, written)
        invariant NewBytes(layout, onDisk, old(Position()), Position(), old(written), written)
        invariant Reported(ready, initial, onDisk, firstChunk, curChunk)
        invariant ready == old(ready) + Missing(onDisk, old(curChunk), curChunk)
        decreases |tmp| - off
      {
        ghost var b, w, r, c := Position(), written, ready, curChunk;
        off := Advance(tmp, off, s);
        NewBytesAdd(layout, onDisk, old(Position()), b, Position(), old(written), w, written);
        assert ready == old(ready) + (Missing(onDisk, old(curChunk), c) + Missing(onDisk, c, curChunk));
      }
      if curChunk <= lastChunk {
        EndsGrow(layout, curChunk, lastChunk);
      }
    }

    /** One turn of the loop: as much as the current chunk still takes. */
    method Advance(tmp: seq<Byte>, off: nat, ghost s: seq<Byte>) returns (off': nat)
      requires layout.Valid() && layout.HasChunk(lastChunk) && firstChunk <= curChunk <= lastChunk
      requires off < |tmp| && stream == s + tmp && initial <= onDisk
      requires layout.ChunkStart(curChunk) + bytesOfCurChunk < layout.ChunkEnd(curChunk)
      requires Position() - layout.ChunkStart(firstChunk) == |s| + off
      requires AllKept(layout, initial, onDisk, layout.ChunkStart(firstChunk), Position(), stream, written)
      requires Reported(ready, initial, onDisk, firstChunk, curChunk)
      modifies this`curChunk, this`bytesOfCurChunk, this`written, this`ready
      ensures off < off' <= |tmp| && Position() == old(Position()) + (off' - off)
      ensures old(curChunk) <= curChunk <= lastChunk + 1 && curChunk <= old(curChunk) + 1
      ensures curChunk > lastChunk ==> bytesOfCurChunk == 0
      ensures curChunk <= lastChunk ==> layout.ChunkStart(curChunk) + bytesOfCurChunk < layout.ChunkEnd(curChunk)
      ensures AllKept(layout, initial, onDisk, layout.ChunkStart(firstChunk), Position(), stream, written)
      ensures NewBytes(layout, onDisk, old(Position()), Position(), old(written), written)
      ensures Reported(ready, initial, onDisk, firstChunk, curChunk)
      ensures ready == old(ready) + Missing(onDisk, old(curChunk), curChunk)
    {
      hide Layout.ChunkStart, Layout.ChunkEnd, Layout.Valid, Layout.HasChunk, Put, AllKept, NewBytes, Reported;
      var c := curChunk;
      var start := layout.ChunkStart(c);
      var size := layout.ChunkEnd(c) - start;
      var bl := size - bytesOfCurChunk;
      if bl > |tmp| - off {
        bl := |tmp| - off;
      }
      var at := start + bytesOfCurChunk;
      var part := tmp[off..off + bl];
      ChunkStartsGrow(layout, firstChunk, c);
      KeepsMore(layout, initial, onDisk, layout.ChunkStart(firstChunk), at, stream, written, c, part);
      if c !in onDisk {
        written := Put(written, at, part);
      }
      off' := off + bl;
      bytesOfCurChunk := bytesOfCurChunk + bl;
      if bytesOfCurChunk == size {
        ReportOne(ready, initial, onDisk, firstChunk, c);
        bytesOfCurChunk := 0;
        curChunk := curChunk + 1;
        if c !in onDisk {
          ready := ready + [c];
        }
        if curChunk <= lastChunk {
          EarlierChunk(layout, c, lastChunk);
          EarlierChunk(layout, curChunk, lastChunk);
          ChunkBounds(layout, curChunk);
        }
      }
    }
  }

  lemma NothingNew(l: Layout, onDisk: set<nat>, b: int, written: map<int, Byte>)
    ensures NewBytes(l, onDisk, b, b, written, written)
  {
  }

  /** Chunks before one that exists exist and are followed at once by the next. */
  lemma EarlierChunk(l: Layout, c: nat, d: nat)
    requires l.Valid() && l.HasChunk(d) && c <= d
    ensures l.HasChunk(c)
    ensures c < d ==> l.ChunkEnd(c) == l.ChunkStart(c + 1)
  {
    ChunkStartsGrow(l, c, d);
    if c < d {
      ChunkStartsGrow(l, c + 1, d);
    }
  }

  lemma ChunkStartsGrow(l: Layout, c: nat, d: nat)
    requires c <= d
    ensures l.ChunkStart(c) <= l.ChunkStart(d)
  {
    MultiplesGrow(c, d, l.chunkSize);
  }

  lemma EndsGrow(l: Layout, c: nat, d: nat)
    requires l.Valid() && l.HasChunk(d) && c <= d
    ensures l.ChunkEnd(c) <= l.ChunkEnd(d)
  {
    hide Layout.ChunkStart, Layout.ChunkEnd, Layout.Valid;
    if c < d {
      EarlierChunk(l, c, d);
      ChunkStartsGrow(l, c + 1, d);
      ChunkBounds(l, d);
    }
  }

  lemma StartsInside(l: Layout, c: nat)
    requires l.Valid() && l.HasChunk(c)
    ensures 0 <= l.ChunkStart(c) <= l.total
  {
  }

  lemma NoRanges(l: Layout, a: int)
    ensures Cut(l, [], a, a)
  {
  }

  lemma RangeIs(l: Layout, c: nat, fl: seq<nat>, k: nat, passed: nat)
    requires l.Valid() && l.HasChunk(c) && k < |fl| && AtFile(l, c, fl, k, passed)
    ensures fl[k] < |l.files| && (k == 0 ==> l.files[fl[k]].firstChunk <= c)
    ensures var f, off, size := l.files[fl[k]], PartOffset(l, c, fl, k), PartSize(l, c, fl, k, passed);
            off >= 0 && off + size <= f.size && f.off + off == l.ChunkStart(c) + passed
  {
    hide Layout.ChunkStart, Layout.ChunkEnd, PartSize, PartOffset, Cover, Layout.Valid;
    PartIs(l, c, fl, k, passed);
    assert fl[k..][0] == fl[k];
    CoverEnds(l, fl[k..], l.ChunkStart(c) + passed, l.ChunkEnd(c));
  }
}

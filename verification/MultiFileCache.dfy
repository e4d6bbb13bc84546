/** src/diskio/multifilecache.cpp and src/diskio/dndfile.cpp: pieces are scattered over the files
    of a torrent, some of which are kept only as the two border areas of a "do not download"
    file. For the caller it is one array of bytes. */
module MultiFileCaches {
  import opened Common
  import opened TorrentLayouts

  /** sizeof(DNDFileHeader) */
  const DND_HEADER: nat := 32

  /** What is on disk for one torrent file; a file holds the bytes written to it so far. */
  datatype Backing = Backing(dnd: bool, bytes: map<int, Byte>)

  type Store = seq<Backing>

  /** The size of the first area of a DND file. */
  function FirstSize(l: Layout, i: nat): int
    requires i < |l.files|
  {
    l.chunkSize - l.files[i].firstChunkOff
  }

  predicate InFile(l: Layout, i: nat, p: int)
  {
    i < |l.files| && l.files[i].off <= p < l.files[i].End()
  }

  predicate InChunk(l: Layout, c: nat, p: int)
  {
    l.ChunkStart(c) <= p < l.ChunkEnd(c)
  }

  /** Chunks that createPiece gives a buffer for: they touch several files, or their only file is on disk. */
  predicate Storable(l: Layout, s: Store, c: nat)
  {
    var fl := l.FilesOf(c);
    |fl| > 1 || (|fl| == 1 && fl[0] < |s| && !s[fl[0]].dnd)
  }

  /** Where in file `i` byte `p` of the torrent is kept, if it belongs to chunk `c`. */
  function Slot(l: Layout, dnd: bool, i: nat, c: nat, p: int): int
    requires i < |l.files|
  {
    if !dnd then p - l.files[i].off
    else if l.files[i].off <= l.ChunkStart(c) then DND_HEADER + FirstSize(l, i) + (p - l.ChunkStart(c))
    else DND_HEADER + (p - l.files[i].off)
  }

  /** The files hold the bytes of `flat`. */
  ghost predicate Holds(l: Layout, s: Store, flat: map<int, Byte>)
  {
    && |s| == |l.files|
    && (forall p :: p in flat ==> exists c: nat :: InChunk(l, c, p) && Storable(l, s, c))
    && forall p, i: nat, c: nat :: p in flat && InFile(l, i, p) && InChunk(l, c, p) ==>
         var slot := Slot(l, s[i].dnd, i, c, p);
         slot in s[i].bytes && s[i].bytes[slot] == flat[p]
  }

  /** Writing consecutive bytes. */
  function Put(m: map<int, Byte>, at: int, data: seq<Byte>): map<int, Byte>
    decreases |data|
  {
    if data == [] then m
    else Put(m, at, data[..|data| - 1])[at + |data| - 1 := data[|data| - 1]]
  }

  lemma {:induction false} PutAt(m: map<int, Byte>, at: int, data: seq<Byte>, p: int)
    ensures at <= p < at + |data| ==> p in Put(m, at, data) && Put(m, at, data)[p] == data[p - at]
    ensures !(at <= p < at + |data|) ==> (p in Put(m, at, data) <==> p in m) && (p in m ==> Put(m, at, data)[p] == m[p])
    decreases |data|
  {
    if data != [] {
      PutAt(m, at, data[..|data| - 1], p);
    }
  }

  /** Writing in two steps. */
  lemma PutTwice(m: map<int, Byte>, at: int, data: seq<Byte>, n: nat, k: nat)
    requires n + k <= |data|
    ensures Put(Put(m, at, data[..n]), at + n, data[n..n + k]) == Put(m, at, data[..n + k])
  {
    hide Put;
    var a, b := Put(Put(m, at, data[..n]), at + n, data[n..n + k]), Put(m, at, data[..n + k]);
    forall p: int ensures (p in a <==> p in b) && (p in b ==> a[p] == b[p]) {
      PutAt(m, at, data[..n], p);
      PutAt(Put(m, at, data[..n]), at + n, data[n..n + k], p);
      PutAt(m, at, data[..n + k], p);
    }
  }

  // ----- Different bytes are kept in different places

  lemma FilesAreDisjoint(l: Layout, i: nat, j: nat, p: int)
    requires l.Valid() && InFile(l, i, p) && InFile(l, j, p)
    ensures i == j
  {
    if i < j {
      OffsetsGrow(l, i, j);
    } else if j < i {
      OffsetsGrow(l, j, i);
    }
  }

  lemma ChunksAreOrdered(l: Layout, c: nat, d: nat)
    requires c < d
    ensures l.ChunkEnd(c) <= l.ChunkStart(d)
  {
    MultiplesGrow(c + 1, d, l.chunkSize);
  }

  lemma ChunksAreDisjoint(l: Layout, c: nat, d: nat, p: int)
    requires l.Valid() && InChunk(l, c, p) && InChunk(l, d, p)
    ensures c == d
  {
    hide Layout.ChunkStart, Layout.ChunkEnd;
    if c < d {
      ChunksAreOrdered(l, c, d);
    } else if d < c {
      ChunksAreOrdered(l, d, c);
    }
  }

  /** A chunk that a file shares with others and that starts in it is the last of the file. */
  lemma {:induction false} BorderChunk(l: Layout, c: nat, i: nat, p: int)
    requires l.Valid() && InFile(l, i, p) && InChunk(l, c, p) && |l.FilesOf(c)| > 1
    ensures l.files[i].off <= l.ChunkStart(c) ==> l.files[i].End() <= l.ChunkEnd(c)
  {
    hide Cover;
    ChunkBounds(l, c);
    var f := l.files[i];
    assert f == MakeFile(f.off, f.size, l.chunkSize);
    if f.off <= l.ChunkStart(c) {
      ChunkIsCovered(l, c);
      FirstEndsInside(l, c);
      var z := l.FilesOf(c)[0];
      assert InFile(l, z, l.ChunkStart(c));
      assert InFile(l, i, l.ChunkStart(c));
      FilesAreDisjoint(l, i, z, l.ChunkStart(c));
    }
  }

  lemma FirstEndsInside(l: Layout, c: nat)
    requires l.Valid() && l.HasChunk(c) && |l.FilesOf(c)| > 1
    ensures var z := l.FilesOf(c)[0];
            InFile(l, z, l.ChunkStart(c)) && l.files[z].End() < l.ChunkEnd(c)
  {
    ChunkIsCovered(l, c);
  }

  lemma StartsInChunk(off: nat, d: nat, c: nat)
    requires d > 0 && c * d <= off < (c + 1) * d
    ensures off % d == off - c * d
  {
    DivideOrder(off, d, c);
    DivideOrder(off, d, c + 1);
    assert off / d == c;
  }

  /** In a DND file exactly those bytes share a place that have the same offset in two chunks
      that both start in the file. */
  lemma SharedPlaces(l: Layout, i: nat, p: int, c: nat, q: int, d: nat)
    requires l.Valid() && InFile(l, i, p) && InFile(l, i, q) && InChunk(l, c, p) && InChunk(l, d, q)
    ensures Slot(l, true, i, c, p) == Slot(l, true, i, d, q) <==>
              || p == q
              || (c != d && l.files[i].off <= l.ChunkStart(c) && l.files[i].off <= l.ChunkStart(d)
                  && p - l.ChunkStart(c) == q - l.ChunkStart(d))
  {
    hide Layout.ChunkStart, Layout.ChunkEnd, Layout.Valid;
    FirstArea(l, c, i, p);
    FirstArea(l, d, i, q);
    if p == q {
      ChunksAreDisjoint(l, c, d, p);
    }
  }

  /** A chunk that starts before the file meets it in the first area. */
  lemma FirstArea(l: Layout, c: nat, i: nat, p: int)
    requires l.Valid() && InFile(l, i, p) && InChunk(l, c, p)
    ensures l.files[i].off > l.ChunkStart(c) ==> p - l.files[i].off < FirstSize(l, i)
  {
    ChunkBounds(l, c);
    var f := l.files[i];
    assert f == MakeFile(f.off, f.size, l.chunkSize);
    if f.off > l.ChunkStart(c) {
      StartsInChunk(f.off, l.chunkSize, c);
    }
  }

  /** The two areas of a DND file: after the header, the part of its first chunk, and then the part
      of its last chunk, each from its beginning. */
  lemma AreasOfDndFile(l: Layout, c: nat, i: nat, p: int)
    requires l.Valid() && InFile(l, i, p) && InChunk(l, c, p) && |l.FilesOf(c)| > 1
    ensures var f, slot := l.files[i], Slot(l, true, i, c, p);
            if f.off > l.ChunkStart(c)
            then 32 <= slot < 32 + FirstSize(l, i) && slot - 32 == p - f.off
            else 32 + FirstSize(l, i) <= slot < 32 + FirstSize(l, i) + f.lastChunkSize
                 && slot - 32 - FirstSize(l, i) == p - l.ChunkStart(c)
  {
    hide Layout.FilesOf;
    FirstArea(l, c, i, p);
    BorderChunk(l, c, i, p);
    ChunkBounds(l, c);
    var f := l.files[i];
    assert f == MakeFile(f.off, f.size, l.chunkSize);
    if f.off <= l.ChunkStart(c) {
      NextMultiple(c, l.chunkSize);
      LastChunkSizeMeans(f.off, f.size, l.chunkSize, c);
    }
  }

  /** Bytes of chunks that can be stored have places of their own. */
  lemma SlotsAreDistinct(l: Layout, s: Store, i: nat, p: int, c: nat, q: int, d: nat)
    requires l.Valid() && |s| == |l.files| && InFile(l, i, p) && InFile(l, i, q)
    requires InChunk(l, c, p) && InChunk(l, d, q) && Storable(l, s, c) && Storable(l, s, d)
    requires p != q
    ensures Slot(l, s[i].dnd, i, c, p) != Slot(l, s[i].dnd, i, d, q)
  {
    hide Layout.FilesOf, Layout.ChunkStart, Layout.ChunkEnd, Layout.Valid, Storable;
    if s[i].dnd {
      SharedChunk(l, s, c, i, p);
      SharedChunk(l, s, d, i, q);
      BorderChunk(l, c, i, p);
      BorderChunk(l, d, i, q);
      SharedPlaces(l, i, p, c, q, d);
      if l.files[i].off <= l.ChunkStart(c) && l.files[i].off <= l.ChunkStart(d) {
        SameLastChunk(l, i, c, p, d, q);
      }
    }
  }

  lemma SameLastChunk(l: Layout, i: nat, c: nat, p: int, d: nat, q: int)
    requires l.Valid() && InFile(l, i, p) && InFile(l, i, q) && InChunk(l, c, p) && InChunk(l, d, q)
    requires l.files[i].End() <= l.ChunkEnd(c) && l.files[i].End() <= l.ChunkEnd(d)
    ensures c == d
  {
    hide Layout.ChunkStart, Layout.ChunkEnd;
    if c < d {
      ChunksAreOrdered(l, c, d);
    } else if d < c {
      ChunksAreOrdered(l, d, c);
    }
  }

  /** A byte of a DND file that can be stored lies in a chunk shared with other files. */
  lemma SharedChunk(l: Layout, s: Store, c: nat, i: nat, p: int)
    requires l.Valid() && |s| == |l.files| && InFile(l, i, p) && InChunk(l, c, p) && Storable(l, s, c) && s[i].dnd
    ensures |l.FilesOf(c)| > 1
  {
    ChunkBounds(l, c);
    ChunkIsCovered(l, c);
    if |l.FilesOf(c)| == 1 {
      FilesAreDisjoint(l, i, l.FilesOf(c)[0], p);
    }
  }

  // ----- One write

  /** Writing bytes of one chunk into one file keeps everything else. */
  lemma WriteHolds(l: Layout, s: Store, flat: map<int, Byte>, c: nat, i: nat, a: int, data: seq<Byte>)
    requires l.Valid() && Holds(l, s, flat) && i < |s| && Storable(l, s, c) && |data| > 0
    requires InFile(l, i, a) && InChunk(l, c, a) && InFile(l, i, a + |data| - 1) && InChunk(l, c, a + |data| - 1)
    ensures Holds(l, Written(s, i, Slot(l, s[i].dnd, i, c, a), data), Put(flat, a, data))
  {
    hide Storable, Layout.ChunkStart, Layout.ChunkEnd, Put, Slot;
    var at := Slot(l, s[i].dnd, i, c, a);
    var s', flat' := Written(s, i, at, data), Put(flat, a, data);
    forall p | p in flat' ensures exists d: nat :: InChunk(l, d, p) && Storable(l, s', d) {
      PutAt(flat, a, data, p);
      if a <= p < a + |data| {
        SameKinds(l, s, s', c);
      } else {
        var d: nat :| InChunk(l, d, p) && Storable(l, s, d);
        SameKinds(l, s, s', d);
      }
    }
    forall p, j: nat, d: nat | p in flat' && InFile(l, j, p) && InChunk(l, d, p)
      ensures var slot := Slot(l, s'[j].dnd, j, d, p); slot in s'[j].bytes && s'[j].bytes[slot] == flat'[p]
    {
      WriteKeeps(l, s, flat, c, i, a, data, p, j, d);
    }
  }

  function Written(s: Store, i: nat, at: int, data: seq<Byte>): Store
    requires i < |s|
  {
    s[i := s[i].(bytes := Put(s[i].bytes, at, data))]
  }

  lemma SameKinds(l: Layout, s: Store, s': Store, c: nat)
    requires |s| == |s'| == |l.files| && forall i :: 0 <= i < |s| ==> s[i].dnd == s'[i].dnd
    ensures Storable(l, s, c) <==> Storable(l, s', c)
  {
  }

  lemma SlotsAreConsecutive(l: Layout, dnd: bool, i: nat, c: nat, a: int, p: int)
    requires i < |l.files|
    ensures Slot(l, dnd, i, c, p) == Slot(l, dnd, i, c, a) + (p - a)
  {
  }

  lemma WriteKeeps(l: Layout, s: Store, flat: map<int, Byte>, c: nat, i: nat, a: int, data: seq<Byte>, p: int, j: nat, d: nat)
    requires l.Valid() && Holds(l, s, flat) && i < |s| && Storable(l, s, c) && |data| > 0
    requires InFile(l, i, a) && InChunk(l, c, a) && InFile(l, i, a + |data| - 1) && InChunk(l, c, a + |data| - 1)
    requires p in Put(flat, a, data) && InFile(l, j, p) && InChunk(l, d, p)
    ensures var at := Slot(l, s[i].dnd, i, c, a);
            var s' := Written(s, i, at, data);
            var slot := Slot(l, s'[j].dnd, j, d, p);
            slot in s'[j].bytes && s'[j].bytes[slot] == Put(flat, a, data)[p]
  {
    hide Storable, Layout.ChunkStart, Layout.ChunkEnd, Put, Slot;
    var at := Slot(l, s[i].dnd, i, c, a);
    var slot := Slot(l, s[j].dnd, j, d, p);
    PutAt(flat, a, data, p);
    if a <= p < a + |data| {
      FilesAreDisjoint(l, i, j, p);
      ChunksAreDisjoint(l, c, d, p);
      SlotsAreConsecutive(l, s[i].dnd, i, c, a, p);
      PutAt(s[i].bytes, at, data, slot);
    } else if i == j {
      PutAt(s[i].bytes, at, data, slot);
      if at <= slot < at + |data| {
        var q := a + (slot - at);
        SlotsAreConsecutive(l, s[i].dnd, i, c, a, q);
        var d': nat :| InChunk(l, d', p) && Storable(l, s, d');
        ChunksAreDisjoint(l, d, d', p);
        SlotsAreDistinct(l, s, i, p, d, q, c);
      }
    }
  }

  // ----- Pieces

  /** The part of a piece that lies in the current file: its place in the file and its length.
      Offsets of the piece and of the file's part of the chunk are relative to the chunk. */
  function CalculateOffsetAndLength(pieceOff: nat, pieceLen: nat, fileOff: int, chunkOff: nat, chunkLen: nat): (int, int)
  {
    if pieceOff >= chunkOff && pieceOff + pieceLen <= chunkOff + chunkLen then
      (fileOff + (pieceOff - chunkOff), pieceLen)
    else if pieceOff >= chunkOff && pieceOff < chunkOff + chunkLen then
      (fileOff + (pieceOff - chunkOff), chunkLen - (pieceOff - chunkOff))
    else if pieceOff < chunkOff && pieceOff + pieceLen > chunkOff && pieceOff + pieceLen <= chunkOff + chunkLen then
      (fileOff, pieceLen - (chunkOff - pieceOff))
    else if chunkOff >= pieceOff && chunkOff + chunkLen < pieceOff + pieceLen then
      (fileOff, chunkLen)
    else (0, 0)
  }

  /** It is the intersection of the two. */
  lemma SegmentIsIntersection(pieceOff: nat, pieceLen: nat, fileOff: int, chunkOff: nat, chunkLen: nat)
    requires !(pieceOff + pieceLen <= chunkOff || pieceOff >= chunkOff + chunkLen)
    ensures var lo, hi := Max(pieceOff, chunkOff), Min(pieceOff + pieceLen, chunkOff + chunkLen);
            CalculateOffsetAndLength(pieceOff, pieceLen, fileOff, chunkOff, chunkLen) == (fileOff + lo - chunkOff, hi - lo)
  {
  }

  /** How much of a piece lies before offset `x` of its chunk. */
  function Done(off: nat, len: nat, x: nat): nat
  {
    if x <= off then 0 else if x >= off + len then len else x - off
  }

  /** The offset in the backing file; the first file of a chunk is a DND file's last area. */
  function DiskOffset(l: Layout, dnd: bool, i: nat, first: bool, fileOff: int, at: int): int
    requires i < |l.files|
  {
    if !dnd then at
    else if first then DND_HEADER + FirstSize(l, i) + (at - fileOff)
    else DND_HEADER + at
  }

  /** Where the loops of savePiece and loadPiece stand before the k-th file of the chunk. */
  ghost predicate AtFile(l: Layout, c: nat, fl: seq<nat>, k: nat, chunkOff: nat)
  {
    && k <= |fl| && (k == 0 ==> chunkOff == 0) && (k > 0 ==> chunkOff > 0)
    && (k < |fl| ==> Cover(l, fl[k..], l.ChunkStart(c) + chunkOff, l.ChunkEnd(c)))
    && (0 < k < |fl| ==> fl[k] < |l.files| && l.files[fl[k]].off == l.ChunkStart(c) + chunkOff)
    && (k == |fl| ==> l.ChunkStart(c) + chunkOff == l.ChunkEnd(c))
  }

  lemma AtFirstFile(l: Layout, c: nat)
    requires l.Valid() && l.HasChunk(c)
    ensures AtFile(l, c, l.FilesOf(c), 0, 0) && |l.FilesOf(c)| > 0
  {
    ChunkIsCovered(l, c);
    assert l.FilesOf(c)[0..] == l.FilesOf(c);
  }

  /** One turn of the loop. */
  lemma AtNextFile(l: Layout, c: nat, fl: seq<nat>, k: nat, chunkOff: nat)
    requires l.Valid() && l.HasChunk(c) && k < |fl| && AtFile(l, c, fl, k, chunkOff)
    ensures fl[k] < |l.files| && (k == 0 ==> l.files[fl[k]].firstChunk <= c)
    ensures var size := PartSize(l, c, fl, k, chunkOff);
            && size > 0 && AtFile(l, c, fl, k + 1, chunkOff + size)
            && l.ChunkStart(c) + chunkOff + size <= l.ChunkEnd(c)
  {
    hide Layout.ChunkStart, Layout.ChunkEnd, PartSize, PartOffset, Cover, Layout.Valid;
    PartIs(l, c, fl, k, chunkOff);
    assert fl[k..][0] == fl[k];
    CoverEnds(l, fl[k..], l.ChunkStart(c) + chunkOff, l.ChunkEnd(c));
  }

  /** The byte at offset `x` of the chunk, if it lies in the k-th file, and the place where it is kept. */
  lemma PlaceIs(l: Layout, c: nat, fl: seq<nat>, k: nat, chunkOff: nat, x: nat, dnd: bool)
    requires l.Valid() && l.HasChunk(c) && k < |fl| && AtFile(l, c, fl, k, chunkOff)
    requires fl[k] < |l.files| && (k == 0 ==> l.files[fl[k]].firstChunk <= c)
    requires chunkOff <= x < chunkOff + PartSize(l, c, fl, k, chunkOff)
    ensures InFile(l, fl[k], l.ChunkStart(c) + x) && InChunk(l, c, l.ChunkStart(c) + x)
    ensures var fileOff := PartOffset(l, c, fl, k);
            var disk := DiskOffset(l, dnd, fl[k], k == 0, fileOff, fileOff + x - chunkOff);
            && disk == Slot(l, dnd, fl[k], c, l.ChunkStart(c) + x)
            && (!dnd ==> 0 <= disk < l.files[fl[k]].size)
  {
    hide Layout.ChunkStart, Layout.ChunkEnd, PartSize, PartOffset, Cover, Layout.Valid;
    PartIs(l, c, fl, k, chunkOff);
    assert fl[k..][0] == fl[k];
    CoverEnds(l, fl[k..], l.ChunkStart(c) + chunkOff, l.ChunkEnd(c));
  }

  lemma {:induction false} CoverEnds(l: Layout, fl: seq<nat>, a: nat, b: nat)
    requires Cover(l, fl, a, b)
    ensures |fl| > 0 && fl[0] < |l.files| && l.files[fl[0]].off <= a && (|fl| > 1 ==> l.files[fl[0]].End() < b)
  {
  }

  class MultiFileCache {
    const layout: Layout
    var store: Store

    /** The torrent as the caller sees it: every byte saved so far. */
    ghost var flat: map<int, Byte>

    ghost predicate Valid()
      reads this
    {
      layout.Valid() && Holds(layout, store, flat)
    }

    /** A piece inside a chunk. */
    ghost predicate InBounds(c: nat, off: nat, length: nat)
    {
      layout.HasChunk(c) && layout.ChunkStart(c) + off + length <= layout.ChunkEnd(c)
    }

    /** Freshly opened: nothing has been saved. */
    constructor (layout: Layout, dnd: set<nat>)
      requires layout.Valid()
      ensures Valid() && this.layout == layout && flat == map[]
      ensures forall i :: 0 <= i < |store| ==> store[i].dnd == (i in dnd)
    {
      this.layout := layout;
      store := seq(|layout.files|, i => Backing(i in dnd, map[]));
      flat := map[];
    }

    method WriteFile(c: nat, fl: seq<nat>, k: nat, fileOff: int, chunkOff: nat, at: int, x: nat, part: seq<Byte>)
      requires Valid() && layout.HasChunk(c) && k < |fl| && AtFile(layout, c, fl, k, chunkOff) && Storable(layout, store, c)
      requires fl[k] < |layout.files| && (k == 0 ==> layout.files[fl[k]].firstChunk <= c)
      requires fileOff == PartOffset(layout, c, fl, k) && chunkOff <= x && at == fileOff + x - chunkOff
      requires x + |part| <= chunkOff + PartSize(layout, c, fl, k, chunkOff)
      modifies this
      ensures Valid() && flat == Put(old(flat), layout.ChunkStart(c) + x, part)
      ensures |store| == |old(store)| && forall i :: 0 <= i < |store| ==> store[i].dnd == old(store)[i].dnd
    {
      hide Layout.ChunkStart, Layout.ChunkEnd, PartSize, PartOffset, Storable, Cover, Layout.Valid, Holds, Slot, DiskOffset;
      var i := fl[k];
      AtNextFile(layout, c, fl, k, chunkOff);
      assert |store| == |layout.files| by { StoreSize(layout, store, flat); }
      ghost var a := layout.ChunkStart(c) + x;
      var disk := DiskOffset(layout, store[i].dnd, i, k == 0, fileOff, at);
      if |part| > 0 {
        PlaceIs(layout, c, fl, k, chunkOff, x, store[i].dnd);
        PlaceIs(layout, c, fl, k, chunkOff, x + |part| - 1, store[i].dnd);
        assert layout.ChunkStart(c) + (x + |part| - 1) == a + |part| - 1;
        // a regular file is never written past its size
        SlotsAreConsecutive(layout, store[i].dnd, i, c, a, a + |part| - 1);
        assert !store[i].dnd ==> disk + |part| <= layout.files[i].size;
        WriteHolds(layout, store, flat, c, i, a, part);
      } else {
        PutNothing(flat, a);
        PutNothing(store[i].bytes, disk);
        assert part == [] && Written(store, i, disk, []) == store;
      }
      store := Written(store, i, disk, part);
      flat := Put(flat, a, part);
    }

    /** Whether there can be a buffer for pieces of a chunk: not if its only file is not on disk. */
    method CreatePiece(c: nat) returns (created: bool)
      requires Valid() && layout.HasChunk(c)
      ensures created <==> Storable(layout, store, c)
    {
      hide Layout.ChunkStart, Layout.ChunkEnd, Cover, Holds;
      ChunkIsCovered(layout, c);
      StoreSize(layout, store, flat);
      FirstFile(layout, c);
      var tflist := Take(layout.FilesOf(c), 2);
      if |tflist| == 1 && store[tflist[0]].dnd {
        return false;
      }
      return true;
    }

    /** A piece is prepared, filled by the caller and saved. */
    method PutPiece(c: nat, off: nat, data: seq<Byte>) returns (saved: bool)
      requires Valid() && InBounds(c, off, |data|)
      modifies this
      ensures Valid() && (saved <==> old(Storable(layout, store, c)))
      ensures flat == if saved then Put(old(flat), layout.ChunkStart(c) + off, data) else old(flat)
    {
      hide Layout.ChunkStart, Layout.ChunkEnd, Storable, Layout.Valid, Holds, Put;
      saved := CreatePiece(c);
      if saved {
        SavePiece(c, off, data);
      }
    }

    /** Scatters a piece over the files of its chunk. The piece has been created. */
    method SavePiece(c: nat, off: nat, data: seq<Byte>)
      requires Valid() && InBounds(c, off, |data|) && Storable(layout, store, c)
      modifies this
      ensures Valid() && flat == Put(old(flat), layout.ChunkStart(c) + off, data)
    {
      hide Layout.ChunkStart, Layout.ChunkEnd, PartSize, PartOffset, Storable, Cover, Layout.Valid, Holds, Put, AtFile;
      var fl := layout.FilesOf(c);
      var chunkOff: nat, pieceOff: nat := 0, 0;
      AtFirstFile(layout, c);
      PutNothing(flat, layout.ChunkStart(c) + off);
      assert data[..0] == [];
      for k := 0 to |fl|
        invariant Valid() && Storable(layout, store, c) && AtFile(layout, c, fl, k, chunkOff)
        invariant pieceOff == Done(off, |data|, chunkOff)
        invariant flat == Put(old(flat), layout.ChunkStart(c) + off, data[..pieceOff])
      {
        AtNextFile(layout, c, fl, k, chunkOff);
        var fileOff := PartOffset(layout, c, fl, k);
        var cdata := PartSize(layout, c, fl, k, chunkOff);
        if !(off + |data| <= chunkOff || off >= chunkOff + cdata) {
          SegmentIsIntersection(off, |data|, fileOff, chunkOff, cdata);
          var (writeOffset, writeLength) := CalculateOffsetAndLength(off, |data|, fileOff, chunkOff, cdata);
          var part := data[pieceOff..pieceOff + writeLength];
          ghost var s := store;
          PutTwice(old(flat), layout.ChunkStart(c) + off, data, pieceOff, writeLength);
          WriteFile(c, fl, k, fileOff, chunkOff, writeOffset, Max(off, chunkOff), part);
          SameKindsHere(layout, s, store, flat, c);
          pieceOff := pieceOff + writeLength;
        }
        chunkOff := chunkOff + cdata;
      }
      AtEnd(layout, c, fl, chunkOff);
      assert data[..pieceOff] == data;
    }

    /** Bytes that were never written may read as anything. */
    method ReadFile(i: nat, disk: int, n: nat) returns (part: seq<Byte>)
      requires i < |store|
      ensures |part| == n
      ensures forall j :: 0 <= j < n && disk + j in store[i].bytes ==> part[j] == store[i].bytes[disk + j]
    {
      part := [];
      for j := 0 to n
        invariant |part| == j
        invariant forall m :: 0 <= m < j && disk + m in store[i].bytes ==> part[m] == store[i].bytes[disk + m]
      {
        var b: Byte := *;
        if disk + j in store[i].bytes {
          b := store[i].bytes[disk + j];
        }
        part := part + [b];
      }
    }

    /** Creates a piece and gathers it from the files of its chunk. */
    method LoadPiece(c: nat, off: nat, length: nat) returns (piece: Option<seq<Byte>>)
      requires Valid() && InBounds(c, off, length)
      ensures piece.Some? <==> Storable(layout, store, c)
      ensures piece.Some? ==> |piece.value| == length
      ensures piece.Some? ==> forall j :: 0 <= j < length && layout.ChunkStart(c) + off + j in flat ==>
        piece.value[j] == flat[layout.ChunkStart(c) + off + j]
    {
      hide Layout.ChunkStart, Layout.ChunkEnd, Storable, Layout.Valid, Holds;
      var created := CreatePiece(c);
      if !created {
        return None;
      }
      var data := Gather(c, off, length);
      return Some(data);
    }

    method Gather(c: nat, off: nat, length: nat) returns (data: seq<Byte>)
      requires Valid() && InBounds(c, off, length) && Storable(layout, store, c)
      ensures |data| == length
      ensures forall j :: 0 <= j < length && layout.ChunkStart(c) + off + j in flat ==> data[j] == flat[layout.ChunkStart(c) + off + j]
    {
      hide Layout.ChunkStart, Layout.ChunkEnd, PartSize, PartOffset, Storable, Cover, Layout.Valid, Holds, AtFile, DiskOffset, Slot;
      var fl := layout.FilesOf(c);
      var chunkOff: nat, pieceOff: nat := 0, 0;
      data := [];
      AtFirstFile(layout, c);
      StoreSize(layout, store, flat);
      if |fl| == 1 {
        data := LoadFromOneFile(c, off, length);
        return;
      }
      for k := 0 to |fl|
        invariant AtFile(layout, c, fl, k, chunkOff)
        invariant pieceOff == Done(off, length, chunkOff) == |data|
        invariant forall j :: 0 <= j < |data| && layout.ChunkStart(c) + off + j in flat ==> data[j] == flat[layout.ChunkStart(c) + off + j]
      {
        AtNextFile(layout, c, fl, k, chunkOff);
        var fileOff := PartOffset(layout, c, fl, k);
        var cdata := PartSize(layout, c, fl, k, chunkOff);
        if !(off + length <= chunkOff || off >= chunkOff + cdata) {
          SegmentIsIntersection(off, length, fileOff, chunkOff, cdata);
          var (readOffset, readLength) := CalculateOffsetAndLength(off, length, fileOff, chunkOff, cdata);
          var part := ReadPart(c, fl, k, fileOff, chunkOff, readOffset, Max(off, chunkOff), readLength);
          assert layout.ChunkStart(c) + Max(off, chunkOff) == layout.ChunkStart(c) + off + pieceOff;
          data := data + part;
          pieceOff := pieceOff + readLength;
        }
        chunkOff := chunkOff + cdata;
      }
      AtEnd(layout, c, fl, chunkOff);
    }

    method ReadPart(c: nat, fl: seq<nat>, k: nat, fileOff: int, chunkOff: nat, at: int, x: nat, n: nat) returns (part: seq<Byte>)
      requires Valid() && layout.HasChunk(c) && k < |fl| && AtFile(layout, c, fl, k, chunkOff)
      requires fl[k] < |layout.files| && (k == 0 ==> layout.files[fl[k]].firstChunk <= c)
      requires fileOff == PartOffset(layout, c, fl, k) && chunkOff <= x && at == fileOff + x - chunkOff
      requires x + n <= chunkOff + PartSize(layout, c, fl, k, chunkOff)
      ensures |part| == n
      ensures forall j :: 0 <= j < n && layout.ChunkStart(c) + x + j in flat ==> part[j] == flat[layout.ChunkStart(c) + x + j]
    {
      hide Layout.ChunkStart, Layout.ChunkEnd, PartSize, PartOffset, Storable, Cover, Layout.Valid, Slot, DiskOffset;
      var i := fl[k];
      AtNextFile(layout, c, fl, k, chunkOff);
      var disk := DiskOffset(layout, store[i].dnd, i, k == 0, fileOff, at);
      part := ReadFile(i, disk, n);
      forall j | 0 <= j < n && layout.ChunkStart(c) + x + j in flat ensures part[j] == flat[layout.ChunkStart(c) + x + j] {
        var p := layout.ChunkStart(c) + (x + j);
        PlaceIs(layout, c, fl, k, chunkOff, x, store[i].dnd);
        PlaceIs(layout, c, fl, k, chunkOff, x + j, store[i].dnd);
        SlotsAreConsecutive(layout, store[i].dnd, i, c, layout.ChunkStart(c) + x, p);
      }
    }

    /** The easy case: the whole chunk is in one file. */
    method LoadFromOneFile(c: nat, off: nat, length: nat) returns (data: seq<Byte>)
      requires Valid() && InBounds(c, off, length) && |layout.FilesOf(c)| == 1
      ensures |data| == length
      ensures forall j :: 0 <= j < length && layout.ChunkStart(c) + off + j in flat ==> data[j] == flat[layout.ChunkStart(c) + off + j]
    {
      hide Layout.ChunkStart, Layout.ChunkEnd, Cover, Layout.Valid, Holds, AtFile;
      var fl := layout.FilesOf(c);
      AtFirstFile(layout, c);
      AtNextFile(layout, c, fl, 0, 0);
      var fileOff := FileOffset(layout.files[fl[0]], c, layout.chunkSize);
      data := ReadPart(c, fl, 0, fileOff, 0, fileOff + off, off, length);
    }
  }

  lemma PutNothing(m: map<int, Byte>, at: int)
    ensures Put(m, at, []) == m
  {
  }

  lemma StoreSize(l: Layout, s: Store, flat: map<int, Byte>)
    requires Holds(l, s, flat)
    ensures |s| == |l.files|
  {
  }

  lemma SameKindsHere(l: Layout, s: Store, s': Store, flat: map<int, Byte>, c: nat)
    requires |s| == |s'| && Holds(l, s', flat) && forall i :: 0 <= i < |s| ==> s[i].dnd == s'[i].dnd
    ensures Storable(l, s, c) <==> Storable(l, s', c)
  {
  }

  lemma AtEnd(l: Layout, c: nat, fl: seq<nat>, chunkOff: nat)
    requires AtFile(l, c, fl, |fl|, chunkOff)
    ensures l.ChunkStart(c) + chunkOff == l.ChunkEnd(c)
  {
  }
}

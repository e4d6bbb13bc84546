/** src/torrent/torrentfile.cpp and Torrent::calcChunkPos: how the chunks of a torrent lie in its
    files. */
module TorrentLayouts {

  /** A file and the numbers that its constructor derives from its place in the torrent. */
  datatype TorrentFile = TorrentFile(off: nat, size: nat, firstChunk: nat, firstChunkOff: nat, lastChunk: nat, lastChunkSize: int)
  {
    /** The torrent position right after the file. */
    function End(): nat { off + size }

    /** calcChunkPos looks for these; the file has a byte of the chunk if it is not empty. */
    predicate Spans(c: nat) { firstChunk <= c <= lastChunk }

    predicate Overlaps(c: nat) { size != 0 && Spans(c) }
  }

  function MakeFile(off: nat, size: nat, chunkSize: nat): TorrentFile
    requires chunkSize > 0
  {
    var firstChunk := off / chunkSize;
    var lastChunk := if size > 0 then (off + size - 1) / chunkSize else firstChunk;
    TorrentFile(off, size, firstChunk, off % chunkSize, lastChunk, off + size - lastChunk * chunkSize)
  }

  /** fileOffset: where in the file a chunk starts. */
  function FileOffset(f: TorrentFile, c: nat, chunkSize: nat): int
    requires f.firstChunk <= c
  {
    if f.firstChunkOff == 0 then (c - f.firstChunk) * chunkSize
    else
      var off := if c - f.firstChunk > 0 then (c - f.firstChunk - 1) * chunkSize else 0;
      off + if c > 0 then chunkSize - f.firstChunkOff else 0
  }

  datatype Layout = Layout(chunkSize: nat, files: seq<TorrentFile>, total: nat)
  {
    /** The files lie one after the other and together are the torrent. */
    ghost predicate Valid()
    {
      && chunkSize > 0 && total > 0 && |files| > 0
      && files[0].off == 0 && files[|files| - 1].End() == total
      && (forall i :: 0 <= i < |files| ==> files[i] == MakeFile(files[i].off, files[i].size, chunkSize))
      && forall i :: 0 <= i < |files| - 1 ==> files[i + 1].off == files[i].End()
    }

    /** The bytes of chunk `c` are those from ChunkStart up to ChunkEnd. */
    function ChunkStart(c: nat): nat { c * chunkSize }

    function ChunkEnd(c: nat): nat { if (c + 1) * chunkSize <= total then (c + 1) * chunkSize else total }

    predicate HasChunk(c: nat) { ChunkStart(c) < total }

    /** The files from index `i` on that hold bytes of chunk `c`, in order. */
    function FilesFrom(c: nat, i: nat): seq<nat>
      requires i <= |files|
      decreases |files| - i
    {
      if i == |files| then []
      else (if files[i].Overlaps(c) then [i] else []) + FilesFrom(c, i + 1)
    }

    function FilesOf(c: nat): seq<nat> { FilesFrom(c, 0) }
  }

  // ----- Arithmetic of chunks

  lemma NextMultiple(c: int, d: int)
    ensures (c + 1) * d == c * d + d
  {
  }

  lemma MultiplesGrow(c: int, c': int, d: nat)
    requires c <= c'
    ensures c * d <= c' * d
  {
  }

  lemma {:induction false} DivideOrder(x: nat, d: nat, c: nat)
    requires d > 0
    ensures x / d < c <==> x < c * d
    decreases c
  {
    var q := x / d;
    assert q * d <= x < q * d + d;
    if q < c {
      NextMultiple(q, d);
      MultiplesGrow(q + 1, c, d);
    } else {
      MultiplesGrow(c, q, d);
    }
  }

  /** A file that is not empty spans exactly the chunks that it shares bytes with. */
  lemma SpansMeans(off: nat, size: nat, d: nat, c: nat)
    requires d > 0 && size > 0
    ensures var f := MakeFile(off, size, d);
            && (f.firstChunk <= c <==> off < (c + 1) * d)
            && (f.lastChunk >= c <==> f.End() > c * d)
  {
    DivideOrder(off, d, c + 1);
    DivideOrder(off + size - 1, d, c);
  }

  /** Within its last chunk, a file has `lastChunkSize` bytes. */
  lemma LastChunkSizeMeans(off: nat, size: nat, d: nat, c: nat)
    requires d > 0 && size > 0 && c * d < off + size <= (c + 1) * d
    ensures MakeFile(off, size, d).lastChunk == c && MakeFile(off, size, d).lastChunkSize == off + size - c * d
  {
    DivideOrder(off + size - 1, d, c);
    DivideOrder(off + size - 1, d, c + 1);
  }

  /** `fileOffset` of a chunk that starts inside the file. */
  lemma FileOffsetMeans(off: nat, size: nat, d: nat, c: nat)
    requires d > 0 && off <= c * d
    ensures var f := MakeFile(off, size, d);
            f.firstChunk <= c && FileOffset(f, c, d) == c * d - off
  {
    var f := MakeFile(off, size, d);
    var q, r := off / d, off % d;
    assert off == q * d + r;
    assert (c + 1) * d == c * d + d;
    DivideOrder(off, d, c + 1);
    if r == 0 {
      assert (c - q) * d == c * d - q * d;
    } else {
      if c == q {
        assert false;
      }
      assert (c - q - 1) * d == c * d - q * d - d;
    }
  }

  lemma {:induction false} OffsetsGrow(l: Layout, i: nat, j: nat)
    requires l.Valid() && i <= j < |l.files|
    ensures l.files[i].off <= l.files[j].off
    ensures i < j ==> l.files[i].End() <= l.files[j].off
    decreases j
  {
    if i < j {
      OffsetsGrow(l, i, j - 1);
      assert l.files[j - 1 + 1].off == l.files[j - 1].End();
    }
  }

  // ----- The files of a chunk

  /** The files named by `fl` cover the torrent bytes from `a` to `b`, in order and without a gap;
      all but the first start where the one before ends. */
  ghost predicate Cover(l: Layout, fl: seq<nat>, a: nat, b: nat)
    decreases |fl|
  {
    && |fl| > 0 && fl[0] < |l.files| && a < b
    && var f := l.files[fl[0]];
    && f.off <= a < f.End()
    && if |fl| == 1 then b <= f.End()
       else f.End() < b && fl[0] < fl[1] < |l.files| && l.files[fl[1]].off == f.End() && Cover(l, fl[1..], f.End(), b)
  }

  /** Past the end of a chunk there are no more files of it. */
  lemma {:induction false} NoFilesAfter(l: Layout, c: nat, i: nat)
    requires l.Valid() && i <= |l.files|
    requires i < |l.files| ==> l.files[i].off >= l.ChunkEnd(c)
    ensures l.FilesFrom(c, i) == []
    decreases |l.files| - i
  {
    if i < |l.files| {
      var f := l.files[i];
      if i + 1 < |l.files| {
        OffsetsGrow(l, i, i + 1);
      }
      NoFilesAfter(l, c, i + 1);
      OffsetsGrow(l, i, |l.files| - 1);
      if f.size > 0 {
        SpansMeans(f.off, f.size, l.chunkSize, c);
        if i < |l.files| - 1 {
          assert f.End() <= l.files[|l.files| - 1].off;
        }
        assert f.End() <= l.total;
      }
    }
  }

  lemma ChunkBounds(l: Layout, c: nat)
    requires l.Valid() && l.HasChunk(c)
    ensures l.ChunkStart(c) < l.ChunkEnd(c) <= l.total
    ensures l.ChunkEnd(c) == l.ChunkStart(c) + l.chunkSize || (l.ChunkEnd(c) == l.total && l.total < l.ChunkStart(c) + l.chunkSize)
  {
    hide MakeFile;
    NextMultiple(c, l.chunkSize);
  }

  lemma OverlapMeans(l: Layout, c: nat, i: nat)
    requires l.Valid() && i < |l.files| && l.files[i].size > 0
    ensures l.files[i].Overlaps(c) <==> l.files[i].off < l.ChunkStart(c) + l.chunkSize && l.files[i].End() > l.ChunkStart(c)
  {
    var f := l.files[i];
    assert f == MakeFile(f.off, f.size, l.chunkSize);
    SpansMeans(f.off, f.size, l.chunkSize, c);
    NextMultiple(c, l.chunkSize);
  }

  lemma {:induction false} FilesCover(l: Layout, c: nat, i: nat, a: nat)
    requires l.Valid() && i < |l.files| && l.HasChunk(c)
    requires l.ChunkStart(c) <= a < l.ChunkEnd(c) && l.files[i].off <= a
    requires a == l.ChunkStart(c) || a == l.files[i].off
    ensures Cover(l, l.FilesFrom(c, i), a, l.ChunkEnd(c))
    ensures i <= l.FilesFrom(c, i)[0] && l.files[l.FilesFrom(c, i)[0]].off >= l.files[i].off
    decreases |l.files| - i
  {
    hide Layout.ChunkStart, Layout.ChunkEnd, TorrentFile.Overlaps, MakeFile;
    var f, e := l.files[i], l.ChunkEnd(c);
    ChunkBounds(l, c);
    if i < |l.files| - 1 {
      assert l.files[i + 1].off == f.End();
    }
    if f.size > 0 {
      OverlapMeans(l, c, i);
    }
    if f.Overlaps(c) {
      NotEmpty(f, c);
      if f.End() >= e {
        NoFilesAfter(l, c, i + 1);
        assert l.FilesFrom(c, i) == [i];
      } else {
        FilesCover(l, c, i + 1, f.End());
        var rest := l.FilesFrom(c, i + 1);
        assert ([i] + rest)[1..] == rest;
        assert l.FilesFrom(c, i) == [i] + rest;
      }
    } else {
      FilesCover(l, c, i + 1, a);
      assert l.FilesFrom(c, i) == l.FilesFrom(c, i + 1);
    }
  }

  lemma NotEmpty(f: TorrentFile, c: nat)
    requires f.Overlaps(c)
    ensures f.size > 0
  {
  }

  /** What the list of a chunk's files is for. */
  lemma ChunkIsCovered(l: Layout, c: nat)
    requires l.Valid() && l.HasChunk(c)
    ensures Cover(l, l.FilesOf(c), l.ChunkStart(c), l.ChunkEnd(c))
  {
    hide Layout.ChunkStart, Layout.ChunkEnd, Layout.FilesFrom, Cover, MakeFile;
    ChunkBounds(l, c);
    FilesCover(l, c, 0, l.ChunkStart(c));
  }

  /** How much of the chunk lies in the k-th of its files, as both loadPiece and fillRangeList
      compute it from the number of bytes passed. */
  function PartSize(l: Layout, c: nat, fl: seq<nat>, k: nat, passed: nat): int
    requires k < |fl| && fl[k] < |l.files|
  {
    var f := l.files[fl[k]];
    if |fl| == 1 then l.ChunkEnd(c) - l.ChunkStart(c)
    else if k == 0 then f.lastChunkSize
    else if k == |fl| - 1 then l.ChunkEnd(c) - l.ChunkStart(c) - passed
    else f.size
  }

  /** Where in the k-th file that part starts: only the first file can be entered midway. */
  function PartOffset(l: Layout, c: nat, fl: seq<nat>, k: nat): int
    requires k < |fl| && fl[k] < |l.files| && (k == 0 ==> l.files[fl[k]].firstChunk <= c)
  {
    if k == 0 then FileOffset(l.files[fl[0]], c, l.chunkSize) else 0
  }

  /** The k-th file continues the chunk right where the files before it stop. */
  lemma PartIs(l: Layout, c: nat, fl: seq<nat>, k: nat, passed: nat)
    requires l.Valid() && l.HasChunk(c) && k < |fl| && (k == 0 ==> passed == 0)
    requires Cover(l, fl[k..], l.ChunkStart(c) + passed, l.ChunkEnd(c))
    requires k > 0 ==> fl[k] < |l.files| && l.files[fl[k]].off == l.ChunkStart(c) + passed
    ensures fl[k] < |l.files| && (k == 0 ==> l.files[fl[k]].firstChunk <= c)
    ensures var f, pos, size := l.files[fl[k]], l.ChunkStart(c) + passed, PartSize(l, c, fl, k, passed);
            && size > 0
            && PartOffset(l, c, fl, k) == pos - f.off
            && pos + size == (if k == |fl| - 1 then l.ChunkEnd(c) else f.End())
            && pos + size <= f.End()
    ensures k < |fl| - 1 ==>
              var next := passed + PartSize(l, c, fl, k, passed);
              && Cover(l, fl[k + 1..], l.ChunkStart(c) + next, l.ChunkEnd(c))
              && fl[k] < fl[k + 1] < |l.files| && l.files[fl[k + 1]].off == l.ChunkStart(c) + next
  {
    var f, pos := l.files[fl[k]], l.ChunkStart(c) + passed;
    assert fl[k..][0] == fl[k];
    assert f == MakeFile(f.off, f.size, l.chunkSize);
    if k < |fl| - 1 {
      assert fl[k..][1] == fl[k + 1] && fl[k..][1..] == fl[k + 1..];
      if k == 0 {
        NextMultiple(c, l.chunkSize);
        LastChunkSizeMeans(f.off, f.size, l.chunkSize, c);
      }
    }
    if k == 0 {
      FileOffsetMeans(f.off, f.size, l.chunkSize, c);
    }
  }

  // ----- calcChunkPos

  /** First and last chunks grow along the list of files, empty files included. */
  lemma SpansGrow(l: Layout, i: nat, j: nat)
    requires l.Valid() && i <= j < |l.files|
    ensures l.files[i].firstChunk <= l.files[j].firstChunk
    ensures l.files[i].lastChunk <= l.files[j].lastChunk
  {
    OffsetsGrow(l, i, j);
    var f, g, d := l.files[i], l.files[j], l.chunkSize;
    assert f == MakeFile(f.off, f.size, d) && g == MakeFile(g.off, g.size, d);
    DivideMonotone(f.off, g.off, d);
    if i < j {
      var x := if f.size > 0 then f.End() - 1 else f.off;
      var y := if g.size > 0 then g.End() - 1 else g.off;
      DivideMonotone(x, y, d);
    }
  }

  lemma DivideMonotone(x: nat, y: nat, d: nat)
    requires d > 0 && x <= y
    ensures x / d <= y / d
  {
    DivideOrder(x, d, y / d + 1);
    DivideOrder(y, d, y / d + 1);
  }

  /** Files before `i` end before chunk `c` or are empty. */
  ghost predicate SkipsOk(l: Layout, c: nat, i: nat)
    requires i <= |l.files|
  {
    forall j :: 0 <= j < i ==> l.files[j].size == 0 || l.files[j].lastChunk < c
  }

  lemma {:induction false} SkippedFiles(l: Layout, c: nat, i: nat, from: nat)
    requires from <= i <= |l.files| && SkipsOk(l, c, i)
    ensures l.FilesFrom(c, from) == l.FilesFrom(c, i)
    decreases i - from
  {
    if from < i {
      SkippedFiles(l, c, i, from + 1);
    }
  }

  /** Once a file starts after the chunk, so do all later ones. */
  lemma {:induction false} FilesAfter(l: Layout, c: nat, i: nat)
    requires l.Valid() && i < |l.files| && c < l.files[i].firstChunk
    ensures l.FilesFrom(c, i) == []
    decreases |l.files| - i
  {
    if i + 1 < |l.files| {
      SpansGrow(l, i, i + 1);
      FilesAfter(l, c, i + 1);
    }
  }

  /** Integer division as C++ does it. */
  function Half(x: int): int { if x >= 0 then x / 2 else -(-x / 2) }

  class Torrent {
    const layout: Layout
    var posCacheChunk: nat
    var posCacheFile: nat

    /** No chunk from the cached one on has bytes in a file before the cached one. */
    ghost predicate Valid()
      reads this
    {
      layout.Valid() && posCacheFile < |layout.files| && SkipsOk(layout, posCacheChunk, posCacheFile)
    }

    constructor (layout: Layout)
      requires layout.Valid()
      ensures Valid() && this.layout == layout
    {
      this.layout, posCacheChunk, posCacheFile := layout, 0, 0;
    }

    /** Binary search for a file that spans the chunk, then back to the first such file. */
    method FindStart(chunk: nat) returns (mid: nat)
      requires Valid()
      ensures mid < |layout.files| && SkipsOk(layout, chunk, mid)
    {
      var files := layout.files;
      var start: int := if chunk >= posCacheChunk then posCacheFile else 0;
      var end: int := |files| - 1;
      var m: int := start + Half(end - start);
      while start != m && m != end
        invariant 0 <= start <= m <= end < |files|
        invariant m == start + Half(end - start)
        invariant SkipsOk(layout, chunk, start)
        decreases end - start
      {
        var f := files[m];
        if f.Spans(chunk) {
          var i := m;
          while i > 0
            invariant 0 <= i <= m && files[i].Spans(chunk)
          {
            i := i - 1;
            if !files[i].Spans(chunk) {
              i := i + 1;
              break;
            }
          }
          BeforeFirstSpanning(layout, chunk, i);
          return i;
        } else if chunk > f.lastChunk {
          EndsBefore(layout, chunk, m);
          start := m + 1;
          m := start + Half(end - start);
        } else {
          end := m - 1;
          m := start + Half(end - start);
        }
      }
      return m;
    }

    /** The files that hold bytes of a chunk, in order, but no more than `maxFiles` of them. */
    method CalcChunkPos(chunk: nat, maxFiles: nat) returns (list: seq<nat>)
      requires Valid() && maxFiles > 0
      modifies this
      ensures Valid()
      ensures list == if layout.HasChunk(chunk) then Take(layout.FilesOf(chunk), maxFiles) else []
    {
      hide Cover, TorrentFile.Overlaps, MakeFile, Layout.Valid, SkipsOk, Layout.HasChunk;
      list := [];
      if !layout.HasChunk(chunk) {
        return;
      }
      var mid := FindStart(chunk);
      SkippedFiles(layout, chunk, mid, 0);
      list := Scan(chunk, mid, maxFiles);
      FirstFile(layout, chunk);
      posCacheChunk := chunk;
      posCacheFile := list[0];
    }

    /** Collects files from `mid` on, until they start after the chunk or there are enough. */
    method Scan(chunk: nat, mid: nat, maxFiles: nat) returns (list: seq<nat>)
      requires layout.Valid() && mid < |layout.files| && maxFiles > 0
      ensures list == Take(layout.FilesFrom(chunk, mid), maxFiles)
    {
      hide TorrentFile.Overlaps, MakeFile, Layout.Valid;
      var files := layout.files;
      list := [];
      var i := mid;
      while i < |files|
        invariant mid <= i <= |files|
        invariant |list| < maxFiles && list + layout.FilesFrom(chunk, i) == layout.FilesFrom(chunk, mid)
      {
        var f := files[i];
        SpansAndNotEmpty(f, chunk);
        if f.Spans(chunk) && f.size != 0 {
          list := list + [i];
          if |list| >= maxFiles {
            break;
          }
        } else if chunk < f.firstChunk {
          FilesAfter(layout, chunk, i);
          break;
        }
        i := i + 1;
      }
    }
  }

  function Take(s: seq<nat>, n: nat): seq<nat> { if |s| <= n then s else s[..n] }

  lemma SpansAndNotEmpty(f: TorrentFile, c: nat)
    ensures f.Overlaps(c) <==> f.Spans(c) && f.size != 0
  {
  }

  /** Everything before the first file of a chunk can be skipped for later chunks. */
  lemma FirstFile(l: Layout, c: nat)
    requires l.Valid() && l.HasChunk(c)
    ensures |l.FilesOf(c)| > 0 && l.FilesOf(c)[0] < |l.files| && SkipsOk(l, c, l.FilesOf(c)[0])
  {
    ChunkIsCovered(l, c);
    var z := l.FilesOf(c)[0];
    FirstFrom(l, c, 0);
    forall j | 0 <= j < z ensures l.files[j].size == 0 || l.files[j].lastChunk < c {
      SpansGrow(l, j, z);
    }
  }

  lemma {:induction false} FirstFrom(l: Layout, c: nat, i: nat)
    requires i <= |l.files| && |l.FilesFrom(c, i)| > 0
    ensures var z := l.FilesFrom(c, i)[0];
            i <= z < |l.files| && l.files[z].Overlaps(c) && forall j :: i <= j < z ==> !l.files[j].Overlaps(c)
    decreases |l.files| - i
  {
    if !l.files[i].Overlaps(c) {
      FirstFrom(l, c, i + 1);
    }
  }

  lemma EndsBefore(l: Layout, c: nat, i: nat)
    requires l.Valid() && i < |l.files| && l.files[i].lastChunk < c
    ensures SkipsOk(l, c, i + 1)
  {
    forall j | 0 <= j < i + 1 ensures l.files[j].lastChunk < c {
      SpansGrow(l, j, i);
    }
  }

  lemma BeforeFirstSpanning(l: Layout, c: nat, i: nat)
    requires l.Valid() && i < |l.files| && l.files[i].Spans(c) && (i > 0 ==> !l.files[i - 1].Spans(c))
    ensures SkipsOk(l, c, i)
  {
    if i > 0 {
      SpansGrow(l, i - 1, i);
      EndsBefore(l, c, i - 1);
    }
  }
}

/** The multi-stream file of the PDB section builder: streams are given blocks, and their bytes are scattered
    into those blocks of one array. */
module Msf {
  import opened ByteStreams
  import opened Options

  type Bytes = seq<Byte>

  const BLOCK_SIZE: nat := 4096

  // ---- Layout ----

  function BlockCount(size: nat): (n: nat)
    ensures size <= n * BLOCK_SIZE < size + BLOCK_SIZE
  {
    (size + BLOCK_SIZE - 1) / BLOCK_SIZE
  }

  /** Blocks 0 to 3 are reserved for the header, the two free block maps and the directory. */
  function FirstBlock(streams: seq<Bytes>, i: nat): (b: nat)
    requires i <= |streams|
    ensures b >= 4
  {
    if i == 0 then 4 else FirstBlock(streams, i - 1) + BlockCount(|streams[i - 1]|)
  }

  function Consecutive(first: nat, count: nat): (blocks: seq<nat>)
    ensures |blocks| == count && forall k: nat :: k < count ==> blocks[k] == first + k
  {
    seq(count, k => first + k)
  }

  function BlocksOf(streams: seq<Bytes>, i: nat): seq<nat>
    requires i < |streams|
  {
    Consecutive(FirstBlock(streams, i), BlockCount(|streams[i]|))
  }

  ghost predicate AreLayouts(layouts: seq<seq<nat>>, streams: seq<Bytes>) {
    |layouts| == |streams| && forall i: nat :: i < |streams| ==> layouts[i] == BlocksOf(streams, i)
  }

  method AssignBlocks(streams: seq<Bytes>) returns (layouts: seq<seq<nat>>, nextBlock: nat)
    ensures AreLayouts(layouts, streams)
    ensures nextBlock == FirstBlock(streams, |streams|)
  {
    layouts, nextBlock := [], 4;
    for si := 0 to |streams|
      invariant |layouts| == si && forall i: nat :: i < si ==> layouts[i] == BlocksOf(streams, i)
      invariant nextBlock == FirstBlock(streams, si)
    {
      var numBlocks := if streams[si] == [] then 0 else (|streams[si]| + BLOCK_SIZE - 1) / BLOCK_SIZE;
      var blocks: seq<nat> := [];
      for b := 0 to numBlocks
        invariant blocks == Consecutive(FirstBlock(streams, si), b)
        invariant nextBlock == FirstBlock(streams, si) + b
      {
        blocks := blocks + [nextBlock];
        nextBlock := nextBlock + 1;
      }
      layouts := layouts + [blocks];
    }
  }

  lemma {:induction false} LaterStreamsLieHigher(streams: seq<Bytes>, i: nat, j: nat)
    requires i < j <= |streams|
    ensures FirstBlock(streams, i) + BlockCount(|streams[i]|) <= FirstBlock(streams, j)
  {
    if i < j - 1 {
      LaterStreamsLieHigher(streams, i, j - 1);
    }
  }

  /** No block has two uses, and all lie between the reserved blocks and the end. */
  lemma BlocksAreDisjoint(streams: seq<Bytes>, i: nat, k: nat, j: nat, l: nat)
    requires i < |streams| && k < |BlocksOf(streams, i)| && j < |streams| && l < |BlocksOf(streams, j)|
    ensures 4 <= BlocksOf(streams, i)[k] < FirstBlock(streams, |streams|)
    ensures BlocksOf(streams, i)[k] == BlocksOf(streams, j)[l] <==> i == j && k == l
  {
    LaterStreamsLieHigher(streams, i, |streams|);
    if i < j {
      LaterStreamsLieHigher(streams, i, j);
    } else if j < i {
      LaterStreamsLieHigher(streams, j, i);
    }
  }

  // ---- The directory, as 32-bit words ----

  function Words(ws: seq<nat>): (s: Bytes)
    ensures |s| == 4 * |ws|
  {
    if ws == [] then [] else Words(ws[..|ws| - 1]) + LE(ws[|ws| - 1], 4)
  }

  function ReadWords(bytes: Bytes): seq<nat> {
    if |bytes| < 4 then [] else ReadWords(bytes[..|bytes| - 4]) + [FromLE(bytes[|bytes| - 4..])]
  }

  ghost predicate Fit32(ws: seq<nat>) {
    forall k: nat :: k < |ws| ==> ws[k] < Pow256(4)
  }

  lemma {:induction false} ReadsWords(ws: seq<nat>)
    requires Fit32(ws)
    ensures ReadWords(Words(ws)) == ws
  {
    if ws != [] {
      var front, last := ws[..|ws| - 1], ws[|ws| - 1];
      ReadsWords(front);
      assert ws[|ws| - 1] < Pow256(4);
      LastWord(Words(front), LE(last, 4));
      FromLEOfLE(last, 4);
      assert front + [last] == ws;
    }
  }

  lemma LastWord(front: Bytes, word: Bytes)
    requires |word| == 4
    ensures (front + word)[..|front + word| - 4] == front && (front + word)[|front + word| - 4..] == word
  {
  }

  lemma OneMoreWord(ws: seq<nat>, w: nat)
    ensures Words(ws + [w]) == Words(ws) + LE(w, 4)
  {
    assert (ws + [w])[..|ws|] == ws;
  }

  function Sizes(streams: seq<Bytes>): (s: seq<nat>)
    ensures |s| == |streams| && forall i: nat :: i < |streams| ==> s[i] == |streams[i]|
  {
    seq(|streams|, i requires 0 <= i < |streams| => |streams[i]|)
  }

  /** The blocks of all streams in order are the blocks from 4 on. */
  function AllBlocks(streams: seq<Bytes>): seq<nat> {
    Consecutive(4, FirstBlock(streams, |streams|) - 4)
  }

  function DirectoryWords(streams: seq<Bytes>): seq<nat> {
    [|streams|] + Sizes(streams) + AllBlocks(streams)
  }

  method WriteWords(out: ByteBuffer, values: seq<nat>, ghost ws: seq<nat>)
    requires out.data == Words(ws)
    modifies out
    ensures out.data == Words(ws + values)
  {
    assert ws + values[..0] == ws;
    for i := 0 to |values|
      invariant out.data == Words(ws + values[..i])
    {
      WriteLE(out, values[i], 4);
      OneMoreWord(ws + values[..i], values[i]);
      assert ws + values[..i + 1] == ws + values[..i] + [values[i]];
    }
    assert values[..|values|] == values;
  }

  method WriteBlocks(out: ByteBuffer, streams: seq<Bytes>, layouts: seq<seq<nat>>, ghost head: seq<nat>)
    requires AreLayouts(layouts, streams)
    requires out.data == Words(head)
    modifies out
    ensures out.data == Words(head + AllBlocks(streams))
  {
    NoBlocks(head);
    for i := 0 to |streams|
      invariant out.data == Words(head + Consecutive(4, FirstBlock(streams, i) - 4))
    {
      WriteLayout(out, streams, i, layouts[i], head);
    }
  }

  method WriteLayout(out: ByteBuffer, streams: seq<Bytes>, i: nat, layout: seq<nat>, ghost head: seq<nat>)
    requires i < |streams| && layout == BlocksOf(streams, i)
    requires out.data == Words(head + Consecutive(4, FirstBlock(streams, i) - 4))
    modifies out
    ensures out.data == Words(head + Consecutive(4, FirstBlock(streams, i + 1) - 4))
  {
    WriteWords(out, layout, head + Consecutive(4, FirstBlock(streams, i) - 4));
    BlocksFollow(head, streams, i);
  }

  method BuildDirectory(streams: seq<Bytes>, layouts: seq<seq<nat>>) returns (directory: ByteBuffer)
    requires AreLayouts(layouts, streams)
    ensures fresh(directory) && directory.data == Words(DirectoryWords(streams))
  {
    directory := new ByteBuffer();
    WriteWords(directory, [|streams|], []);
    assert [] + [|streams|] == [|streams|];
    WriteWords(directory, Sizes(streams), [|streams|]);
    WriteBlocks(directory, streams, layouts, [|streams|] + Sizes(streams));
  }

  lemma NoBlocks(head: seq<nat>)
    ensures head + Consecutive(4, 0) == head
  {
  }

  lemma BlocksFollow(head: seq<nat>, streams: seq<Bytes>, i: nat)
    requires i < |streams|
    ensures head + Consecutive(4, FirstBlock(streams, i) - 4) + BlocksOf(streams, i)
            == head + Consecutive(4, FirstBlock(streams, i + 1) - 4)
  {
    NextBlocks(head, FirstBlock(streams, i) - 4, BlockCount(|streams[i]|));
  }

  lemma NextBlocks(head: seq<nat>, m: nat, n: nat)
    ensures head + Consecutive(4, m) + Consecutive(4 + m, n) == head + Consecutive(4, m + n)
  {
  }

  // ---- Writing into the array ----

  /** memcpy */
  method CopyInto(a: array<Byte>, at: nat, bytes: Bytes)
    requires at + |bytes| <= a.Length
    modifies a
    ensures a[..] == old(a[..at]) + bytes + old(a[at + |bytes|..])
  {
    ghost var start := a[..];
    for i := 0 to |bytes|
      invariant a[..] == start[..at] + bytes[..i] + start[at + i..]
    {
      CopiesOne(start, at, bytes, i);
      a[at + i] := bytes[i];
    }
    assert bytes[..|bytes|] == bytes;
  }

  lemma CopiesOne(start: Bytes, at: nat, bytes: Bytes, i: nat)
    requires i < |bytes| && at + |bytes| <= |start|
    ensures (start[..at] + bytes[..i] + start[at + i..])[at + i := bytes[i]]
            == start[..at] + bytes[..i + 1] + start[at + i + 1..]
  {
  }

  /** Copies a stream block by block; consecutive blocks make it contiguous. */
  method CopyStream(a: array<Byte>, data: Bytes, blocks: seq<nat>, ghost first: nat)
    requires blocks == Consecutive(first, BlockCount(|data|))
    requires (first + |blocks|) * BLOCK_SIZE <= a.Length
    modifies a
    ensures a[..] == old(a[..first * BLOCK_SIZE]) + data + old(a[first * BLOCK_SIZE + |data|..])
  {
    ghost var start, at := a[..], first * BLOCK_SIZE;
    var offset := 0;
    for k := 0 to |blocks|
      invariant offset == if k < |blocks| then k * BLOCK_SIZE else |data|
      invariant offset <= |data|
      invariant a[..] == start[..at] + data[..offset] + start[at + offset..]
    {
      var chunk := if BLOCK_SIZE < |data| - offset then BLOCK_SIZE else |data| - offset;
      FullChunks(|data|, k);
      CopyChunk(a, blocks[k] * BLOCK_SIZE, data, offset, chunk, start, at);
      offset := offset + chunk;
    }
    assert data[..|data|] == data;
  }

  method CopyChunk(a: array<Byte>, to: nat, data: Bytes, offset: nat, chunk: nat, ghost start: Bytes, ghost at: nat)
    requires offset + chunk <= |data| && at + |data| <= |start| == a.Length && to == at + offset
    requires a[..] == start[..at] + data[..offset] + start[at + offset..]
    modifies a
    ensures a[..] == start[..at] + data[..offset + chunk] + start[at + offset + chunk..]
  {
    CopyInto(a, to, data[offset..offset + chunk]);
    CopiesChunk(start, at, data, offset, chunk);
  }

  /** Every block but the last is full. */
  lemma FullChunks(size: nat, k: nat)
    requires k < BlockCount(size)
    ensures k * BLOCK_SIZE < size && (k + 1 < BlockCount(size) ==> (k + 1) * BLOCK_SIZE < size)
    ensures k + 1 == BlockCount(size) ==> size - k * BLOCK_SIZE <= BLOCK_SIZE
  {
  }

  lemma CopiesChunk(start: Bytes, at: nat, data: Bytes, offset: nat, chunk: nat)
    requires offset + chunk <= |data| && at + |data| <= |start|
    ensures var s := start[..at] + data[..offset] + start[at + offset..];
            s[..at + offset] + data[offset..offset + chunk] + s[at + offset + chunk..]
            == start[..at] + data[..offset + chunk] + start[at + offset + chunk..]
  {
  }

  ghost predicate Placed(image: Bytes, streams: seq<Bytes>, i: nat)
    requires i < |streams|
  {
    var at := FirstBlock(streams, i) * BLOCK_SIZE;
    at + |streams[i]| <= |image| && image[at..at + |streams[i]|] == streams[i]
  }

  lemma PlacesOneMore(before: Bytes, after: Bytes, streams: seq<Bytes>, i: nat)
    requires i < |streams| && FirstBlock(streams, i + 1) * BLOCK_SIZE <= |before|
    requires forall j: nat :: j < i ==> Placed(before, streams, j)
    requires var at := FirstBlock(streams, i) * BLOCK_SIZE;
             after == before[..at] + streams[i] + before[at + |streams[i]|..]
    ensures forall j: nat :: j <= i ==> Placed(after, streams, j)
    ensures after[..4 * BLOCK_SIZE] == before[..4 * BLOCK_SIZE]
  {
    var at := FirstBlock(streams, i) * BLOCK_SIZE;
    forall j: nat | j <= i ensures Placed(after, streams, j) {
      if j < i {
        assert Placed(before, streams, j);
        LaterStreamsLieHigher(streams, j, i);
        var from := FirstBlock(streams, j) * BLOCK_SIZE;
        assert after[..at] == before[..at];
        SliceOfPrefix(after, at, from, |streams[j]|);
        SliceOfPrefix(before, at, from, |streams[j]|);
      }
    }
  }

  lemma SliceOfPrefix(s: Bytes, at: nat, from: nat, n: nat)
    requires from + n <= at <= |s|
    ensures s[from..from + n] == s[..at][from..from + n]
  {
  }

  method Scatter(a: array<Byte>, streams: seq<Bytes>, layouts: seq<seq<nat>>)
    requires AreLayouts(layouts, streams)
    requires a.Length == FirstBlock(streams, |streams|) * BLOCK_SIZE
    modifies a
    ensures a[..4 * BLOCK_SIZE] == old(a[..4 * BLOCK_SIZE])
    ensures forall i: nat :: i < |streams| ==> Placed(a[..], streams, i)
  {
    ghost var front := a[..4 * BLOCK_SIZE];
    for si := 0 to |streams|
      invariant a[..4 * BLOCK_SIZE] == front
      invariant forall i: nat :: i < si ==> Placed(a[..], streams, i)
    {
      LaterStreamsLieHigher(streams, si, |streams|);
      ghost var before := a[..];
      CopyStream(a, streams[si], layouts[si], FirstBlock(streams, si));
      PlacesOneMore(before, a[..], streams, si);
      assert before[..4 * BLOCK_SIZE] == front;
      assert a[..][..4 * BLOCK_SIZE] == a[..4 * BLOCK_SIZE];
    }
  }

  // ---- Header ----

  function Magic(): Bytes {
    [77, 105, 99, 114, 111, 115, 111, 102, 116, 32, 67, 47, 67, 43, 43, 32,
     77, 83, 70, 32, 55, 46, 48, 48, 13, 10, 26, 68, 83, 0, 0, 0]
  }

  const HEADER_SIZE: nat := 56

  /** The fields after the magic: block size, free map block, block total, directory size, 0, directory block. */
  function HeaderWords(totalBlocks: nat, directorySize: nat): seq<nat> {
    [BLOCK_SIZE, 1, totalBlocks, directorySize, 0, 3]
  }

  // ---- Reading ----

  /** The bytes of a stream from its blocks, cut to its size. */
  function Gather(image: Bytes, blocks: seq<nat>, size: nat): Option<Bytes> {
    if blocks == [] then (if size == 0 then Some([]) else None)
    else
      var chunk := if BLOCK_SIZE < size then BLOCK_SIZE else size;
      var at := blocks[0] * BLOCK_SIZE;
      if at + chunk > |image| then None
      else
        match Gather(image, blocks[1..], size - chunk)
        case None => None
        case Some(tail) => Some(image[at..at + chunk] + tail)
  }

  function ReadStreams(image: Bytes, sizes: seq<nat>, blocks: seq<nat>): Option<seq<Bytes>> {
    if sizes == [] then Some([])
    else if BlockCount(sizes[0]) > |blocks| then None
    else
      match Gather(image, blocks[..BlockCount(sizes[0])], sizes[0])
      case None => None
      case Some(data) =>
        match ReadStreams(image, sizes[1..], blocks[BlockCount(sizes[0])..])
        case None => None
        case Some(rest) => Some([data] + rest)
  }

  function ReadDirectory(image: Bytes, ws: seq<nat>): Option<seq<Bytes>> {
    if ws == [] || 1 + ws[0] > |ws| then None
    else ReadStreams(image, ws[1..1 + ws[0]], ws[1 + ws[0]..])
  }

  /** Reads a file the way Build writes it: the block the header names holds the directory itself. */
  function ReadMsf(image: Bytes): Option<seq<Bytes>> {
    if |image| < HEADER_SIZE || image[..32] != Magic() then None
    else
      var fields := ReadWords(image[32..HEADER_SIZE]);
      if |fields| != 6 || fields[0] != BLOCK_SIZE || fields[2] * BLOCK_SIZE != |image| then None
      else
        var at, size := fields[5] * BLOCK_SIZE, fields[3];
        if at + size > |image| then None else ReadDirectory(image, ReadWords(image[at..at + size]))
  }

  /** The directory's blocks for a reader of the MSF format: the block the header names is a list of their numbers. */
  function DirectoryBlocks(image: Bytes): Option<seq<nat>> {
    if |image| < HEADER_SIZE then None else ListedBlocks(image, ReadWords(image[32..HEADER_SIZE]))
  }

  function ListedBlocks(image: Bytes, fields: seq<nat>): Option<seq<nat>> {
    if |fields| != 6 then None else BlockNumbers(image, fields[5] * BLOCK_SIZE, BlockCount(fields[3]))
  }

  function BlockNumbers(image: Bytes, at: nat, count: nat): Option<seq<nat>> {
    if at + 4 * count > |image| then None else Some(ReadWords(image[at..at + 4 * count]))
  }

  lemma OneBlock(size: nat)
    requires 0 < size <= BLOCK_SIZE
    ensures BlockCount(size) == 1
  {
  }

  lemma {:induction false} GathersConsecutive(image: Bytes, first: nat, size: nat)
    requires first * BLOCK_SIZE + size <= |image|
    ensures Gather(image, Consecutive(first, BlockCount(size)), size)
            == Some(image[first * BLOCK_SIZE..first * BLOCK_SIZE + size])
    decreases size
  {
    var blocks := Consecutive(first, BlockCount(size));
    var at := first * BLOCK_SIZE;
    if size == 0 {
      assert blocks == [];
    } else if size <= BLOCK_SIZE {
      assert |blocks| == 1 && blocks[1..] == [];
      assert image[at..at + size] + [] == image[at..at + size];
    } else {
      GathersConsecutive(image, first + 1, size - BLOCK_SIZE);
      assert blocks[1..] == Consecutive(first + 1, BlockCount(size - BLOCK_SIZE));
      assert image[at..at + BLOCK_SIZE] + image[at + BLOCK_SIZE..at + size] == image[at..at + size];
    }
  }

  lemma SplitBlocks(from: nat, n: nat, to: nat)
    requires 4 <= from && from + n <= to
    ensures var blocks := Consecutive(4, to - 4)[from - 4..];
            && blocks[..n] == Consecutive(from, n)
            && blocks[n..] == Consecutive(4, to - 4)[from + n - 4..]
  {
  }

  lemma ReadsNext(image: Bytes, sizes: seq<nat>, blocks: seq<nat>, n: nat, data: Bytes, rest: seq<Bytes>)
    requires sizes != [] && n == BlockCount(sizes[0]) <= |blocks|
    requires Gather(image, blocks[..n], sizes[0]) == Some(data)
    requires ReadStreams(image, sizes[1..], blocks[n..]) == Some(rest)
    ensures ReadStreams(image, sizes, blocks) == Some([data] + rest)
  {
  }

  lemma StreamGathers(image: Bytes, streams: seq<Bytes>, i: nat)
    requires i < |streams| && Placed(image, streams, i)
    requires FirstBlock(streams, i) + BlockCount(|streams[i]|) <= FirstBlock(streams, |streams|)
    ensures var blocks := AllBlocks(streams)[FirstBlock(streams, i) - 4..];
            Gather(image, blocks[..BlockCount(|streams[i]|)], |streams[i]|) == Some(streams[i])
  {
    SplitBlocks(FirstBlock(streams, i), BlockCount(|streams[i]|), FirstBlock(streams, |streams|));
    GathersConsecutive(image, FirstBlock(streams, i), |streams[i]|);
  }

  lemma {:induction false} ReadsStreams(image: Bytes, streams: seq<Bytes>, i: nat)
    requires i <= |streams| && forall j: nat :: j < |streams| ==> Placed(image, streams, j)
    requires FirstBlock(streams, i) <= FirstBlock(streams, |streams|)
    ensures ReadStreams(image, Sizes(streams)[i..], AllBlocks(streams)[FirstBlock(streams, i) - 4..])
            == Some(streams[i..])
    decreases |streams| - i
  {
    if i < |streams| {
      var from, n := FirstBlock(streams, i), BlockCount(|streams[i]|);
      var sizes, blocks := Sizes(streams)[i..], AllBlocks(streams)[from - 4..];
      LaterStreamsLieHigher(streams, i, |streams|);
      assert Gather(image, blocks[..n], |streams[i]|) == Some(streams[i]) by {
        assert Placed(image, streams, i);
        StreamGathers(image, streams, i);
      }
      assert ReadStreams(image, sizes[1..], blocks[n..]) == Some(streams[i + 1..]) by {
        ReadsStreams(image, streams, i + 1);
        SplitBlocks(from, n, FirstBlock(streams, |streams|));
        assert sizes[1..] == Sizes(streams)[i + 1..];
      }
      ReadsNext(image, sizes, blocks, n, streams[i], streams[i + 1..]);
      assert [streams[i]] + streams[i + 1..] == streams[i..];
    } else {
      assert Sizes(streams)[i..] == [] && streams[i..] == [];
    }
  }

  // ---- The whole file ----

  function HeaderBytes(totalBlocks: nat, directorySize: nat): (s: Bytes)
    ensures |s| == HEADER_SIZE
  {
    Magic() + Words(HeaderWords(totalBlocks, directorySize))
  }

  method WriteHeader(a: array<Byte>, totalBlocks: nat, directorySize: nat)
    requires a.Length >= HEADER_SIZE
    modifies a
    ensures a[..HEADER_SIZE] == HeaderBytes(totalBlocks, directorySize)
  {
    CopyInto(a, 0, Magic());
    var fields := HeaderWords(totalBlocks, directorySize);
    for i := 0 to |fields|
      invariant a[..32 + 4 * i] == Magic() + Words(fields[..i])
    {
      WriteNext(a, Magic() + Words(fields[..i]), LE(fields[i], 4), 32 + 4 * i);
      assert fields[..i + 1] == fields[..i] + [fields[i]];
      OneMoreWord(fields[..i], fields[i]);
      Associates(Magic(), Words(fields[..i]), LE(fields[i], 4));
    }
    assert fields[..|fields|] == fields;
  }

  /** Writes bytes behind a prefix that is already in place. */
  method WriteNext(a: array<Byte>, ghost prefix: Bytes, bytes: Bytes, at: nat)
    requires at == |prefix| && at + |bytes| <= a.Length && a[..at] == prefix
    modifies a
    ensures a[..at + |bytes|] == prefix + bytes
  {
    CopyInto(a, at, bytes);
  }

  /** The part of the directory that block 3 can hold. */
  function Kept(directory: Bytes): (kept: Bytes)
    ensures |kept| <= BLOCK_SIZE && kept <= directory
  {
    if |directory| < BLOCK_SIZE then directory else directory[..BLOCK_SIZE]
  }

  /** The header in block 0 and as much of the directory as fits in block 3. */
  predicate HasFront(front: Bytes, totalBlocks: nat, directory: Bytes) {
    && |front| == 4 * BLOCK_SIZE
    && front[..HEADER_SIZE] == HeaderBytes(totalBlocks, |directory|)
    && front[3 * BLOCK_SIZE..3 * BLOCK_SIZE + |Kept(directory)|] == Kept(directory)
  }

  method WriteFront(a: array<Byte>, totalBlocks: nat, directory: Bytes)
    requires a.Length >= 4 * BLOCK_SIZE
    modifies a
    ensures HasFront(a[..4 * BLOCK_SIZE], totalBlocks, directory)
  {
    WriteHeader(a, totalBlocks, |directory|);
    CopyInto(a, BLOCK_SIZE, seq(BLOCK_SIZE, _ => 255));
    CopyInto(a, 2 * BLOCK_SIZE, seq(BLOCK_SIZE, _ => 255));
    var copyLength := if |directory| < BLOCK_SIZE then |directory| else BLOCK_SIZE;
    assert a[..HEADER_SIZE] == HeaderBytes(totalBlocks, |directory|);
    assert directory[..copyLength] == Kept(directory);
    CopyInto(a, 3 * BLOCK_SIZE, directory[..copyLength]);
    assert a[..][3 * BLOCK_SIZE..3 * BLOCK_SIZE + |Kept(directory)|] == Kept(directory);
    SliceOfPrefix(a[..], 4 * BLOCK_SIZE, 3 * BLOCK_SIZE, |Kept(directory)|);
    assert a[..][..4 * BLOCK_SIZE] == a[..4 * BLOCK_SIZE];
  }

  /** Directories that fit their block have small words only. */
  lemma DirectoryFits32(streams: seq<Bytes>)
    requires 4 * |DirectoryWords(streams)| <= BLOCK_SIZE
    ensures Fit32(DirectoryWords(streams))
    ensures Fit32(HeaderWords(FirstBlock(streams, |streams|), 4 * |DirectoryWords(streams)|))
  {
    var ws := DirectoryWords(streams);
    WordWidths();
    forall k: nat | k < |ws| ensures ws[k] < Pow256(4) {
      if 1 <= k <= |streams| {
        LaterStreamsLieHigher(streams, k - 1, |streams|);
        assert ws[k] == |streams[k - 1]|;
      }
    }
  }

  lemma ReadsAllStreams(image: Bytes, streams: seq<Bytes>)
    requires forall i: nat :: i < |streams| ==> Placed(image, streams, i)
    ensures ReadStreams(image, Sizes(streams), AllBlocks(streams)) == Some(streams)
  {
    if streams != [] {
      LaterStreamsLieHigher(streams, 0, |streams|);
    }
    ReadsStreams(image, streams, 0);
    assert Sizes(streams)[0..] == Sizes(streams);
    assert AllBlocks(streams)[0..] == AllBlocks(streams);
    assert streams[0..] == streams;
  }

  lemma ReadsDirectory(image: Bytes, streams: seq<Bytes>)
    requires forall i: nat :: i < |streams| ==> Placed(image, streams, i)
    ensures ReadDirectory(image, DirectoryWords(streams)) == Some(streams)
  {
    ReadsAllStreams(image, streams);
    DirectoryParts(|streams|, Sizes(streams), AllBlocks(streams));
  }

  lemma DirectoryParts(count: nat, sizes: seq<nat>, blocks: seq<nat>)
    requires |sizes| == count
    ensures var ws := [count] + sizes + blocks; ws[1..1 + count] == sizes && ws[1 + count..] == blocks
  {
  }

  lemma ReadsFront(image: Bytes, total: nat, directory: Bytes)
    requires |image| >= 4 * BLOCK_SIZE && HasFront(image[..4 * BLOCK_SIZE], total, directory)
    requires Fit32(HeaderWords(total, |directory|))
    ensures image[..32] == Magic() && ReadWords(image[32..HEADER_SIZE]) == HeaderWords(total, |directory|)
    ensures image[3 * BLOCK_SIZE..3 * BLOCK_SIZE + |Kept(directory)|] == Kept(directory)
  {
    var front, ws := image[..4 * BLOCK_SIZE], HeaderWords(total, |directory|);
    SliceOfPrefix(image, 4 * BLOCK_SIZE, 3 * BLOCK_SIZE, |Kept(directory)|);
    SliceOfPrefix(image, 4 * BLOCK_SIZE, 32, HEADER_SIZE - 32);
    SliceOfPrefix(image, 4 * BLOCK_SIZE, 0, 32);
    HeaderParts(front, Magic(), Words(ws));
    ReadsWords(ws);
  }

  lemma ReadsSmallFront(image: Bytes, total: nat, directory: Bytes)
    requires |image| >= 4 * BLOCK_SIZE && HasFront(image[..4 * BLOCK_SIZE], total, directory)
    requires Fit32(HeaderWords(total, |directory|)) && |directory| <= BLOCK_SIZE
    ensures image[..32] == Magic() && ReadWords(image[32..HEADER_SIZE]) == HeaderWords(total, |directory|)
    ensures image[3 * BLOCK_SIZE..3 * BLOCK_SIZE + |directory|] == directory
  {
    ReadsFront(image, total, directory);
    assert Kept(directory) == directory;
  }

  lemma HeaderParts(front: Bytes, magic: Bytes, fields: Bytes)
    requires |magic| == 32 && |front| >= HEADER_SIZE && front[..HEADER_SIZE] == magic + fields
    ensures front[0..32] == magic && front[32..HEADER_SIZE] == fields
  {
  }

  lemma ReadsWholeDirectory(image: Bytes, total: nat, ws: seq<nat>, directory: Bytes)
    requires Fit32(ws) && directory == Words(ws) && |directory| <= BLOCK_SIZE && |image| >= 4 * BLOCK_SIZE
    requires HasFront(image[..4 * BLOCK_SIZE], total, directory) && Fit32(HeaderWords(total, |directory|))
    ensures image[..32] == Magic() && ReadWords(image[32..HEADER_SIZE]) == HeaderWords(total, 4 * |ws|)
    ensures ReadWords(image[3 * BLOCK_SIZE..3 * BLOCK_SIZE + 4 * |ws|]) == ws
  {
    ReadsSmallFront(image, total, directory);
    ReadsWords(ws);
  }

  lemma ReadsMsf(image: Bytes, streams: seq<Bytes>)
    requires |image| == FirstBlock(streams, |streams|) * BLOCK_SIZE
    requires HasFront(image[..4 * BLOCK_SIZE], FirstBlock(streams, |streams|), Words(DirectoryWords(streams)))
    requires forall i: nat :: i < |streams| ==> Placed(image, streams, i)
    requires 4 * |DirectoryWords(streams)| <= BLOCK_SIZE
    ensures ReadMsf(image) == Some(streams)
  {
    DirectoryFits32(streams);
    ReadsDirectory(image, streams);
    ReadsWithDirectory(image, FirstBlock(streams, |streams|), DirectoryWords(streams), Words(DirectoryWords(streams)),
                       streams);
  }

  lemma ReadsWithDirectory(image: Bytes, total: nat, ws: seq<nat>, directory: Bytes, streams: seq<Bytes>)
    requires Fit32(ws) && directory == Words(ws) && |directory| <= BLOCK_SIZE
    requires total >= 4 && |image| == total * BLOCK_SIZE
    requires HasFront(image[..4 * BLOCK_SIZE], total, directory) && Fit32(HeaderWords(total, |directory|))
    requires ReadDirectory(image, ws) == Some(streams)
    ensures ReadMsf(image) == Some(streams)
  {
    ReadsWholeDirectory(image, total, ws, directory);
    ReadsImage(image, total, |directory|, streams);
  }

  /** A reader of the MSF format is sent to the block whose number is the count of streams. */
  lemma DirectoryBlockIsTheCount(image: Bytes, streams: seq<Bytes>)
    requires |image| >= 4 * BLOCK_SIZE
    requires HasFront(image[..4 * BLOCK_SIZE], FirstBlock(streams, |streams|), Words(DirectoryWords(streams)))
    requires 4 * |DirectoryWords(streams)| <= BLOCK_SIZE
    ensures DirectoryBlocks(image) == Some([|streams|])
  {
    DirectoryFits32(streams);
    FrontNamesItsFirstWord(image, FirstBlock(streams, |streams|), DirectoryWords(streams),
                           Words(DirectoryWords(streams)));
  }

  lemma FrontNamesItsFirstWord(image: Bytes, total: nat, ws: seq<nat>, directory: Bytes)
    requires ws != [] && Fit32(ws) && directory == Words(ws) && |directory| <= BLOCK_SIZE
    requires |image| >= 4 * BLOCK_SIZE && HasFront(image[..4 * BLOCK_SIZE], total, directory)
    requires Fit32(HeaderWords(total, |directory|))
    ensures DirectoryBlocks(image) == Some([ws[0]])
  {
    ReadsSmallFront(image, total, directory);
    ReadsFirstWord(image, 3 * BLOCK_SIZE, ws, directory);
    ListsOneBlock(image, total, |directory|, ws[0]);
  }

  lemma ListsOneBlock(image: Bytes, total: nat, size: nat, block: nat)
    requires |image| >= 4 * BLOCK_SIZE && 0 < size <= BLOCK_SIZE
    requires ReadWords(image[3 * BLOCK_SIZE..3 * BLOCK_SIZE + 4]) == [block]
    ensures ListedBlocks(image, HeaderWords(total, size)) == Some([block])
  {
    OneBlock(size);
    var fields := HeaderWords(total, size);
    assert fields[5] * BLOCK_SIZE == 3 * BLOCK_SIZE && BlockCount(fields[3]) == 1;
  }

  lemma ReadsFirstWord(image: Bytes, at: nat, ws: seq<nat>, directory: Bytes)
    requires ws != [] && ws[0] < Pow256(4) && directory == Words(ws)
    requires at + |directory| <= |image| && image[at..at + |directory|] == directory
    ensures ReadWords(image[at..at + 4]) == [ws[0]]
  {
    FirstWord(ws);
    assert image[at..at + 4] == directory[..4];
    ReadsWords([ws[0]]);
  }

  lemma {:induction false} FirstWord(ws: seq<nat>)
    requires ws != []
    ensures Words(ws)[..4] == Words([ws[0]])
  {
    if |ws| > 1 {
      var front := ws[..|ws| - 1];
      FirstWord(front);
      assert Words(ws)[..4] == Words(front)[..4];
    }
  }

  lemma ReadsImage(image: Bytes, total: nat, size: nat, streams: seq<Bytes>)
    requires |image| >= HEADER_SIZE && image[..32] == Magic() && |image| == total * BLOCK_SIZE
    requires ReadWords(image[32..HEADER_SIZE]) == HeaderWords(total, size)
    requires 3 * BLOCK_SIZE + size <= |image|
    requires ReadDirectory(image, ReadWords(image[3 * BLOCK_SIZE..3 * BLOCK_SIZE + size])) == Some(streams)
    ensures ReadMsf(image) == Some(streams)
  {
  }

  // ---- Directories beyond one block ----

  lemma {:induction false} WordsOfRead(bytes: Bytes)
    requires |bytes| % 4 == 0
    ensures Words(ReadWords(bytes)) == bytes
  {
    if |bytes| >= 4 {
      var front, last := bytes[..|bytes| - 4], bytes[|bytes| - 4..];
      assert front + last == bytes;
      WordsOfRead(front);
      OneMoreRead(ReadWords(front), front, last);
    }
  }

  lemma OneMoreRead(ws: seq<nat>, front: Bytes, last: Bytes)
    requires Words(ws) == front && |last| == 4
    ensures Words(ws + [FromLE(last)]) == front + last
  {
    LEOfFromLE(last);
    OneMoreWord(ws, FromLE(last));
  }

  lemma TailBehindKept(image: Bytes, directory: Bytes)
    requires |directory| > BLOCK_SIZE && 3 * BLOCK_SIZE + |directory| <= |image|
    requires image[3 * BLOCK_SIZE..4 * BLOCK_SIZE] == directory[..BLOCK_SIZE]
    ensures image[3 * BLOCK_SIZE..3 * BLOCK_SIZE + |directory|] == directory
            <==> image[4 * BLOCK_SIZE..3 * BLOCK_SIZE + |directory|] == directory[BLOCK_SIZE..]
  {
    var found, tail := image[3 * BLOCK_SIZE..3 * BLOCK_SIZE + |directory|],
                       image[4 * BLOCK_SIZE..3 * BLOCK_SIZE + |directory|];
    assert found == image[3 * BLOCK_SIZE..4 * BLOCK_SIZE] + tail;
    assert directory == directory[..BLOCK_SIZE] + directory[BLOCK_SIZE..];
    assert found[BLOCK_SIZE..] == tail;
  }

  /** The words that ReadMsf takes for the directory. */
  function DirectoryRead(image: Bytes, size: nat): Option<seq<nat>> {
    if 3 * BLOCK_SIZE + size > |image| then None
    else Some(ReadWords(image[3 * BLOCK_SIZE..3 * BLOCK_SIZE + size]))
  }

  /** A larger directory is cut off: its words are found again exactly if the first stream blocks happen to go on
      with it. */
  lemma CutDirectoryIsLost(image: Bytes, total: nat, ws: seq<nat>, directory: Bytes)
    requires directory == Words(ws) && Fit32(ws) && |directory| > BLOCK_SIZE && |image| >= 4 * BLOCK_SIZE
    requires HasFront(image[..4 * BLOCK_SIZE], total, directory) && Fit32(HeaderWords(total, |directory|))
    ensures DirectoryRead(image, |directory|) == Some(ws)
            <==> 3 * BLOCK_SIZE + |directory| <= |image|
                 && image[4 * BLOCK_SIZE..3 * BLOCK_SIZE + |directory|] == directory[BLOCK_SIZE..]
  {
    if 3 * BLOCK_SIZE + |directory| <= |image| {
      var found := image[3 * BLOCK_SIZE..3 * BLOCK_SIZE + |directory|];
      ReadsFront(image, total, directory);
      TailBehindKept(image, directory);
      WordsOfRead(found);
      ReadsWords(ws);
    }
  }

  /** A file too short for the announced directory does not read at all. */
  lemma ShortFileIsUnreadable(image: Bytes, total: nat, directory: Bytes)
    requires |image| >= 4 * BLOCK_SIZE && HasFront(image[..4 * BLOCK_SIZE], total, directory)
    requires Fit32(HeaderWords(total, |directory|)) && 3 * BLOCK_SIZE + |directory| > |image|
    ensures ReadMsf(image) == None
  {
    ReadsFront(image, total, directory);
    ReadsPastTheEnd(image, total, |directory|);
  }

  lemma ReadsPastTheEnd(image: Bytes, total: nat, size: nat)
    requires |image| >= HEADER_SIZE && ReadWords(image[32..HEADER_SIZE]) == HeaderWords(total, size)
    requires 3 * BLOCK_SIZE + size > |image|
    ensures ReadMsf(image) == None
  {
    var fields := HeaderWords(total, size);
    assert fields[5] == 3 && fields[3] == size;
  }

  function EmptyStreams(n: nat): (streams: seq<Bytes>)
    ensures |streams| == n && forall i: nat :: i < n ==> streams[i] == []
  {
    seq(n, _ => [])
  }

  lemma {:induction false} EmptyStreamsTakeNoBlocks(streams: seq<Bytes>, i: nat)
    requires i <= |streams| && forall k: nat :: k < |streams| ==> streams[k] == []
    ensures FirstBlock(streams, i) == 4
  {
    if i > 0 { EmptyStreamsTakeNoBlocks(streams, i - 1); }
  }

  /** From 1024 empty streams on, the file that Build makes does not read. */
  lemma ManyStreamsAreUnreadable(image: Bytes, n: nat)
    requires 1024 <= n && 4 * (n + 1) < Pow256(4)
    requires var streams := EmptyStreams(n);
             |image| == 4 * BLOCK_SIZE && HasFront(image, 4, Words(DirectoryWords(streams)))
    ensures FirstBlock(EmptyStreams(n), n) == 4 && ReadMsf(image) == None
  {
    var streams := EmptyStreams(n);
    var directory := Words(DirectoryWords(streams));
    EmptyStreamsTakeNoBlocks(streams, n);
    assert |directory| == 4 * (n + 1);
    WordWidths();
    assert image[..4 * BLOCK_SIZE] == image;
    ShortFileIsUnreadable(image, 4, directory);
  }

  /**
    Every stream lies in its blocks, the header is in front, and as much of the directory as fits is in block 3.
    A file whose directory fits there reads back as the streams it was built from.
   */
  method Build(streams: seq<Bytes>) returns (result: array<Byte>)
    ensures result.Length == FirstBlock(streams, |streams|) * BLOCK_SIZE
    ensures forall i: nat :: i < |streams| ==> Placed(result[..], streams, i)
    ensures HasFront(result[..][..4 * BLOCK_SIZE], FirstBlock(streams, |streams|), Words(DirectoryWords(streams)))
    ensures 4 * |DirectoryWords(streams)| <= BLOCK_SIZE ==>
              ReadMsf(result[..]) == Some(streams) && DirectoryBlocks(result[..]) == Some([|streams|])
  {
    var layouts, nextBlock := AssignBlocks(streams);
    var directory := BuildDirectory(streams, layouts);
    var totalBlocks := nextBlock;
    result := new Byte[totalBlocks * BLOCK_SIZE](_ => 0);
    WriteFront(result, totalBlocks, directory.data);
    Scatter(result, streams, layouts);
    assert result[..][..4 * BLOCK_SIZE] == result[..4 * BLOCK_SIZE];
    if 4 * |DirectoryWords(streams)| <= BLOCK_SIZE {
      ReadsMsf(result[..], streams);
      DirectoryBlockIsTheCount(result[..], streams);
    }
  }
}

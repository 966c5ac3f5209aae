/** Ranged reads and checksums of file DAGs (casper/validation). */
module Validation {
  import opened Basics
  import opened UnixFS

  /** A DAG seen from a node: links that cannot be fetched lead to `Unfetchable`, and `message` is None
      where the data of a protobuf node does not decode. */
  datatype Node =
    | ProtoNode(message: Option<PBData>, links: seq<Node>)
    | RawNode(bytes: seq<Byte>)
    | OtherNode
    | Unfetchable

  datatype SliceError = InvalidBoundaries | NotFileNode | FetchError

  /** `Panicked` is a run-time panic of the original: an index or slice bound out of range. */
  datatype Outcome = Bytes(data: seq<Byte>) | Error(error: SliceError) | Panicked

  function Min(a: Word, b: Word): Word {
    if a < b then a else b
  }

  /** Go's `data[start:stop]`. */
  function Subslice(data: seq<Byte>, start: Word, stop: Word): Outcome {
    if start <= stop <= |data| then Bytes(data[start..stop]) else Panicked
  }

  predicate IsWrapper(n: Node) {
    n.ProtoNode? && n.message.Some? && n.message.value.typ == Directory && n.message.value.data == [] && |n.links| == 1
  }

  predicate IsFileType(m: PBData) {
    m.typ == File || m.typ == Raw
  }

  // ---- what a DAG stands for

  /** The bytes of the file: all leaves in order. */
  function Content(n: Node): seq<Byte>
    decreases n, |if n.ProtoNode? then n.links else []| + 1
  {
    match n
    case ProtoNode(Some(m), links) =>
      if IsWrapper(n) then Content(links[0]) else if m.data != [] then m.data else ContentFrom(n, 0)
    case RawNode(bytes) => bytes
    case _ => []
  }

  function ContentFrom(n: Node, i: nat): seq<Byte>
    requires n.ProtoNode? && i <= |n.links|
    decreases n, |n.links| - i
  {
    if i == |n.links| then [] else Content(n.links[i]) + ContentFrom(n, i + 1)
  }

  /** Block sizes are the lengths of the children, there is one per link, the file size is the length of the
      content, nodes with data have no links. A directory that wraps one file carries no size. */
  ghost predicate WellFormed(n: Node) {
    && |Content(n)| < WORD
    && match n
       case ProtoNode(Some(m), links) =>
         if IsWrapper(n) then
           m.filesize == 0 && WellFormed(links[0])
         else
           && IsFileType(m)
           && m.filesize == |Content(n)|
           && (m.data != [] ==> links == [] && m.blocksizes == [])
           && |m.blocksizes| == |links|
           && forall i :: 0 <= i < |links| ==> WellFormed(links[i]) && m.blocksizes[i] == |Content(links[i])|
       case RawNode(bytes) => true
       case _ => false
  }

  /** The content of the topmost block below `n` that starts at offset `p`, or nothing if none does. */
  ghost function BlockAt(n: Node, p: nat): seq<Byte>
    requires WellFormed(n)
    decreases n, |if n.ProtoNode? then n.links else []| + 1
  {
    if IsWrapper(n) then BlockAt(n.links[0], p) else if n.ProtoNode? then BlockFrom(n, 0, p) else []
  }

  /** The same among the children from `i` on, with `p` counted from the start of child `i`. */
  ghost function BlockFrom(n: Node, i: nat, p: nat): seq<Byte>
    requires WellFormed(n) && n.ProtoNode? && !IsWrapper(n) && i <= |n.links|
    decreases n, |n.links| - i
  {
    if i == |n.links| then []
    else
      var bs := |Content(n.links[i])|;
      if p >= bs then BlockFrom(n, i + 1, p - bs)
      else if p == 0 then Content(n.links[i])
      else BlockAt(n.links[i], p)
  }

  /** Where the non-empty blocks strictly below `n` start, except those at its very beginning. */
  ghost function InnerStarts(n: Node): set<nat>
    requires WellFormed(n)
    decreases n, |if n.ProtoNode? then n.links else []| + 1
  {
    if IsWrapper(n) then InnerStarts(n.links[0]) else if n.ProtoNode? then StartsFrom(n, 0, 0) - {0} else {}
  }

  ghost function StartsFrom(n: Node, i: nat, offset: nat): set<nat>
    requires WellFormed(n) && n.ProtoNode? && !IsWrapper(n) && i <= |n.links|
    decreases n, |n.links| - i
  {
    if i == |n.links| then {}
    else
      var bs := n.message.value.blocksizes[i];
      (if bs == 0 then {} else {offset}) + (set q | q in InnerStarts(n.links[i]) :: offset + q) + StartsFrom(n, i + 1, offset + bs)
  }

  // ---- the ranged read

  /** The ranges a caller may ask of a file of this size; `stop == 0` means the end of the file. */
  predicate Allowed(size: nat, start: nat, stop: nat) {
    start < stop <= size || (stop == 0 && start <= size) || start == stop == size
  }

  function Range(c: seq<Byte>, start: nat, stop: nat): seq<Byte>
    requires Allowed(|c|, start, stop)
  {
    c[start..if stop == 0 then |c| else stop]
  }

  /** Reading past the end with no explicit end: harmless only where no leaf is sliced. */
  predicate SlicesLeaf(n: Node) {
    if IsWrapper(n) then SlicesLeaf(n.links[0])
    else n.RawNode? || (n.ProtoNode? && n.message.Some? && n.message.value.data != [])
  }

  /** What a well-formed DAG answers, for all ranges, in terms of its content. */
  ghost function Expected(n: Node, start: nat, stop: nat): Outcome
    requires WellFormed(n)
  {
    var size := |Content(n)|;
    if Allowed(size, start, stop) then Bytes(Range(Content(n), start, stop))
    else if stop == 0 then (if SlicesLeaf(n) then Panicked else Bytes([]))
    else if start > stop || stop > size then Error(InvalidBoundaries)
    else Bytes(BlockAt(n, start))
  }

  /** The bytes from `start` to `stop`. `wrapped` reports whether an unsigned subtraction went below zero. */
  method GetSlice(n: Node, start: Word, stop: Word) returns (r: Outcome, wrapped: bool)
    ensures WellFormed(n) ==> r == Expected(n, start, stop) && !wrapped
    ensures WellFormed(n) && Allowed(|Content(n)|, start, stop) ==> r == Bytes(Range(Content(n), start, stop))
    decreases n
  {
    wrapped := false;
    if start > stop && stop != 0 {
      return Error(InvalidBoundaries), false;
    }
    match n {
      case ProtoNode(None, _) => return Error(NotFileNode), false;
      case ProtoNode(Some(m), links) =>
        if m.typ == Directory && |m.data| == 0 && |links| == 1 {
          r, wrapped := GetSlice(links[0], start, stop);
          return;
        }
        if m.typ != File && m.typ != Raw {
          return Error(NotFileNode), false;
        }
        if stop > m.filesize {
          return Error(InvalidBoundaries), false;
        }
        var end := if stop == 0 then m.filesize else stop;
        if |m.data| > 0 {
          assert WellFormed(n) ==> BlockFrom(n, 0, start) == [];
          if end < |m.data| {
            return Subslice(m.data, start, end), false;
          }
          return if start <= |m.data| then Bytes(m.data[start..]) else Panicked, false;
        }
        if WellFormed(n) && start >= |Content(n)| {
          NoBlockPastEnd(n, 0, start);
        }
        r, wrapped := SliceBlocks(n, m, start, end);
      case RawNode(bytes) =>
        if stop > |bytes| {
          return Error(InvalidBoundaries), false;
        }
        return if stop == 0 then (if start <= |bytes| then Bytes(bytes[start..]) else Panicked) else Subslice(bytes, start, stop), false;
      case OtherNode => return Error(NotFileNode), false;
      case Unfetchable => return Error(FetchError), false;
    }
  }

  lemma ContentStep(n: Node, i: nat, off: nat)
    requires WellFormed(n) && n.ProtoNode? && !IsWrapper(n) && i < |n.links| && Aligned(n, i, off)
    ensures WellFormed(n.links[i]) && n.message.value.blocksizes[i] == |Content(n.links[i])|
    ensures Aligned(n, i + 1, off + |Content(n.links[i])|)
    ensures off + |Content(n.links[i])| <= |Content(n)|
    ensures Content(n)[off..off + |Content(n.links[i])|] == Content(n.links[i])
  {
    var c, bs := Content(n), |Content(n.links[i])|;
    assert c[off..][..bs] == Content(n.links[i]) && c[off..][bs..] == ContentFrom(n, i + 1);
    assert c[off..][..bs] == c[off..off + bs] && c[off..][bs..] == c[off + bs..];
  }

  /** Child `i` starts at offset `off` of the content. */
  ghost predicate Aligned(n: Node, i: nat, off: nat)
    requires n.ProtoNode?
  {
    i <= |n.links| && off <= |Content(n)| && Content(n)[off..] == ContentFrom(n, i)
  }

  /** Where the loop stands before child `i`: still skipping blocks, or copying from the start of each. */
  ghost predicate Progress(n: Node, i: nat, off: nat, start0: Word, stop0: Word, start: Word, stop: Word, buf: seq<Byte>)
    requires n.ProtoNode?
  {
    && Aligned(n, i, off)
    && off <= stop0 && stop == stop0 - off
    && (if start0 < off then start == 0 < stop && buf == Content(n)[start0..off] else start == start0 - off && buf == [])
  }

  /** The ranges for which the loop is sound: ordered ones, or any up to the end of the file. */
  ghost predicate Sound(n: Node, start0: Word, stop0: Word) {
    && WellFormed(n) && n.ProtoNode? && !IsWrapper(n) && n.message.value.data == []
    && (start0 <= stop0 <= |Content(n)| || stop0 == |Content(n)|)
  }

  /** The part read from one block continues what was read so far. */
  lemma Appended(c: seq<Byte>, start0: nat, off: nat, bs: nat, start: nat, e: nat, buf: seq<Byte>)
    requires off + bs <= |c| && start <= e <= bs
    requires start == (if start0 < off then 0 else start0 - off)
    requires buf == (if start0 < off then c[start0..off] else [])
    ensures start0 <= off + e && buf + c[off..off + bs][start..e] == c[start0..off + e]
  {
    var piece := c[off..off + bs][start..e];
    forall k | 0 <= k < |piece|
      ensures piece[k] == c[off + start..off + e][k]
    {
      assert c[off..off + bs][start + k] == c[off + (start + k)];
    }
    assert piece == c[off + start..off + e];
  }

  lemma {:induction false} NoBlockPastEnd(n: Node, i: nat, p: nat)
    requires WellFormed(n) && n.ProtoNode? && !IsWrapper(n) && i <= |n.links|
    requires p >= |ContentFrom(n, i)|
    ensures BlockFrom(n, i, p) == []
    decreases |n.links| - i
  {
    if i < |n.links| {
      NoBlockPastEnd(n, i + 1, p - |Content(n.links[i])|);
    }
  }

  lemma Skip(n: Node, i: nat, off: nat, start0: Word, stop0: Word, start: Word, stop: Word, bs: Word)
    requires Sound(n, start0, stop0) && i < |n.message.value.blocksizes| && bs == n.message.value.blocksizes[i]
    requires Progress(n, i, off, start0, stop0, start, stop, []) && start >= bs
    ensures stop >= bs && Progress(n, i + 1, off + bs, start0, stop0, start - bs, stop - bs, [])
    ensures start0 == stop0 ==> BlockFrom(n, i, start) == BlockFrom(n, i + 1, start - bs)
  {
    ContentStep(n, i, off);
  }

  /** A block no longer than `start` is skipped; an empty block met while copying is skipped as well. */
  lemma StillSkipping(n: Node, i: nat, off: nat, start0: Word, stop0: Word, start: Word, stop: Word, bs: Word, buf: seq<Byte>)
    requires Sound(n, start0, stop0) && i < |n.message.value.blocksizes| && bs == n.message.value.blocksizes[i]
    requires Progress(n, i, off, start0, stop0, start, stop, buf) && start >= bs
    ensures stop >= bs && Progress(n, i + 1, off + bs, start0, stop0, start - bs, stop - bs, buf)
    ensures start0 == stop0 ==> BlockFrom(n, i, start) == BlockFrom(n, i + 1, start - bs)
  {
    if start0 < off {
      ContentStep(n, i, off);
    } else {
      Skip(n, i, off, start0, stop0, start, stop, bs);
    }
  }

  /** With the range beginning behind the end of the file every block is skipped. */
  lemma NothingLeft(n: Node, i: nat, off: nat, start0: Word, stop0: Word, start: Word, stop: Word, bs: Word, buf: seq<Byte>)
    requires Sound(n, start0, stop0) && start0 > stop0 && i < |n.message.value.blocksizes| && bs == n.message.value.blocksizes[i]
    requires Progress(n, i, off, start0, stop0, start, stop, buf)
    ensures start >= bs
  {
    ContentStep(n, i, off);
  }

  lemma Take(n: Node, i: nat, off: nat, start0: Word, stop0: Word, start: Word, stop: Word, bs: Word, buf: seq<Byte>)
    requires Sound(n, start0, stop0) && start0 < stop0
    requires i < |n.message.value.blocksizes| && bs == n.message.value.blocksizes[i] && start < bs
    requires Progress(n, i, off, start0, stop0, start, stop, buf)
    ensures WellFormed(n.links[i]) && start < Min(stop, bs) <= |Content(n.links[i])|
    ensures var buf' := buf + Content(n.links[i])[start..Min(stop, bs)];
      if stop <= bs then buf' == Content(n)[start0..stop0]
      else Progress(n, i + 1, off + bs, start0, stop0, 0, stop - bs, buf')
  {
    var c, e := Content(n), Min(stop, bs);
    ContentStep(n, i, off);
    Appended(c, start0, off, bs, start, e, buf);
    assert buf + Content(n.links[i])[start..e] == c[start0..off + e];
    assert stop <= bs ==> off + e == stop0;
  }

  lemma TakeNothing(n: Node, i: nat, off: nat, p: Word, start: Word, bs: Word, buf: seq<Byte>)
    requires Sound(n, p, p) && i < |n.message.value.blocksizes| && bs == n.message.value.blocksizes[i] && start < bs
    requires Progress(n, i, off, p, p, start, start, buf)
    ensures buf == [] && WellFormed(n.links[i])
    ensures Expected(n.links[i], start, start) == Bytes(BlockFrom(n, i, start))
  {
    ContentStep(n, i, off);
  }

  /** What holds before child `i` in a sound range; an empty one keeps looking for its block. */
  ghost predicate LoopInv(n: Node, i: nat, off: nat, start0: Word, stop0: Word, start: Word, stop: Word, buf: seq<Byte>)
    requires Sound(n, start0, stop0)
  {
    && Progress(n, i, off, start0, stop0, start, stop, buf)
    && (start0 == stop0 ==> start == stop && BlockFrom(n, 0, start0) == BlockFrom(n, i, start))
  }

  /** What the loop has to answer in the end. */
  ghost predicate Answered(n: Node, start0: Word, stop0: Word, buf: seq<Byte>)
    requires Sound(n, start0, stop0)
  {
    if start0 < stop0 then buf == Content(n)[start0..stop0] else if start0 == stop0 then buf == BlockFrom(n, 0, start0) else buf == []
  }

  lemma NoWrap(a: Word, b: Word)
    requires b <= a
    ensures Sub64(a, b) == a - b
  {
  }

  lemma SkipBlock(n: Node, i: nat, off: nat, start0: Word, stop0: Word, start: Word, stop: Word, bs: Word, buf: seq<Byte>)
    requires Sound(n, start0, stop0) && i < |n.message.value.blocksizes| && bs == n.message.value.blocksizes[i]
    requires LoopInv(n, i, off, start0, stop0, start, stop, buf) && start >= bs
    ensures stop >= bs && LoopInv(n, i + 1, off + bs, start0, stop0, Sub64(start, bs), Sub64(stop, bs), buf)
  {
    StillSkipping(n, i, off, start0, stop0, start, stop, bs, buf);
    NoWrap(start, bs);
    NoWrap(stop, bs);
  }

  lemma TakeBlock(n: Node, i: nat, off: nat, start0: Word, stop0: Word, start: Word, stop: Word, bs: Word, buf: seq<Byte>)
    requires Sound(n, start0, stop0) && i < |n.message.value.blocksizes| && bs == n.message.value.blocksizes[i]
    requires LoopInv(n, i, off, start0, stop0, start, stop, buf) && start < bs
    ensures WellFormed(n.links[i])
    ensures var e := Expected(n.links[i], start, Min(stop, bs));
      && e.Bytes?
      && (stop <= bs ==> Answered(n, start0, stop0, buf + e.data))
      && (stop > bs ==> LoopInv(n, i + 1, off + bs, start0, stop0, 0, Sub64(stop, bs), buf + e.data))
  {
    if stop > bs { NoWrap(stop, bs); }
    if start0 < stop0 {
      Take(n, i, off, start0, stop0, start, stop, bs, buf);
    } else if start0 == stop0 {
      TakeNothing(n, i, off, start0, start, bs, buf);
      assert buf + BlockFrom(n, i, start) == BlockFrom(n, i, start);
    } else {
      NothingLeft(n, i, off, start0, stop0, start, stop, bs, buf);
    }
  }

  lemma NoBlocksLeft(n: Node, off: nat, start0: Word, stop0: Word, start: Word, stop: Word, buf: seq<Byte>)
    requires Sound(n, start0, stop0) && LoopInv(n, |n.links|, off, start0, stop0, start, stop, buf)
    ensures Answered(n, start0, stop0, buf)
  {
    assert off == |Content(n)| == stop0;
  }

  /** The loop over the block sizes, with `stop0` the resolved end of the range. */
  method SliceBlocks(n: Node, m: PBData, start0: Word, stop0: Word) returns (r: Outcome, wrapped: bool)
    requires n.ProtoNode? && n.message == Some(m) && !IsWrapper(n) && m.data == []
    ensures Sound(n, start0, stop0) ==> !wrapped && r.Bytes? && Answered(n, start0, stop0, r.data)
    decreases n, 0
  {
    var start: Word, stop: Word, buf: seq<Byte> := start0, stop0, [];
    ghost var sound := Sound(n, start0, stop0);
    wrapped := false;
    ghost var off: nat := 0;
    for i := 0 to |m.blocksizes|
      invariant sound ==> !wrapped && LoopInv(n, i, off, start0, stop0, start, stop, buf)
    {
      var bs := m.blocksizes[i];
      if start >= bs {
        if sound { SkipBlock(n, i, off, start0, stop0, start, stop, bs, buf); }
        wrapped := wrapped || stop < bs;
        start, stop := Sub64(start, bs), Sub64(stop, bs);
        off := off + bs;
        continue;
      }
      if i >= |n.links| {
        return Panicked, wrapped;
      }
      if sound { TakeBlock(n, i, off, start0, stop0, start, stop, bs, buf); }
      var sl, w := GetSlice(n.links[i], start, Min(stop, bs));
      wrapped := wrapped || w;
      if !sl.Bytes? {
        return sl, wrapped;
      }
      buf := buf + sl.data;
      if stop <= bs {
        return Bytes(buf), wrapped;
      }
      start := 0;
      wrapped := wrapped || stop < bs;
      stop := Sub64(stop, bs);
      off := off + bs;
    }
    if sound { NoBlocksLeft(n, off, start0, stop0, start, stop, buf); }
    r := Bytes(buf);
  }

  lemma {:induction false} BlockSizesAddUp(n: Node, i: nat)
    requires n.ProtoNode? && n.message.Some? && |n.message.value.blocksizes| == |n.links| && i <= |n.links|
    requires forall j :: 0 <= j < |n.links| ==> n.message.value.blocksizes[j] == |Content(n.links[j])|
    ensures |ContentFrom(n, i)| == Sum(n.message.value.blocksizes[i..])
    decreases |n.links| - i
  {
    if i < |n.links| { BlockSizesAddUp(n, i + 1); }
  }

  /** A file node whose block sizes were recorded child by child encodes to a well-formed DAG. */
  lemma RecordedSizesAreWellFormed(fs: FSNode, links: seq<Node>)
    requires fs.Tracks() && fs.data == [] && fs.typ == File && Sum(fs.blocksizes) < WORD
    requires |links| == |fs.blocksizes|
    requires forall i :: 0 <= i < |links| ==> WellFormed(links[i]) && fs.blocksizes[i] == |Content(links[i])|
    ensures WellFormed(ProtoNode(Some(fs.GetBytes()), links))
  {
    BlockSizesAddUp(ProtoNode(Some(fs.GetBytes()), links), 0);
    assert fs.blocksizes[0..] == fs.blocksizes;
  }

  // ---- empty ranges inside the file

  lemma {:induction false} StartsInside(n: Node, x: nat)
    requires WellFormed(n) && x in InnerStarts(n)
    ensures 0 < x < |Content(n)|
    decreases n, |if n.ProtoNode? then n.links else []| + 1
  {
    if IsWrapper(n) {
      StartsInside(n.links[0], x);
    } else {
      StartsAfter(n, 0, 0, x);
    }
  }

  lemma {:induction false} StartsAfter(n: Node, i: nat, off: nat, x: nat)
    requires WellFormed(n) && n.ProtoNode? && !IsWrapper(n) && i <= |n.links|
    requires x in StartsFrom(n, i, off)
    ensures n.message.value.data == [] && off <= x < off + |ContentFrom(n, i)|
    decreases n, |n.links| - i
  {
    var child, bs := n.links[i], n.message.value.blocksizes[i];
    assert WellFormed(child) && bs == |Content(child)|;
    if x in StartsFrom(n, i + 1, off + bs) {
      StartsAfter(n, i + 1, off + bs, x);
    } else if x != off || bs == 0 {
      var q :| q in InnerStarts(child) && x == off + q;
      StartsInside(child, q);
    }
  }

  lemma {:induction false} BlockAtStart(n: Node, p: nat)
    requires WellFormed(n) && p > 0
    ensures BlockAt(n, p) != [] <==> p in InnerStarts(n)
    decreases n, |if n.ProtoNode? then n.links else []| + 1
  {
    if IsWrapper(n) {
      BlockAtStart(n.links[0], p);
    } else if n.ProtoNode? {
      BlockFromStart(n, 0, 0, p);
    }
  }

  lemma Shifted(s: set<nat>, off: nat, p: nat)
    ensures off + p in (set q | q in s :: off + q) <==> p in s
  {
  }

  /** Where child `i` starts counts as one of the starts from it on; the others are inside it or after it. */
  lemma StartsOfChild(n: Node, i: nat, off: nat, p: nat)
    requires WellFormed(n) && n.ProtoNode? && !IsWrapper(n) && i < |n.links|
    ensures var bs := n.message.value.blocksizes[i];
      && WellFormed(n.links[i]) && bs == |Content(n.links[i])|
      && (off + p in StartsFrom(n, i, off) <==>
            (if p >= bs then off + p in StartsFrom(n, i + 1, off + bs) else p == 0 || p in InnerStarts(n.links[i])))
  {
    var child, bs := n.links[i], n.message.value.blocksizes[i];
    assert WellFormed(child) && bs == |Content(child)|;
    Shifted(InnerStarts(child), off, p);
    if p in InnerStarts(child) { StartsInside(child, p); }
    if off + p in StartsFrom(n, i + 1, off + bs) { StartsAfter(n, i + 1, off + bs, off + p); }
  }

  lemma {:induction false} BlockFromStart(n: Node, i: nat, off: nat, p: nat)
    requires WellFormed(n) && n.ProtoNode? && !IsWrapper(n) && i <= |n.links|
    ensures BlockFrom(n, i, p) != [] <==> off + p in StartsFrom(n, i, off)
    decreases n, |n.links| - i
  {
    if i < |n.links| {
      var child, bs := n.links[i], n.message.value.blocksizes[i];
      StartsOfChild(n, i, off, p);
      if p >= bs {
        BlockFromStart(n, i + 1, off + bs, p - bs);
      } else if p > 0 {
        BlockAtStart(child, p);
      }
    }
  }

  /** An empty range strictly inside the file yields the empty slice exactly if no non-empty block starts
      there; otherwise the child is asked for a range that ends in 0 and returns all its bytes. */
  lemma EmptyRangeExactly(n: Node, p: nat)
    requires WellFormed(n) && 0 < p < |Content(n)|
    ensures Expected(n, p, p) == Bytes(Content(n)[p..p]) <==> p !in InnerStarts(n)
  {
    BlockAtStart(n, p);
    assert Content(n)[p..p] == [];
  }

  function Leaf(bytes: seq<Byte>): Node {
    RawNode(bytes)
  }

  /** A file of two one-byte blocks, asked for the empty range between them, answers with the second block. */
  lemma EmptyRangeOnBoundary(a: Byte, b: Byte)
    ensures var n := ProtoNode(Some(PBData(File, [], 2, [1, 1])), [Leaf([a]), Leaf([b])]);
      WellFormed(n) && Content(n) == [a, b] && Expected(n, 1, 1) == Bytes([b])
  {
    var n := ProtoNode(Some(PBData(File, [], 2, [1, 1])), [Leaf([a]), Leaf([b])]);
    assert ContentFrom(n, 2) == [];
    assert ContentFrom(n, 1) == [b];
    assert ContentFrom(n, 0) == [a, b];
    assert WellFormed(n.links[0]) && WellFormed(n.links[1]);
    assert BlockFrom(n, 0, 1) == BlockFrom(n, 1, 0) == [b];
    assert BlockAt(n, 1) == [b];
  }

  // ---- checksums and random chunks

  datatype ChecksumResult<H> = Checksum(sum: H) | Refused(error: SliceError) | Crashed

  const INT64: int := 0x8000_0000_0000_0000

  /** What becomes of the answer of a ranged read. */
  function ChecksumOf<H>(hash: seq<Byte> -> H, o: Outcome, salt: seq<Byte>): ChecksumResult<H> {
    match o
    case Bytes(data) => Checksum(hash(data + salt))
    case Error(e) => Refused(e)
    case Panicked => Crashed
  }

  /** The hash of the bytes of the range followed by the salt. For a well-formed DAG and an allowed range it is
      a function of the content alone: no trace of the layout is left. */
  method ChecksumSalt<H>(hash: seq<Byte> -> H, n: Node, start: int, stop: int, salt: seq<Byte>) returns (r: ChecksumResult<H>)
    requires -INT64 <= start < INT64 && -INT64 <= stop < INT64
    ensures start < 0 || stop < 0 ==> r == Refused(InvalidBoundaries)
    ensures start >= 0 && stop >= 0 && WellFormed(n) ==> r == ChecksumOf(hash, Expected(n, start, stop), salt)
    ensures start >= 0 && stop >= 0 && WellFormed(n) && Allowed(|Content(n)|, start, stop) ==>
      r == Checksum(hash(Range(Content(n), start, stop) + salt))
  {
    if start < 0 || stop < 0 {
      return Refused(InvalidBoundaries);
    }
    var data, _ := GetSlice(n, start, stop);
    match data {
      case Error(e) => return Refused(e);
      case Panicked => return Crashed;
      case Bytes(bytes) => return Checksum(hash(bytes + salt));
    }
  }

  /** Providers that hold the same file in different layouts get the same checksum, and under a
      collision-free hash a provider that holds other bytes in the range does not. */
  method CompareProviders<H(==)>(hash: seq<Byte> -> H, n1: Node, n2: Node, start: int, stop: int, salt: seq<Byte>) returns (agree: bool)
    requires WellFormed(n1) && WellFormed(n2) && |Content(n1)| < INT64 && |Content(n2)| < INT64 && start >= 0 && stop >= 0
    requires Allowed(|Content(n1)|, start, stop) && Allowed(|Content(n2)|, start, stop)
    ensures Range(Content(n1), start, stop) == Range(Content(n2), start, stop) ==> agree
    ensures (forall x, y :: hash(x) == hash(y) ==> x == y) && agree ==> Range(Content(n1), start, stop) == Range(Content(n2), start, stop)
  {
    var c1 := ChecksumSalt(hash, n1, start, stop, salt);
    var c2 := ChecksumSalt(hash, n2, start, stop, salt);
    agree := c1 == c2;
    ghost var x, y := Range(Content(n1), start, stop), Range(Content(n2), start, stop);
    if x + salt == y + salt {
      assert |x| == |y| && x == (x + salt)[..|x|] && y == (y + salt)[..|y|];
    }
  }

  /** The size the node itself records: none for a directory, even one that wraps a file. */
  function GetFilesize(n: Node): Filesize {
    match n
    case ProtoNode(Some(m), _) => Size(m.filesize)
    case ProtoNode(None, _) => NoSize(NotFileNode)
    case RawNode(bytes) => if |bytes| < WORD then Size(|bytes|) else NoSize(NotFileNode)
    case _ => NoSize(NotFileNode)
  }

  datatype Filesize = Size(size: Word) | NoSize(error: SliceError)

  /** The chunk that `getRandomChunk` draws with index `rind`, which ranges over 0..size/blocksize inclusive. */
  function Chunk(size: nat, blocksize: nat, rind: nat): (int, int)
  {
    (rind * blocksize, if (rind + 1) * blocksize > size then size else (rind + 1) * blocksize)
  }

  ghost predicate Drawable(size: nat, blocksize: nat, rind: nat)
    requires blocksize > 0
  {
    rind < size / blocksize + 1
  }

  lemma DrawnIndex(size: nat, blocksize: nat, rind: nat)
    requires blocksize > 0 && Drawable(size, blocksize, rind)
    ensures rind * blocksize <= size
    ensures (rind + 1) * blocksize == rind * blocksize + blocksize
    ensures rind + 1 < size / blocksize + 1 ==> (rind + 1) * blocksize <= size
    ensures rind + 1 == size / blocksize + 1 ==> (rind + 1) * blocksize > size
  {
    var q := size / blocksize;
    assert size == q * blocksize + size % blocksize;
    MulMonotone(rind, q, blocksize);
    if rind + 1 <= q { MulMonotone(rind + 1, q, blocksize); }
  }

  lemma MulMonotone(a: nat, b: nat, c: nat)
    requires a <= b
    ensures a * c <= b * c
  {
  }

  /** Every chunk that can be drawn is a range the ranged read allows. With sizes as far below 2^63 as one
      block, no signed product overflows. */
  lemma ChunksAreAllowed(n: Node, blocksize: nat, rind: nat)
    requires WellFormed(n) && blocksize > 0 && GetFilesize(n).Size? && Drawable(GetFilesize(n).size, blocksize, rind)
    ensures var (first, last) := Chunk(GetFilesize(n).size, blocksize, rind);
      && first >= 0 && last >= 0 && Allowed(|Content(n)|, first, last)
      && first == rind * blocksize
      && last == (if rind < GetFilesize(n).size / blocksize then first + blocksize else GetFilesize(n).size)
      && (GetFilesize(n).size + blocksize < INT64 ==> first < INT64 && (rind + 1) * blocksize < INT64)
  {
    DrawnIndex(GetFilesize(n).size, blocksize, rind);
  }

  /** The bytes of the first `k` chunks, one after the other. */
  ghost function FirstChunks(c: seq<Byte>, size: nat, blocksize: nat, k: nat): seq<Byte>
    requires blocksize > 0 && k <= size / blocksize + 1 && (size == |c| || size == 0)
  {
    if k == 0 then []
    else
      var (first, last) := Chunk(size, blocksize, k - 1);
      DrawnIndex(size, blocksize, k - 1);
      FirstChunks(c, size, blocksize, k - 1) + Range(c, first, last)
  }

  /** Where the first `k` chunks end. */
  function Boundary(size: nat, blocksize: nat, k: nat): nat {
    if k * blocksize > size then size else k * blocksize
  }

  /** Each chunk starts where the one before it ended. */
  lemma ChunkContinues(c: seq<Byte>, blocksize: nat, rind: nat)
    requires blocksize > 0 && Drawable(|c|, blocksize, rind)
    ensures var (first, last) := Chunk(|c|, blocksize, rind);
      && first == Boundary(|c|, blocksize, rind) && 0 <= last && Allowed(|c|, first, last)
      && c[..first] + Range(c, first, last) == c[..Boundary(|c|, blocksize, rind + 1)]
  {
    DrawnIndex(|c|, blocksize, rind);
    if |c| == 0 { assert c == []; }
  }

  lemma {:induction false} FirstChunksArePrefix(c: seq<Byte>, blocksize: nat, k: nat)
    requires blocksize > 0 && k <= |c| / blocksize + 1
    ensures FirstChunks(c, |c|, blocksize, k) == c[..Boundary(|c|, blocksize, k)]
  {
    if k > 0 {
      ChunkContinues(c, blocksize, k - 1);
      FirstChunksArePrefix(c, blocksize, k - 1);
    }
  }

  lemma WholeFileTiles(c: seq<Byte>, blocksize: nat)
    requires blocksize > 0
    ensures FirstChunks(c, |c|, blocksize, |c| / blocksize + 1) == c
  {
    DrawnIndex(|c|, blocksize, |c| / blocksize);
    FirstChunksArePrefix(c, blocksize, |c| / blocksize + 1);
    assert c[..|c|] == c;
  }

  lemma WrappedFileTiles(c: seq<Byte>, blocksize: nat)
    requires blocksize > 0
    ensures FirstChunks(c, 0, blocksize, 0 / blocksize + 1) == c
  {
    DrawnIndex(0, blocksize, 0);
    assert FirstChunks(c, 0, blocksize, 0) == [] && 0 / blocksize == 0;
    assert Range(c, 0, 0) == c;
  }

  /** The chunks tile the file: read in order of their index they give back its content, nothing twice and
      nothing left out. A wrapped file records size 0 and has one chunk, the whole file. */
  lemma ChunksTileTheFile(n: Node, blocksize: nat)
    requires WellFormed(n) && blocksize > 0 && GetFilesize(n).Size?
    ensures var size := GetFilesize(n).size;
      (size == |Content(n)| || size == 0) && FirstChunks(Content(n), size, blocksize, size / blocksize + 1) == Content(n)
  {
    WholeFileTiles(Content(n), blocksize);
    WrappedFileTiles(Content(n), blocksize);
  }
}

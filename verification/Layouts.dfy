/** Files laid out as DAGs the way the importer does it (importer/helpers/helpers.go), and read back. What comes out is
    stated in terms of the bytes that went in. */
module Layouts {
  import opened Basics
  import opened UnixFS
  import opened Validation

  /** Bytes in raw leaves or in leaves that carry data, below inner nodes of any depth. */
  datatype Layout = RawLeaf(bytes: seq<Byte>) | DataLeaf(bytes: seq<Byte>) | Inner(children: seq<Layout>)

  /** The bytes of the leaves, one after the other. */
  function Flat(l: Layout): seq<Byte>
    decreases l, 0
  {
    match l
    case RawLeaf(bytes) => bytes
    case DataLeaf(bytes) => bytes
    case Inner(children) => FlatAll(children)
  }

  function FlatAll(ls: seq<Layout>): seq<Byte>
    decreases ls, 1
  {
    if ls == [] then [] else Flat(ls[0]) + FlatAll(ls[1..])
  }

  lemma {:induction false} FlatSplits(ls: seq<Layout>, i: nat)
    requires i < |ls|
    ensures |Flat(ls[i])| <= |FlatAll(ls)| && |FlatAll(ls)| >= |FlatAll(ls[i..])|
    ensures FlatAll(ls[i..]) == Flat(ls[i]) + FlatAll(ls[i + 1..])
  {
    if i > 0 {
      FlatSplits(ls[1..], i - 1);
      assert ls[1..][i - 1..] == ls[i..] && ls[1..][i..] == ls[i + 1..];
    } else {
      assert ls[0..] == ls;
    }
  }

  /** Laid-out children, with the sizes recorded for them. */
  ghost predicate LaidOut(ls: seq<Layout>, links: seq<Node>, sizes: seq<Word>) {
    && |links| == |sizes| == |ls|
    && forall j :: 0 <= j < |ls| ==> WellFormed(links[j]) && Content(links[j]) == Flat(ls[j]) && sizes[j] == |Content(links[j])|
  }

  lemma {:induction false} SizesAddUp(ls: seq<Layout>, links: seq<Node>, sizes: seq<Word>)
    requires LaidOut(ls, links, sizes)
    ensures Sum(sizes) == |FlatAll(ls)|
  {
    if ls != [] {
      SizesAddUp(ls[1..], links[1..], sizes[1..]);
    }
  }

  lemma {:induction false} ContentIsFlat(ls: seq<Layout>, n: Node, i: nat)
    requires n.ProtoNode? && |n.links| == |ls| && i <= |ls|
    requires forall j :: 0 <= j < |ls| ==> Content(n.links[j]) == Flat(ls[j])
    ensures ContentFrom(n, i) == FlatAll(ls[i..])
    decreases |ls| - i
  {
    if i < |ls| {
      ContentIsFlat(ls, n, i + 1);
      FlatSplits(ls, i);
    }
  }

  lemma InnerNodeIsFlat(ls: seq<Layout>, links: seq<Node>, fs: FSNode)
    requires LaidOut(ls, links, fs.blocksizes) && fs.Tracks() && fs.data == [] && fs.typ == File && |FlatAll(ls)| < WORD
    ensures var n := ProtoNode(Some(fs.GetBytes()), links);
      WellFormed(n) && !IsWrapper(n) && Content(n) == FlatAll(ls) && GetFilesize(n) == Size(|FlatAll(ls)|)
  {
    var n := ProtoNode(Some(fs.GetBytes()), links);
    SizesAddUp(ls, links, fs.blocksizes);
    RecordedSizesAreWellFormed(fs, links);
    ContentIsFlat(ls, n, 0);
    assert ls[0..] == ls;
  }

  /** Builds the DAG: data goes into leaves, and every inner node records the sizes of its children. */
  method Lay(l: Layout) returns (n: Node)
    requires |Flat(l)| < WORD
    ensures WellFormed(n) && !IsWrapper(n) && Content(n) == Flat(l) && GetFilesize(n) == Size(|Flat(l)|)
    decreases l
  {
    match l {
      case RawLeaf(bytes) => return RawNode(bytes);
      case DataLeaf(bytes) =>
        var fs := new FSNode(File);
        fs.data := bytes;
        n := ProtoNode(Some(fs.GetBytes()), []);
        assert ContentFrom(n, 0) == [];
      case Inner(children) =>
        var fs := new FSNode(File);
        var links: seq<Node> := [];
        for i := 0 to |children|
          invariant fs.Tracks() && fs.data == [] && fs.typ == File && fresh(fs)
          invariant LaidOut(children[..i], links, fs.blocksizes)
        {
          FlatSplits(children, i);
          var child := Lay(children[i]);
          fs.AddBlockSize(GetFilesize(child).size);
          links := links + [child];
        }
        assert children[..|children|] == children;
        InnerNodeIsFlat(children, links, fs);
        n := ProtoNode(Some(fs.GetBytes()), links);
    }
  }

  /** A directory around a single file. */
  method Wrap(n: Node) returns (w: Node)
    requires WellFormed(n)
    ensures WellFormed(w) && Content(w) == Content(n)
  {
    var fs := new FSNode(Directory);
    w := ProtoNode(Some(fs.GetBytes()), [n]);
  }

  method Store(l: Layout, wrapped: bool) returns (n: Node)
    requires |Flat(l)| < WORD
    ensures WellFormed(n) && Content(n) == Flat(l)
  {
    n := Lay(l);
    if wrapped {
      n := Wrap(n);
    }
  }

  /** Whatever the layout, wrapped in a directory or not, a ranged read hands back the bytes that were laid out. */
  method ReadBack(l: Layout, wrapped: bool, start: Word, stop: Word) returns (r: Outcome, wraps: bool)
    requires |Flat(l)| < WORD
    ensures start < stop <= |Flat(l)| ==> r == Bytes(Flat(l)[start..stop])
    ensures stop == 0 && start <= |Flat(l)| ==> r == Bytes(Flat(l)[start..])
    ensures start == stop == |Flat(l)| ==> r == Bytes([])
    ensures stop != 0 && (start > stop || stop > |Flat(l)|) ==> r == Error(InvalidBoundaries)
    ensures !wraps
  {
    var n := Store(l, wrapped);
    r, wraps := GetSlice(n, start, stop);
  }

  /** A leaf that carries data, on its own. */
  method ReadLeaf(bytes: seq<Byte>, start: Word, stop: Word) returns (r: Outcome)
    requires start < stop <= |bytes| < WORD
    ensures r == Bytes(bytes[start..stop])
  {
    var wraps;
    r, wraps := ReadBack(DataLeaf(bytes), false, start, stop);
  }

  /** Two providers that hold the same bytes in any two layouts compute the hash of these bytes and the salt. */
  method ChecksumBack<H>(hash: seq<Byte> -> H, l: Layout, wrapped: bool, start: int, stop: int, salt: seq<Byte>)
    returns (r: ChecksumResult<H>)
    requires |Flat(l)| < WORD && 0 <= start < INT64 && 0 <= stop < INT64
    ensures start < stop <= |Flat(l)| ==> r == Checksum(hash(Flat(l)[start..stop] + salt))
    ensures stop == 0 && start <= |Flat(l)| ==> r == Checksum(hash(Flat(l)[start..] + salt))
    ensures stop != 0 && (start > stop || stop > |Flat(l)|) ==> r == Refused(InvalidBoundaries)
  {
    var n := Store(l, wrapped);
    r := ChecksumSalt(hash, n, start, stop, salt);
    assert stop == 0 && start <= |Flat(l)| ==> Flat(l)[start..|Flat(l)|] == Flat(l)[start..];
  }
}

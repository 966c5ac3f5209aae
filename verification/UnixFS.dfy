/** The file layer of DAG nodes (unixfs/format.go): block sizes, file size, and the encoded message. */
module UnixFS {
  import opened Basics

  const WORD: int := 0x1_0000_0000_0000_0000

  /** A uint64. */
  type Word = w: int | 0 <= w < WORD

  /** uint64 addition and subtraction wrap around. */
  function Add64(a: Word, b: int): Word {
    (a + b) % WORD
  }

  function Sub64(a: Word, b: int): Word {
    (a - b) % WORD
  }

  datatype DataType = Raw | Directory | File | Metadata | Symlink | HAMTShard

  /** The protobuf message held in the data field of a file node. */
  datatype PBData = PBData(typ: DataType, data: seq<Byte>, filesize: Word, blocksizes: seq<Word>)

  function Sum(s: seq<Word>): nat {
    if s == [] then 0 else s[0] + Sum(s[1..])
  }

  lemma {:induction false} SumAppend(s: seq<Word>, t: seq<Word>)
    ensures Sum(s + t) == Sum(s) + Sum(t)
  {
    if s == [] {
      assert s + t == t;
    } else {
      assert (s + t)[1..] == s[1..] + t;
      SumAppend(s[1..], t);
    }
  }

  lemma SumRemove(s: seq<Word>, i: nat)
    requires i < |s|
    ensures Sum(s) == Sum(s[..i] + s[i + 1..]) + s[i]
  {
    SumAppend(s[..i], s[i + 1..]);
    SumAppend(s[..i], s[i..]);
    assert s[..i] + s[i..] == s;
    assert s[i..][1..] == s[i + 1..];
  }

  lemma WrapShift(x: int, k: int)
    ensures (x + k * WORD) % WORD == x % WORD
  {
  }

  lemma WrapAdd(a: int, b: int)
    ensures (a % WORD + b) % WORD == (a + b) % WORD
  {
    WrapShift(a + b, -(a / WORD));
  }

  /** Taking `d` off undoes adding it, whatever wraps. */
  lemma WrapUndo(f: Word, d: nat, s: nat)
    ensures Add64(d % WORD, Sub64(f, d)) == f
    ensures Sub64(f, d) == s % WORD <==> f == (d + s) % WORD
  {
    WrapAdd(d, Sub64(f, d));
    WrapAdd(f - d, d);
    WrapAdd(s, d);
    var gone: int := d;
    WrapAdd(d + s, -gone);
  }

  class FSNode {
    var data: seq<Byte>
    var blocksizes: seq<Word>
    var subtotal: Word
    var typ: DataType

    /** The running sum agrees with the block sizes, as far as 64 bits go. */
    ghost predicate Tracks()
      reads this
    {
      subtotal == Sum(blocksizes) % WORD
    }

    constructor (typ: DataType)
      ensures Tracks() && data == [] && blocksizes == [] && this.typ == typ
    {
      data, blocksizes, subtotal := [], [], 0;
      this.typ := typ;
    }

    constructor FromBytes(pb: PBData)
      ensures data == pb.data && blocksizes == pb.blocksizes && typ == pb.typ
      ensures FileSize() == pb.filesize
      ensures Tracks() <==> pb.filesize == (|pb.data| + Sum(pb.blocksizes)) % WORD
    {
      WrapUndo(pb.filesize, |pb.data|, Sum(pb.blocksizes));
      data, blocksizes, typ := pb.data, pb.blocksizes, pb.typ;
      subtotal := Sub64(pb.filesize, |pb.data|);
    }

    method AddBlockSize(s: Word)
      modifies this
      ensures blocksizes == old(blocksizes) + [s] && data == old(data) && typ == old(typ)
      ensures FileSize() == Add64(old(FileSize()), s)
      ensures old(Tracks()) ==> Tracks()
    {
      SumAppend(blocksizes, [s]);
      WrapAdd(Sum(blocksizes), s);
      WrapAdd(|data| % WORD + subtotal, s);
      WrapAdd(subtotal + s, |data| % WORD);
      subtotal := Add64(subtotal, s);
      blocksizes := blocksizes + [s];
    }

    method RemoveBlockSize(i: nat)
      requires i < |blocksizes|
      modifies this
      ensures blocksizes == old(blocksizes)[..i] + old(blocksizes)[i + 1..] && data == old(data) && typ == old(typ)
      ensures FileSize() == Sub64(old(FileSize()), old(blocksizes)[i])
      ensures old(Tracks()) ==> Tracks()
    {
      SumRemove(blocksizes, i);
      ghost var gone: int := blocksizes[i];
      WrapAdd(Sum(blocksizes), -gone);
      WrapAdd(|data| % WORD + subtotal, -gone);
      WrapAdd(subtotal - gone, |data| % WORD);
      subtotal := Sub64(subtotal, blocksizes[i]);
      blocksizes := blocksizes[..i] + blocksizes[i + 1..];
    }

    function FileSize(): Word
      reads this
    {
      Add64(|data| % WORD, subtotal)
    }

    function GetBytes(): PBData
      reads this
    {
      PBData(typ, data, FileSize(), blocksizes)
    }
  }

  /** Encoding and decoding a node gives back all its fields, the private running sum included. */
  method EncodeDecode(n: FSNode) returns (m: FSNode)
    ensures m.data == n.data && m.blocksizes == n.blocksizes && m.typ == n.typ && m.subtotal == n.subtotal
    ensures m.Tracks() <==> n.Tracks()
  {
    m := new FSNode.FromBytes(n.GetBytes());
  }
}

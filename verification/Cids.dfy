/** Content identifiers, the nodes they identify, and the mutable `cid.Set`. */
module Cids {
  import Sorting

  /** An ideal content address: the CID of a protobuf node is the node itself, so no two nodes share one.
      `Opaque` stands for every other CID: raw blocks, other codecs, and blocks named by the hash of a UUID. */
  datatype Cid = Opaque(id: nat) | OfNode(node: DagNode)

  datatype Link = Link(name: string, size: nat, cid: Cid)

  /** Links are sorted by their names. */
  predicate NameLess(a: Link, b: Link) {
    Sorting.StringLess(a.name, b.name)
  }

  /** The data field of a node: empty, a pin-set header, or any other bytes. */
  datatype NodeData = NoData | SetHeader(version: nat, fanout: nat, seed: nat) | OtherData(bytes: seq<nat>)

  datatype DagNode = DagNode(links: seq<Link>, data: NodeData)

  ghost predicate NoDuplicates<T>(s: seq<T>) {
    forall i, j :: 0 <= i < j < |s| ==> s[i] != s[j]
  }

  ghost function Elems<T>(s: seq<T>): set<T> {
    set x | x in s
  }

  class CidSet {
    var elems: set<Cid>

    constructor ()
      ensures elems == {}
    {
      elems := {};
    }

    method Add(c: Cid)
      modifies this
      ensures elems == old(elems) + {c}
    {
      elems := elems + {c};
    }

    method Remove(c: Cid)
      modifies this
      ensures elems == old(elems) - {c}
    {
      elems := elems - {c};
    }

    predicate Has(c: Cid)
      reads this
    {
      c in elems
    }

    /** Adds `c`; the answer says whether it was new. */
    method Visit(c: Cid) returns (unseen: bool)
      modifies this
      ensures elems == old(elems) + {c}
      ensures unseen == (c !in old(elems))
    {
      unseen := c !in elems;
      elems := elems + {c};
    }

    /** All members, each once, in no particular order. */
    method Keys() returns (keys: seq<Cid>)
      ensures NoDuplicates(keys) && Elems(keys) == elems
    {
      keys := [];
      var rest := elems;
      while rest != {}
        invariant rest <= elems
        invariant NoDuplicates(keys) && Elems(keys) == elems - rest
        decreases |rest|
      {
        var c :| c in rest;
        assert c !in Elems(keys);
        assert Elems(keys + [c]) == Elems(keys) + {c};
        keys := keys + [c];
        rest := rest - {c};
      }
    }
  }
}

/** A DAG node with its cached encoding and CID (merkledag/node.go, merkledag/coding.go). */
module ProtoNodes {
  import opened Basics
  import opened Cids
  import Sorting

  /** How a CID is made: its version, codec, hash function and digest length. */
  datatype Prefix = Prefix(version: nat, codec: nat, mhType: nat, mhLength: int)

  const DAG_PROTOBUF: nat := 0x70
  const SHA2_256: nat := 0x12
  const UUID_LEN: nat := 16
  const TWO64: nat := 0x1_0000_0000_0000_0000

  const V0_PREFIX := Prefix(0, DAG_PROTOBUF, SHA2_256, -1)
  const V1_PREFIX := Prefix(1, DAG_PROTOBUF, SHA2_256, -1)
  const NO_PREFIX := Prefix(0, 0, 0, 0)
  const NULL_UUID: seq<Byte> := Zeros(UUID_LEN)

  /** The protobuf layout and the hash functions: `encode` lays out links and data, `sum` hashes bytes to a CID. */
  datatype Codec = Codec(
    encode: (seq<Link>, seq<Byte>) -> seq<Byte>,
    decode: seq<Byte> -> Option<(seq<Link>, seq<Byte>)>,
    sum: (Prefix, seq<Byte>) -> Cid,
    prefixOf: Cid -> Prefix)

  /** What is encoded can be decoded, and a CID tells how to hash the next one in the same way. */
  ghost predicate Faithful(codec: Codec) {
    && (forall links, data :: codec.decode(codec.encode(links, data)) == Some((links, data)))
    && (forall p, x :: SumsAlike(codec, p, codec.prefixOf(codec.sum(p, x))))
  }

  ghost predicate SumsAlike(codec: Codec, p: Prefix, q: Prefix) {
    p.codec == DAG_PROTOBUF ==> q.codec == DAG_PROTOBUF && forall y :: codec.sum(q, y) == codec.sum(p, y)
  }

  ghost predicate CollisionFree(codec: Codec) {
    forall p, x, y :: codec.sum(p, x) == codec.sum(p, y) ==> x == y
  }

  // ---- what a node is, apart from its caches

  /** The node as its mutators made it; `links` in the order they were added. */
  datatype Model = Model(links: seq<Link>, data: seq<Byte>, uuid: Option<seq<Byte>>, prefix: Prefix)

  function Sorted(links: seq<Link>): (r: seq<Link>)
    ensures |r| == |links|
  {
    Sorting.StableSort(NameLess, links)
  }

  function Without(links: seq<Link>, name: string): seq<Link> {
    Sorting.Filter((l: Link) => l.name != name, links)
  }

  function Named(links: seq<Link>, name: string): seq<Link> {
    Sorting.Filter((l: Link) => l.name == name, links)
  }

  predicate IsNull(uuid: Option<seq<Byte>>) {
    uuid.None? || uuid.value == NULL_UUID
  }

  /** An unset prefix stands for the default one. */
  function Effective(p: Prefix): Prefix {
    if p.codec == 0 then V0_PREFIX else p
  }

  function Encoding(codec: Codec, m: Model): seq<Byte> {
    codec.encode(Sorted(m.links), m.data)
  }

  /** A UUID is identity enough; otherwise the identity is the encoding. */
  function Identity(codec: Codec, m: Model): seq<Byte> {
    if IsNull(m.uuid) then Encoding(codec, m) else m.uuid.value
  }

  function TrueCid(codec: Codec, m: Model): Cid {
    codec.sum(Effective(m.prefix), Identity(codec, m))
  }

  function TrueRaw(codec: Codec, m: Model): seq<Byte> {
    (if IsNull(m.uuid) then NULL_UUID else m.uuid.value) + Encoding(codec, m)
  }

  function LinkSizes(links: seq<Link>): nat {
    if links == [] then 0 else LinkSizes(links[..|links| - 1]) + links[|links| - 1].size
  }

  /** Two nodes nobody can tell apart. */
  predicate Same(m: Model, n: Model) {
    && Sorted(m.links) == Sorted(n.links) && m.data == n.data && m.uuid == n.uuid
    && Effective(m.prefix) == Effective(n.prefix)
  }

  // ---- sorting the links in place goes unnoticed

  lemma NamesAreOrdered()
    ensures Sorting.StrictWeakOrder(NameLess)
  {
    forall a, b | NameLess(a, b)
      ensures !NameLess(b, a)
    {
      Sorting.StringLessAsymmetric(a.name, b.name);
    }
    forall a, b, c | !NameLess(a, b) && !NameLess(b, c)
      ensures !NameLess(a, c)
    {
      Sorting.StringNotLessTransitive(a.name, b.name, c.name);
    }
  }

  lemma SortedTwice(links: seq<Link>)
    ensures Sorted(Sorted(links)) == Sorted(links)
  {
    NamesAreOrdered();
    Sorting.SortOrders(NameLess, links);
    Sorting.SortFixes(NameLess, Sorted(links));
  }

  /** Lists that sort alike still do after a link has been appended to both. */
  lemma AppendingCommutes(a: seq<Link>, b: seq<Link>, l: Link)
    requires Sorted(a) == Sorted(b)
    ensures Sorted(a + [l]) == Sorted(b + [l])
  {
    Sorting.SortAppend(NameLess, a, l);
    Sorting.SortAppend(NameLess, b, l);
  }

  /** And after a name has been removed from both. */
  lemma RemovingCommutes(a: seq<Link>, b: seq<Link>, name: string)
    requires Sorted(a) == Sorted(b)
    ensures Sorted(Without(a, name)) == Sorted(Without(b, name))
  {
    NamesAreOrdered();
    Sorting.SortFilter(NameLess, (k: Link) => k.name != name, a);
    Sorting.SortFilter(NameLess, (k: Link) => k.name != name, b);
  }

  /** Links of one name keep the order in which they were added. */
  lemma NamesakesKeepTheirOrder(a: seq<Link>, name: string)
    ensures Named(Sorted(a), name) == Named(a, name)
  {
    var keep := (l: Link) => l.name == name;
    var same := Sorting.Filter(keep, a);
    NamesAreOrdered();
    Sorting.SortFilter(NameLess, keep, a);
    forall i | 0 <= i < |same| - 1
      ensures !NameLess(same[i + 1], same[i])
    {
      Sorting.FilterMembers(keep, a, same[i]);
      Sorting.FilterMembers(keep, a, same[i + 1]);
      assert !NameLess(same[i], same[i]);
    }
    Sorting.SortFixes(NameLess, same);
  }

  lemma {:induction false} InsertKeepsSizes(sorted: seq<Link>, l: Link)
    ensures LinkSizes(Sorting.Insert(NameLess, sorted, l)) == LinkSizes(sorted) + l.size
  {
    var r := Sorting.Insert(NameLess, sorted, l);
    if sorted == [] || !NameLess(l, sorted[|sorted| - 1]) {
      assert r[..|sorted|] == sorted;
    } else {
      InsertKeepsSizes(sorted[..|sorted| - 1], l);
      assert r[..|r| - 1] == Sorting.Insert(NameLess, sorted[..|sorted| - 1], l);
    }
  }

  lemma {:induction false} SortingKeepsSizes(links: seq<Link>)
    ensures LinkSizes(Sorted(links)) == LinkSizes(links)
  {
    if links != [] {
      SortingKeepsSizes(links[..|links| - 1]);
      InsertKeepsSizes(Sorted(links[..|links| - 1]), links[|links| - 1]);
    }
  }

  /** In plain terms: the name of `a` is that of `b`, or at the first difference it has the smaller character or ends. */
  ghost predicate NotAfter(a: Link, b: Link) {
    a.name == b.name || exists k: nat :: Sorting.StringLessAt(a.name, b.name, k)
  }

  /** The order in which links are laid out: the same links, by the characters of their names, those of one name as they
      were added. */
  lemma SortedInPlainTerms(links: seq<Link>, name: string)
    ensures multiset(Sorted(links)) == multiset(links) && Named(Sorted(links), name) == Named(links, name)
    ensures forall i :: 0 <= i < |links| - 1 ==> NotAfter(Sorted(links)[i], Sorted(links)[i + 1])
  {
    var s := Sorted(links);
    NamesAreOrdered();
    Sorting.SortPermutes(NameLess, links);
    Sorting.SortOrders(NameLess, links);
    NamesakesKeepTheirOrder(links, name);
    forall i | 0 <= i < |s| - 1
      ensures NotAfter(s[i], s[i + 1])
    {
      if s[i].name != s[i + 1].name {
        Sorting.StringLessTotal(s[i].name, s[i + 1].name);
        Sorting.StringLessExactly(s[i].name, s[i + 1].name);
      }
    }
  }

  ghost predicate StartsWithZeros(raw: seq<Byte>, n: nat) {
    |raw| >= n && forall i :: 0 <= i < n ==> raw[i] == 0
  }

  /** What a node is hashed and stored as, in plain terms. A UUID that is absent or sixteen zeros does not count; a prefix
      that is not set is that of version 0, protobuf, SHA2-256. */
  lemma PlainTerms(codec: Codec, m: Model)
    ensures Effective(m.prefix) == if m.prefix.codec == 0 then Prefix(0, 0x70, 0x12, -1) else m.prefix
    ensures m.uuid.None? || (|m.uuid.value| == 16 && StartsWithZeros(m.uuid.value, 16)) ==>
      && TrueCid(codec, m) == codec.sum(Effective(m.prefix), codec.encode(Sorted(m.links), m.data))
      && StartsWithZeros(TrueRaw(codec, m), 16) && TrueRaw(codec, m)[16..] == codec.encode(Sorted(m.links), m.data)
    ensures m.uuid.Some? && !(|m.uuid.value| == 16 && StartsWithZeros(m.uuid.value, 16)) ==>
      && TrueCid(codec, m) == codec.sum(Effective(m.prefix), m.uuid.value)
      && TrueRaw(codec, m) == m.uuid.value + codec.encode(Sorted(m.links), m.data)
  {
    assert StartsWithZeros(NULL_UUID, 16);
    if m.uuid.Some? && |m.uuid.value| == 16 && StartsWithZeros(m.uuid.value, 16) {
      assert m.uuid.value == NULL_UUID;
    }
  }

  lemma SameSizes(m: Model, n: Model)
    requires Same(m, n)
    ensures LinkSizes(m.links) == LinkSizes(n.links)
  {
    SortingKeepsSizes(m.links);
    SortingKeepsSizes(n.links);
  }

  lemma SortedAlikeHoldSame(a: seq<Link>, b: seq<Link>)
    requires Sorted(a) == Sorted(b)
    ensures forall l :: l in a <==> l in b
  {
    Sorting.SortPermutes(NameLess, a);
    Sorting.SortPermutes(NameLess, b);
    assert forall l :: l in a <==> l in multiset(a);
  }

  method Drop(links: seq<Link>, name: string) returns (good: seq<Link>, found: bool)
    ensures good == Without(links, name)
    ensures found <==> exists l :: l in links && l.name == name
  {
    good, found := [], false;
    ghost var keep := (k: Link) => k.name != name;
    for i := 0 to |links|
      invariant good == Without(links[..i], name)
      invariant found <==> exists l :: l in links[..i] && l.name == name
    {
      assert links[..i + 1] == links[..i] + [links[i]];
      Sorting.FilterAppend(keep, links[..i], links[i]);
      if links[i].name != name {
        good := good + [links[i]];
      } else {
        found := true;
      }
    }
    assert links[..|links|] == links;
  }

  lemma AppendedSame(m: Model, n: Model, l: Link)
    requires Same(m, n)
    ensures Same(m.(links := m.links + [l]), n.(links := n.links + [l]))
  {
    AppendingCommutes(m.links, n.links, l);
  }

  // ---- the node

  class ProtoNode {
    const codec: Codec

    var links: seq<Link>
    var data: seq<Byte>
    var uuid: Option<seq<Byte>>
    var encoded: Option<seq<Byte>>
    var cached: Option<Cid>
    var prefix: Prefix

    /** The node its mutators have made, untouched by queries. */
    ghost var model: Model

    function Fields(): Model
      reads this
    {
      Model(links, data, uuid, prefix)
    }

    /** The fields stand for the model. */
    ghost predicate Follows()
      reads this
    {
      Same(Fields(), model)
    }

    /** No cache is stale: whenever both are there they are what they should be. */
    ghost predicate Valid()
      reads this
    {
      && Follows()
      && (encoded.Some? ==> encoded.value == Encoding(codec, model))
      && (encoded.Some? && cached.Some? ==> cached.value == TrueCid(codec, model))
    }

    /** The encoding the next query will use, stale or not. */
    ghost function NextEncoding(): seq<Byte>
      reads this
    {
      if encoded.Some? then encoded.value else Encoding(codec, Fields())
    }

    /** The CID the next query will answer, stale or not. */
    ghost function NextCid(): Cid
      reads this
    {
      if encoded.Some? && cached.Some? then cached.value
      else codec.sum(Effective(prefix), if IsNull(uuid) then NextEncoding() else uuid.value)
    }

    constructor (codec: Codec, data: seq<Byte>)
      ensures Valid() && model == Model([], data, None, NO_PREFIX) && this.codec == codec
      ensures encoded.None? && cached.None?
    {
      this.codec := codec;
      this.links, this.data, this.uuid, this.prefix := [], data, None, NO_PREFIX;
      this.encoded, this.cached := None, None;
      this.model := Model([], data, None, NO_PREFIX);
    }

    // ---- mutators

    method AddRawLink(name: string, l: Link)
      requires Follows()
      modifies this`links, this`encoded, this`model
      ensures Valid() && encoded.None? && links == old(links) + [Link(name, l.size, l.cid)]
      ensures model == old(model).(links := old(model).links + [Link(name, l.size, l.cid)])
    {
      var made := Link(name, l.size, l.cid);
      AppendedSame(Fields(), model, made);
      encoded := None;
      links := links + [made];
      model := model.(links := model.links + [made]);
      assert Fields() == old(Fields()).(links := links);
    }

    /** Removes all links of the name, and reports an error if there were none. */
    method RemoveNodeLink(name: string) returns (found: bool)
      requires Follows()
      modifies this`links, this`encoded, this`model
      ensures Valid() && encoded.None? && links == Without(old(links), name)
      ensures model == old(model).(links := Without(old(model).links, name))
      ensures found <==> exists l :: l in old(model).links && l.name == name
    {
      encoded := None;
      var good;
      good, found := Drop(links, name);
      RemovingCommutes(links, model.links, name);
      SortedAlikeHoldSame(links, model.links);
      links := good;
      model := model.(links := Without(model.links, name));
    }

    method SetData(d: seq<Byte>)
      requires Follows()
      modifies this`encoded, this`cached, this`data, this`model
      ensures Valid() && encoded.None? && cached.None? && model == old(model).(data := d)
    {
      encoded, cached, data := None, None, d;
      model := model.(data := d);
    }

    /** Keeps the encoding: the UUID is no part of it. */
    method SetUUID(uuid: Option<seq<Byte>>)
      requires Follows()
      modifies this`cached, this`uuid, this`model
      ensures Follows() && model == old(model).(uuid := uuid)
      ensures old(Valid()) ==> Valid()
    {
      cached := None;
      this.uuid := uuid;
      model := model.(uuid := uuid);
    }

    /** A prefix given drops the caches. Asking for the default one does not: afterwards the node answers with the
        right CID exactly if nothing is cached or the cached CID happens to be that of the default prefix. */
    method SetPrefix(p: Option<Prefix>)
      requires Follows()
      modifies this`prefix, this`encoded, this`cached, this`model
      ensures p.Some? ==> Valid() && encoded.None? && cached.None? && model == old(model).(prefix := p.value.(codec := DAG_PROTOBUF))
      ensures p.None? ==> Follows() && model == old(model).(prefix := V0_PREFIX)
      ensures p.None? ==> encoded == old(encoded) && cached == old(cached)
      ensures p.None? && old(Valid()) ==> (Valid() <==> NextCid() == TrueCid(codec, model))
      ensures p.None? && old(Valid()) ==> (Valid() <==> old(encoded.None? || cached.None?) || old(cached).value == TrueCid(codec, model))
    {
      if p.None? {
        prefix := V0_PREFIX;
        model := model.(prefix := V0_PREFIX);
      } else {
        prefix := p.value.(codec := DAG_PROTOBUF);
        encoded, cached := None, None;
        model := model.(prefix := p.value.(codec := DAG_PROTOBUF));
      }
    }

    /** Replaces the links and keeps every cache: right exactly if the node had not been encoded or, as far as the
        encoding can tell, the links are the ones it had. */
    method SetLinks(ls: seq<Link>)
      requires Follows()
      modifies this`links, this`model
      ensures Follows() && links == ls && model == old(model).(links := ls)
      ensures old(Valid()) ==> (Valid() <==> encoded.None? || NextEncoding() == Encoding(codec, model))
      ensures old(Valid()) && Faithful(codec) ==> (Valid() <==> encoded.None? || Sorted(ls) == Sorted(old(model).links))
    {
      if Faithful(codec) && codec.encode(Sorted(ls), data) == Encoding(codec, model) {
        assert Some((Sorted(ls), data)) == codec.decode(Encoding(codec, model)) == Some((Sorted(model.links), model.data));
      }
      links := ls;
      model := model.(links := ls);
    }

    // ---- queries

    method SortLinks()
      requires Follows()
      modifies this`links
      ensures Follows() && links == Sorted(old(links)) == Sorted(model.links)
    {
      SortedTwice(links);
      links := Sorted(links);
    }

    /** Sorts the links in place, encodes the node unless that has been done, and caches its CID. */
    method EncodeProtobuf(force: bool) returns (out: seq<Byte>)
      requires Follows()
      modifies this
      ensures Follows() && model == old(model) && links == Sorted(old(links))
      ensures out == if force then Encoding(codec, model) else old(NextEncoding())
      ensures encoded == Some(out) && cached.Some? && (prefix == old(prefix) || prefix == V0_PREFIX)
      ensures !force ==> NextCid() == old(NextCid())
      ensures old(Valid()) || force ==> Valid() && out == Encoding(codec, model)
    {
      SortLinks();
      if encoded.None? || force {
        cached := None;
        SortLinks();
        encoded := Some(codec.encode(links, data));
      }
      if cached.None? {
        if prefix.codec == 0 {
          prefix := V0_PREFIX;
        }
        var id := if IsNull(uuid) then encoded.value else uuid.value;
        cached := Some(codec.sum(prefix, id));
      }
      return encoded.value;
    }

    method RawData() returns (raw: seq<Byte>)
      requires Follows()
      modifies this
      ensures Follows() && model == old(model) && NextCid() == old(NextCid()) && NextEncoding() == old(NextEncoding())
      ensures encoded.Some? && cached.Some? && (prefix == old(prefix) || prefix == V0_PREFIX)
      ensures raw == (if IsNull(uuid) then NULL_UUID else uuid.value) + old(NextEncoding())
      ensures old(Valid()) ==> Valid() && raw == TrueRaw(codec, model)
      ensures old(Valid()) && model.uuid.None? ==>
        StartsWithZeros(raw, 16) && raw[16..] == codec.encode(Sorted(model.links), model.data)
    {
      PlainTerms(codec, model);
      var out := EncodeProtobuf(false);
      return if IsNull(uuid) then NULL_UUID + out else uuid.value + out;
    }

    /** The CID, cached only together with an encoding. */
    method GetCid() returns (c: Cid)
      requires Follows()
      modifies this
      ensures Follows() && model == old(model) && c == old(NextCid()) == NextCid()
      ensures NextEncoding() == old(NextEncoding())
      ensures cached == Some(c) && (IsNull(uuid) ==> encoded.Some?)
      ensures old(Valid()) ==> Valid() && c == TrueCid(codec, model)
      ensures old(Valid()) && model.uuid.None? ==>
        c == codec.sum(Effective(model.prefix), codec.encode(Sorted(model.links), model.data))
    {
      if encoded.Some? && cached.Some? {
        return cached.value;
      }
      if prefix.codec == 0 {
        prefix := V0_PREFIX;
      }
      var id;
      if IsNull(uuid) {
        var raw := RawData();
        id := raw[UUID_LEN..];
        assert id == NextEncoding();
      } else {
        id := uuid.value;
      }
      c := codec.sum(prefix, id);
      cached := Some(c);
    }

    /** The first link of the name, as if the links had never been sorted. */
    method GetNodeLink(name: string) returns (l: Option<Link>)
      requires Follows()
      ensures l == First(Named(model.links, name))
    {
      NamesakesKeepTheirOrder(links, name);
      NamesakesKeepTheirOrder(model.links, name);
      l := Find(links, name);
    }

    /** The length of the encoding and of all that is below, as a 64-bit word. */
    method Size() returns (size: nat)
      requires Follows()
      modifies this
      ensures Follows() && model == old(model) && encoded.Some? && cached.Some?
      ensures size == (|old(NextEncoding())| + LinkSizes(model.links)) % 0x1_0000_0000_0000_0000
      ensures old(Valid()) ==> Valid() && NextEncoding() == Encoding(codec, model)
    {
      var b := EncodeProtobuf(false);
      SameSizes(Fields(), model);
      size := SumSizes(|b|, links);
    }

    method DropEncoding()
      requires Follows()
      modifies this`encoded
      ensures Valid()
    {
      encoded := None;
    }

    /** Links to a node, possibly this one, by its true CID and size, whatever either has cached. */
    method AddNodeLink(name: string, that: ProtoNode)
      requires Follows() && that.Valid() && that.codec == codec
      modifies this, that
      ensures Valid() && that.Valid() && (that != this ==> that.model == old(that.model))
      ensures model == old(model).(links := old(model).links + [LinkTo(codec, name, old(that.model))])
    {
      ghost var made := LinkTo(codec, name, that.model);
      DropEncoding();
      var l := MakeLink(name, that);
      assert Follows() && model == old(model) && l == made;
      AddRawLink(name, l);
      assert Link(name, l.size, l.cid) == made;
    }

    /** A node with the same links and data and empty caches. An empty UUID is not copied. */
    method Copy() returns (n: ProtoNode)
      requires Follows()
      ensures fresh(n) && n.Valid() && n.codec == codec && n.encoded.None? && n.cached.None?
      ensures Same(n.model, Copied(model))
    {
      n := new ProtoNode(codec, data);
      n.links, n.prefix := links, prefix;
      if uuid.Some? && |uuid.value| > 0 {
        n.uuid := uuid;
      }
      n.model := n.Fields();
    }

    /** A copy with the links of the name replaced by one to `that`; this node is untouched. */
    method UpdateNodeLink(name: string, that: ProtoNode) returns (n: ProtoNode)
      requires Follows() && that.Valid() && that.codec == codec
      modifies that
      ensures fresh(n) && n.Valid() && that.Valid() && that.model == old(that.model)
      ensures var kept := Copied(old(model));
        Same(n.model, kept.(links := Without(kept.links, name) + [LinkTo(codec, name, that.model)]))
    {
      ghost var before := Copied(model);
      n := Copy();
      RemovingCommutes(n.model.links, before.links, name);
      var _ := n.RemoveNodeLink(name);
      AppendingCommutes(n.model.links, Without(before.links, name), LinkTo(codec, name, that.model));
      n.AddNodeLink(name, that);
    }
  }

  function First(links: seq<Link>): Option<Link> {
    if links == [] then None else Some(links[0])
  }

  function Copied(m: Model): Model {
    if m.uuid == Some([]) then m.(uuid := None) else m
  }

  function LinkTo(codec: Codec, name: string, m: Model): Link {
    Link(name, (|Encoding(codec, m)| + LinkSizes(m.links)) % TWO64, TrueCid(codec, m))
  }

  method MakeLink(name: string, that: ProtoNode) returns (l: Link)
    requires that.Valid()
    modifies that
    ensures that.Valid() && that.model == old(that.model) && l == LinkTo(that.codec, name, that.model)
  {
    var size := that.Size();
    var c := that.GetCid();
    return Link(name, size, c);
  }

  method Find(links: seq<Link>, name: string) returns (l: Option<Link>)
    ensures l == First(Named(links, name))
  {
    ghost var keep := (k: Link) => k.name == name;
    for i := 0 to |links|
      invariant Named(links[..i], name) == []
    {
      assert links[..i + 1] == links[..i] + [links[i]];
      Sorting.FilterAppend(keep, links[..i], links[i]);
      if links[i].name == name {
        FilterPrefix(keep, links, i + 1);
        return Some(links[i]);
      }
    }
    assert links[..|links|] == links;
    return None;
  }

  /** Filtering a longer list only adds at the end. */
  lemma {:induction false} FilterPrefix(keep: Link -> bool, links: seq<Link>, n: nat)
    requires n <= |links|
    ensures Sorting.Filter(keep, links[..n]) <= Sorting.Filter(keep, links)
  {
    if n < |links| {
      FilterPrefix(keep, links[..|links| - 1], n);
      assert links[..|links| - 1][..n] == links[..n];
    } else {
      assert links[..n] == links;
    }
  }

  method SumSizes(start: nat, links: seq<Link>) returns (size: nat)
    ensures size == (start + LinkSizes(links)) % TWO64
  {
    size := start % TWO64;
    for i := 0 to |links|
      invariant size == (start + LinkSizes(links[..i])) % TWO64
    {
      assert links[..i + 1][..i] == links[..i];
      size := (size + links[i].size) % TWO64;
    }
    assert links[..|links|] == links;
  }

  /** Copying changes the CID exactly if the UUID is empty without being absent and the encoding is not empty too. */
  lemma CopyKeepsCid(codec: Codec, m: Model)
    requires CollisionFree(codec)
    ensures TrueCid(codec, Copied(m)) == TrueCid(codec, m) <==> m.uuid != Some([]) || Encoding(codec, m) == []
  {
    if m.uuid == Some([]) {
      assert TrueCid(codec, m) == codec.sum(Effective(m.prefix), []);
    }
  }

  // ---- blocks

  /** Reads a node back from a block of 16 bytes of UUID followed by an encoding. The caches are filled from the block,
      so the node answers with the block's own bytes and CID even if they are not the ones it would produce. */
  method DecodeProtobufBlock(codec: Codec, c: Cid, raw: seq<Byte>) returns (n: ProtoNode?)
    requires |raw| >= UUID_LEN
    ensures n == null <==> codec.prefixOf(c).codec != DAG_PROTOBUF || codec.decode(raw[UUID_LEN..]).None?
    ensures n != null ==> fresh(n) && n.Follows() && n.codec == codec && n.NextCid() == c
    ensures n != null ==> n.NextEncoding() == raw[UUID_LEN..] && n.model.uuid == Some(raw[..UUID_LEN])
    ensures n != null ==> codec.decode(raw[UUID_LEN..]) == Some((n.model.links, n.model.data))
    ensures n != null ==> n.model.prefix == codec.prefixOf(c) && n.links == Sorted(n.model.links)
    ensures n != null ==> (n.Valid() <==> raw[UUID_LEN..] == Encoding(codec, n.model) && c == TrueCid(codec, n.model))
  {
    if codec.prefixOf(c).codec != DAG_PROTOBUF {
      return null;
    }
    var decoded := codec.decode(raw[UUID_LEN..]);
    if decoded.None? {
      return null;
    }
    n := new ProtoNode(codec, decoded.value.1);
    n.links, n.encoded := Sorted(decoded.value.0), Some(raw[UUID_LEN..]);
    n.uuid, n.cached, n.prefix := Some(raw[..UUID_LEN]), Some(c), codec.prefixOf(c);
    n.model := Model(decoded.value.0, decoded.value.1, n.uuid, n.prefix);
    SortedTwice(decoded.value.0);
  }

  /** `n` is what `DecodeProtobufBlock` reads from the block of `m`. */
  predicate ReadBack(codec: Codec, m: Model, n: Model) {
    var raw := TrueRaw(codec, m);
    && |raw| >= UUID_LEN && n.uuid == Some(raw[..UUID_LEN])
    && codec.decode(raw[UUID_LEN..]) == Some((n.links, n.data)) && n.prefix == codec.prefixOf(TrueCid(codec, m))
  }

  /** A node read back from its own block is the same node: links in name order, the same bytes and the same CID. */
  lemma BlockRoundTrip(codec: Codec, m: Model, n: Model)
    requires Faithful(codec) && Effective(m.prefix).codec == DAG_PROTOBUF
    requires (IsNull(m.uuid) || |m.uuid.value| == UUID_LEN) && ReadBack(codec, m, n)
    ensures n.links == Sorted(m.links) && n.data == m.data
    ensures Encoding(codec, n) == Encoding(codec, m) && TrueRaw(codec, n) == TrueRaw(codec, m)
    ensures TrueCid(codec, n) == TrueCid(codec, m)
  {
    var id := if IsNull(m.uuid) then NULL_UUID else m.uuid.value;
    var raw := TrueRaw(codec, m);
    assert raw[UUID_LEN..] == Encoding(codec, m) && raw[..UUID_LEN] == id;
    assert codec.decode(codec.encode(Sorted(m.links), m.data)) == Some((Sorted(m.links), m.data));
    SortedTwice(m.links);
    assert SumsAlike(codec, Effective(m.prefix), codec.prefixOf(codec.sum(Effective(m.prefix), Identity(codec, m))));
  }

  /** Writing a node out and reading it back. */
  method StoreAndLoad(m: ProtoNode) returns (n: ProtoNode?)
    requires m.Valid() && Faithful(m.codec) && Effective(m.model.prefix).codec == DAG_PROTOBUF
    requires IsNull(m.model.uuid) || |m.model.uuid.value| == UUID_LEN
    modifies m
    ensures m.Valid() && m.model == old(m.model)
    ensures n != null && fresh(n) && n.Valid() && n.codec == m.codec
    ensures n.model.links == Sorted(m.model.links) && n.model.data == m.model.data
    ensures TrueCid(m.codec, n.model) == TrueCid(m.codec, m.model) && TrueRaw(m.codec, n.model) == TrueRaw(m.codec, m.model)
  {
    var raw := m.RawData();
    var c := m.GetCid();
    assert raw[UUID_LEN..] == Encoding(m.codec, m.model);
    assert m.codec.decode(raw[UUID_LEN..]) == Some((Sorted(m.model.links), m.model.data));
    assert SumsAlike(m.codec, Effective(m.model.prefix), m.codec.prefixOf(c));
    n := DecodeProtobufBlock(m.codec, c, raw);
    BlockRoundTrip(m.codec, m.model, n.model);
  }

  // ---- whole runs

  datatype Op =
    | AddLink(name: string, link: Link)
    | RemoveLink(name: string)
    | PutData(data: seq<Byte>)
    | PutUUID(uuid: Option<seq<Byte>>)
    | PutLinks(links: seq<Link>)
    | UsePrefix(prefix: Prefix)
    | Duplicate
    | Encode(force: bool)
    | AskRaw
    | AskCid

  predicate IsMutation(op: Op) {
    !(op.Encode? || op.AskRaw? || op.AskCid?)
  }

  /** What an operation does to the node, leaving caches and the order of the links aside. */
  function Apply(m: Model, op: Op): Model {
    match op
    case AddLink(name, l) => m.(links := m.links + [Link(name, l.size, l.cid)])
    case RemoveLink(name) => m.(links := Without(m.links, name))
    case PutData(data) => m.(data := data)
    case PutUUID(uuid) => m.(uuid := uuid)
    case PutLinks(links) => m.(links := links)
    case UsePrefix(prefix) => m.(prefix := prefix.(codec := DAG_PROTOBUF))
    case Duplicate => Copied(m)
    case _ => m
  }

  function ApplyAll(m: Model, ops: seq<Op>): Model {
    if ops == [] then m else Apply(ApplyAll(m, ops[..|ops| - 1]), ops[|ops| - 1])
  }

  lemma ApplySame(m: Model, n: Model, op: Op)
    requires Same(m, n)
    ensures Same(Apply(m, op), Apply(n, op))
  {
    match op {
      case AddLink(name, l) => AppendingCommutes(m.links, n.links, Link(name, l.size, l.cid));
      case RemoveLink(name) => RemovingCommutes(m.links, n.links, name);
      case _ =>
    }
  }

  /** Asking leaves no trace: a run ends in the same node if all its queries are left out. */
  lemma {:induction false} QueriesLeaveNoTrace(m: Model, ops: seq<Op>)
    ensures ApplyAll(m, ops) == ApplyAll(m, Sorting.Filter(IsMutation, ops))
  {
    if ops != [] {
      var front, last := ops[..|ops| - 1], ops[|ops| - 1];
      QueriesLeaveNoTrace(m, front);
      var kept := Sorting.Filter(IsMutation, front);
      assert (kept + [last])[..|kept|] == kept && kept + [] == kept;
    }
  }

  /** Whether the node may hold an encoding after these operations: a query came after the last one that drops it. */
  predicate MayBeEncoded(ops: seq<Op>) {
    if ops == [] then false
    else
      var last := ops[|ops| - 1];
      !IsMutation(last) || ((last.PutUUID? || last.PutLinks?) && MayBeEncoded(ops[..|ops| - 1]))
  }

  /** Links are replaced as a whole only while the node is not encoded. */
  predicate PutsLinksInTime(ops: seq<Op>) {
    forall i :: 0 <= i < |ops| && ops[i].PutLinks? ==> !MayBeEncoded(ops[..i])
  }

  /** A mutator, on the object. */
  method Mutate(n: ProtoNode, op: Op)
    requires n.Valid() && IsMutation(op) && !op.Duplicate? && (op.PutLinks? ==> n.encoded.None?)
    modifies n
    ensures !op.PutUUID? ==> n.encoded.None?
    ensures op.PutUUID? ==> n.encoded == old(n.encoded)
    ensures n.Valid() && n.model == Apply(old(n.model), op)
  {
    match op {
      case AddLink(name, l) => n.AddRawLink(name, l);
      case RemoveLink(name) => var _ := n.RemoveNodeLink(name);
      case PutData(data) => n.SetData(data);
      case PutUUID(uuid) => n.SetUUID(uuid);
      case PutLinks(links) => n.SetLinks(links);
      case UsePrefix(prefix) => n.SetPrefix(Some(prefix));
    }
  }

  /** A query, on the object. */
  method Ask(n: ProtoNode, op: Op)
    requires n.Valid() && !IsMutation(op)
    modifies n
    ensures n.Valid() && n.model == old(n.model)
  {
    match op {
      case Encode(force) => var _ := n.EncodeProtobuf(force);
      case AskRaw => var _ := n.RawData();
      case AskCid => var _ := n.GetCid();
    }
  }

  method Perform(n: ProtoNode, op: Op) returns (r: ProtoNode)
    requires n.Valid() && (op.PutLinks? ==> n.encoded.None?)
    modifies n
    ensures IsMutation(op) && !op.PutUUID? ==> r.encoded.None?
    ensures op.PutUUID? ==> r.encoded == old(n.encoded)
    ensures r.Valid() && r.codec == n.codec && (r == n || fresh(r)) && Same(r.model, Apply(old(n.model), op))
  {
    r := n;
    if op.Duplicate? {
      r := n.Copy();
    } else if IsMutation(op) {
      Mutate(n, op);
    } else {
      Ask(n, op);
    }
  }

  /** Runs any operations on a new node: its CID and raw data are then those of the node so made, never those of an
      earlier one, no matter which queries were asked on the way and what they left in the caches. */
  method RunOps(codec: Codec, data: seq<Byte>, ops: seq<Op>) returns (c: Cid, raw: seq<Byte>)
    requires PutsLinksInTime(ops)
    ensures c == TrueCid(codec, ApplyAll(Model([], data, None, NO_PREFIX), ops))
    ensures raw == TrueRaw(codec, ApplyAll(Model([], data, None, NO_PREFIX), ops))
  {
    var n := new ProtoNode(codec, data);
    ghost var start := n.model;
    for i := 0 to |ops|
      invariant n.Valid() && fresh(n) && n.codec == codec && Same(n.model, ApplyAll(start, ops[..i]))
      invariant n.encoded.Some? ==> MayBeEncoded(ops[..i])
    {
      ghost var before := n.model;
      n := Perform(n, ops[i]);
      ApplySame(before, ApplyAll(start, ops[..i]), ops[i]);
      assert ops[..i + 1][..i] == ops[..i];
    }
    assert ops[..|ops|] == ops;
    raw := n.RawData();
    c := n.GetCid();
  }

  // ---- what falls outside

  /** Going back to the default prefix after the CID has been asked for: the node keeps answering with the old one. */
  method StaleAfterDefaultPrefix(codec: Codec) returns (c: Cid)
    requires codec.sum(V0_PREFIX, codec.encode([], [])) != codec.sum(V1_PREFIX, codec.encode([], []))
    ensures c != TrueCid(codec, Model([], [], None, V0_PREFIX)) && c == TrueCid(codec, Model([], [], None, V1_PREFIX))
  {
    var n := new ProtoNode(codec, []);
    n.SetPrefix(Some(V1_PREFIX));
    var _ := n.RawData();
    n.SetPrefix(None);
    c := n.GetCid();
  }

  /** Replacing the links of an encoded node: its raw data still lists the old ones. */
  method StaleAfterSetLinks(codec: Codec, l: Link) returns (raw: seq<Byte>)
    requires codec.encode([], []) != codec.encode([l], [])
    ensures raw != TrueRaw(codec, Model([l], [], None, NO_PREFIX)) && raw == TrueRaw(codec, Model([], [], None, NO_PREFIX))
  {
    var n := new ProtoNode(codec, []);
    raw := n.RawData();
    n.SetLinks([l]);
    raw := n.RawData();
    assert Sorted([l]) == [l];
    assert raw[UUID_LEN..] == codec.encode([], []);
    assert TrueRaw(codec, Model([l], [], None, NO_PREFIX))[UUID_LEN..] == codec.encode([l], []);
  }
}

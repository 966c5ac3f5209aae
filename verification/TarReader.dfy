/** Reading a tarchive back out of its DAG (tar/format.go). */
module TarReader {
  import opened Basics

  const BLOCK_SIZE: nat := 512

  /** The "data" link of a header node: absent, a readable file, one that cannot be opened, or one that fails after
      some of its bytes have been read. */
  datatype FileLink = NoFile | FileData(bytes: seq<Byte>) | Unreadable | Broken(bytes: seq<Byte>)

  /** What a link of the archive leads to. */
  datatype Entry = Header(header: seq<Byte>, file: FileLink, links: seq<Entry>) | NotProtobuf | Unfetchable

  /** A call of Read hands over some bytes, or signals the end, or fails. */
  datatype ReadResult = Got(bytes: seq<Byte>) | Eof | Failed

  /** The zeros that fill `n` bytes up to a whole number of blocks. */
  function Padding(n: nat): (pad: nat)
    ensures pad < BLOCK_SIZE && (n + pad) % BLOCK_SIZE == 0
  {
    (BLOCK_SIZE - n % BLOCK_SIZE) % BLOCK_SIZE
  }

  // ---- the archive, by recursion over its DAG

  /** Header, then the padded file, or else the members below. Of a broken file there is what comes before the break. */
  function EntryBytes(e: Entry): seq<Byte> {
    match e
    case Header(header, FileData(bytes), _) => header + (bytes + Zeros(Padding(|bytes|)))
    case Header(header, Broken(bytes), _) => header + bytes
    case Header(header, NoFile, links) => header + LinksBytes(links)
    case _ => []
  }

  function LinksBytes(links: seq<Entry>): seq<Byte> {
    if links == [] then [] else EntryBytes(links[0]) + LinksBytes(links[1..])
  }

  /** Everything can be fetched and opened. */
  predicate Sound(links: seq<Entry>) {
    forall i :: 0 <= i < |links| ==> links[i].Header? && !links[i].file.Unreadable? && !links[i].file.Broken? && (links[i].file.NoFile? ==> Sound(links[i].links))
  }

  /** The calls of Read that may return no bytes while these links are read. */
  function Pauses(links: seq<Entry>): nat {
    if links == [] then 0 else EntryPauses(links[0]) + Pauses(links[1..])
  }

  function EntryPauses(e: Entry): nat {
    match e
    case Header(_, FileData(_), _) => 2
    case Header(_, Broken(_), _) => 2
    case Header(_, NoFile, links) => if links == [] then 1 else 2 + Pauses(links)
    case Header(_, Unreadable, _) => 1
    case _ => 0
  }

  // ---- what a reader has before it

  /** The bytes still to come, how many calls may still return nothing, and whether all of it can be read. */
  datatype View = View(bytes: seq<Byte>, idle: nat, sound: bool)

  /** A header, then what comes between it and the next link, then the links. */
  ghost function Whole(header: Option<seq<Byte>>, body: View, links: seq<Entry>): View {
    View((if header.Some? then header.value else []) + (body.bytes + LinksBytes(links)),
         (if header.Some? then 1 else 0) + body.idle + Pauses(links),
         body.sound && Sound(links))
  }

  /** A read that takes a reader from `before` to `after`: it hands over the next bytes or uses up a pause, or signals
      the end when nothing is left, or fails because something cannot be read. */
  predicate Advances(before: View, size: nat, r: ReadResult, after: View) {
    match r
    case Got(bytes) =>
      && |bytes| <= size && bytes + after.bytes == before.bytes && (after.sound <==> before.sound)
      && |after.bytes| + after.idle < |before.bytes| + before.idle
    case Eof => before.bytes == [] && before.sound
    case Failed => !before.sound
  }

  /** What advances the body advances the whole. */
  lemma BodyAdvances(body: View, size: nat, r: ReadResult, body': View, links: seq<Entry>)
    requires Advances(body, size, r, body') && !r.Eof?
    ensures Advances(Whole(None, body, links), size, r, Whole(None, body', links))
  {
    if r.Got? {
      var later := LinksBytes(links);
      assert r.bytes + ([] + (body'.bytes + later)) == [] + ((r.bytes + body'.bytes) + later);
    }
  }

  /** Reading from a header that is laid out. */
  lemma HeaderAdvances(h: seq<Byte>, k: nat, body: View, links: seq<Entry>)
    requires k <= |h|
    ensures h == [] ==> Advances(Whole(Some(h), body, links), k, Got([]), Whole(None, body, links))
    ensures k > 0 ==> Advances(Whole(Some(h), body, links), k, Got(h[..k]), Whole(Some(h[k..]), body, links))
  {
    var later := body.bytes + LinksBytes(links);
    assert h[..k] + (h[k..] + later) == h + later;
  }

  /** The next link leaves the rest and puts its header and what follows it in front. */
  lemma LinkUnfolds(links: seq<Entry>, body: View)
    requires links != [] && links[0].Header? && !links[0].file.Unreadable?
    requires EntryBytes(links[0]) == links[0].header + body.bytes && EntryPauses(links[0]) == 1 + body.idle
    requires body.sound <==> !links[0].file.Broken? && (links[0].file.NoFile? ==> Sound(links[0].links))
    ensures Whole(Some(links[0].header), body, links[1..]) == Whole(None, NOTHING, links)
  {
    var h, later := links[0].header, LinksBytes(links[1..]);
    assert h + (body.bytes + later) == [] + ([] + ((h + body.bytes) + later));
    assert Sound(links) <==> Sound([links[0]]) && Sound(links[1..]) by {
      assert [links[0]] + links[1..] == links;
      assert forall i :: 0 < i < |links| ==> links[i] == links[1..][i - 1];
    }
    assert [links[0]][0] == links[0];
  }

  const NOTHING := View([], 0, true)

  // ---- the readers

  /** The file reader that counts its bytes. Any reader will do that keeps handing over bytes until the end. */
  class CountReader {
    var rest: seq<Byte>
    var n: nat
    /** What comes after the rest: the end, or an error. */
    const broken: bool

    constructor (bytes: seq<Byte>, broken: bool)
      ensures rest == bytes && n == 0 && this.broken == broken
    {
      rest, n, this.broken := bytes, 0, broken;
    }

    method Read(size: nat) returns (out: seq<Byte>, eof: bool, failed: bool)
      requires size > 0
      modifies this`rest, this`n
      ensures |out| <= size && out + rest == old(rest) && n == old(n) + |out|
      ensures eof ==> rest == [] && !broken
      ensures failed ==> rest == [] && broken && !eof
      ensures !eof && !failed ==> out != []
    {
      if rest == [] {
        return [], !broken, broken;
      }
      var k :| 0 < k <= size && k <= |rest|;
      var early: bool := *;
      out := rest[..k];
      rest, n := rest[k..], n + k;
      eof, failed := rest == [] && early && !broken, rest == [] && early && broken;
    }
  }

  class Reader {
    var links: seq<Entry>
    var childRead: Reader?
    var hdrBuf: Option<seq<Byte>>
    var fileRead: CountReader?
    var pad: nat
    ghost var Repr: set<object>

    ghost predicate Valid()
      reads this, Repr
      decreases Repr
    {
      && this in Repr
      && (childRead != null ==> childRead in Repr && childRead.Repr < Repr && this !in childRead.Repr && childRead.Valid())
      && (fileRead != null ==> fileRead in Repr && childRead == null && pad == 0)
      && (childRead != null ==> pad == 0)
      && pad < BLOCK_SIZE
    }

    /** All that is still before this reader. */
    ghost function Ahead(): View
      requires Valid()
      reads Repr
      decreases Repr
    {
      Whole(hdrBuf, Body(), links)
    }

    /** What comes between the header and the next link: the members, or the file, or its padding. */
    ghost function Body(): View
      requires Valid()
      reads Repr
      decreases Repr, 0
    {
      if childRead != null then childRead.Ahead().(idle := childRead.Ahead().idle + 1)
      else if fileRead != null then FileView()
      else View(Zeros(pad), 0, true)
    }

    ghost function FileView(): View
      requires fileRead != null
      reads this, fileRead
    {
      if fileRead.broken then View(fileRead.rest, 1, false)
      else View(fileRead.rest + Zeros(Padding(fileRead.n + |fileRead.rest|)), 1, true)
    }

    constructor (links: seq<Entry>)
      ensures Valid() && fresh(Repr) && Ahead() == Whole(None, NOTHING, links)
    {
      this.links := links;
      childRead, hdrBuf, fileRead, pad := null, None, null, 0;
      Repr := {this};
      new;
      assert Body() == NOTHING;
    }

    /** Reads into a buffer of `size` bytes. */
    method Read(size: nat) returns (r: ReadResult)
      requires Valid() && size > 0
      modifies Repr
      ensures Valid() && fresh(Repr - old(Repr)) && Advances(old(Ahead()), size, r, Ahead())
      decreases Repr, 1
    {
      if hdrBuf.Some? {
        r := ReadHeader(size);
        return;
      }
      if childRead != null {
        r := ReadChild(size);
        return;
      }
      if fileRead != null {
        r := ReadFile(size);
        return;
      }
      if pad > 0 {
        r := ReadPad(size);
        return;
      }
      assert Body() == NOTHING;
      if links == [] {
        return Eof;
      }
      var ready := OpenNext();
      if !ready {
        return Failed;
      }
      r := ReadHeader(size);
    }

    method ReadChild(size: nat) returns (r: ReadResult)
      requires Valid() && size > 0 && hdrBuf.None? && childRead != null
      modifies Repr
      ensures Valid() && fresh(Repr - old(Repr)) && !r.Eof? && Advances(old(Ahead()), size, r, Ahead())
      decreases Repr, 0
    {
      ghost var body := Body();
      r := childRead.Read(size);
      Repr := Repr + childRead.Repr;
      if r.Eof? {
        childRead := null;
        r := Got([]);
      }
      BodyAdvances(body, size, r, Body(), links);
    }

    method ReadFile(size: nat) returns (r: ReadResult)
      requires Valid() && size > 0 && hdrBuf.None? && fileRead != null
      modifies this`pad, this`fileRead, fileRead
      ensures Valid() && !r.Eof? && Advances(old(Ahead()), size, r, Ahead())
    {
      ghost var body, padding := Body(), Zeros(Padding(fileRead.n + |fileRead.rest|));
      var out, eof, failed := fileRead.Read(size);
      if failed {
        return Failed;
      }
      assert out + (fileRead.rest + padding) == (out + fileRead.rest) + padding;
      if eof {
        pad := Padding(fileRead.n);
        assert fileRead.rest + padding == padding;
        fileRead := null;
      }
      r := Got(out);
      BodyAdvances(body, size, r, Body(), links);
    }

    method ReadPad(size: nat) returns (r: ReadResult)
      requires Valid() && size > 0 && hdrBuf.None? && childRead == null && fileRead == null && pad > 0
      modifies this`pad
      ensures Valid() && !r.Eof? && Advances(old(Ahead()), size, r, Ahead())
    {
      var k := if size < pad then size else pad;
      ghost var body := Body();
      assert Zeros(pad) == Zeros(k) + Zeros(pad - k);
      pad := pad - k;
      r := Got(Zeros(k));
      BodyAdvances(body, size, r, Body(), links);
    }

    /** A header waiting to be read takes priority over everything else. */
    method ReadHeader(size: nat) returns (r: ReadResult)
      requires Valid() && size > 0 && hdrBuf.Some?
      modifies this`hdrBuf
      ensures Valid() && !r.Eof? && Advances(old(Ahead()), size, r, Ahead())
    {
      var h := hdrBuf.value;
      var k := if size < |h| then size else |h|;
      HeaderAdvances(h, k, Body(), links);
      if h == [] {
        hdrBuf := None;
        assert Body() == old(Body());
        return Got([]);
      }
      hdrBuf := Some(h[k..]);
      assert Body() == old(Body());
      return Got(h[..k]);
    }

    /** Takes the next link: its header is laid out for reading, its file opened or its members queued. */
    method OpenNext() returns (ok: bool)
      requires Valid() && hdrBuf.None? && childRead == null && fileRead == null && pad == 0 && links != []
      modifies this
      ensures Valid() && fresh(Repr - old(Repr))
      ensures ok ==> hdrBuf.Some? && Ahead() == old(Ahead())
      ensures !ok ==> !old(Ahead()).sound
    {
      assert Body() == NOTHING;
      ghost var before := links;
      var next := links[0];
      links := links[1..];
      if !next.Header? {
        return false;
      }
      hdrBuf := Some(next.header);
      ok := OpenBody(next);
      if ok {
        LinkUnfolds(before, Body());
      }
    }

    method OpenFile(bytes: seq<Byte>, broken: bool)
      requires Valid() && childRead == null && fileRead == null && pad == 0
      modifies this`fileRead, this`Repr
      ensures Valid() && fresh(Repr - old(Repr))
      ensures Body() == View(bytes + (if broken then [] else Zeros(Padding(|bytes|))), 1, !broken)
    {
      fileRead := new CountReader(bytes, broken);
      Repr := Repr + {fileRead};
      assert Body() == FileView();
    }

    /** What follows the header: the file, or else the members below it. */
    method OpenBody(next: Entry) returns (ok: bool)
      requires Valid() && childRead == null && fileRead == null && pad == 0 && next.Header?
      modifies this`childRead, this`fileRead, this`Repr
      ensures Valid() && fresh(Repr - old(Repr))
      ensures ok <==> !next.file.Unreadable?
      ensures ok ==> EntryBytes(next) == next.header + Body().bytes && EntryPauses(next) == 1 + Body().idle
      ensures ok ==> (Body().sound <==> !next.file.Broken? && (next.file.NoFile? ==> Sound(next.links)))
    {
      match next.file {
        case Unreadable => return false;
        case FileData(bytes) => OpenFile(bytes, false);
        case Broken(bytes) => OpenFile(bytes, true);
        case NoFile =>
          assert Body() == NOTHING;
          if |next.links| > 0 {
            childRead := new Reader(next.links);
            Repr := Repr + childRead.Repr;
          }
      }
      return true;
    }
  }

  /** Only the root that an import leaves behind can be exported. */
  method ExportTar(data: string, links: seq<Entry>) returns (tr: Reader?)
    ensures tr == null <==> data != "ipfs/tar"
    ensures tr != null ==> fresh(tr.Repr) && tr.Valid() && tr.Ahead() == View(LinksBytes(links), Pauses(links), Sound(links))
  {
    if data != "ipfs/tar" {
      return null;
    }
    tr := new Reader(links);
    assert [] + ([] + LinksBytes(links)) == LinksBytes(links);
  }

  /** What was got so far and what is still ahead make up all. */
  predicate Collecting(all: View, got: seq<Byte>, calls: nat, ahead: View) {
    && got + ahead.bytes == all.bytes && (ahead.sound <==> all.sound)
    && calls + |ahead.bytes| + ahead.idle <= |all.bytes| + all.idle
  }

  lemma Collect(all: View, got: seq<Byte>, calls: nat, before: View, size: nat, r: ReadResult, after: View)
    requires Collecting(all, got, calls, before) && Advances(before, size, r, after)
    ensures r.Got? ==> Collecting(all, got + r.bytes, calls + 1, after)
    ensures r.Eof? ==> got == all.bytes && all.sound
    ensures r.Failed? ==> !all.sound
    ensures calls <= |all.bytes| + all.idle
  {
    if r.Got? {
      assert (got + r.bytes) + after.bytes == got + (r.bytes + after.bytes);
    }
  }

  /** Reads an export to its end with buffers of the given sizes. Whatever the sizes, the bytes are those of the
      recursive description, they are had exactly if everything can be read, and finitely many reads suffice. */
  method ReadAll(data: string, links: seq<Entry>, sizes: nat -> nat) returns (out: Option<seq<Byte>>, calls: nat)
    requires forall i :: sizes(i) > 0
    ensures out.Some? <==> data == "ipfs/tar" && Sound(links)
    ensures out.Some? ==> out.value == LinksBytes(links)
    ensures calls <= |LinksBytes(links)| + Pauses(links) + 1
  {
    var tr := ExportTar(data, links);
    if tr == null {
      return None, 0;
    }
    var got: seq<Byte> := [];
    calls := 0;
    ghost var all := tr.Ahead();
    assert [] + all.bytes == all.bytes;
    while true
      invariant tr.Valid() && fresh(tr.Repr)
      invariant Collecting(all, got, calls, tr.Ahead())
      decreases |tr.Ahead().bytes| + tr.Ahead().idle
    {
      ghost var before := tr.Ahead();
      var r := tr.Read(sizes(calls));
      Collect(all, got, calls, before, sizes(calls), r, tr.Ahead());
      calls := calls + 1;
      match r {
        case Got(bytes) => got := got + bytes;
        case Eof => return Some(got), calls;
        case Failed => return None, calls;
      }
    }
  }

  /** An archive of one file, in plain terms: the header, the data, and zeros up to the next multiple of 512. */
  lemma OneFileArchive(header: seq<Byte>, data: seq<Byte>)
    ensures var out, n := LinksBytes([Header(header, FileData(data), [])]), |header| + |data|;
      && n <= |out| < n + 512 && (|out| - |header|) % 512 == 0
      && out[..|header|] == header && out[|header|..n] == data
      && forall i :: n <= i < |out| ==> out[i] == 0
  {
    var e := Header(header, FileData(data), []);
    assert LinksBytes([e][1..]) == [];
    assert LinksBytes([e]) == header + (data + Zeros(Padding(|data|)));
  }

  /** A member without a file is its header followed by the members below it. */
  lemma DirectoryArchive(header: seq<Byte>, members: seq<Entry>, rest: seq<Entry>)
    ensures LinksBytes([Header(header, NoFile, members)] + rest) == header + LinksBytes(members) + LinksBytes(rest)
  {
    assert ([Header(header, NoFile, members)] + rest)[1..] == rest;
  }

  /** Reading an archive of one file, with buffers of any sizes. */
  method ReadOneFile(header: seq<Byte>, data: seq<Byte>, sizes: nat -> nat) returns (out: seq<Byte>)
    requires forall i :: sizes(i) > 0
    ensures var n := |header| + |data|;
      && n <= |out| < n + 512 && (|out| - |header|) % 512 == 0
      && out[..|header|] == header && out[|header|..n] == data
      && forall i :: n <= i < |out| ==> out[i] == 0
  {
    var links := [Header(header, FileData(data), [])];
    assert Sound(links);
    var r, _ := ReadAll("ipfs/tar", links, sizes);
    OneFileArchive(header, data);
    out := r.value;
  }

  /** Headers that take whole blocks, as a tar writer lays them out, and no file that breaks off. */
  predicate WholeHeaders(links: seq<Entry>) {
    forall i :: 0 <= i < |links| && links[i].Header? ==>
      |links[i].header| % BLOCK_SIZE == 0 && !links[i].file.Broken? && (links[i].file.NoFile? ==> WholeHeaders(links[i].links))
  }

  lemma WholeBlocksAdd(m: nat, n: nat)
    requires m % BLOCK_SIZE == 0 && n % BLOCK_SIZE == 0
    ensures (m + n) % BLOCK_SIZE == 0
  {
  }

  /** An archive whose headers take whole blocks takes whole blocks itself: every file is padded. */
  lemma {:induction false} ArchiveTakesWholeBlocks(links: seq<Entry>)
    requires WholeHeaders(links)
    ensures |LinksBytes(links)| % BLOCK_SIZE == 0
  {
    if links != [] {
      ArchiveTakesWholeBlocks(links[1..]);
      EntryTakesWholeBlocks(links[0]);
      WholeBlocksAdd(|EntryBytes(links[0])|, |LinksBytes(links[1..])|);
    }
  }

  lemma {:induction false} EntryTakesWholeBlocks(e: Entry)
    requires WholeHeaders([e])
    ensures |EntryBytes(e)| % BLOCK_SIZE == 0
  {
    assert [e][0] == e;
    match e {
      case Header(header, NoFile, below) =>
        ArchiveTakesWholeBlocks(below);
        WholeBlocksAdd(|header|, |LinksBytes(below)|);
      case Header(header, FileData(bytes), _) =>
        WholeBlocksAdd(|header|, |bytes| + Padding(|bytes|));
      case _ =>
    }
  }
}

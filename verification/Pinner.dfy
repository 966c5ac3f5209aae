/** The pinner (pin/pin.go): its three sets, and how Flush and LoadPinner save and restore them. */
module Pinner {
  import opened Basics
  import opened Cids
  import opened Graphs
  import opened Sorting
  import opened PinSets
  import opened PinSetLoading
  import opened PinSetTermination
  import PinQueries
  import Walk

  /** Where the key of the pin root is kept. */
  class Datastore {
    var pinRoot: Option<Cid>

    constructor (pinRoot: Option<Cid>)
      ensures this.pinRoot == pinRoot
    {
      this.pinRoot := pinRoot;
    }
  }

  datatype PinError = FetchError | AlreadyRecursive | NotPinnedError | PinnedRecursively | PinnedIndirectly

  datatype PinResult = Done | Refused(error: PinError)

  /** What a pin root on disk stands for: the three sets LoadPinner rebuilds from it. */
  datatype Saved = Saved(recursive: set<Cid>, direct: set<Cid>, internal: set<Cid>)

  // ---- loading, as a function of what is present

  function FindLink(links: seq<Link>, name: string): Result<Link> {
    if links == [] then Failure(LinkNotFound)
    else if links[0].name == name then Success(links[0])
    else FindLink(links[1..], name)
  }

  function LoadedSet(present: set<Cid>, root: DagNode, name: string): Result<Found> {
    var l :- FindLink(root.links, name);
    var n :- Get(present, l.cid);
    var w :- Walked(present, n);
    Success(Found(w.items, {l.cid} + w.keys))
  }

  function Loaded(present: set<Cid>, pinRoot: Option<Cid>): Result<Saved> {
    if pinRoot.None? then Failure(NotFound)
    else
      var root :- Get(present, pinRoot.value);
      var r :- LoadedSet(present, root, "recursive");
      var d :- LoadedSet(present, root, "direct");
      Success(Saved((set c | c in r.items), (set c | c in d.items), {pinRoot.value} + r.keys + d.keys))
  }

  method LoadSet(dag: DagStore, root: DagNode, name: string, internalKeys: CidSet) returns (r: Result<seq<Cid>>)
    modifies internalKeys
    ensures r.Success? <==> LoadedSet(dag.present, root, name).Success?
    ensures r.Failure? ==> r.error == LoadedSet(dag.present, root, name).error
    ensures r.Success? ==> r.value == LoadedSet(dag.present, root, name).value.items
    ensures r.Success? ==> internalKeys.elems == old(internalKeys.elems) + LoadedSet(dag.present, root, name).value.keys
  {
    var l := FindLink(root.links, name);
    if l.Failure? {
      return Failure(l.error);
    }
    internalKeys.Add(l.value.cid);
    var n := Get(dag.present, l.value.cid);
    if n.Failure? {
      return Failure(n.error);
    }
    var res := new KeyList();
    var walked := WalkItems(dag, n.value, res, internalKeys);
    if walked.Failure? {
      return Failure(walked.error);
    }
    return Success(res.items);
  }

  method SetWithValues(cids: seq<Cid>) returns (out: CidSet)
    ensures fresh(out) && out.elems == Elems(cids)
  {
    out := new CidSet();
    for i := 0 to |cids|
      invariant fresh(out) && out.elems == Elems(cids[..i])
    {
      assert cids[..i + 1] == cids[..i] + [cids[i]];
      out.Add(cids[i]);
    }
    assert cids[..|cids|] == cids;
  }

  // ---- what Flush leaves behind

  function PinRoot(directLink: Link, recursiveLink: Link): DagNode {
    DagNode([directLink, recursiveLink], NoData)
  }

  lemma PinRootIsCanonical(directLink: Link, recursiveLink: Link)
    requires directLink.name == "direct" && recursiveLink.name == "recursive"
    ensures Canonical(PinRoot(directLink, recursiveLink)) == PinRoot(directLink, recursiveLink)
  {
    var links := [directLink, recursiveLink];
    assert !StringLess("recursive", "direct");
    SortFixes(NameLess, links);
  }

  function SetLink(cfg: Config, name: string, n: DagNode): Link {
    Link(name, cfg.size(n), OfNode(n))
  }

  /** The tree in which a list of keys is stored by Flush. */
  ghost function TreeOf(cfg: Config, cids: seq<Cid>, fuel: nat): SetTree
    requires Ends(cfg, |cids|, 0, cids, fuel)
  {
    Build(cfg, |cids|, 0, cids, fuel)
  }

  ghost predicate ListOf(cfg: Config, cids: seq<Cid>, keys: set<Cid>, fuel: nat) {
    NoDuplicates(cids) && Elems(cids) == keys && Ends(cfg, |cids|, 0, cids, fuel)
  }

  /** The key of the pin root, and every key that keeps the saved state alive: the pin root, both set roots,
      every node of the two trees, and the empty key. */
  ghost function RootKey(cfg: Config, direct: seq<Cid>, recursive: seq<Cid>, fuel: nat): Cid
    requires Ends(cfg, |direct|, 0, direct, fuel) && Ends(cfg, |recursive|, 0, recursive, fuel)
  {
    OfNode(PinRoot(SetLink(cfg, "direct", NodeOf(cfg, TreeOf(cfg, direct, fuel))),
                   SetLink(cfg, "recursive", NodeOf(cfg, TreeOf(cfg, recursive, fuel)))))
  }

  ghost function Protected(cfg: Config, direct: seq<Cid>, recursive: seq<Cid>, fuel: nat): set<Cid>
    requires Ends(cfg, |direct|, 0, direct, fuel) && Ends(cfg, |recursive|, 0, recursive, fuel)
  {
    {RootKey(cfg, direct, recursive, fuel), EMPTY_KEY}
    + OwnKeys(cfg, Subtree(TreeOf(cfg, direct, fuel))) + OwnKeys(cfg, Subtree(TreeOf(cfg, recursive, fuel)))
  }

  /** This pin root key was written by a Flush of these three sets. */
  ghost predicate Flushed(cfg: Config, pinRoot: Option<Cid>, saved: Saved) {
    exists direct, recursive, fuel :: FlushedAs(cfg, pinRoot, saved, direct, recursive, fuel)
  }

  ghost predicate FlushedAs(cfg: Config, pinRoot: Option<Cid>, saved: Saved, direct: seq<Cid>, recursive: seq<Cid>, fuel: nat) {
    && ListOf(cfg, direct, saved.direct, fuel) && ListOf(cfg, recursive, saved.recursive, fuel)
    && pinRoot == Some(RootKey(cfg, direct, recursive, fuel))
    && saved.internal == Protected(cfg, direct, recursive, fuel)
  }

  lemma SavedSetLoads(cfg: Config, present: set<Cid>, root: DagNode, name: string, cids: seq<Cid>, fuel: nat)
    requires Ends(cfg, |cids|, 0, cids, fuel)
    requires FindLink(root.links, name) == Success(SetLink(cfg, name, NodeOf(cfg, TreeOf(cfg, cids, fuel))))
    requires OwnKeys(cfg, Subtree(TreeOf(cfg, cids, fuel))) <= present
    ensures var r := LoadedSet(present, root, name);
      && r.Success? && (set c | c in r.value.items) == Elems(cids)
      && r.value.keys == OwnKeys(cfg, Subtree(TreeOf(cfg, cids, fuel))) + {EMPTY_KEY}
  {
    var t := TreeOf(cfg, cids, fuel);
    StoredSetLoads(cfg, |cids|, 0, cids, fuel, present);
    var w := Walked(present, NodeOf(cfg, t));
    forall c ensures c in w.value.items <==> c in cids {
      assert c in multiset(w.value.items) <==> c in multiset(cids);
    }
  }

  /** Loading restores what was flushed, the internal set included. It needs no more than the presence of the
      keys in that internal set: deleting anything else in between does no harm. */
  lemma FlushedLoads(cfg: Config, present: set<Cid>, pinRoot: Option<Cid>, saved: Saved)
    requires Flushed(cfg, pinRoot, saved) && saved.internal <= present
    ensures Loaded(present, pinRoot) == Success(saved)
  {
    var direct, recursive, fuel :| FlushedAs(cfg, pinRoot, saved, direct, recursive, fuel);
    var root := pinRoot.value.node;
    var directTree, recursiveTree := TreeOf(cfg, direct, fuel), TreeOf(cfg, recursive, fuel);
    PinRootLinks(SetLink(cfg, "direct", NodeOf(cfg, directTree)), SetLink(cfg, "recursive", NodeOf(cfg, recursiveTree)));
    SavedSetLoads(cfg, present, root, "recursive", recursive, fuel);
    SavedSetLoads(cfg, present, root, "direct", direct, fuel);
    var r, d := LoadedSet(present, root, "recursive").value, LoadedSet(present, root, "direct").value;
    assert {pinRoot.value} + r.keys + d.keys == saved.internal;
  }

  lemma PinRootLinks(directLink: Link, recursiveLink: Link)
    requires directLink.name == "direct" && recursiveLink.name == "recursive"
    ensures FindLink(PinRoot(directLink, recursiveLink).links, "direct") == Success(directLink)
    ensures FindLink(PinRoot(directLink, recursiveLink).links, "recursive") == Success(recursiveLink)
  {
    assert [directLink, recursiveLink][1..] == [recursiveLink];
  }

  /** The keys that storing the two sets and the pin root has collected are the ones to protect. */
  lemma FlushWrites(cfg: Config, pinRoot: Option<Cid>, saved: Saved, direct: seq<Cid>, recursive: seq<Cid>, fuel: nat)
    requires ListOf(cfg, direct, saved.direct, fuel) && ListOf(cfg, recursive, saved.recursive, fuel)
    requires pinRoot == Some(RootKey(cfg, direct, recursive, fuel))
    requires saved.internal == {} + ({EMPTY_KEY} + OwnKeys(cfg, Subtree(TreeOf(cfg, direct, fuel))))
               + ({EMPTY_KEY} + OwnKeys(cfg, Subtree(TreeOf(cfg, recursive, fuel)))) + {pinRoot.value}
    ensures Flushed(cfg, pinRoot, saved)
  {
    assert saved.internal == Protected(cfg, direct, recursive, fuel);
    assert FlushedAs(cfg, pinRoot, saved, direct, recursive, fuel);
  }

  /** Stores one of the two sets and makes the link to it. */
  method StoreNamedSet(cfg: Config, dag: DagStore, name: string, keys: seq<Cid>, internalset: CidSet, ghost fuel: nat) returns (l: Link)
    requires NoDuplicates(keys) && Spread(cfg, Elems(keys), fuel)
    modifies dag, internalset
    ensures ListOf(cfg, keys, Elems(keys), fuel)
    ensures l == SetLink(cfg, name, NodeOf(cfg, TreeOf(cfg, keys, fuel)))
    ensures l.name == name && l.cid.OfNode? && l.size == cfg.size(l.cid.node)
    ensures dag.present == old(dag.present) + OwnKeys(cfg, Subtree(TreeOf(cfg, keys, fuel)))
    ensures internalset.elems == old(internalset.elems) + ({EMPTY_KEY} + OwnKeys(cfg, Subtree(TreeOf(cfg, keys, fuel))))
  {
    SpreadSetEnds(cfg, keys, fuel);
    var n := StoreSet(cfg, dag, keys, internalset, fuel);
    SetNodeIsCanonical(cfg, TreeOf(cfg, keys, fuel));
    return SetLink(cfg, name, n);
  }

  /** Stores both sets, and collects the keys of what is stored. */
  method StoreBoth(cfg: Config, dag: DagStore, direct: seq<Cid>, recursive: seq<Cid>, internalset: CidSet, ghost fuel: nat)
    returns (directLink: Link, recursiveLink: Link)
    requires NoDuplicates(direct) && Spread(cfg, Elems(direct), fuel)
    requires NoDuplicates(recursive) && Spread(cfg, Elems(recursive), fuel)
    modifies dag, internalset
    ensures ListOf(cfg, direct, Elems(direct), fuel) && ListOf(cfg, recursive, Elems(recursive), fuel)
    ensures directLink == SetLink(cfg, "direct", NodeOf(cfg, TreeOf(cfg, direct, fuel)))
    ensures recursiveLink == SetLink(cfg, "recursive", NodeOf(cfg, TreeOf(cfg, recursive, fuel)))
    ensures var d, r := OwnKeys(cfg, Subtree(TreeOf(cfg, direct, fuel))), OwnKeys(cfg, Subtree(TreeOf(cfg, recursive, fuel)));
      && dag.present == old(dag.present) + d + r
      && internalset.elems == old(internalset.elems) + ({EMPTY_KEY} + d) + ({EMPTY_KEY} + r)
  {
    directLink := StoreNamedSet(cfg, dag, "direct", direct, internalset, fuel);
    recursiveLink := StoreNamedSet(cfg, dag, "recursive", recursive, internalset, fuel);
  }

  lemma SameKeys(present: set<Cid>, d: set<Cid>, r: set<Cid>, e: Cid, k: Cid)
    ensures present + d + r + {e} + {k} == present + ({} + ({e} + d) + ({e} + r) + {k})
  {
  }

  /** Stores both sets and the pin root, and collects the keys to protect. */
  method StoreState(cfg: Config, dag: DagStore, direct: seq<Cid>, recursive: seq<Cid>, ghost fuel: nat)
    returns (k: Cid, internalset: CidSet)
    requires NoDuplicates(direct) && Spread(cfg, Elems(direct), fuel)
    requires NoDuplicates(recursive) && Spread(cfg, Elems(recursive), fuel)
    modifies dag
    ensures fresh(internalset) && dag.present == old(dag.present) + internalset.elems
    ensures Flushed(cfg, Some(k), Saved(Elems(recursive), Elems(direct), internalset.elems))
  {
    internalset := new CidSet();
    var directLink, recursiveLink := StoreBoth(cfg, dag, direct, recursive, internalset, fuel);
    k := StoreRoot(dag, directLink, recursiveLink);
    ghost var d, r := OwnKeys(cfg, Subtree(TreeOf(cfg, direct, fuel))), OwnKeys(cfg, Subtree(TreeOf(cfg, recursive, fuel)));
    internalset.Add(k);
    SameKeys(old(dag.present), d, r, EMPTY_KEY, k);
    FlushWrites(cfg, Some(k), Saved(Elems(recursive), Elems(direct), internalset.elems), direct, recursive, fuel);
  }

  /** Stores the empty node, to which unused slots refer, and the pin root. */
  method StoreRoot(dag: DagStore, directLink: Link, recursiveLink: Link) returns (k: Cid)
    requires directLink.name == "direct" && recursiveLink.name == "recursive"
    modifies dag
    ensures k == OfNode(PinRoot(directLink, recursiveLink)) && dag.present == old(dag.present) + {EMPTY_KEY} + {k}
  {
    var _ := dag.Add(DagNode([], NoData));
    PinRootIsCanonical(directLink, recursiveLink);
    k := dag.Add(PinRoot(directLink, recursiveLink));
  }

  // ---- the pinner

  class PinnerState {
    var recursePin: CidSet
    var directPin: CidSet
    var internalPin: CidSet
    /** What the DAG service answers for GetLinks; pinning only reads it. */
    const links: Graph<Cid>
    const internal: DagStore
    const dstore: Datastore

    ghost predicate Valid()
      reads this
    {
      recursePin != directPin && recursePin != internalPin && directPin != internalPin
    }

    ghost function Pins(): PinQueries.PinState
      reads this, recursePin, directPin, internalPin
    {
      PinQueries.PinState(recursePin.elems, directPin.elems, internalPin.elems)
    }

    /** No key is pinned both directly and recursively. */
    ghost predicate Exclusive()
      reads this, recursePin, directPin
    {
      recursePin.elems !! directPin.elems
    }

    constructor (dstore: Datastore, links: Graph<Cid>, internal: DagStore)
      ensures Valid() && Pins() == PinQueries.PinState({}, {}, {})
      ensures fresh(recursePin) && fresh(directPin) && fresh(internalPin)
      ensures this.dstore == dstore && this.links == links && this.internal == internal
    {
      this.dstore, this.links, this.internal := dstore, links, internal;
      recursePin := new CidSet();
      directPin := new CidSet();
      internalPin := new CidSet();
    }

    /** Pins `c`, with everything below it if `recurse`. A recursive pin that fails to fetch has already dropped the
        direct pin of `c`, so it leaves all pins alone exactly if there was none. */
    method Pin(c: Cid, recurse: bool) returns (r: PinResult)
      requires Valid()
      modifies recursePin, directPin
      ensures internalPin.elems == old(internalPin.elems)
      ensures old(Exclusive()) ==> Exclusive()
      ensures recurse && c in old(recursePin.elems) ==> r == Done && Pins() == old(Pins())
      ensures recurse && c !in old(recursePin.elems) ==>
        && (r == Done <==> !Walk.MissesNode(links, {}, c))
        && recursePin.elems == old(recursePin.elems) + (if r == Done then {c} else {})
        && directPin.elems == old(directPin.elems) - {c}
      ensures r.Refused? ==> r.error == if recurse || c !in links then FetchError else AlreadyRecursive
      ensures recurse && r != Done ==> (Pins() == old(Pins()) <==> c !in old(directPin.elems))
      ensures !recurse ==>
        && (r == Done <==> c in links && c !in old(recursePin.elems))
        && recursePin.elems == old(recursePin.elems)
        && directPin.elems == old(directPin.elems) + (if r == Done then {c} else {})
    {
      if recurse {
        if recursePin.Has(c) {
          return Done;
        }
        if directPin.Has(c) {
          directPin.Remove(c);
        }
        var seen := new CidSet();
        var ok := Walk.EnumerateChildren(links, c, seen);
        if !ok {
          return Refused(FetchError);
        }
        recursePin.Add(c);
      } else {
        if c !in links {
          return Refused(FetchError);
        }
        if recursePin.Has(c) {
          return Refused(AlreadyRecursive);
        }
        directPin.Add(c);
      }
      return Done;
    }

    method Unpin(c: Cid, recursive: bool) returns (r: PinResult)
      requires Valid()
      modifies recursePin, directPin
      ensures internalPin.elems == old(internalPin.elems)
      ensures old(Exclusive()) ==> Exclusive()
      ensures r == Done <==> (c in old(recursePin.elems) && recursive) || c in old(directPin.elems - recursePin.elems)
      ensures r != Done ==> Pins() == old(Pins())
      ensures r == Done ==>
        if c in old(recursePin.elems) then recursePin.elems == old(recursePin.elems) - {c} && directPin.elems == old(directPin.elems)
        else recursePin.elems == old(recursePin.elems) && directPin.elems == old(directPin.elems) - {c}
      ensures r == Refused(PinnedRecursively) <==> c in old(recursePin.elems) && !recursive
      ensures r == Refused(PinnedIndirectly) ==> c in old(internalPin.elems) || PinQueries.UnderSomeRoot(links, old(Pins()), c)
      ensures r == Refused(FetchError) ==> PinQueries.SomethingMissing(links, old(Pins()))
      ensures r != Refused(AlreadyRecursive)
      ensures r == Refused(NotPinnedError) ==> !old(Pins()).Holds(c) && !PinQueries.UnderSomeRoot(links, old(Pins()), c)
    {
      var a := PinQueries.IsPinnedWithType(links, recursePin, directPin, internalPin, c, PinQueries.Any);
      match a {
        case FetchFailed => return Refused(FetchError);
        case Unpinned => return Refused(NotPinnedError);
        case ByRecursive =>
          if !recursive {
            return Refused(PinnedRecursively);
          }
          recursePin.Remove(c);
          return Done;
        case ByDirect =>
          directPin.Remove(c);
          return Done;
        case _ => return Refused(PinnedIndirectly);
      }
    }

    /** Saves both pin sets and installs the set of keys that must survive garbage collection. */
    method Flush(cfg: Config, ghost fuel: nat)
      requires Valid()
      requires Spread(cfg, recursePin.elems, fuel) && Spread(cfg, directPin.elems, fuel)
      modifies this`internalPin, internal, dstore
      ensures Valid() && fresh(internalPin)
      ensures recursePin.elems == old(recursePin.elems) && directPin.elems == old(directPin.elems)
      ensures Flushed(cfg, dstore.pinRoot, Saved(recursePin.elems, directPin.elems, internalPin.elems))
      ensures internal.present == old(internal.present) + internalPin.elems
    {
      var directKeys := directPin.Keys();
      var recursiveKeys := recursePin.Keys();
      var k, internalset := StoreState(cfg, internal, directKeys, recursiveKeys, fuel);
      dstore.pinRoot := Some(k);
      internalPin := internalset;
    }
  }

  /** Rebuilds a pinner from the datastore. */
  method LoadPinner(dstore: Datastore, links: Graph<Cid>, internal: DagStore) returns (r: Result<PinnerState>)
    ensures r.Success? <==> Loaded(internal.present, dstore.pinRoot).Success?
    ensures r.Failure? ==> r.error == Loaded(internal.present, dstore.pinRoot).error
    ensures r.Success? ==>
      && r.value.Valid() && r.value.dstore == dstore && r.value.links == links && r.value.internal == internal
      && var s := Loaded(internal.present, dstore.pinRoot).value;
         r.value.Pins() == PinQueries.PinState(s.recursive, s.direct, s.internal)
  {
    if dstore.pinRoot.None? {
      return Failure(NotFound);
    }
    var rootCid := dstore.pinRoot.value;
    var root := Get(internal.present, rootCid);
    if root.Failure? {
      return Failure(root.error);
    }
    var internalset := new CidSet();
    internalset.Add(rootCid);
    var recurseKeys := LoadSet(internal, root.value, "recursive", internalset);
    if recurseKeys.Failure? {
      return Failure(recurseKeys.error);
    }
    var directKeys := LoadSet(internal, root.value, "direct", internalset);
    if directKeys.Failure? {
      return Failure(directKeys.error);
    }
    var p := new PinnerState(dstore, links, internal);
    var recursive := SetWithValues(recurseKeys.value);
    var direct := SetWithValues(directKeys.value);
    p.recursePin := recursive;
    p.directPin := direct;
    p.internalPin := internalset;
    return Success(p);
  }

  /** Flush and load, back to back: the new pinner has the same three sets. */
  method FlushAndReload(cfg: Config, p: PinnerState, ghost fuel: nat) returns (q: PinnerState)
    requires p.Valid()
    requires Spread(cfg, p.recursePin.elems, fuel) && Spread(cfg, p.directPin.elems, fuel)
    modifies p`internalPin, p.internal, p.dstore
    ensures q.Valid() && q.Pins() == p.Pins()
    ensures p.recursePin.elems == old(p.recursePin.elems) && p.directPin.elems == old(p.directPin.elems)
  {
    p.Flush(cfg, fuel);
    FlushedLoads(cfg, p.internal.present, p.dstore.pinRoot, Saved(p.recursePin.elems, p.directPin.elems, p.internalPin.elems));
    var r := LoadPinner(p.dstore, p.links, p.internal);
    q := r.value;
  }

  /** A key that links to a missing node is pinned directly; trying to pin it recursively fails and unpins it. */
  method FailedPinUnpins(dstore: Datastore, internal: DagStore, c: Cid, missing: Cid) returns (p: PinnerState, r: PinResult)
    requires c != missing
    ensures fresh(p) && r == Refused(FetchError) && !p.Pins().Holds(c)
  {
    var links: Graph<Cid> := map[c := [missing]];
    p := new PinnerState(dstore, links, internal);
    r := p.Pin(c, false);
    OneLink(links, {}, c, missing);
    assert Walk.MissesNode(links, {}, c);
    r := p.Pin(c, true);
  }
}

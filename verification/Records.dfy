/** Choosing the best of several IPNS records (namesys/publisher.go). */
module Records {
  import opened Basics

  type Bytes = seq<Byte>

  /** The fields of an entry that matter here. */
  datatype Record = Record(sequence: nat, validity: Bytes)

  /** Unmarshalling an entry, and reading its validity as an instant. Either may fail. */
  datatype Reader = Reader(parse: Bytes -> Option<Record>, instant: Bytes -> Option<int>)

  /** The order of bytes.Compare. */
  predicate Less(a: Bytes, b: Bytes) {
    b != [] && (a == [] || a[0] < b[0] || (a[0] == b[0] && Less(a[1..], b[1..])))
  }

  lemma {:induction false} LessAsymmetric(a: Bytes, b: Bytes)
    requires Less(a, b)
    ensures !Less(b, a)
  {
    if a != [] && a[0] == b[0] { LessAsymmetric(a[1..], b[1..]); }
  }

  lemma {:induction false} LessTotal(a: Bytes, b: Bytes)
    requires a != b
    ensures Less(a, b) || Less(b, a)
  {
    if a != [] && b != [] && a[0] == b[0] {
      assert a == [a[0]] + a[1..] && b == [b[0]] + b[1..];
      LessTotal(a[1..], b[1..]);
    }
  }

  lemma {:induction false} LessTransitive(a: Bytes, b: Bytes, c: Bytes)
    requires Less(a, b) && Less(b, c)
    ensures Less(a, c)
  {
    if a != [] && a[0] == b[0] == c[0] { LessTransitive(a[1..], b[1..], c[1..]); }
  }

  /** The same in plain terms: at the first place where they differ the smaller byte decides, and a sequence that ends
      there comes first. */
  ghost predicate LessAt(a: Bytes, b: Bytes, k: nat) {
    k < |b| && k <= |a| && a[..k] == b[..k] && (k == |a| || a[k] < b[k])
  }

  lemma {:induction false} LessExactly(a: Bytes, b: Bytes)
    ensures Less(a, b) <==> exists k: nat :: LessAt(a, b, k)
  {
    if a != [] && b != [] && a[0] == b[0] {
      LessExactly(a[1..], b[1..]);
      if Less(a, b) {
        var k: nat :| LessAt(a[1..], b[1..], k);
        assert a[..k + 1] == [a[0]] + a[1..][..k] && b[..k + 1] == [b[0]] + b[1..][..k];
        assert LessAt(a, b, k + 1);
      }
      forall k: nat | LessAt(a, b, k)
        ensures LessAt(a[1..], b[1..], k - 1)
      {
        assert a[..k][1..] == a[1..][..k - 1] && b[..k][1..] == b[1..][..k - 1];
      }
    } else {
      if Less(a, b) { assert LessAt(a, b, 0); }
      assert forall k: nat :: LessAt(a, b, k) && k > 0 ==> a[..k][0] == b[..k][0];
    }
  }

  // ---- what a value says

  predicate Usable(r: Reader, v: Bytes) {
    r.parse(v).Some?
  }

  function Sequence(r: Reader, v: Bytes): nat
    requires Usable(r, v)
  {
    r.parse(v).value.sequence
  }

  function Expiry(r: Reader, v: Bytes): Option<int>
    requires Usable(r, v)
  {
    r.instant(r.parse(v).value.validity)
  }

  /** `v` takes the place of `w`: a higher sequence number, or a later expiry, or greater bytes. */
  predicate Better(r: Reader, v: Bytes, w: Bytes)
    requires Usable(r, v) && Usable(r, w)
  {
    || Sequence(r, v) > Sequence(r, w)
    || (Sequence(r, v) == Sequence(r, w) && Expiry(r, v).Some? && Expiry(r, w).Some? &&
        (Expiry(r, v).value > Expiry(r, w).value || (Expiry(r, v) == Expiry(r, w) && Less(w, v))))
  }

  function Prefer(r: Reader, best: Option<Bytes>, v: Bytes): (w: Option<Bytes>)
    requires best.Some? ==> Usable(r, best.value)
    ensures w.Some? ==> Usable(r, w.value)
  {
    if Usable(r, v) && (best.None? || Better(r, v, best.value)) then Some(v) else best
  }

  /** The value that is left after they have come in one by one. */
  function Winner(r: Reader, vals: seq<Bytes>): (w: Option<Bytes>)
    ensures w.Some? ==> Usable(r, w.value) && w.value in vals
    ensures w.None? <==> forall v :: v in vals ==> !Usable(r, v)
  {
    if vals == [] then None
    else
      assert vals == vals[..|vals| - 1] + [vals[|vals| - 1]];
      Prefer(r, Winner(r, vals[..|vals| - 1]), vals[|vals| - 1])
  }

  lemma WinnerSnoc(r: Reader, vals: seq<Bytes>, v: Bytes)
    ensures Winner(r, vals + [v]) == Prefer(r, Winner(r, vals), v)
  {
    assert (vals + [v])[..|vals|] == vals;
  }

  // ---- what is selected, in plain terms

  /** A value of the highest sequence number among the usable ones. */
  predicate Top(r: Reader, vals: seq<Bytes>, w: Bytes) {
    w in vals && Usable(r, w) && forall v :: v in vals && Usable(r, v) ==> Sequence(r, v) <= Sequence(r, w)
  }

  /** `v` comes after `w` in the order of bytes. */
  ghost predicate GreaterBytes(v: Bytes, w: Bytes) {
    exists k: nat :: LessAt(w, v, k)
  }

  /** Of two values with readable expiries, `w` expires later, or at the same time and its bytes are not smaller. */
  ghost predicate NotOutdone(r: Reader, w: Bytes, v: Bytes)
    requires Usable(r, w) && Usable(r, v) && Expiry(r, w).Some? && Expiry(r, v).Some?
  {
    || Expiry(r, v).value < Expiry(r, w).value
    || (Expiry(r, v).value == Expiry(r, w).value && !GreaterBytes(v, w))
  }

  /** What the selector is to answer: a value of the highest sequence number. If the first of these has no readable
      expiry it is that one; otherwise, among those with a readable expiry, none expires later, and none of the same
      expiry has greater bytes. */
  ghost predicate Selected(r: Reader, vals: seq<Bytes>, w: Bytes) {
    && Top(r, vals, w)
    && exists f :: FirstTop(r, vals, f) &&
         if Expiry(r, vals[f]).None? then w == vals[f]
         else Expiry(r, w).Some? && forall v :: Top(r, vals, v) && Expiry(r, v).Some? ==> NotOutdone(r, w, v)
  }

  ghost predicate FirstTop(r: Reader, vals: seq<Bytes>, f: int) {
    0 <= f < |vals| && Top(r, vals, vals[f]) && forall j :: 0 <= j < f ==> !Top(r, vals, vals[j])
  }

  /** Whatever wins has the highest sequence number. */
  lemma {:induction false} WinnerIsTop(r: Reader, vals: seq<Bytes>)
    requires Winner(r, vals).Some?
    ensures Top(r, vals, Winner(r, vals).value)
  {
    var front, last := vals[..|vals| - 1], vals[|vals| - 1];
    assert vals == front + [last];
    if Winner(r, front).Some? {
      WinnerIsTop(r, front);
    }
  }

  lemma NotOutdoneIs(r: Reader, w: Bytes, v: Bytes)
    requires Usable(r, w) && Usable(r, v) && Expiry(r, w).Some? && Expiry(r, v).Some? && Sequence(r, w) == Sequence(r, v)
    ensures NotOutdone(r, w, v) <==> !Better(r, v, w)
  {
    LessExactly(w, v);
  }

  lemma NotOutdoneTransitive(r: Reader, u: Bytes, w: Bytes, v: Bytes)
    requires Usable(r, u) && Usable(r, w) && Usable(r, v) && Expiry(r, u).Some? && Expiry(r, w).Some? && Expiry(r, v).Some?
    requires Sequence(r, u) == Sequence(r, w) == Sequence(r, v) && Better(r, u, w) && NotOutdone(r, w, v)
    ensures NotOutdone(r, u, v)
  {
    NotOutdoneIs(r, w, v);
    NotOutdoneIs(r, u, v);
    if Less(w, u) && Less(u, v) { LessTransitive(w, u, v); }
  }

  lemma FirstTopStays(r: Reader, front: seq<Bytes>, last: Bytes, f: nat)
    requires FirstTop(r, front, f) && (Usable(r, last) ==> Sequence(r, last) <= Sequence(r, front[f]))
    ensures FirstTop(r, front + [last], f) && (front + [last])[f] == front[f]
    ensures forall v :: Top(r, front + [last], v) <==>
      Top(r, front, v) || (v == last && Usable(r, last) && Sequence(r, last) == Sequence(r, front[f]))
  {
    var vals := front + [last];
    assert vals[f] == front[f];
    assert forall v :: v in vals <==> v in front || v == last;
    assert forall j :: 0 <= j < f ==> vals[j] == front[j];
  }

  /** One more value of no higher sequence number. */
  lemma SelectedStep(r: Reader, front: seq<Bytes>, b: Bytes, last: Bytes)
    requires Selected(r, front, b) && (Usable(r, last) ==> Sequence(r, last) <= Sequence(r, b))
    ensures Selected(r, front + [last], Prefer(r, Some(b), last).value)
  {
    var f :| FirstTop(r, front, f) &&
      if Expiry(r, front[f]).None? then b == front[f]
      else Expiry(r, b).Some? && forall v :: Top(r, front, v) && Expiry(r, v).Some? ==> NotOutdone(r, b, v);
    var w, vals := Prefer(r, Some(b), last).value, front + [last];
    FirstTopStays(r, front, last, f);
    assert Top(r, vals, w);
    if Expiry(r, front[f]).Some? {
      forall v | Top(r, vals, v) && Expiry(r, v).Some?
        ensures NotOutdone(r, w, v)
      {
        if w == v {
          LessExactly(w, w);
          if Less(w, w) { LessAsymmetric(w, w); }
        } else if w == last && v != last && w != b {
          NotOutdoneTransitive(r, w, b, v);
        } else if v == last && !Top(r, front, v) {
          NotOutdoneIs(r, w, v);
        }
      }
    }
  }

  /** The first value of its sequence number. */
  lemma SelectedAlone(r: Reader, front: seq<Bytes>, last: Bytes)
    requires Usable(r, last) && forall v :: v in front && Usable(r, v) ==> Sequence(r, v) < Sequence(r, last)
    ensures Selected(r, front + [last], last)
  {
    var vals := front + [last];
    assert forall v :: v in vals <==> v in front || v == last;
    assert vals[|front|] == last && forall j :: 0 <= j < |front| ==> vals[j] == front[j];
    assert FirstTop(r, vals, |front|);
    LessExactly(last, last);
    if Less(last, last) { LessAsymmetric(last, last); }
  }

  /** The value that is left is the one to select. */
  lemma {:induction false} WinnerIsSelected(r: Reader, vals: seq<Bytes>)
    requires Winner(r, vals).Some?
    ensures Selected(r, vals, Winner(r, vals).value)
  {
    var front, last := vals[..|vals| - 1], vals[|vals| - 1];
    assert vals == front + [last];
    if Winner(r, front).None? {
      SelectedAlone(r, front, last);
    } else {
      var b := Winner(r, front).value;
      WinnerIsSelected(r, front);
      if Usable(r, last) && Sequence(r, last) > Sequence(r, b) {
        SelectedAlone(r, front, last);
      } else {
        SelectedStep(r, front, b, last);
      }
    }
  }

  // ---- the selector

  method SelectRecord(r: Reader, recs: seq<Option<Record>>, vals: seq<Bytes>) returns (i: nat, ok: bool)
    requires |recs| == |vals| && forall k :: 0 <= k < |vals| ==> recs[k] == r.parse(vals[k])
    ensures ok <==> exists v :: v in vals && Usable(r, v)
    ensures ok ==> i < |vals| && Some(vals[i]) == Winner(r, vals) && Selected(r, vals, vals[i])
  {
    var bestSeq: nat := 0;
    var bestI: int := -1;
    for k := 0 to |recs|
      invariant -1 <= bestI < k
      invariant bestI == -1 ==> bestSeq == 0 && Winner(r, vals[..k]).None?
      invariant bestI >= 0 ==> Winner(r, vals[..k]) == Some(vals[bestI]) && bestSeq == Sequence(r, vals[bestI])
    {
      assert vals[..k + 1] == vals[..k] + [vals[k]];
      WinnerSnoc(r, vals[..k], vals[k]);
      if recs[k].None? || recs[k].value.sequence < bestSeq {
        continue;
      }
      if bestI == -1 || recs[k].value.sequence > bestSeq {
        bestSeq, bestI := recs[k].value.sequence, k;
      } else if recs[k].value.sequence == bestSeq {
        var rt := r.instant(recs[k].value.validity);
        if rt.None? {
          continue;
        }
        var bestt := r.instant(recs[bestI].value.validity);
        if bestt.None? {
          continue;
        }
        if rt.value > bestt.value {
          bestI := k;
        } else if rt == bestt {
          if Less(vals[bestI], vals[k]) {
            bestI := k;
          }
        }
      }
    }
    assert vals[..|vals|] == vals;
    if bestI == -1 {
      return 0, false;
    }
    WinnerIsSelected(r, vals);
    return bestI, true;
  }

  method IpnsSelectorFunc(r: Reader, vals: seq<Bytes>) returns (i: nat, ok: bool)
    ensures ok <==> exists v :: v in vals && Usable(r, v)
    ensures ok ==> i < |vals| && Some(vals[i]) == Winner(r, vals) && Selected(r, vals, vals[i])
  {
    var recs: seq<Option<Record>> := [];
    for k := 0 to |vals|
      invariant |recs| == k && forall j :: 0 <= j < k ==> recs[j] == r.parse(vals[j])
    {
      recs := recs + [r.parse(vals[k])];
    }
    i, ok := SelectRecord(r, recs, vals);
  }

  // ---- the best of a set of records

  /** `w` beats every other usable value: the maximum by sequence number, expiry and bytes. */
  predicate Best(r: Reader, vals: seq<Bytes>, w: Bytes) {
    w in vals && Usable(r, w) && forall v :: v in vals && Usable(r, v) && v != w ==> Better(r, w, v)
  }

  /** The values of the highest sequence number all have a readable expiry, or are one and the same. */
  ghost predicate Decidable(r: Reader, vals: seq<Bytes>) {
    || (forall v :: Top(r, vals, v) ==> Expiry(r, v).Some?)
    || (forall v, w :: Top(r, vals, v) && Top(r, vals, w) ==> v == w)
  }

  lemma BetterAsymmetric(r: Reader, v: Bytes, w: Bytes)
    requires Usable(r, v) && Usable(r, w) && Better(r, v, w)
    ensures !Better(r, w, v)
  {
    if Less(w, v) { LessAsymmetric(w, v); }
  }

  lemma BetterTransitive(r: Reader, u: Bytes, v: Bytes, w: Bytes)
    requires Usable(r, u) && Usable(r, v) && Usable(r, w) && Better(r, u, v) && Better(r, v, w)
    ensures Better(r, u, w)
  {
    if Less(w, v) && Less(v, u) { LessTransitive(w, v, u); }
  }

  /** A value that beats all others wins, wherever it stands. */
  lemma {:induction false} BestWins(r: Reader, vals: seq<Bytes>, w: Bytes)
    requires Best(r, vals, w)
    ensures Winner(r, vals) == Some(w)
  {
    var front, last := vals[..|vals| - 1], vals[|vals| - 1];
    assert vals == front + [last];
    if w in front {
      BestWins(r, front, w);
      if Usable(r, last) && last != w { BetterAsymmetric(r, w, last); }
      if last == w && Better(r, w, w) { BetterAsymmetric(r, w, w); }
    }
  }

  /** Among values with readable expiries the winner beats all it met. */
  lemma {:induction false} WinnerBeatsReadable(r: Reader, vals: seq<Bytes>, v: Bytes)
    requires Top(r, vals, v) && forall t :: Top(r, vals, t) ==> Expiry(r, t).Some?
    ensures v == Winner(r, vals).value || Better(r, Winner(r, vals).value, v)
  {
    var front, last := vals[..|vals| - 1], vals[|vals| - 1];
    assert vals == front + [last];
    var w := Winner(r, vals).value;
    WinnerIsTop(r, vals);
    if Winner(r, front).Some? {
      WinnerIsTop(r, front);
    }
    if v in front {
      if Top(r, vals, Winner(r, front).value) {
        forall t | Top(r, front, t)
          ensures Expiry(r, t).Some?
        {
          assert Top(r, vals, t);
        }
        WinnerBeatsReadable(r, front, v);
        var b := Winner(r, front).value;
        if w != b && v != b { BetterTransitive(r, w, b, v); }
      }
    } else if w != v {
      LessTotal(v, w);
    }
  }

  /** In the decidable case the winner beats all others. */
  lemma WinnerIsBest(r: Reader, vals: seq<Bytes>)
    requires Decidable(r, vals) && Winner(r, vals).Some?
    ensures Best(r, vals, Winner(r, vals).value)
  {
    var w := Winner(r, vals).value;
    WinnerIsTop(r, vals);
    forall v | v in vals && Usable(r, v) && v != w
      ensures Better(r, w, v)
    {
      if Sequence(r, v) == Sequence(r, w) {
        assert Top(r, vals, v);
        WinnerBeatsReadable(r, vals, v);
      }
    }
  }

  /** A top value that comes first with an unreadable expiry is never replaced. */
  lemma {:induction false} UnreadableFirstStays(r: Reader, u: Bytes, rest: seq<Bytes>)
    requires Top(r, [u] + rest, u) && Expiry(r, u).None?
    ensures Winner(r, [u] + rest) == Some(u)
  {
    if rest == [] {
      WinnerSnoc(r, [], u);
      assert [u] + rest == [] + [u];
    } else {
      var front, last := rest[..|rest| - 1], rest[|rest| - 1];
      assert [u] + rest == ([u] + front) + [last];
      UnreadableFirstStays(r, u, front);
      WinnerSnoc(r, [u] + front, last);
    }
  }

  /** Nor does it ever replace another top value that came before it. */
  lemma {:induction false} UnreadableLaterLoses(r: Reader, w: Bytes, rest: seq<Bytes>, u: Bytes)
    requires Top(r, [w] + rest, w) && u != w && Usable(r, u) && Sequence(r, u) == Sequence(r, w) && Expiry(r, u).None?
    ensures Winner(r, [w] + rest).Some? && Winner(r, [w] + rest) != Some(u)
    ensures Sequence(r, Winner(r, [w] + rest).value) == Sequence(r, w)
  {
    if rest == [] {
      WinnerSnoc(r, [], w);
      assert [w] + rest == [] + [w];
    } else {
      var front, last := rest[..|rest| - 1], rest[|rest| - 1];
      assert [w] + rest == ([w] + front) + [last];
      UnreadableLaterLoses(r, w, front, u);
      WinnerSnoc(r, [w] + front, last);
    }
  }

  lemma SameMembers(a: seq<Bytes>, b: seq<Bytes>)
    requires multiset(a) == multiset(b)
    ensures forall v :: v in a <==> v in b
  {
    assert forall v :: v in a <==> v in multiset(a);
    assert forall v :: v in b <==> v in multiset(b);
  }

  function RemoveAt(vals: seq<Bytes>, v: Bytes): (rest: seq<Bytes>)
    requires v in vals
    ensures multiset([v] + rest) == multiset(vals)
  {
    if vals[0] == v then
      assert vals == [v] + vals[1..];
      vals[1..]
    else
      assert vals == [vals[0]] + vals[1..];
      [vals[0]] + RemoveAt(vals[1..], v)
  }

  lemma OrderDoesNotMatter(r: Reader, vals: seq<Bytes>, p: seq<Bytes>)
    requires Decidable(r, vals) && multiset(p) == multiset(vals)
    ensures Winner(r, p) == Winner(r, vals)
  {
    SameMembers(p, vals);
    if Winner(r, vals).Some? {
      WinnerIsBest(r, vals);
      BestWins(r, p, Winner(r, vals).value);
    }
  }

  lemma TopInAnyOrder(r: Reader, vals: seq<Bytes>, p: seq<Bytes>, v: Bytes)
    requires Top(r, vals, v) && multiset(p) == multiset(vals)
    ensures Top(r, p, v)
  {
    SameMembers(p, vals);
  }

  lemma OrderMatters(r: Reader, vals: seq<Bytes>) returns (p: seq<Bytes>, q: seq<Bytes>)
    requires !Decidable(r, vals)
    ensures multiset(p) == multiset(q) == multiset(vals)
    ensures Winner(r, p) != Winner(r, q)
  {
    var u :| Top(r, vals, u) && Expiry(r, u).None?;
    var w :| Top(r, vals, w) && w != u;
    p, q := [u] + RemoveAt(vals, u), [w] + RemoveAt(vals, w);
    TopInAnyOrder(r, vals, p, u);
    TopInAnyOrder(r, vals, q, w);
    UnreadableFirstStays(r, u, RemoveAt(vals, u));
    UnreadableLaterLoses(r, w, RemoveAt(vals, w), u);
  }

  /** The same winner for every order of arrival, exactly if the values of the highest sequence number have readable
      expiries or do not differ. */
  lemma OrderMattersExactlyUnless(r: Reader, vals: seq<Bytes>)
    ensures Decidable(r, vals) <==> forall p :: multiset(p) == multiset(vals) ==> Winner(r, p) == Winner(r, vals)
  {
    if Decidable(r, vals) {
      forall p | multiset(p) == multiset(vals)
        ensures Winner(r, p) == Winner(r, vals)
      {
        OrderDoesNotMatter(r, vals, p);
      }
    } else {
      var p, q := OrderMatters(r, vals);
      assert Winner(r, p) != Winner(r, vals) || Winner(r, q) != Winner(r, vals);
    }
  }

  /** With equal values, or with every expiry readable, the winner is the maximum by sequence number, expiry and bytes;
      and a maximum, if there is one, wins. */
  lemma WinnerIsMaximum(r: Reader, vals: seq<Bytes>, w: Bytes)
    ensures Best(r, vals, w) ==> Winner(r, vals) == Some(w)
    ensures Decidable(r, vals) && Winner(r, vals) == Some(w) ==> Best(r, vals, w)
  {
    if Best(r, vals, w) { BestWins(r, vals, w); }
    if Decidable(r, vals) && Winner(r, vals) == Some(w) { WinnerIsBest(r, vals); }
  }

  /** Two records, in terms of what was parsed alone: the higher sequence number wins; at the same number the later
      instant; at the same instant the greater bytes; and the first, if one of the instants cannot be read. */
  lemma TwoRecords(r: Reader, a: Bytes, b: Bytes, first: Record, second: Record)
    requires r.parse(a) == Some(first) && r.parse(b) == Some(second)
    ensures Winner(r, [a, b]) == Some(
      if first.sequence != second.sequence then (if second.sequence > first.sequence then b else a)
      else
        match (r.instant(first.validity), r.instant(second.validity))
        case (Some(t), Some(u)) => if u > t || (u == t && GreaterBytes(b, a)) then b else a
        case _ => a)
  {
    assert [a, b] == [a] + [b] && [a] == [] + [a];
    WinnerSnoc(r, [], a);
    WinnerSnoc(r, [a], b);
    LessExactly(a, b);
  }

  // ---- selecting in stages

  function Flatten(parts: seq<seq<Bytes>>): seq<Bytes> {
    if parts == [] then [] else Flatten(parts[..|parts| - 1]) + parts[|parts| - 1]
  }

  /** The winners of the parts that have one. */
  function Winners(r: Reader, parts: seq<seq<Bytes>>): seq<Bytes> {
    if parts == [] then []
    else
      var w := Winner(r, parts[|parts| - 1]);
      Winners(r, parts[..|parts| - 1]) + if w.Some? then [w.value] else []
  }

  lemma {:induction false} FlattenHolds(parts: seq<seq<Bytes>>, v: Bytes)
    ensures v in Flatten(parts) <==> exists i :: 0 <= i < |parts| && v in parts[i]
  {
    if parts != [] {
      FlattenHolds(parts[..|parts| - 1], v);
      assert forall i :: 0 <= i < |parts| - 1 ==> parts[..|parts| - 1][i] == parts[i];
    }
  }

  lemma {:induction false} WinnersHold(r: Reader, parts: seq<seq<Bytes>>, v: Bytes)
    ensures v in Winners(r, parts) <==> exists i :: 0 <= i < |parts| && Winner(r, parts[i]) == Some(v)
  {
    if parts != [] {
      WinnersHold(r, parts[..|parts| - 1], v);
      assert forall i :: 0 <= i < |parts| - 1 ==> parts[..|parts| - 1][i] == parts[i];
    }
  }

  /** Selecting among the winners of any partition gives the overall winner. */
  lemma StagesAgree(r: Reader, parts: seq<seq<Bytes>>, vals: seq<Bytes>)
    requires multiset(Flatten(parts)) == multiset(vals) && Decidable(r, vals)
    ensures Winner(r, Winners(r, parts)) == Winner(r, vals)
  {
    SameMembers(Flatten(parts), vals);
    forall v | v in Winners(r, parts)
      ensures v in vals && Usable(r, v)
    {
      WinnersHold(r, parts, v);
      FlattenHolds(parts, v);
    }
    if Winner(r, vals).Some? {
      var w := Winner(r, vals).value;
      WinnerIsBest(r, vals);
      FlattenHolds(parts, w);
      var i :| 0 <= i < |parts| && w in parts[i];
      forall v | v in parts[i]
        ensures v in vals
      {
        FlattenHolds(parts, v);
      }
      assert Best(r, parts[i], w);
      BestWins(r, parts[i], w);
      WinnersHold(r, parts, w);
      assert Best(r, Winners(r, parts), w);
      BestWins(r, Winners(r, parts), w);
    }
  }
}

/** The consistent hash ring with virtual nodes.

    Hashing is a parameter: `place(n, i)` is the position of virtual node i of
    node n. Positions may collide; what the ring promises where they do not is
    said of rings that are `Clean`. */
module Ring {
  import opened ByteStrings
  import opened Sequences
  import opened Sorting

  type Placement = (Str, nat) -> int

  // ------------------------------------------------------------- orders of owners

  /** First occurrences, in order. */
  function Distinct(os: seq<Str>): (r: seq<Str>)
    ensures forall o :: o in r <==> o in os
    ensures forall i, j :: 0 <= i < j < |r| ==> r[i] != r[j]
  {
    if os == [] then []
    else
      var r := Distinct(os[..|os| - 1]);
      if os[|os| - 1] in r then r else r + [os[|os| - 1]]
  }

  function Without(os: seq<Str>, d: Str): (r: seq<Str>)
    ensures d !in r && forall o :: o in r ==> o in os
  {
    if os == [] then []
    else Without(os[..|os| - 1], d) + if os[|os| - 1] == d then [] else [os[|os| - 1]]
  }

  lemma {:induction false} DistinctPrefix(os: seq<Str>, i: nat)
    requires i <= |os|
    ensures Distinct(os[..i]) <= Distinct(os)
  {
    if i < |os| {
      DistinctPrefix(os[..|os| - 1], i);
      assert os[..|os| - 1][..i] == os[..i];
    } else {
      assert os[..i] == os;
    }
  }

  lemma WithoutAppend(os: seq<Str>, o: Str, d: Str)
    ensures Without(os + [o], d) == Without(os, d) + if o == d then [] else [o]
  {
    assert (os + [o])[..|os|] == os;
  }

  lemma DistinctAppend(os: seq<Str>, o: Str)
    ensures Distinct(os + [o]) == if o in os then Distinct(os) else Distinct(os) + [o]
  {
    assert (os + [o])[..|os|] == os;
  }

  lemma {:induction false} KeptWithout(os: seq<Str>, o: Str, d: Str)
    requires o != d
    ensures o in Without(os, d) <==> o in os
  {
    if os == [] {
    } else {
      KeptWithout(os[..|os| - 1], o, d);
      assert os == os[..|os| - 1] + [os[|os| - 1]];
    }
  }

  /** Leaving one owner out before or after keeping first occurrences is the same. */
  lemma {:induction false} DistinctWithout(os: seq<Str>, d: Str)
    ensures Distinct(Without(os, d)) == Without(Distinct(os), d)
  {
    if os == [] {
    } else {
      var os', o := os[..|os| - 1], os[|os| - 1];
      assert os == os' + [o];
      DistinctWithout(os', d);
      DistinctWithoutStep(os', o, d);
    }
  }

  lemma DistinctWithoutStep(os: seq<Str>, o: Str, d: Str)
    requires Distinct(Without(os, d)) == Without(Distinct(os), d)
    ensures Distinct(Without(os + [o], d)) == Without(Distinct(os + [o]), d)
  {
    WithoutAppend(os, o, d);
    DistinctAppend(os, o);
    WithoutAppend(Distinct(os), o, d);
    if o == d {
      assert Without(os, d) + [] == Without(os, d) && Without(Distinct(os), d) + [] == Without(Distinct(os), d);
    } else {
      KeptWithout(os, o, d);
      DistinctAppend(Without(os, d), o);
    }
  }

  lemma {:induction false} WithoutPrefix(os: seq<Str>, k: nat, d: Str)
    requires k <= |os|
    ensures Without(os[..k], d) <= Without(os, d)
  {
    if k < |os| {
      WithoutPrefix(os[..|os| - 1], k, d);
      assert os[..|os| - 1][..k] == os[..k];
    } else {
      assert os[..k] == os;
    }
  }

  lemma {:induction false} WithoutIsShorter(os: seq<Str>, d: Str)
    ensures |Without(os, d)| <= |os|
  {
    if os == [] {
    } else {
      WithoutIsShorter(os[..|os| - 1], d);
    }
  }

  // -------------------------------------------------------------------- positions

  /** The first position at or after h: binary search. */
  method Search(ps: seq<int>, h: int) returns (i: nat)
    requires Ascending(ps)
    ensures i == FirstAt(ps, h)
  {
    i := 0;
    var j := |ps|;
    while i < j
      invariant 0 <= i <= j <= |ps|
      invariant forall k :: 0 <= k < i ==> ps[k] < h
      invariant forall k :: j <= k < |ps| ==> ps[k] >= h
    {
      var m := (i + j) / 2;
      if ps[m] >= h {
        j := m;
      } else {
        i := m + 1;
      }
    }
    FirstAtIs(ps, h, i);
  }

  function FirstAt(ps: seq<int>, h: int): (i: nat)
    ensures i <= |ps|
  {
    if ps == [] || ps[0] >= h then 0 else 1 + FirstAt(ps[1..], h)
  }

  lemma {:induction false} FirstAtIs(ps: seq<int>, h: int, i: nat)
    requires i <= |ps| && (forall k :: 0 <= k < i ==> ps[k] < h) && (forall k :: i <= k < |ps| ==> ps[k] >= h)
    ensures FirstAt(ps, h) == i
  {
    if i == 0 {
    } else {
      FirstAtIs(ps[1..], h, i - 1);
    }
  }

  lemma {:induction false} FirstAtSplits(ps: seq<int>, h: int)
    requires Ascending(ps)
    ensures forall k :: 0 <= k < FirstAt(ps, h) ==> ps[k] < h
    ensures forall k :: FirstAt(ps, h) <= k < |ps| ==> ps[k] >= h
  {
    if ps != [] && ps[0] < h {
      FirstAtSplits(ps[1..], h);
    }
  }

  /** The positions met going clockwise from h. */
  function Clockwise(ps: seq<int>, h: int): seq<int> {
    ps[FirstAt(ps, h)..] + ps[..FirstAt(ps, h)]
  }

  function Owner(owners: map<int, Str>, p: int): Str {
    if p in owners then owners[p] else []
  }

  function OwnersOf(ps: seq<int>, owners: map<int, Str>): seq<Str> {
    seq(|ps|, i requires 0 <= i < |ps| => Owner(owners, ps[i]))
  }

  /** All nodes in the order a key meets them. */
  ghost function Order(ps: seq<int>, owners: map<int, Str>, h: int): seq<Str> {
    Distinct(OwnersOf(Clockwise(ps, h), owners))
  }

  // ---------------------------------------------------- adding leaves the rest alone

  /** The positions of all owners but d. */
  function Others(ps: seq<int>, owners: map<int, Str>, d: Str): seq<int> {
    if ps == [] then []
    else Others(ps[..|ps| - 1], owners, d) + if Owner(owners, ps[|ps| - 1]) == d then [] else [ps[|ps| - 1]]
  }

  lemma OthersAppend(ps: seq<int>, p: int, owners: map<int, Str>, d: Str)
    ensures Others(ps + [p], owners, d) == Others(ps, owners, d) + if Owner(owners, p) == d then [] else [p]
  {
    assert (ps + [p])[..|ps|] == ps;
  }

  lemma {:induction false} OwnersOfOthers(ps: seq<int>, owners: map<int, Str>, d: Str)
    ensures OwnersOf(Others(ps, owners, d), owners) == Without(OwnersOf(ps, owners), d)
  {
    if ps == [] {
    } else {
      var ps', p := ps[..|ps| - 1], ps[|ps| - 1];
      assert ps == ps' + [p];
      OwnersOfOthers(ps', owners, d);
      OwnersAppend(ps', p, owners);
      WithoutAppend(OwnersOf(ps', owners), Owner(owners, p), d);
      OthersAppend(ps', p, owners, d);
      if Owner(owners, p) == d {
        NothingAdded(Others(ps', owners, d));
        NothingAdded(Without(OwnersOf(ps', owners), d));
      } else {
        OwnersAppend(Others(ps', owners, d), p, owners);
      }
    }
  }

  lemma OwnersAppend(ps: seq<int>, p: int, owners: map<int, Str>)
    ensures OwnersOf(ps + [p], owners) == OwnersOf(ps, owners) + [Owner(owners, p)]
  {
  }

  lemma {:induction false} OthersConcat(a: seq<int>, b: seq<int>, owners: map<int, Str>, d: Str)
    ensures Others(a + b, owners, d) == Others(a, owners, d) + Others(b, owners, d)
    decreases |b|
  {
    if b == [] {
      assert a + b == a;
    } else {
      var b', p := b[..|b| - 1], b[|b| - 1];
      assert a + b == (a + b') + [p] && b == b' + [p];
      OthersConcat(a, b', owners, d);
      OthersAppend(a + b', p, owners, d);
      OthersAppend(b', p, owners, d);
    }
  }

  /** The clockwise walk without d's positions is the walk of the ring without d. */
  lemma ClockwiseWithout(ps: seq<int>, owners: map<int, Str>, d: Str, h: int)
    requires Ascending(ps)
    ensures Others(Clockwise(ps, h), owners, d) == Clockwise(Others(ps, owners, d), h)
  {
    var s := FirstAt(ps, h);
    var low, high := Others(ps[..s], owners, d), Others(ps[s..], owners, d);
    FirstAtSplits(ps, h);
    assert ps == ps[..s] + ps[s..];
    OthersConcat(ps[..s], ps[s..], owners, d);
    OthersConcat(ps[s..], ps[..s], owners, d);
    SplitAt(ps, s, h, owners, d);
    FirstAtIs(low + high, h, |low|);
    assert (low + high)[..|low|] == low && (low + high)[|low|..] == high;
  }

  lemma SplitAt(ps: seq<int>, s: nat, h: int, owners: map<int, Str>, d: Str)
    requires s <= |ps| && (forall k :: 0 <= k < s ==> ps[k] < h) && (forall k :: s <= k < |ps| ==> ps[k] >= h)
    ensures var low := Others(ps[..s], owners, d); forall k :: 0 <= k < |low| ==> low[k] < h
    ensures var high := Others(ps[s..], owners, d); forall k :: 0 <= k < |high| ==> high[k] >= h
  {
    OthersBelow(ps[..s], owners, d, h);
    OthersAbove(ps[s..], owners, d, h);
  }

  lemma {:induction false} OthersBelow(ps: seq<int>, owners: map<int, Str>, d: Str, h: int)
    requires forall i :: 0 <= i < |ps| ==> ps[i] < h
    ensures var r := Others(ps, owners, d); forall i :: 0 <= i < |r| ==> r[i] < h
  {
    if ps == [] {
    } else {
      var ps', p := ps[..|ps| - 1], ps[|ps| - 1];
      assert ps == ps' + [p];
      OthersBelow(ps', owners, d, h);
      OthersAppend(ps', p, owners, d);
    }
  }

  lemma {:induction false} OthersAbove(ps: seq<int>, owners: map<int, Str>, d: Str, h: int)
    requires forall i :: 0 <= i < |ps| ==> ps[i] >= h
    ensures var r := Others(ps, owners, d); forall i :: 0 <= i < |r| ==> r[i] >= h
  {
    if ps == [] {
    } else {
      var ps', p := ps[..|ps| - 1], ps[|ps| - 1];
      assert ps == ps' + [p];
      OthersAbove(ps', owners, d, h);
      OthersAppend(ps', p, owners, d);
    }
  }

  /** Leaving d's positions out of the ring leaves d out of every key's order, and nothing else. */
  lemma OrderWithout(ps: seq<int>, owners: map<int, Str>, d: Str, h: int)
    requires Ascending(ps)
    ensures Order(Others(ps, owners, d), owners, h) == Without(Order(ps, owners, h), d)
  {
    ClockwiseWithout(ps, owners, d, h);
    OwnersOfOthers(Clockwise(ps, h), owners, d);
    DistinctWithout(OwnersOf(Clockwise(ps, h), owners), d);
  }

  // ---------------------------------------------------------------- a ring's state

  /** `ps` are the keys of `owners`, in strict order. */
  ghost predicate Lists(ps: seq<int>, owners: map<int, Str>) {
    && Strict(ps)
    && (forall i :: 0 <= i < |ps| ==> ps[i] in owners)
    && (forall p :: p in owners ==> Has(ps, p))
  }

  ghost predicate IsPlaceOf(place: Placement, v: nat, n: Str, p: int) {
    exists j :: 0 <= j < v && place(n, j) == p
  }

  /** The owners are the virtual nodes of `nodes`. */
  ghost predicate Describes(place: Placement, v: nat, owners: map<int, Str>, nodes: set<Str>) {
    && (forall p :: p in owners ==> owners[p] in nodes && IsPlaceOf(place, v, owners[p], p))
    && (forall n, j :: n in nodes && 0 <= j < v ==> place(n, j) in owners && owners[place(n, j)] == n)
  }

  /** What a ring looks like as long as no two labels have met. */
  ghost predicate IsClean(place: Placement, v: nat, ps: seq<int>, owners: map<int, Str>, nodes: set<Str>) {
    Lists(ps, owners) && Describes(place, v, owners, nodes)
  }

  ghost predicate SameOwners(ps: seq<int>, owners: map<int, Str>, owners': map<int, Str>) {
    forall i :: 0 <= i < |ps| ==> Owner(owners, ps[i]) == Owner(owners', ps[i])
  }

  lemma SameOwnersSameOrder(ps: seq<int>, owners: map<int, Str>, owners': map<int, Str>, h: int)
    requires SameOwners(ps, owners, owners')
    ensures Order(ps, owners, h) == Order(ps, owners', h)
  {
    var cs, s := Clockwise(ps, h), FirstAt(ps, h);
    forall i | 0 <= i < |cs| ensures Owner(owners, cs[i]) == Owner(owners', cs[i]) {
      assert cs[i] == ps[if i < |ps| - s then s + i else i - (|ps| - s)];
    }
    assert OwnersOf(cs, owners) == OwnersOf(cs, owners');
  }

  /** Going up from h, and from the lowest position on after the highest, p comes no later than q. */
  predicate Nearer(h: int, p: int, q: int) {
    if p >= h && q >= h then p <= q else if p < h && q < h then p <= q else p >= h
  }

  /** A key meets the owners in the order of their nearest positions. */
  lemma OrderIsByDistance(ps: seq<int>, owners: map<int, Str>, h: int, a: nat, b: nat) returns (p: int)
    requires Ascending(ps) && a < b < |Order(ps, owners, h)|
    ensures p in ps && Owner(owners, p) == Order(ps, owners, h)[a]
    ensures forall q :: q in ps && Owner(owners, q) == Order(ps, owners, h)[b] ==> Nearer(h, p, q)
  {
    var cs := Clockwise(ps, h);
    var os := OwnersOf(cs, owners);
    var k := FirstMet(os, a, b);
    p := cs[k];
    ClockwiseHas(ps, h);
    forall q | q in ps && Owner(owners, q) == Order(ps, owners, h)[b] ensures Nearer(h, p, q) {
      var l :| 0 <= l < |cs| && cs[l] == q;
      assert os[l] == Distinct(os)[b];
      ClockwiseByDistance(ps, h, k, l);
    }
  }

  lemma ClockwiseHas(ps: seq<int>, h: int)
    ensures forall q :: q in Clockwise(ps, h) <==> q in ps
  {
    var s := FirstAt(ps, h);
    assert ps == ps[..s] + ps[s..];
  }

  lemma ClockwiseByDistance(ps: seq<int>, h: int, k: nat, l: nat)
    requires Ascending(ps) && k <= l < |ps|
    ensures Nearer(h, Clockwise(ps, h)[k], Clockwise(ps, h)[l])
  {
    var cs, s := Clockwise(ps, h), FirstAt(ps, h);
    FirstAtSplits(ps, h);
    assert cs[k] == ps[if k < |ps| - s then s + k else k - (|ps| - s)];
    assert cs[l] == ps[if l < |ps| - s then s + l else l - (|ps| - s)];
  }

  /** The earlier of two owners has been met before the later one is. */
  lemma {:induction false} FirstMet(os: seq<Str>, a: nat, b: nat) returns (k: nat)
    requires a < b < |Distinct(os)|
    ensures k < |os| && os[k] == Distinct(os)[a]
    ensures forall l :: 0 <= l < |os| && os[l] == Distinct(os)[b] ==> k < l
  {
    var os', o := os[..|os| - 1], os[|os| - 1];
    assert os == os' + [o];
    DistinctAppend(os', o);
    if b < |Distinct(os')| {
      k := FirstMet(os', a, b);
      OneMoreOwner(os', o, Distinct(os')[b], k);
    } else {
      k := PlaceOf(os', Distinct(os')[a]);
      OneMoreOwner(os', o, o, k);
    }
  }

  lemma PlaceOf(os: seq<Str>, o: Str) returns (k: nat)
    requires o in os
    ensures k < |os| && os[k] == o
  {
    k :| 0 <= k < |os| && os[k] == o;
  }

  /** A place before all of `x` stays so when one more owner comes after it. */
  lemma OneMoreOwner(os: seq<Str>, o: Str, x: Str, k: nat)
    requires k < |os| && forall l :: 0 <= l < |os| && os[l] == x ==> k < l
    ensures (os + [o])[k] == os[k] && forall l :: 0 <= l <= |os| && (os + [o])[l] == x ==> k < l
  {
  }

  /** A key's order has every node once. */
  lemma OrderHasAll(place: Placement, v: nat, ps: seq<int>, owners: map<int, Str>, nodes: set<Str>, h: int)
    requires v > 0 && Lists(ps, owners) && Describes(place, v, owners, nodes)
    ensures |Order(ps, owners, h)| == |nodes| && forall n :: n in Order(ps, owners, h) <==> n in nodes
  {
    var os := OwnersOf(Clockwise(ps, h), owners);
    forall n | n in nodes ensures n in os {
      NodeIsMet(place, v, ps, owners, nodes, h, n);
    }
    forall k | 0 <= k < |os| ensures os[k] in nodes {
      MetIsNode(place, v, ps, owners, nodes, h, k);
    }
    DistinctSize(Order(ps, owners, h), nodes);
  }

  lemma NodeIsMet(place: Placement, v: nat, ps: seq<int>, owners: map<int, Str>, nodes: set<Str>, h: int, n: Str)
    requires v > 0 && Lists(ps, owners) && Describes(place, v, owners, nodes) && n in nodes
    ensures n in OwnersOf(Clockwise(ps, h), owners)
  {
    var cs, s, p := Clockwise(ps, h), FirstAt(ps, h), place(n, 0);
    assert Has(ps, p);
    var i :| 0 <= i < |ps| && ps[i] == p;
    var k := if i >= s then i - s else |ps| - s + i;
    assert cs[k] == p && OwnersOf(cs, owners)[k] == n;
  }

  lemma MetIsNode(place: Placement, v: nat, ps: seq<int>, owners: map<int, Str>, nodes: set<Str>, h: int, k: nat)
    requires Lists(ps, owners) && Describes(place, v, owners, nodes) && k < |ps|
    ensures OwnersOf(Clockwise(ps, h), owners)[k] in nodes
  {
    var cs, s := Clockwise(ps, h), FirstAt(ps, h);
    assert cs[k] == ps[if k < |ps| - s then s + k else k - (|ps| - s)];
  }

  lemma {:induction false} DistinctSize(os: seq<Str>, nodes: set<Str>)
    requires (forall i, j :: 0 <= i < j < |os| ==> os[i] != os[j]) && forall n :: n in os <==> n in nodes
    ensures |os| == |nodes|
  {
    if os == [] {
      assert nodes == {};
    } else {
      var os', o := os[..|os| - 1], os[|os| - 1];
      assert os == os' + [o];
      DistinctSize(os', nodes - {o});
    }
  }

  lemma NextOwner(os: seq<Str>, i: nat)
    requires i < |os|
    ensures Distinct(os[..i + 1]) ==
      if os[i] in Distinct(os[..i]) then Distinct(os[..i]) else Distinct(os[..i]) + [os[i]]
  {
    assert os[..i + 1] == os[..i] + [os[i]];
    DistinctAppend(os[..i], os[i]);
  }

  // --------------------------------------------------------------- adding, removing

  /** The positions of a node's labels. */
  function Places(place: Placement, node: Str, v: nat): (ps: seq<int>)
    ensures |ps| == v && forall i :: 0 <= i < v ==> ps[i] == place(node, i)
  {
    if v == 0 then [] else Places(place, node, v - 1) + [place(node, v - 1)]
  }

  /** The owners once `node` has taken the first n of some positions. */
  function Claimed(owners: map<int, Str>, ps: seq<int>, node: Str, n: nat): map<int, Str>
    requires n <= |ps|
  {
    if n == 0 then owners else Claimed(owners, ps, node, n - 1)[ps[n - 1] := node]
  }

  lemma {:induction false} ClaimedIs(owners: map<int, Str>, ps: seq<int>, node: Str, n: nat)
    requires n <= |ps|
    ensures var after := Claimed(owners, ps, node, n);
            && (forall i :: 0 <= i < n ==> ps[i] in after && after[ps[i]] == node)
            && (forall p :: p in owners ==> p in after && (after[p] == owners[p] || after[p] == node))
            && (forall p :: p in after ==> Taken(ps, n, p) || (p in owners && after[p] == owners[p]))
  {
    if n == 0 {
    } else {
      ClaimedIs(owners, ps, node, n - 1);
    }
  }

  ghost predicate Taken(ps: seq<int>, n: nat, p: int)
    requires n <= |ps|
  {
    exists i :: 0 <= i < n && ps[i] == p
  }

  /** None of the positions is another label's, or twice its own. */
  ghost predicate Free(owners: map<int, Str>, spots: seq<int>) {
    NoRepeats(spots) && NoneTaken(owners, spots)
  }

  ghost predicate NoneTaken(owners: map<int, Str>, spots: seq<int>) {
    forall i :: 0 <= i < |spots| ==> spots[i] !in owners
  }

  datatype Spots = Spots(positions: seq<int>, owners: map<int, Str>)

  function Added(s: Spots, spots: seq<int>, node: Str): Spots {
    Spots(Sorted(s.positions + spots), Claimed(s.owners, spots, node, |spots|))
  }

  /** The filter that takes a node's positions out, after its first n steps. */
  function Swept(s: Spots, node: Str, n: nat): Spots
    requires n <= |s.positions|
  {
    if n == 0 then Spots([], s.owners)
    else
      var r, p := Swept(s, node, n - 1), s.positions[n - 1];
      if Owner(r.owners, p) == node then Spots(r.positions, r.owners - {p}) else Spots(r.positions + [p], r.owners)
  }

  function Removed(s: Spots, node: Str): Spots {
    Swept(s, node, |s.positions|)
  }

  lemma {:induction false} SweptOwners(s: Spots, node: Str, n: nat)
    requires n <= |s.positions|
    ensures var r := Swept(s, node, n).owners;
            && (forall p :: p in r ==> p in s.owners && r[p] == s.owners[p])
            && (forall p :: p in s.owners ==> (p in r <==> s.owners[p] != node || !Taken(s.positions, n, p)))
  {
    if n == 0 {
    } else {
      SweptOwners(s, node, n - 1);
      forall p ensures Taken(s.positions, n, p) <==> Taken(s.positions, n - 1, p) || p == s.positions[n - 1] {
        OneMoreTaken(s.positions, n, p);
      }
    }
  }

  lemma OneMoreTaken(ps: seq<int>, n: nat, p: int)
    requires 0 < n <= |ps|
    ensures Taken(ps, n, p) <==> Taken(ps, n - 1, p) || p == ps[n - 1]
  {
  }

  /** How often a position stands among the first n. */
  function Times(ps: seq<int>, n: nat, p: int): nat
    requires n <= |ps|
  {
    if n == 0 then 0 else Times(ps, n - 1, p) + if ps[n - 1] == p then 1 else 0
  }

  /** How often the filter keeps a position: the first of a node's own goes with its owner,
      later ones stay unless the node has no name. */
  function KeptTimes(s: Spots, node: Str, n: nat, p: int): nat
    requires n <= |s.positions|
  {
    var t := Times(s.positions, n, p);
    if Owner(s.owners, p) != node then t
    else if node == [] then 0
    else if t == 0 then 0 else t - 1
  }

  lemma {:induction false} TakenTimes(ps: seq<int>, n: nat, p: int)
    requires n <= |ps|
    ensures Taken(ps, n, p) <==> Times(ps, n, p) > 0
  {
    if n == 0 {
    } else {
      TakenTimes(ps, n - 1, p);
      OneMoreTaken(ps, n, p);
    }
  }

  lemma {:induction false} SweptTimes(s: Spots, node: Str, n: nat, p: int)
    requires n <= |s.positions|
    ensures multiset(Swept(s, node, n).positions)[p] == KeptTimes(s, node, n, p)
  {
    if n == 0 {
    } else {
      SweptTimes(s, node, n - 1, p);
      KeptNext(s, node, n, p);
      CountAppend(Swept(s, node, n - 1).positions, s.positions[n - 1], p);
    }
  }

  lemma CountAppend(ps: seq<int>, x: int, p: int)
    ensures multiset(ps + [x])[p] == multiset(ps)[p] + if x == p then 1 else 0
  {
  }

  lemma KeptNext(s: Spots, node: Str, n: nat, p: int)
    requires 0 < n <= |s.positions|
    ensures var kept := s.positions[n - 1] == p && Owner(Swept(s, node, n - 1).owners, p) != node;
            KeptTimes(s, node, n, p) == KeptTimes(s, node, n - 1, p) + if kept then 1 else 0
  {
    SweptOwners(s, node, n - 1);
    TakenTimes(s.positions, n - 1, p);
  }

  lemma {:induction false} TimesIsCount(ps: seq<int>, n: nat, p: int)
    requires n <= |ps|
    ensures Times(ps, n, p) == multiset(ps[..n])[p]
  {
    if n == 0 {
    } else {
      TimesIsCount(ps, n - 1, p);
      assert ps[..n] == ps[..n - 1] + [ps[n - 1]];
    }
  }

  lemma TimesOfAll(ps: seq<int>, p: int)
    ensures Times(ps, |ps|, p) == multiset(ps)[p]
  {
    TimesIsCount(ps, |ps|, p);
    assert ps[..|ps|] == ps;
  }

  lemma {:induction false} SweptAscends(s: Spots, node: Str, n: nat)
    requires n <= |s.positions| && Ascending(s.positions)
    ensures var r := Swept(s, node, n).positions;
            Ascending(r) && forall k :: 0 <= k < |r| && n > 0 ==> r[k] <= s.positions[n - 1]
    ensures n == 0 ==> Swept(s, node, n).positions == []
  {
    if n == 0 {
    } else {
      SweptAscends(s, node, n - 1);
    }
  }

  lemma {:induction false} OthersTimes(ps: seq<int>, owners: map<int, Str>, d: Str, p: int)
    ensures multiset(Others(ps, owners, d))[p] == if Owner(owners, p) == d then 0 else multiset(ps)[p]
  {
    if ps == [] {
    } else {
      var rest, last := ps[..|ps| - 1], ps[|ps| - 1];
      assert ps == rest + [last];
      OthersTimes(rest, owners, d, p);
    }
  }

  lemma {:induction false} OthersAscend(ps: seq<int>, owners: map<int, Str>, d: Str)
    requires Ascending(ps)
    ensures Ascending(Others(ps, owners, d))
  {
    if ps == [] {
    } else {
      var rest, last := ps[..|ps| - 1], ps[|ps| - 1];
      assert ps == rest + [last];
      OthersAscend(rest, owners, d);
      OthersAtMost(rest, owners, d, last);
      OthersAppend(rest, last, owners, d);
    }
  }

  lemma {:induction false} OthersAtMost(ps: seq<int>, owners: map<int, Str>, d: Str, h: int)
    requires forall i :: 0 <= i < |ps| ==> ps[i] <= h
    ensures var r := Others(ps, owners, d); forall i :: 0 <= i < |r| ==> r[i] <= h
  {
    if ps == [] {
    } else {
      var rest, last := ps[..|ps| - 1], ps[|ps| - 1];
      assert ps == rest + [last];
      OthersAtMost(rest, owners, d, h);
      OthersAppend(rest, last, owners, d);
    }
  }

  /** Ascending positions are known by how often each occurs. */
  lemma SameTimesSame(a: seq<int>, b: seq<int>)
    requires Ascending(a) && Ascending(b) && forall p :: multiset(a)[p] == multiset(b)[p]
    ensures a == b
  {
    assert multiset(a) == multiset(b);
    OnlyOneSorted(a, b);
  }

  lemma StrictMeansOnce(ps: seq<int>)
    requires Ascending(ps)
    ensures Strict(ps) <==> forall p :: multiset(ps)[p] <= 1
  {
    if Strict(ps) {
      forall p ensures multiset(ps)[p] <= 1 {
        OnceIsOne(ps, p);
      }
    } else {
      var i, j :| 0 <= i < j < |ps| && ps[i] == ps[j];
      TwiceIsTwo(ps, i, j);
    }
  }

  lemma AddedOwner(s: Spots, spots: seq<int>, node: Str, p: int)
    ensures var o := Claimed(s.owners, spots, node, |spots|);
            && (p in o <==> p in s.owners || Has(spots, p))
            && (p in o ==> o[p] == if Has(spots, p) then node else s.owners[p])
  {
    ClaimedIs(s.owners, spots, node, |spots|);
    assert Has(spots, p) <==> Taken(spots, |spots|, p);
  }

  /** Adding a node none of whose positions is taken only puts positions in. */
  lemma AddedOthers(place: Placement, v: nat, s: Spots, nodes: set<Str>, spots: seq<int>, node: Str)
    requires IsClean(place, v, s.positions, s.owners, nodes) && node !in nodes && NoneTaken(s.owners, spots)
    ensures var t := Added(s, spots, node);
            && Others(t.positions, t.owners, node) == s.positions
            && SameOwners(s.positions, s.owners, t.owners)
  {
    var t := Added(s, spots, node);
    forall p ensures multiset(Others(t.positions, t.owners, node))[p] == multiset(s.positions)[p] {
      AddedCount(place, v, s, nodes, spots, node, p);
      OthersTimes(t.positions, t.owners, node, p);
    }
    OthersAscend(t.positions, t.owners, node);
    SameTimesSame(Others(t.positions, t.owners, node), s.positions);
    forall i | 0 <= i < |s.positions| ensures Owner(s.owners, s.positions[i]) == Owner(t.owners, s.positions[i]) {
      AddedOwner(s, spots, node, s.positions[i]);
    }
  }

  /** Where the added node owns nothing the positions are as before; where it owns, there were none. */
  lemma AddedCount(place: Placement, v: nat, s: Spots, nodes: set<Str>, spots: seq<int>, node: Str, p: int)
    requires IsClean(place, v, s.positions, s.owners, nodes) && node !in nodes && NoneTaken(s.owners, spots)
    ensures var t := Added(s, spots, node);
            && (p in t.owners && t.owners[p] == node ==> multiset(s.positions)[p] == 0)
            && (p !in t.owners || t.owners[p] != node ==> multiset(t.positions)[p] == multiset(s.positions)[p])
            && (p !in t.owners ==> multiset(t.positions)[p] == 0)
  {
    AddedOwner(s, spots, node, p);
    HasMember(s.positions, p);
    HasMember(spots, p);
    assert multiset(Sorted(s.positions + spots))[p] == multiset(s.positions)[p] + multiset(spots)[p];
  }

  /** Adding a node keeps the ring clean exactly when none of its labels meets another, or itself. */
  lemma AddedClean(place: Placement, v: nat, s: Spots, nodes: set<Str>, node: Str)
    requires IsClean(place, v, s.positions, s.owners, nodes) && node !in nodes
    ensures var spots := Places(place, node, v);
            var t := Added(s, spots, node);
            IsClean(place, v, t.positions, t.owners, nodes + {node}) <==> Free(s.owners, spots)
  {
    var spots := Places(place, node, v);
    var t := Added(s, spots, node);
    if Free(s.owners, spots) {
      AddedLists(place, v, s, nodes, spots, node);
      AddedDescribes(place, v, s, nodes, node);
    }
    if IsClean(place, v, t.positions, t.owners, nodes + {node}) {
      StrictApart(s, spots);
    }
  }

  lemma AddedLists(place: Placement, v: nat, s: Spots, nodes: set<Str>, spots: seq<int>, node: Str)
    requires IsClean(place, v, s.positions, s.owners, nodes) && node !in nodes && Free(s.owners, spots)
    ensures var t := Added(s, spots, node); Lists(t.positions, t.owners)
  {
    var t := Added(s, spots, node);
    FreeApart(s.positions, s.owners, spots);
    SortedIsStrict(s.positions + spots);
    forall p ensures Has(t.positions, p) <==> p in t.owners {
      AddedHas(s, spots, node, p);
    }
    ListsIfSame(t.positions, t.owners);
  }

  lemma AddedHas(s: Spots, spots: seq<int>, node: Str, p: int)
    requires Has(s.positions, p) <==> p in s.owners
    ensures var t := Added(s, spots, node); Has(t.positions, p) <==> p in t.owners
  {
    SortedHas(s.positions + spots, p);
    ConcatHas(s.positions, spots, p);
    AddedOwner(s, spots, node, p);
  }

  lemma ListsIfSame(ps: seq<int>, owners: map<int, Str>)
    requires Strict(ps) && forall p :: Has(ps, p) <==> p in owners
    ensures Lists(ps, owners)
  {
    assert forall i :: 0 <= i < |ps| ==> Has(ps, ps[i]);
  }

  lemma FreeApart(ps: seq<int>, owners: map<int, Str>, spots: seq<int>)
    requires Lists(ps, owners) && Free(owners, spots)
    ensures NoRepeats(ps + spots)
  {
    var all := ps + spots;
    forall i, j | 0 <= i < j < |all| ensures all[i] != all[j] {
      assert i < |ps| ==> all[i] in owners;
      assert j >= |ps| ==> all[j] == spots[j - |ps|];
    }
  }

  lemma ConcatHas(a: seq<int>, b: seq<int>, p: int)
    ensures Has(a + b, p) <==> Has(a, p) || Has(b, p)
  {
    if Has(a, p) {
      var i :| 0 <= i < |a| && a[i] == p;
      assert (a + b)[i] == p;
    }
    if Has(b, p) {
      var i :| 0 <= i < |b| && b[i] == p;
      assert (a + b)[|a| + i] == p;
    }
  }

  lemma AddedDescribes(place: Placement, v: nat, s: Spots, nodes: set<Str>, node: Str)
    requires IsClean(place, v, s.positions, s.owners, nodes) && node !in nodes &&
      NoneTaken(s.owners, Places(place, node, v))
    ensures var t := Added(s, Places(place, node, v), node); Describes(place, v, t.owners, nodes + {node})
  {
    var spots := Places(place, node, v);
    var o := Added(s, spots, node).owners;
    forall p | p in o ensures o[p] in nodes + {node} && IsPlaceOf(place, v, o[p], p) {
      AddedOwner(s, spots, node, p);
      if Has(spots, p) {
        var i :| 0 <= i < v && spots[i] == p;
        assert place(node, i) == p;
      }
    }
    forall n, j | n in nodes + {node} && 0 <= j < v ensures place(n, j) in o && o[place(n, j)] == n {
      AddedOwner(s, spots, node, place(n, j));
      if n == node {
        assert spots[j] == place(n, j);
      } else {
        assert place(n, j) in s.owners;
      }
    }
  }

  /** If the sorted positions do not repeat, the new ones were free. */
  lemma StrictApart(s: Spots, spots: seq<int>)
    requires Lists(s.positions, s.owners) && Strict(Sorted(s.positions + spots))
    ensures Free(s.owners, spots)
  {
    StrictIfSorted(s.positions + spots);
    NoRepeatsParts(s.positions, spots);
    forall i | 0 <= i < |spots| ensures spots[i] !in s.owners {
      assert !Has(s.positions, spots[i]);
    }
  }

  lemma NoRepeatsParts(a: seq<int>, b: seq<int>)
    requires NoRepeats(a + b)
    ensures NoRepeats(b) && forall i :: 0 <= i < |b| ==> !Has(a, b[i])
  {
    forall i, j | 0 <= i < j < |b| ensures b[i] != b[j] {
      assert (a + b)[|a| + i] == b[i] && (a + b)[|a| + j] == b[j];
    }
    forall i, k | 0 <= i < |b| && 0 <= k < |a| ensures a[k] != b[i] {
      assert (a + b)[|a| + i] == b[i] && (a + b)[k] == a[k];
    }
  }

  lemma StrictIfSorted(all: seq<int>)
    requires Strict(Sorted(all))
    ensures NoRepeats(all)
  {
    StrictMeansOnce(Sorted(all));
    forall i, j | 0 <= i < j < |all| ensures all[i] != all[j] {
      if all[i] == all[j] {
        TwiceIsTwo(all, i, j);
      }
    }
  }

  /** A clean ring stays clean when a node goes, and only that node's positions go. */
  lemma RemovedClean(place: Placement, v: nat, s: Spots, nodes: set<Str>, node: Str)
    requires IsClean(place, v, s.positions, s.owners, nodes)
    ensures var t := Removed(s, node);
            && IsClean(place, v, t.positions, t.owners, nodes - {node})
            && t.positions == Others(s.positions, s.owners, node)
            && SameOwners(t.positions, t.owners, s.owners)
  {
    var n, t := |s.positions|, Removed(s, node);
    var os := Others(s.positions, s.owners, node);
    SweptOwners(s, node, n);
    StrictMeansOnce(s.positions);
    forall p ensures multiset(t.positions)[p] == multiset(os)[p] <= 1 {
      RemovedCount(s, node, p);
    }
    SweptAscends(s, node, n);
    OthersAscend(s.positions, s.owners, node);
    SameTimesSame(t.positions, os);
    StrictMeansOnce(t.positions);
    forall p ensures Has(t.positions, p) <==> p in t.owners {
      RemovedCount(s, node, p);
      HasMember(t.positions, p);
      HasMember(s.positions, p);
      assert p in s.owners <==> Has(s.positions, p);
      assert Has(s.positions, p) <==> Taken(s.positions, n, p);
    }
    assert forall i :: 0 <= i < |t.positions| ==> Has(t.positions, t.positions[i]);
    DescribesWithout(place, v, s.owners, nodes, t.owners, node);
  }

  lemma RemovedCount(s: Spots, node: Str, p: int)
    requires Lists(s.positions, s.owners)
    ensures multiset(Removed(s, node).positions)[p] ==
      (if p in s.owners && s.owners[p] != node then multiset(s.positions)[p] else 0)
    ensures multiset(Others(s.positions, s.owners, node))[p] == multiset(Removed(s, node).positions)[p] <= 1
  {
    SweptTimes(s, node, |s.positions|, p);
    TimesOfAll(s.positions, p);
    OthersTimes(s.positions, s.owners, node, p);
    OnceIsOne(s.positions, p);
    HasMember(s.positions, p);
    assert p in s.owners <==> Has(s.positions, p);
  }

  lemma DescribesWithout(place: Placement, v: nat, owners: map<int, Str>, nodes: set<Str>, after: map<int, Str>, d: Str)
    requires Describes(place, v, owners, nodes)
    requires forall p :: p in after <==> p in owners && owners[p] != d
    requires forall p :: p in after ==> after[p] == owners[p]
    ensures Describes(place, v, after, nodes - {d})
  {
    forall n, j | n in nodes - {d} && 0 <= j < v ensures place(n, j) in after && after[place(n, j)] == n {
      var p := place(n, j);
      assert p in owners && owners[p] == n;
    }
  }

  /** A node added to a clean ring and removed again leaves it as it was exactly when none
      of its positions was taken and, unless the node has no name, none occurs twice. */
  lemma RemovalRestores(place: Placement, v: nat, s: Spots, nodes: set<Str>, spots: seq<int>, node: Str)
    requires IsClean(place, v, s.positions, s.owners, nodes) && node !in nodes
    ensures Removed(Added(s, spots, node), node) == s <==>
              NoneTaken(s.owners, spots) && (node == [] || NoRepeats(spots))
  {
    if !NoneTaken(s.owners, spots) {
      TakenIsLost(s, spots, node);
    } else if node != [] && !NoRepeats(spots) {
      RepeatStays(s, spots, node);
    } else {
      RestoredOwners(place, v, s, nodes, spots, node);
      RestoredPositions(place, v, s, nodes, spots, node);
    }
  }

  /** With one label each, both at position 0, the first node is gone once the second was
      added and removed. */
  lemma MeetingLabelsLose()
    ensures var place: Placement := (n, i) => 0;
            var s := Spots([0], map[0 := [1]]);
            && IsClean(place, 1, s.positions, s.owners, {[1]})
            && Removed(Added(s, Places(place, [2], 1), [2]), [2]) != s
  {
    var place: Placement := (n, i) => 0;
    var s := Spots([0], map[0 := [1]]);
    assert s.positions[0] == place([1], 0) && Has(s.positions, 0);
    var spots := Places(place, [2], 1);
    assert spots[0] in s.owners;
    RemovalRestores(place, 1, s, {[1]}, spots, [2]);
  }

  lemma TakenIsLost(s: Spots, spots: seq<int>, node: Str)
    requires !NoneTaken(s.owners, spots)
    ensures Removed(Added(s, spots, node), node).owners != s.owners
  {
    var t := Added(s, spots, node);
    var i :| 0 <= i < |spots| && spots[i] in s.owners;
    var p, n := spots[i], |t.positions|;
    AddedOwner(s, spots, node, p);
    ConcatHas(s.positions, spots, p);
    SortedHas(s.positions + spots, p);
    assert Has(t.positions, p) && Taken(t.positions, n, p);
    SweptOwners(t, node, n);
  }

  lemma RepeatStays(s: Spots, spots: seq<int>, node: Str)
    requires Lists(s.positions, s.owners) && NoneTaken(s.owners, spots) && node != [] && !NoRepeats(spots)
    ensures Removed(Added(s, spots, node), node).positions != s.positions
  {
    var t := Added(s, spots, node);
    var i, j :| 0 <= i < j < |spots| && spots[i] == spots[j];
    var p := spots[i];
    TwiceIsTwo(spots, i, j);
    AddedOwner(s, spots, node, p);
    assert multiset(t.positions)[p] == multiset(s.positions)[p] + multiset(spots)[p];
    SweptTimes(t, node, |t.positions|, p);
    TimesOfAll(t.positions, p);
    HasMember(s.positions, p);
  }

  lemma RestoredOwners(place: Placement, v: nat, s: Spots, nodes: set<Str>, spots: seq<int>, node: Str)
    requires IsClean(place, v, s.positions, s.owners, nodes) && node !in nodes && NoneTaken(s.owners, spots)
    ensures Removed(Added(s, spots, node), node).owners == s.owners
  {
    var t := Added(s, spots, node);
    var n, r := |t.positions|, Removed(t, node).owners;
    SweptOwners(t, node, n);
    forall p ensures p in r <==> p in s.owners {
      AddedOwner(s, spots, node, p);
      ConcatHas(s.positions, spots, p);
      SortedHas(s.positions + spots, p);
      assert Has(t.positions, p) <==> Taken(t.positions, n, p);
    }
    forall p | p in r ensures r[p] == s.owners[p] {
      AddedOwner(s, spots, node, p);
    }
  }

  lemma RestoredPositions(place: Placement, v: nat, s: Spots, nodes: set<Str>, spots: seq<int>, node: Str)
    requires IsClean(place, v, s.positions, s.owners, nodes) && node !in nodes && NoneTaken(s.owners, spots)
    requires node == [] || NoRepeats(spots)
    ensures Removed(Added(s, spots, node), node).positions == s.positions
  {
    var t := Added(s, spots, node);
    var r := Removed(t, node).positions;
    forall p ensures multiset(r)[p] == multiset(s.positions)[p] {
      RestoredCount(place, v, s, nodes, spots, node, p);
    }
    SweptAscends(t, node, |t.positions|);
    SameTimesSame(r, s.positions);
  }

  lemma RestoredCount(place: Placement, v: nat, s: Spots, nodes: set<Str>, spots: seq<int>, node: Str, p: int)
    requires IsClean(place, v, s.positions, s.owners, nodes) && node !in nodes && NoneTaken(s.owners, spots)
    requires node == [] || NoRepeats(spots)
    ensures multiset(Removed(Added(s, spots, node), node).positions)[p] == multiset(s.positions)[p]
  {
    var t := Added(s, spots, node);
    AddedCount(place, v, s, nodes, spots, node, p);
    SweptTimes(t, node, |t.positions|, p);
    TimesOfAll(t.positions, p);
    if node != [] {
      OnceIsOne(spots, p);
      assert multiset(t.positions)[p] == multiset(s.positions)[p] + multiset(spots)[p];
    }
  }

  // ----------------------------------------------------------------- what keys see

  /** Each key's order after, without the node, is its order before. */
  ghost predicate OnlyInserts(before: Spots, after: Spots, node: Str) {
    forall h :: Without(Order(after.positions, after.owners, h), node) == Order(before.positions, before.owners, h)
  }

  /** A node added where nothing is taken only goes into each key's order. */
  lemma AddedOrder(place: Placement, v: nat, s: Spots, nodes: set<Str>, spots: seq<int>, node: Str)
    requires IsClean(place, v, s.positions, s.owners, nodes) && node !in nodes && NoneTaken(s.owners, spots)
    ensures OnlyInserts(s, Added(s, spots, node), node)
  {
    AddedOthers(place, v, s, nodes, spots, node);
    OthersInsert(s, Added(s, spots, node), node);
  }

  lemma OthersInsert(s: Spots, t: Spots, node: Str)
    requires Ascending(t.positions) && Others(t.positions, t.owners, node) == s.positions
    requires SameOwners(s.positions, s.owners, t.owners)
    ensures OnlyInserts(s, t, node)
  {
    forall h ensures Without(Order(t.positions, t.owners, h), node) == Order(s.positions, s.owners, h) {
      OrderWithout(t.positions, t.owners, node, h);
      SameOwnersSameOrder(s.positions, s.owners, t.owners, h);
    }
  }

  /** A node removed from a clean ring only goes out of each key's order. */
  lemma RemovedOrder(place: Placement, v: nat, s: Spots, nodes: set<Str>, node: Str)
    requires IsClean(place, v, s.positions, s.owners, nodes)
    ensures OnlyInserts(Removed(s, node), s, node)
  {
    RemovedClean(place, v, s, nodes, node);
    OthersInsert(Removed(s, node), s, node);
  }

  /** The first n of a key's order, or all of it. */
  ghost function FirstN(s: Spots, h: int, n: nat): seq<Str> {
    var os := Order(s.positions, s.owners, h);
    os[..if n <= |os| then n else |os|]
  }

  /** What a key is answered after a node was added: its old nodes, from the first on, with
      the new node put in. */
  lemma AddedAnswers(place: Placement, v: nat, s: Spots, nodes: set<Str>, spots: seq<int>, node: Str, h: int, n: nat)
    requires IsClean(place, v, s.positions, s.owners, nodes) && node !in nodes && NoneTaken(s.owners, spots)
    ensures Without(FirstN(Added(s, spots, node), h, n), node) <= FirstN(s, h, n)
  {
    var t := Added(s, spots, node);
    var before, after := Order(s.positions, s.owners, h), Order(t.positions, t.owners, h);
    AddedOrder(place, v, s, nodes, spots, node);
    NewNodeOnlyInserts(before, after, node, if n <= |after| then n else |after|);
  }

  lemma AddIsClean(place: Placement, v: nat, s: Spots, nodes: set<Str>, node: Str)
    ensures node !in nodes && IsClean(place, v, s.positions, s.owners, nodes) ==>
      var spots := Places(place, node, v);
      var t := Added(s, spots, node);
      && (IsClean(place, v, t.positions, t.owners, nodes + {node}) <==> Free(s.owners, spots))
      && (NoneTaken(s.owners, spots) ==> OnlyInserts(s, t, node))
  {
    if node !in nodes && IsClean(place, v, s.positions, s.owners, nodes) {
      AddedClean(place, v, s, nodes, node);
      if NoneTaken(s.owners, Places(place, node, v)) {
        AddedOrder(place, v, s, nodes, Places(place, node, v), node);
      }
    }
  }

  // ----------------------------------------------------------------------- the ring

  class HashRing {
    const virtualNodes: nat
    const place: Placement
    var positions: seq<int>
    var owners: map<int, Str>
    var nodes: set<Str>

    ghost predicate Valid()
      reads this
    {
      0 < virtualNodes && Ascending(positions)
    }

    ghost function Value(): Spots
      reads this
    {
      Spots(positions, owners)
    }

    /** No two labels have met. */
    ghost predicate Clean()
      reads this
    {
      IsClean(place, virtualNodes, positions, owners, nodes)
    }

    constructor (virtualNodes: int, place: Placement)
      ensures Valid() && Clean() && nodes == {} && this.place == place
      ensures this.virtualNodes == if virtualNodes <= 0 then 150 else virtualNodes
    {
      this.virtualNodes := if virtualNodes <= 0 then 150 else virtualNodes;
      this.place := place;
      positions, owners, nodes := [], map[], {};
    }

    /** Adds a node's positions and sorts. A clean ring stays clean exactly when the positions
        are free, and where none is taken each key's order only takes the new node in. */
    method Add(node: Str)
      requires Valid()
      modifies this
      ensures Valid() && nodes == old(nodes) + {node}
      ensures node in old(nodes) ==> unchanged(this`positions, this`owners)
      ensures node !in old(nodes) ==> Value() == Added(old(Value()), Places(place, node, virtualNodes), node)
      ensures node !in old(nodes) && old(Clean()) ==>
        (Clean() <==> Free(old(owners), Places(place, node, virtualNodes)))
      ensures node !in old(nodes) && old(Clean()) && NoneTaken(old(owners), Places(place, node, virtualNodes)) ==>
        OnlyInserts(old(Value()), Value(), node)
    {
      if node in nodes {
        assert nodes + {node} == nodes;
        return;
      }
      AddIsClean(place, virtualNodes, Value(), nodes, node);
      nodes := nodes + {node};
      PlaceAll(node);
      positions := Sorted(positions);
    }

    /** The loop over a node's labels. */
    method PlaceAll(node: Str)
      modifies this`positions, this`owners
      ensures positions == old(positions) + Places(place, node, virtualNodes)
      ensures owners == Claimed(old(owners), Places(place, node, virtualNodes), node, virtualNodes)
    {
      ghost var spots := Places(place, node, virtualNodes);
      NothingAdded(positions);
      for i := 0 to virtualNodes
        invariant positions == old(positions) + spots[..i] && owners == Claimed(old(owners), spots, node, i)
      {
        assert spots[..i + 1] == spots[..i] + [spots[i]];
        Assoc(old(positions), spots[..i], [spots[i]]);
        var p := place(node, i);
        positions := positions + [p];
        owners := owners[p := node];
      }
      assert spots[..virtualNodes] == spots;
    }

    /** Filters a node's positions out. */
    method Remove(node: Str)
      requires Valid()
      modifies this
      ensures Valid() && nodes == old(nodes) - {node}
      ensures node !in old(nodes) ==> unchanged(this)
      ensures node in old(nodes) ==> Value() == Removed(old(Value()), node)
      ensures node in old(nodes) && old(Clean()) ==>
        Clean() && OnlyInserts(Value(), old(Value()), node)
    {
      if node !in nodes {
        return;
      }
      SweptAscends(Value(), node, |positions|);
      if Clean() {
        RemovedClean(place, virtualNodes, Value(), nodes, node);
        RemovedOrder(place, virtualNodes, Value(), nodes, node);
      }
      nodes := nodes - {node};
      Sweep(node);
    }

    /** The filter over the positions. */
    method Sweep(node: Str)
      modifies this`positions, this`owners
      ensures Value() == Removed(old(Value()), node)
    {
      ghost var before := Value();
      var ps, kept: seq<int> := positions, [];
      for i := 0 to |ps|
        invariant Spots(kept, owners) == Swept(before, node, i)
      {
        var p := ps[i];
        if Owner(owners, p) == node {
          owners := owners - {p};
        } else {
          kept := kept + [p];
        }
      }
      positions := kept;
    }

    /** Adding a new node to a clean ring and removing it leaves the ring, and so every answer,
        as it was exactly when none of its positions was taken and, unless the node has no
        name, none occurs twice. */
    method AddThenRemove(node: Str)
      requires Valid() && Clean() && node !in nodes
      modifies this
      ensures Valid() && nodes == old(nodes)
      ensures Value() == old(Value()) <==>
        NoneTaken(old(owners), Places(place, node, virtualNodes)) &&
            (node == [] || NoRepeats(Places(place, node, virtualNodes)))
    {
      RemovalRestores(place, virtualNodes, Value(), nodes, Places(place, node, virtualNodes), node);
      Add(node);
      Remove(node);
    }

    /** The owner of the first position clockwise. */
    method Get(h: int) returns (node: Str, found: bool)
      requires Valid()
      ensures found == (positions != []) && (Clean() ==> found == (nodes != {}))
      ensures found ==> Order(positions, owners, h) != [] && node == Order(positions, owners, h)[0]
      ensures found ==> exists p :: p in positions && node == Owner(owners, p) && forall q :: q in positions ==>
        (p >= h && (q < h || p <= q)) || (p < h && q < h && p <= q)
    {
      if Clean() {
        OrderHasAll(place, virtualNodes, positions, owners, nodes, h);
      }
      if |positions| == 0 {
        return [], false;
      }
      var i := Search(positions, h);
      if i == |positions| {
        i := 0;
      }
      node, found := Owner(owners, positions[i]), true;
      FirstOfOrder(positions, owners, h, i);
      FirstIsNearest(positions, h, i);
    }

    /** The first n nodes of the key's order; in a clean ring, n different ones or all there are. */
    method GetN(h: int, n0: int) returns (out: seq<Str>)
      requires Valid()
      ensures out == FirstN(Value(), h, if n0 <= 0 then 0 else if n0 > |nodes| then |nodes| else n0)
      ensures Clean() ==> |out| == if n0 <= 0 then 0 else if n0 > |nodes| then |nodes| else n0
    {
      if Clean() {
        OrderHasAll(place, virtualNodes, positions, owners, nodes, h);
      }
      if |positions| == 0 || n0 <= 0 {
        return [];
      }
      var n := if n0 > |nodes| then |nodes| else n0;
      var start := Search(positions, h);
      out := FirstOwners(h, start, n);
    }

    /** Walks on until n different owners are met, or all positions are passed. */
    method FirstOwners(ghost h: int, start: nat, n: nat) returns (out: seq<Str>)
      requires positions != [] && start == FirstAt(positions, h)
      ensures out == FirstN(Value(), h, n)
    {
      ghost var os := OwnersOf(Clockwise(positions, h), owners);
      var seen: set<Str> := {};
      out := [];
      var i := 0;
      while i < |positions| && |out| < n
        invariant 0 <= i <= |positions| && |out| <= n
        invariant out == Distinct(os[..i]) && seen == Members(out)
      {
        OwnerAt(positions, owners, h, start, i);
        var owner := Owner(owners, positions[(start + i) % |positions|]);
        NextOwner(os, i);
        if owner !in seen {
          MoreMembers(out, owner);
          seen := seen + {owner};
          out := out + [owner];
        }
        i := i + 1;
      }
      FirstNMet(os, i, n);
    }
  }

  ghost function Members(os: seq<Str>): (r: set<Str>) {
    set o | o in os
  }

  lemma MoreMembers(os: seq<Str>, o: Str)
    ensures Members(os + [o]) == Members(os) + {o}
  {
  }

  lemma FirstNMet(os: seq<Str>, i: nat, n: nat)
    requires i <= |os| && |Distinct(os[..i])| <= n && (i == |os| || |Distinct(os[..i])| == n)
    ensures var all := Distinct(os); Distinct(os[..i]) == all[..if n <= |all| then n else |all|]
  {
    DistinctPrefix(os, i);
    if i == |os| {
      assert os[..i] == os;
    }
  }

  /** The position found is the lowest from h on or, when there is none, the lowest of all. */
  lemma FirstIsNearest(ps: seq<int>, h: int, i: nat)
    requires Ascending(ps) && ps != [] && i == if FirstAt(ps, h) == |ps| then 0 else FirstAt(ps, h)
    ensures var p := ps[i];
            p in ps && forall q :: q in ps ==> (p >= h && (q < h || p <= q)) || (p < h && q < h && p <= q)
  {
    FirstAtSplits(ps, h);
    forall q | q in ps ensures (ps[i] >= h && (q < h || ps[i] <= q)) || (ps[i] < h && q < h && ps[i] <= q) {
      var j :| 0 <= j < |ps| && ps[j] == q;
    }
  }

  lemma FirstOfOrder(ps: seq<int>, owners: map<int, Str>, h: int, i: nat)
    requires ps != [] && i == if FirstAt(ps, h) == |ps| then 0 else FirstAt(ps, h)
    ensures Order(ps, owners, h) != [] && Order(ps, owners, h)[0] == Owner(owners, ps[i])
  {
    var os := OwnersOf(Clockwise(ps, h), owners);
    assert Clockwise(ps, h)[0] == ps[i] && os[0] == Owner(owners, ps[i]);
    assert os[..1] == [os[0]] && Distinct([os[0]]) == [os[0]];
    DistinctPrefix(os, 1);
  }

  /** Stepping past the end goes on at the start. */
  lemma OwnerAt(ps: seq<int>, owners: map<int, Str>, h: int, start: nat, i: nat)
    requires start == FirstAt(ps, h) && i < |ps|
    ensures 0 <= (start + i) % |ps| < |ps|
    ensures OwnersOf(Clockwise(ps, h), owners)[i] == Owner(owners, ps[(start + i) % |ps|])
  {
    var n := |ps|;
    Wrap(start + i, n);
    assert Clockwise(ps, h)[i] == ps[if start + i < n then start + i else start + i - n];
  }

  lemma Wrap(x: nat, n: nat)
    requires x < 2 * n
    ensures x % n == if x < n then x else x - n
  {
    if x >= n {
      assert x / n == 1;
    }
  }

  /** With a node more, a key's first n nodes are its old ones with the new node put in:
      without it they begin the old list. */
  lemma NewNodeOnlyInserts(before: seq<Str>, after: seq<Str>, d: Str, n: nat)
    requires Without(after, d) == before && n <= |after|
    ensures Without(after[..n], d) <= before[..if n <= |before| then n else |before|]
  {
    WithoutPrefix(after, n, d);
    WithoutIsShorter(after[..n], d);
  }
}

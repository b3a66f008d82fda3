/** Vector clocks and the replicas that use them to keep siblings.

    The operations on clocks and the two replica methods, each against a
    specification function. `CausalRuns` shows what they add up to when any
    number of replicas write and deliver. */
module VectorClocks {
  import opened ByteStrings

  type Clock = map<Str, nat>

  datatype Ordering = Equal | Before | After | Concurrent

  datatype Version = Version(value: Str, clock: Clock)

  // ------------------------------------------------------------------- clocks

  /** A node the clock does not list counts as 0. */
  function Count(c: Clock, node: Str): nat {
    if node in c then c[node] else 0
  }

  ghost predicate Leq(a: Clock, b: Clock) {
    forall n :: Count(a, n) <= Count(b, n)
  }

  ghost function Compared(a: Clock, b: Clock): Ordering {
    if Leq(a, b) && Leq(b, a) then Equal
    else if Leq(a, b) then Before
    else if Leq(b, a) then After
    else Concurrent
  }

  function Increment(c: Clock, node: Str): (c': Clock)
    ensures forall n :: Count(c', n) == if n == node then Count(c, n) + 1 else Count(c, n)
  {
    c[node := Count(c, node) + 1]
  }

  method Merge(a: Clock, b: Clock) returns (out: Clock)
    ensures forall n :: Count(out, n) == if Count(a, n) >= Count(b, n) then Count(a, n) else Count(b, n)
  {
    out := a;
    var todo := b.Keys;
    while todo != {}
      invariant todo <= b.Keys
      invariant forall n :: Count(out, n) ==
                  if n in b.Keys && n !in todo && Count(a, n) < Count(b, n) then Count(b, n) else Count(a, n)
      decreases |todo|
    {
      var node :| node in todo;
      if b[node] > Count(out, node) {
        out := out[node := b[node]];
      }
      todo := todo - {node};
    }
  }

  method Compare(a: Clock, b: Clock) returns (r: Ordering)
    ensures r == Compared(a, b)
  {
    var less, greater := false, false;
    var nodes := a.Keys + b.Keys;
    var todo := nodes;
    while todo != {}
      invariant todo <= nodes
      invariant less <==> exists n :: n in nodes - todo && Count(a, n) < Count(b, n)
      invariant greater <==> exists n :: n in nodes - todo && Count(a, n) > Count(b, n)
      decreases |todo|
    {
      var n :| n in todo;
      if Count(a, n) < Count(b, n) {
        less := true;
      }
      if Count(a, n) > Count(b, n) {
        greater := true;
      }
      todo := todo - {n};
    }
    assert less <==> !Leq(b, a) by { OutsideIsZero(b, a); }
    assert greater <==> !Leq(a, b) by { OutsideIsZero(a, b); }
    r := if !less && !greater then Equal else if less && !greater then Before
         else if greater && !less then After else Concurrent;
  }

  lemma OutsideIsZero(a: Clock, b: Clock)
    ensures !Leq(a, b) <==> exists n :: n in b.Keys + a.Keys && Count(a, n) > Count(b, n)
  {
  }

  // ----------------------------------------------------------------- replicas

  /** The merge of all the clocks of `vs`. */
  ghost predicate IsJoin(c: Clock, vs: seq<Version>) {
    && (forall i :: 0 <= i < |vs| ==> Leq(vs[i].clock, c))
    && (forall n :: Count(c, n) > 0 ==> exists i :: 0 <= i < |vs| && Count(vs[i].clock, n) == Count(c, n))
  }

  /** The versions left by a write at `id`: one, after all that were there. */
  ghost predicate Wrote(vs: seq<Version>, id: Str, value: Str, vs': seq<Version>) {
    exists c :: IsJoin(c, vs) && vs' == [Version(value, Increment(c, id))]
  }

  ghost predicate Covered(vs: seq<Version>, clock: Clock) {
    exists i :: 0 <= i < |vs| && Leq(clock, vs[i].clock)
  }

  /** The versions that `clock` neither covers nor is covered by. */
  ghost function Siblings(vs: seq<Version>, clock: Clock): (r: seq<Version>)
    ensures forall v :: v in r <==> v in vs && Compared(v.clock, clock) == Concurrent
  {
    if vs == [] then []
    else Siblings(vs[..|vs| - 1], clock) +
         (if Compared(vs[|vs| - 1].clock, clock) == Concurrent then [vs[|vs| - 1]] else [])
  }

  /** The versions left by a delivery: nothing new if one held already covers it. */
  ghost function Received(vs: seq<Version>, incoming: Version): seq<Version> {
    if Covered(vs, incoming.clock) then vs else Siblings(vs, incoming.clock) + [incoming]
  }

  class Replica {
    const id: Str
    var versions: seq<Version>

    constructor (id: Str)
      ensures this.id == id && versions == []
    {
      this.id, versions := id, [];
    }

    method Write(value: Str)
      modifies this
      ensures Wrote(old(versions), id, value, versions)
      ensures |versions| == 1 && versions[0].value == value
      ensures forall i, n :: 0 <= i < |old(versions)| ==>
        Count(old(versions)[i].clock, n) + (if n == id then 1 else 0) <= Count(versions[0].clock, n)
    {
      var clock: Clock := map[];
      for i := 0 to |versions|
        invariant versions == old(versions) && IsJoin(clock, versions[..i])
      {
        ghost var before := clock;
        clock := Merge(clock, versions[i].clock);
        JoinGrows(before, versions, i, clock);
      }
      assert versions[..|versions|] == versions;
      versions := [Version(value, Increment(clock, id))];
    }

    method Receive(incoming: Version)
      modifies this
      ensures versions == Received(old(versions), incoming)
    {
      var kept: seq<Version> := [];
      for i := 0 to |versions|
        invariant versions == old(versions) && kept == Siblings(versions[..i], incoming.clock)
        invariant forall j :: 0 <= j < i ==> !Leq(incoming.clock, versions[j].clock)
      {
        assert versions[..i + 1][..i] == versions[..i];
        var o := Compare(versions[i].clock, incoming.clock);
        match o {
          case After => return;
          case Equal => return;
          case Before =>
          case Concurrent => kept := kept + [versions[i]];
        }
      }
      assert versions[..|versions|] == versions;
      versions := kept + [incoming];
    }
  }

  lemma JoinGrows(c: Clock, vs: seq<Version>, i: nat, c': Clock)
    requires i < |vs| && IsJoin(c, vs[..i])
    requires forall n ::
      Count(c', n) == if Count(c, n) >= Count(vs[i].clock, n) then Count(c, n) else Count(vs[i].clock, n)
    ensures IsJoin(c', vs[..i + 1])
  {
    var done := vs[..i + 1];
    forall j | 0 <= j < |done| ensures Leq(done[j].clock, c') {
      if j < i {
        assert Leq(vs[..i][j].clock, c);
      }
    }
    forall n | Count(c', n) > 0 ensures exists j :: 0 <= j < |done| && Count(done[j].clock, n) == Count(c', n) {
      if Count(c, n) >= Count(vs[i].clock, n) {
        var j :| 0 <= j < i && Count(vs[..i][j].clock, n) == Count(c, n);
        assert Count(done[j].clock, n) == Count(c', n);
      } else {
        assert Count(done[i].clock, n) == Count(c', n);
      }
    }
  }
}

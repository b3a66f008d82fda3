/** Runs of replicas that write and deliver in any order: late, repeated,
    out of order.

    A write is known by its place in the log. Its `past` is what its replica
    had written or received before, and all that those depended on. */
module CausalRuns {
  import opened ByteStrings
  import opened VectorClocks

  datatype Event = Event(node: Str, version: Version, past: set<nat>)

  /** seen[i] and held[i]: the writes replica i made or received, and the versions it keeps. */
  datatype State = State(log: seq<Event>, seen: seq<set<nat>>, held: seq<seq<Version>>)

  ghost function ClockOf(s: State, e: nat): Clock
    requires e < |s.log|
  {
    s.log[e].version.clock
  }

  /** Which of its node's writes a write is, as its clock says. */
  ghost function Ord(s: State, e: nat): nat
    requires e < |s.log|
  {
    Count(ClockOf(s, e), s.log[e].node)
  }

  /** A write and all it depends on. */
  ghost function History(s: State, e: nat): set<nat>
    requires e < |s.log|
  {
    s.log[e].past + {e}
  }

  /** All that the writes of `es` depend on, themselves included. */
  ghost function Histories(s: State, es: set<nat>): set<nat>
    requires forall e :: e in es ==> e < |s.log|
  {
    set e, d | e in es && d in History(s, e) :: d
  }

  datatype Action = Write(i: nat, value: Str) | Deliver(i: nat, e: nat)

  ghost predicate Initial(ids: seq<Str>, s: State) {
    && s.log == [] && |s.seen| == |s.held| == |ids|
    && forall i :: 0 <= i < |ids| ==> s.seen[i] == {} && s.held[i] == []
  }

  ghost predicate Fits(ids: seq<Str>, s: State) {
    && |s.seen| == |s.held| == |ids|
    && forall i, e :: 0 <= i < |ids| && e in s.seen[i] ==> e < |s.log|
  }

  ghost function AfterWrite(ids: seq<Str>, s: State, i: nat, v: Version): State
    requires Fits(ids, s) && i < |ids|
  {
    State(s.log + [Event(ids[i], v, Histories(s, s.seen[i]))], s.seen[i := s.seen[i] + {|s.log|}], s.held[i := [v]])
  }

  /** One call of Replica.Write or Replica.Receive somewhere. */
  ghost predicate Step(ids: seq<Str>, s: State, a: Action, s': State)
    requires Fits(ids, s)
  {
    match a
    case Write(i, value) =>
      && i < |ids|
      && (exists v :: Wrote(s.held[i], ids[i], value, [v]) && s' == AfterWrite(ids, s, i, v))
    case Deliver(i, e) =>
      && i < |ids| && e < |s.log|
      && s' == State(s.log, s.seen[i := s.seen[i] + {e}], s.held[i := Received(s.held[i], s.log[e].version)])
  }

  // ---------------------------------------------------------------- the invariant

  /** A clock counts exactly the writes in the history. */
  ghost predicate Exact(s: State) {
    forall d, e :: 0 <= d < |s.log| && 0 <= e < |s.log| ==>
      (d in History(s, e) <==> Ord(s, d) <= Count(ClockOf(s, e), s.log[d].node))
  }

  /** Every count is that of a write that happened. */
  ghost predicate Attained(s: State) {
    forall e, n :: 0 <= e < |s.log| && Count(ClockOf(s, e), n) > 0 ==> IsWrite(s, n, Count(ClockOf(s, e), n))
  }

  ghost predicate IsWrite(s: State, node: Str, ord: nat) {
    exists d :: 0 <= d < |s.log| && s.log[d].node == node && Ord(s, d) == ord
  }

  /** A node numbers its writes without repetition, from 1. */
  ghost predicate Numbered(s: State) {
    && (forall e :: 0 <= e < |s.log| ==> Ord(s, e) >= 1)
    && (forall d, e :: 0 <= d < e < |s.log| && s.log[d].node == s.log[e].node ==> Ord(s, d) != Ord(s, e))
  }

  /** Histories reach back only, and hold the histories of what they hold. */
  ghost predicate Causal(s: State) {
    && (forall d, e :: 0 <= e < |s.log| && d in s.log[e].past ==> d < e)
    && (forall d, e :: 0 <= e < |s.log| && d in s.log[e].past && d < |s.log| ==> s.log[d].past <= s.log[e].past)
  }

  /** A replica has seen its own writes. */
  ghost predicate OwnSeen(ids: seq<Str>, s: State)
    requires Fits(ids, s)
  {
    forall e, i :: 0 <= e < |s.log| && 0 <= i < |ids| && s.log[e].node == ids[i] ==> e in s.seen[i]
  }

  ghost predicate IsSeen(s: State, es: set<nat>, v: Version) {
    exists e :: e in es && e < |s.log| && s.log[e].version == v
  }

  ghost predicate Antichain(vs: seq<Version>) {
    forall j, k :: 0 <= j < k < |vs| ==> Compared(vs[j].clock, vs[k].clock) == Concurrent
  }

  lemma OnlyItself(vs: seq<Version>, j: nat, k: nat)
    requires Antichain(vs) && j < |vs| && k < |vs| && Leq(vs[j].clock, vs[k].clock)
    ensures j == k
  {
  }

  /** The versions kept are siblings, were seen, and cover all that was seen. */
  ghost predicate Keeps(s: State, es: set<nat>, vs: seq<Version>) {
    && (forall v :: v in vs ==> IsSeen(s, es, v))
    && (forall e :: e in es && e < |s.log| ==> Covered(vs, ClockOf(s, e)))
    && Antichain(vs)
  }

  ghost predicate Inv(ids: seq<Str>, s: State) {
    && Fits(ids, s) && Exact(s) && Attained(s) && Numbered(s) && Causal(s) && OwnSeen(ids, s)
    && forall i :: 0 <= i < |ids| ==> Keeps(s, s.seen[i], s.held[i])
  }

  // ------------------------------------------------------------------ what it means

  /** Comparing two clocks of a run tells which write is in the other's past. */
  lemma ClocksKnowCausality(ids: seq<Str>, s: State, d: nat, e: nat)
    requires Inv(ids, s) && d < |s.log| && e < |s.log|
    ensures Compared(ClockOf(s, d), ClockOf(s, e)) ==
      if d == e then Equal else if d in s.log[e].past then Before
      else if e in s.log[d].past then After else Concurrent
    ensures !(d in s.log[e].past && e in s.log[d].past)
  {
    LeqIsHistory(ids, s, d, e);
    LeqIsHistory(ids, s, e, d);
  }

  lemma LeqIsHistory(ids: seq<Str>, s: State, d: nat, e: nat)
    requires Inv(ids, s) && d < |s.log| && e < |s.log|
    ensures Leq(ClockOf(s, d), ClockOf(s, e)) <==> d in History(s, e)
  {
    if d in History(s, e) {
      assert History(s, d) <= History(s, e);
      forall n ensures Count(ClockOf(s, d), n) <= Count(ClockOf(s, e), n) {
        if Count(ClockOf(s, d), n) > 0 {
          assert IsWrite(s, n, Count(ClockOf(s, d), n));
          var w :| 0 <= w < |s.log| && s.log[w].node == n && Ord(s, w) == Count(ClockOf(s, d), n);
          assert w in History(s, d);
        }
      }
    } else {
      assert Count(ClockOf(s, d), s.log[d].node) > Count(ClockOf(s, e), s.log[d].node);
    }
  }

  /** Seen by the replica, and in the past of nothing it has seen. */
  ghost predicate Maximal(s: State, es: set<nat>, e: nat)
    requires forall d :: d in es ==> d < |s.log|
  {
    e in es && forall d :: d in es ==> e !in s.log[d].past
  }

  /** A replica holds exactly the maximal versions of all it has written or received. */
  lemma HeldAreMaximal(ids: seq<Str>, s: State, i: nat, e: nat)
    requires Inv(ids, s) && i < |ids| && e < |s.log|
    ensures e in s.seen[i] && s.log[e].version in s.held[i] <==> Maximal(s, s.seen[i], e)
  {
    if e in s.seen[i] {
      var f := CoveredBy(ids, s, i, e);
      if s.log[e].version in s.held[i] {
        forall d | d in s.seen[i] ensures e !in s.log[d].past {
          HeldIsNotPast(ids, s, i, e, d);
        }
      }
    }
  }

  /** Of two held versions neither is in the other's history. */
  lemma HeldApart(ids: seq<Str>, s: State, i: nat, e: nat, f: nat)
    requires Inv(ids, s) && i < |ids| && e < |s.log| && f < |s.log| && e in History(s, f)
    requires s.log[e].version in s.held[i] && s.log[f].version in s.held[i]
    ensures e == f
  {
    var vs := s.held[i];
    var k :| 0 <= k < |vs| && vs[k] == s.log[e].version;
    var j :| 0 <= j < |vs| && vs[j] == s.log[f].version;
    LeqIsHistory(ids, s, e, f);
    assert Keeps(s, s.seen[i], vs);
    OnlyItself(vs, k, j);
    ClocksKnowCausality(ids, s, e, f);
  }

  /** A seen write is in the history of one that is held. */
  lemma CoveredBy(ids: seq<Str>, s: State, i: nat, d: nat) returns (f: nat)
    requires Inv(ids, s) && i < |ids| && d in s.seen[i]
    ensures f in s.seen[i] && f < |s.log| && s.log[f].version in s.held[i] && d in History(s, f)
  {
    var vs := s.held[i];
    assert Keeps(s, s.seen[i], vs) && Covered(vs, ClockOf(s, d));
    var j :| 0 <= j < |vs| && Leq(ClockOf(s, d), vs[j].clock);
    assert IsSeen(s, s.seen[i], vs[j]);
    f :| f in s.seen[i] && f < |s.log| && s.log[f].version == vs[j];
    LeqIsHistory(ids, s, d, f);
  }

  lemma HeldIsNotPast(ids: seq<Str>, s: State, i: nat, e: nat, d: nat)
    requires Inv(ids, s) && i < |ids| && e < |s.log| && s.log[e].version in s.held[i] && d in s.seen[i]
    ensures e !in s.log[d].past
  {
    var f := CoveredBy(ids, s, i, d);
    if e in s.log[d].past {
      HeldApart(ids, s, i, e, f);
    }
  }

  /** Replicas that have seen the same writes hold the same siblings, whatever the order. */
  lemma SameSeenSameHeld(ids: seq<Str>, s: State, i: nat, j: nat)
    requires Inv(ids, s) && i < |ids| && j < |ids| && s.seen[i] == s.seen[j]
    ensures multiset(s.held[i]) == multiset(s.held[j])
  {
    forall v ensures v in s.held[i] <==> v in s.held[j] {
      HeldThereToo(ids, s, i, j, v);
      HeldThereToo(ids, s, j, i, v);
    }
    assert Keeps(s, s.seen[i], s.held[i]) && Keeps(s, s.seen[j], s.held[j]);
    DistinctSameMultiset(s.held[i], s.held[j]);
  }

  lemma HeldThereToo(ids: seq<Str>, s: State, i: nat, j: nat, v: Version)
    requires Inv(ids, s) && i < |ids| && j < |ids| && s.seen[i] == s.seen[j]
    ensures v in s.held[i] ==> v in s.held[j]
  {
    if v in s.held[i] {
      assert Keeps(s, s.seen[i], s.held[i]);
      assert IsSeen(s, s.seen[i], v);
      var e :| e in s.seen[i] && e < |s.log| && s.log[e].version == v;
      HeldAreMaximal(ids, s, i, e);
      HeldAreMaximal(ids, s, j, e);
    }
  }

  lemma {:induction false} DistinctSameMultiset(a: seq<Version>, b: seq<Version>)
    requires Antichain(a)
    requires Antichain(b)
    requires forall v :: v in a <==> v in b
    ensures multiset(a) == multiset(b)
  {
    forall v ensures multiset(a)[v] == multiset(b)[v] {
      OccursOnce(a, v);
      OccursOnce(b, v);
    }
  }

  lemma {:induction false} OccursOnce(a: seq<Version>, v: Version)
    requires Antichain(a)
    ensures multiset(a)[v] == if v in a then 1 else 0
  {
    if a == [] {
    } else {
      var a', last := a[..|a| - 1], a[|a| - 1];
      OccursOnce(a', v);
      assert a == a' + [last];
      assert forall j :: 0 <= j < |a'| ==> a'[j] != last;
    }
  }

  // ---------------------------------------------------------- every step keeps it

  lemma AntichainGrows(vs: seq<Version>, v: Version)
    requires Antichain(vs) && forall w :: w in vs ==> Compared(w.clock, v.clock) == Concurrent
    ensures Antichain(vs + [v])
  {
  }

  lemma {:induction false} SiblingsApart(vs: seq<Version>, clock: Clock)
    requires Antichain(vs)
    ensures Antichain(Siblings(vs, clock))
  {
    if vs == [] {
    } else {
      var vs', last := vs[..|vs| - 1], vs[|vs| - 1];
      SiblingsApart(vs', clock);
      forall w | w in Siblings(vs', clock) ensures Compared(w.clock, last.clock) == Concurrent {
        var l :| 0 <= l < |vs'| && vs'[l] == w;
        assert vs[l] == w;
      }
      AntichainGrows(Siblings(vs', clock), last);
    }
  }

  lemma CoverageSurvives(vs: seq<Version>, incoming: Version, clock: Clock)
    requires Covered(vs, clock) && !Covered(vs, incoming.clock)
    ensures Covered(Siblings(vs, incoming.clock) + [incoming], clock)
  {
    var vs' := Siblings(vs, incoming.clock) + [incoming];
    var j :| 0 <= j < |vs| && Leq(clock, vs[j].clock);
    if Compared(vs[j].clock, incoming.clock) == Concurrent {
      assert vs[j] in Siblings(vs, incoming.clock);
      var k :| 0 <= k < |Siblings(vs, incoming.clock)| && Siblings(vs, incoming.clock)[k] == vs[j];
      assert vs'[k] == vs[j];
    } else {
      assert Leq(vs[j].clock, incoming.clock);
      assert vs'[|vs'| - 1] == incoming && Leq(clock, incoming.clock);
    }
  }

  lemma ReceivedKeeps(s: State, es: set<nat>, vs: seq<Version>, e: nat)
    requires Keeps(s, es, vs) && e < |s.log|
    ensures Keeps(s, es + {e}, Received(vs, s.log[e].version))
  {
    var incoming := s.log[e].version;
    forall v | IsSeen(s, es, v) ensures IsSeen(s, es + {e}, v) {
      var d :| d in es && d < |s.log| && s.log[d].version == v;
      assert d in es + {e};
    }
    if !Covered(vs, incoming.clock) {
      var vs' := Siblings(vs, incoming.clock) + [incoming];
      SiblingsApart(vs, incoming.clock);
      assert IsSeen(s, es + {e}, incoming);
      assert vs'[|vs'| - 1] == incoming && Leq(incoming.clock, incoming.clock);
      forall d | d in es + {e} && d < |s.log| ensures Covered(vs', ClockOf(s, d)) {
        if d in es && s.log[d].version != incoming {
          CoverageSurvives(vs, incoming, ClockOf(s, d));
        }
      }
      AntichainGrows(Siblings(vs, incoming.clock), incoming);
    }
  }

  /** What only the log decides does not change with it. */
  lemma SameLog(s: State, s': State)
    requires s.log == s'.log && Exact(s) && Attained(s) && Numbered(s) && Causal(s)
    ensures Exact(s') && Attained(s') && Numbered(s') && Causal(s')
  {
    SameLogExact(s, s');
    forall e, n | 0 <= e < |s.log| && Count(ClockOf(s', e), n) > 0 ensures IsWrite(s', n, Count(ClockOf(s', e), n)) {
      SameWrites(s, s', n, Count(ClockOf(s, e), n));
    }
  }

  lemma SameLogExact(s: State, s': State)
    requires s.log == s'.log && Exact(s)
    ensures Exact(s') && forall d :: 0 <= d < |s.log| ==> Ord(s', d) == Ord(s, d)
  {
    assert forall d :: 0 <= d < |s.log| ==> Ord(s', d) == Ord(s, d);
    forall d, e | 0 <= d < |s.log| && 0 <= e < |s.log|
      ensures d in History(s', e) <==> Ord(s', d) <= Count(ClockOf(s', e), s'.log[d].node)
    {
      assert d in History(s, e) <==> Ord(s, d) <= Count(ClockOf(s, e), s.log[d].node);
    }
  }

  lemma SameWrites(s: State, s': State, n: Str, ord: nat)
    requires s.log <= s'.log && IsWrite(s, n, ord)
    ensures IsWrite(s', n, ord)
  {
    var d :| 0 <= d < |s.log| && s.log[d].node == n && Ord(s, d) == ord;
    assert s'.log[d] == s.log[d] && Ord(s', d) == ord;
  }

  lemma DeliverKeepsInv(ids: seq<Str>, s: State, i: nat, e: nat, s': State)
    requires Inv(ids, s) && Step(ids, s, Deliver(i, e), s')
    ensures Inv(ids, s')
  {
    SameLog(s, s');
    DeliverSees(ids, s, i, e, s');
    DeliverKeepsAll(ids, s, i, e, s');
  }

  lemma DeliverSees(ids: seq<Str>, s: State, i: nat, e: nat, s': State)
    requires Fits(ids, s) && OwnSeen(ids, s) && Step(ids, s, Deliver(i, e), s')
    ensures Fits(ids, s') && OwnSeen(ids, s')
  {
  }

  lemma DeliverKeepsAll(ids: seq<Str>, s: State, i: nat, e: nat, s': State)
    requires Fits(ids, s) && Step(ids, s, Deliver(i, e), s')
    requires forall j :: 0 <= j < |ids| ==> Keeps(s, s.seen[j], s.held[j])
    ensures Fits(ids, s') && forall j :: 0 <= j < |ids| ==> Keeps(s', s'.seen[j], s'.held[j])
  {
    forall j | 0 <= j < |ids| ensures Keeps(s', s'.seen[j], s'.held[j]) {
      DeliverKeepsAt(ids, s, i, e, s', j);
    }
  }

  lemma DeliverKeepsAt(ids: seq<Str>, s: State, i: nat, e: nat, s': State, j: nat)
    requires Fits(ids, s) && Step(ids, s, Deliver(i, e), s') && j < |ids| && Keeps(s, s.seen[j], s.held[j])
    ensures Keeps(s', s'.seen[j], s'.held[j])
  {
    DeliverKeeps(s, s', s.seen[j], s.held[j], e);
  }

  lemma DeliverKeeps(s: State, s': State, es: set<nat>, vs: seq<Version>, e: nat)
    requires s.log == s'.log && Keeps(s, es, vs) && e < |s.log|
    ensures Keeps(s', es, vs) && Keeps(s', es + {e}, Received(vs, s.log[e].version))
  {
    ReceivedKeeps(s, es, vs, e);
    SameLogKeeps(s, s', es, vs);
    SameLogKeeps(s, s', es + {e}, Received(vs, s.log[e].version));
  }

  lemma SameLogKeeps(s: State, s': State, es: set<nat>, vs: seq<Version>)
    requires s.log == s'.log
    ensures Keeps(s, es, vs) == Keeps(s', es, vs)
  {
    assert forall v :: IsSeen(s, es, v) == IsSeen(s', es, v);
    assert forall e :: e in es && e < |s.log| ==> ClockOf(s, e) == ClockOf(s', e);
  }

  /** What the merge of the held clocks knows of the writes so far: exactly their histories. */
  lemma JoinIsExact(ids: seq<Str>, s: State, i: nat, c: Clock, d: nat)
    requires Inv(ids, s) && i < |ids| && IsJoin(c, s.held[i]) && d < |s.log|
    ensures d in Histories(s, s.seen[i]) <==> Ord(s, d) <= Count(c, s.log[d].node)
  {
    if d in Histories(s, s.seen[i]) {
      JoinCounts(ids, s, i, c, d);
    } else {
      JoinCountsOnly(ids, s, i, c, d);
    }
  }

  lemma JoinCounts(ids: seq<Str>, s: State, i: nat, c: Clock, d: nat)
    requires Inv(ids, s) && i < |ids| && IsJoin(c, s.held[i]) && d < |s.log| && d in Histories(s, s.seen[i])
    ensures Ord(s, d) <= Count(c, s.log[d].node)
  {
    var vs := s.held[i];
    var e :| e in s.seen[i] && d in History(s, e);
    var f := CoveredBy(ids, s, i, e);
    var j :| 0 <= j < |vs| && vs[j] == s.log[f].version;
    assert Leq(vs[j].clock, c);
    HistoryCarries(s, d, e, f);
  }

  lemma HistoryCarries(s: State, d: nat, e: nat, f: nat)
    requires Causal(s) && Exact(s) && d < |s.log| && e < |s.log| && f < |s.log|
    requires d in History(s, e) && e in History(s, f)
    ensures Ord(s, d) <= Count(ClockOf(s, f), s.log[d].node)
  {
    assert d in History(s, f);
  }

  lemma JoinCountsOnly(ids: seq<Str>, s: State, i: nat, c: Clock, d: nat)
    requires Inv(ids, s) && i < |ids| && IsJoin(c, s.held[i]) && d < |s.log| && d !in Histories(s, s.seen[i])
    ensures Ord(s, d) > Count(c, s.log[d].node)
  {
    var es, vs, n := s.seen[i], s.held[i], s.log[d].node;
    assert Ord(s, d) >= 1;
    if Count(c, n) > 0 {
      var j :| 0 <= j < |vs| && Count(vs[j].clock, n) == Count(c, n);
      assert Keeps(s, es, vs) && IsSeen(s, es, vs[j]);
      var e :| e in es && e < |s.log| && s.log[e].version == vs[j];
      assert d !in History(s, e);
    }
  }

  /** A replica's own count is the number of its latest write. */
  lemma OwnCountIsLatest(ids: seq<Str>, s: State, i: nat, c: Clock, e: nat)
    requires Inv(ids, s) && i < |ids| && IsJoin(c, s.held[i]) && e < |s.log|
    ensures s.log[e].node == ids[i] ==> Ord(s, e) <= Count(c, ids[i])
    ensures Count(ClockOf(s, e), ids[i]) <= Count(c, ids[i])
  {
    if s.log[e].node == ids[i] {
      assert e in History(s, e) && e in Histories(s, s.seen[i]);
      JoinIsExact(ids, s, i, c, e);
    }
    if Count(ClockOf(s, e), ids[i]) > 0 {
      assert IsWrite(s, ids[i], Count(ClockOf(s, e), ids[i]));
      var w :| 0 <= w < |s.log| && s.log[w].node == ids[i] && Ord(s, w) == Count(ClockOf(s, e), ids[i]);
      assert w in History(s, w) && w in Histories(s, s.seen[i]);
      JoinIsExact(ids, s, i, c, w);
    }
  }

  /** Every count of the merge is that of a write that happened. */
  lemma JoinIsAttained(ids: seq<Str>, s: State, i: nat, c: Clock, n: Str)
    requires Inv(ids, s) && i < |ids| && IsJoin(c, s.held[i]) && Count(c, n) > 0
    ensures IsWrite(s, n, Count(c, n))
  {
    var vs := s.held[i];
    assert Keeps(s, s.seen[i], vs);
    var j :| 0 <= j < |vs| && Count(vs[j].clock, n) == Count(c, n);
    assert IsSeen(s, s.seen[i], vs[j]);
    var e :| e in s.seen[i] && e < |s.log| && s.log[e].version == vs[j];
    assert Count(ClockOf(s, e), n) > 0;
  }

  ghost predicate Distinct(ids: seq<Str>) {
    forall j, k :: 0 <= j < k < |ids| ==> ids[j] != ids[k]
  }

  /** A write at replica i of version v, whose clock is the merge c and one more. */
  ghost predicate Writes(ids: seq<Str>, s: State, i: nat, v: Version, c: Clock) {
    Inv(ids, s) && Distinct(ids) && i < |ids| && IsJoin(c, s.held[i]) && v.clock == Increment(c, ids[i])
  }

  lemma OldEvents(ids: seq<Str>, s: State, i: nat, v: Version, e: nat)
    requires Fits(ids, s) && i < |ids| && e < |s.log|
    ensures var s' := AfterWrite(ids, s, i, v);
            ClockOf(s', e) == ClockOf(s, e) && Ord(s', e) == Ord(s, e) && History(s', e) == History(s, e)
  {
  }

  lemma NewIsExact(ids: seq<Str>, s: State, i: nat, v: Version, c: Clock, d: nat)
    requires Writes(ids, s, i, v, c) && d < |s.log|
    ensures d in Histories(s, s.seen[i]) <==> Ord(s, d) <= Count(v.clock, s.log[d].node)
    ensures Count(v.clock, ids[i]) > Count(ClockOf(s, d), ids[i])
    ensures s.log[d].node == ids[i] ==> Ord(s, d) < Count(v.clock, ids[i])
  {
    JoinIsExact(ids, s, i, c, d);
    OwnCountIsLatest(ids, s, i, c, d);
  }

  lemma WriteIsExactAt(ids: seq<Str>, s: State, i: nat, v: Version, c: Clock, d: nat, e: nat)
    requires Writes(ids, s, i, v, c) && d <= |s.log| && e <= |s.log|
    ensures var s' := AfterWrite(ids, s, i, v); d in History(s', e) <==>
      Ord(s', d) <= Count(ClockOf(s', e), s'.log[d].node)
  {
    if d < |s.log| {
      OldEvents(ids, s, i, v, d);
      NewIsExact(ids, s, i, v, c, d);
    }
    if e < |s.log| {
      OldEvents(ids, s, i, v, e);
      NewIsExact(ids, s, i, v, c, e);
    }
  }

  lemma WriteIsExact(ids: seq<Str>, s: State, i: nat, v: Version, c: Clock)
    requires Writes(ids, s, i, v, c)
    ensures Exact(AfterWrite(ids, s, i, v))
  {
    var s' := AfterWrite(ids, s, i, v);
    forall d, e | 0 <= d < |s'.log| && 0 <= e < |s'.log|
      ensures d in History(s', e) <==> Ord(s', d) <= Count(ClockOf(s', e), s'.log[d].node)
    {
      WriteIsExactAt(ids, s, i, v, c, d, e);
    }
  }

  lemma WriteIsNumbered(ids: seq<Str>, s: State, i: nat, v: Version, c: Clock)
    requires Writes(ids, s, i, v, c)
    ensures Numbered(AfterWrite(ids, s, i, v))
  {
    var s' := AfterWrite(ids, s, i, v);
    forall d | 0 <= d < |s.log|
      ensures Ord(s', d) == Ord(s, d) && (s'.log[d].node == ids[i] ==> Ord(s', d) != Ord(s', |s.log|)) {
      OldEvents(ids, s, i, v, d);
      NewIsExact(ids, s, i, v, c, d);
    }
  }

  lemma WriteIsAttained(ids: seq<Str>, s: State, i: nat, v: Version, c: Clock)
    requires Writes(ids, s, i, v, c)
    ensures Attained(AfterWrite(ids, s, i, v))
  {
    var s', new_ := AfterWrite(ids, s, i, v), |s.log|;
    forall e, n | 0 <= e < |s'.log| && Count(ClockOf(s', e), n) > 0 ensures IsWrite(s', n, Count(ClockOf(s', e), n)) {
      if e < new_ {
        OldEvents(ids, s, i, v, e);
        SameWrites(s, s', n, Count(ClockOf(s, e), n));
      } else if n == ids[i] {
        assert s'.log[new_].node == n && Ord(s', new_) == Count(v.clock, n);
      } else {
        JoinIsAttained(ids, s, i, c, n);
        SameWrites(s, s', n, Count(c, n));
      }
    }
  }

  lemma HistoriesClosed(s: State, es: set<nat>, d: nat)
    requires Causal(s) && (forall e :: e in es ==> e < |s.log|) && d in Histories(s, es)
    ensures d < |s.log| && s.log[d].past <= Histories(s, es)
  {
    var e :| e in es && d in History(s, e);
    assert d < e || d == e;
    assert s.log[d].past <= History(s, e);
    assert forall x :: x in History(s, e) ==> x in Histories(s, es);
  }

  lemma WriteIsCausal(ids: seq<Str>, s: State, i: nat, v: Version)
    requires Fits(ids, s) && Causal(s) && i < |ids|
    ensures Causal(AfterWrite(ids, s, i, v))
  {
    var s' := AfterWrite(ids, s, i, v);
    forall d, e | 0 <= e < |s'.log| && d in s'.log[e].past ensures d < e && s'.log[d].past <= s'.log[e].past {
      if e < |s.log| {
        assert d in s.log[e].past;
      } else {
        HistoriesClosed(s, s.seen[i], d);
      }
    }
  }

  /** What a replica keeps stays right while others write. */
  lemma KeepsGrows(s: State, s': State, es: set<nat>, vs: seq<Version>)
    requires s.log <= s'.log && Keeps(s, es, vs) && forall e :: e in es ==> e < |s.log|
    ensures Keeps(s', es, vs)
  {
    forall w | w in vs ensures IsSeen(s', es, w) {
      assert IsSeen(s, es, w);
      var e :| e in es && e < |s.log| && s.log[e].version == w;
      assert s'.log[e].version == w;
    }
    forall e | e in es ensures Covered(vs, ClockOf(s', e)) {
      assert ClockOf(s', e) == ClockOf(s, e);
    }
  }

  /** A write covers all its replica had seen. */
  lemma WriteCovers(s: State, es: set<nat>, vs: seq<Version>, id: Str, v: Version, c: Clock, e: nat)
    requires Keeps(s, es, vs) && IsJoin(c, vs) && v.clock == Increment(c, id) && e in es && e < |s.log|
    ensures Covered([v], ClockOf(s, e))
  {
    var k :| 0 <= k < |vs| && Leq(ClockOf(s, e), vs[k].clock);
    assert Leq(vs[k].clock, c) && Leq(c, v.clock);
    assert Leq(ClockOf(s, e), [v][0].clock);
  }

  lemma WriteKeeps(ids: seq<Str>, s: State, i: nat, v: Version, c: Clock)
    requires Fits(ids, s) && i < |ids| && Keeps(s, s.seen[i], s.held[i]) && IsJoin(c, s.held[i]) &&
      v.clock == Increment(c, ids[i])
    ensures var s' := AfterWrite(ids, s, i, v); Keeps(s', s'.seen[i], s'.held[i])
  {
    var s' := AfterWrite(ids, s, i, v);
    assert |s.log| in s'.seen[i] && s'.log[|s.log|].version == v && Leq(v.clock, [v][0].clock);
    assert IsSeen(s', s'.seen[i], v);
    forall e | e in s'.seen[i] ensures Covered([v], ClockOf(s', e)) {
      if e in s.seen[i] {
        OldEvents(ids, s, i, v, e);
        WriteCovers(s, s.seen[i], s.held[i], ids[i], v, c, e);
      }
    }
  }

  lemma WriteOwnSeen(ids: seq<Str>, s: State, i: nat, v: Version)
    requires Fits(ids, s) && Distinct(ids) && i < |ids| && OwnSeen(ids, s)
    ensures var s' := AfterWrite(ids, s, i, v); Fits(ids, s') && OwnSeen(ids, s')
  {
    var s' := AfterWrite(ids, s, i, v);
    forall e, j | 0 <= e < |s'.log| && 0 <= j < |ids| && s'.log[e].node == ids[j] ensures e in s'.seen[j] {
      assert e < |s.log| ==> s.log[e].node == ids[j] && e in s.seen[j];
    }
  }

  lemma AfterWriteInv(ids: seq<Str>, s: State, i: nat, v: Version, c: Clock)
    requires Writes(ids, s, i, v, c)
    ensures Inv(ids, AfterWrite(ids, s, i, v))
  {
    var s' := AfterWrite(ids, s, i, v);
    WriteIsExact(ids, s, i, v, c);
    WriteIsNumbered(ids, s, i, v, c);
    WriteIsAttained(ids, s, i, v, c);
    WriteIsCausal(ids, s, i, v);
    WriteOwnSeen(ids, s, i, v);
    forall j | 0 <= j < |ids| ensures Keeps(s', s'.seen[j], s'.held[j]) {
      assert Keeps(s, s.seen[j], s.held[j]);
      if j == i {
        WriteKeeps(ids, s, i, v, c);
      } else {
        KeepsGrows(s, s', s.seen[j], s.held[j]);
      }
    }
  }

  lemma WriteKeepsInv(ids: seq<Str>, s: State, i: nat, value: Str, s': State)
    requires Inv(ids, s) && Distinct(ids) && Step(ids, s, Write(i, value), s')
    ensures Inv(ids, s')
  {
    var v :| Wrote(s.held[i], ids[i], value, [v]) && s' == AfterWrite(ids, s, i, v);
    var c :| IsJoin(c, s.held[i]) && [v] == [Version(value, Increment(c, ids[i]))];
    assert [v][0] == Version(value, Increment(c, ids[i]));
    AfterWriteInv(ids, s, i, v, c);
  }

  ghost predicate Next(ids: seq<Str>, s: State, s': State) {
    Fits(ids, s) && exists a :: Step(ids, s, a, s')
  }

  lemma StepKeepsInv(ids: seq<Str>, s: State, s': State)
    requires Inv(ids, s) && Distinct(ids) && Next(ids, s, s')
    ensures Inv(ids, s')
  {
    var a :| Step(ids, s, a, s');
    match a {
      case Write(i, value) => WriteKeepsInv(ids, s, i, value, s');
      case Deliver(i, e) => DeliverKeepsInv(ids, s, i, e, s');
    }
  }

  /** A write is logged under its node with its value, and is what its replica then holds; nothing
      else changes. */
  lemma WriteIsLogged(ids: seq<Str>, s: State, i: nat, value: Str, s': State)
    requires Fits(ids, s) && Step(ids, s, Write(i, value), s')
    ensures |s'.log| == |s.log| + 1 && s.log <= s'.log
    ensures var e := s'.log[|s.log|];
            && e.node == ids[i] && e.version.value == value && s'.held[i] == [e.version]
            && s'.seen[i] == s.seen[i] + {|s.log|}
    ensures forall j :: 0 <= j < |ids| && j != i ==> s'.held[j] == s.held[j] && s'.seen[j] == s.seen[j]
  {
  }

  /** In every run what a replica holds was written, and it has seen that. */
  lemma RunsHoldWhatWasWritten(ids: seq<Str>, run: seq<State>, i: nat, v: Version) returns (e: nat)
    requires Distinct(ids) && IsRun(ids, run) && i < |ids|
    requires i < |run[|run| - 1].held| && v in run[|run| - 1].held[i]
    ensures var s := run[|run| - 1]; |s.seen| == |ids| && e in s.seen[i] && e < |s.log| && s.log[e].version == v
  {
    RunsKeepInv(ids, run);
    var s := run[|run| - 1];
    assert IsSeen(s, s.seen[i], v);
    e :| e in s.seen[i] && e < |s.log| && s.log[e].version == v;
  }

  /** The states of a run, from nothing written to the last. */
  ghost predicate IsRun(ids: seq<Str>, run: seq<State>) {
    && run != []
    && if |run| == 1 then Initial(ids, run[0])
       else IsRun(ids, run[..|run| - 1]) && Next(ids, run[|run| - 2], run[|run| - 1])
  }

  lemma {:induction false} RunsKeepInv(ids: seq<Str>, run: seq<State>)
    requires Distinct(ids) && IsRun(ids, run)
    ensures Inv(ids, run[|run| - 1])
  {
    if |run| > 1 {
      RunsKeepInv(ids, run[..|run| - 1]);
      StepKeepsInv(ids, run[|run| - 2], run[|run| - 1]);
    }
  }

  /** In every run the clocks of two writes compare as their causal pasts do. */
  lemma RunsOrderByCausality(ids: seq<Str>, run: seq<State>, d: nat, e: nat)
    requires Distinct(ids) && IsRun(ids, run)
    requires d < |run[|run| - 1].log| && e < |run[|run| - 1].log|
    ensures var s := run[|run| - 1];
            && (Compared(ClockOf(s, d), ClockOf(s, e)) == Before <==> d in s.log[e].past)
            && (Compared(ClockOf(s, d), ClockOf(s, e)) == Equal <==> d == e)
            && (Compared(ClockOf(s, d), ClockOf(s, e)) == Concurrent <==>
                  d != e && d !in s.log[e].past && e !in s.log[d].past)
  {
    var s := run[|run| - 1];
    RunsKeepInv(ids, run);
    ClocksKnowCausality(ids, s, d, e);
    ClocksKnowCausality(ids, s, e, e);
  }

  /** In every run a replica holds exactly the versions no other it saw supersedes. */
  lemma RunsHoldTheMaximal(ids: seq<Str>, run: seq<State>, i: nat, e: nat)
    requires Distinct(ids) && IsRun(ids, run) && i < |ids| && e < |run[|run| - 1].log|
    ensures var s := run[|run| - 1];
            |s.seen| == |s.held| == |ids|
            && (e in s.seen[i] && s.log[e].version in s.held[i] <==> Maximal(s, s.seen[i], e))
  {
    RunsKeepInv(ids, run);
    HeldAreMaximal(ids, run[|run| - 1], i, e);
  }

  /** In every run two replicas that saw the same writes hold the same siblings. */
  lemma RunsConverge(ids: seq<Str>, run: seq<State>, i: nat, j: nat)
    requires Distinct(ids) && IsRun(ids, run) && i < |ids| && j < |ids|
    ensures var s := run[|run| - 1];
            |s.seen| == |s.held| == |ids| && (s.seen[i] == s.seen[j] ==> multiset(s.held[i]) == multiset(s.held[j]))
  {
    RunsKeepInv(ids, run);
    var s := run[|run| - 1];
    if s.seen[i] == s.seen[j] {
      SameSeenSameHeld(ids, s, i, j);
    }
  }
}

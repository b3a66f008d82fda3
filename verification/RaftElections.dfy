/** Whole elections of the Raft simulator, run without interruption: what one
    vote request does, what the loop over the peers adds up to, and what a pass
    over all expired timers leaves behind. */
module RaftElections {
  import opened RaftModel

  /** A node that leads, or whose timer has not run out. */
  predicate Timely(n: NodeState, now: int) {
    n.role == Leader || n.deadline > now
  }

  // --------------------------------------------------------------- one vote request

  /** One peer's turn in the vote-collecting loop: the partition check, then the request. */
  function Ask(s: State, c: nat, deadline: int): State {
    var s1 := Apply(s, Campaigning(c, 0));
    if c >= |s1.campaigns| || s1.campaigns[c].pc.CheckPeer? then s1 else Apply(s1, Campaigning(c, deadline))
  }

  /** A campaign about to turn to a peer. */
  ghost predicate AtPeer(s: State, c: nat, peer: nat) {
    c < |s.campaigns| && s.campaigns[c].pc == CheckPeer(peer) && peer < |s.nodes| && s.campaigns[c].id < |s.nodes|
  }

  predicate Reaches(s: State, id: nat, peer: nat) {
    peer != id && peer !in s.partitioned
  }

  /** The vote that the peer gives. */
  predicate Grants(s: State, id: nat, term: nat, peer: nat) {
    peer < |s.nodes| && Reaches(s, id, peer) && Grant(s.nodes[peer], term, id, 0).1
  }

  lemma AskEffect(s: State, c: nat, peer: nat, deadline: int)
    requires AtPeer(s, c, peer)
    ensures var s', k := Ask(s, c, deadline), s.campaigns[c];
            && s'.campaigns == s.campaigns[c := Counted(k, peer, Grants(s, k.id, k.term, peer))]
            && s'.partitioned == s.partitioned && s'.beats == s.beats
            && s'.nodes ==
                 if Reaches(s, k.id, peer) then s.nodes[peer := Grant(s.nodes[peer], k.term, k.id, deadline).0]
                     else s.nodes
  {
  }

  // -------------------------------------------------------------------- the whole loop

  /** A node that would give its vote: behind the term, or in it and not promised elsewhere. */
  predicate Willing(n: NodeState, term: nat, id: nat) {
    n.term < term || (n.term == term && (n.votedFor == NOBODY || n.votedFor == id))
  }

  /** The candidate and the willing peers in its reach among the first `k` nodes. */
  function Supporters(s: State, id: nat, term: nat, k: nat): nat
    requires k <= |s.nodes|
  {
    if k == 0 then 1
    else Supporters(s, id, term, k - 1) + if Reaches(s, id, k - 1) && Willing(s.nodes[k - 1], term, id) then 1 else 0
  }

  /** The candidate and the peers in its reach among the first `k` nodes. */
  function Voters(partitioned: set<nat>, id: nat, k: nat): nat {
    if k == 0 then 1 else Voters(partitioned, id, k - 1) + if k - 1 != id && k - 1 !in partitioned then 1 else 0
  }

  /** Every peer within reach is behind `term`. */
  ghost predicate Ahead(s: State, id: nat, term: nat) {
    forall i :: 0 <= i < |s.nodes| && Reaches(s, id, i) ==> s.nodes[i].term < term
  }

  /** Where all are behind, all in reach support. */
  lemma {:induction false} AheadHasAll(s: State, id: nat, term: nat, k: nat)
    requires Ahead(s, id, term) && k <= |s.nodes|
    ensures Supporters(s, id, term, k) == Voters(s.partitioned, id, k)
  {
    if k == 0 {
    } else {
      AheadHasAll(s, id, term, k - 1);
    }
  }

  /** What an election in `term` by `id` leaves of a peer it has asked. */
  ghost predicate Polled(n: NodeState, n': NodeState, term: nat, id: nat, now: int) {
    if Willing(n, term, id) then
      && n'.term == term && n'.votedFor == id && n'.deadline > now
      && n'.role == if n.term < term then Follower else n.role
    else n' == n
  }

  lemma GrantIsPolled(n: NodeState, term: nat, id: nat, deadline: int, now: int)
    requires deadline > now
    ensures Grant(n, term, id, deadline).1 == Willing(n, term, id)
    ensures Polled(n, Grant(n, term, id, deadline).0, term, id, now)
  {
  }

  /** What holds when campaign `c`, begun at `s0` by `id`, has `votes` votes and has come to `peer`. */
  ghost predicate Collecting(s0: State, s: State, c: nat, id: nat, term: nat, votes: nat, peer: nat, now: int) {
    && |s.nodes| == |s0.nodes| && s.partitioned == s0.partitioned && id < |s.nodes| && peer <= |s.nodes|
    && c < |s0.campaigns| == |s.campaigns| &&
      (forall d :: 0 <= d < |s.campaigns| && d != c ==> s.campaigns[d] == s0.campaigns[d])
    && s.campaigns[c].(granted := {}) == Campaign(id, term, votes, {}, CheckPeer(peer))
    && s.nodes[id] == s0.nodes[id]
    && (forall i :: peer <= i < |s.nodes| ==> s.nodes[i] == s0.nodes[i])
    && (forall i :: 0 <= i < |s.nodes| && Timely(s0.nodes[i], now) ==> Timely(s.nodes[i], now))
    && votes == Supporters(s0, id, term, peer)
    && (forall i :: 0 <= i < peer ==>
          if Reaches(s0, id, i) then Polled(s0.nodes[i], s.nodes[i], term, id, now) else s.nodes[i] == s0.nodes[i])
  }

  lemma CollectingStep(s0: State, s: State, c: nat, id: nat, term: nat, votes: nat, peer: nat, now: int, deadline: int)
    requires Collecting(s0, s, c, id, term, votes, peer, now) && peer < |s.nodes| && deadline > now
    ensures Collecting(s0, Ask(s, c, deadline), c, id, term, votes + if Grants(s, id, term, peer) then 1 else 0,
      peer + 1, now)
  {
    AskEffect(s, c, peer, deadline);
    GrantIsPolled(s.nodes[peer], term, id, deadline, now);
  }

  /** The last sections: the re-check, and the end. */
  function Count(s: State, c: nat): State {
    Apply(Apply(s, Campaigning(c, 0)), Campaigning(c, 0))
  }

  lemma CountEffect(s: State, c: nat)
    requires c < |s.campaigns| && s.campaigns[c].pc == CheckPeer(|s.nodes|) && s.campaigns[c].id < |s.nodes|
    ensures var s', k := Count(s, c), s.campaigns[c];
            var me := s.nodes[k.id];
            && s'.campaigns == s.campaigns[c := k.(pc := Over)] && s'.partitioned == s.partitioned
            && s'.nodes ==
                 if me.role == Candidate && me.term == k.term && k.votes >= Majority(|s.nodes|)
                 then s.nodes[k.id := me.(role := Leader)] else s.nodes
  {
  }

  // ------------------------------------------------------------------ a whole election

  /** Not cut off, and supported by more than half of the nodes. */
  ghost predicate Wins(s: State, id: nat) {
    id < |s.nodes| && id !in s.partitioned && 2 * Supporters(s, id, s.nodes[id].term + 1, |s.nodes|) > |s.nodes|
  }

  /** A reachable node of a term no reachable peer exceeds, with more than half of the nodes in
      reach, wins. */
  lemma AheadWins(s: State, id: nat)
    requires id < |s.nodes| && id !in s.partitioned && Ahead(s, id, s.nodes[id].term + 1)
    ensures Wins(s, id) <==> 2 * Voters(s.partitioned, id, |s.nodes|) > |s.nodes|
  {
    AheadHasAll(s, id, s.nodes[id].term + 1, |s.nodes|);
  }

  /** One more election on record, and over; others stay as they were. */
  ghost predicate OneMore(s: State, t: State, id: nat) {
    && |t.campaigns| == |s.campaigns| + 1
    && (forall d :: 0 <= d < |s.campaigns| ==> t.campaigns[d] == s.campaigns[d])
    && t.campaigns[|s.campaigns|].id == id && t.campaigns[|s.campaigns|].pc == Over
  }

  /** What an election of `id` does: it is held and over, in a term of its own, which the node
      leads exactly when it wins. A peer in reach is polled; nobody else is touched. */
  ghost predicate Held(s: State, t: State, id: nat, now: int) {
    && id < |s.nodes| == |t.nodes| && t.partitioned == s.partitioned && OneMore(s, t, id)
    && t.nodes[id].term == s.nodes[id].term + 1 && t.nodes[id].votedFor == id && t.nodes[id].deadline > now
    && t.nodes[id].role == (if Wins(s, id) then Leader else Candidate)
    && (forall i :: 0 <= i < |s.nodes| && i != id ==>
          if id !in s.partitioned && i !in s.partitioned
          then Polled(s.nodes[i], t.nodes[i], s.nodes[id].term + 1, id, now) else t.nodes[i] == s.nodes[i])
    && (forall i :: 0 <= i < |s.nodes| && (i == id || Timely(s.nodes[i], now)) ==> Timely(t.nodes[i], now))
  }

  /** The state after the first section: the node has moved to a new term and voted for itself. */
  ghost predicate Started(s: State, s1: State, id: nat, now: int) {
    exists deadline :: deadline > now && s1 == Apply(s, Begin(id, deadline))
  }

  lemma CutOffHeld(s: State, s1: State, id: nat, now: int)
    requires id < |s.nodes| && Started(s, s1, id, now) && id in s.partitioned
    ensures Held(s, Apply(s1, Campaigning(|s.campaigns|, 0)), id, now)
  {
  }

  lemma CollectingStart(s: State, s1: State, id: nat, now: int)
    requires id < |s.nodes| && Started(s, s1, id, now) && id !in s.partitioned
    ensures var s2 := Apply(s1, Campaigning(|s.campaigns|, 0));
            && Collecting(s2, s2, |s.campaigns|, id, s.nodes[id].term + 1, 1, 0, now)
            && Opened(s, s2, id, now)
  {
  }

  /** The state when the loop over the peers begins. */
  ghost predicate Opened(s: State, s2: State, id: nat, now: int) {
    && id < |s.nodes| == |s2.nodes| && s2.partitioned == s.partitioned && id !in s.partitioned
    && |s2.campaigns| == |s.campaigns| + 1
    && (forall d :: 0 <= d < |s.campaigns| ==> s2.campaigns[d] == s.campaigns[d])
    && s2.nodes[id].role == Candidate && s2.nodes[id].term == s.nodes[id].term + 1 && s2.nodes[id].votedFor == id
    && s2.nodes[id].deadline > now
    && (forall i :: 0 <= i < |s.nodes| && i != id ==> s2.nodes[i] == s.nodes[i])
  }

  lemma ElectionHeld(s: State, s2: State, s3: State, id: nat, votes: nat, now: int)
    requires Opened(s, s2, id, now)
    requires Collecting(s2, s3, |s.campaigns|, id, s.nodes[id].term + 1, votes, |s3.nodes|, now)
    ensures Held(s, Count(s3, |s.campaigns|), id, now)
  {
    CountEffect(s3, |s.campaigns|);
    SameSupporters(s, s2, id, s.nodes[id].term + 1, |s.nodes|);
  }

  /** The candidate's own first section does not change who supports it. */
  lemma {:induction false} SameSupporters(s: State, s2: State, id: nat, term: nat, k: nat)
    requires |s2.nodes| == |s.nodes| && s2.partitioned == s.partitioned && k <= |s.nodes|
    requires forall i :: 0 <= i < |s.nodes| && i != id ==> s2.nodes[i] == s.nodes[i]
    ensures Supporters(s2, id, term, k) == Supporters(s, id, term, k)
  {
    if k == 0 {
    } else {
      SameSupporters(s, s2, id, term, k - 1);
    }
  }

  // -------------------------------------------------------- a pass over expired timers

  /** What holds when the pass over expired timers begun at `s0` has come to node `id`. */
  ghost predicate Swept(s0: State, s: State, id: nat, l: nat, now: int) {
    && |s.nodes| == |s0.nodes| && s.partitioned == s0.partitioned && Grows(s0, s)
    && (forall i :: 0 <= i < |s.nodes| && i < id ==> Timely(s.nodes[i], now))
    && (forall c :: |s0.campaigns| <= c < |s.campaigns| ==> s.campaigns[c].pc == Over)
    && (Stable(s0, l) && Quiet(s0, l, now) ==> KeepsLeader(s0, s, l) && Quiet(s, l, now))
  }

  /** A stable leader is timely and its quiet followers are too, so a node whose timer ran out is cut off. */
  lemma ExpiredIsCutOff(s: State, id: nat, l: nat, now: int)
    requires id < |s.nodes| && !Timely(s.nodes[id], now) && Stable(s, l) && Quiet(s, l, now)
    ensures id in s.partitioned
  {
  }

  lemma SweptByElection(s0: State, s: State, t: State, id: nat, l: nat, now: int)
    requires Swept(s0, s, id, l, now) && Held(s, t, id, now) && !Timely(s.nodes[id], now)
    ensures Swept(s0, t, id + 1, l, now)
  {
    if Stable(s0, l) && Quiet(s0, l, now) {
      ExpiredIsCutOff(s, id, l, now);
      IsolatedElection(s, t, id, l, now);
      KeepsLeaderTrans(s0, s, t, l);
    }
  }
}

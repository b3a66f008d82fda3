/** The simulator itself: node objects updated in place, one section after the
    other. Every method advances `state` through the atomic steps of
    `RaftModel`, so whatever holds of all interleavings holds here; and because
    a `Step` is sequential, a leader nobody outranks is proved to stay. */
module RaftCluster {
  import opened RaftElections
  import opened RaftModel

  // Durations in nanoseconds.
  const MIN_TIMEOUT := 150_000_000
  const MAX_TIMEOUT := 300_000_000
  const TICK := 10_000_000

  class Node {
    const id: nat
    var role: Role
    var term: nat
    var votedFor: int
    var electionDeadline: int

    constructor (id: nat, deadline: int)
      ensures this.id == id && Now() == NodeState(Follower, 0, NOBODY, deadline)
    {
      this.id := id;
      role, term, votedFor, electionDeadline := Follower, 0, NOBODY, deadline;
    }

    ghost function Now(): NodeState
      reads this
    {
      NodeState(role, term, votedFor, electionDeadline)
    }
  }

  class Cluster {
    const nodes: seq<Node>
    var partitioned: set<nat>
    var now: int

    ghost const first: seq<int>      // the deadlines drawn at the start
    ghost var run: seq<Action>       // the sections executed so far
    ghost var state: State           // where they lead

    ghost predicate Valid()
      reads this, nodes
    {
      && (forall i, j :: 0 <= i < j < |nodes| ==> nodes[i] != nodes[j])
      && state == Exec(Init(first), run)
      && |state.nodes| == |nodes|
      && (forall i :: 0 <= i < |nodes| ==> nodes[i].id == i && state.nodes[i] == nodes[i].Now())
      && state.partitioned == partitioned
    }

    constructor (size: nat)
      ensures Valid() && |nodes| == size && fresh(nodes) && partitioned == {} && run == []
    {
      var ns: seq<Node> := [];
      ghost var ds: seq<int> := [];
      for i := 0 to size
        invariant |ns| == |ds| == i && fresh(ns)
        invariant forall j :: 0 <= j < i ==> ns[j].id == j && ns[j].Now() == NodeState(Follower, 0, NOBODY, ds[j])
        invariant forall j, k :: 0 <= j < k < i ==> ns[j] != ns[k]
      {
        var d :| MIN_TIMEOUT <= d < MAX_TIMEOUT;
        var n := new Node(i, d);
        ns := ns + [n];
        ds := ds + [d];
      }
      nodes, partitioned, now := ns, {}, 0;
      first, run, state := ds, [], Init(ds);
    }

    /** All is recorded but what the current section has done to `n`. */
    ghost predicate ValidBut(n: Node)
      reads this, nodes
    {
      && (forall i, j :: 0 <= i < j < |nodes| ==> nodes[i] != nodes[j])
      && state == Exec(Init(first), run)
      && |state.nodes| == |nodes|
      && (forall i :: 0 <= i < |nodes| ==> nodes[i].id == i && (nodes[i] == n || state.nodes[i] == nodes[i].Now()))
      && state.partitioned == partitioned
    }

    /** Records that the section just executed was `a`. */
    ghost method Did(a: Action)
      requires state == Exec(Init(first), run)
      modifies this`run, this`state
      ensures state == Apply(old(state), a) && state == Exec(Init(first), run)
    {
      run := run + [a];
      state := Apply(state, a);
      assert run[..|run| - 1] == old(run);
    }

    /** Records a section that changed no node. */
    ghost method Moved(a: Action)
      requires Valid() && Apply(state, a).nodes == state.nodes && Apply(state, a).partitioned == state.partitioned
      modifies this`run, this`state
      ensures Valid() && state == Apply(old(state), a)
    {
      Did(a);
    }

    /** Records a section that changed `n` alone. */
    ghost method Changed(n: Node, a: Action)
      requires ValidBut(n) && n in nodes && n.id < |state.nodes|
      requires Apply(state, a).nodes == state.nodes[n.id := n.Now()] && Apply(state, a).partitioned == state.partitioned
      modifies this`run, this`state
      ensures Valid() && state == Apply(old(state), a)
    {
      Did(a);
    }

    /** A fresh random deadline between the minimum and the maximum timeout. */
    method ResetElectionTimer(n: Node)
      modifies n`electionDeadline
      ensures now + MIN_TIMEOUT <= n.electionDeadline < now + MAX_TIMEOUT
      ensures now + 150_000_000 <= n.electionDeadline < now + 300_000_000
    {
      var d :| MIN_TIMEOUT <= d < MAX_TIMEOUT;
      n.electionDeadline := now + d;
    }

    method RequestVote(voter: Node, term: nat, candidateID: nat) returns (granted: bool)
      modifies voter
      ensures (voter.Now(), granted) == Grant(old(voter.Now()), term, candidateID, voter.electionDeadline)
      ensures granted ==> voter.electionDeadline > now
    {
      if term < voter.term {
        return false;
      }
      if term > voter.term {
        voter.term := term;
        voter.role := Follower;
        voter.votedFor := NOBODY;
      }
      if voter.votedFor != NOBODY && voter.votedFor != candidateID {
        return false;
      }
      voter.votedFor := candidateID;
      ResetElectionTimer(voter);
      return true;
    }

    /** First section of an election: the node moves to a new term and votes for itself. */
    method BecomeCandidate(n: Node) returns (term: nat)
      requires Valid() && n in nodes
      modifies this`run, this`state, n
      ensures Valid() && term == old(n.term) + 1 && n.electionDeadline > now
      ensures state == Apply(old(state), Begin(n.id, n.electionDeadline))
    {
      n.term := n.term + 1;
      n.role := Candidate;
      n.votedFor := n.id;
      term := n.term;
      ResetElectionTimer(n);
      Changed(n, Begin(n.id, n.electionDeadline));
    }

    /** One round of the vote-collecting loop: the partition check, then the request. */
    method AskPeer(peer: nat, term: nat, id: nat, ghost c: nat) returns (granted: bool, ghost deadline: int)
      requires Valid() && AtPeer(state, c, peer) && state.campaigns[c].id == id && state.campaigns[c].term == term
      modifies this`run, this`state, nodes[peer]
      ensures Valid() && deadline > now && state == Ask(old(state), c, deadline)
      ensures granted == Grants(old(state), id, term, peer)
    {
      deadline := now + MIN_TIMEOUT;
      Moved(Campaigning(c, 0));
      if peer == id || peer in partitioned {
        granted := false;
        return;
      }
      granted := RequestVote(nodes[peer], term, id);
      if granted {
        deadline := nodes[peer].electionDeadline;
      }
      Changed(nodes[peer], Campaigning(c, deadline));
    }

    /** Last section of an election: the re-check under the lock. */
    method CountVotes(n: Node, term: nat, votes: nat, ghost c: nat)
      requires Valid() && n in nodes && c < |state.campaigns|
      requires state.campaigns[c].(granted := {}) == Campaign(n.id, term, votes, {}, CheckPeer(|nodes|))
      modifies this`run, this`state, n
      ensures Valid() && state == Count(old(state), c)
    {
      Moved(Campaigning(c, 0));
      if n.role == Candidate && n.term == term && votes >= Majority(|nodes|) {
        n.role := Leader;
      }
      Changed(n, Campaigning(c, 0));
    }

    /** A whole election, not interrupted. */
    method StartElection(id: nat)
      requires Valid() && id < |nodes|
      modifies this`run, this`state, nodes
      ensures Valid() && Held(old(state), state, id, now)
    {
      ghost var s, c := state, |state.campaigns|;
      var n := nodes[id];
      var term := BecomeCandidate(n);
      assert Started(s, state, id, now);
      if id in partitioned {
        CutOffHeld(s, state, id, now);
        Moved(Campaigning(c, 0));
      } else {
        SeekVotes(n, term, s, c);
      }
    }

    /** The rest of an election begun at `s` by a node that is not cut off. */
    method SeekVotes(n: Node, term: nat, ghost s: State, ghost c: nat)
      requires Valid() && n in nodes && n.id < |s.nodes| && term == s.nodes[n.id].term + 1 && c == |s.campaigns|
      requires Started(s, state, n.id, now) && n.id !in s.partitioned
      modifies this`run, this`state, nodes
      ensures Valid() && Held(s, state, n.id, now)
    {
      CollectingStart(s, state, n.id, now);
      Moved(Campaigning(c, 0));
      ghost var s2 := state;
      var votes := CollectVotes(n, term, c);
      ElectionHeld(s, s2, state, n.id, votes, now);
      CountVotes(n, term, votes, c);
    }

    /** The vote-collecting loop. */
    method CollectVotes(n: Node, term: nat, ghost c: nat) returns (votes: nat)
      requires Valid() && n in nodes && Collecting(state, state, c, n.id, term, 1, 0, now)
      modifies this`run, this`state, nodes
      ensures Valid() && Collecting(old(state), state, c, n.id, term, votes, |nodes|, now)
    {
      votes := 1;
      ghost var s0 := state;
      for peer := 0 to |nodes|
        invariant Valid() && Collecting(s0, state, c, n.id, term, votes, peer, now)
      {
        votes := AskNext(n, term, votes, peer, c, s0);
      }
    }

    /** One more peer of the election whose loop began at `s0`. */
    method AskNext(n: Node, term: nat, votes: nat, peer: nat, ghost c: nat, ghost s0: State) returns (votes': nat)
      requires Valid() && n in nodes && peer < |nodes| && Collecting(s0, state, c, n.id, term, votes, peer, now)
      modifies this`run, this`state, nodes[peer]
      ensures Valid() && Collecting(s0, state, c, n.id, term, votes', peer + 1, now)
    {
      ghost var s := state;
      var granted, deadline := AskPeer(peer, term, n.id, c);
      votes' := if granted then votes + 1 else votes;
      CollectingStep(s0, s, c, n.id, term, votes, peer, now, deadline);
    }

    /** A follower hears a heartbeat of a term not older than its own. */
    method AcceptHeartbeat(f: Node, term: nat, ghost b: nat)
      requires Valid() && f in nodes && term >= f.term
      requires b < |state.beats| && state.beats[b].term == term && state.beats[b].pc == Delivering(f.id)
      requires state.beats[b].id < |nodes|
      modifies this`run, this`state, f
      ensures Valid() && f.electionDeadline >= now + MIN_TIMEOUT
      ensures state == Apply(old(state), Beating(b, f.electionDeadline))
    {
      if term > f.term {
        f.term := term;
        f.votedFor := NOBODY;
      }
      f.role := Follower;
      ResetElectionTimer(f);
      Changed(f, Beating(b, f.electionDeadline));
    }

    /** A stale leader learns of a newer term and steps down. */
    method LearnStale(leader: Node, staleTerm: nat, ghost b: nat)
      requires Valid() && leader in nodes
      requires b < |state.beats| && state.beats[b].id == leader.id && state.beats[b].pc.SteppingDown?
      requires state.beats[b].pc.staleTerm == staleTerm
      modifies this`run, this`state, leader
      ensures Valid() && state == Apply(old(state), Beating(b, 0))
    {
      if staleTerm > leader.term {
        leader.term := staleTerm;
        leader.role := Follower;
        leader.votedFor := NOBODY;
      }
      Changed(leader, Beating(b, 0));
    }

    /** One follower's turn in the heartbeat loop. */
    method BeatPeer(leader: Node, peer: nat, term: nat, ghost b: nat) returns (ghost deadline: int)
      requires Valid() && leader in nodes && peer < |nodes| && b < |state.beats|
      requires state.beats[b] == Beat(leader.id, term, CheckFollower(peer))
      modifies this`run, this`state, nodes
      ensures Valid() && deadline >= now + MIN_TIMEOUT && state == Round(old(state), b, deadline)
    {
      deadline := now + MIN_TIMEOUT;
      Moved(Beating(b, 0));
      if peer == leader.id || peer in partitioned {
        return;
      }
      var f := nodes[peer];
      if term >= f.term {
        AcceptHeartbeat(f, term, b);
        deadline := f.electionDeadline;
      } else {
        var staleTerm := f.term;
        Moved(Beating(b, deadline));
        LearnStale(leader, staleTerm, b);
      }
    }

    /** Heartbeats from a node that leads and is reachable. `l` is any leader that
        no reachable node outranks: it survives, and its own round quiets the rest. */
    method SendHeartbeats(leader: Node, ghost l: nat)
      requires Valid() && leader in nodes && leader.id !in partitioned && leader.role == Leader
      modifies this`run, this`state, nodes
      ensures Valid() && state.campaigns == old(state).campaigns
      ensures KeepsLeader(old(state), state, l)
      ensures Stable(old(state), l) && l == leader.id ==> Quiet(state, l, now + MIN_TIMEOUT - 1)
      ensures Delivered(old(state), state, leader.id, old(leader.term), |nodes|, now + MIN_TIMEOUT - 1)
    {
      ghost var s0, quiet := state, now + MIN_TIMEOUT - 1;
      var term := BeatEveryone(leader, l, quiet);
      BeatenAtEnd(s0, state, |s0.beats|, leader.id, term, l, quiet);
    }

    /** The heartbeat loop. */
    method BeatEveryone(leader: Node, ghost l: nat, ghost quiet: int) returns (term: nat)
      requires Valid() && leader in nodes && leader.id !in partitioned && leader.role == Leader
      requires quiet < now + MIN_TIMEOUT
      modifies this`run, this`state, nodes
      ensures Valid() && Beaten(old(state), state, |old(state).beats|, leader.id, term, |state.nodes|, l, quiet)
    {
      ghost var b, s0 := |state.beats|, state;
      term := OpenRound(leader, l, quiet);
      ghost var s, deadlines := state, [];
      for peer := 0 to |nodes|
        invariant Valid() && |deadlines| == peer && state == Rounds(s, b, deadlines)
        invariant b < |state.beats| && state.beats[b] == Beat(leader.id, term, CheckFollower(peer))
        invariant forall d :: d in deadlines ==> d > quiet
      {
        ghost var before := state;
        ghost var deadline := BeatPeer(leader, peer, term, b);
        RoundEffect(before, b, deadline);
        OneMoreTurn(s, b, deadlines, deadline);
        deadlines := deadlines + [deadline];
      }
      RoundsBeat(s0, s, b, leader.id, term, l, quiet, deadlines);
    }

    method OpenRound(leader: Node, ghost l: nat, ghost quiet: int) returns (term: nat)
      requires Valid() && leader in nodes && leader.id !in partitioned && leader.role == Leader
      modifies this`run, this`state
      ensures Valid() && Beaten(old(state), state, |old(state).beats|, leader.id, term, 0, l, quiet)
      ensures SenderIsStale(old(state), leader.id, term, l)
    {
      SenderNow(leader, l);
      BeatenAtStart(state, leader.id, leader.term, l, quiet);
      term := BeginBeat(leader);
    }

    /** What `state` says about a node that leads. */
    lemma SenderNow(leader: Node, l: nat)
      requires Valid() && leader in nodes && leader.id !in partitioned && leader.role == Leader
      ensures leader.id < |state.nodes| && state.nodes[leader.id].term == leader.term
      ensures SenderIsStale(state, leader.id, leader.term, l) && leader.id !in state.partitioned
    {
      Member(leader);
      LeadersTermIsStale(state, leader.id, l);
    }

    lemma OneMoreTurn(s: State, b: nat, deadlines: seq<int>, deadline: int)
      ensures Rounds(s, b, deadlines + [deadline]) == Round(Rounds(s, b, deadlines), b, deadline)
    {
      assert (deadlines + [deadline])[..|deadlines|] == deadlines;
    }

    /** What `state` says about a node object. */
    lemma Member(n: Node)
      requires Valid() && n in nodes
      ensures |state.nodes| == |nodes| && n.id < |nodes| && nodes[n.id] == n && state.nodes[n.id] == n.Now()
      ensures Inv(state) && state.partitioned == partitioned
    {
      RunKeepsInv(first, run);
    }

    /** The sender's partition check and the section that reads its term. */
    method BeginBeat(leader: Node) returns (term: nat)
      requires Valid() && leader in nodes && leader.id !in partitioned && leader.role == Leader
      modifies this`run, this`state
      ensures Valid() && term == leader.term
      ensures state == old(state).(beats := old(state).beats + [Beat(leader.id, term, CheckFollower(0))])
    {
      ghost var b := |state.beats|;
      Moved(BeatBegin(leader.id));
      Moved(Beating(b, 0));
      term := leader.term;
      Moved(Beating(b, 0));
    }

    /** Leaders send their heartbeats, in order of id. */
    method BeatAll(ghost l: nat)
      requires Valid()
      modifies this`run, this`state, nodes
      ensures Valid() && state.campaigns == old(state).campaigns
      ensures KeepsLeader(old(state), state, l)
      ensures Stable(old(state), l) ==> Quiet(state, l, now)
    {
      ghost var s0 := state;
      for id := 0 to |nodes|
        invariant Valid() && state.campaigns == s0.campaigns
        invariant KeepsLeader(s0, state, l)
        invariant Stable(s0, l) && id > l ==> Quiet(state, l, now)
      {
        var n := nodes[id];
        if n.role == Leader && id !in partitioned {
          ghost var s := state;
          SendHeartbeats(n, l);
          KeepsLeaderTrans(s0, s, state, l);
        }
      }
    }

    /** Nodes whose timer ran out start an election, in order of id. */
    method ElectExpired(ghost l: nat)
      requires Valid()
      modifies this`run, this`state, nodes
      ensures Valid() && Swept(old(state), state, |nodes|, l, now)
    {
      ghost var s0 := state;
      for id := 0 to |nodes|
        invariant Valid() && Swept(s0, state, id, l, now)
      {
        ElectNext(id, l, s0);
      }
    }

    /** One more node of the pass that began at `s0`. */
    method ElectNext(id: nat, ghost l: nat, ghost s0: State)
      requires Valid() && id < |nodes| && Swept(s0, state, id, l, now)
      modifies this`run, this`state, nodes
      ensures Valid() && Swept(s0, state, id + 1, l, now)
    {
      var n := nodes[id];
      if n.role != Leader && now >= n.electionDeadline {
        ghost var s := state;
        StartElection(id);
        SweptByElection(s0, s, state, id, l, now);
      }
    }

    /** Advances the clock by one tick and runs whatever is due: afterwards no timer
        is left expired, and every election begun is over. A leader that no reachable
        node outranks stays leader in its term, and no reachable node starts one. */
    method Step(ghost l: nat)
      requires Valid()
      modifies this`now, this`run, this`state, nodes
      ensures Valid() && now == old(now) + 10_000_000
      ensures KeepsLeader(old(state), state, l)
      ensures forall i :: 0 <= i < |nodes| ==> Timely(state.nodes[i], now)
      ensures forall c :: |old(state).campaigns| <= c < |state.campaigns| ==> state.campaigns[c].pc == Over
    {
      now := now + TICK;
      ghost var s0 := state;
      BeatAll(l);
      ghost var s := state;
      ElectExpired(l);
      if Stable(s0, l) { KeepsLeaderTrans(s0, s, state, l); }
    }

    method Partition(ids: set<nat>)
      requires Valid()
      modifies this`run, this`state, this`partitioned
      ensures Valid() && partitioned == old(partitioned) + ids && state.nodes == old(state).nodes
    {
      partitioned := partitioned + ids;
      Did(Isolate(ids));
    }

    method Heal()
      requires Valid()
      modifies this`run, this`state, this`partitioned
      ensures Valid() && partitioned == {} && state.nodes == old(state).nodes
    {
      partitioned := {};
      Did(RaftModel.Heal);
    }

    /** The current leaders, in order of id. */
    method Leaders() returns (out: seq<nat>)
      requires Valid()
      ensures forall i :: i in out ==> i < |nodes| && nodes[i].role == Leader
      ensures forall i :: 0 <= i < |nodes| && nodes[i].role == Leader ==> i in out
      ensures forall j, k :: 0 <= j < k < |out| ==> out[j] < out[k]
    {
      out := [];
      for id := 0 to |nodes|
        invariant forall i :: i in out ==> i < id && nodes[i].role == Leader
        invariant forall i :: 0 <= i < id && nodes[i].role == Leader ==> i in out
        invariant forall j, k :: 0 <= j < k < |out| ==> out[j] < out[k]
      {
        if nodes[id].role == Leader {
          assert forall j :: 0 <= j < |out| ==> out[j] in out;
          out := out + [id];
        }
      }
    }

    /** Current leaders grouped by term: never two in one group. */
    method LeadersByTerm() returns (out: map<nat, seq<nat>>)
      requires Valid()
      ensures forall t :: t in out ==>
        |out[t]| == 1 && out[t][0] < |nodes| && nodes[out[t][0]].role == Leader && nodes[out[t][0]].term == t
      ensures forall i :: 0 <= i < |nodes| && nodes[i].role == Leader ==> nodes[i].term in out
    {
      out := map[];
      for id := 0 to |nodes|
        invariant forall t :: t in out ==> |out[t]| > 0
        invariant forall t, j :: t in out && 0 <= j < |out[t]| ==>
          out[t][j] < id && nodes[out[t][j]].role == Leader && nodes[out[t][j]].term == t
        invariant forall t, j :: t in out && 0 <= j < |out[t]| - 1 ==> out[t][j] != out[t][|out[t]| - 1]
        invariant forall i :: 0 <= i < id && nodes[i].role == Leader ==> nodes[i].term in out
      {
        var n := nodes[id];
        if n.role == Leader {
          out := out[n.term := (if n.term in out then out[n.term] else []) + [id]];
        }
      }
      RunKeepsInv(first, run);
      forall t | t in out ensures |out[t]| == 1 {
        OneWinner(state, t, out[t][0], out[t][|out[t]| - 1]);
      }
    }

    /** Steps until exactly one node leads or the budget runs out; a stable leader survives all of it. */
    method RunUntilLeader(maxTicks: nat, ghost l: nat) returns (leader: int, ok: bool)
      requires Valid()
      modifies this`now, this`run, this`state, nodes
      ensures Valid() && KeepsLeader(old(state), state, l)
      ensures ok ==> 0 <= leader < |nodes| && forall i :: 0 <= i < |nodes| ==>
        (nodes[i].role == Leader <==> i == leader)
      ensures !ok ==> leader == -1 && now == old(now) + maxTicks * TICK
    {
      ghost var s0 := state;
      for i := 0 to maxTicks
        invariant Valid() && KeepsLeader(s0, state, l) && now == old(now) + i * TICK
      {
        ghost var s := state;
        Step(l);
        KeepsLeaderTrans(s0, s, state, l);
        var ls := Leaders();
        if |ls| == 1 {
          assert ls[0] in ls;
          return ls[0], true;
        }
      }
      return -1, false;
    }
  }
}

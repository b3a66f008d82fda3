/** Raft leader election as a machine of atomic steps.

    Each critical section of the simulator is one `Action`. Elections and
    heartbeat rounds are threads that may stop between any two sections, so a
    run is any interleaving of them, with partitions and heals in between. */
module RaftModel {
  datatype Role = Follower | Candidate | Leader

  /** `votedFor` is NOBODY when the node has not voted in its current term. */
  const NOBODY := -1

  datatype NodeState = NodeState(role: Role, term: nat, votedFor: int, deadline: int)

  /** Where a running `startElection` stands; `next` is the peer its loop has reached. */
  datatype CampaignPc = CheckSelf | CheckPeer(next: nat) | Asking(next: nat) | Counting | Over

  /** `votes` is the code's counter; `granted` remembers whose votes they are. */
  datatype Campaign = Campaign(id: nat, term: nat, votes: nat, granted: set<nat>, pc: CampaignPc)

  /** Where a running `sendHeartbeats` stands. */
  datatype BeatPc = CheckSender | ReadTerm | CheckFollower(next: nat) | Delivering(next: nat)
                  | SteppingDown(next: nat, staleTerm: nat) | Sent

  datatype Beat = Beat(id: nat, term: nat, pc: BeatPc)

  /** `ballots` and `wins` are history: every vote ever cast, as (voter, term) to
      candidate, and every election ever won, as (term, winner) to its voters. */
  datatype State = State(
    nodes: seq<NodeState>,
    partitioned: set<nat>,
    campaigns: seq<Campaign>,
    beats: seq<Beat>,
    ballots: map<(nat, nat), nat>,
    wins: map<(nat, nat), set<nat>>)

  datatype Action =
    | Begin(id: nat, deadline: int)
    | Campaigning(c: nat, deadline: int)
    | BeatBegin(id: nat)
    | Beating(b: nat, deadline: int)
    | Isolate(ids: set<nat>)
    | Heal

  /** The least number of nodes that is more than half of n. */
  function Majority(n: nat): (m: nat)
    ensures 2 * m > n && 2 * (m - 1) <= n
  {
    n / 2 + 1
  }

  function Init(deadlines: seq<int>): State {
    State(seq(|deadlines|, i requires 0 <= i < |deadlines| => NodeState(Follower, 0, NOBODY, deadlines[i])),
          {}, [], [], map[], map[])
  }

  // ------------------------------------------------- what one section does to a node

  /** `requestVote` at the voter. */
  function Grant(v: NodeState, term: nat, candidate: nat, deadline: int): (NodeState, bool) {
    if term < v.term then (v, false)
    else
      var w := if term > v.term then NodeState(Follower, term, NOBODY, v.deadline) else v;
      if w.votedFor != NOBODY && w.votedFor != candidate then (w, false)
      else (w.(votedFor := candidate, deadline := deadline), true)
  }

  /** A heartbeat of a term not older than the follower's. */
  function Accept(f: NodeState, term: nat, deadline: int): NodeState
    requires term >= f.term
  {
    NodeState(Follower, term, if term > f.term then NOBODY else f.votedFor, deadline)
  }

  /** The sender of a stale heartbeat learns the newer term. */
  function StepDown(l: NodeState, staleTerm: nat): NodeState {
    if staleTerm > l.term then NodeState(Follower, staleTerm, NOBODY, l.deadline) else l
  }

  // ---------------------------------------------------------------- the machine

  /** A campaign that has had a peer's answer. */
  function Counted(k: Campaign, peer: nat, granted: bool): Campaign {
    if granted then k.(votes := k.votes + 1, granted := k.granted + {peer}, pc := CheckPeer(peer + 1))
    else k.(pc := CheckPeer(peer + 1))
  }

  /** One section of a campaign. */
  function CampaignStep(s: State, c: nat, deadline: int): State
    requires c < |s.campaigns| && s.campaigns[c].id < |s.nodes|
  {
    var k := s.campaigns[c];
    var n := |s.nodes|;
    match k.pc
    case CheckSelf =>
      s.(campaigns := s.campaigns[c := k.(pc := if k.id in s.partitioned then Over else CheckPeer(0))])
    case CheckPeer(next) =>
      var pc := if next >= n then Counting
                else if next == k.id || next in s.partitioned then CheckPeer(next + 1)
                else Asking(next);
      s.(campaigns := s.campaigns[c := k.(pc := pc)])
    case Asking(next) =>
      if next >= n then s
      else
        var (v, granted) := Grant(s.nodes[next], k.term, k.id, deadline);
        s.(nodes := s.nodes[next := v],
           campaigns := s.campaigns[c := Counted(k, next, granted)],
           ballots := if granted then s.ballots[(next, k.term) := k.id] else s.ballots)
    case Counting =>
      var me := s.nodes[k.id];
      var won := me.role == Candidate && me.term == k.term && k.votes >= Majority(n);
      s.(nodes := if won then s.nodes[k.id := me.(role := Leader)] else s.nodes,
         campaigns := s.campaigns[c := k.(pc := Over)],
         wins := if won then s.wins[(k.term, k.id) := k.granted] else s.wins)
    case Over => s
  }

  /** One section of a heartbeat round. */
  function BeatStep(s: State, b: nat, deadline: int): State
    requires b < |s.beats| && s.beats[b].id < |s.nodes|
  {
    var h := s.beats[b];
    var n := |s.nodes|;
    match h.pc
    case CheckSender => s.(beats := s.beats[b := h.(pc := if h.id in s.partitioned then Sent else ReadTerm)])
    case ReadTerm => s.(beats := s.beats[b := h.(term := s.nodes[h.id].term, pc := CheckFollower(0))])
    case CheckFollower(next) =>
      var pc := if next >= n then Sent
                else if next == h.id || next in s.partitioned then CheckFollower(next + 1)
                else Delivering(next);
      s.(beats := s.beats[b := h.(pc := pc)])
    case Delivering(next) =>
      if next >= n then s
      else
        var f := s.nodes[next];
        if h.term >= f.term then
          s.(nodes := s.nodes[next := Accept(f, h.term, deadline)],
             beats := s.beats[b := h.(pc := CheckFollower(next + 1))])
        else s.(beats := s.beats[b := h.(pc := SteppingDown(next, f.term))])
    case SteppingDown(next, staleTerm) =>
      s.(nodes := s.nodes[h.id := StepDown(s.nodes[h.id], staleTerm)],
         beats := s.beats[b := h.(pc := CheckFollower(next + 1))])
    case Sent => s
  }

  /** One section of any thread; an action that cannot happen changes nothing. */
  function Apply(s: State, a: Action): State {
    match a
    case Begin(id, deadline) =>
      if id >= |s.nodes| then s
      else
        var term := s.nodes[id].term + 1;
        s.(nodes := s.nodes[id := NodeState(Candidate, term, id, deadline)],
           campaigns := s.campaigns + [Campaign(id, term, 1, {id}, CheckSelf)],
           ballots := s.ballots[(id, term) := id])
    case Campaigning(c, deadline) =>
      if c >= |s.campaigns| || s.campaigns[c].id >= |s.nodes| then s else CampaignStep(s, c, deadline)
    case BeatBegin(id) =>
      if id >= |s.nodes| || s.nodes[id].role != Leader then s
      else s.(beats := s.beats + [Beat(id, 0, CheckSender)])
    case Beating(b, deadline) =>
      if b >= |s.beats| || s.beats[b].id >= |s.nodes| then s else BeatStep(s, b, deadline)
    case Isolate(ids) => s.(partitioned := s.partitioned + ids)
    case Heal => s.(partitioned := {})
  }

  function Exec(s: State, run: seq<Action>): State {
    if run == [] then s else Apply(Exec(s, run[..|run| - 1]), run[|run| - 1])
  }

  // ---------------------------------------------------------------- the invariant

  /** A recorded ballot is not from the voter's future, and one of its current
      term is the one it remembers. */
  ghost predicate BallotsHold(s: State) {
    forall v, t :: (v, t) in s.ballots ==>
      && v < |s.nodes| && t <= s.nodes[v].term
      && (t == s.nodes[v].term ==> s.nodes[v].votedFor == s.ballots[(v, t)])
  }

  /** Every counted vote is a recorded ballot, counted once. */
  ghost predicate CampaignHolds(s: State, k: Campaign) {
    && k.id < |s.nodes| && k.votes == |k.granted|
    && (forall v :: v in k.granted ==> (v, k.term) in s.ballots && s.ballots[(v, k.term)] == k.id)
    && (forall v :: v in k.granted && v != k.id ==>
          match k.pc
          case CheckSelf => false
          case CheckPeer(next) => v < next
          case Asking(next) => v < next
          case _ => true)
    && (k.pc.Asking? ==> k.pc.next != k.id)
  }

  /** Every win is backed by a majority of recorded ballots. */
  ghost predicate WinsHold(s: State) {
    forall t, a :: (t, a) in s.wins ==>
      && |s.wins[(t, a)]| >= Majority(|s.nodes|)
      && forall v :: v in s.wins[(t, a)] ==> (v, t) in s.ballots && s.ballots[(v, t)] == a
  }

  /** A node that leads has won its current term. */
  ghost predicate LeadersWon(s: State) {
    forall i :: 0 <= i < |s.nodes| && s.nodes[i].role == Leader ==> (s.nodes[i].term, i) in s.wins
  }

  ghost predicate Inv(s: State) {
    && BallotsHold(s)
    && (forall c :: 0 <= c < |s.campaigns| ==> CampaignHolds(s, s.campaigns[c]))
    && WinsHold(s)
    && LeadersWon(s)
  }

  /** A campaign that only moves on, or counts what is recorded, disturbs nothing else. */
  lemma MoveKeepsInv(s: State, c: nat, k: Campaign)
    requires Inv(s) && c < |s.campaigns| && CampaignHolds(s, k)
    ensures Inv(s.(campaigns := s.campaigns[c := k]))
  {
    var s' := s.(campaigns := s.campaigns[c := k]);
    forall d | 0 <= d < |s'.campaigns| ensures CampaignHolds(s', s'.campaigns[d]) {
      if d != c { assert CampaignHolds(s, s.campaigns[d]); }
    }
  }

  /** What a vote adds to the record. */
  function Voted(s: State, voter: nat, term: nat, candidate: nat, deadline: int): State
    requires voter < |s.nodes|
  {
    var (v, granted) := Grant(s.nodes[voter], term, candidate, deadline);
    s.(nodes := s.nodes[voter := v], ballots := if granted then s.ballots[(voter, term) := candidate] else s.ballots)
  }

  /** A vote never goes against a recorded ballot. */
  lemma VoteIsNew(s: State, voter: nat, term: nat, candidate: nat, deadline: int)
    requires BallotsHold(s) && voter < |s.nodes| && Grant(s.nodes[voter], term, candidate, deadline).1
    ensures (voter, term) in s.ballots ==> s.ballots[(voter, term)] == candidate
  {
  }

  lemma VoteKeepsBallots(s: State, voter: nat, term: nat, candidate: nat, deadline: int)
    requires BallotsHold(s) && voter < |s.nodes|
    ensures BallotsHold(Voted(s, voter, term, candidate, deadline))
  {
  }

  lemma VoteKeepsCampaign(s: State, voter: nat, term: nat, candidate: nat, deadline: int, k: Campaign)
    requires BallotsHold(s) && voter < |s.nodes| && CampaignHolds(s, k)
    ensures CampaignHolds(Voted(s, voter, term, candidate, deadline), k)
  {
    if Grant(s.nodes[voter], term, candidate, deadline).1 {
      VoteIsNew(s, voter, term, candidate, deadline);
    }
  }

  lemma VoteKeepsWins(s: State, voter: nat, term: nat, candidate: nat, deadline: int)
    requires BallotsHold(s) && WinsHold(s) && LeadersWon(s) && voter < |s.nodes|
    ensures var s' := Voted(s, voter, term, candidate, deadline); WinsHold(s') && LeadersWon(s')
  {
    if Grant(s.nodes[voter], term, candidate, deadline).1 {
      VoteIsNew(s, voter, term, candidate, deadline);
    }
  }

  lemma VoteKeepsInv(s: State, voter: nat, term: nat, candidate: nat, deadline: int)
    requires Inv(s) && voter < |s.nodes|
    ensures Inv(Voted(s, voter, term, candidate, deadline))
  {
    var s' := Voted(s, voter, term, candidate, deadline);
    VoteKeepsBallots(s, voter, term, candidate, deadline);
    VoteKeepsWins(s, voter, term, candidate, deadline);
    forall d | 0 <= d < |s'.campaigns| ensures CampaignHolds(s', s'.campaigns[d]) {
      VoteKeepsCampaign(s, voter, term, candidate, deadline, s.campaigns[d]);
    }
  }

  /** A vote counts for the candidate only once. */
  lemma AskKeepsInv(s: State, c: nat, deadline: int)
    requires Inv(s) && c < |s.campaigns| && s.campaigns[c].pc.Asking? && s.campaigns[c].pc.next < |s.nodes|
    ensures Inv(CampaignStep(s, c, deadline))
  {
    var s', k := CampaignStep(s, c, deadline), s.campaigns[c];
    var voted := Voted(s, k.pc.next, k.term, k.id, deadline);
    VoteKeepsInv(s, k.pc.next, k.term, k.id, deadline);
    CountedHolds(s, k, deadline);
    MoveKeepsInv(voted, c, s'.campaigns[c]);
    assert s' == voted.(campaigns := voted.campaigns[c := s'.campaigns[c]]);
  }

  /** The campaign once the peer it asked has answered. */
  lemma CountedHolds(s: State, k: Campaign, deadline: int)
    requires BallotsHold(s) && CampaignHolds(s, k) && k.pc.Asking? && k.pc.next < |s.nodes|
    ensures var peer := k.pc.next;
            var granted := Grant(s.nodes[peer], k.term, k.id, deadline).1;
            CampaignHolds(Voted(s, peer, k.term, k.id, deadline), Counted(k, peer, granted))
  {
    VoteKeepsCampaign(s, k.pc.next, k.term, k.id, deadline, k);
  }

  /** A majority of recorded ballots is what a win records. */
  lemma CountKeepsInv(s: State, c: nat, deadline: int)
    requires Inv(s) && c < |s.campaigns| && s.campaigns[c].pc == Counting
    ensures Inv(CampaignStep(s, c, deadline))
  {
    var s', k := CampaignStep(s, c, deadline), s.campaigns[c];
    assert CampaignHolds(s, k) && CampaignHolds(s, k.(pc := Over));
    MoveKeepsInv(s, c, k.(pc := Over));
    var moved := s.(campaigns := s.campaigns[c := k.(pc := Over)]);
    if s'.wins != s.wins || s'.nodes != s.nodes {
      WinKeepsInv(moved, k);
      assert s' == Won(moved, k);
    } else {
      assert s' == moved;
    }
  }

  function Won(s: State, k: Campaign): State
    requires k.id < |s.nodes|
  {
    s.(nodes := s.nodes[k.id := s.nodes[k.id].(role := Leader)], wins := s.wins[(k.term, k.id) := k.granted])
  }

  lemma WinKeepsInv(s: State, k: Campaign)
    requires Inv(s) && CampaignHolds(s, k) && k.votes >= Majority(|s.nodes|) && s.nodes[k.id].term == k.term
    ensures Inv(Won(s, k))
  {
    var s' := Won(s, k);
    assert BallotsHold(s') && WinsHold(s') && LeadersWon(s');
    forall d | 0 <= d < |s'.campaigns| ensures CampaignHolds(s', s'.campaigns[d]) {
      assert CampaignHolds(s, s.campaigns[d]);
    }
  }

  lemma CampaignKeepsInv(s: State, c: nat, deadline: int)
    requires Inv(s) && c < |s.campaigns|
    ensures Inv(CampaignStep(s, c, deadline))
  {
    var k := s.campaigns[c];
    assert CampaignHolds(s, k);
    match k.pc
    case Asking(next) => if next < |s.nodes| { AskKeepsInv(s, c, deadline); }
    case Counting => CountKeepsInv(s, c, deadline);
    case _ => MoveKeepsInv(s, c, CampaignStep(s, c, deadline).campaigns[c]);
  }

  /** Demoting a node is harmless as long as it keeps its vote of the current term. */
  lemma DemoteKeepsInv(s: State, i: nat, w: NodeState, beats: seq<Beat>)
    requires Inv(s) && i < |s.nodes|
    requires w.role == Follower || w == s.nodes[i]
    requires w.term >= s.nodes[i].term && (w.term == s.nodes[i].term ==> w.votedFor == s.nodes[i].votedFor)
    ensures Inv(s.(nodes := s.nodes[i := w], beats := beats))
  {
    var s' := s.(nodes := s.nodes[i := w], beats := beats);
    forall d | 0 <= d < |s'.campaigns| ensures CampaignHolds(s', s'.campaigns[d]) {
      assert CampaignHolds(s, s.campaigns[d]);
    }
  }

  lemma BeatKeepsInv(s: State, b: nat, deadline: int)
    requires Inv(s) && b < |s.beats| && s.beats[b].id < |s.nodes|
    ensures Inv(BeatStep(s, b, deadline))
  {
    var s' := BeatStep(s, b, deadline);
    var h := s.beats[b];
    match h.pc
    case Delivering(next) =>
      if next < |s.nodes| {
        DemoteKeepsInv(s, next, s'.nodes[next], s'.beats);
        assert s.nodes[next := s'.nodes[next]] == s'.nodes;
      }
    case SteppingDown(next, staleTerm) =>
      DemoteKeepsInv(s, h.id, s'.nodes[h.id], s'.beats);
    case _ =>
      if |s.nodes| > 0 {
        DemoteKeepsInv(s, 0, s.nodes[0], s'.beats);
        assert s.nodes[0 := s.nodes[0]] == s.nodes;
      }
  }

  /** A new election starts in a term its node has never voted in. */
  lemma BeginKeepsInv(s: State, id: nat, deadline: int)
    requires Inv(s)
    ensures Inv(Apply(s, Begin(id, deadline)))
  {
    if id < |s.nodes| {
      var s' := Apply(s, Begin(id, deadline));
      assert (id, s.nodes[id].term + 1) !in s.ballots;
      forall d | 0 <= d < |s'.campaigns| ensures CampaignHolds(s', s'.campaigns[d]) {
        if d < |s.campaigns| { assert CampaignHolds(s, s.campaigns[d]); }
      }
    }
  }

  lemma ApplyKeepsInv(s: State, a: Action)
    requires Inv(s)
    ensures Inv(Apply(s, a)) && |Apply(s, a).nodes| == |s.nodes|
  {
    match a
    case Begin(id, deadline) => BeginKeepsInv(s, id, deadline);
    case Campaigning(c, deadline) => if c < |s.campaigns| { CampaignKeepsInv(s, c, deadline); }
    case Beating(b, deadline) =>
      if b < |s.beats| && s.beats[b].id < |s.nodes| { BeatKeepsInv(s, b, deadline); }
    case BeatBegin(_) => OnlyNodesMatter(s, Apply(s, a));
    case Isolate(_) => OnlyNodesMatter(s, Apply(s, a));
    case Heal => OnlyNodesMatter(s, Apply(s, a));
  }

  /** The invariant does not speak of heartbeats or partitions. */
  lemma OnlyNodesMatter(s: State, s': State)
    requires Inv(s) && s' == s.(beats := s'.beats, partitioned := s'.partitioned)
    ensures Inv(s')
  {
    forall d | 0 <= d < |s'.campaigns| ensures CampaignHolds(s', s'.campaigns[d]) {
      assert CampaignHolds(s, s.campaigns[d]);
    }
  }

  lemma {:induction false} RunKeepsInv(deadlines: seq<int>, run: seq<Action>)
    ensures Inv(Exec(Init(deadlines), run)) && |Exec(Init(deadlines), run).nodes| == |deadlines|
  {
    if run == [] {
    } else {
      RunKeepsInv(deadlines, run[..|run| - 1]);
      ApplyKeepsInv(Exec(Init(deadlines), run[..|run| - 1]), run[|run| - 1]);
    }
  }

  // ------------------------------------------------------------- election safety

  lemma {:induction false} SizeBound(q: set<nat>, n: nat)
    requires forall v :: v in q ==> v < n
    ensures |q| <= n
  {
    if n > 0 {
      SizeBound(q - {n - 1}, n - 1);
    } else {
      assert q == {};
    }
  }

  /** Any two majorities of the same cluster share a member. */
  lemma MajoritiesMeet(p: set<nat>, q: set<nat>, n: nat) returns (v: nat)
    requires forall v :: v in p + q ==> v < n
    requires |p| >= Majority(n) && |q| >= Majority(n)
    ensures v in p && v in q
  {
    SizeBound(p + q, n);
    assert |p + q| == |p| + |q| - |p * q|;
    v :| v in p * q;
  }

  /** In every interleaving, over the whole history, a term has at most one winner. */
  lemma ElectionSafety(deadlines: seq<int>, run: seq<Action>, t: nat, a: nat, b: nat)
    requires var s := Exec(Init(deadlines), run); (t, a) in s.wins && (t, b) in s.wins
    ensures a == b
  {
    RunKeepsInv(deadlines, run);
    OneWinner(Exec(Init(deadlines), run), t, a, b);
  }

  lemma OneWinner(s: State, t: nat, a: nat, b: nat)
    requires Inv(s) && (t, a) in s.wins && (t, b) in s.wins
    ensures a == b
  {
    var v := MajoritiesMeet(s.wins[(t, a)], s.wins[(t, b)], |s.nodes|);
  }

  /** A winner had the votes of more than half of the nodes, and each of them voted for nobody
      else in that term. */
  lemma WinnersHaveMoreThanHalf(deadlines: seq<int>, run: seq<Action>, t: nat, a: nat)
    requires var s := Exec(Init(deadlines), run); (t, a) in s.wins
    ensures var s := Exec(Init(deadlines), run);
            && 2 * |s.wins[(t, a)]| > |deadlines|
            && forall v :: v in s.wins[(t, a)] ==> v < |deadlines| && (v, t) in s.ballots && s.ballots[(v, t)] == a
  {
    RunKeepsInv(deadlines, run);
  }

  /** At no point do two nodes lead in the same term. */
  lemma OneLeaderPerTerm(deadlines: seq<int>, run: seq<Action>, a: nat, b: nat)
    requires var s := Exec(Init(deadlines), run);
             && a < |s.nodes| && b < |s.nodes| && s.nodes[a].role == s.nodes[b].role == Leader
             && s.nodes[a].term == s.nodes[b].term
    ensures a == b
  {
    RunKeepsInv(deadlines, run);
    OneWinner(Exec(Init(deadlines), run), Exec(Init(deadlines), run).nodes[a].term, a, b);
  }

  /** Nothing recorded is forgotten or changed, and no term falls. */
  ghost predicate Extends(s: State, t: State) {
    && s.wins.Keys <= t.wins.Keys
    && (forall b :: b in s.ballots ==> b in t.ballots && t.ballots[b] == s.ballots[b])
    && |t.nodes| == |s.nodes| && (forall i :: 0 <= i < |s.nodes| ==> s.nodes[i].term <= t.nodes[i].term)
  }

  /** The history only grows: a win or a ballot stays recorded, and so does every term reached. */
  lemma HistoryGrows(s: State, a: Action)
    requires Inv(s)
    ensures Extends(s, Apply(s, a))
  {
    match a
    case Begin(id, _) =>
      if id < |s.nodes| { assert (id, s.nodes[id].term + 1) !in s.ballots; }
    case Campaigning(c, deadline) =>
      if c < |s.campaigns| { CampaignExtends(s, c, deadline); }
    case Beating(b, deadline) =>
      if b < |s.beats| && s.beats[b].id < |s.nodes| { BeatExtends(s, b, deadline); }
    case _ =>
  }

  lemma CampaignExtends(s: State, c: nat, deadline: int)
    requires Inv(s) && c < |s.campaigns|
    ensures Extends(s, CampaignStep(s, c, deadline))
  {
    var k := s.campaigns[c];
    assert CampaignHolds(s, k);
    if k.pc.Asking? && k.pc.next < |s.nodes| && Grant(s.nodes[k.pc.next], k.term, k.id, deadline).1 {
      VoteIsNew(s, k.pc.next, k.term, k.id, deadline);
    }
  }

  lemma BeatExtends(s: State, b: nat, deadline: int)
    requires b < |s.beats| && s.beats[b].id < |s.nodes|
    ensures Extends(s, BeatStep(s, b, deadline))
  {
  }

  /** Over a whole run too. */
  lemma {:induction false} RunExtends(deadlines: seq<int>, run: seq<Action>, n: nat)
    requires n <= |run|
    ensures Extends(Exec(Init(deadlines), run[..n]), Exec(Init(deadlines), run))
  {
    if n == |run| {
      assert run[..n] == run;
    } else {
      var last := |run| - 1;
      RunExtends(deadlines, run[..last], n);
      assert run[..last][..n] == run[..n];
      RunKeepsInv(deadlines, run[..last]);
      HistoryGrows(Exec(Init(deadlines), run[..last]), run[last]);
    }
  }

  // ------------------------------------------------------------ stable leadership

  /** A reachable leader whose term no reachable node exceeds. */
  ghost predicate Stable(s: State, l: nat) {
    && l < |s.nodes| && l !in s.partitioned && s.nodes[l].role == Leader
    && forall i :: 0 <= i < |s.nodes| && i !in s.partitioned ==> s.nodes[i].term <= s.nodes[l].term
  }

  /** Every other reachable node follows in the leader's term and will not time out at `now`. */
  ghost predicate Quiet(s: State, l: nat, now: int) {
    QuietBelow(s, l, now, |s.nodes|)
  }

  ghost predicate QuietBelow(s: State, l: nat, now: int, k: nat) {
    l < |s.nodes| && forall i :: 0 <= i < |s.nodes| && i < k && i !in s.partitioned && i != l ==>
      s.nodes[i].role == Follower && s.nodes[i].term == s.nodes[l].term && s.nodes[i].deadline > now
  }

  /** Any other reachable leader is in an older term than a stable one. */
  lemma StableIsNewest(s: State, l: nat, other: nat)
    requires Inv(s) && Stable(s, l)
    requires other < |s.nodes| && other !in s.partitioned && other != l && s.nodes[other].role == Leader
    ensures s.nodes[other].term < s.nodes[l].term
  {
    if s.nodes[other].term == s.nodes[l].term {
      OneWinner(s, s.nodes[l].term, l, other);
    }
  }

  /** What a sender's term says about a stable leader: its own, or an older one. */
  ghost predicate SenderIsStale(s: State, id: nat, term: nat, l: nat) {
    Stable(s, l) ==> if id == l then term == s.nodes[l].term else term < s.nodes[l].term
  }

  lemma LeadersTermIsStale(s: State, id: nat, l: nat)
    requires Inv(s) && id < |s.nodes| && id !in s.partitioned && s.nodes[id].role == Leader
    ensures SenderIsStale(s, id, s.nodes[id].term, l)
  {
    if Stable(s, l) && id != l { StableIsNewest(s, l, id); }
  }

  /** Elections already begun keep their place in the record. */
  ghost predicate Grows(s: State, t: State) {
    |s.campaigns| <= |t.campaigns| && forall c :: 0 <= c < |s.campaigns| ==> t.campaigns[c].id == s.campaigns[c].id
  }

  /** From `s` to `t` a stable leader kept its place, and only cut-off nodes campaigned. */
  ghost predicate KeepsLeader(s: State, t: State, l: nat) {
    && Grows(s, t)
    && (Stable(s, l) ==>
          && Stable(t, l) && t.nodes[l] == s.nodes[l] && t.partitioned == s.partitioned
          && forall c :: |s.campaigns| <= c < |t.campaigns| ==> t.campaigns[c].id in t.partitioned)
  }

  lemma KeepsLeaderTrans(s: State, t: State, u: State, l: nat)
    requires KeepsLeader(s, t, l) && KeepsLeader(t, u, l)
    ensures KeepsLeader(s, u, l)
  {
  }

  /** One follower's turn in a heartbeat round, run without interruption. */
  function Round(s: State, b: nat, deadline: int): State {
    var s1 := Apply(s, Beating(b, 0));
    if b >= |s1.beats| || s1.beats[b].pc.CheckFollower? then s1
    else
      var s2 := Apply(s1, Beating(b, deadline));
      if b >= |s2.beats| || s2.beats[b].pc.CheckFollower? then s2 else Apply(s2, Beating(b, 0))
  }

  /** What that turn does: the follower accepts, or the stale sender steps down. */
  lemma RoundEffect(s: State, b: nat, deadline: int)
    requires b < |s.beats| && s.beats[b].pc.CheckFollower? && s.beats[b].pc.next < |s.nodes| &&
      s.beats[b].id < |s.nodes|
    ensures var s', h := Round(s, b, deadline), s.beats[b];
            var peer := h.pc.next;
            var f := s.nodes[peer];
            && s'.beats == s.beats[b := h.(pc := CheckFollower(peer + 1))]
            && s'.partitioned == s.partitioned && s'.campaigns == s.campaigns
            && s'.nodes ==
                 if peer == h.id || peer in s.partitioned then s.nodes
                 else if h.term >= f.term then s.nodes[peer := Accept(f, h.term, deadline)]
                 else s.nodes[h.id := StepDown(s.nodes[h.id], f.term)]
  {
  }

  /** A stable leader survives every follower's turn, of its own round and of a staler leader's. */
  lemma RoundKeepsLeader(s: State, b: nat, deadline: int, l: nat)
    requires b < |s.beats| && s.beats[b].pc.CheckFollower? && s.beats[b].pc.next < |s.nodes| &&
      s.beats[b].id < |s.nodes|
    requires Stable(s, l) && s.beats[b].id !in s.partitioned
    requires if s.beats[b].id == l then s.beats[b].term == s.nodes[l].term else s.beats[b].term < s.nodes[l].term
    ensures Stable(Round(s, b, deadline), l) && Round(s, b, deadline).nodes[l] == s.nodes[l]
  {
    RoundEffect(s, b, deadline);
  }

  /** In its own round each follower reached stays quiet until the new deadline. */
  lemma RoundQuiets(s: State, b: nat, deadline: int, l: nat, now: int)
    requires b < |s.beats| && s.beats[b].pc.CheckFollower? && s.beats[b].pc.next < |s.nodes|
    requires Stable(s, l) && s.beats[b].id == l && s.beats[b].term == s.nodes[l].term && deadline > now
    requires QuietBelow(s, l, now, s.beats[b].pc.next)
    ensures QuietBelow(Round(s, b, deadline), l, now, s.beats[b].pc.next + 1)
  {
    RoundEffect(s, b, deadline);
  }

  /** What a heartbeat of `term` leaves of a node: it follows in that term, unless its own is newer. */
  ghost predicate Heard(f: NodeState, f': NodeState, term: nat, quiet: int) {
    if f.term > term then f' == f
    else
      && f'.role == Follower && f'.term == term && f'.deadline > quiet
      && f'.votedFor == if f.term < term then NOBODY else f.votedFor
  }

  /** The newest term that a sender finds among the first k nodes in its reach, or its own. */
  function Newest(s: State, id: nat, term: nat, k: nat): nat
    requires k <= |s.nodes|
  {
    if k == 0 then term
    else
      var n := Newest(s, id, term, k - 1);
      if k - 1 != id && k - 1 !in s.partitioned && s.nodes[k - 1].term > n then s.nodes[k - 1].term else n
  }

  lemma {:induction false} NewestIsGreatest(s: State, id: nat, term: nat, k: nat)
    requires k <= |s.nodes|
    ensures Newest(s, id, term, k) >= term
    ensures forall i :: 0 <= i < k && i != id && i !in s.partitioned ==> s.nodes[i].term <= Newest(s, id, term, k)
    ensures Newest(s, id, term, k) == term ||
      exists i :: 0 <= i < k && i != id && i !in s.partitioned && s.nodes[i].term == Newest(s, id, term, k)
  {
    if k == 0 {
    } else {
      NewestIsGreatest(s, id, term, k - 1);
    }
  }

  /** What a round of heartbeats has done to the first k nodes: those in reach have heard it, and
      a sender that met a newer term follows in the newest it met. */
  ghost predicate Delivered(s0: State, s: State, id: nat, term: nat, k: nat, quiet: int) {
    && id < |s.nodes| == |s0.nodes| && k <= |s.nodes|
    && (forall i :: 0 <= i < |s.nodes| && i != id ==>
          if i < k && i !in s0.partitioned then Heard(s0.nodes[i], s.nodes[i], term, quiet)
          else s.nodes[i] == s0.nodes[i])
    && s.nodes[id] ==
         if Newest(s0, id, term, k) > term
         then NodeState(Follower, Newest(s0, id, term, k), NOBODY, s0.nodes[id].deadline)
         else s0.nodes[id]
  }

  lemma DeliveredStep(s0: State, s: State, b: nat, deadline: int, quiet: int)
    requires b < |s.beats| && s.beats[b].pc.CheckFollower? && s.beats[b].pc.next < |s.nodes|
    requires s.partitioned == s0.partitioned && deadline > quiet
    requires var h := s.beats[b];
             h.id < |s0.nodes| && s0.nodes[h.id].term == h.term && Delivered(s0, s, h.id, h.term, h.pc.next, quiet)
    ensures Delivered(s0, Round(s, b, deadline), s.beats[b].id, s.beats[b].term, s.beats[b].pc.next + 1, quiet)
  {
    RoundEffect(s, b, deadline);
    NewestIsGreatest(s0, s.beats[b].id, s.beats[b].term, s.beats[b].pc.next);
  }

  /** What holds when round `b`, begun by `id` at `s0`, has reached follower `peer`. */
  ghost predicate Beaten(s0: State, s: State, b: nat, id: nat, term: nat, peer: nat, l: nat, now: int) {
    && b < |s.beats| && s.beats[b] == Beat(id, term, CheckFollower(peer))
    && |s.nodes| == |s0.nodes| && s.campaigns == s0.campaigns && s.partitioned == s0.partitioned
    && Delivered(s0, s, id, term, peer, now) && s0.nodes[id].term == term
    && (Stable(s0, l) ==> Stable(s, l) && s.nodes[l] == s0.nodes[l])
    && (Stable(s0, l) && l == id ==> QuietBelow(s, l, now, peer))
  }

  lemma BeatenAtStart(s0: State, id: nat, term: nat, l: nat, now: int)
    requires id < |s0.nodes| && s0.nodes[id].term == term
    ensures Beaten(s0, s0.(beats := s0.beats + [Beat(id, term, CheckFollower(0))]), |s0.beats|, id, term, 0, l, now)
  {
  }

  lemma BeatenAtEnd(s0: State, s: State, b: nat, id: nat, term: nat, l: nat, now: int)
    requires Beaten(s0, s, b, id, term, |s.nodes|, l, now)
    ensures KeepsLeader(s0, s, l) && (Stable(s0, l) && l == id ==> Quiet(s, l, now))
    ensures Delivered(s0, s, id, s0.nodes[id].term, |s.nodes|, now)
  {
  }

  lemma BeatenStep(s0: State, s: State, b: nat, id: nat, term: nat, peer: nat, l: nat, now: int, deadline: int)
    requires Beaten(s0, s, b, id, term, peer, l, now) && peer < |s.nodes| && deadline > now
    requires id < |s.nodes| && id !in s.partitioned
    requires SenderIsStale(s0, id, term, l)
    ensures Beaten(s0, Round(s, b, deadline), b, id, term, peer + 1, l, now)
  {
    RoundEffect(s, b, deadline);
    DeliveredStep(s0, s, b, deadline, now);
    if Stable(s0, l) {
      RoundKeepsLeader(s, b, deadline, l);
      if l == id { RoundQuiets(s, b, deadline, l, now); }
    }
  }

  /** One follower's turn after the other. */
  function Rounds(s: State, b: nat, deadlines: seq<int>): State {
    if deadlines == [] then s
    else Round(Rounds(s, b, deadlines[..|deadlines| - 1]), b, deadlines[|deadlines| - 1])
  }

  /** What the turns of a round of `id` come to. */
  lemma {:induction false} RoundsBeat(s0: State, s: State, b: nat, id: nat, term: nat, l: nat, quiet: int,
      deadlines: seq<int>)
    requires Beaten(s0, s, b, id, term, 0, l, quiet) && id !in s.partitioned && SenderIsStale(s0, id, term, l)
    requires |deadlines| <= |s.nodes| && forall d :: d in deadlines ==> d > quiet
    ensures Beaten(s0, Rounds(s, b, deadlines), b, id, term, |deadlines|, l, quiet)
    ensures Rounds(s, b, deadlines).partitioned == s.partitioned
  {
    if deadlines == [] {
    } else {
      var rest, last := deadlines[..|deadlines| - 1], deadlines[|deadlines| - 1];
      assert last in deadlines && forall d :: d in rest ==> d in deadlines;
      RoundsBeat(s0, s, b, id, term, l, quiet, rest);
      BeatenStep(s0, Rounds(s, b, rest), b, id, term, |rest|, l, quiet, last);
    }
  }

  /** A cut-off node campaigning alone disturbs nobody reachable. */
  lemma IsolatedElection(s: State, t: State, id: nat, l: nat, now: int)
    requires id < |s.nodes| && id in s.partitioned && t.partitioned == s.partitioned
    requires |t.nodes| == |s.nodes| && forall i :: 0 <= i < |s.nodes| && i != id ==> t.nodes[i] == s.nodes[i]
    requires Grows(s, t) && |t.campaigns| == |s.campaigns| + 1 && t.campaigns[|s.campaigns|].id == id
    ensures KeepsLeader(s, t, l)
    ensures Quiet(s, l, now) && l != id ==> Quiet(t, l, now)
  {
  }
}

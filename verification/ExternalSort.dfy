/** External merge sort: sorted runs of one chunk each, merged a bounded number
    at a time until one file is left.

    Files hold parsed integers and live in a map from names; reading and writing
    always succeed. */
module ExternalSort {
  import opened CeilLogs
  import opened MinHeap
  import opened Sequences
  import opened Sorting

  datatype Name = RunFile(number: nat) | MergeFile(pass: nat, first: int) | Output

  type Disk = map<Name, seq<int>>

  datatype Stats = Stats(records: nat, runs: nat, mergePasses: nat)

  // ------------------------------------------------------------------- values

  /** All the numbers of several files. */
  ghost function All(runs: seq<seq<int>>): multiset<int> {
    if runs == [] then multiset{} else multiset(runs[0]) + All(runs[1..])
  }

  lemma {:induction false} AllReplaced(runs: seq<seq<int>>, s: nat, x: int)
    requires s < |runs| && runs[s] != [] && runs[s][0] == x
    ensures All(runs) == All(runs[s := runs[s][1..]]) + multiset{x}
  {
    assert runs[s] == [x] + runs[s][1..];
    if s > 0 {
      AllReplaced(runs[1..], s - 1, x);
      assert runs[s := runs[s][1..]][1..] == runs[1..][s - 1 := runs[s][1..]];
    } else {
      assert runs[s := runs[s][1..]][1..] == runs[1..];
    }
  }

  lemma {:induction false} AllEmpty(runs: seq<seq<int>>)
    requires forall s :: 0 <= s < |runs| ==> runs[s] == []
    ensures All(runs) == multiset{}
  {
    if runs == [] {
    } else {
      AllEmpty(runs[1..]);
    }
  }

  // -------------------------------------------------------------------- merging

  /** The heap holds the head of every run that has something left. */
  ghost predicate Heads(h: seq<Item>, left: seq<seq<int>>) {
    && (forall x :: x in h ==> x.source < |left| && left[x.source] != [] && left[x.source][0] == x.value)
    && (forall s :: 0 <= s < |left| && left[s] != [] ==> multiset(h)[Item(left[s][0], s)] == 1)
  }

  method MergeRuns(runs: seq<seq<int>>) returns (out: seq<int>)
    requires forall s :: 0 <= s < |runs| ==> Ascending(runs[s])
    ensures Ascending(out) && multiset(out) == All(runs)
  {
    var left := runs;
    var h := FirstHeads(runs);
    out := [];
    while h != []
      invariant Ordered(h) && Heads(h, left) && Merging(out, left, runs)
      decreases |All(left)|
    {
      ghost var h0, left0 := h, left;
      var it;
      it, h := Pop(h);
      var s := it.source;
      LeastHead(h0, left0, it);
      MergeStep(out, left0, runs, s);
      HeadsWithout(h0, left0, it, h);
      out := out + [it.value];
      left := left[s := left[s][1..]];
      if left[s] != [] {
        ghost var h1 := h;
        h := Push(h, Item(left[s][0], s));
        HeadsBack(h1, left, s, h);
      } else {
        HeadsDone(h, left, s);
      }
    }
    NoHeadsLeft(h, left);
    AllEmpty(left);
  }

  /** What was written and what is left make up the runs, the smaller numbers first. */
  ghost predicate Merging(out: seq<int>, left: seq<seq<int>>, runs: seq<seq<int>>) {
    && |left| == |runs| && (forall s :: 0 <= s < |left| ==> Ascending(left[s]))
    && multiset(out) + All(left) == All(runs)
    && Ascending(out)
    && (out != [] ==> forall s :: 0 <= s < |left| && left[s] != [] ==> out[|out| - 1] <= left[s][0])
  }

  lemma MergeStep(out: seq<int>, left: seq<seq<int>>, runs: seq<seq<int>>, s: nat)
    requires Merging(out, left, runs) && s < |left| && left[s] != []
    requires forall t :: 0 <= t < |left| && left[t] != [] ==> left[s][0] <= left[t][0]
    ensures Merging(out + [left[s][0]], left[s := left[s][1..]], runs)
    ensures |All(left[s := left[s][1..]])| < |All(left)|
  {
    var x, left' := left[s][0], left[s := left[s][1..]];
    AllMoved(out, left, s);
    HeadsStay(left, s);
    AppendGreatest(out, x);
  }

  lemma AllMoved(out: seq<int>, left: seq<seq<int>>, s: nat)
    requires s < |left| && left[s] != []
    ensures multiset(out + [left[s][0]]) + All(left[s := left[s][1..]]) == multiset(out) + All(left)
    ensures |All(left[s := left[s][1..]])| < |All(left)|
  {
    AllReplaced(left, s, left[s][0]);
  }

  lemma HeadsStay(left: seq<seq<int>>, s: nat)
    requires (forall t :: 0 <= t < |left| ==> Ascending(left[t])) && s < |left| && left[s] != []
    requires forall t :: 0 <= t < |left| && left[t] != [] ==> left[s][0] <= left[t][0]
    ensures var left' := left[s := left[s][1..]];
            forall t :: 0 <= t < |left'| ==> Ascending(left'[t]) && (left'[t] != [] ==> left[s][0] <= left'[t][0])
  {
  }

  lemma AppendGreatest(s: seq<int>, x: int)
    requires Ascending(s) && (s != [] ==> s[|s| - 1] <= x)
    ensures Ascending(s + [x])
  {
  }

  /** Heads but for the run `s`, which has none in the heap. */
  ghost predicate HeadsBut(h: seq<Item>, left: seq<seq<int>>, s: nat) {
    && (forall x :: x in h ==>
      x.source < |left| && x.source != s && left[x.source] != [] && left[x.source][0] == x.value)
    && (forall t :: 0 <= t < |left| && t != s && left[t] != [] ==> multiset(h)[Item(left[t][0], t)] == 1)
  }

  lemma NoHeadsLeft(h: seq<Item>, left: seq<seq<int>>)
    requires Heads(h, left) && h == []
    ensures forall s :: 0 <= s < |left| ==> left[s] == []
  {
  }

  lemma LeastHead(h: seq<Item>, left: seq<seq<int>>, it: Item)
    requires Heads(h, left) && it in h && forall y :: y in h ==> it.value <= y.value
    ensures it.source < |left| && left[it.source] != [] && left[it.source][0] == it.value
    ensures forall s :: 0 <= s < |left| && left[s] != [] ==> it.value <= left[s][0]
  {
    forall s | 0 <= s < |left| && left[s] != [] ensures it.value <= left[s][0] {
      assert Item(left[s][0], s) in multiset(h);
    }
  }

  lemma HeadsWithout(h0: seq<Item>, left0: seq<seq<int>>, it: Item, h: seq<Item>)
    requires Heads(h0, left0) && it in h0 && multiset(h) == multiset(h0) - multiset{it} && it.source < |left0| &&
      left0[it.source] != []
    ensures HeadsBut(h, left0[it.source := left0[it.source][1..]], it.source)
  {
    forall x | x in h ensures x in h0 && x.source != it.source {
      assert x in multiset(h) && x in multiset(h0);
      assert x.source == it.source ==> x == it;
    }
  }

  lemma HeadsBack(h: seq<Item>, left: seq<seq<int>>, s: nat, h': seq<Item>)
    requires HeadsBut(h, left, s) && s < |left| && left[s] != []
    requires multiset(h') == multiset(h) + multiset{Item(left[s][0], s)}
    ensures Heads(h', left)
  {
    var x := Item(left[s][0], s);
    assert x !in multiset(h) by { assert x !in h; }
    forall y | y in h' ensures y == x || y in h {
      assert y in multiset(h');
    }
  }

  lemma HeadsDone(h: seq<Item>, left: seq<seq<int>>, s: nat)
    requires HeadsBut(h, left, s) && s < |left| && left[s] == []
    ensures Heads(h, left)
  {
  }

  method FirstHeads(runs: seq<seq<int>>) returns (h: seq<Item>)
    ensures Ordered(h) && Heads(h, runs)
  {
    h := [];
    for i := 0 to |runs|
      invariant Ordered(h)
      invariant forall x :: x in h ==> x.source < i && runs[x.source] != [] && runs[x.source][0] == x.value
      invariant forall s :: 0 <= s < i && runs[s] != [] ==> multiset(h)[Item(runs[s][0], s)] == 1
    {
      if runs[i] != [] {
        ghost var h0 := h;
        var x := Item(runs[i][0], i);
        h := Push(h, x);
        forall y | y in h ensures y == x || y in h0 {
          assert y in multiset(h);
        }
        assert x !in multiset(h0) by { assert x !in h0; }
      }
    }
  }

  // ----------------------------------------------------------------------- files

  ghost predicate OnDisk(disk: Disk, names: seq<Name>) {
    forall i :: 0 <= i < |names| ==> names[i] in disk
  }

  /** A missing file reads as empty. */
  function Read(disk: Disk, name: Name): seq<int> {
    if name in disk then disk[name] else []
  }

  function Contents(disk: Disk, names: seq<Name>): seq<seq<int>> {
    seq(|names|, i requires 0 <= i < |names| => Read(disk, names[i]))
  }

  ghost predicate Distinct(names: seq<Name>) {
    forall i, j :: 0 <= i < j < |names| ==> names[i] != names[j]
  }

  /** Files that each hold an ascending run. */
  ghost predicate RunFiles(disk: Disk, names: seq<Name>) {
    OnDisk(disk, names) && Distinct(names) && forall i :: 0 <= i < |names| ==> Ascending(disk[names[i]])
  }

  /** How many records fill the buffer: one at least. */
  function Fill(chunkSize: nat): nat {
    if chunkSize == 0 then 1 else chunkSize
  }

  /** One run for each full buffer and one for the rest; without a buffer one for each record. */
  lemma RunsNeeded(n: nat, chunkSize: nat)
    ensures Ceil(n, Fill(chunkSize)) ==
      if chunkSize == 0 then n else n / chunkSize + if n % chunkSize == 0 then 0 else 1
  {
    if chunkSize > 0 {
      CeilBounds(n, chunkSize);
      Between(Ceil(n, chunkSize), n / chunkSize + if n % chunkSize == 0 then 0 else 1, chunkSize);
    }
  }

  /** Where group j starts when groups have d members. */
  function Start(j: nat, d: nat): nat {
    if j == 0 then 0 else Start(j - 1, d) + d
  }

  lemma {:induction false} StartIsProduct(j: nat, d: nat)
    ensures Start(j, d) == j * d
  {
    if j == 0 {
    } else {
      StartIsProduct(j - 1, d);
      Distribute(j - 1, d);
    }
  }

  lemma {:induction false} StartGrows(j: nat, k: nat, d: nat)
    requires j < k
    ensures Start(j, d) + d <= Start(k, d)
  {
    if j + 1 < k {
      StartGrows(j, k - 1, d);
    }
  }

  lemma Appended(disk: Disk, names: seq<Name>, name: Name, content: seq<int>)
    requires RunFiles(disk, names) && name !in names && Ascending(content)
    ensures var disk', names' := disk[name := content], names + [name];
            && RunFiles(disk', names') && Contents(disk', names') == Contents(disk, names) + [content]
            && All(Contents(disk', names')) == All(Contents(disk, names)) + multiset(content)
  {
    var disk', names' := disk[name := content], names + [name];
    assert Contents(disk', names') == Contents(disk, names) + [content];
    AllAppend(Contents(disk, names), content);
  }

  lemma {:induction false} AllAppend(a: seq<seq<int>>, x: seq<int>)
    ensures All(a + [x]) == All(a) + multiset(x)
  {
    if a == [] {
      assert [x][1..] == [];
    } else {
      AllAppend(a[1..], x);
      assert (a + [x])[1..] == a[1..] + [x];
    }
  }

  /** Phase 1: sorted runs of one buffer each. */
  method SplitIntoSortedRuns(input: seq<int>, chunkSize: nat, disk0: Disk) returns (disk: Disk, runs: seq<Name>)
    ensures Spilled(input, chunkSize, disk0, disk, runs)
    ensures |runs| == Ceil(|input|, Fill(chunkSize))
  {
    disk, runs := disk0, [];
    var buf: seq<int> := [];
    for i := 0 to |input|
      invariant Split(input[..i], chunkSize, disk0, disk, runs, buf) && |buf| < Fill(chunkSize)
    {
      ReadOne(input, i, chunkSize, disk0, disk, runs, buf);
      buf := buf + [input[i]];
      if |buf| >= chunkSize {
        disk, runs := Flush(input[..i + 1], chunkSize, disk0, disk, runs, buf);
        buf := [];
      }
    }
    assert input[..|input|] == input;
    LastBuffer(|input|, Fill(chunkSize), |runs|, |buf|);
    if buf != [] {
      disk, runs := Flush(input, chunkSize, disk0, disk, runs, buf);
    }
  }

  lemma ReadOne(input: seq<int>, i: nat, chunkSize: nat, disk0: Disk, disk: Disk, runs: seq<Name>, buf: seq<int>)
    requires i < |input| && Split(input[..i], chunkSize, disk0, disk, runs, buf)
    ensures Split(input[..i + 1], chunkSize, disk0, disk, runs, buf + [input[i]])
  {
    assert input[..i + 1] == input[..i] + [input[i]];
  }

  /** The records read so far are in the runs and the buffer. */
  ghost predicate Split(done: seq<int>, chunkSize: nat, disk0: Disk, disk: Disk, runs: seq<Name>, buf: seq<int>) {
    && RunFiles(disk, runs) && All(Contents(disk, runs)) + multiset(buf) == multiset(done)
    && |done| == Start(|runs|, Fill(chunkSize)) + |buf|
    && ChunkFiles(chunkSize, disk, runs) && OnlyWrote(disk0, disk, runs)
  }

  /** The files of phase 1: numbered, none of them empty or longer than the buffer. */
  ghost predicate ChunkFiles(chunkSize: nat, disk: Disk, runs: seq<Name>) {
    forall i :: 0 <= i < |runs| ==> runs[i] == RunFile(i) && 0 < |Read(disk, runs[i])| <= Fill(chunkSize)
  }

  ghost predicate Spilled(done: seq<int>, chunkSize: nat, disk0: Disk, disk: Disk, runs: seq<Name>) {
    && RunFiles(disk, runs) && All(Contents(disk, runs)) == multiset(done)
    && ChunkFiles(chunkSize, disk, runs) && OnlyWrote(disk0, disk, runs)
  }

  method Flush(ghost done: seq<int>, ghost chunkSize: nat, ghost disk0: Disk, disk: Disk, runs: seq<Name>,
      buf: seq<int>)
    returns (disk': Disk, runs': seq<Name>)
    requires Split(done, chunkSize, disk0, disk, runs, buf) && 0 < |buf| <= Fill(chunkSize)
    ensures |runs'| == |runs| + 1 && (|buf| == Fill(chunkSize) ==> Split(done, chunkSize, disk0, disk', runs', []))
    ensures Spilled(done, chunkSize, disk0, disk', runs')
  {
    var name := RunFile(|runs|);
    disk' := disk[name := Sorted(buf)];
    runs' := runs + [name];
    FlushKeeps(done, chunkSize, disk0, disk, runs, buf);
  }

  lemma FlushKeeps(done: seq<int>, chunkSize: nat, disk0: Disk, disk: Disk, runs: seq<Name>, buf: seq<int>)
    requires Split(done, chunkSize, disk0, disk, runs, buf) && 0 < |buf| <= Fill(chunkSize)
    ensures var name := RunFile(|runs|); Spilled(done, chunkSize, disk0, disk[name := Sorted(buf)], runs + [name])
  {
    var name := RunFile(|runs|);
    SameLength(buf);
    Appended(disk, runs, name, Sorted(buf));
    OneMoreName(disk0, disk, runs, name, Sorted(buf));
    ChunkAdded(chunkSize, disk, runs, Sorted(buf));
  }

  lemma ChunkAdded(chunkSize: nat, disk: Disk, runs: seq<Name>, content: seq<int>)
    requires ChunkFiles(chunkSize, disk, runs) && 0 < |content| <= Fill(chunkSize)
    ensures ChunkFiles(chunkSize, disk[RunFile(|runs|) := content], runs + [RunFile(|runs|)])
  {
  }

  lemma SameLength(s: seq<int>)
    ensures |Sorted(s)| == |s|
  {
    assert |s| == |multiset(s)| && |Sorted(s)| == |multiset(Sorted(s))|;
  }

  lemma LastBuffer(n: nat, fill: nat, runs: nat, rest: nat)
    requires rest < fill && n == Start(runs, fill) + rest
    ensures Ceil(n, fill) == if rest == 0 then runs else runs + 1
  {
    StartIsProduct(runs, fill);
    CeilBounds(n, fill);
    Distribute(runs, fill);
    Between(Ceil(n, fill), if rest == 0 then runs else runs + 1, fill);
  }

  // ---------------------------------------------------------------------- passes

  /** The files one pass leaves: the output if one merge was enough, else one for each group. */
  function Target(count: nat, width: nat, pass: nat, i: int): Name {
    if count > width then MergeFile(pass, i) else Output
  }

  /** None of the files is one that this pass writes. */
  ghost predicate Older(names: seq<Name>, pass: nat) {
    forall i :: 0 <= i < |names| ==> !names[i].Output? && (names[i].MergeFile? ==> names[i].pass < pass)
  }

  /** One pass: merges each group of at most `width` files into one. */
  method MergePass(disk0: Disk, current: seq<Name>, width: nat, pass: nat) returns (disk: Disk, next: seq<Name>)
    requires width >= 1 && |current| >= 2 && RunFiles(disk0, current)
    requires Older(current, pass)
    ensures RunFiles(disk, next) && All(Contents(disk, next)) == All(Contents(disk0, current))
    ensures |next| == Ceil(|current|, width)
    ensures Named(|current|, width, pass, next) && OnlyWrote(disk0, disk, next)
  {
    disk, next := disk0, [];
    var i := 0;
    while i < |current|
      invariant Merged(disk0, current, width, pass, i, disk, next)
      decreases |current| - i
    {
      var end := if i + width <= |current| then i + width else |current|;
      var group := current[i..end];
      var target := if |current| > width || end - i < |current| then MergeFile(pass, i) else Output;
      disk, next := MergeGroup(disk0, current, width, pass, i, end, group, target, disk, next);
      i := i + width;
    }
    GroupCount(|current|, width, |next|, i);
    assert current[..|current|] == current;
  }

  /** The groups before place i are merged; the later files are as they were. */
  ghost predicate Merged(disk0: Disk, current: seq<Name>, width: nat, pass: nat, i: nat, disk: Disk, next: seq<Name>)
  {
    && i == Start(|next|, width) && i < |current| + width
    && RunFiles(disk, next)
    && (var done := if i <= |current| then i else |current|;
        All(Contents(disk, next)) == All(Contents(disk0, current[..done])))
    && Unread(disk0, current, disk) && Named(|current|, width, pass, next) && OnlyWrote(disk0, disk, next)
  }

  ghost predicate Unread(disk0: Disk, names: seq<Name>, disk: Disk) {
    forall j :: 0 <= j < |names| ==> names[j] in disk && Read(disk, names[j]) == Read(disk0, names[j])
  }

  ghost predicate Named(count: nat, width: nat, pass: nat, next: seq<Name>) {
    forall j :: 0 <= j < |next| ==> next[j] == Target(count, width, pass, Start(j, width))
  }

  ghost predicate OnlyWrote(disk0: Disk, disk: Disk, names: seq<Name>) {
    forall n :: n !in names ==> SameFile(disk0, disk, n)
  }

  /** A file that both disks have, or neither. */
  ghost predicate SameFile(disk0: Disk, disk: Disk, n: Name) {
    (n in disk <==> n in disk0) && (n in disk ==> disk[n] == disk0[n])
  }

  lemma GroupCount(n: nat, width: nat, groups: nat, i: nat)
    requires width > 0 && i == Start(groups, width) && n <= i < n + width
    ensures groups == Ceil(n, width)
  {
    StartIsProduct(groups, width);
    CeilBounds(n, width);
    Between(groups, Ceil(n, width), width);
  }

  method MergeGroup(ghost disk0: Disk, ghost current: seq<Name>, ghost width: nat, ghost pass: nat, ghost i: nat,
      ghost end: nat, group: seq<Name>, target: Name, disk: Disk, next: seq<Name>)
    returns (disk': Disk, next': seq<Name>)
    requires width >= 1 && RunFiles(disk0, current) && Merged(disk0, current, width, pass, i, disk, next) &&
      i < |current|
    requires Older(current, pass) && target == Target(|current|, width, pass, i)
    requires end == (if i + width <= |current| then i + width else |current|) && group == current[i..end]
    ensures Merged(disk0, current, width, pass, i + width, disk', next')
    ensures |group| <= width
  {
    var runs := Contents(disk, group);
    assert runs == Contents(disk0, current[i..end]);
    var merged := MergeRuns(runs);
    disk', next' := disk[target := merged], next + [target];
    MergedGrows(disk0, current, width, pass, i, end, disk, next, merged);
  }

  lemma MergedGrows(disk0: Disk, current: seq<Name>, width: nat, pass: nat, i: nat, end: nat, disk: Disk,
      next: seq<Name>, merged: seq<int>)
    requires width >= 1 && RunFiles(disk0, current) && Merged(disk0, current, width, pass, i, disk, next) &&
      i < |current|
    requires Older(current, pass) && end == (if i + width <= |current| then i + width else |current|)
    requires Ascending(merged) && multiset(merged) == All(Contents(disk0, current[i..end]))
    ensures var target := Target(|current|, width, pass, i);
            Merged(disk0, current, width, pass, i + width, disk[target := merged], next + [target])
  {
    var target := Target(|current|, width, pass, i);
    TargetIsNew(|current|, width, pass, next, i);
    Appended(disk, next, target, merged);
    GroupContents(disk0, current, i, end);
    OthersUnread(disk0, current, disk, target, merged);
    OneMoreName(disk0, disk, next, target, merged);
    NamedGrows(|current|, width, pass, next);
  }

  lemma NamedGrows(count: nat, width: nat, pass: nat, next: seq<Name>)
    requires Named(count, width, pass, next)
    ensures Named(count, width, pass, next + [Target(count, width, pass, Start(|next|, width))])
    ensures Start(|next| + 1, width) == Start(|next|, width) + width
  {
  }

  lemma OthersUnread(disk0: Disk, names: seq<Name>, disk: Disk, name: Name, content: seq<int>)
    requires Unread(disk0, names, disk) && name !in names
    ensures Unread(disk0, names, disk[name := content])
  {
  }

  lemma OneMoreName(disk0: Disk, disk: Disk, names: seq<Name>, name: Name, content: seq<int>)
    requires OnlyWrote(disk0, disk, names)
    ensures OnlyWrote(disk0, disk[name := content], names + [name])
  {
    var more := names + [name];
    assert more[|names|] == name;
    forall n | n !in more ensures SameFile(disk0, disk[name := content], n) {
      assert forall i :: 0 <= i < |names| ==> names[i] == more[i];
    }
  }

  lemma GroupContents(disk: Disk, names: seq<Name>, i: nat, end: nat)
    requires i <= end <= |names|
    ensures All(Contents(disk, names[..end])) == All(Contents(disk, names[..i])) + All(Contents(disk, names[i..end]))
  {
    assert Contents(disk, names[..end]) == Contents(disk, names[..i]) + Contents(disk, names[i..end]);
    AllConcat(Contents(disk, names[..i]), Contents(disk, names[i..end]));
  }

  lemma {:induction false} AllConcat(a: seq<seq<int>>, b: seq<seq<int>>)
    ensures All(a + b) == All(a) + All(b)
    decreases |b|
  {
    if b == [] {
      NothingAdded(a);
    } else {
      var b', x := b[..|b| - 1], b[|b| - 1];
      AllConcat(a, b');
      assert b == b' + [x];
      Assoc(a, b', [x]);
      AllAppend(a + b', x);
      AllAppend(b', x);
    }
  }

  lemma TargetIsNew(count: nat, width: nat, pass: nat, next: seq<Name>, i: nat)
    requires width > 0 && i == Start(|next|, width) && i < count
    requires Named(count, width, pass, next)
    ensures Target(count, width, pass, i) !in next
  {
    forall j | 0 <= j < |next| ensures next[j] != Target(count, width, pass, i) {
      StartGrows(j, |next|, width);
    }
  }

  // ---------------------------------------------------------------------- the sort

  /** Between passes: what is left holds the input, under names no later pass writes, and
      the files of `gone` were dropped. */
  ghost predicate Pending(input: seq<int>, disk0: Disk, disk: Disk, current: seq<Name>, passes: nat, gone: set<Name>) {
    && current != [] && RunFiles(disk, current) && All(Contents(disk, current)) == multiset(input)
    && (|current| >= 2 ==> Older(current, passes + 1))
    && Dropped(disk0, disk, current, gone)
  }

  /** Beside `current` there is what was there before, without the files of `gone`. */
  ghost predicate Dropped(disk0: Disk, disk: Disk, current: seq<Name>, gone: set<Name>) {
    forall n :: n !in current ==> if n in gone then n !in disk else SameFile(disk0, disk, n)
  }

  function NameSet(names: seq<Name>): set<Name> {
    set n | n in names
  }

  lemma DropsMore(disk0: Disk, before: Disk, disk: Disk, current: seq<Name>, next: seq<Name>, gone: set<Name>)
    requires Dropped(disk0, before, current, gone) && OnlyWrote(before, disk, next)
    ensures Dropped(disk0, Removed(disk, current), next, gone + NameSet(current))
  {
    var gone', disk' := gone + NameSet(current), Removed(disk, current);
    forall n | n !in next ensures if n in gone' then n !in disk' else SameFile(disk0, disk', n) {
      assert SameFile(before, disk, n);
    }
  }

  function RunNames(r: nat): set<Name> {
    set i | 0 <= i < r :: RunFile(i)
  }

  /** The files of pass `pass` over r files, and of the passes after it. */
  function MergeNames(r: nat, width: nat, pass: nat): set<Name>
    requires width >= 2
    decreases r
  {
    if r <= width then {}
    else
      CeilShrinks(r, width);
      PassNames(r, width, pass) + MergeNames(Ceil(r, width), width, pass + 1)
  }

  function PassNames(r: nat, width: nat, pass: nat): set<Name>
    requires width >= 2
  {
    set j | 0 <= j < Ceil(r, width) :: MergeFile(pass, Start(j, width))
  }

  /** All temporary files of a sort with r runs. */
  function Temporary(r: nat, width: nat): set<Name> {
    RunNames(r) + if width >= 2 && r >= 2 then MergeNames(r, width, 1) else {}
  }

  lemma NextNames(r: nat, width: nat, pass: nat, next: seq<Name>)
    requires width >= 2 && r >= 2 && Named(r, width, pass, next) && |next| == Ceil(r, width)
    ensures |next| >= 2 ==> NameSet(next) == PassNames(r, width, pass)
    ensures |next| >= 2 <==> r > width
  {
    CeilWithin(r, width, 1);
    if |next| >= 2 {
      forall n ensures n in NameSet(next) <==> n in PassNames(r, width, pass) {
        if n in PassNames(r, width, pass) {
          var j :| 0 <= j < Ceil(r, width) && MergeFile(pass, Start(j, width)) == n;
          assert next[j] == n;
        }
      }
    }
  }

  /** The files dropped, and those still to come. */
  ghost predicate Accounted(gone: set<Name>, current: seq<Name>, runs: nat, width: nat, passes: nat)
    requires width >= 2
  {
    gone + (if |current| >= 2 then NameSet(current) + MergeNames(|current|, width, passes + 1) else {})
      == RunNames(runs) + MergeNames(runs, width, 1)
  }

  lemma AccountedOn(gone: set<Name>, current: seq<Name>, runs: nat, width: nat, passes: nat, next: seq<Name>)
    requires width >= 2 && |current| >= 2 && Accounted(gone, current, runs, width, passes)
    requires Named(|current|, width, passes + 1, next) && |next| == Ceil(|current|, width)
    ensures Accounted(gone + NameSet(current), next, runs, width, passes + 1)
  {
    NextNames(|current|, width, passes + 1, next);
  }

  lemma RunsAreNamed(runs: seq<Name>)
    requires forall i :: 0 <= i < |runs| ==> runs[i] == RunFile(i)
    ensures NameSet(runs) == RunNames(|runs|)
  {
    forall n | n in RunNames(|runs|) ensures n in NameSet(runs) {
      var i :| 0 <= i < |runs| && RunFile(i) == n;
      assert runs[i] == n;
    }
  }

  /** Drops the files of a finished pass. */
  function Removed(disk: Disk, names: seq<Name>): Disk {
    map n | n in disk && n !in names :: disk[n]
  }

  lemma RemovedKeeps(disk: Disk, old_: seq<Name>, next: seq<Name>)
    requires RunFiles(disk, next) && forall n :: n in next ==> n !in old_
    ensures RunFiles(Removed(disk, old_), next) && Contents(Removed(disk, old_), next) == Contents(disk, next)
  {
    var disk' := Removed(disk, old_);
    forall i | 0 <= i < |next| ensures next[i] in disk' && disk'[next[i]] == disk[next[i]] {
      assert next[i] in next;
    }
    assert Contents(disk', next) == Contents(disk, next);
  }

  /** Phase 2: passes until one file is left. */
  method MergeAll(ghost input: seq<int>, ghost disk0: Disk, disk1: Disk, runs: seq<Name>, width: nat)
    returns (disk: Disk, last: Name, passes: nat, ghost gone: set<Name>)
    requires width >= 2 && |runs| >= 2 && Pending(input, disk0, disk1, runs, 0, {})
    requires forall i :: 0 <= i < |runs| ==> runs[i] == RunFile(i)
    ensures passes == Passes(|runs|, width)
    ensures Pending(input, disk0, disk, [last], passes, gone) && last == Output
    ensures gone == Temporary(|runs|, width)
  {
    disk, passes, gone := disk1, 0, {};
    var current := runs;
    FirstPass(input, disk0, disk1, runs, width);
    while |current| > 1
      invariant BetweenPasses(input, disk0, disk, current, |runs|, width, passes, gone)
      decreases |current|
    {
      passes := passes + 1;
      disk, current, gone := MergeOnce(input, disk0, disk, current, |runs|, width, passes, gone);
    }
    LastPass(input, disk0, disk, current, |runs|, width, passes, gone);
    last := current[0];
  }

  /** What holds between passes, of the files and of the counts. */
  ghost predicate BetweenPasses(input: seq<int>, disk0: Disk, disk: Disk, current: seq<Name>, runs: nat, width: nat,
      passes: nat, gone: set<Name>)
    requires width >= 2
  {
    && Pending(input, disk0, disk, current, passes, gone) && (|current| == 1 ==> current[0] == Output)
    && Counted(gone, current, runs, width, passes)
  }

  ghost predicate Counted(gone: set<Name>, current: seq<Name>, runs: nat, width: nat, passes: nat)
    requires width >= 2
  {
    passes + Passes(|current|, width) == Passes(runs, width) && Accounted(gone, current, runs, width, passes)
  }

  lemma CountedOn(gone: set<Name>, current: seq<Name>, runs: nat, width: nat, pass: nat, next: seq<Name>)
    requires width >= 2 && |current| >= 2 && pass >= 1 && Counted(gone, current, runs, width, pass - 1)
    requires Named(|current|, width, pass, next) && |next| == Ceil(|current|, width)
    ensures Counted(gone + NameSet(current), next, runs, width, pass)
  {
    CeilShrinks(|current|, width);
    AccountedOn(gone, current, runs, width, pass - 1, next);
  }

  lemma FirstPass(input: seq<int>, disk0: Disk, disk: Disk, runs: seq<Name>, width: nat)
    requires width >= 2 && |runs| >= 2 && Pending(input, disk0, disk, runs, 0, {})
    requires forall i :: 0 <= i < |runs| ==> runs[i] == RunFile(i)
    ensures BetweenPasses(input, disk0, disk, runs, |runs|, width, 0, {})
  {
    RunsAreNamed(runs);
  }

  lemma LastPass(input: seq<int>, disk0: Disk, disk: Disk, current: seq<Name>, runs: nat, width: nat, passes: nat,
      gone: set<Name>)
    requires width >= 2 && runs >= 2 && |current| <= 1
    requires BetweenPasses(input, disk0, disk, current, runs, width, passes, gone)
    ensures current == [Output] && passes == Passes(runs, width) && gone == Temporary(runs, width)
  {
    assert current == [current[0]];
  }

  /** One pass, and the files it merged dropped. */
  method MergeOnce(ghost input: seq<int>, ghost disk0: Disk, before: Disk, current: seq<Name>, ghost runs: nat,
      width: nat, pass: nat, ghost gone: set<Name>)
    returns (disk: Disk, next: seq<Name>, ghost gone': set<Name>)
    requires width >= 2 && |current| >= 2 && pass >= 1
    requires BetweenPasses(input, disk0, before, current, runs, width, pass - 1, gone)
    ensures BetweenPasses(input, disk0, disk, next, runs, width, pass, gone')
    ensures |next| < |current|
  {
    disk, next := MergePass(before, current, width, pass);
    NextPass(input, disk0, before, disk, current, next, runs, width, pass, gone);
    disk, gone' := Removed(disk, current), gone + NameSet(current);
  }

  lemma NextPass(input: seq<int>, disk0: Disk, before: Disk, disk: Disk, current: seq<Name>, next: seq<Name>, runs: nat,
      width: nat, pass: nat, gone: set<Name>)
    requires width >= 2 && |current| >= 2 && pass >= 1
    requires BetweenPasses(input, disk0, before, current, runs, width, pass - 1, gone)
    requires RunFiles(disk, next) && All(Contents(disk, next)) == All(Contents(before, current))
    requires |next| == Ceil(|current|, width) && Named(|current|, width, pass, next) && OnlyWrote(before, disk, next)
    ensures BetweenPasses(input, disk0, Removed(disk, current), next, runs, width, pass, gone + NameSet(current))
    ensures |next| < |current|
  {
    CeilShrinks(|current|, width);
    PassKeepsPending(input, disk0, before, disk, current, next, width, pass, gone);
    CountedOn(gone, current, runs, width, pass, next);
  }

  lemma PassKeepsPending(input: seq<int>, disk0: Disk, before: Disk, disk: Disk, current: seq<Name>, next: seq<Name>,
      width: nat, pass: nat, gone: set<Name>)
    requires width >= 2 && |current| >= 2 && pass >= 1 && Pending(input, disk0, before, current, pass - 1, gone)
    requires RunFiles(disk, next) && All(Contents(disk, next)) == All(Contents(before, current))
    requires |next| == Ceil(|current|, width) && Named(|current|, width, pass, next) && OnlyWrote(before, disk, next)
    ensures Pending(input, disk0, Removed(disk, current), next, pass, gone + NameSet(current))
    ensures |next| == 1 ==> next[0] == Output
  {
    CeilShrinks(|current|, width);
    NextIsNew(current, |current|, width, pass, next);
    NextIsOlder(|current|, width, pass, next);
    RemovedKeeps(disk, current, next);
    DropsMore(disk0, before, disk, current, next, gone);
  }

  lemma NextIsNew(current: seq<Name>, count: nat, width: nat, pass: nat, next: seq<Name>)
    requires Older(current, pass) && Named(count, width, pass, next)
    ensures forall n :: n in next ==> n !in current
  {
  }

  lemma NextIsOlder(count: nat, width: nat, pass: nat, next: seq<Name>)
    requires width >= 2 && count >= 2 && Named(count, width, pass, next) && |next| == Ceil(count, width)
    ensures |next| >= 2 ==> Older(next, pass + 1)
    ensures |next| == 1 ==> next[0] == Output
  {
    CeilWithin(count, width, 1);
  }

  /** The output holds the sorted input; every other file is as it was, but that those named
      like a temporary one are gone. */
  ghost predicate Delivered(input: seq<int>, disk0: Disk, disk: Disk, temporary: set<Name>) {
    disk == (disk0 - temporary)[Output := Sorted(input)]
  }

  /** Sorts the input into the output file, leaving no file of its own behind. With more
      than one run the merge width must be two at least: see `EndsExactly`. */
  method Sort(input: seq<int>, chunkSize: nat, width: nat, disk0: Disk) returns (disk: Disk, stats: Stats)
    requires width >= 2 || |input| <= Fill(chunkSize)
    ensures Delivered(input, disk0, disk, Temporary(stats.runs, width))
    ensures stats.records == |input| && stats.runs == Ceil(|input|, Fill(chunkSize))
    ensures stats.mergePasses == if width >= 2 then Passes(Ceil(|input|, Fill(chunkSize)), width) else 0
  {
    CeilWithin(|input|, Fill(chunkSize), 1);
    var runs;
    disk, runs := SplitIntoSortedRuns(input, chunkSize, disk0);
    var passes := 0;
    if |runs| == 0 {
      NothingToSort(input, Fill(chunkSize), disk0, disk);
      disk := disk[Output := []];
    } else if |runs| == 1 {
      OneRun(input, disk0, disk, runs);
      disk := Renamed(disk, runs[0]);
    } else {
      var last;
      ghost var gone;
      disk, last, passes, gone := MergeAll(input, disk0, disk, runs, width);
      OneFileIsSorted(input, disk, last);
      AllDropped(input, disk0, disk, gone);
    }
    stats := Stats(|input|, |runs|, passes);
  }

  lemma AllDropped(input: seq<int>, disk0: Disk, disk: Disk, gone: set<Name>)
    requires Output in disk && disk[Output] == Sorted(input) && Dropped(disk0, disk, [Output], gone)
    ensures Delivered(input, disk0, disk, gone)
  {
    var after := (disk0 - gone)[Output := Sorted(input)];
    forall n ensures SameFile(after, disk, n) {
      if n != Output {
        assert n !in [Output];
      }
    }
    SameFilesSameDisk(after, disk);
  }

  lemma SameFilesSameDisk(disk0: Disk, disk: Disk)
    requires forall n :: SameFile(disk0, disk, n)
    ensures disk == disk0
  {
    forall n ensures (n in disk <==> n in disk0) && (n in disk ==> disk[n] == disk0[n]) {
      assert SameFile(disk0, disk, n);
    }
  }

  function Renamed(disk: Disk, name: Name): Disk {
    Removed(disk[Output := Read(disk, name)], [name])
  }

  lemma OneFileIsSorted(input: seq<int>, disk: Disk, name: Name)
    requires RunFiles(disk, [name]) && All(Contents(disk, [name])) == multiset(input)
    ensures name in disk && disk[name] == Sorted(input)
  {
    assert [name][0] == name && Contents(disk, [name]) == [disk[name]];
    assert [disk[name]][1..] == [];
    OnlyOneSorted(disk[name], Sorted(input));
  }

  lemma OneRun(input: seq<int>, disk0: Disk, disk: Disk, runs: seq<Name>)
    requires |runs| == 1 && RunFiles(disk, runs) && All(Contents(disk, runs)) == multiset(input)
    requires runs[0] == RunFile(0) && OnlyWrote(disk0, disk, runs)
    ensures forall width: nat :: Delivered(input, disk0, Renamed(disk, runs[0]), Temporary(1, width))
  {
    assert runs == [RunFile(0)];
    OneFileIsSorted(input, disk, runs[0]);
    RunsAreNamed(runs);
    var disk' := Renamed(disk, runs[0]);
    forall n | n !in [Output] ensures if n in RunNames(1) then n !in disk' else SameFile(disk0, disk', n) {
      assert n != RunFile(0) ==> n !in runs;
    }
    AllDropped(input, disk0, disk', RunNames(1));
    assert forall width: nat :: Temporary(1, width) == RunNames(1);
  }

  lemma NothingToSort(input: seq<int>, fill: nat, disk0: Disk, disk: Disk)
    requires fill > 0 && Ceil(|input|, fill) == 0 && OnlyWrote(disk0, disk, [])
    ensures forall width: nat :: Delivered(input, disk0, disk[Output := []], Temporary(0, width))
  {
    CeilBounds(|input|, fill);
    forall n ensures SameFile(disk0, disk, n) {
      var none: seq<Name> := [];
      assert n !in none;
    }
    SameFilesSameDisk(disk0, disk);
    assert forall width: nat :: disk0 - Temporary(0, width) == disk0;
  }
}

/** The transactional outbox and its relay.

    Orders and events commit together; one relay publishes what is committed,
    in order, and marks it afterwards. Other transactions may commit before each
    turn of the relay and between its publishing and its marking, and each turn
    may be cancelled, refused by the broker, or end in a crash before the mark. */
module Outbox {
  import opened ByteStrings
  import opened Sequences
  import opened Sorting

  datatype Row = Row(aggregate: Str, published: bool, attempts: nat)

  /** What a transaction holds: the orders, and the aggregates of its events. */
  datatype Tx = Tx(orders: seq<Str>, events: seq<Str>)

  /** How one turn of the relay's loop goes. */
  datatype How = Cancelled | Refused | CrashBeforeMark | Accepted

  /** One turn: what commits before it, how it goes, what commits before the mark. */
  datatype Turn = Turn(before: seq<Tx>, how: How, between: seq<Tx>)

  datatype Reason = Finished | Stopped

  // ------------------------------------------------------------ what is promised

  /** 1, 2, ..., in order and without a gap, each once or more in place. */
  ghost predicate Staircase(log: seq<int>) {
    && (log != [] ==> log[0] == 1)
    && forall i :: 0 <= i < |log| - 1 ==> log[i + 1] == log[i] || log[i + 1] == log[i] + 1
  }

  function Last(log: seq<int>): int {
    if log == [] then 0 else log[|log| - 1]
  }

  lemma {:induction false} StaircaseHoldsAll(log: seq<int>, id: int)
    requires Staircase(log) && 1 <= id <= Last(log)
    ensures id in log
  {
    var n := |log| - 1;
    if n > 0 && log[n] != id {
      assert log[n] == log[n - 1 + 1];
      StaircaseHoldsAll(log[..n], id);
    }
  }

  lemma {:induction false} StaircaseIsBounded(log: seq<int>, i: nat)
    requires Staircase(log) && i < |log|
    ensures 1 <= log[i] <= Last(log)
    decreases |log|
  {
    var n := |log| - 1;
    if n > 0 {
      assert log[n - 1 + 1] == log[n];
      StaircaseIsBounded(log[..n], if i < n then i else n - 1);
    }
  }

  /** Nothing published overtakes: an earlier place never holds a later event. */
  lemma {:induction false} StaircaseAscends(log: seq<int>, i: nat, j: nat)
    requires Staircase(log) && i <= j < |log|
    ensures log[i] <= log[j]
    decreases j
  {
    if i < j {
      StaircaseAscends(log, i, j - 1);
      assert log[j - 1 + 1] == log[j];
    }
  }

  lemma StaircaseGrows(log: seq<int>, id: int)
    requires Staircase(log) && (id == Last(log) || id == Last(log) + 1) && id >= 1
    ensures Staircase(log + [id]) && Last(log + [id]) == id
  {
  }

  // ---------------------------------------------------------------- pending events

  /** The numbers from `from` on, `n` of them. */
  function Run(from: int, n: nat): (r: seq<int>)
    ensures |r| == n && forall i :: 0 <= i < n ==> r[i] == from + i
  {
    if n == 0 then [] else Run(from, n - 1) + [from + n - 1]
  }

  lemma {:induction false} AtLeast(ids: seq<int>, from: int, i: nat)
    requires Strict(ids) && i < |ids| && (forall k :: 0 <= k < |ids| ==> from <= ids[k])
    ensures ids[i] >= from + i
  {
    if i == 0 {
    } else {
      AtLeast(ids, from, i - 1);
    }
  }

  lemma {:induction false} AtMost(ids: seq<int>, last: int, i: nat)
    requires Strict(ids) && i < |ids| && (forall k :: 0 <= k < |ids| ==> ids[k] <= last)
    ensures ids[i] <= last - (|ids| - 1 - i)
    decreases |ids| - i
  {
    if i < |ids| - 1 {
      AtMost(ids, last, i + 1);
    }
  }

  lemma {:induction false} PlaceOf(ids: seq<int>, from: int, last: int) returns (n: nat)
    requires Strict(ids) && from <= last + 1
    requires forall x :: from <= x <= last ==> Has(ids, x)
    ensures n == last + 1 - from && |ids| >= n
    decreases last + 1 - from
  {
    n := last + 1 - from;
    if n > 0 {
      assert Has(ids, last);
      var i :| 0 <= i < |ids| && ids[i] == last;
      forall x | from <= x <= last - 1 ensures Has(ids[..i], x) {
        assert Has(ids, x);
        var k :| 0 <= k < |ids| && ids[k] == x;
        assert k < i;
        assert ids[..i][k] == x;
      }
      var m := PlaceOf(ids[..i], from, last - 1);
    }
  }

  /** Strictly ascending numbers that are exactly those of an interval are all of it in order. */
  lemma StrictIsRun(ids: seq<int>, from: int, last: int)
    requires Strict(ids) && from <= last + 1
    requires (forall i :: 0 <= i < |ids| ==> from <= ids[i] <= last) && forall x :: from <= x <= last ==> Has(ids, x)
    ensures ids == Run(from, last + 1 - from)
  {
    var n := PlaceOf(ids, from, last);
    if ids != [] {
      AtMost(ids, last, 0);
    }
    forall i | 0 <= i < |ids| ensures ids[i] == from + i {
      AtLeast(ids, from, i);
      AtMost(ids, last, i);
    }
  }

  lemma SortedIsRun(found: seq<int>, from: int, last: int)
    requires NoRepeats(found) && from <= last + 1 && forall x :: Has(found, x) <==> from <= x <= last
    ensures Sorted(found) == Run(from, last + 1 - from)
  {
    var ids := Sorted(found);
    SortedIsStrict(found);
    forall x ensures Has(ids, x) <==> from <= x <= last {
      SortedHas(found, x);
    }
    HasAll(ids, from, last);
    StrictIsRun(ids, from, last);
  }

  lemma RunHas(from: int, n: nat)
    ensures forall x :: x in Run(from, n) <==> from <= x < from + n
  {
    forall x | from <= x < from + n ensures x in Run(from, n) {
      assert Run(from, n)[x - from] == x;
    }
  }

  lemma RunPrefix(from: int, n: nat, k: nat)
    requires k <= n
    ensures Run(from, n)[..k] == Run(from, k)
  {
  }

  // --------------------------------------------------------------------- the tables

  ghost predicate HasEvent(outbox: map<nat, Row>, order: Str) {
    exists id :: id in outbox && outbox[id].aggregate == order
  }

  /** No order without its event, no event without its order. */
  ghost predicate Together(orders: set<Str>, outbox: map<nat, Row>) {
    && (forall o :: o in orders ==> HasEvent(outbox, o))
    && (forall id :: id in outbox ==> outbox[id].aggregate in orders)
  }

  /** A transaction that brings an event for each of its orders, and the orders of its events. */
  ghost predicate Paired(tx: Tx) {
    forall o :: o in tx.orders <==> o in tx.events
  }

  ghost predicate AllPaired(txs: seq<Tx>) {
    forall i :: 0 <= i < |txs| ==> Paired(txs[i])
  }

  /** The outbox with new events, numbered on from `next`. */
  function Appended(outbox: map<nat, Row>, next: nat, events: seq<Str>): map<nat, Row> {
    if events == [] then outbox
    else
      var n := |events| - 1;
      Appended(outbox, next, events[..n])[next + n + 1 := Row(events[n], false, 0)]
  }

  lemma {:induction false} AppendedRows(outbox: map<nat, Row>, next: nat, events: seq<Str>)
    requires forall id :: id in outbox ==> id <= next
    ensures var after := Appended(outbox, next, events);
            && (forall id :: id in after <==> id in outbox || next < id <= next + |events|)
            && (forall id :: id in outbox ==> after[id] == outbox[id])
            && (forall id :: next < id <= next + |events| ==> after[id] == Row(events[id - next - 1], false, 0))
  {
    if events == [] {
    } else {
      var n := |events| - 1;
      AppendedRows(outbox, next, events[..n]);
      assert forall i :: 0 <= i < n ==> events[..n][i] == events[i];
    }
  }

  lemma AppendedTogether(orders: set<Str>, outbox: map<nat, Row>, next: nat, tx: Tx)
    requires Together(orders, outbox) && Paired(tx) && forall id :: id in outbox ==> id <= next
    ensures Together(orders + Members(tx.orders), Appended(outbox, next, tx.events))
  {
    var orders', after := orders + Members(tx.orders), Appended(outbox, next, tx.events);
    AppendedRows(outbox, next, tx.events);
    forall o | o in orders' ensures HasEvent(after, o) {
      if o in orders {
        var id :| id in outbox && outbox[id].aggregate == o;
        assert id in after && after[id].aggregate == o;
      } else {
        var i :| 0 <= i < |tx.events| && tx.events[i] == o;
        var id := next + i + 1;
        assert id in after && after[id].aggregate == o;
      }
    }
    forall id | id in after ensures after[id].aggregate in orders' {
      if id !in outbox {
        assert tx.events[id - next - 1] in tx.events;
      }
    }
  }

  function Members(os: seq<Str>): set<Str> {
    set o | o in os
  }

  /** No row is lost or renamed; only `refused` has one attempt more. */
  ghost predicate Kept(before: map<nat, Row>, after: map<nat, Row>, refused: int) {
    forall id :: id in before ==>
      id in after && after[id].aggregate == before[id].aggregate
      && after[id].attempts == before[id].attempts + if id == refused then 1 else 0
  }

  lemma KeptTogether(orders: set<Str>, before: map<nat, Row>, after: map<nat, Row>)
    requires Together(orders, before) && before.Keys == after.Keys && forall i :: i in before ==>
      after[i].aggregate == before[i].aggregate
    ensures Together(orders, after)
  {
    forall o | o in orders ensures HasEvent(after, o) {
      var id :| id in before && before[id].aggregate == o;
      assert id in after && after[id].aggregate == o;
    }
  }

  ghost predicate AllTurnsPaired(turns: nat -> Turn) {
    forall k: nat :: TurnPaired(turns(k))
  }

  ghost predicate TurnPaired(turn: Turn) {
    AllPaired(turn.before) && AllPaired(turn.between)
  }

  /** What a batch of `due` events adds to the log when its turns go as `turns` says: the
      events one by one, up to the first turn that goes wrong. */
  ghost predicate Went(log0: seq<int>, log: seq<int>, first: int, due: nat, turns: nat -> Turn, published: nat,
      reason: Reason) {
    && published <= due && (forall k :: 0 <= k < published ==> turns(k).how == Accepted)
    && (reason == Finished <==> published == due) && (reason == Stopped ==> turns(published).how != Accepted)
    && log == log0 + Run(first, published) + Extra(turns, first, published, reason)
  }

  /** An event the broker has but that was not marked. */
  ghost function Extra(turns: nat -> Turn, first: int, published: nat, reason: Reason): seq<int> {
    if reason == Stopped && turns(published).how == CrashBeforeMark then [first + published] else []
  }

  /** The event that a broker refused; 0 if none. */
  ghost function RefusedBy(turns: nat -> Turn, first: int, published: nat, reason: Reason): int {
    if reason == Stopped && turns(published).how == Refused then first + published else 0
  }

  lemma WentNowhere(log: seq<int>, first: int, turns: nat -> Turn)
    ensures Went(log, log, first, 0, turns, 0, Finished)
  {
    NothingAdded(log);
    NothingAdded(log + Run(first, 0));
  }

  /** The log after a turn for event `id`. */
  function LogAfter(log: seq<int>, id: int, how: How): seq<int> {
    if how == Accepted || how == CrashBeforeMark then log + [id] else log
  }

  lemma WentOn(log0: seq<int>, log: seq<int>, first: int, turns: nat -> Turn, published: nat)
    requires Went(log0, log, first, published, turns, published, Finished) && turns(published).how == Accepted
    ensures Went(log0, LogAfter(log, first + published, Accepted), first, published + 1, turns, published + 1, Finished)
  {
    NothingAdded(log0 + Run(first, published));
    OneMore(log0, first, published);
    NothingAdded(log0 + Run(first, published + 1));
  }

  lemma WentWrong(log0: seq<int>, log: seq<int>, first: int, due: nat, turns: nat -> Turn, published: nat)
    requires Went(log0, log, first, published, turns, published, Finished) && turns(published).how != Accepted
    requires published < due
    ensures Went(log0, LogAfter(log, first + published, turns(published).how), first, due, turns, published, Stopped)
  {
    NothingAdded(log0 + Run(first, published));
  }

  // ---------------------------------------------------------------------- the system

  class System {
    var orders: set<Str>
    var outbox: map<nat, Row>
    var nextID: nat
    var log: seq<int>              // what the broker accepted
    ghost var marked: nat          // events 1 to `marked` are marked published

    ghost predicate Valid()
      reads this
    {
      && (forall id :: id in outbox <==> 1 <= id <= nextID)
      && marked <= nextID
      && (forall id :: id in outbox ==> (outbox[id].published <==> id <= marked))
      && Staircase(log) && (Last(log) == marked || Last(log) == marked + 1) && Last(log) <= nextID
    }

    constructor ()
      ensures Valid() && log == [] && orders == {} && outbox == map[]
    {
      orders, outbox, nextID, log, marked := {}, map[], 0, [], 0;
    }

    /** All that a transaction holds, or nothing of it. */
    method Commit(tx: Tx, fails: bool) returns (ok: bool)
      requires Valid()
      modifies this`orders, this`outbox, this`nextID
      ensures Valid() && ok == !fails
      ensures ok ==> orders == old(orders) + Members(tx.orders) && nextID == old(nextID) + |tx.events|
      ensures ok ==> outbox == Appended(old(outbox), old(nextID), tx.events)
      ensures !ok ==> unchanged(this)
      ensures old(Together(orders, outbox)) && Paired(tx) ==> Together(orders, outbox)
    {
      if fails {
        return false;
      }
      AppendedRows(outbox, nextID, tx.events);
      if Together(orders, outbox) && Paired(tx) {
        AppendedTogether(orders, outbox, nextID, tx);
      }
      InsertOrders(tx.orders);
      InsertEvents(tx.events);
      return true;
    }

    method InsertOrders(os: seq<Str>)
      modifies this`orders
      ensures orders == old(orders) + Members(os)
    {
      for i := 0 to |os|
        invariant orders == old(orders) + Members(os[..i])
      {
        assert os[..i + 1] == os[..i] + [os[i]];
        orders := orders + {os[i]};
      }
      assert os[..|os|] == os;
    }

    method InsertEvents(events: seq<Str>)
      modifies this`outbox, this`nextID
      ensures outbox == Appended(old(outbox), old(nextID), events) && nextID == old(nextID) + |events|
    {
      for i := 0 to |events|
        invariant nextID == old(nextID) + i && outbox == Appended(old(outbox), old(nextID), events[..i])
      {
        assert events[..i + 1][..i] == events[..i];
        nextID := nextID + 1;
        outbox := outbox[nextID := Row(events[i], false, 0)];
      }
      assert events[..|events|] == events;
    }

    /** The application's own transaction: one order and its event. */
    method PlaceOrder(order: Str, commitFails: bool) returns (ok: bool)
      requires Valid()
      modifies this`orders, this`outbox, this`nextID
      ensures Valid() && ok == !commitFails
      ensures ok ==> orders == old(orders) + {order} && nextID == old(nextID) + 1
                     && outbox == old(outbox)[nextID := Row(order, false, 0)]
      ensures !ok ==> unchanged(this)
      ensures old(Together(orders, outbox)) ==> Together(orders, outbox)
    {
      var tx := Tx([order], [order]);
      assert Members(tx.orders) == {order} && tx.events[..0] == [];
      ok := Commit(tx, commitFails);
    }

    /** The first events not marked, in order. */
    method UnpublishedEvents(limit: int) returns (ids: seq<int>)
      requires Valid()
      ensures ids == Run(marked + 1, Due(limit))
      ensures |ids| == if limit <= 0 || limit >= nextID - marked then nextID - marked else limit
      ensures forall i, j :: 0 <= i < j < |ids| ==> ids[i] < ids[j]
      ensures forall id: nat :: id in ids ==> id in outbox && !outbox[id].published
      ensures forall id: nat :: id in outbox && !outbox[id].published && id !in ids ==> forall x :: x in ids ==> x < id
    {
      ids := Pending();
      if 0 < limit < |ids| {
        RunPrefix(marked + 1, |ids|, limit);
        ids := ids[..limit];
      }
      RunHas(marked + 1, |ids|);
    }

    /** Every event not marked, in order. */
    method Pending() returns (ids: seq<int>)
      requires Valid()
      ensures ids == Run(marked + 1, nextID - marked)
    {
      var found := Unmarked();
      SortedIsRun(found, marked + 1, nextID);
      ids := Sorted(found);
    }

    /** Every event not marked, once, in whatever order the table gives them. */
    method Unmarked() returns (ids: seq<int>)
      requires Valid()
      ensures NoRepeats(ids) && forall x :: Has(ids, x) <==> marked + 1 <= x <= nextID
    {
      ids := [];
      var todo := outbox.Keys;
      while todo != {}
        invariant todo <= outbox.Keys && NoRepeats(ids)
        invariant forall x :: Has(ids, x) <==> x in outbox && x !in todo && !outbox[x].published
        decreases |todo|
      {
        var id :| id in todo;
        if !outbox[id].published {
          HasAppended(ids, id);
          ids := ids + [id];
        }
        todo := todo - {id};
      }
    }

    /** How many events a batch takes. */
    ghost function Due(limit: int): nat
      requires Valid()
      reads this
    {
      if 0 < limit < nextID - marked then limit else nextID - marked
    }

    method MarkPublished(id: int)
      requires Valid() && id == marked + 1 && id == Last(log)
      modifies this`outbox, this`marked
      ensures Valid() && marked == id && id in old(outbox) &&
        outbox == old(outbox)[id := old(outbox)[id].(published := true)]
      ensures old(Together(orders, outbox)) ==> Together(orders, outbox)
    {
      outbox := outbox[id := outbox[id].(published := true)];
      marked := id;
      if old(Together(orders, outbox)) {
        KeptTogether(orders, old(outbox), outbox);
      }
    }

    method RecordFailure(id: int)
      requires Valid() && id in outbox
      modifies this`outbox
      ensures Valid() && outbox == old(outbox)[id := old(outbox)[id].(attempts := old(outbox)[id].attempts + 1)]
      ensures old(Together(orders, outbox)) ==> Together(orders, outbox)
    {
      outbox := outbox[id := outbox[id].(attempts := outbox[id].attempts + 1)];
      if old(Together(orders, outbox)) {
        KeptTogether(orders, old(outbox), outbox);
      }
    }

    method Publish(id: int)
      requires Valid() && id == marked + 1 <= nextID
      modifies this`log
      ensures Valid() && log == old(log) + [id] && Last(log) == id
    {
      StaircaseGrows(log, id);
      log := log + [id];
    }

    /** Whatever other transactions commit meanwhile. */
    method Meanwhile(txs: seq<Tx>)
      requires Valid()
      modifies this`orders, this`outbox, this`nextID
      ensures Valid() && nextID >= old(nextID) && orders >= old(orders) && Kept(old(outbox), outbox, 0)
      ensures old(Together(orders, outbox)) && AllPaired(txs) ==> Together(orders, outbox)
    {
      for i := 0 to |txs|
        invariant Valid() && nextID >= old(nextID) && orders >= old(orders) && Kept(old(outbox), outbox, 0)
        invariant old(Together(orders, outbox)) && AllPaired(txs) ==> Together(orders, outbox)
      {
        AppendedRows(outbox, nextID, txs[i].events);
        var _ := Commit(txs[i], false);
      }
    }

    /** One turn of the loop; `go` when it goes on. */
    method RelayOne(id: int, turn: Turn) returns (go: bool)
      requires Valid() && id == marked + 1 <= nextID
      modifies this
      ensures Valid() && Done(old(marked), old(log), id, turn.how, go)
      ensures nextID >= old(nextID) && orders >= old(orders)
      ensures Kept(old(outbox), outbox, if turn.how == Refused then id else 0)
      ensures old(Together(orders, outbox)) && TurnPaired(turn) ==> Together(orders, outbox)
    {
      Meanwhile(turn.before);
      go := Attempt(id, turn.how, turn.between);
    }

    /** What a turn does to the marks and to what the broker has. */
    ghost predicate Done(marked0: nat, log0: seq<int>, id: int, how: How, go: bool)
      reads this`marked, this`log
    {
      && (go <==> how == Accepted) && (marked == if go then marked0 + 1 else marked0)
      && log == LogAfter(log0, id, how)
    }

    method Attempt(id: int, how: How, between: seq<Tx>) returns (go: bool)
      requires Valid() && id == marked + 1 <= nextID
      modifies this
      ensures Valid() && Done(old(marked), old(log), id, how, go)
      ensures nextID >= old(nextID) && orders >= old(orders)
      ensures Kept(old(outbox), outbox, if how == Refused then id else 0)
      ensures old(Together(orders, outbox)) && AllPaired(between) ==> Together(orders, outbox)
    {
      match how {
        case Cancelled =>
          return false;
        case Refused =>
          RecordFailure(id);
          return false;
        case CrashBeforeMark =>
          Publish(id);
          return false;
        case Accepted =>
          PublishAndMark(id, between);
          return true;
      }
    }

    method PublishAndMark(id: int, between: seq<Tx>)
      requires Valid() && id == marked + 1 <= nextID
      modifies this
      ensures Valid() && marked == id && log == old(log) + [id]
      ensures nextID >= old(nextID) && orders >= old(orders) && Kept(old(outbox), outbox, 0)
      ensures old(Together(orders, outbox)) && AllPaired(between) ==> Together(orders, outbox)
    {
      Publish(id);
      Meanwhile(between);
      MarkPublished(id);
    }

    /** One batch: the events due are published one by one, up to the first turn that goes wrong. */
    method RunOnce(batch: int, turns: nat -> Turn) returns (published: nat, reason: Reason)
      requires Valid()
      modifies this
      ensures Valid() && marked == old(marked) + published
      ensures Went(old(log), log, old(marked) + 1, old(Due(batch)), turns, published, reason)
      ensures forall k :: 0 <= k < published ==> turns(k).how == Accepted
      ensures reason == Stopped ==> turns(published).how != Accepted
      ensures reason == Finished ==>
        published == if batch <= 0 || batch >= old(nextID - marked) then old(nextID - marked) else batch
      ensures |log| == |old(log)| + published +
        if reason == Stopped && turns(published).how == CrashBeforeMark then 1 else 0
      ensures old(log) <= log && forall i :: |old(log)| <= i < |log| ==> log[i] == old(marked) + 1 + i - |old(log)|
      ensures nextID >= old(nextID) && orders >= old(orders)
      ensures Kept(old(outbox), outbox, RefusedBy(turns, old(marked) + 1, published, reason))
      ensures old(Together(orders, outbox)) && AllTurnsPaired(turns) ==> Together(orders, outbox)
      ensures old(Due(batch)) == 0 ==> unchanged(this)
    {
      var ids := UnpublishedEvents(batch);
      published, reason := RelayAll(ids, turns);
    }

    /** The loop over the events of a batch. */
    method RelayAll(ids: seq<int>, turns: nat -> Turn) returns (published: nat, reason: Reason)
      requires Valid() && ids == Run(marked + 1, |ids|) && marked + |ids| <= nextID
      modifies this
      ensures Valid() && marked == old(marked) + published
      ensures Went(old(log), log, old(marked) + 1, |ids|, turns, published, reason)
      ensures nextID >= old(nextID) && orders >= old(orders)
      ensures Kept(old(outbox), outbox, RefusedBy(turns, old(marked) + 1, published, reason))
      ensures old(Together(orders, outbox)) && AllTurnsPaired(turns) ==> Together(orders, outbox)
      ensures ids == [] ==> unchanged(this)
    {
      ghost var log0, first := log, marked + 1;
      ghost var together := Together(orders, outbox) && AllTurnsPaired(turns);
      published, reason := 0, Finished;
      WentNowhere(log, first, turns);
      while published < |ids|
        invariant Valid() && published <= |ids| && marked + 1 == first + published && reason == Finished
        invariant Went(log0, log, first, published, turns, published, Finished)
        invariant nextID >= old(nextID) && orders >= old(orders) && Kept(old(outbox), outbox, 0)
        invariant together ==> Together(orders, outbox)
        invariant ids == [] ==> unchanged(this)
        decreases |ids| - published
      {
        reason := RelayNext(ids[published], turns, published, |ids|, log0, first);
        if reason == Stopped {
          return;
        }
        published := published + 1;
      }
    }

    /** One more turn of a batch whose log was `log0`. */
    method RelayNext(id: int, turns: nat -> Turn, published: nat, ghost due: nat, ghost log0: seq<int>,
        ghost first: int)
      returns (reason: Reason)
      requires Valid() && id == first + published == marked + 1 <= nextID && published < due
      requires Went(log0, log, first, published, turns, published, Finished)
      modifies this
      ensures Valid() && marked == if reason == Finished then old(marked) + 1 else old(marked)
      ensures reason == Finished ==> Went(log0, log, first, published + 1, turns, published + 1, Finished)
      ensures reason == Stopped ==> Went(log0, log, first, due, turns, published, Stopped)
      ensures nextID >= old(nextID) && orders >= old(orders)
      ensures Kept(old(outbox), outbox, RefusedBy(turns, first, published, reason))
      ensures old(Together(orders, outbox)) && TurnPaired(turns(published)) ==> Together(orders, outbox)
    {
      ghost var before := log;
      var go := RelayOne(id, turns(published));
      if go {
        WentOn(log0, before, first, turns, published);
        reason := Finished;
      } else {
        WentWrong(log0, before, first, due, turns, published);
        reason := Stopped;
      }
    }

    /** Rounds until one finds nothing to publish, or a turn goes wrong. */
    method RunUntilDrained(batch: int, maxRounds: nat, turns: nat -> nat -> Turn) returns (total: nat, reason: Reason)
      requires Valid()
      modifies this
      ensures Valid() && marked == old(marked) + total
      ensures old(log) <= log && orders >= old(orders) && nextID >= old(nextID)
      ensures reason == Finished && marked < nextID ==> total >= maxRounds
      ensures reason == Stopped ==> exists i: nat, k: nat :: i < maxRounds && turns(i)(k).how != Accepted
    {
      total := 0;
      for i := 0 to maxRounds
        invariant Valid() && marked == old(marked) + total && total >= i
        invariant old(log) <= log && orders >= old(orders) && nextID >= old(nextID)
      {
        var n;
        n, reason := RunOnce(batch, turns(i));
        total := total + n;
        if reason == Stopped {
          return;
        }
        if n == 0 {
          return;
        }
      }
      reason := Finished;
    }

    /** What holds at every moment: nothing marked is missing, nothing uncommitted went out. */
    lemma AtLeastOnceInOrder(id: int)
      requires Valid()
      ensures id in outbox && outbox[id].published ==> id in log
      ensures id in log ==> id in outbox
    {
      if id in outbox && outbox[id].published {
        StaircaseHoldsAll(log, id);
      }
      if id in log {
        var i :| 0 <= i < |log| && log[i] == id;
        StaircaseIsBounded(log, i);
      }
    }
  }

  lemma OneMore(log: seq<int>, first: int, n: nat)
    ensures (log + Run(first, n)) + [first + n] == log + Run(first, n + 1)
  {
    Assoc(log, Run(first, n), [first + n]);
  }

  lemma HasAll(ids: seq<int>, from: int, last: int)
    requires forall x :: Has(ids, x) <==> from <= x <= last
    ensures forall i :: 0 <= i < |ids| ==> from <= ids[i] <= last
  {
    assert forall i :: 0 <= i < |ids| ==> Has(ids, ids[i]);
  }

  lemma HasAppended(ids: seq<int>, id: int)
    ensures forall x :: Has(ids + [id], x) <==> Has(ids, x) || x == id
    ensures NoRepeats(ids) && !Has(ids, id) ==> NoRepeats(ids + [id])
  {
    var ids' := ids + [id];
    assert ids'[|ids|] == id;
    forall x | Has(ids, x) ensures Has(ids', x) {
      var i :| 0 <= i < |ids| && ids[i] == x;
      assert ids'[i] == x;
    }
  }
}

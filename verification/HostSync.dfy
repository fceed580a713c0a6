/** Two threads and a queue. The monitor compares the rows of the database with what it saw before and queues
    one event per difference; the launcher applies the events to the running streams. A turn of either thread
    is one loop iteration, and turns interleave in any order. */
module HostSync {
  import opened Hosts
  import opened Containers

  datatype Phase = Asleep | Adding(i: nat) | Removing(j: nat)

  datatype Turn = Poll(rows: seq<Host>) | Monitor | Launcher

  /** The streams the launcher will have made after the first k waiting events hold no account twice. */
  ghost predicate AllDistinct(streams: seq<Host>, events: seq<Host>) {
    forall k :: 0 <= k <= |events| ==> Distinct(ProcessAll(streams, events[..k]))
  }

  /** The rows as the monitor keeps them: it marks those it has reported as regrouped. */
  predicate Marked(newHosts: seq<Host>, rows: seq<Host>, i: nat) {
    && i <= |rows| == |newHosts|
    && (forall k :: 0 <= k < i ==> newHosts[k] == rows[k].(changes := newHosts[k].changes))
    && (forall k :: i <= k < |rows| ==> newHosts[k] == rows[k])
  }

  /** What the monitor has established at each point of a poll of rows. */
  ghost predicate Reached(phase: Phase, previous: seq<Host>, newHosts: seq<Host>, rows: seq<Host>, completed: nat) {
    match phase
    case Asleep => completed > 0 ==> Mirrors(previous, rows)
    case Adding(i) => Marked(newHosts, rows, i) && Covers(previous, rows[..i])
    case Removing(j) =>
      Marked(newHosts, rows, |rows|) && Covers(previous, rows) && j <= |previous|
      && forall k :: 0 <= k < j ==> Has(rows, previous[k])
  }

  lemma LastGroupSnoc(rows: seq<Host>, x: Host, h: Host)
    ensures LastGroup(rows + [x], h) == if Same(x, h) then x.group else LastGroup(rows, h)
  {
    assert (rows + [x])[..|rows|] == rows;
  }

  /** A row of an unknown account is followed by the account's first entry. */
  lemma AddMissing(previous: seq<Host>, rows: seq<Host>, x: Host)
    requires Covers(previous, rows) && !Has(previous, x)
    ensures Covers(previous + [x], rows + [x])
    ensures Distinct(previous) ==> Distinct(previous + [x])
  {
    forall h | Has(rows + [x], h)
      ensures Has(previous + [x], h) && (previous + [x])[Find(previous + [x], h)].group == LastGroup(rows + [x], h)
    {
      LastGroupSnoc(rows, x, h);
      FindAppend(previous, x, h);
      FindAppend(rows, x, h);
      if Same(x, h) { FindSame(previous, x, h); }
    }
  }

  /** A row of a known account gives the account's entry its group. */
  lemma AddKnown(previous: seq<Host>, rows: seq<Host>, x: Host)
    requires Covers(previous, rows) && Has(previous, x)
    ensures Covers(Regroup(previous, Find(previous, x), x.group), rows + [x])
    ensures Distinct(previous) ==> Distinct(Regroup(previous, Find(previous, x), x.group))
  {
    var i := Find(previous, x);
    var s := Regroup(previous, i, x.group);
    forall h | Has(rows + [x], h) ensures Has(s, h) && s[Find(s, h)].group == LastGroup(rows + [x], h) {
      LastGroupSnoc(rows, x, h);
      FindAppend(rows, x, h);
      FindRegroup(previous, i, x.group, h);
      if Same(x, h) {
        FindSame(previous, x, h);
      } else {
        assert Find(previous, h) != i;
      }
    }
  }

  /** Every entry before it has a row, so the entry without one is the first of its account. */
  lemma FirstLost(previous: seq<Host>, rows: seq<Host>, j: nat)
    requires j < |previous| && !Has(rows, previous[j])
    requires forall k :: 0 <= k < j ==> Has(rows, previous[k])
    ensures Find(previous, previous[j]) == j
  {
    var x := previous[j];
    forall k | 0 <= k < j ensures !Same(previous[k], x) {
      if Same(previous[k], x) { FindSame(rows, previous[k], x); }
    }
    FirstAt(previous, x, j);
  }

  /** An entry without a row goes; no row loses its entry. */
  lemma RemoveLost(previous: seq<Host>, rows: seq<Host>, j: nat)
    requires Covers(previous, rows) && j < |previous| && !Has(rows, previous[j])
    requires forall k :: 0 <= k < j ==> Has(rows, previous[k])
    ensures Find(previous, previous[j]) == j
    ensures Covers(Without(previous, j), rows)
    ensures Distinct(previous) ==> Distinct(Without(previous, j))
    ensures forall k :: 0 <= k < j ==> Has(rows, Without(previous, j)[k])
  {
    FirstLost(previous, rows, j);
    var s := Without(previous, j);
    forall h | Has(rows, h) ensures Has(s, h) && s[Find(s, h)].group == LastGroup(rows, h) {
      KeepsRow(previous, rows, j, h);
    }
    DistinctWithout(previous, j);
  }

  lemma KeepsRow(previous: seq<Host>, rows: seq<Host>, j: nat, h: Host)
    requires Covers(previous, rows) && j < |previous| && !Has(rows, previous[j]) && Has(rows, h)
    ensures Has(Without(previous, j), h)
    ensures Without(previous, j)[Find(Without(previous, j), h)].group == LastGroup(rows, h)
  {
    hide LastGroup;
    if Same(previous[j], h) { FindSame(rows, previous[j], h); }
    FindWithout(previous, j, h);
  }

  lemma DistinctWithout(hosts: seq<Host>, j: nat)
    requires j < |hosts|
    ensures Distinct(hosts) ==> Distinct(Without(hosts, j))
  {
    var s := Without(hosts, j);
    forall a, b | 0 <= a < b < |s| && Distinct(hosts) ensures !Same(s[a], s[b]) {
      assert s[a] == hosts[if a < j then a else a + 1];
      assert s[b] == hosts[if b < j then b else b + 1];
    }
  }

  lemma MarkedFind(newHosts: seq<Host>, rows: seq<Host>, h: Host)
    requires Marked(newHosts, rows, |rows|)
    ensures Find(newHosts, h) == Find(rows, h) && |newHosts| == |rows|
  {
    FirstAt(newHosts, h, Find(rows, h));
  }

  lemma DistinctSnoc(streams: seq<Host>, events: seq<Host>, event: Host)
    requires AllDistinct(streams, events) && Distinct(Process(ProcessAll(streams, events), event))
    ensures AllDistinct(streams, events + [event])
  {
    var all := events + [event];
    forall k | 0 <= k <= |all| ensures Distinct(ProcessAll(streams, all[..k])) {
      if k <= |events| {
        assert all[..k] == events[..k];
      } else {
        assert all[..k] == all;
        ProcessSnoc(streams, events, event);
      }
    }
  }

  lemma DistinctNext(streams: seq<Host>, event: Host, events: seq<Host>)
    requires AllDistinct(streams, [event] + events)
    ensures AllDistinct(Process(streams, event), events) && Distinct(Process(streams, event))
  {
    var all := [event] + events;
    forall k | 0 <= k <= |events| ensures Distinct(ProcessAll(Process(streams, event), events[..k])) {
      assert all[..k + 1][0] == event && all[..k + 1][1..] == events[..k];
      assert Distinct(ProcessAll(streams, all[..k + 1]));
    }
    assert events[..0] == [];
    assert Distinct(ProcessAll(Process(streams, event), events[..0]));
  }

  class Synchronizer {
    const container: WaitableContainer<Host>
    var websocks: seq<Host>
    var previous: seq<Host>
    var newHosts: seq<Host>
    var phase: Phase
    ghost var rows: seq<Host>
    ghost var completed: nat

    /** The waiting events turn the running streams into what the monitor saw last. */
    ghost predicate Valid()
      reads this, container
    {
      && ProcessAll(websocks, container.items) == previous
      && Rows(previous) && Rows(rows)
      && Reached(phase, previous, newHosts, rows, completed)
    }

    ghost predicate NeverTwice()
      reads this, container
    {
      AllDistinct(websocks, container.items)
    }

    /** Both threads start from the same rows. */
    constructor (start: seq<Host>)
      requires Rows(start)
      ensures Valid() && fresh(container) && phase == Asleep && completed == 0
      ensures websocks == previous == start && container.items == []
      ensures Distinct(start) ==> NeverTwice()
    {
      container := new WaitableContainer();
      websocks, previous, newHosts, phase, rows, completed := start, start, [], Asleep, start, 0;
    }

    method StartPoll(taken: seq<Host>)
      requires Valid() && phase == Asleep && Rows(taken)
      modifies this
      ensures Valid() && phase == Adding(0) && rows == taken
      ensures websocks == old(websocks) && previous == old(previous) && completed == old(completed)
    {
      newHosts := taken;
      rows := taken;
      phase := Adding(0);
    }

    /** One pass of the first loop of a poll. */
    method AddRow()
      requires Valid() && phase.Adding? && phase.i < |newHosts|
      modifies this, container
      ensures Valid() && phase == Adding(old(phase.i) + 1)
      ensures websocks == old(websocks) && rows == old(rows) && completed == old(completed)
      ensures |newHosts| == old(|newHosts|) && |previous| <= old(|previous|) + 1
      ensures old(NeverTwice()) ==> NeverTwice()
      ensures old(container.items) <= container.items
    {
      hide Covers, Distinct, AllDistinct, Mirrors, ProcessAll;
      var i := phase.i;
      var host := newHosts[i];
      ghost var before := container.items;
      assert rows[..i + 1] == rows[..i] + [host];
      var f := Find(previous, host);
      if f == |previous| {
        AddMissing(previous, rows[..i], host);
        Queued(websocks, before, host, previous);
        container.Append(host);
        previous := previous + [host];
      } else {
        AddKnown(previous, rows[..i], host);
        assert previous[f].group == host.group ==> Regroup(previous, f, host.group) == previous;
        OnlyGroupChanges(previous[f], host);
        if ChangesMade(previous[f], host) {
          host := host.(changes := GroupChanged);
          FindSame(previous, newHosts[i], host);
          Queued(websocks, before, host, previous);
          newHosts := newHosts[i := host];
          previous := previous[f := previous[f].(group := host.group, alias := host.alias)];
          container.Append(host);
        }
      }
      phase := Adding(i + 1);
    }

    method EndRows()
      requires Valid() && phase.Adding? && phase.i == |newHosts|
      modifies this
      ensures Valid() && phase == Removing(0)
      ensures websocks == old(websocks) && rows == old(rows) && completed == old(completed)
      ensures previous == old(previous)
    {
      assert rows[..|rows|] == rows;
      phase := Removing(0);
    }

    /** One pass of the second loop of a poll. */
    method CheckHost()
      requires Valid() && phase.Removing? && phase.j < |previous|
      modifies this, container
      ensures Valid() && phase.Removing? && |previous| - phase.j == old(|previous| - phase.j) - 1
      ensures websocks == old(websocks) && rows == old(rows) && completed == old(completed)
      ensures old(NeverTwice()) ==> NeverTwice()
      ensures old(container.items) <= container.items
    {
      hide Covers, Distinct, AllDistinct, Mirrors, ProcessAll, Marked;
      var j := phase.j;
      var host := previous[j];
      ghost var before := container.items;
      MarkedFind(newHosts, rows, host);
      if Find(newHosts, host) == |newHosts| {
        RemoveLost(previous, rows, j);
        var event := host.(changes := HostRemoved);
        FindSame(previous, host, event);
        Queued(websocks, before, event, previous);
        container.Append(event);
        previous := previous[..j] + previous[j + 1..];
      } else {
        phase := Removing(j + 1);
      }
    }

    method EndPoll()
      requires Valid() && phase.Removing? && phase.j == |previous|
      modifies this
      ensures Valid() && phase == Asleep && completed == old(completed) + 1
      ensures websocks == old(websocks) && rows == old(rows) && previous == old(previous)
    {
      forall h | Has(previous, h) ensures Has(rows, h) {
        FindSame(rows, previous[Find(previous, h)], h);
      }
      completed := completed + 1;
      phase := Asleep;
    }

    /** One turn of the monitor within a poll. */
    method MonitorStep()
      requires Valid() && phase != Asleep
      modifies this, container
      ensures Valid() && websocks == old(websocks) && rows == old(rows)
      ensures old(NeverTwice()) ==> NeverTwice()
      ensures phase != Asleep ==> completed == old(completed)
      ensures phase == Asleep ==> completed == old(completed) + 1
      ensures Work(phase, |newHosts|, |previous|) < old(Work(phase, |newHosts|, |previous|))
    {
      hide Covers, Distinct, AllDistinct, Mirrors, ProcessAll, Process;
      if phase.Adding? {
        if phase.i < |newHosts| { AddRow(); } else { EndRows(); }
      } else {
        if phase.j < |previous| { CheckHost(); } else { EndPoll(); }
      }
    }

    /** One turn of the launcher. */
    method LauncherStep()
      requires Valid() && container.items != []
      modifies this`websocks, container
      ensures Valid() && old(container.items[1..]) == container.items
      ensures websocks == Process(old(websocks), old(container.items[0]))
      ensures old(NeverTwice()) ==> NeverTwice() && Distinct(websocks)
    {
      hide Covers, Distinct, AllDistinct, Mirrors, Reached;
      ghost var all := container.items;
      ghost var streams := websocks;
      var item := container.Get();
      ProcessHostChanges(item);
      if AllDistinct(streams, all) {
        DistinctNext(streams, item, container.items);
      }
    }

    method ProcessHostChanges(host: Host)
      modifies this`websocks
      ensures websocks == Process(old(websocks), host)
    {
      if host.changes == NoChanges {
        websocks := websocks + [host];
        return;
      }
      var f := Find(websocks, host);
      if f != |websocks| {
        if host.changes == HostRemoved {
          websocks := websocks[..f] + websocks[f + 1..];
        } else if host.changes == GroupChanged {
          websocks := websocks[f := websocks[f].(group := host.group)];
        }
      }
    }

    /** Any interleaving; a thread that has to wait passes its turn. */
    method Run(schedule: seq<Turn>)
      requires Valid() && forall k :: 0 <= k < |schedule| ==> schedule[k].Poll? ==> Rows(schedule[k].rows)
      modifies this, container
      ensures Valid() && completed >= old(completed)
      ensures old(NeverTwice()) ==> NeverTwice() && Distinct(websocks)
    {
      hide Covers, AllDistinct, Mirrors, Reached, Process, ProcessAll, Distinct;
      for n := 0 to |schedule|
        invariant Valid() && completed >= old(completed)
        invariant old(NeverTwice()) ==> NeverTwice()
      {
        match schedule[n]
        case Poll(taken) =>
          if phase == Asleep { StartPoll(taken); }
        case Monitor =>
          if phase != Asleep { MonitorStep(); }
        case Launcher =>
          if container.items != [] { LauncherStep(); }
      }
      if NeverTwice() { DistinctNow(websocks, container.items); }
    }

    /** From every state of a run, the threads catch up with the rows polled last. */
    method CatchUp()
      requires Valid() && (completed > 0 || phase != Asleep)
      modifies this, container
      ensures Valid() && phase == Asleep && container.items == [] && rows == old(rows)
      ensures Mirrors(websocks, rows)
      ensures old(NeverTwice()) && Distinct(rows) ==>
                |websocks| == |rows| && forall h :: h in websocks <==> h in rows
    {
      hide Covers, AllDistinct, Mirrors, Process, Distinct;
      while phase != Asleep
        invariant Valid() && (completed > 0 || phase != Asleep) && rows == old(rows)
        invariant old(NeverTwice()) ==> NeverTwice()
        decreases Work(phase, |newHosts|, |previous|)
      {
        MonitorStep();
      }
      while container.items != []
        invariant Valid() && completed > 0 && phase == Asleep && rows == old(rows)
        invariant old(NeverTwice()) ==> NeverTwice()
        decreases |container.items|
      {
        LauncherStep();
      }
      if NeverTwice() && Distinct(rows) {
        DistinctNow(websocks, container.items);
        MirrorIsCopy(websocks, rows);
      }
    }
  }

  /** The passes a poll still has to make, at most. */
  function Work(phase: Phase, added: nat, known: nat): int {
    match phase
    case Asleep => -1
    case Adding(i) => 2 * (added - i) + known + 2
    case Removing(j) => known - j
  }

  lemma Queued(streams: seq<Host>, events: seq<Host>, event: Host, previous: seq<Host>)
    requires ProcessAll(streams, events) == previous
    ensures ProcessAll(streams, events + [event]) == Process(previous, event)
    ensures AllDistinct(streams, events) ==> Distinct(previous)
    ensures AllDistinct(streams, events) && Distinct(Process(previous, event)) ==> AllDistinct(streams, events + [event])
  {
    ProcessSnoc(streams, events, event);
    if AllDistinct(streams, events) {
      assert events[..|events|] == events;
      assert Distinct(ProcessAll(streams, events[..|events|]));
      if Distinct(Process(previous, event)) {
        DistinctSnoc(streams, events, event);
      }
    }
  }

  lemma DistinctNow(streams: seq<Host>, events: seq<Host>)
    requires AllDistinct(streams, events)
    ensures Distinct(streams)
  {
    assert events[..0] == [];
    assert Distinct(ProcessAll(streams, events[..0]));
  }

  /** Rows that are queued without the monitor become streams of their own: the agreement is broken if there are
      any, and some account is watched twice exactly if it is among them twice or was known already. */
  lemma DirectAppend(streams: seq<Host>, events: seq<Host>, previous: seq<Host>, uploaded: seq<Host>)
    requires ProcessAll(streams, events) == previous && Rows(uploaded)
    ensures ProcessAll(streams, events + uploaded) == previous + uploaded
    ensures ProcessAll(streams, events + uploaded) == previous <==> uploaded == []
    ensures Distinct(ProcessAll(streams, events + uploaded)) <==> Distinct(previous + uploaded)
  {
    ProcessConcat(streams, events, uploaded);
    ProcessRows(previous, uploaded);
  }

  /** After them, the monitor still finds the rows that it does not know; each of these is then watched twice. */
  lemma WatchedTwice(streams: seq<Host>, events: seq<Host>, previous: seq<Host>, uploaded: seq<Host>, found: seq<Host>)
    requires ProcessAll(streams, events) == previous && Rows(uploaded) && Rows(found)
    ensures ProcessAll(streams, events + uploaded + found) == previous + uploaded + found
    ensures (exists h :: h in uploaded && h in found) ==> !Distinct(ProcessAll(streams, events + uploaded + found))
  {
    DirectAppend(streams, events, previous, uploaded);
    DirectAppend(streams, events + uploaded, previous + uploaded, found);
    if h :| h in uploaded && h in found {
      var i: nat :| i < |uploaded| && uploaded[i] == h;
      var j: nat :| j < |found| && found[j] == h;
      var all := previous + uploaded + found;
      assert Same(all[|previous| + i], all[|previous| + |uploaded| + j]);
    }
  }

  lemma {:induction false} ProcessRows(streams: seq<Host>, added: seq<Host>)
    requires Rows(added)
    ensures ProcessAll(streams, added) == streams + added
    decreases |added|
  {
    if added == [] {
      assert streams + added == streams;
    } else {
      ProcessRows(streams + [added[0]], added[1..]);
      assert streams + [added[0]] + added[1..] == streams + added;
    }
  }
}

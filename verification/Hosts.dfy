/** The accounts that are watched, and the effect of one change event on the list of running streams. */
module Hosts {
  import opened Sequences

  datatype Change = NoChanges | HostRemoved | GroupChanged

  datatype Host = Host(alias: string, apiKey: string, secretKey: string, group: string, changes: Change)

  predicate Same(a: Host, b: Host) {
    a.alias == b.alias && a.apiKey == b.apiKey && a.secretKey == b.secretKey
  }

  /** The comparison the monitor makes before it reports a regrouped host. */
  predicate ChangesMade(original: Host, latest: Host) {
    original.group != latest.group || original.alias != latest.alias
  }

  /** The position of the first host equal to h, or the end of the list. */
  function Find(hosts: seq<Host>, h: Host): (i: nat)
    ensures i <= |hosts|
    ensures forall j :: 0 <= j < i ==> !Same(hosts[j], h)
    ensures i < |hosts| ==> Same(hosts[i], h)
  {
    if hosts == [] || Same(hosts[0], h) then 0 else 1 + Find(hosts[1..], h)
  }

  predicate Has(hosts: seq<Host>, h: Host) {
    Find(hosts, h) < |hosts|
  }

  function Regroup(hosts: seq<Host>, i: nat, group: string): seq<Host>
    requires i < |hosts|
  {
    hosts[i := hosts[i].(group := group)]
  }

  function Without(hosts: seq<Host>, i: nat): seq<Host>
    requires i < |hosts|
  {
    hosts[..i] + hosts[i + 1..]
  }

  /** What one event does to the running streams. */
  function Process(streams: seq<Host>, event: Host): seq<Host> {
    var i := Find(streams, event);
    if event.changes == NoChanges then streams + [event]
    else if i == |streams| then streams
    else if event.changes == HostRemoved then Without(streams, i)
    else Regroup(streams, i, event.group)
  }

  function ProcessAll(streams: seq<Host>, events: seq<Host>): seq<Host>
    decreases |events|
  {
    if events == [] then streams else ProcessAll(Process(streams, events[0]), events[1..])
  }

  lemma {:induction false} ProcessConcat(streams: seq<Host>, a: seq<Host>, b: seq<Host>)
    ensures ProcessAll(streams, a + b) == ProcessAll(ProcessAll(streams, a), b)
    decreases |a|
  {
    hide Process;
    if a == [] {
      assert a + b == b;
    } else {
      assert (a + b)[1..] == a[1..] + b;
      ProcessConcat(Process(streams, a[0]), a[1..], b);
    }
  }

  lemma ProcessSnoc(streams: seq<Host>, events: seq<Host>, event: Host)
    ensures ProcessAll(streams, events + [event]) == Process(ProcessAll(streams, events), event)
  {
    ProcessConcat(streams, events, [event]);
    assert [event][1..] == [];
  }

  /** No two streams watch the same account with the same keys. */
  predicate Distinct(hosts: seq<Host>) {
    forall i, j :: 0 <= i < j < |hosts| ==> !Same(hosts[i], hosts[j])
  }

  /** Rows come out of the database without a change mark. */
  predicate Rows(hosts: seq<Host>) {
    forall i :: 0 <= i < |hosts| ==> hosts[i].changes == NoChanges
  }

  /** The last row for the account of h decides its group; "" if there is no row. */
  function LastGroup(rows: seq<Host>, h: Host): string {
    if rows == [] then ""
    else if Same(rows[|rows| - 1], h) then rows[|rows| - 1].group
    else LastGroup(rows[..|rows| - 1], h)
  }

  /** Every account of the rows is watched, under the group of its last row. */
  ghost predicate Covers(hosts: seq<Host>, rows: seq<Host>) {
    forall h :: Has(rows, h) ==> Has(hosts, h) && hosts[Find(hosts, h)].group == LastGroup(rows, h)
  }

  /** The hosts are the accounts of the rows, no more and no fewer. */
  ghost predicate Mirrors(hosts: seq<Host>, rows: seq<Host>) {
    Covers(hosts, rows) && forall h :: Has(hosts, h) ==> Has(rows, h)
  }

  lemma FirstAt(hosts: seq<Host>, h: Host, i: nat)
    requires i <= |hosts| && (i < |hosts| ==> Same(hosts[i], h))
    requires forall j :: 0 <= j < i ==> !Same(hosts[j], h)
    ensures Find(hosts, h) == i
  {
  }

  lemma HasWitness(hosts: seq<Host>, h: Host, j: nat)
    requires j < |hosts| && Same(hosts[j], h)
    ensures Has(hosts, h) && Find(hosts, h) <= j
  {
  }

  /** Equal keys find the same entry. */
  lemma FindSame(hosts: seq<Host>, a: Host, b: Host)
    requires Same(a, b)
    ensures Find(hosts, a) == Find(hosts, b)
  {
    FirstAt(hosts, a, Find(hosts, b));
  }

  lemma {:induction false} LastGroupSame(rows: seq<Host>, a: Host, b: Host)
    requires Same(a, b)
    ensures LastGroup(rows, a) == LastGroup(rows, b)
    decreases |rows|
  {
    if rows != [] {
      LastGroupSame(rows[..|rows| - 1], a, b);
    }
  }

  /** A key that finds another account is a key of its own: searches for the key after an append. */
  lemma FindAppend(hosts: seq<Host>, x: Host, h: Host)
    ensures Has(hosts, h) ==> Find(hosts + [x], h) == Find(hosts, h)
    ensures !Has(hosts, h) ==> Find(hosts + [x], h) == if Same(x, h) then |hosts| else |hosts| + 1
  {
    var s := hosts + [x];
    var i := Find(hosts, h);
    assert s[|hosts|] == x && forall j :: 0 <= j < |hosts| ==> s[j] == hosts[j];
    FirstAt(s, h, if i < |hosts| || Same(x, h) then i else i + 1);
  }

  lemma FindRegroup(hosts: seq<Host>, i: nat, group: string, h: Host)
    requires i < |hosts|
    ensures Find(Regroup(hosts, i, group), h) == Find(hosts, h)
  {
    FirstAt(Regroup(hosts, i, group), h, Find(hosts, h));
  }

  /** With one entry gone, another account is found where it was. */
  lemma FindWithout(hosts: seq<Host>, i: nat, h: Host)
    requires i < |hosts| && !Same(hosts[i], h)
    ensures Find(Without(hosts, i), h) == if Find(hosts, h) < i then Find(hosts, h) else Find(hosts, h) - 1
  {
    var s := Without(hosts, i);
    var a := Find(hosts, h);
    assert forall j :: 0 <= j < i ==> s[j] == hosts[j];
    assert forall j :: i <= j < |s| ==> s[j] == hosts[j + 1];
    FirstAt(s, h, if a < i then a else a - 1);
  }

  /** The alias is part of the key, so among equal keys only the group can differ. */
  lemma OnlyGroupChanges(original: Host, latest: Host)
    requires Same(original, latest)
    ensures ChangesMade(original, latest) <==> original.group != latest.group
  {
  }

  /** Equal lists of rows for distinct accounts: the same hosts, each exactly once. */
  lemma MirrorIsCopy(hosts: seq<Host>, rows: seq<Host>)
    requires Mirrors(hosts, rows) && Rows(hosts) && Rows(rows) && Distinct(hosts) && Distinct(rows)
    ensures forall h :: h in hosts <==> h in rows
    ensures |hosts| == |rows|
  {
    forall h | h in rows ensures h in hosts { RowIsHost(hosts, rows, h); }
    forall h | h in hosts ensures h in rows { HostIsRow(hosts, rows, h); }
    SameSize(hosts, rows);
  }

  lemma {:induction false} LastIs(rows: seq<Host>, h: Host, j: nat)
    requires j < |rows| && Same(rows[j], h) && forall k :: j < k < |rows| ==> !Same(rows[k], h)
    ensures LastGroup(rows, h) == rows[j].group
    decreases |rows|
  {
    var m := |rows| - 1;
    if j < m {
      assert !Same(rows[m], h);
      LastIs(rows[..m], h, j);
    }
  }

  lemma DistinctGroup(rows: seq<Host>, j: nat)
    requires j < |rows| && Distinct(rows)
    ensures LastGroup(rows, rows[j]) == rows[j].group
  {
    LastIs(rows, rows[j], j);
  }

  lemma RowIsHost(hosts: seq<Host>, rows: seq<Host>, h: Host)
    requires Covers(hosts, rows) && Rows(hosts) && Rows(rows) && Distinct(rows) && h in rows
    ensures h in hosts
  {
    var j: nat :| j < |rows| && rows[j] == h;
    HasWitness(rows, h, j);
    DistinctGroup(rows, j);
    assert hosts[Find(hosts, h)] == h;
  }

  lemma HostIsRow(hosts: seq<Host>, rows: seq<Host>, h: Host)
    requires Mirrors(hosts, rows) && Rows(hosts) && Rows(rows) && Distinct(hosts) && Distinct(rows) && h in hosts
    ensures h in rows
  {
    var j: nat :| j < |hosts| && hosts[j] == h;
    HasWitness(hosts, h, j);
    FirstAt(hosts, h, j);
    var r := rows[Find(rows, h)];
    FindSame(hosts, h, r);
    HasWitness(rows, r, Find(rows, h));
    DistinctGroup(rows, Find(rows, h));
    assert r == h;
  }

  lemma SameSize(a: seq<Host>, b: seq<Host>)
    requires Distinct(a) && Distinct(b) && forall h :: h in a <==> h in b
    ensures |a| == |b|
  {
    DistinctSize(a);
    DistinctSize(b);
    assert (set h | h in a) == (set h | h in b);
  }
}

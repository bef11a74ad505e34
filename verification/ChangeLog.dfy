/** The change log of pkg/weave: entries are recorded while a callback runs and written, all
    or none, in one transaction that also closes their change set. */
module ChangeLog {
  import opened Wrappers

  type SetId = nat

  /** A payload is absent or some bytes; only its presence matters. */
  datatype Entry = Entry(project: string, operation: string, payload: Option<string>, previous: Option<string>)

  datatype SetRow = SetRow(project: string, closed: bool)

  /** The tables: change sets, log entries with their set, and whatever else the callback
      writes. */
  datatype Tables<D> = Tables(sets: map<SetId, SetRow>, log: seq<(SetId, Entry)>, data: D)

  /** The change set as the process holds it in memory. */
  datatype Held = Held(id: SetId, project: string)

  /** The statement that fails, if one does. */
  datatype Fault = NoFault | BeginFails | BackfillFails | WriteFails(entry: nat) | CloseFails | CommitFails

  /** What the callback does: it records entries, stops at a refused one or not, writes other
      data, and succeeds or not. */
  datatype Callback<D> = Callback(records: seq<Entry>, heeds: bool, data: D, succeeds: bool)

  // ---------------------------------------------------------------- recording

  predicate Obeys(e: Entry) {
    || (e.operation == "create" && e.previous.None? && e.payload.Some?)
    || (e.operation == "update" && e.previous.Some? && e.payload.Some?)
    || (e.operation == "delete" && e.previous.Some? && e.payload.None?)
  }

  /** Which of the two payloads there are tells the operation; with neither there is none. */
  lemma ObeysIff(e: Entry)
    ensures e.payload.Some? && e.previous.None? ==> (Obeys(e) <==> e.operation == "create")
    ensures e.payload.Some? && e.previous.Some? ==> (Obeys(e) <==> e.operation == "update")
    ensures e.payload.None? && e.previous.Some? ==> (Obeys(e) <==> e.operation == "delete")
    ensures e.payload.None? && e.previous.None? ==> !Obeys(e)
  {
    assert "create"[0] == 'c' && "update"[0] == 'u' && "delete"[0] == 'd';
  }

  class ChangeLogger {
    var pending: seq<Entry>

    constructor ()
      ensures pending == []
    {
      pending := [];
    }

    method Record(entry: Entry) returns (ok: bool)
      modifies this
      ensures ok <==> Obeys(entry)
      ensures pending == if ok then old(pending) + [entry] else old(pending)
    {
      if entry.operation == "create" {
        if entry.previous.Some? || entry.payload.None? { return false; }
      } else if entry.operation == "update" {
        if entry.previous.None? || entry.payload.None? { return false; }
      } else if entry.operation == "delete" {
        if entry.previous.None? || entry.payload.Some? { return false; }
      } else {
        return false;
      }
      pending := pending + [entry];
      return true;
    }

    method Call<D>(fn: Callback<D>) returns (ok: bool)
      requires pending == []
      modifies this
      ensures pending == Recorded(fn.records, fn.heeds) && ok == CallSucceeds(fn)
    {
      hide Recorded, AllObeyed, Obeys;
      var i := 0;
      assert fn.records[0..] == fn.records;
      while i < |fn.records|
        invariant 0 <= i <= |fn.records|
        invariant pending + Recorded(fn.records[i..], fn.heeds) == Recorded(fn.records, fn.heeds)
        invariant AllObeyed(fn.records[i..], fn.heeds) <==> AllObeyed(fn.records, fn.heeds)
      {
        var e := fn.records[i];
        assert fn.records[i..] == [e] + fn.records[i + 1..];
        RecordedStep(e, fn.records[i + 1..], fn.heeds);
        Regroup(pending, [e], Recorded(fn.records[i + 1..], fn.heeds));
        var recorded := Record(e);
        if !recorded && fn.heeds {
          return false;
        }
        i := i + 1;
      }
      assert fn.records[i..] == [];
      RecordedNothing(fn.heeds);
      ok := fn.succeeds;
    }
  }

  /** The entries that end up pending. */
  function Recorded(es: seq<Entry>, heeds: bool): (r: seq<Entry>)
    ensures forall k | 0 <= k < |r| :: Obeys(r[k])
  {
    if es == [] then []
    else if Obeys(es[0]) then [es[0]] + Recorded(es[1..], heeds)
    else if heeds then [] else Recorded(es[1..], heeds)
  }

  predicate AllObeyed(es: seq<Entry>, heeds: bool) {
    es == [] || ((Obeys(es[0]) || !heeds) && AllObeyed(es[1..], heeds))
  }

  lemma RecordedStep(e: Entry, rest: seq<Entry>, heeds: bool)
    ensures Recorded([e] + rest, heeds)
         == if Obeys(e) then [e] + Recorded(rest, heeds) else if heeds then [] else Recorded(rest, heeds)
    ensures AllObeyed([e] + rest, heeds) <==> (Obeys(e) || !heeds) && AllObeyed(rest, heeds)
  {
    assert ([e] + rest)[1..] == rest;
  }

  lemma RecordedNothing(heeds: bool)
    ensures Recorded([], heeds) == [] && AllObeyed([], heeds)
  {
  }

  lemma Regroup(a: seq<Entry>, b: seq<Entry>, c: seq<Entry>)
    ensures a + (b + c) == (a + b) + c
  {
  }

  predicate CallSucceeds<D>(fn: Callback<D>) {
    AllObeyed(fn.records, fn.heeds) && fn.succeeds
  }

  // ---------------------------------------------------------------- the common project

  /** `p` is the one non-empty project of the entries. */
  predicate IsCommon(es: seq<Entry>, p: string) {
    && p != "" && (exists k :: 0 <= k < |es| && es[k].project == p)
    && forall k | 0 <= k < |es| :: es[k].project == "" || es[k].project == p
  }

  /** The common project, or "" when there is none or more than one. */
  ghost function CommonProject(es: seq<Entry>): (r: string)
    ensures r != "" ==> IsCommon(es, r)
    ensures r == "" ==> forall p :: !IsCommon(es, p)
  {
    if exists p :: IsCommon(es, p) then var p :| IsCommon(es, p); p else ""
  }

  lemma CommonIs(es: seq<Entry>, p: string)
    requires IsCommon(es, p)
    ensures CommonProject(es) == p
  {
    var q := CommonProject(es);
    var k :| 0 <= k < |es| && es[k].project == p;
    assert es[k].project == q;
  }

  lemma NoneCommon(es: seq<Entry>)
    requires (forall k | 0 <= k < |es| :: es[k].project == "") || exists j, k :: 0 <= j < k < |es| && es[j].project != "" && es[k].project != "" && es[j].project != es[k].project
    ensures CommonProject(es) == ""
  {
  }

  method SingleEntryProjectId(entries: seq<Entry>) returns (pid: string)
    ensures pid == CommonProject(entries)
  {
    pid := "";
    var i := 0;
    while i < |entries|
      invariant 0 <= i <= |entries|
      invariant forall k | 0 <= k < i :: entries[k].project == "" || entries[k].project == pid
      invariant pid != "" ==> exists k :: 0 <= k < i && entries[k].project == pid
    {
      var p := entries[i].project;
      if p == "" {
      } else if pid == "" {
        pid := p;
      } else if pid != p {
        NoneCommon(entries);
        return "";
      }
      i := i + 1;
    }
    if pid == "" {
      NoneCommon(entries);
    } else {
      CommonIs(entries, pid);
    }
  }

  // ---------------------------------------------------------------- one run

  /** The run adopts the entries' project. */
  ghost predicate Fills(set_: Held, pending: seq<Entry>) {
    set_.project == "" && CommonProject(pending) != ""
  }

  ghost predicate Fails<D>(set_: Held, fn: Callback<D>, fault: Fault) {
    var pending := Recorded(fn.records, fn.heeds);
    || fault.BeginFails? || !CallSucceeds(fn)
    || (fault.BackfillFails? && Fills(set_, pending))
    || (fault.WriteFails? && fault.entry < |pending|)
    || fault.CloseFails? || fault.CommitFails?
  }

  /** The in-memory change set is updated before the transaction is known to commit. */
  ghost function HeldAfter<D>(set_: Held, fn: Callback<D>, fault: Fault): Held {
    var pending := Recorded(fn.records, fn.heeds);
    if fault.BeginFails? || !CallSucceeds(fn) || fault.BackfillFails? || !Fills(set_, pending) then set_
    else set_.(project := CommonProject(pending))
  }

  function Tagged(id: SetId, es: seq<Entry>): seq<(SetId, Entry)> {
    seq(|es|, k requires 0 <= k < |es| => (id, es[k]))
  }

  ghost function Committed<D>(t: Tables<D>, set_: Held, fn: Callback<D>): Tables<D>
    requires set_.id in t.sets
  {
    var pending := Recorded(fn.records, fn.heeds);
    var project := if Fills(set_, pending) then CommonProject(pending) else t.sets[set_.id].project;
    Tables(t.sets[set_.id := SetRow(project, true)], t.log + Tagged(set_.id, pending), fn.data)
  }

  class Store<D(0)> {
    var tables: Tables<D>

    constructor (tables: Tables<D>)
      ensures this.tables == tables
    {
      this.tables := tables;
    }

    /** `WithChangeLog` on a change set that exists; the statements before the commit work on
        the transaction's own version of the tables. */
    method WithChangeLog(held: Held, fn: Callback<D>, fault: Fault) returns (ok: bool, after: Held)
      requires held.id in tables.sets
      modifies this
      ensures ok <==> !Fails(held, fn, fault)
      ensures !ok ==> tables == old(tables)
      ensures ok ==> tables == Committed(old(tables), held, fn)
      ensures ok ==> tables.log == old(tables.log) + Tagged(held.id, Recorded(fn.records, fn.heeds)) && tables.data == fn.data
      ensures ok ==> tables.sets.Keys == old(tables.sets).Keys && tables.sets[held.id].closed
      ensures ok ==> forall i | i in tables.sets && i != held.id :: tables.sets[i] == old(tables.sets)[i]
      ensures after == HeldAfter(held, fn, fault)
    {
      after := held;
      if fault.BeginFails? {
        return false, after;
      }
      var tx := tables;
      var cl := new ChangeLogger();
      var called := cl.Call(fn);
      if !called {
        return false, after;
      }
      tx := tx.(data := fn.data);
      if held.project == "" {
        var pid := SingleEntryProjectId(cl.pending);
        if pid != "" {
          if fault.BackfillFails? {
            return false, after;
          }
          tx := tx.(sets := tx.sets[held.id := tx.sets[held.id].(project := pid)]);
          after := after.(project := pid);
        }
      }
      var log, written := WriteEntries(tx.log, held.id, cl.pending, fault);
      if !written {
        return false, after;
      }
      tx := tx.(log := log);
      if fault.CloseFails? {
        return false, after;
      }
      tx := tx.(sets := tx.sets[held.id := tx.sets[held.id].(closed := true)]);
      if fault.CommitFails? {
        return false, after;
      }
      tables := tx;
      return true, after;
    }
  }

  /** `resolveChangeSet` without a change set in the context: the set is created outside of
      the transaction, with the project of the request's hint or none. */
  method WithImplicitChangeSet<D(0)>(store: Store<D>, id: SetId, hint: string, fn: Callback<D>, fault: Fault) returns (ok: bool)
    requires id !in store.tables.sets
    modifies store
    ensures ok <==> !Fails(Held(id, hint), fn, fault)
    ensures var begun := old(store.tables).(sets := old(store.tables).sets[id := SetRow(hint, false)]);
            store.tables == if ok then Committed(begun, Held(id, hint), fn) else begun
  {
    store.tables := store.tables.(sets := store.tables.sets[id := SetRow(hint, false)]);
    var held;
    ok, held := store.WithChangeLog(Held(id, hint), fn, fault);
  }

  method WriteEntries(log0: seq<(SetId, Entry)>, id: SetId, pending: seq<Entry>, fault: Fault) returns (log: seq<(SetId, Entry)>, ok: bool)
    ensures ok <==> !(fault.WriteFails? && fault.entry < |pending|)
    ensures ok ==> log == log0 + Tagged(id, pending)
  {
    log := log0;
    var i := 0;
    while i < |pending|
      invariant 0 <= i <= |pending| && log == log0 + Tagged(id, pending)[..i]
      invariant fault.WriteFails? ==> i <= fault.entry
    {
      if fault == WriteFails(i) {
        return log, false;
      }
      log := log + [(id, pending[i])];
      i := i + 1;
    }
    ok := true;
  }

  // ---------------------------------------------------------------- what a run means

  /** The row that was empty is filled exactly when the entries agree on a project, provided
      the set in memory is the row's. */
  lemma FilledIff<D>(t: Tables<D>, set_: Held, fn: Callback<D>, p: string)
    requires set_.id in t.sets && t.sets[set_.id].project == "" == set_.project && p != ""
    ensures Committed(t, set_, fn).sets[set_.id].project == p <==> IsCommon(Recorded(fn.records, fn.heeds), p)
  {
    var pending := Recorded(fn.records, fn.heeds);
    if IsCommon(pending, p) {
      CommonIs(pending, p);
    }
  }

  /** A second run on the same change set, after a first one failed, fills the row as it
      should exactly when the first one had not got as far as adopting a project. */
  lemma RetryFillsIff<D>(t: Tables<D>, set_: Held, first: Callback<D>, fault: Fault, second: Callback<D>)
    requires set_.id in t.sets && t.sets[set_.id].project == "" == set_.project
    requires Fails(set_, first, fault)
    requires CommonProject(Recorded(second.records, second.heeds)) != ""
    ensures var held := HeldAfter(set_, first, fault);
            Committed(t, held, second).sets[set_.id].project == CommonProject(Recorded(second.records, second.heeds))
            <==> held.project == ""
  {
  }

  /** An instance: the first run fails while writing, the second closes the set without a
      project, although all entries name one. */
  lemma RetryLosesProject()
    ensures var e := Entry("P", "create", Some("x"), None);
            var fn := Callback([e], true, 0, true);
            var t := Tables(map[1 := SetRow("", false)], [], 0);
            && Fails(Held(1, ""), fn, WriteFails(0))
            && var held := HeldAfter(Held(1, ""), fn, WriteFails(0));
               !Fails(held, fn, NoFault) && Committed(t, held, fn).sets[1] == SetRow("", true)
  {
    var e := Entry("P", "create", Some("x"), None);
    var pending := Recorded([e], true);
    assert [e][1..] == [] && e.operation == "create";
    assert Obeys(e);
    assert pending == [e] + Recorded([e][1..], true);
    assert pending[0].project == "P";
    assert IsCommon(pending, "P");
    var fn := Callback([e], true, 0, true);
    assert AllObeyed([e], true) by { assert AllObeyed([], true); }
  }

  // ---------------------------------------------------------------- any number of runs

  /** The tables, and the project each change set has in memory. */
  datatype Process<D> = Process(tables: Tables<D>, memory: map<SetId, string>)

  /** A call of `WithChangeLog` on a change set that is in memory. */
  datatype Attempt<D> = Attempt(id: SetId, fn: Callback<D>, fault: Fault)

  ghost predicate Known<D>(p: Process<D>, a: Attempt<D>) {
    a.id in p.tables.sets && a.id in p.memory
  }

  ghost predicate Succeeds<D>(p: Process<D>, a: Attempt<D>)
    requires Known(p, a)
  {
    !Fails(Held(a.id, p.memory[a.id]), a.fn, a.fault)
  }

  ghost function Next<D>(p: Process<D>, a: Attempt<D>): Process<D>
    requires Known(p, a)
  {
    var held := Held(a.id, p.memory[a.id]);
    Process(if Succeeds(p, a) then Committed(p.tables, held, a.fn) else p.tables,
            p.memory[a.id := HeldAfter(held, a.fn, a.fault).project])
  }

  /** The attempt gives the set in memory a project. */
  ghost predicate Adopts<D>(p: Process<D>, a: Attempt<D>)
    requires Known(p, a)
  {
    p.memory[a.id] == "" != Next(p, a).memory[a.id]
  }

  ghost predicate IsRun<D>(ps: seq<Process<D>>, attempts: seq<Attempt<D>>) {
    |ps| == |attempts| + 1 && forall k | 0 <= k < |attempts| :: Known(ps[k], attempts[k]) && ps[k + 1] == Next(ps[k], attempts[k])
  }

  lemma ShorterRun<D>(ps: seq<Process<D>>, attempts: seq<Attempt<D>>)
    requires IsRun(ps, attempts) && attempts != []
    ensures var n := |attempts| - 1; IsRun(ps[..n + 1], attempts[..n]) && Known(ps[n], attempts[n]) && ps[n + 1] == Next(ps[n], attempts[n])
  {
    hide Next;
  }

  /** What the successful attempts recorded, in order. */
  ghost function Journal<D>(ps: seq<Process<D>>, attempts: seq<Attempt<D>>): (r: seq<(SetId, Entry)>)
    requires IsRun(ps, attempts)
    ensures forall k | 0 <= k < |r| :: Obeys(r[k].1)
    decreases |attempts|
  {
    if attempts == [] then []
    else
      var n := |attempts| - 1;
      ShorterRun(ps, attempts);
      var a := attempts[n];
      Journal(ps[..n + 1], attempts[..n]) + if Succeeds(ps[n], a) then Tagged(a.id, Recorded(a.fn.records, a.fn.heeds)) else []
  }

  /** Whatever fails and is tried again, the log is always what was there plus the records of
      the successful attempts, in order and each once. */
  lemma {:induction false} LogIsJournal<D>(ps: seq<Process<D>>, attempts: seq<Attempt<D>>)
    requires IsRun(ps, attempts)
    ensures ps[|attempts|].tables.log == ps[0].tables.log + Journal(ps, attempts)
    decreases |attempts|
  {
    hide Fails, HeldAfter, Recorded;
    if attempts != [] {
      ShorterRun(ps, attempts);
      LogIsJournal(ps[..|attempts|], attempts[..|attempts| - 1]);
    }
  }

  /** A change set is closed exactly when it was, or when an attempt on it succeeded; one that
      is closed is never opened again. */
  lemma {:induction false} ClosedIff<D>(ps: seq<Process<D>>, attempts: seq<Attempt<D>>, id: SetId)
    requires IsRun(ps, attempts) && id in ps[0].tables.sets
    ensures var sets := ps[|attempts|].tables.sets;
            id in sets && (sets[id].closed <==>
              ps[0].tables.sets[id].closed || exists k :: 0 <= k < |attempts| && attempts[k].id == id && Succeeds(ps[k], attempts[k]))
    decreases |attempts|
  {
    hide Fails, HeldAfter, Recorded;
    if attempts != [] {
      var n := |attempts| - 1;
      ShorterRun(ps, attempts);
      ClosedIff(ps[..n + 1], attempts[..n], id);
      assert forall k | 0 <= k < n :: ps[..n + 1][k] == ps[k] && attempts[..n][k] == attempts[k];
    }
  }

  /** A change set that had the same project in both starts to have another one in memory than
      in its row, and so loses it for good, exactly when the attempt that adopted it failed. */
  lemma {:induction false} ProjectLostIff<D>(ps: seq<Process<D>>, attempts: seq<Attempt<D>>, id: SetId)
    requires IsRun(ps, attempts) && id in ps[0].tables.sets && id in ps[0].memory
    requires ps[0].tables.sets[id].project == ps[0].memory[id]
    ensures var p := ps[|attempts|];
            && id in p.tables.sets && id in p.memory
            && (p.tables.sets[id].project != p.memory[id] ==> p.tables.sets[id].project == "")
            && (p.tables.sets[id].project != p.memory[id] <==>
                exists k :: 0 <= k < |attempts| && attempts[k].id == id && Adopts(ps[k], attempts[k]) && !Succeeds(ps[k], attempts[k]))
    decreases |attempts|
  {
    hide Recorded;
    if attempts != [] {
      var n := |attempts| - 1;
      ShorterRun(ps, attempts);
      ProjectLostIff(ps[..n + 1], attempts[..n], id);
      assert forall k | 0 <= k < n :: ps[..n + 1][k] == ps[k] && attempts[..n][k] == attempts[k];
    }
  }
}

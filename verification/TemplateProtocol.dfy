/** The fixture template of internal/testdb: many test processes race for one template
    database, build it under another name, promote it by a rename, and cut clones from it.
    A process may crash, and a statement may fail, at any point; a process may also lose the
    session that holds the advisory lock and go on without noticing. */
module TemplateProtocol {
  import opened Wrappers

  /** What matters of a database: has it the sentinel table, which is the highest applied
      migration, were the fixtures loaded. */
  datatype Content = Content(sentinel: bool, version: Option<nat>, hydrated: bool)

  const EMPTY := Content(false, None, false)

  datatype Db = Absent | Present(content: Content)

  /** The next thing a process does. */
  datatype Pc =
    | Idle
    | AskExists
    | AskSentinel
    | AskVersion
    | DropTemplate(versionRead: bool)
    | DropStale
    | Create
    | Migrate
    | Hydrate
    | Rename
    | Cleanup
    | Unlock(ok: bool)
    | Clone
    | Running
    | Done

  type Pid = nat
  type CloneName = string

  /** `version` is the latest migration the binary carries; `session` tells whether the pinned
      connection, which holds the lock, is alive. */
  datatype Process = Process(pc: Pc, session: bool, version: nat, clone: CloneName)

  datatype Cut = Cut(content: Content, owner: Pid)

  datatype State = State(
    procs: map<Pid, Process>,
    lock: Option<Pid>,
    template: Db,
    building: Db,
    clones: map<CloneName, Cut>)

  /** How the next thing goes: it succeeds, it fails without effect, it takes effect but the
      process is told that it failed, a long job writes something, a long job ends; or the
      process crashes or loses its session. */
  datatype Event = Succeed | Fail | FailAfter | Work(content: Content) | Finish(content: Content) | Crash | LoseSession

  predicate Complete(c: Content) {
    c.sentinel && c.version.Some? && c.hydrated
  }

  predicate Current(c: Content, version: nat) {
    Complete(c) && c.version == Some(version)
  }

  predicate AtMost(a: Option<nat>, b: Option<nat>) {
    a.None? || (b.Some? && a.value <= b.value)
  }

  /** Migrations and fixtures are only added, and no migration beyond the binary's own. */
  predicate Grows(a: Content, b: Content, version: nat) {
    && (a.sentinel ==> b.sentinel) && (a.hydrated ==> b.hydrated)
    && AtMost(a.version, b.version)
    && (b.version == a.version || AtMost(b.version, Some(version)))
  }

  // ---------------------------------------------------------------- one step

  function Go(s: State, p: Pid, pc: Pc): State
    requires p in s.procs
  {
    s.(procs := s.procs[p := s.procs[p].(pc := pc)])
  }

  /** The end of the session: the lock is free again if this process held it. */
  function Release(s: State, p: Pid): State
    requires p in s.procs
  {
    s.(procs := s.procs[p := s.procs[p].(session := false)], lock := if s.lock == Some(p) then None else s.lock)
  }

  /** Statements on the pinned connection. */
  predicate OnSession(pc: Pc) {
    pc.AskExists? || pc.DropTemplate? || pc.DropStale? || pc.Create? || pc.Rename? || pc.Cleanup?
  }

  /** The statements that change databases, when the server accepts them, and what they do. */
  predicate Accepted(s: State, pc: Pc) {
    match pc
    case DropTemplate(_) => true
    case DropStale => true
    case Create => s.building.Absent?
    case Rename => s.building.Present? && s.template.Absent?
    case Cleanup => true
    case _ => false
  }

  function Effect(s: State, pc: Pc): State {
    match pc
    case DropTemplate(_) => s.(template := Absent)
    case DropStale => s.(building := Absent)
    case Create => s.(building := Present(EMPTY))
    case Rename => s.(template := s.building, building := Absent)
    case Cleanup => s.(building := Absent)
    case _ => s
  }

  function AfterSuccess(pc: Pc): Pc {
    match pc
    case DropTemplate(_) => DropStale
    case DropStale => Create
    case Create => Migrate
    case Rename => Unlock(true)
    case _ => Unlock(false)
  }

  /** An error while the migration version is read is not reported but taken for an outdated
      template. */
  function AfterFailure(pc: Pc): Pc {
    match pc
    case AskVersion => DropTemplate(false)
    case Migrate => Cleanup
    case Hydrate => Cleanup
    case Rename => Cleanup
    case Idle => Done
    case Clone => Done
    case Running => Done
    case _ => Unlock(false)
  }

  function Ask(s: State, p: Pid): Option<State>
    requires p in s.procs
  {
    var pr := s.procs[p];
    if Accepted(s, pr.pc) then Some(Go(Effect(s, pr.pc), p, AfterSuccess(pr.pc)))
    else
    match pr.pc
    case Idle =>
      if s.lock.Some? then None
      else Some(s.(procs := s.procs[p := pr.(pc := AskExists, session := true)], lock := Some(p)))
    case AskExists => Some(Go(s, p, if s.template.Present? then AskSentinel else DropStale))
    case AskSentinel =>
      if s.template.Absent? then None
      else Some(Go(s, p, if s.template.content.sentinel then AskVersion else DropTemplate(true)))
    case AskVersion =>
      if s.template.Absent? then None
      else Some(Go(s, p, if s.template.content.version == Some(pr.version) then Unlock(true) else DropTemplate(true)))
    case Unlock(ok) => Some(Release(Go(s, p, if ok then Clone else Done), p))
    case Clone =>
      if s.template.Absent? || pr.clone in s.clones then None
      else Some(Go(s, p, Running).(clones := s.clones[pr.clone := Cut(s.template.content, p)]))
    case Running => Some(Go(s, p, Done).(clones := s.clones - {pr.clone}))
    case _ => None
  }

  /** The long jobs run on a connection of their own, to whatever has the building name. */
  function Long(s: State, p: Pid, c: Content, end: bool): Option<State>
    requires p in s.procs
  {
    var pr := s.procs[p];
    if s.building.Absent? || !Grows(s.building.content, c, pr.version) then None
    else if pr.pc.Migrate? then
      if !end then Some(s.(building := Present(c)))
      else if c.sentinel && AtMost(Some(pr.version), c.version) then Some(Go(s.(building := Present(c)), p, Hydrate))
      else None
    else if pr.pc.Hydrate? then
      if !end then Some(s.(building := Present(c)))
      else if c.hydrated then Some(Go(s.(building := Present(c)), p, Rename))
      else None
    else None
  }

  /** The state after event `e` of process `p`, if it can happen. */
  function Step(s: State, p: Pid, e: Event): Option<State>
    requires p in s.procs
  {
    var pr := s.procs[p];
    if pr.pc.Done? then None
    else
      match e
      case Crash => Some(Release(Go(s, p, Done), p))
      case LoseSession => if s.lock == Some(p) then Some(Release(s, p)) else None
      case Fail => if pr.pc.Unlock? then None else Some(Go(s, p, AfterFailure(pr.pc)))
      case FailAfter =>
        if pr.session && Accepted(s, pr.pc) then Some(Go(Effect(s, pr.pc), p, AfterFailure(pr.pc))) else None
      case Succeed => if OnSession(pr.pc) && !pr.session then None else Ask(s, p)
      case Work(c) => Long(s, p, c, false)
      case Finish(c) => Long(s, p, c, true)
  }

  // ---------------------------------------------------------------- runs

  datatype Happening = Happening(p: Pid, e: Event)

  /** The state after a sequence of happenings, if all of them can happen. */
  function Run(s: State, hs: seq<Happening>): Option<State>
    decreases |hs|
  {
    if hs == [] then Some(s)
    else if hs[0].p !in s.procs then None
    else
      match Step(s, hs[0].p, hs[0].e)
      case None => None
      case Some(t) => Run(t, hs[1..])
  }

  /** Nobody has started; there are no clones; leftovers may lie under the building name. */
  predicate Init(s: State) {
    && s.lock.None? && s.clones == map[]
    && forall p | p in s.procs :: s.procs[p].pc.Idle? && !s.procs[p].session
  }

  // ---------------------------------------------------------------- mutual exclusion

  predicate Critical(pc: Pc) {
    !pc.Idle? && !pc.Clone? && !pc.Running? && !pc.Done?
  }

  /** A live session is the lock, and at most one process has it. */
  predicate Exclusive(s: State) {
    && (s.lock.Some? ==> s.lock.value in s.procs && Critical(s.procs[s.lock.value].pc))
    && forall p | p in s.procs :: s.procs[p].session <==> s.lock == Some(p)
  }

  /** What the holder of the lock has achieved. */
  predicate Prepared(s: State) {
    s.lock.Some? && s.lock.value in s.procs ==>
      var pr := s.procs[s.lock.value];
      && (pr.pc.DropStale? || pr.pc.Create? || pr.pc.Migrate? || pr.pc.Hydrate? || pr.pc.Rename? ==> s.template.Absent?)
      && (pr.pc.Create? ==> s.building.Absent?)
      && (pr.pc.Migrate? || pr.pc.Hydrate? || pr.pc.Rename? ==> s.building.Present?)
      && (pr.pc.Hydrate? || pr.pc.Rename? ==>
            s.building.content.sentinel && AtMost(Some(pr.version), s.building.content.version))
      && (pr.pc.Rename? ==> s.building.content.hydrated)
  }

  predicate Safe(s: State) {
    && Exclusive(s) && Prepared(s)
    && (s.template.Present? ==> Complete(s.template.content))
  }

  lemma StepExclusive(s: State, p: Pid, e: Event)
    requires Exclusive(s) && p in s.procs && Step(s, p, e).Some?
    ensures Exclusive(Step(s, p, e).value)
  {
  }

  lemma StepPrepared(s: State, p: Pid, e: Event)
    requires Exclusive(s) && Prepared(s) && p in s.procs && Step(s, p, e).Some?
    ensures Prepared(Step(s, p, e).value)
  {
  }

  lemma StepSafe(s: State, p: Pid, e: Event)
    requires Safe(s) && p in s.procs && Step(s, p, e).Some?
    ensures Safe(Step(s, p, e).value)
  {
    StepExclusive(s, p, e);
    StepPrepared(s, p, e);
  }

  /** Starting from an absent or complete template, the template name is only ever absent or
      fully migrated and hydrated, whatever the versions of the processes. */
  lemma {:induction false} TemplateAlwaysComplete(s: State, hs: seq<Happening>)
    requires Safe(s) && Run(s, hs).Some?
    ensures Safe(Run(s, hs).value)
    decreases |hs|
  {
    hide Step, Safe;
    if hs != [] {
      StepSafe(s, hs[0].p, hs[0].e);
      TemplateAlwaysComplete(Step(s, hs[0].p, hs[0].e).value, hs[1..]);
    }
  }

  lemma InitSafe(s: State)
    requires Init(s) && (s.template.Present? ==> Complete(s.template.content))
    ensures Safe(s)
  {
  }

  /** Only two things happen to the template name: the lock holder drops it, or, while it is
      absent, promotes a complete building under it. */
  lemma TemplateChanges(s: State, p: Pid, e: Event)
    requires Safe(s) && p in s.procs && Step(s, p, e).Some?
    requires Step(s, p, e).value.template != s.template
    ensures s.lock == Some(p)
    ensures var t := Step(s, p, e).value;
            || (s.procs[p].pc.DropTemplate? && t.template == Absent)
            || (s.procs[p].pc.Rename? && s.template.Absent? && t.template == s.building && Complete(t.template.content))
  {
  }

  // ---------------------------------------------------------------- one version

  /** All processes carry migrations up to `w`. */
  predicate OneVersion(s: State, w: nat) {
    forall p | p in s.procs :: s.procs[p].version == w
  }

  /** The holder's building has no migration beyond `w`. */
  predicate Bounded(s: State, w: nat) {
    s.lock.Some? && s.lock.value in s.procs && s.building.Present? ==>
      var pc := s.procs[s.lock.value].pc;
      pc.Migrate? || pc.Hydrate? || pc.Rename? ==> AtMost(s.building.content.version, Some(w))
  }

  /** The template is absent or current. */
  predicate Settled(s: State, w: nat) {
    s.template.Present? ==> Current(s.template.content, w)
  }

  /** A template at version `w` is complete; whoever trusts it, or has cut from it, was right. */
  predicate Uniform(s: State, w: nat) {
    && Exclusive(s) && Prepared(s) && OneVersion(s, w) && Bounded(s, w)
    && (s.template.Present? && s.template.content.version == Some(w) ==> Complete(s.template.content))
    && (forall p | p in s.procs && (s.procs[p].pc == Unlock(true) || s.procs[p].pc.Clone?) :: Settled(s, w))
    && (forall n | n in s.clones :: Current(s.clones[n].content, w))
    && (forall p | p in s.procs && s.procs[p].pc.Running? ::
          s.procs[p].clone in s.clones && s.clones[s.procs[p].clone].owner == p)
  }

  lemma StepBounded(s: State, p: Pid, e: Event, w: nat)
    requires Exclusive(s) && OneVersion(s, w) && Bounded(s, w) && p in s.procs && Step(s, p, e).Some?
    ensures OneVersion(Step(s, p, e).value, w) && Bounded(Step(s, p, e).value, w)
  {
  }

  /** Once absent or current, the template stays so. */
  lemma StepSettled(s: State, p: Pid, e: Event, w: nat)
    requires Uniform(s, w) && Settled(s, w) && p in s.procs && Step(s, p, e).Some?
    ensures Settled(Step(s, p, e).value, w)
  {
  }

  lemma StepCuts(s: State, p: Pid, e: Event, w: nat)
    requires Uniform(s, w) && p in s.procs && Step(s, p, e).Some?
    ensures forall n | n in Step(s, p, e).value.clones :: Current(Step(s, p, e).value.clones[n].content, w)
  {
    hide Exclusive, Prepared, Bounded;
  }

  lemma StepOwners(s: State, p: Pid, e: Event, w: nat)
    requires Uniform(s, w) && p in s.procs && Step(s, p, e).Some?
    ensures var t := Step(s, p, e).value;
            forall q | q in t.procs && t.procs[q].pc.Running? ::
              t.procs[q].clone in t.clones && t.clones[t.procs[q].clone].owner == q
  {
    hide Exclusive, Prepared, Bounded, Current, Complete, Grows;
  }

  lemma StepTrusted(s: State, p: Pid, e: Event, w: nat)
    requires Uniform(s, w) && p in s.procs && Step(s, p, e).Some?
    ensures var t := Step(s, p, e).value;
            && (t.template.Present? && t.template.content.version == Some(w) ==> Complete(t.template.content))
            && (forall q | q in t.procs && (t.procs[q].pc == Unlock(true) || t.procs[q].pc.Clone?) :: Settled(t, w))
  {
    if Settled(s, w) { StepSettled(s, p, e, w); }
  }

  lemma StepUniform(s: State, p: Pid, e: Event, w: nat)
    requires Uniform(s, w) && p in s.procs && Step(s, p, e).Some?
    ensures Uniform(Step(s, p, e).value, w)
  {
    hide Step, Current, Complete;
    StepExclusive(s, p, e);
    StepPrepared(s, p, e);
    StepBounded(s, p, e, w);
    StepTrusted(s, p, e, w);
    StepCuts(s, p, e, w);
    StepOwners(s, p, e, w);
  }

  lemma InitUniform(s: State, w: nat)
    requires Init(s) && OneVersion(s, w)
    requires s.template.Present? && s.template.content.version == Some(w) ==> Complete(s.template.content)
    ensures Uniform(s, w)
  {
  }

  /** When all processes carry the same migrations, every clone ever cut is current, and each
      running process has a clone of its own: whatever template the server was left with,
      whatever crashes, fails or loses its session. */
  lemma {:induction false} ClonesAreCurrent(s: State, hs: seq<Happening>, w: nat)
    requires Uniform(s, w) && Run(s, hs).Some?
    ensures Uniform(Run(s, hs).value, w)
    ensures forall n | n in Run(s, hs).value.clones :: Current(Run(s, hs).value.clones[n].content, w)
    decreases |hs|
  {
    hide Step, Current;
    if hs != [] {
      StepUniform(s, hs[0].p, hs[0].e, w);
      ClonesAreCurrent(Step(s, hs[0].p, hs[0].e).value, hs[1..], w);
    }
  }

  // ---------------------------------------------------------------- a valid template is kept

  /** No process is about to drop a template whose version it could not read, the lock holder
      only drops one that is not current, and whoever trusts the template finds it. */
  predicate Kept(s: State, w: nat) {
    && (forall p | p in s.procs :: s.procs[p].pc != DropTemplate(false))
    && (s.lock.Some? && s.lock.value in s.procs && s.procs[s.lock.value].pc.DropTemplate? && s.template.Present? ==>
          !Current(s.template.content, w))
    && (forall p | p in s.procs && (s.procs[p].pc == Unlock(true) || s.procs[p].pc.Clone?) ::
          s.template.Present? && Current(s.template.content, w))
  }

  /** The one failure that matters: the version of an existing template cannot be read. */
  predicate VersionUnread(s: State, p: Pid, e: Event)
    requires p in s.procs
  {
    s.procs[p].pc.AskVersion? && e.Fail?
  }

  /** With one version, a current template is dropped only by the lock holder, after its
      version could not be read. */
  lemma OnlyUnreadIsDropped(s: State, p: Pid, e: Event, w: nat)
    requires Uniform(s, w) && Kept(s, w) && p in s.procs && Step(s, p, e).Some? && !VersionUnread(s, p, e)
    ensures Kept(Step(s, p, e).value, w)
    ensures s.template.Present? && Current(s.template.content, w) ==> Step(s, p, e).value.template == s.template
  {
    hide Step, Current, Complete, Uniform;
    TrustedStays(s, p, e, w);
    TrustersStay(s, p, e, w);
    NobodyBlind(s, p, e, w);
    HolderDropsStale(s, p, e, w);
  }

  lemma NobodyBlind(s: State, p: Pid, e: Event, w: nat)
    requires Kept(s, w) && p in s.procs && Step(s, p, e).Some? && !VersionUnread(s, p, e)
    ensures var t := Step(s, p, e).value; forall q | q in t.procs :: t.procs[q].pc != DropTemplate(false)
  {
  }

  lemma HolderDropsStale(s: State, p: Pid, e: Event, w: nat)
    requires Uniform(s, w) && Kept(s, w) && p in s.procs && Step(s, p, e).Some? && !VersionUnread(s, p, e)
    ensures var t := Step(s, p, e).value;
            t.lock.Some? && t.lock.value in t.procs && t.procs[t.lock.value].pc.DropTemplate? && t.template.Present? ==>
              !Current(t.template.content, w)
  {
  }

  lemma TrustersStay(s: State, p: Pid, e: Event, w: nat)
    requires Uniform(s, w) && Kept(s, w) && p in s.procs && Step(s, p, e).Some?
    ensures var t := Step(s, p, e).value;
            forall q | q in t.procs && (t.procs[q].pc == Unlock(true) || t.procs[q].pc.Clone?) ::
              t.template.Present? && Current(t.template.content, w)
  {
  }

  lemma TrustedStays(s: State, p: Pid, e: Event, w: nat)
    requires Uniform(s, w) && Kept(s, w) && p in s.procs && Step(s, p, e).Some?
    ensures s.template.Present? && Current(s.template.content, w) ==> Step(s, p, e).value.template == s.template
  {
  }

  /** No version query failed in the run. */
  predicate AllRead(s: State, hs: seq<Happening>)
    requires Run(s, hs).Some?
    decreases |hs|
  {
    hs == [] ||
    (!VersionUnread(s, hs[0].p, hs[0].e) && AllRead(Step(s, hs[0].p, hs[0].e).value, hs[1..]))
  }

  /** With one version, and as long as the version of an existing template can be read, a
      current template is never dropped, and no process that got past the lock lacks it. */
  lemma {:induction false} ValidTemplateStays(s: State, hs: seq<Happening>, w: nat)
    requires Uniform(s, w) && Kept(s, w) && Run(s, hs).Some? && AllRead(s, hs)
    ensures Kept(Run(s, hs).value, w)
    ensures s.template.Present? && Current(s.template.content, w) ==> Run(s, hs).value.template == s.template
    decreases |hs|
  {
    hide Step, Uniform, Kept, VersionUnread;
    if hs != [] {
      StepUniform(s, hs[0].p, hs[0].e, w);
      OnlyUnreadIsDropped(s, hs[0].p, hs[0].e, w);
      ValidTemplateStays(Step(s, hs[0].p, hs[0].e).value, hs[1..], w);
    }
  }

  lemma InitKept(s: State, w: nat)
    requires Init(s)
    ensures Kept(s, w)
  {
  }

  /** The converse: a lock holder that cannot read the version drops the template, however
      current it is. */
  lemma UnreadDropsTemplate(s: State, p: Pid)
    requires Exclusive(s) && s.lock == Some(p) && s.procs[p].pc.AskVersion? && s.template.Present?
    ensures Run(s, [Happening(p, Fail), Happening(p, Succeed)]).Some?
    ensures Run(s, [Happening(p, Fail), Happening(p, Succeed)]).value.template == Absent
  {
    RunStep(s, Happening(p, Fail), [Happening(p, Succeed)]);
    RunStep(Step(s, p, Fail).value, Happening(p, Succeed), []);
  }

  lemma RunStep(s: State, h: Happening, rest: seq<Happening>)
    requires h.p in s.procs && Step(s, h.p, h.e).Some?
    ensures Run(s, [h] + rest) == Run(Step(s, h.p, h.e).value, rest)
    ensures rest == [] ==> [h] + rest == [h]
    ensures forall i | i in rest :: rest == [i] ==> [h] + rest == [h, i]
  {
    hide Step;
    assert ([h] + rest)[1..] == rest;
  }

  lemma {:induction false} RunConcat(s: State, a: seq<Happening>, b: seq<Happening>)
    requires Run(s, a).Some?
    ensures Run(s, a + b) == Run(Run(s, a).value, b)
    decreases |a|
  {
    hide Step;
    if a == [] {
      assert a + b == b;
    } else {
      assert (a + b)[1..] == a[1..] + b;
      RunConcat(Step(s, a[0].p, a[0].e).value, a[1..], b);
    }
  }

  // ---------------------------------------------------------------- recovery

  function Migrated(version: nat): Content { Content(true, Some(version), false) }

  function Loaded(version: nat): Content { Content(true, Some(version), true) }

  /** What a lone process does from where it drops the stale building. */
  function Build(p: Pid, version: nat): seq<Happening> {
    [Happening(p, Succeed)] + ([Happening(p, Succeed)] + ([Happening(p, Finish(Migrated(version)))]
    + ([Happening(p, Finish(Loaded(version)))] + ([Happening(p, Succeed)] + ([Happening(p, Succeed)] + [])))))
  }

  /** Where process `p` and the databases are. */
  predicate Stands(s: State, p: Pid, v: nat, pc: Pc, lock: Option<Pid>, template: Db, building: Db) {
    && p in s.procs && s.procs[p].pc == pc && s.procs[p].version == v && s.procs[p].session == (lock == Some(p))
    && s.lock == lock && s.template == template && s.building == building
  }

  lemma BuildsAlone(s: State, p: Pid, v: nat, building: Db)
    requires Stands(s, p, v, DropStale, Some(p), Absent, building)
    ensures Run(s, Build(p, v)).Some? && Stands(Run(s, Build(p, v)).value, p, v, Clone, None, Present(Loaded(v)), Absent)
  {
    hide Run;
    var s1 := Step(s, p, Succeed).value;
    assert Stands(s1, p, v, Create, Some(p), Absent, Absent);
    var s2 := Step(s1, p, Succeed).value;
    assert Stands(s2, p, v, Migrate, Some(p), Absent, Present(EMPTY));
    var s3 := Step(s2, p, Finish(Migrated(v))).value;
    assert Stands(s3, p, v, Hydrate, Some(p), Absent, Present(Migrated(v)));
    var s4, s5, s6 := Promotes(s3, p, v);
    SixSteps(s, s1, s2, s3, s4, s5, s6, p, v);
  }

  lemma Promotes(s3: State, p: Pid, v: nat) returns (s4: State, s5: State, s6: State)
    requires Stands(s3, p, v, Hydrate, Some(p), Absent, Present(Migrated(v)))
    ensures Step(s3, p, Finish(Loaded(v))) == Some(s4) && p in s4.procs
    ensures Step(s4, p, Succeed) == Some(s5) && p in s5.procs && Step(s5, p, Succeed) == Some(s6)
    ensures Stands(s6, p, v, Clone, None, Present(Loaded(v)), Absent)
  {
    s4 := Step(s3, p, Finish(Loaded(v))).value;
    assert Stands(s4, p, v, Rename, Some(p), Absent, Present(Loaded(v)));
    s5 := Step(s4, p, Succeed).value;
    assert Stands(s5, p, v, Unlock(true), Some(p), Present(Loaded(v)), Absent);
    s6 := Step(s5, p, Succeed).value;
  }

  lemma SixSteps(s: State, s1: State, s2: State, s3: State, s4: State, s5: State, s6: State, p: Pid, v: nat)
    requires p in s.procs && Step(s, p, Succeed) == Some(s1)
    requires p in s1.procs && Step(s1, p, Succeed) == Some(s2)
    requires p in s2.procs && Step(s2, p, Finish(Migrated(v))) == Some(s3)
    requires p in s3.procs && Step(s3, p, Finish(Loaded(v))) == Some(s4)
    requires p in s4.procs && Step(s4, p, Succeed) == Some(s5)
    requires p in s5.procs && Step(s5, p, Succeed) == Some(s6)
    ensures Run(s, Build(p, v)) == Some(s6)
  {
    hide Step, Run;
    RunStep(s5, Happening(p, Succeed), []);
    RunNone(s6);
    RunStep(s4, Happening(p, Succeed), [Happening(p, Succeed)] + []);
    RunStep(s3, Happening(p, Finish(Loaded(v))), [Happening(p, Succeed)] + ([Happening(p, Succeed)] + []));
    RunStep(s2, Happening(p, Finish(Migrated(v))), [Happening(p, Finish(Loaded(v)))] + ([Happening(p, Succeed)] + ([Happening(p, Succeed)] + [])));
    RunStep(s1, Happening(p, Succeed), [Happening(p, Finish(Migrated(v)))] + ([Happening(p, Finish(Loaded(v)))] + ([Happening(p, Succeed)] + ([Happening(p, Succeed)] + []))));
    RunStep(s, Happening(p, Succeed), [Happening(p, Succeed)] + ([Happening(p, Finish(Migrated(v)))] + ([Happening(p, Finish(Loaded(v)))] + ([Happening(p, Succeed)] + ([Happening(p, Succeed)] + [])))));
  }

  lemma RunNone(s: State)
    ensures Run(s, []) == Some(s)
  {
  }

  predicate Quiet(hs: seq<Happening>, p: Pid) {
    forall k | 0 <= k < |hs| :: hs[k].p == p
  }

  /** The process has let go of the lock with a template that is current for it. */
  predicate Ready(s: State, p: Pid, v: nat) {
    s.lock.None? && p in s.procs && s.procs[p].pc.Clone? && s.template.Present? && Current(s.template.content, v)
  }

  /** The template has the sentinel table and the process's own migration. */
  predicate Trusted(template: Db, v: nat) {
    template.Present? && template.content.sentinel && template.content.version == Some(v)
  }

  /** The process has let go of the lock; the template is the one it trusted, or its own. */
  predicate Settles(s: State, t: State, p: Pid, v: nat) {
    && t.lock.None? && p in t.procs && t.procs[p].pc.Clone?
    && t.template == (if Trusted(s.template, v) then s.template else Present(Loaded(v)))
    && t.building == (if Trusted(s.template, v) then s.building else Absent)
  }

  /** From any template and any leftovers at all, a process at the gate of the lock gets past
      it by its own statements alone: an empty shell, and a template at another migration, is
      dropped and rebuilt; one at its own migration is taken as it is. */
  lemma Rebuilds(s: State, p: Pid) returns (hs: seq<Happening>)
    requires Exclusive(s) && s.lock.None? && p in s.procs && s.procs[p].pc.Idle?
    ensures Quiet(hs, p) && Run(s, hs).Some? && Settles(s, Run(s, hs).value, p, s.procs[p].version)
  {
    hide Run;
    var v := s.procs[p].version;
    var ok := Happening(p, Succeed);
    var s1 := Step(s, p, Succeed).value;
    assert Stands(s1, p, v, AskExists, Some(p), s.template, s.building);
    var rest: seq<Happening>;
    if s.template.Absent? {
      var s2 := Step(s1, p, Succeed).value;
      BuildsAlone(s2, p, v, s.building);
      rest := [ok] + Build(p, v);
      RunStep(s1, ok, Build(p, v));
    } else {
      rest := FromExists(s1, p, v);
    }
    RunStep(s, ok, rest);
    hs := [ok] + rest;
  }

  lemma FromExists(s: State, p: Pid, v: nat) returns (hs: seq<Happening>)
    requires s.template.Present? && Stands(s, p, v, AskExists, Some(p), s.template, s.building)
    ensures Quiet(hs, p) && Run(s, hs).Some? && Settles(s, Run(s, hs).value, p, v)
  {
    hide Run;
    var ok := Happening(p, Succeed);
    var s1 := Step(s, p, Succeed).value;
    assert Stands(s1, p, v, AskSentinel, Some(p), s.template, s.building);
    var s2 := Step(s1, p, Succeed).value;
    var rest: seq<Happening>;
    if s.template.content.sentinel {
      assert Stands(s2, p, v, AskVersion, Some(p), s.template, s.building);
      rest := FromVersion(s2, p, v);
    } else {
      rest := FromDrop(s2, p, v);
    }
    RunStep(s1, ok, rest);
    RunStep(s, ok, [ok] + rest);
    hs := [ok] + ([ok] + rest);
  }

  lemma FromDrop(s: State, p: Pid, v: nat) returns (hs: seq<Happening>)
    requires Stands(s, p, v, DropTemplate(true), Some(p), s.template, s.building)
    ensures Quiet(hs, p) && Run(s, hs).Some?
    ensures Stands(Run(s, hs).value, p, v, Clone, None, Present(Loaded(v)), Absent)
  {
    hide Run;
    var ok := Happening(p, Succeed);
    var s1 := Step(s, p, Succeed).value;
    assert Stands(s1, p, v, DropStale, Some(p), Absent, s.building);
    BuildsAlone(s1, p, v, s.building);
    RunStep(s, ok, Build(p, v));
    hs := [ok] + Build(p, v);
  }

  lemma FromVersion(s: State, p: Pid, v: nat) returns (hs: seq<Happening>)
    requires s.template.Present? && s.template.content.sentinel
    requires Stands(s, p, v, AskVersion, Some(p), s.template, s.building)
    ensures Quiet(hs, p) && Run(s, hs).Some? && Settles(s, Run(s, hs).value, p, v)
  {
    hide Run;
    var ok := Happening(p, Succeed);
    var s1 := Step(s, p, Succeed).value;
    var rest: seq<Happening>;
    if s.template.content.version == Some(v) {
      var s2 := Step(s1, p, Succeed).value;
      assert Stands(s1, p, v, Unlock(true), Some(p), s.template, s.building);
      assert Stands(s2, p, v, Clone, None, s.template, s.building);
      RunNone(s2);
      RunStep(s1, ok, []);
      rest := [ok] + [];
    } else {
      rest := FromDrop(s1, p, v);
    }
    RunStep(s, ok, rest);
    hs := [ok] + rest;
  }

  /** So a process at the gate of the lock gets to a template that is current for it, whatever
      was left behind, exactly unless it trusts one that is not complete. */
  lemma Recovers(s: State, p: Pid) returns (hs: seq<Happening>)
    requires Exclusive(s) && s.lock.None? && p in s.procs && s.procs[p].pc.Idle?
    ensures Quiet(hs, p) && Run(s, hs).Some? && Settles(s, Run(s, hs).value, p, s.procs[p].version)
    ensures var v := s.procs[p].version;
            Ready(Run(s, hs).value, p, v) <==> (Trusted(s.template, v) ==> Complete(s.template.content))
  {
    hide Run;
    hs := Rebuilds(s, p);
  }

  // ---------------------------------------------------------------- giving up

  /** A process that owns the building database: it has created it and not yet promoted it. */
  predicate Building(pc: Pc) { pc.Migrate? || pc.Hydrate? || pc.Rename? }

  /** The lock holder gives up at the first error, except where it takes the error for an
      outdated template: it drops the building it has created, lets go of the lock and ends;
      the template stays. */
  lemma GivesUp(s: State, p: Pid) returns (hs: seq<Happening>)
    requires Exclusive(s) && s.lock == Some(p) && !s.procs[p].pc.Unlock? && !s.procs[p].pc.AskVersion?
    ensures Quiet(hs, p) && |hs| > 0 && hs[0] == Happening(p, Fail) && (forall k | 0 < k < |hs| :: hs[k].e.Succeed?)
    ensures Run(s, hs).Some?
    ensures var t := Run(s, hs).value;
            && p in t.procs && t.procs[p].pc.Done? && t.lock.None? && t.template == s.template && t.clones == s.clones
            && t.building == (if Building(s.procs[p].pc) then Absent else s.building)
  {
    hide Run;
    var ok := Happening(p, Succeed);
    var s1 := Step(s, p, Fail).value;
    var s2 := Step(s1, p, Succeed).value;
    var rest: seq<Happening>;
    if Building(s.procs[p].pc) {
      var s3 := Step(s2, p, Succeed).value;
      RunNone(s3);
      RunStep(s2, ok, []);
      rest := [ok] + ([ok] + []);
      RunStep(s1, ok, [ok] + []);
    } else {
      RunNone(s2);
      RunStep(s1, ok, []);
      rest := [ok] + [];
    }
    RunStep(s, Happening(p, Fail), rest);
    hs := [Happening(p, Fail)] + rest;
  }

  /** The building name is taken only while the lock holder builds, or cleans up. */
  predicate BuildingOwned(s: State) {
    s.building.Present? ==>
      s.lock.Some? && s.lock.value in s.procs && (Building(s.procs[s.lock.value].pc) || s.procs[s.lock.value].pc.Cleanup?)
  }

  /** The holder dies or loses its session while it builds, cannot clean up, or is told that
      the database it created could not be created. */
  predicate LeavesBuilding(s: State, p: Pid, e: Event)
    requires p in s.procs
  {
    s.lock == Some(p) &&
    (((e.Crash? || e.LoseSession? || (s.procs[p].pc.Cleanup? && e.Fail?)) && s.building.Present?)
     || (s.procs[p].pc.Create? && e.FailAfter?))
  }

  /** A failed build leaves its database behind in exactly these cases. */
  lemma LeftBehindIff(s: State, p: Pid, e: Event)
    requires Exclusive(s) && BuildingOwned(s) && p in s.procs && Step(s, p, e).Some?
    ensures BuildingOwned(Step(s, p, e).value) <==> !LeavesBuilding(s, p, e)
  {
  }

  predicate NothingLeft(s: State, hs: seq<Happening>)
    requires Run(s, hs).Some?
    decreases |hs|
  {
    hs == [] || (!LeavesBuilding(s, hs[0].p, hs[0].e) && NothingLeft(Step(s, hs[0].p, hs[0].e).value, hs[1..]))
  }

  /** In every run without them, any failing statement included, no building is left. */
  lemma {:induction false} NoBuildingLeft(s: State, hs: seq<Happening>)
    requires Exclusive(s) && BuildingOwned(s) && Run(s, hs).Some? && NothingLeft(s, hs)
    ensures Exclusive(Run(s, hs).value) && BuildingOwned(Run(s, hs).value)
    ensures Run(s, hs).value.lock.None? ==> Run(s, hs).value.building == Absent
    decreases |hs|
  {
    hide Step, Exclusive, LeavesBuilding;
    if hs != [] {
      StepExclusive(s, hs[0].p, hs[0].e);
      LeftBehindIff(s, hs[0].p, hs[0].e);
      NoBuildingLeft(Step(s, hs[0].p, hs[0].e).value, hs[1..]);
    }
  }

  /** Every clone belongs to a running process. */
  predicate ClonesOwned(s: State) {
    forall n | n in s.clones ::
      var q := s.clones[n].owner; q in s.procs && s.procs[q].pc.Running? && s.procs[q].clone == n
  }

  /** A clone is left behind exactly when its process dies or cannot drop it. */
  lemma CloneLeftIff(s: State, p: Pid, e: Event)
    requires ClonesOwned(s) && p in s.procs && Step(s, p, e).Some?
    ensures ClonesOwned(Step(s, p, e).value) <==>
            !(s.procs[p].pc.Running? && (e.Crash? || e.Fail?) && s.procs[p].clone in s.clones && s.clones[s.procs[p].clone].owner == p)
  {
  }

  /** A process cuts its clone from the template as it is, and drops it when it is done. */
  lemma CutAndDrop(s: State, p: Pid)
    requires p in s.procs && s.procs[p].pc.Clone? && s.template.Present? && s.procs[p].clone !in s.clones
    ensures var cut := Step(s, p, Succeed);
            && cut.Some? && p in cut.value.procs && cut.value.procs[p].pc.Running? && cut.value.template == s.template
            && cut.value.clones == s.clones[s.procs[p].clone := Cut(s.template.content, p)]
            && var end := Step(cut.value, p, Succeed);
               end.Some? && p in end.value.procs && end.value.procs[p].pc.Done? && end.value.clones == s.clones
  {
  }

  // ---------------------------------------------------------------- two versions

  /** Between the unlock of `p` and its cut a process of another version may start. */
  predicate Overtakes(s: State, p: Pid, q: Pid) {
    && p in s.procs && q in s.procs && s.procs[p].pc.Clone? && s.procs[q].pc.Idle?
    && s.procs[p].clone !in s.clones && s.procs[p].clone != s.procs[q].clone
  }

  /** Process `p` runs on a clone at migration `v`. */
  predicate RunsOn(s: State, p: Pid, v: nat) {
    && p in s.procs && s.procs[p].pc.Running?
    && s.procs[p].clone in s.clones && s.clones[s.procs[p].clone] == Cut(s.clones[s.procs[p].clone].content, p)
    && s.clones[s.procs[p].clone].content.version == Some(v)
  }

  /** Then `p` may end up on a clone of the other process's version: the cut is outside of the
      lock, and the other process replaces a template that is not current for it. */
  lemma OvertakenCut(s: State, p: Pid, q: Pid) returns (hs: seq<Happening>)
    requires Safe(s) && s.lock.None? && Overtakes(s, p, q)
    ensures Run(s, hs).Some? && RunsOn(Run(s, hs).value, p, s.procs[q].version)
    ensures Run(s, hs).value.procs[p].version == s.procs[p].version
  {
    hide Run;
    var before := Recovers(s, q);
    var t := Run(s, before).value;
    OthersStay(s, before, q, p);
    assert t.procs[p].clone !in t.clones;
    var u := Step(t, p, Succeed).value;
    RunConcat(s, before, [Happening(p, Succeed)]);
    RunStep(t, Happening(p, Succeed), []);
    RunNone(u);
    hs := before + [Happening(p, Succeed)];
  }

  /** A process runs on a clone that is not current for it. */
  predicate Mismatch(s: State, p: Pid) {
    && p in s.procs && s.procs[p].pc.Running? && s.procs[p].clone in s.clones
    && !Current(s.clones[s.procs[p].clone].content, s.procs[p].version)
  }

  predicate Over(pc: Pc) { pc.Running? || pc.Done? }

  /** Until a process runs, what it does alone leaves the clones as they are. */
  lemma {:induction false} NoCutBefore(s: State, hs: seq<Happening>, p: Pid)
    requires p in s.procs && Quiet(hs, p) && Run(s, hs).Some?
    ensures var t := Run(s, hs).value;
            p in t.procs && (!Over(t.procs[p].pc) ==> !Over(s.procs[p].pc) && t.clones == s.clones)
    decreases |hs|
  {
    if hs != [] {
      assert hs[0].p == p;
      NoCutBefore(Step(s, p, hs[0].e).value, hs[1..], p);
    }
  }

  lemma TwoVersionsMismatch(s: State, p: Pid, q: Pid) returns (hs: seq<Happening>)
    requires Init(s) && Safe(s) && p in s.procs && q in s.procs
    requires s.procs[p].version != s.procs[q].version && s.procs[p].clone != s.procs[q].clone
    ensures Run(s, hs).Some? && Mismatch(Run(s, hs).value, p)
  {
    hide Run, Exclusive, Prepared, Step;
    var first := Recovers(s, p);
    var t := Run(s, first).value;
    OthersStay(s, first, p, q);
    NoCutBefore(s, first, p);
    TemplateAlwaysComplete(s, first);
    assert t.procs[p].version == s.procs[p].version by { SameVersion(s, first, p); }
    var then_ := OvertakenCut(t, p, q);
    RunConcat(s, first, then_);
    hs := first + then_;
  }

  lemma {:induction false} SameVersion(s: State, hs: seq<Happening>, p: Pid)
    requires p in s.procs && Run(s, hs).Some?
    ensures var t := Run(s, hs).value; p in t.procs && t.procs[p].version == s.procs[p].version
    decreases |hs|
  {
    if hs != [] {
      StepVersion(s, hs[0].p, hs[0].e, p);
      SameVersion(Step(s, hs[0].p, hs[0].e).value, hs[1..], p);
    }
  }

  lemma StepVersion(s: State, p: Pid, e: Event, q: Pid)
    requires p in s.procs && q in s.procs && Step(s, p, e).Some?
    ensures q in Step(s, p, e).value.procs && Step(s, p, e).value.procs[q].version == s.procs[q].version
  {
  }

  /** Exactly when two processes carry different migrations, some run leads to a process with a
      clone that is not current for it. */
  lemma MismatchIff(s: State)
    requires Init(s) && Safe(s)
    requires forall p, q | p in s.procs && q in s.procs && p != q :: s.procs[p].clone != s.procs[q].clone
    ensures (exists hs, p :: Run(s, hs).Some? && Mismatch(Run(s, hs).value, p)) <==>
            (exists p, q :: p in s.procs && q in s.procs && s.procs[p].version != s.procs[q].version)
  {
    hide Run, Step, Exclusive, Prepared, Current;
    if p, q :| p in s.procs && q in s.procs && s.procs[p].version != s.procs[q].version {
      var hs := TwoVersionsMismatch(s, p, q);
    } else {
      forall hs, p | Run(s, hs).Some? ensures !Mismatch(Run(s, hs).value, p) {
        OneVersionFits(s, hs, p);
      }
    }
  }

  lemma OneVersionFits(s: State, hs: seq<Happening>, p: Pid)
    requires Init(s) && Safe(s) && Run(s, hs).Some?
    requires forall p, q :: p in s.procs && q in s.procs ==> s.procs[p].version == s.procs[q].version
    ensures !Mismatch(Run(s, hs).value, p)
  {
    hide Run, Step, Prepared, Current;
    var t := Run(s, hs).value;
    if p in s.procs {
      var w := s.procs[p].version;
      assert s.template.Present? ==> Complete(s.template.content);
      InitUniform(s, w);
      ClonesAreCurrent(s, hs, w);
    } else {
      NobodyNew(s, hs, p);
    }
  }

  lemma {:induction false} NobodyNew(s: State, hs: seq<Happening>, p: Pid)
    requires p !in s.procs && Run(s, hs).Some?
    ensures p !in Run(s, hs).value.procs
    decreases |hs|
  {
    if hs != [] {
      NobodyNew(Step(s, hs[0].p, hs[0].e).value, hs[1..], p);
    }
  }

  /** Process 0 has trusted the template at migration 1 and is about to cut its clone,
      process 1 carries migration 2. */
  function Mixed(): State {
    State(map[0 := Process(Clone, false, 1, "a"), 1 := Process(Idle, false, 2, "b")],
          None, Present(Loaded(1)), Absent, map[])
  }

  /** An instance. */
  lemma MixedVersions() returns (hs: seq<Happening>)
    ensures Safe(Mixed()) && Run(Mixed(), hs).Some? && RunsOn(Run(Mixed(), hs).value, 0, 2)
    ensures Run(Mixed(), hs).value.procs[0].version == 1
  {
    hide Run;
    assert "a" != "b" by { assert "a"[0] == 'a'; }
    hs := OvertakenCut(Mixed(), 0, 1);
  }

  /** What one process does leaves the others alone, and only its own clone name is cut. */
  lemma {:induction false} OthersStay(s: State, hs: seq<Happening>, p: Pid, q: Pid)
    requires p != q && p in s.procs && q in s.procs && Quiet(hs, p) && Run(s, hs).Some?
    ensures var t := Run(s, hs).value;
            && q in t.procs && t.procs[q] == s.procs[q] && p in t.procs && t.procs[p].clone == s.procs[p].clone
            && forall n | n in t.clones :: n in s.clones || n == s.procs[p].clone
    decreases |hs|
  {
    if hs != [] {
      assert hs[0].p == p;
      OthersStay(Step(s, hs[0].p, hs[0].e).value, hs[1..], p, q);
    }
  }
}

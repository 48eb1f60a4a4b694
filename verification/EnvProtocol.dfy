/** Configuration reads under concurrent overrides, any number of readers and writers. */
module EnvProtocol {
  import opened Wrappers
  import opened Collections

  type Key = string
  type Value = string
  type Snapshot = map<Key, Value>
  type Overrides = map<Key, Option<Value>>

  function IsCached(key: Key): bool {
    "GLRMASK_" <= key || "O21137_" <= key
  }

  /** The override's answer when there is one, a removal included; otherwise the snapshot's. */
  function Resolve(key: Key, snapshot: Snapshot, overrides: Option<Overrides>): Option<Value> {
    if overrides.Some? && key in overrides.value then overrides.value[key]
    else if key in snapshot then Some(snapshot[key])
    else None
  }

  /** Exactly the names that begin with one of the two prefixes. */
  lemma CachedNames(key: Key)
    ensures IsCached(key) <==> exists rest :: key == "GLRMASK_" + rest || key == "O21137_" + rest
  {
    if "GLRMASK_" <= key {
      assert key == "GLRMASK_" + key[|"GLRMASK_"|..];
    }
    if "O21137_" <= key {
      assert key == "O21137_" + key[|"O21137_"|..];
    }
  }

  // ----- One thread alone -----

  class Environment {
    const snapshot: Snapshot
    var overrides: Overrides
    var hasOverrides: bool

    ghost predicate Valid()
      reads this
    {
      overrides != map[] ==> hasOverrides
    }

    constructor (live: map<Key, Value>)
      ensures Valid() && overrides == map[]
      ensures snapshot == map k | k in live && IsCached(k) :: live[k]
    {
      snapshot := map k | k in live && IsCached(k) :: live[k];
      overrides, hasOverrides := map[], false;
    }

    method RecordOverride(key: Key, value: Option<Value>)
      requires Valid()
      modifies this
      ensures Valid() && overrides == old(overrides)[key := value]
    {
      overrides := overrides[key := value];
      hasOverrides := true;
    }

    /** Names that are not GLRMask's go to the live environment. */
    method VarOs(key: Key, live: map<Key, Value>) returns (value: Option<Value>)
      requires Valid()
      ensures !IsCached(key) ==> value == if key in live then Some(live[key]) else None
      ensures IsCached(key) && key in overrides ==> value == overrides[key]
      ensures IsCached(key) && key !in overrides ==> value == if key in snapshot then Some(snapshot[key]) else None
    {
      if !IsCached(key) {
        value := if key in live then Some(live[key]) else None;
      } else if hasOverrides {
        value := Resolve(key, snapshot, Some(overrides));
      } else {
        value := Resolve(key, snapshot, None);
      }
    }
  }

  /** Until something is recorded every name, cached or not, reads as in the environment. */
  method ReadAtStart(key: Key, live: map<Key, Value>) returns (value: Option<Value>)
    ensures value == if key in live then Some(live[key]) else None
  {
    var environment := new Environment(live);
    value := environment.VarOs(key, live);
  }

  /** A recorded value or removal changes what its own name reads, if GLRMask caches it, and nothing else. */
  method ReadAfterRecord(recorded: Key, override: Option<Value>, key: Key, live: map<Key, Value>) returns (value: Option<Value>)
    ensures value == if key == recorded && IsCached(key) then override else if key in live then Some(live[key]) else None
  {
    var environment := new Environment(live);
    environment.RecordOverride(recorded, override);
    value := environment.VarOs(key, live);
  }

  // ----- Interleaved operations on cached names -----

  datatype Op = Record(key: Key, value: Option<Value>) | Read(key: Key)

  /** Where a running operation stands: begun; an override inserted but the flag not yet set; the flag loaded. */
  datatype Point = Begun | Inserted | Loaded(flag: bool)

  datatype State = State(
    overrides: Overrides, flag: bool,
    ops: map<nat, Op>, running: map<nat, Point>, results: map<nat, Option<Value>>)

  datatype Event = Invoke(id: nat, op: Op) | Insert(id: nat) | SetFlag(id: nat) | Load(id: nat) | Answer(id: nat)

  const INITIAL := State(map[], false, map[], map[], map[])

  predicate At(s: State, id: nat, point: Point) {
    id in s.running && id in s.ops && s.running[id] == point
  }

  predicate Enabled(s: State, e: Event) {
    match e
    case Invoke(id, _) => id !in s.ops
    case Insert(id) => At(s, id, Begun) && s.ops[id].Record?
    case SetFlag(id) => At(s, id, Inserted) && s.ops[id].Record?
    case Load(id) => At(s, id, Begun) && s.ops[id].Read?
    case Answer(id) => id in s.running && id in s.ops && s.running[id].Loaded? && s.ops[id].Read?
  }

  /** One atomic step. The lock is held for one insertion or one lookup; an answer is returned, a record returns nothing. */
  function Apply(snapshot: Snapshot, s: State, e: Event): State
    requires Enabled(s, e)
  {
    match e
    case Invoke(id, op) => s.(ops := s.ops[id := op], running := s.running[id := Begun])
    case Insert(id) => s.(overrides := s.overrides[s.ops[id].key := s.ops[id].value], running := s.running[id := Inserted])
    case SetFlag(id) => s.(flag := true, running := s.running - {id}, results := s.results[id := None])
    case Load(id) => s.(running := s.running[id := Loaded(s.flag)])
    case Answer(id) =>
      var overrides := if s.running[id].flag then Some(s.overrides) else None;
      s.(running := s.running - {id}, results := s.results[id := Resolve(s.ops[id].key, snapshot, overrides)])
  }

  /** The state after a schedule, if every step of it was possible. */
  function Execute(snapshot: Snapshot, events: seq<Event>): Option<State> {
    if events == [] then Some(INITIAL)
    else
      var last := |events| - 1;
      match Execute(snapshot, events[..last])
      case None => None
      case Some(s) => if Enabled(s, events[last]) then Some(Apply(snapshot, s, events[last])) else None
  }

  // ----- The one-map specification -----

  /** The overrides after performing the records of `log`, in order. */
  function Overlay(ops: map<nat, Op>, log: seq<nat>): Overrides {
    if log == [] then map[]
    else
      var id := log[|log| - 1];
      var before := Overlay(ops, log[..|log| - 1]);
      if id in ops && ops[id].Record? then before[ops[id].key := ops[id].value] else before
  }

  predicate Records(s: State, id: nat, key: Key) {
    id in s.ops && s.ops[id].Record? && s.ops[id].key == key
  }

  /** The operation at position `j` of the log is the last record of `key` before position `i`. */
  ghost predicate LastRecord(s: State, log: seq<nat>, key: Key, j: nat, i: nat)
    requires i <= |log|
  {
    j < i && Records(s, log[j], key) && forall k :: j < k < i ==> !Records(s, log[k], key)
  }

  /** The read at position `i` of the log answered with the last record of its name before it, a removal included,
      or with the snapshot's value when there is no such record. */
  ghost predicate AnswersLastRecord(snapshot: Snapshot, s: State, log: seq<nat>, i: nat)
    requires i < |log| && log[i] in s.ops && log[i] in s.results
  {
    var key, answer := s.ops[log[i]].key, s.results[log[i]];
    && (forall j :: 0 <= j < i && LastRecord(s, log, key, j, i) ==> answer == s.ops[log[j]].value)
    && ((forall j :: 0 <= j < i ==> !Records(s, log[j], key)) ==> answer == if key in snapshot then Some(snapshot[key]) else None)
  }

  /** `log` is a sequential history of the run: every finished operation is in it exactly once, each read returned
      what one map would at its place in the log, and an operation that finished before another began comes first. */
  ghost predicate Linearizes(snapshot: Snapshot, s: State, finishedBefore: map<nat, set<nat>>, log: seq<nat>) {
    && (forall i, j :: 0 <= i < j < |log| ==> log[i] != log[j])
    && (forall i :: 0 <= i < |log| ==> log[i] in s.ops)
    && (forall id :: id in s.results ==> id in log)
    && (forall i :: 0 <= i < |log| && log[i] in s.results && s.ops[log[i]].Read? ==> AnswersLastRecord(snapshot, s, log, i))
    && (forall i, j :: 0 <= i < |log| && 0 <= j < |log| && log[j] in finishedBefore && log[i] in finishedBefore[log[j]] ==> i < j)
  }

  /** For each operation, those that had finished when it was invoked. */
  function FinishedBefore(snapshot: Snapshot, events: seq<Event>): map<nat, set<nat>> {
    if events == [] then map[]
    else
      var last := |events| - 1;
      var before := FinishedBefore(snapshot, events[..last]);
      match events[last]
      case Invoke(id, _) =>
        (match Execute(snapshot, events[..last]) case None => before case Some(s) => before[id := s.results.Keys])
      case _ => before
  }

  // ----- The linearization -----

  /** Linearized operations, and records inserted while the flag was still unset. */
  datatype History = History(log: seq<nat>, pending: seq<nat>)

  /** A record takes effect when inserted, once the flag is set; the first flag store makes all waiting records
      take effect in insertion order. A read takes effect at its load if that saw no flag, else at its lookup. */
  function Extend(h: History, s: State, e: Event): History
    requires Enabled(s, e)
  {
    match e
    case Invoke(_, _) => h
    case Insert(id) => if s.flag then h.(log := h.log + [id]) else h.(pending := h.pending + [id])
    case SetFlag(_) => History(h.log + h.pending, [])
    case Load(id) => if s.flag then h else h.(log := h.log + [id])
    case Answer(id) => if s.running[id].flag then h.(log := h.log + [id]) else h
  }

  /** Which running operations have already taken effect. */
  predicate TakenEffect(s: State, id: nat) {
    id in s.results || (id in s.running && (s.running[id] == Inserted || s.running[id] == Loaded(false)))
  }

  /** Each operation runs or has answered, and is of the kind its phase is for. */
  ghost predicate Phases(s: State) {
    && (forall id :: id in s.ops <==> id in s.running || id in s.results)
    && (forall id :: id in s.running ==> id !in s.results)
    && (forall id :: id in s.running && s.running[id] == Inserted ==> s.ops[id].Record?)
    && (forall id :: id in s.running && s.running[id].Loaded? ==> s.ops[id].Read? && (s.running[id].flag ==> s.flag))
  }

  /** The history lists, once each, the operations that have taken effect. */
  ghost predicate Listed(s: State, h: History) {
    && Distinct(h.log + h.pending)
    && (s.flag ==> h.pending == [])
    && (forall id :: id in h.log || id in h.pending <==> id in s.ops && TakenEffect(s, id))
    && (forall id :: id in h.pending ==> At(s, id, Inserted) && s.ops[id].Record?)
  }

  ghost predicate Structure(s: State, h: History) {
    Phases(s) && Listed(s, h)
  }

  /** What a linearized read at position `i` returns, or will return. */
  ghost predicate ReadMeaning(snapshot: Snapshot, s: State, log: seq<nat>, i: nat)
    requires i < |log|
  {
    var id := log[i];
    id in s.ops && s.ops[id].Read? ==>
      (id in s.running ==> Overlay(s.ops, log[..i]) == map[])
      && (id in s.results ==> s.results[id] == Resolve(s.ops[id].key, snapshot, Some(Overlay(s.ops, log[..i]))))
  }

  ghost predicate Meaning(snapshot: Snapshot, s: State, h: History) {
    && Overlay(s.ops, h.log + h.pending) == s.overrides
    && (!s.flag ==> Overlay(s.ops, h.log) == map[])
    && forall i :: 0 <= i < |h.log| ==> ReadMeaning(snapshot, s, h.log, i)
  }

  ghost predicate RealTime(s: State, h: History, finishedBefore: map<nat, set<nat>>) {
    && (forall id :: id in finishedBefore ==> id in s.ops && finishedBefore[id] <= s.results.Keys)
    && (forall i, j :: 0 <= i < |h.log| && 0 <= j < |h.log| && h.log[j] in finishedBefore && h.log[i] in finishedBefore[h.log[j]] ==> i < j)
  }

  // ----- Overlays -----

  lemma {:induction false} OverlayOps(ops: map<nat, Op>, more: map<nat, Op>, log: seq<nat>)
    requires forall i :: 0 <= i < |log| ==> log[i] in ops && log[i] in more && ops[log[i]] == more[log[i]]
    ensures Overlay(ops, log) == Overlay(more, log)
  {
    if log != [] {
      OverlayOps(ops, more, log[..|log| - 1]);
    }
  }

  lemma OverlaySnoc(ops: map<nat, Op>, log: seq<nat>, id: nat)
    ensures Overlay(ops, log + [id]) ==
            if id in ops && ops[id].Record? then Overlay(ops, log)[ops[id].key := ops[id].value] else Overlay(ops, log)
  {
    assert (log + [id])[..|log|] == log;
  }

  lemma {:induction false} OverlayIgnoresReads(ops: map<nat, Op>, a: seq<nat>, r: nat, b: seq<nat>)
    requires r in ops && ops[r].Read?
    ensures Overlay(ops, a + [r] + b) == Overlay(ops, a + b)
    decreases |b|
  {
    if b == [] {
      OverlaySnoc(ops, a, r);
      assert a + [r] + b == a + [r] && a + b == a;
    } else {
      var init, last := b[..|b| - 1], b[|b| - 1];
      OverlayIgnoresReads(ops, a, r, init);
      OverlaySnoc(ops, a + [r] + init, last);
      OverlaySnoc(ops, a + init, last);
      assert a + [r] + b == a + [r] + init + [last] && a + b == a + init + [last];
    }
  }

  // ----- Each step keeps the invariants -----

  lemma InsertDistinct(a: seq<nat>, id: nat, b: seq<nat>)
    requires Distinct(a + b) && id !in a + b
    ensures Distinct(a + [id] + b)
  {
    var all := a + [id] + b;
    forall i, j | 0 <= i < j < |all|
      ensures all[i] != all[j]
    {
      var from := (k: int) => if k < |a| then k else k - 1;
      if i != |a| && j != |a| {
        assert all[i] == (a + b)[from(i)] && all[j] == (a + b)[from(j)];
      } else {
        assert i != |a| ==> all[i] == (a + b)[from(i)];
        assert j != |a| ==> all[j] == (a + b)[from(j)];
      }
    }
  }

  lemma PhasesStep(snapshot: Snapshot, s: State, e: Event)
    requires Phases(s) && Enabled(s, e)
    ensures Phases(Apply(snapshot, s, e))
  {
  }

  lemma ListedInsert(snapshot: Snapshot, s: State, h: History, id: nat)
    requires Structure(s, h) && Enabled(s, Insert(id))
    ensures Listed(Apply(snapshot, s, Insert(id)), Extend(h, s, Insert(id)))
  {
    var g, all := Extend(h, s, Insert(id)), h.log + h.pending;
    assert id !in all;
    AppendDistinct(all, id);
    assert g.log + g.pending == all + [id];
  }

  lemma ListedLoad(snapshot: Snapshot, s: State, h: History, id: nat)
    requires Structure(s, h) && Enabled(s, Load(id))
    ensures Listed(Apply(snapshot, s, Load(id)), Extend(h, s, Load(id)))
  {
    var g, all := Extend(h, s, Load(id)), h.log + h.pending;
    assert id !in all;
    if !s.flag {
      InsertDistinct(h.log, id, h.pending);
      assert forall x :: x in g.log + g.pending <==> x in all || x == id;
    }
  }

  lemma ListedAnswer(snapshot: Snapshot, s: State, h: History, id: nat)
    requires Structure(s, h) && Enabled(s, Answer(id))
    ensures Listed(Apply(snapshot, s, Answer(id)), Extend(h, s, Answer(id)))
  {
    var g, all := Extend(h, s, Answer(id)), h.log + h.pending;
    if s.running[id].flag {
      assert id !in all && all == h.log;
      AppendDistinct(all, id);
      assert g.log + g.pending == h.log + [id];
    } else {
      assert id in all;
    }
  }

  lemma StructureStep(snapshot: Snapshot, s: State, h: History, e: Event)
    requires Structure(s, h) && Enabled(s, e)
    ensures Structure(Apply(snapshot, s, e), Extend(h, s, e))
  {
    var t, g := Apply(snapshot, s, e), Extend(h, s, e);
    var all := h.log + h.pending;
    PhasesStep(snapshot, s, e);
    match e
    case Invoke(id, op) =>
      assert id !in all;
    case Insert(id) => ListedInsert(snapshot, s, h, id);
    case SetFlag(id) =>
      assert g.log + g.pending == all;
    case Load(id) => ListedLoad(snapshot, s, h, id);
    case Answer(id) => ListedAnswer(snapshot, s, h, id);
  }

  lemma OverlayStep(snapshot: Snapshot, s: State, h: History, e: Event)
    requires Structure(s, h) && Meaning(snapshot, s, h) && Enabled(s, e)
    ensures Overlay(Apply(snapshot, s, e).ops, Extend(h, s, e).log + Extend(h, s, e).pending) == Apply(snapshot, s, e).overrides
    ensures !Apply(snapshot, s, e).flag ==> Overlay(Apply(snapshot, s, e).ops, Extend(h, s, e).log) == map[]
  {
    var t, g := Apply(snapshot, s, e), Extend(h, s, e);
    var all := h.log + h.pending;
    match e
    case Invoke(id, op) =>
      forall i | 0 <= i < |all| ensures all[i] in s.ops { assert all[i] in all; }
      OverlayOps(s.ops, t.ops, all);
      forall i | 0 <= i < |h.log| ensures h.log[i] in s.ops { assert all[i] == h.log[i]; }
      OverlayOps(s.ops, t.ops, h.log);
    case Insert(id) =>
      OverlaySnoc(s.ops, all, id);
      assert g.log + g.pending == all + [id];
    case SetFlag(id) =>
      assert g.log + g.pending == all;
    case Load(id) =>
      if !s.flag {
        OverlayIgnoresReads(s.ops, h.log, id, h.pending);
        OverlaySnoc(s.ops, h.log, id);
      }
    case Answer(id) =>
      if s.running[id].flag {
        OverlaySnoc(s.ops, h.log, id);
        assert all == h.log && g.log + g.pending == h.log + [id];
      }
  }

  /** What was in the log keeps its meaning. */
  lemma OldReadMeaning(snapshot: Snapshot, s: State, h: History, e: Event, i: nat)
    requires Structure(s, h) && Meaning(snapshot, s, h) && Enabled(s, e) && i < |h.log|
    ensures i < |Extend(h, s, e).log| && ReadMeaning(snapshot, Apply(snapshot, s, e), Extend(h, s, e).log, i)
  {
    var t, g, all := Apply(snapshot, s, e), Extend(h, s, e), h.log + h.pending;
    assert g.log[i] == h.log[i] && g.log[..i] == h.log[..i];
    assert ReadMeaning(snapshot, s, h.log, i);
    forall k | 0 <= k < |h.log| ensures h.log[k] in s.ops { assert all[k] == h.log[k] && all[k] in all; }
    OverlayOps(s.ops, t.ops, h.log[..i]);
  }

  lemma ReadMeaningStep(snapshot: Snapshot, s: State, h: History, e: Event, i: nat)
    requires Structure(s, h) && Meaning(snapshot, s, h) && Enabled(s, e)
    requires i < |Extend(h, s, e).log|
    ensures ReadMeaning(snapshot, Apply(snapshot, s, e), Extend(h, s, e).log, i)
  {
    var g := Extend(h, s, e);
    if i < |h.log| {
      OldReadMeaning(snapshot, s, h, e, i);
    } else if e.SetFlag? {
      assert g.log[i] == h.pending[i - |h.log|];
      assert g.log[i] in h.pending;
    } else {
      assert g.log == h.log + [g.log[i]] && g.log[..i] == h.log;
      assert e.Answer? ==> h.log + h.pending == h.log;
    }
  }

  function NextFinished(s: State, finishedBefore: map<nat, set<nat>>, e: Event): map<nat, set<nat>> {
    match e case Invoke(id, _) => finishedBefore[id := s.results.Keys] case _ => finishedBefore
  }

  lemma RealTimeStep(snapshot: Snapshot, s: State, h: History, e: Event, finishedBefore: map<nat, set<nat>>)
    requires Structure(s, h) && RealTime(s, h, finishedBefore) && Enabled(s, e)
    ensures RealTime(Apply(snapshot, s, e), Extend(h, s, e), NextFinished(s, finishedBefore, e))
  {
    var t, g, after := Apply(snapshot, s, e), Extend(h, s, e), NextFinished(s, finishedBefore, e);
    assert s.results.Keys <= t.results.Keys;
    forall i, j | 0 <= i < |g.log| && 0 <= j < |g.log| && g.log[j] in after && g.log[i] in after[g.log[j]]
      ensures i < j
    {
      if e.Invoke? {
        assert g.log[j] in h.log + h.pending;
      }
      assert g.log[i] in s.results;
      FinishedIsLogged(s, h, g.log[i]);
      if i >= |h.log| {
        StillDistinct(snapshot, s, h, e, i);
      }
      assert g.log[i] == h.log[i];
      if j < |h.log| {
        assert g.log[j] == h.log[j];
      }
    }
  }

  lemma FinishedIsLogged(s: State, h: History, id: nat)
    requires Structure(s, h) && id in s.results
    ensures id in h.log
  {
    assert id in h.log + h.pending;
    assert id !in h.pending;
  }

  /** What is appended to the log was not in it. */
  lemma StillDistinct(snapshot: Snapshot, s: State, h: History, e: Event, i: nat)
    requires Structure(s, h) && Enabled(s, e) && |h.log| <= i < |Extend(h, s, e).log|
    ensures Extend(h, s, e).log[i] !in h.log
  {
    StructureStep(snapshot, s, h, e);
    var g := Extend(h, s, e);
    forall k | 0 <= k < |h.log| ensures h.log[k] != g.log[i] {
      assert (g.log + g.pending)[k] == h.log[k] && (g.log + g.pending)[i] == g.log[i];
    }
  }

  // ----- Every run is linearizable -----

  function HistoryOf(snapshot: Snapshot, events: seq<Event>): History {
    if events == [] then History([], [])
    else
      var last := |events| - 1;
      var h := HistoryOf(snapshot, events[..last]);
      match Execute(snapshot, events[..last])
      case None => h
      case Some(s) => if Enabled(s, events[last]) then Extend(h, s, events[last]) else h
  }

  lemma {:induction false} RunInvariants(snapshot: Snapshot, events: seq<Event>)
    requires Execute(snapshot, events).Some?
    ensures var s, h := Execute(snapshot, events).value, HistoryOf(snapshot, events);
            Structure(s, h) && Meaning(snapshot, s, h) && RealTime(s, h, FinishedBefore(snapshot, events))
  {
    if events != [] {
      var last := |events| - 1;
      var before := events[..last];
      RunInvariants(snapshot, before);
      var s, h, e := Execute(snapshot, before).value, HistoryOf(snapshot, before), events[last];
      StructureStep(snapshot, s, h, e);
      OverlayStep(snapshot, s, h, e);
      forall i | 0 <= i < |Extend(h, s, e).log| ensures ReadMeaning(snapshot, Apply(snapshot, s, e), Extend(h, s, e).log, i) {
        ReadMeaningStep(snapshot, s, h, e, i);
      }
      RealTimeStep(snapshot, s, h, e, FinishedBefore(snapshot, before));
    }
  }

  lemma LogIsSound(s: State, h: History)
    requires Structure(s, h)
    ensures Distinct(h.log) && forall i :: 0 <= i < |h.log| ==> h.log[i] in s.ops
  {
    var all := h.log + h.pending;
    forall i, j | 0 <= i < j < |h.log| ensures h.log[i] != h.log[j] {
      assert all[i] == h.log[i] && all[j] == h.log[j];
    }
    forall i | 0 <= i < |h.log| ensures h.log[i] in s.ops {
      assert all[i] == h.log[i] && all[i] in all;
    }
  }

  /** The overrides after the first `i` operations hold the last record of each name. */
  lemma {:induction false} OverlayIsLastRecord(s: State, log: seq<nat>, key: Key, i: nat)
    requires i <= |log|
    ensures key in Overlay(s.ops, log[..i]) <==> exists j :: 0 <= j < i && Records(s, log[j], key)
    ensures forall j :: 0 <= j < i && LastRecord(s, log, key, j, i) ==>
              key in Overlay(s.ops, log[..i]) && Overlay(s.ops, log[..i])[key] == s.ops[log[j]].value
  {
    if i > 0 {
      var last := i - 1;
      assert log[..i] == log[..last] + [log[last]];
      OverlaySnoc(s.ops, log[..last], log[last]);
      OverlayIsLastRecord(s, log, key, last);
      forall j | 0 <= j < i && LastRecord(s, log, key, j, i)
        ensures key in Overlay(s.ops, log[..i]) && Overlay(s.ops, log[..i])[key] == s.ops[log[j]].value
      {
        assert j < last ==> LastRecord(s, log, key, j, last) && !Records(s, log[last], key);
      }
    }
  }

  lemma InvariantsLinearize(snapshot: Snapshot, s: State, h: History, finishedBefore: map<nat, set<nat>>)
    requires Structure(s, h) && Meaning(snapshot, s, h) && RealTime(s, h, finishedBefore)
    ensures Linearizes(snapshot, s, finishedBefore, h.log)
  {
    LogIsSound(s, h);
    forall id | id in s.results ensures id in h.log { FinishedIsLogged(s, h, id); }
    forall i | 0 <= i < |h.log| && h.log[i] in s.results && s.ops[h.log[i]].Read?
      ensures AnswersLastRecord(snapshot, s, h.log, i)
    {
      assert ReadMeaning(snapshot, s, h.log, i);
      OverlayIsLastRecord(s, h.log, s.ops[h.log[i]].key, i);
    }
  }

  /** Any interleaving is equivalent to a sequential history of reads and records on one map. */
  lemma EveryRunLinearizes(snapshot: Snapshot, events: seq<Event>)
    requires Execute(snapshot, events).Some?
    ensures Linearizes(snapshot, Execute(snapshot, events).value, FinishedBefore(snapshot, events), HistoryOf(snapshot, events).log)
  {
    RunInvariants(snapshot, events);
    InvariantsLinearize(snapshot, Execute(snapshot, events).value, HistoryOf(snapshot, events), FinishedBefore(snapshot, events));
  }

  /** For each operation the run knows what had finished when it was invoked. */
  lemma {:induction false} FinishedBeforeInvoke(snapshot: Snapshot, events: seq<Event>, k: nat)
    requires Execute(snapshot, events).Some? && k < |events| && events[k].Invoke?
    ensures Execute(snapshot, events[..k]).Some? && events[k].id in Execute(snapshot, events).value.ops
    ensures events[k].id in FinishedBefore(snapshot, events)
    ensures FinishedBefore(snapshot, events)[events[k].id] == Execute(snapshot, events[..k]).value.results.Keys
    decreases |events|
  {
    var last := |events| - 1;
    if k < last {
      FinishedBeforeInvoke(snapshot, events[..last], k);
      assert events[..last][..k] == events[..k];
    }
  }

  // ----- No operation waits for another -----

  lemma OneMoreEvent(snapshot: Snapshot, events: seq<Event>, e: Event)
    requires Execute(snapshot, events).Some? && Enabled(Execute(snapshot, events).value, e)
    ensures Execute(snapshot, events + [e]) == Some(Apply(snapshot, Execute(snapshot, events).value, e))
  {
    assert (events + [e])[..|events|] == events;
  }

  /** The two steps by which an operation finishes: a record inserts and then sets the flag, a read loads the flag and
      then answers. */
  function OwnSteps(id: nat, op: Op): (Event, Event) {
    if op.Record? then (Insert(id), SetFlag(id)) else (Load(id), Answer(id))
  }

  lemma StepsFinish(snapshot: Snapshot, s: State, id: nat, op: Op) returns (t: State)
    requires id !in s.ops
    ensures Enabled(s, Invoke(id, op)) && Enabled(Apply(snapshot, s, Invoke(id, op)), OwnSteps(id, op).0)
    ensures var u := Apply(snapshot, Apply(snapshot, s, Invoke(id, op)), OwnSteps(id, op).0);
            Enabled(u, OwnSteps(id, op).1) && t == Apply(snapshot, u, OwnSteps(id, op).1)
    ensures id in t.results && id !in t.running && id in t.ops && t.ops[id] == op
  {
    var begun := Apply(snapshot, s, Invoke(id, op));
    var half := Apply(snapshot, begun, OwnSteps(id, op).0);
    t := Apply(snapshot, half, OwnSteps(id, op).1);
  }

  /** At any point of any run, whatever other operations are half done, a new operation can begin and finish by its own
      two steps. */
  lemma EveryOperationFinishes(snapshot: Snapshot, events: seq<Event>, id: nat, op: Op) returns (t: State)
    requires Execute(snapshot, events).Some? && id !in Execute(snapshot, events).value.ops
    ensures Execute(snapshot, events + [Invoke(id, op)] + [OwnSteps(id, op).0] + [OwnSteps(id, op).1]) == Some(t)
    ensures id in t.results && id !in t.running && id in t.ops && t.ops[id] == op
  {
    var begun := events + [Invoke(id, op)];
    t := StepsFinish(snapshot, Execute(snapshot, events).value, id, op);
    OneMoreEvent(snapshot, events, Invoke(id, op));
    OneMoreEvent(snapshot, begun, OwnSteps(id, op).0);
    OneMoreEvent(snapshot, begun + [OwnSteps(id, op).0], OwnSteps(id, op).1);
  }

  /** A running operation is never stuck: one of its own steps is possible. */
  lemma NeverStuck(snapshot: Snapshot, events: seq<Event>, id: nat) returns (e: Event)
    requires Execute(snapshot, events).Some? && id in Execute(snapshot, events).value.running
    ensures e.id == id && Execute(snapshot, events + [e]).Some?
  {
    RunInvariants(snapshot, events);
    var s := Execute(snapshot, events).value;
    e := match s.running[id]
      case Begun => if s.ops[id].Record? then Insert(id) else Load(id)
      case Inserted => SetFlag(id)
      case Loaded(_) => Answer(id);
    OneMoreEvent(snapshot, events, e);
  }

  // ----- What a read can answer -----

  ghost predicate FinishedRead(s: State, r: nat) {
    r in s.ops && s.ops[r].Read? && r in s.results
  }

  lemma {:induction false} LastRecordExists(s: State, log: seq<nat>, key: Key, from: nat, i: nat) returns (j: nat)
    requires from < i <= |log| && Records(s, log[from], key)
    ensures from <= j && LastRecord(s, log, key, j, i)
    decreases i - from
  {
    if k :| from < k < i && Records(s, log[k], key) {
      j := LastRecordExists(s, log, key, k, i);
    } else {
      j := from;
    }
  }

  /** A name that no record was begun for reads as it did when the snapshot was taken, in every run. */
  lemma UntouchedReadsSnapshot(snapshot: Snapshot, events: seq<Event>, r: nat)
    requires Execute(snapshot, events).Some? && FinishedRead(Execute(snapshot, events).value, r)
    requires var s := Execute(snapshot, events).value; forall w :: w in s.ops && s.ops[w].Record? ==> s.ops[w].key != s.ops[r].key
    ensures var s := Execute(snapshot, events).value;
            s.results[r] == if s.ops[r].key in snapshot then Some(snapshot[s.ops[r].key]) else None
  {
    EveryRunLinearizes(snapshot, events);
    var s, log := Execute(snapshot, events).value, HistoryOf(snapshot, events).log;
    var k :| 0 <= k < |log| && log[k] == r;
    assert AnswersLastRecord(snapshot, s, log, k);
  }

  /** Whatever a read answers that is not the snapshot's value was recorded for its name. So a name of the snapshot that
      reads as absent was removed. */
  lemma OtherAnswersWereRecorded(snapshot: Snapshot, events: seq<Event>, r: nat) returns (w: nat)
    requires Execute(snapshot, events).Some? && FinishedRead(Execute(snapshot, events).value, r)
    requires var s := Execute(snapshot, events).value;
             s.results[r] != if s.ops[r].key in snapshot then Some(snapshot[s.ops[r].key]) else None
    ensures var s := Execute(snapshot, events).value; w in s.ops && s.ops[w] == Record(s.ops[r].key, s.results[r])
  {
    EveryRunLinearizes(snapshot, events);
    var s, log := Execute(snapshot, events).value, HistoryOf(snapshot, events).log;
    var k :| 0 <= k < |log| && log[k] == r;
    assert AnswersLastRecord(snapshot, s, log, k);
    var i :| 0 <= i < k && Records(s, log[i], s.ops[r].key);
    var j := LastRecordExists(s, log, s.ops[r].key, i, k);
    w := log[j];
  }

  /** A read that began after a record of its key returned answers with that record or one that follows it in the
      history: never with the snapshot, even when the record is a removal. */
  lemma ReadsAreNeverStale(snapshot: Snapshot, events: seq<Event>, w: nat, r: nat) returns (v: nat)
    requires Execute(snapshot, events).Some? && FinishedRead(Execute(snapshot, events).value, r)
    requires Records(Execute(snapshot, events).value, w, Execute(snapshot, events).value.ops[r].key)
    requires r in FinishedBefore(snapshot, events) && w in FinishedBefore(snapshot, events)[r]
    ensures var s, log := Execute(snapshot, events).value, HistoryOf(snapshot, events).log;
            && Records(s, v, s.ops[r].key) && s.results[r] == s.ops[v].value
            && (exists i, j :: 0 <= i <= j < |log| && log[i] == w && log[j] == v)
  {
    RunInvariants(snapshot, events);
    EveryRunLinearizes(snapshot, events);
    var s, log := Execute(snapshot, events).value, HistoryOf(snapshot, events).log;
    var k :| 0 <= k < |log| && log[k] == r;
    assert w in s.results;
    var i :| 0 <= i < |log| && log[i] == w;
    assert AnswersLastRecord(snapshot, s, log, k);
    var j := LastRecordExists(s, log, s.ops[r].key, i, k);
    v := log[j];
  }
}

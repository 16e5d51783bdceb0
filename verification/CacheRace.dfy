// One directory's cache under concurrent use: readers warm it with a checked
// and re-checked lock, and a rename elsewhere invalidates it after writing to
// the index. Each step is one critical section or one index access.
module CacheRace {
  import opened Options
  import DirCache

  const TTL := DirCache.QUERY_CACHE_TTL

  /** What an operation got from the cache: the index version behind a listing
      or a lookup, a lookup that found no name index, or a failed query. */
  datatype Outcome = Listed(version: nat) | Looked(version: nat) | NoNames | Failed

  /** Where a Readdir or Lookup is. */
  datatype Phase =
    | Started
    | WantsLock
    | Locked
    | Querying
    | Queried(version: nat)
    | Warm
    | Done(outcome: Outcome)

  /** floor is the index version at the last invalidation before the operation began;
      seen counts the invalidations up to the moment it found the cache warm. */
  datatype Op = Op(phase: Phase, floor: nat, seen: nat)

  datatype State = State(
    now: int,
    version: nat,            // index writes so far
    named: bool,             // byName != nil
    builtFrom: nat,          // index version the entries were queried from
    expiry: int,
    holder: Option<nat>,     // who holds the write lock
    ops: map<nat, Op>,
    // history
    floor: nat,              // index version at the last invalidation
    invalidations: nat,
    lastFill: int)

  const Init := State(0, 0, false, 0, 0, None, map[], 0, 0, 0)

  datatype Step =
    | Tick(d: nat)
    | WriteIndex
    | Invalidate
    | Begin(id: nat)
    | FastCheck(id: nat)
    | Lock(id: nat)
    | Recheck(id: nat)
    | Query(id: nat)
    | FailQuery(id: nat)
    | Fill(id: nat)
    | ReadEntries(id: nat)
    | ReadName(id: nat)

  predicate IsFresh(s: State) {
    s.named && s.now < s.expiry
  }

  predicate At(s: State, id: nat, p: Phase) {
    id in s.ops && s.ops[id].phase == p
  }

  predicate Enabled(s: State, step: Step) {
    match step
    case Tick(_) => true
    case WriteIndex => true
    case Invalidate => s.holder.None?
    case Begin(id) => id !in s.ops
    case FastCheck(id) => At(s, id, Started) && s.holder.None?
    case Lock(id) => At(s, id, WantsLock) && s.holder.None?
    case Recheck(id) => At(s, id, Locked)
    case Query(id) => At(s, id, Querying)
    case FailQuery(id) => At(s, id, Querying)
    case Fill(id) => id in s.ops && s.ops[id].phase.Queried?
    case ReadEntries(id) => At(s, id, Warm) && s.holder.None?
    case ReadName(id) => At(s, id, Warm) && s.holder.None?
  }

  function Move(s: State, id: nat, p: Phase): State
    requires id in s.ops
  {
    s.(ops := s.ops[id := s.ops[id].(phase := p)])
  }

  function Warmed(s: State, id: nat): State
    requires id in s.ops
  {
    s.(ops := s.ops[id := s.ops[id].(phase := Warm, seen := s.invalidations)])
  }

  function Next(s: State, step: Step): State
    requires Enabled(s, step)
  {
    match step
    case Tick(d) => s.(now := s.now + d)
    case WriteIndex => s.(version := s.version + 1)
    case Invalidate => s.(named := false, floor := s.version, invalidations := s.invalidations + 1)
    case Begin(id) => s.(ops := s.ops[id := Op(Started, s.floor, 0)])
    case FastCheck(id) => if IsFresh(s) then Warmed(s, id) else Move(s, id, WantsLock)
    case Lock(id) => Move(s, id, Locked).(holder := Some(id))
    case Recheck(id) => if IsFresh(s) then Warmed(s, id).(holder := None) else Move(s, id, Querying)
    case Query(id) => Move(s, id, Queried(s.version))
    case FailQuery(id) => Move(s, id, Done(Failed)).(holder := None)
    case Fill(id) =>
      Warmed(s, id).(named := true, builtFrom := s.ops[id].phase.version, expiry := s.now + TTL,
                     lastFill := s.now, holder := None)
    case ReadEntries(id) => Move(s, id, Done(Listed(s.builtFrom)))
    case ReadName(id) => Move(s, id, Done(if s.named then Looked(s.builtFrom) else NoNames))
  }

  predicate Legal(s: State, steps: seq<Step>)
    decreases |steps|
  {
    steps == [] || (Enabled(s, steps[0]) && Legal(Next(s, steps[0]), steps[1..]))
  }

  function Run(s: State, steps: seq<Step>): State
    requires Legal(s, steps)
    decreases |steps|
  {
    if steps == [] then s else Run(Next(s, steps[0]), steps[1..])
  }

  predicate Holding(p: Phase) {
    p.Locked? || p.Querying? || p.Queried?
  }

  /** What one operation may rely on. */
  predicate OpFits(s: State, id: nat)
    requires id in s.ops
  {
    var op := s.ops[id];
    && op.floor <= s.floor
    && (Holding(op.phase) <==> s.holder == Some(id))
    && (op.phase.Querying? ==> !IsFresh(s))
    && (op.phase.Queried? ==> !IsFresh(s) && s.floor <= op.phase.version <= s.version
                              && s.builtFrom <= op.phase.version)
    && (op.phase.Warm? ==> op.floor <= s.builtFrom && op.seen <= s.invalidations
                           && (op.seen == s.invalidations ==> s.named))
    && (op.phase.Done? && op.phase.outcome.Listed? ==> op.floor <= op.phase.outcome.version)
    && (op.phase.Done? && op.phase.outcome.Looked? ==> op.floor <= op.phase.outcome.version)
    && (op.phase.Done? && op.phase.outcome.NoNames? ==> op.seen < s.invalidations)
  }

  ghost predicate Inv(s: State) {
    && s.floor <= s.version && s.builtFrom <= s.version
    && (s.named ==> s.floor <= s.builtFrom && s.expiry == s.lastFill + TTL)
    && (s.holder.Some? ==> s.holder.value in s.ops)
    && forall id :: id in s.ops ==> OpFits(s, id)
  }

  lemma StepKeepsInv(s: State, step: Step)
    requires Inv(s) && Enabled(s, step)
    ensures Inv(Next(s, step))
  {
    match step
    case Tick(_) => SharedStep(s, step);
    case WriteIndex => SharedStep(s, step);
    case Invalidate => SharedStep(s, step);
    case Begin(_) => SharedStep(s, step);
    case Query(_) => HolderStep(s, step);
    case FailQuery(_) => HolderStep(s, step);
    case Fill(_) => HolderStep(s, step);
    case _ => ReaderStep(s, step);
  }

  lemma SharedStep(s: State, step: Step)
    requires Inv(s) && Enabled(s, step) && (step.Tick? || step.WriteIndex? || step.Invalidate? || step.Begin?)
    ensures Inv(Next(s, step))
  {
    var s' := Next(s, step);
    forall id | id in s'.ops ensures OpFits(s', id) {
      if id in s.ops { assert OpFits(s, id); }
    }
  }

  lemma HolderStep(s: State, step: Step)
    requires Inv(s) && Enabled(s, step) && (step.Query? || step.FailQuery? || step.Fill?)
    ensures Inv(Next(s, step))
  {
    var s' := Next(s, step);
    assert OpFits(s, step.id);
    forall id | id in s'.ops ensures OpFits(s', id) {
      assert OpFits(s, id);
    }
  }

  lemma ReaderStep(s: State, step: Step)
    requires Inv(s) && Enabled(s, step)
    requires step.FastCheck? || step.Lock? || step.Recheck? || step.ReadEntries? || step.ReadName?
    ensures Inv(Next(s, step))
  {
    var s' := Next(s, step);
    assert OpFits(s, step.id);
    forall id | id in s'.ops ensures OpFits(s', id) {
      assert OpFits(s, id);
    }
  }

  lemma {:induction false} RunKeepsInv(s: State, steps: seq<Step>)
    requires Inv(s) && Legal(s, steps)
    ensures Inv(Run(s, steps))
    decreases |steps|
  {
    hide Inv, Next, Enabled;
    if steps != [] {
      StepKeepsInv(s, steps[0]);
      RunKeepsInv(Next(s, steps[0]), steps[1..]);
    }
  }

  lemma {:induction false} RunKeepsFloors(s: State, steps: seq<Step>)
    requires Legal(s, steps) && s.floor <= s.version
    ensures Run(s, steps).floor >= s.floor
    ensures forall id :: id in s.ops ==> id in Run(s, steps).ops && Run(s, steps).ops[id].floor == s.ops[id].floor
    decreases |steps|
  {
    if steps != [] {
      RunKeepsFloors(Next(s, steps[0]), steps[1..]);
    }
  }

  /** A rename writes to the index and then invalidates; whatever happens before,
      between and after, an operation that begins once it has invalidated is
      served from a query made after those writes. The only other answers are a
      failed query, and a lookup that missed because a further invalidation
      overtook it after it had found the cache warm. */
  lemma RenameIsSeen(before: seq<Step>, between: seq<Step>, id: nat, after: seq<Step>)
    requires Legal(Init, before) && Enabled(Run(Init, before), Invalidate)
    requires var s := Next(Run(Init, before), Invalidate);
             && Legal(s, between) && Enabled(Run(s, between), Begin(id))
             && Legal(Next(Run(s, between), Begin(id)), after)
    ensures var written := Run(Init, before).version;
            var last := Run(Next(Run(Next(Run(Init, before), Invalidate), between), Begin(id)), after);
            && id in last.ops
            && (last.ops[id].phase.Done? ==>
                  match last.ops[id].phase.outcome
                  case Listed(v) => v >= written
                  case Looked(v) => v >= written
                  case NoNames => last.ops[id].seen < last.invalidations
                  case Failed => true)
  {
    var s1 := Run(Init, before);
    RunKeepsInv(Init, before);
    var s2 := Next(s1, Invalidate);
    StepKeepsInv(s1, Invalidate);
    var s3 := Run(s2, between);
    RunKeepsInv(s2, between);
    RunKeepsFloors(s2, between);
    var s4 := Next(s3, Begin(id));
    StepKeepsInv(s3, Begin(id));
    RunKeepsInv(s4, after);
    RunKeepsFloors(s4, after);
    assert OpFits(Run(s4, after), id);
  }

  /** Two fills with no invalidation between them are at least thirty seconds apart. */
  lemma FillsAreApart(steps: seq<Step>, id: nat)
    requires Legal(Init, steps) && Enabled(Run(Init, steps), Fill(id))
    ensures var s := Run(Init, steps);
            s.named ==> s.now >= s.lastFill + 30
  {
    RunKeepsInv(Init, steps);
    assert OpFits(Run(Init, steps), id);
  }

  /** In every run a check finds the cache warm exactly if it has been filled since the
      last invalidation and less than thirty seconds ago. */
  lemma WarmForThirtySeconds(steps: seq<Step>, id: nat)
    requires Legal(Init, steps) && Enabled(Run(Init, steps), FastCheck(id))
    ensures var s := Run(Init, steps);
            Next(s, FastCheck(id)).ops[id].phase.Warm? <==> s.named && s.now < s.lastFill + 30
  {
    RunKeepsInv(Init, steps);
  }

  /** The miss is real: whenever a lookup has found the cache warm, an invalidation
      may slip in before it reads the names, and then it misses whatever is listed;
      without one it does not. */
  lemma WarmLookupCanMiss(s: State, id: nat)
    requires Inv(s) && At(s, id, Warm) && s.holder.None?
    ensures Enabled(s, Invalidate) && Enabled(Next(s, Invalidate), ReadName(id))
    ensures At(Next(Next(s, Invalidate), ReadName(id)), id, Done(NoNames))
    ensures At(Next(s, ReadName(id)), id, Done(NoNames)) ==> s.ops[id].seen < s.invalidations
  {
    assert OpFits(s, id);
  }

  lemma RunFirst(s: State, step: Step, rest: seq<Step>)
    requires Enabled(s, step) && Legal(Next(s, step), rest)
    ensures Legal(s, [step] + rest) && Run(s, [step] + rest) == Run(Next(s, step), rest)
  {
    hide Next, Enabled;
    assert ([step] + rest)[1..] == rest;
  }

  /** And it happens from the start: a lookup fills the cache, is overtaken by an
      invalidation, and misses. */
  lemma FirstLookupCanMiss()
    ensures var steps := [Begin(0), FastCheck(0), Lock(0), Recheck(0), Query(0), Fill(0), Invalidate, ReadName(0)];
            Legal(Init, steps) && At(Run(Init, steps), 0, Done(NoNames))
  {
    var s1 := Next(Init, Begin(0));
    var s2 := Next(s1, FastCheck(0));
    var s3 := Next(s2, Lock(0));
    var s4 := Next(s3, Recheck(0));
    var s5 := Next(s4, Query(0));
    var s6 := Next(s5, Fill(0));
    var s7 := Next(s6, Invalidate);
    assert At(Next(s7, ReadName(0)), 0, Done(NoNames));
    hide Next, Enabled;
    RunFirst(s7, ReadName(0), []);
    RunFirst(s6, Invalidate, [ReadName(0)]);
    RunFirst(s5, Fill(0), [Invalidate, ReadName(0)]);
    RunFirst(s4, Query(0), [Fill(0), Invalidate, ReadName(0)]);
    RunFirst(s3, Recheck(0), [Query(0), Fill(0), Invalidate, ReadName(0)]);
    RunFirst(s2, Lock(0), [Recheck(0), Query(0), Fill(0), Invalidate, ReadName(0)]);
    RunFirst(s1, FastCheck(0), [Lock(0), Recheck(0), Query(0), Fill(0), Invalidate, ReadName(0)]);
    RunFirst(Init, Begin(0), [FastCheck(0), Lock(0), Recheck(0), Query(0), Fill(0), Invalidate, ReadName(0)]);
    assert [ReadName(0)] + [] == [ReadName(0)];
  }
}

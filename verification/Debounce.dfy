// The watcher's debouncer: a burst of events for a path becomes one emission after
// a quiet period. Events arrive, timers expire, their callbacks claim the pending
// entry under the lock, and send outside it; all of these interleave freely.
module Debounce {

  const DEBOUNCE_DELAY := 200
  const OUT_CHAN_BUF := 512

  datatype Kind = Create | Modify | Delete | Rename

  datatype Event = Event(path: string, kind: Kind)

  /** What became of an entry: its timer runs, its timer was stopped in time, its
      callback waits for the lock, found itself superseded, claimed the entry, and
      delivered or dropped the event. A claim remembers when it was made and how
      many events had arrived. */
  datatype Phase =
    | Armed
    | Stopped
    | Firing
    | Superseded
    | Claimed(at: int, seen: nat)
    | Sent(seen: nat)
    | Dropped(seen: nat)

  /** Entry i was made for the i-th event. */
  datatype State = State(
    now: int,
    inputs: seq<Event>,
    armedAt: seq<int>,
    phases: seq<Phase>,
    pending: map<string, nat>,
    sent: seq<nat>,
    taken: nat)

  const Init := State(0, [], [], [], map[], [], 0)

  datatype Step =
    | Tick(d: nat)
    | Arrive(ev: Event)
    | Expire(i: nat)
    | Claim(i: nat)
    | Send(i: nat)
    | Consume

  predicate Fits(s: State) {
    |s.armedAt| == |s.inputs| == |s.phases|
  }

  predicate Enabled(s: State, step: Step) {
    Fits(s) &&
    match step
    case Tick(_) => true
    case Arrive(_) => forall p :: p in s.pending ==> s.pending[p] < |s.phases|
    case Expire(i) => i < |s.phases| && s.phases[i].Armed? && s.now >= s.armedAt[i] + DEBOUNCE_DELAY
    case Claim(i) => i < |s.phases| && s.phases[i].Firing?
    case Send(i) => i < |s.phases| && s.phases[i].Claimed?
    case Consume => s.taken < |s.sent|
  }

  predicate Current(s: State, i: nat)
    requires i < |s.inputs|
  {
    s.inputs[i].path in s.pending && s.pending[s.inputs[i].path] == i
  }

  /** timer.Stop on the entry that the path has, if any: too late once it is firing. */
  function StopPending(s: State, path: string): seq<Phase>
    requires forall p :: p in s.pending ==> s.pending[p] < |s.phases|
  {
    if path in s.pending && s.phases[s.pending[path]].Armed?
    then s.phases[s.pending[path] := Stopped]
    else s.phases
  }

  predicate Full(s: State) {
    |s.sent| - s.taken >= OUT_CHAN_BUF
  }

  function Next(s: State, step: Step): State
    requires Enabled(s, step)
  {
    match step
    case Tick(d) => s.(now := s.now + d)
    case Arrive(ev) =>
      s.(inputs := s.inputs + [ev], armedAt := s.armedAt + [s.now],
         phases := StopPending(s, ev.path) + [Armed],
         pending := s.pending[ev.path := |s.inputs|])
    case Expire(i) => s.(phases := s.phases[i := Firing])
    case Claim(i) =>
      if Current(s, i)
      then s.(phases := s.phases[i := Claimed(s.now, |s.inputs|)], pending := s.pending - {s.inputs[i].path})
      else s.(phases := s.phases[i := Superseded])
    case Send(i) =>
      if Full(s) then s.(phases := s.phases[i := Dropped(s.phases[i].seen)])
      else s.(phases := s.phases[i := Sent(s.phases[i].seen)], sent := s.sent + [i])
    case Consume => s.(taken := s.taken + 1)
  }

  predicate Legal(s: State, steps: seq<Step>)
    decreases |steps|
  {
    steps == [] || (Enabled(s, steps[0]) && Legal(Next(s, steps[0]), steps[1..]))
  }

  function Run(s: State, steps: seq<Step>): State
    requires Legal(s, steps)
    decreases |steps|
  {
    if steps == [] then s else Run(Next(s, steps[0]), steps[1..])
  }

  // ----- What every run keeps -----

  /** No event for entry i's path arrived after it and before the n-th. */
  ghost predicate LatestAmong(inputs: seq<Event>, i: nat, n: nat) {
    i < n <= |inputs| && forall j :: i < j < n ==> inputs[j].path != inputs[i].path
  }

  /** One entry: it is pending exactly while it is the latest of its path and not yet
      claimed; what was stopped or ignored had a successor; what was claimed had none
      at the time, and whatever came for the path later came after the claim. */
  ghost predicate EntryFits(s: State, i: nat)
    requires Fits(s) && i < |s.inputs|
  {
    match s.phases[i]
    case Armed => Current(s, i)
    case Firing =>
      s.armedAt[i] + DEBOUNCE_DELAY <= s.now && (LatestAmong(s.inputs, i, |s.inputs|) <==> Current(s, i))
    case Stopped => !LatestAmong(s.inputs, i, |s.inputs|) && !Current(s, i)
    case Superseded => !LatestAmong(s.inputs, i, |s.inputs|) && !Current(s, i)
    case Claimed(at, seen) =>
      && LatestAmong(s.inputs, i, seen) && s.armedAt[i] + DEBOUNCE_DELAY <= at <= s.now && !Current(s, i)
      && forall j :: i < j < |s.inputs| && s.inputs[j].path == s.inputs[i].path ==> at <= s.armedAt[j]
    case Sent(seen) => LatestAmong(s.inputs, i, seen) && !Current(s, i) && i in s.sent
    case Dropped(seen) => LatestAmong(s.inputs, i, seen) && !Current(s, i)
  }

  ghost predicate PathFits(s: State, path: string)
    requires path in s.pending
  {
    var i := s.pending[path];
    LatestAmong(s.inputs, i, |s.inputs|) && s.inputs[i].path == path
  }

  ghost predicate OutputFits(s: State) {
    && s.taken <= |s.sent|
    && (forall k :: 0 <= k < |s.sent| ==> s.sent[k] < |s.phases| && s.phases[s.sent[k]].Sent?)
    && forall k, l :: 0 <= k < l < |s.sent| ==> s.sent[k] != s.sent[l]
  }

  ghost predicate Inv(s: State) {
    && Fits(s) && OutputFits(s)
    && (forall i :: 0 <= i < |s.inputs| ==> s.armedAt[i] <= s.now)
    && (forall i :: 0 <= i < |s.inputs| ==> EntryFits(s, i))
    && forall p :: p in s.pending ==> PathFits(s, p)
  }

  lemma StepKeepsInv(s: State, step: Step)
    requires Inv(s) && Enabled(s, step)
    ensures Inv(Next(s, step))
  {
    match step
    case Arrive(ev) => ArriveKeepsInv(s, ev);
    case Claim(i) => ClaimKeepsInv(s, i);
    case Send(i) => SendKeepsInv(s, i);
    case _ =>
      hide OutputFits;
      var s' := Next(s, step);
      assert OutputFits(s') by { TimerKeepsOutput(s, step); }
      forall i | 0 <= i < |s'.inputs| ensures EntryFits(s', i) {
        assert EntryFits(s, i);
      }
      forall p | p in s'.pending ensures PathFits(s', p) {
        assert PathFits(s, p);
      }
  }

  lemma TimerKeepsOutput(s: State, step: Step)
    requires OutputFits(s) && Enabled(s, step) && !step.Send? && !step.Arrive?
    ensures OutputFits(Next(s, step))
  {
  }

  lemma SendKeepsInv(s: State, i: nat)
    requires Inv(s) && Enabled(s, Send(i))
    ensures Inv(Next(s, Send(i)))
  {
    hide OutputFits;
    var s' := Next(s, Send(i));
    assert s'.inputs == s.inputs && s'.pending == s.pending;
    SendKeepsOutput(s, i);
    forall k | 0 <= k < |s'.inputs| ensures EntryFits(s', k) {
      assert EntryFits(s, k);
    }
    forall p | p in s'.pending ensures PathFits(s', p) {
      assert PathFits(s, p);
    }
  }

  lemma SendKeepsOutput(s: State, i: nat)
    requires OutputFits(s) && Enabled(s, Send(i))
    ensures OutputFits(Next(s, Send(i)))
  {
  }

  lemma ArriveKeepsInv(s: State, ev: Event)
    requires Inv(s) && Enabled(s, Arrive(ev))
    ensures Inv(Next(s, Arrive(ev)))
  {
    hide EntryFits, OutputFits;
    var n, s' := |s.inputs|, Next(s, Arrive(ev));
    ArriveKeepsOutput(s, ev);
    forall i | 0 <= i < |s'.inputs| ensures EntryFits(s', i) {
      if i < n {
        ArriveKeepsEntry(s, ev, i);
      } else {
        NewEntryFits(s, ev);
      }
    }
    forall p | p in s'.pending ensures PathFits(s', p) {
      if p != ev.path { assert PathFits(s, p); }
    }
  }

  lemma ArriveKeepsOutput(s: State, ev: Event)
    requires OutputFits(s) && Fits(s) && Enabled(s, Arrive(ev))
    ensures OutputFits(Next(s, Arrive(ev)))
  {
  }

  lemma NewEntryFits(s: State, ev: Event)
    requires Fits(s) && Enabled(s, Arrive(ev))
    ensures EntryFits(Next(s, Arrive(ev)), |s.inputs|)
  {
  }

  lemma ArriveKeepsEntry(s: State, ev: Event, i: nat)
    requires Inv(s) && Enabled(s, Arrive(ev)) && i < |s.inputs|
    ensures EntryFits(Next(s, Arrive(ev)), i)
  {
    hide OutputFits;
    var n, s' := |s.inputs|, Next(s, Arrive(ev));
    assert EntryFits(s, i);
    if ev.path in s.pending { assert PathFits(s, ev.path); }
    assert s'.inputs[n] == ev && s'.inputs[i] == s.inputs[i];
    assert forall j :: 0 <= j < n ==> s'.inputs[j] == s.inputs[j];
    assert LatestAmong(s'.inputs, i, n + 1) <==> LatestAmong(s.inputs, i, n) && s.inputs[i].path != ev.path;
    assert Current(s', i) <==> Current(s, i) && s.inputs[i].path != ev.path;
    assert forall seen :: LatestAmong(s.inputs, i, seen) ==> LatestAmong(s'.inputs, i, seen);
  }

  lemma ClaimKeepsInv(s: State, i: nat)
    requires Inv(s) && Enabled(s, Claim(i))
    ensures Inv(Next(s, Claim(i)))
  {
    hide EntryFits, OutputFits;
    var s' := Next(s, Claim(i));
    assert s'.inputs == s.inputs;
    TimerKeepsOutput(s, Claim(i));
    forall k | 0 <= k < |s'.inputs| ensures EntryFits(s', k) {
      ClaimKeepsEntry(s, i, k);
    }
    forall p | p in s'.pending ensures PathFits(s', p) {
      assert PathFits(s, p);
    }
  }

  lemma ClaimKeepsEntry(s: State, i: nat, k: nat)
    requires Inv(s) && Enabled(s, Claim(i)) && k < |s.inputs|
    ensures EntryFits(Next(s, Claim(i)), k)
  {
    hide OutputFits;
    var s' := Next(s, Claim(i));
    assert s'.inputs == s.inputs;
    assert EntryFits(s, i) && EntryFits(s, k);
    if !Current(s, i) {
      assert s'.pending == s.pending;
    } else if k != i && s.inputs[k].path == s.inputs[i].path {
      assert PathFits(s, s.inputs[i].path);
      assert !LatestAmong(s.inputs, k, |s.inputs|);
    }
  }

  lemma {:induction false} RunKeepsInv(s: State, steps: seq<Step>)
    requires Inv(s) && Legal(s, steps)
    ensures Inv(Run(s, steps))
    decreases |steps|
  {
    hide Inv, Next, Enabled;
    if steps != [] {
      StepKeepsInv(s, steps[0]);
      RunKeepsInv(Next(s, steps[0]), steps[1..]);
    }
  }

  // ----- What becomes of an event -----

  /** In every run each event is emitted at most once; only if no later event for its
      path had arrived when it was claimed; and each path has at most one pending
      entry, that of its latest event. */
  lemma EmittedOnceAndNeverSuperseded(steps: seq<Step>)
    requires Legal(Init, steps)
    ensures var s := Run(Init, steps);
            && (forall k, l :: 0 <= k < l < |s.sent| ==> s.sent[k] != s.sent[l])
            && (forall k :: 0 <= k < |s.sent| ==>
                  && s.sent[k] < |s.phases| == |s.inputs|
                  && s.phases[s.sent[k]].Sent?
                  && LatestAmong(s.inputs, s.sent[k], s.phases[s.sent[k]].seen))
            && (forall p :: p in s.pending ==>
                  LatestAmong(s.inputs, s.pending[p], |s.inputs|) && s.inputs[s.pending[p]].path == p)
  {
    var s := Run(Init, steps);
    RunKeepsInv(Init, steps);
    forall k | 0 <= k < |s.sent| ensures EntryFits(s, s.sent[k]) {
    }
    forall p | p in s.pending ensures PathFits(s, p) {
    }
  }

  /** In every run a callback claims its event exactly if none newer has come for the
      path, and never before 200 milliseconds have passed since the event. */
  lemma ClaimIsQuiet(steps: seq<Step>, i: nat)
    requires Legal(Init, steps) && Enabled(Run(Init, steps), Claim(i))
    ensures var s := Run(Init, steps);
            && i < |s.inputs| == |s.armedAt| && s.now >= s.armedAt[i] + 200
            && (Next(s, Claim(i)).phases[i].Claimed? <==>
                  forall j :: i < j < |s.inputs| ==> s.inputs[j].path != s.inputs[i].path)
  {
    RunKeepsInv(Init, steps);
    assert EntryFits(Run(Init, steps), i);
  }

  /** A claimed event is sent unless 512 events wait to be read; then it is dropped. */
  lemma SendOrDrop(s: State, i: nat)
    requires Enabled(s, Send(i))
    ensures var s' := Next(s, Send(i));
            if |s.sent| - s.taken < 512 then s'.sent == s.sent + [i] && s'.phases[i].Sent?
            else s'.sent == s.sent && s'.phases[i].Dropped?
  {
  }

  /** No more than that ever wait. */
  lemma {:induction false} ChannelIsBounded(s: State, steps: seq<Step>)
    requires Legal(s, steps) && 0 <= |s.sent| - s.taken <= 512
    ensures 0 <= |Run(s, steps).sent| - Run(s, steps).taken <= 512
    decreases |steps|
  {
    if steps != [] {
      ChannelIsBounded(Next(s, steps[0]), steps[1..]);
    }
  }

  /** Succeeded by a later event before it was claimed. */
  ghost predicate Passed(s: State, i: nat) {
    && i < |s.inputs| == |s.phases| && !LatestAmong(s.inputs, i, |s.inputs|)
    && (s.phases[i].Stopped? || s.phases[i].Superseded? || s.phases[i].Firing?)
  }

  lemma StepKeepsPassed(s: State, i: nat, step: Step)
    requires Inv(s) && Enabled(s, step) && Passed(s, i)
    ensures Passed(Next(s, step), i)
  {
    assert EntryFits(s, i);
    var s' := Next(s, step);
    assert forall j :: 0 <= j < |s.inputs| ==> s'.inputs[j] == s.inputs[j];
  }

  lemma {:induction false} PassedStaysSilent(s: State, i: nat, steps: seq<Step>)
    requires Inv(s) && Passed(s, i) && Legal(s, steps)
    ensures i !in Run(s, steps).sent
    decreases |steps|
  {
    if steps == [] {
      assert OutputFits(s);
    } else {
      StepKeepsInv(s, steps[0]);
      StepKeepsPassed(s, i, steps[0]);
      PassedStaysSilent(Next(s, steps[0]), i, steps[1..]);
    }
  }

  /** An event that is still pending when a newer one arrives for its path is never
      emitted, even if its timer has already expired. */
  lemma SupersededIsSilent(steps: seq<Step>, ev: Event, after: seq<Step>)
    requires Legal(Init, steps) && Enabled(Run(Init, steps), Arrive(ev))
    requires ev.path in Run(Init, steps).pending
    requires Legal(Next(Run(Init, steps), Arrive(ev)), after)
    ensures Run(Init, steps).pending[ev.path] !in Run(Next(Run(Init, steps), Arrive(ev)), after).sent
  {
    var s := Run(Init, steps);
    RunKeepsInv(Init, steps);
    PathFitsHere(s, ev.path);
    var i, s' := s.pending[ev.path], Next(s, Arrive(ev));
    StepKeepsInv(s, Arrive(ev));
    assert s'.inputs[|s.inputs|] == ev && s'.inputs[i] == s.inputs[i];
    assert EntryFits(s, i);
    PassedStaysSilent(s', i, after);
  }

  lemma PathFitsHere(s: State, path: string)
    requires Inv(s) && path in s.pending
    ensures PathFits(s, path)
  {
  }

  // ----- Order of emission -----

  /** Two callbacks of one path that have both claimed and not yet sent. */
  ghost predicate InFlightTogether(s: State, i: nat, j: nat) {
    && i < j < |s.phases| == |s.inputs| && s.inputs[i].path == s.inputs[j].path
    && s.phases[i].Claimed? && s.phases[j].Claimed?
  }

  ghost predicate NeverTogether(s: State, steps: seq<Step>)
    requires Legal(s, steps)
    decreases |steps|
  {
    && (forall i, j :: !InFlightTogether(s, i, j))
    && (steps == [] || NeverTogether(Next(s, steps[0]), steps[1..]))
  }

  /** Emissions for one path come in the order of its events. */
  ghost predicate InOrder(s: State) {
    forall k, l | 0 <= k < l < |s.sent| && s.sent[k] < |s.inputs| && s.sent[l] < |s.inputs| ::
      s.inputs[s.sent[k]].path == s.inputs[s.sent[l]].path ==> s.sent[k] < s.sent[l]
  }

  /** Nothing later was claimed for a path while an earlier claim is unsent. */
  ghost predicate Alone(s: State) {
    |s.phases| == |s.inputs| &&
    forall i, j :: 0 <= i < j < |s.phases| && s.phases[i].Claimed? && s.inputs[i].path == s.inputs[j].path ==>
      !s.phases[j].Claimed? && !s.phases[j].Sent?
  }

  lemma StepKeepsOrder(s: State, step: Step)
    requires Inv(s) && Enabled(s, step) && Alone(s) && InOrder(s)
    requires forall i, j :: !InFlightTogether(Next(s, step), i, j)
    ensures Alone(Next(s, step)) && InOrder(Next(s, step))
  {
    StepKeepsAlone(s, step);
    if step.Send? {
      SendKeepsOrder(s, step.i);
    } else {
      QuietKeepsOrder(s, step);
    }
  }

  lemma StepKeepsAlone(s: State, step: Step)
    requires Inv(s) && Enabled(s, step) && Alone(s)
    requires forall i, j :: !InFlightTogether(Next(s, step), i, j)
    ensures Alone(Next(s, step))
  {
    var s' := Next(s, step);
    hide EntryFits, PathFits, OutputFits;
    assert forall i :: 0 <= i < |s.inputs| ==> s'.inputs[i] == s.inputs[i];
    forall i, j | 0 <= i < j < |s'.phases| && s'.phases[i].Claimed? && s'.inputs[i].path == s'.inputs[j].path
      ensures !s'.phases[j].Claimed? && !s'.phases[j].Sent?
    {
      assert !InFlightTogether(s', i, j);
    }
  }

  lemma SendKeepsOrder(s: State, i: nat)
    requires OutputFits(s) && Enabled(s, Send(i)) && Alone(s) && InOrder(s)
    ensures InOrder(Next(s, Send(i)))
  {
  }

  lemma QuietKeepsOrder(s: State, step: Step)
    requires OutputFits(s) && Enabled(s, step) && InOrder(s) && !step.Send?
    ensures InOrder(Next(s, step))
  {
    assert Next(s, step).sent == s.sent && s.inputs <= Next(s, step).inputs;
  }

  lemma {:induction false} RunKeepsOrder(s: State, steps: seq<Step>)
    requires Inv(s) && Alone(s) && InOrder(s)
    requires Legal(s, steps) && NeverTogether(s, steps)
    ensures InOrder(Run(s, steps))
    decreases |steps|
  {
    hide Inv, Alone, InOrder, Next, Enabled, InFlightTogether;
    if steps != [] {
      var s' := Next(s, steps[0]);
      assert NeverTogether(s', steps[1..]);
      StepKeepsInv(s, steps[0]);
      StepKeepsOrder(s, steps[0]);
      RunKeepsOrder(s', steps[1..]);
    }
  }

  /** The order of a path's emissions is safe exactly as long as no two of its
      callbacks are in flight at once: a run without such a moment emits in order, ... */
  lemma NeverTogetherIsInOrder(steps: seq<Step>)
    requires Legal(Init, steps) && NeverTogether(Init, steps)
    ensures InOrder(Run(Init, steps))
  {
    RunKeepsOrder(Init, steps);
  }

  /** ... and at any such moment with room for two the later event may come out first,
      so that the older one is its path's last emission. */
  lemma TogetherCanOvertake(s: State, i: nat, j: nat)
    requires Inv(s) && InFlightTogether(s, i, j)
    requires |s.sent| - s.taken + 2 <= OUT_CHAN_BUF
    ensures Legal(s, [Send(j), Send(i)])
    ensures var last := Run(s, [Send(j), Send(i)]);
            && !InOrder(last) && |last.sent| == |s.sent| + 2
            && last.sent[|s.sent| + 1] == i && LastEmission(last, s.inputs[i].path, |s.sent| + 1)
  {
    var s1 := Next(s, Send(j));
    var s2 := Next(s1, Send(i));
    RunFirst(s1, Send(i), []);
    RunFirst(s, Send(j), [Send(i)]);
    assert [Send(i)] + [] == [Send(i)] && [Send(j)] + [Send(i)] == [Send(j), Send(i)];
    var n := |s.sent|;
    assert s2.sent[n] == j && s2.sent[n + 1] == i;
  }

  lemma RunFirst(s: State, step: Step, rest: seq<Step>)
    requires Enabled(s, step) && Legal(Next(s, step), rest)
    ensures Legal(s, [step] + rest) && Run(s, [step] + rest) == Run(Next(s, step), rest)
  {
    hide Next, Enabled;
    assert ([step] + rest)[1..] == rest;
  }

  /** Such a moment is reached when the first callback stays between claim and send
      for a whole quiet period. */
  function SlowStart(first: Event, second: Event): seq<Step> {
    [Arrive(first), Tick(DEBOUNCE_DELAY), Expire(0), Claim(0),
     Arrive(second), Tick(DEBOUNCE_DELAY), Expire(1), Claim(1)]
  }

  lemma SlowStartMeets(first: Event, second: Event)
    requires first.path == second.path
    ensures Legal(Init, SlowStart(first, second))
    ensures var s := Run(Init, SlowStart(first, second));
            && InFlightTogether(s, 0, 1) && s.inputs == [first, second] && |s.phases| == 2 && s.sent == []
  {
    var s1 := Next(Init, Arrive(first));
    var s2 := Next(s1, Tick(DEBOUNCE_DELAY));
    var s3 := Next(s2, Expire(0));
    var s4 := Next(s3, Claim(0));
    assert s4.phases == [Claimed(DEBOUNCE_DELAY, 1)] && s4.pending == map[];
    SlowSecond(s4, first, second);
    var rest := [Arrive(second), Tick(DEBOUNCE_DELAY), Expire(1), Claim(1)];
    hide Next, Enabled;
    RunFirst(s3, Claim(0), rest);
    RunFirst(s2, Expire(0), [Claim(0)] + rest);
    RunFirst(s1, Tick(DEBOUNCE_DELAY), [Expire(0)] + ([Claim(0)] + rest));
    RunFirst(Init, Arrive(first), [Tick(DEBOUNCE_DELAY)] + ([Expire(0)] + ([Claim(0)] + rest)));
    assert SlowStart(first, second)
        == [Arrive(first)] + ([Tick(DEBOUNCE_DELAY)] + ([Expire(0)] + ([Claim(0)] + rest)));
  }

  lemma SlowSecond(s: State, first: Event, second: Event)
    requires s.inputs == [first] && s.phases == [Claimed(DEBOUNCE_DELAY, 1)] && |s.armedAt| == 1
    requires s.pending == map[] && s.sent == [] && first.path == second.path
    ensures var steps := [Arrive(second), Tick(DEBOUNCE_DELAY), Expire(1), Claim(1)];
            Legal(s, steps) &&
            var last := Run(s, steps);
            && InFlightTogether(last, 0, 1) && last.inputs == [first, second]
            && |last.phases| == 2 && last.sent == [] && last.taken == s.taken
  {
    var s1 := Next(s, Arrive(second));
    var s2 := Next(s1, Tick(DEBOUNCE_DELAY));
    var s3 := Next(s2, Expire(1));
    var s4 := Next(s3, Claim(1));
    assert InFlightTogether(s4, 0, 1);
    hide Next, Enabled, InFlightTogether;
    RunFirst(s3, Claim(1), []);
    RunFirst(s2, Expire(1), [Claim(1)]);
    RunFirst(s1, Tick(DEBOUNCE_DELAY), [Expire(1), Claim(1)]);
    RunFirst(s, Arrive(second), [Tick(DEBOUNCE_DELAY), Expire(1), Claim(1)]);
    assert [Claim(1)] + [] == [Claim(1)];
  }

  /** A second callback can only be in flight a whole quiet period after the first claim. */
  lemma TogetherTakesADelay(s: State, i: nat, j: nat)
    requires Inv(s) && InFlightTogether(s, i, j)
    ensures s.phases[i].at + DEBOUNCE_DELAY <= s.now
  {
    assert EntryFits(s, i) && EntryFits(s, j);
  }

  /** Every claim is sent before another quiet period has gone by. */
  ghost predicate Prompt(s: State, steps: seq<Step>)
    requires Legal(s, steps)
    decreases |steps|
  {
    && (forall i :: 0 <= i < |s.phases| && s.phases[i].Claimed? ==> s.now < s.phases[i].at + DEBOUNCE_DELAY)
    && (steps == [] || Prompt(Next(s, steps[0]), steps[1..]))
  }

  lemma {:induction false} PromptIsNeverTogether(s: State, steps: seq<Step>)
    requires Inv(s) && Legal(s, steps) && Prompt(s, steps)
    ensures NeverTogether(s, steps)
    decreases |steps|
  {
    hide Next, Enabled;
    forall i, j | InFlightTogether(s, i, j) ensures false {
      TogetherTakesADelay(s, i, j);
    }
    if steps != [] {
      StepKeepsInv(s, steps[0]);
      PromptIsNeverTogether(Next(s, steps[0]), steps[1..]);
    }
  }

  /** Every timer has run its course and nothing was dropped. */
  ghost predicate Settled(s: State) {
    forall i :: 0 <= i < |s.phases| ==> s.phases[i].Stopped? || s.phases[i].Superseded? || s.phases[i].Sent?
  }

  /** The n-th emission is the last one for its path. */
  ghost predicate LastEmission(s: State, path: string, n: nat) {
    && n < |s.sent| && s.sent[n] < |s.inputs| && s.inputs[s.sent[n]].path == path
    && forall k :: n < k < |s.sent| && s.sent[k] < |s.inputs| ==> s.inputs[s.sent[k]].path != path
  }

  /** Nothing is lost in the end: once a run in which no two callbacks of a path were
      in flight at once has settled, the last emission for each path is its last event. */
  lemma LastEventIsLastEmission(steps: seq<Step>, i: nat)
    requires Legal(Init, steps) && NeverTogether(Init, steps) && Settled(Run(Init, steps))
    requires LatestAmong(Run(Init, steps).inputs, i, |Run(Init, steps).inputs|)
    ensures var s := Run(Init, steps);
            exists n: nat :: LastEmission(s, s.inputs[i].path, n) && s.sent[n] == i
  {
    var s := Run(Init, steps);
    RunKeepsInv(Init, steps);
    NeverTogetherIsInOrder(steps);
    assert EntryFits(s, i);
    assert i in s.sent;
    var n: nat :| n < |s.sent| && s.sent[n] == i;
    assert LastEmission(s, s.inputs[i].path, n);
  }

  /** Prompt sends are enough for that. */
  lemma PromptRunsEndRight(steps: seq<Step>, i: nat)
    requires Legal(Init, steps) && Prompt(Init, steps) && Settled(Run(Init, steps))
    requires LatestAmong(Run(Init, steps).inputs, i, |Run(Init, steps).inputs|)
    ensures var s := Run(Init, steps);
            exists n: nat :: LastEmission(s, s.inputs[i].path, n) && s.sent[n] == i
  {
    PromptIsNeverTogether(Init, steps);
    LastEventIsLastEmission(steps, i);
  }

  /** Without the condition it fails: a settled run that has dropped nothing, whose
      last emission for a path is the older of its two events. */
  lemma OlderEventCanComeLast(first: Event, second: Event) returns (steps: seq<Step>)
    requires first.path == second.path
    ensures Legal(Init, steps)
    ensures var s := Run(Init, steps);
            && Settled(s) && s.inputs == [first, second]
            && LastEmission(s, first.path, 1) && s.sent[1] == 0
  {
    var start, sends := SlowStart(first, second), [Send(1), Send(0)];
    SlowStartMeets(first, second);
    var s := Run(Init, start);
    RunKeepsInv(Init, start);
    assert s.taken <= |s.sent|;
    TogetherCanOvertake(s, 0, 1);
    BothSent(s);
    steps := start + sends;
    RunAppends(Init, start, sends);
  }

  lemma BothSent(s: State)
    requires Inv(s) && InFlightTogether(s, 0, 1) && |s.phases| == 2 && s.sent == []
    ensures Legal(s, [Send(1), Send(0)]) && Settled(Run(s, [Send(1), Send(0)]))
    ensures Run(s, [Send(1), Send(0)]).inputs == s.inputs
  {
    var s1 := Next(s, Send(1));
    var s2 := Next(s1, Send(0));
    RunFirst(s1, Send(0), []);
    RunFirst(s, Send(1), [Send(0)]);
    assert [Send(0)] + [] == [Send(0)];
  }

  lemma {:induction false} RunAppends(s: State, a: seq<Step>, b: seq<Step>)
    requires Legal(s, a) && Legal(Run(s, a), b)
    ensures Legal(s, a + b) && Run(s, a + b) == Run(Run(s, a), b)
    decreases |a|
  {
    hide Next, Enabled;
    if a == [] {
      assert a + b == b;
    } else {
      RunAppends(Next(s, a[0]), a[1..], b);
      RunFirst(s, a[0], a[1..] + b);
      assert a + b == [a[0]] + (a[1..] + b);
    }
  }
}

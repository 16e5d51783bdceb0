// Tag requests run concurrently: the server starts a goroutine for each one and
// no lock spans the three steps that a request takes on a path. This module
// interleaves those steps.
module TagRace {
  import opened TagRelation
  import opened TagIndex

  /** Where a request is on a path: index written, or new tags read back. */
  datatype Task = Written(path: string) | ReadBack(path: string, tags: set<string>)

  datatype State = State(index: Relation, graph: Relation, tasks: map<nat, Task>)

  datatype Step = Write(id: nat, path: string, op: string, names: set<string>) | Read(id: nat) | Publish(id: nat)

  predicate Enabled(s: State, step: Step) {
    match step
    case Write(id, _, _, _) => id !in s.tasks
    case Read(id) => id in s.tasks && s.tasks[id].Written?
    case Publish(id) => id in s.tasks && s.tasks[id].ReadBack?
  }

  function Apply(s: State, step: Step): State
    requires Enabled(s, step)
  {
    match step
    case Write(id, path, op, names) =>
      State(WithTags(s.index, path, AfterOperation(op, TagsOf(s.index, path), names)),
            s.graph, s.tasks[id := Written(path)])
    case Read(id) =>
      var path := s.tasks[id].path;
      s.(tasks := s.tasks[id := ReadBack(path, TagsOf(s.index, path))])
    case Publish(id) =>
      var t := s.tasks[id];
      s.(graph := WithTags(s.graph, t.path, t.tags), tasks := s.tasks - {id})
  }

  predicate Busy(s: State, path: string) {
    exists id :: id in s.tasks && s.tasks[id].path == path
  }

  /** No request starts on a path while another one is still at work on it. */
  ghost predicate Serial(s: State, steps: seq<Step>)
    decreases |steps|
  {
    steps == [] ||
    (&& Enabled(s, steps[0])
     && (steps[0].Write? ==> !Busy(s, steps[0].path))
     && Serial(Apply(s, steps[0]), steps[1..]))
  }

  ghost function Run(s: State, steps: seq<Step>): State
    requires Serial(s, steps)
    decreases |steps|
  {
    if steps == [] then s else Run(Apply(s, steps[0]), steps[1..])
  }

  ghost predicate Inv(s: State) {
    && NoEmptySets(s.index) && NoEmptySets(s.graph)
    && (forall i, j :: i in s.tasks && j in s.tasks && s.tasks[i].path == s.tasks[j].path ==> i == j)
    && (forall i :: i in s.tasks && s.tasks[i].ReadBack? ==> s.tasks[i].tags == TagsOf(s.index, s.tasks[i].path))
    && (forall p :: Busy(s, p) || TagsOf(s.graph, p) == TagsOf(s.index, p))
  }

  lemma StepKeepsInv(s: State, step: Step)
    requires Inv(s) && Enabled(s, step) && (step.Write? ==> !Busy(s, step.path))
    ensures Inv(Apply(s, step))
  {
    match step
    case Write(_, _, _, _) => WriteKeepsInv(s, step);
    case _ => TaskKeepsInv(s, step);
  }

  lemma WriteKeepsInv(s: State, step: Step)
    requires Inv(s) && Enabled(s, step) && step.Write? && !Busy(s, step.path)
    ensures Inv(Apply(s, step))
  {
    hide AfterOperation;
    var s' := Apply(s, step);
    forall p ensures Busy(s', p) || TagsOf(s'.graph, p) == TagsOf(s'.index, p) {
      assert Busy(s, p) || TagsOf(s.graph, p) == TagsOf(s.index, p);
      if p == step.path {
        assert s'.tasks[step.id].path == p;
      } else if id :| id in s.tasks && s.tasks[id].path == p {
        assert id in s'.tasks && s'.tasks[id].path == p;
      }
    }
  }

  lemma TaskKeepsInv(s: State, step: Step)
    requires Inv(s) && Enabled(s, step) && !step.Write?
    ensures Inv(Apply(s, step))
  {
    hide AfterOperation;
    var s' := Apply(s, step);
    forall p ensures Busy(s', p) || TagsOf(s'.graph, p) == TagsOf(s'.index, p) {
      assert Busy(s, p) || TagsOf(s.graph, p) == TagsOf(s.index, p);
      if id :| id in s.tasks && s.tasks[id].path == p {
        if step != Publish(id) { assert id in s'.tasks && s'.tasks[id].path == p; }
      }
    }
  }

  /** If requests on one path are kept apart, index and graph agree whenever
      nothing is in progress, whatever else is interleaved. */
  lemma {:induction false} SerialRunsAgree(s: State, steps: seq<Step>)
    requires Inv(s) && Serial(s, steps)
    ensures Inv(Run(s, steps))
    ensures Run(s, steps).tasks == map[] ==> Run(s, steps).graph == Run(s, steps).index
    decreases |steps|
  {
    if steps == [] {
      if s.tasks == map[] {
        forall p ensures TagsOf(s.graph, p) == TagsOf(s.index, p) {
          assert !Busy(s, p);
        }
        SameTagsSameRelation(s.graph, s.index);
      }
    } else {
      StepKeepsInv(s, steps[0]);
      SerialRunsAgree(Apply(s, steps[0]), steps[1..]);
    }
  }

  /** Nothing in the code keeps them apart. Whenever a request on a path has read its
      tags back and not yet published them, another one can overtake it; the graph
      then ends with the tags read first, and is stale exactly when the other request
      made a difference to them. */
  lemma OverlapKeepsStaleTags(s: State, id: nat, other: nat, path: string, op: string, names: set<string>)
    requires id in s.tasks && s.tasks[id].ReadBack? && s.tasks[id].path == path && other !in s.tasks
    ensures var s1 := Apply(s, Write(other, path, op, names));
            var s2 := Apply(s1, Read(other));
            var s3 := Apply(s2, Publish(other));
            var s4 := Apply(s3, Publish(id));
            && s4.tasks == s.tasks - {id}
            && TagsOf(s4.graph, path) == s.tasks[id].tags
            && (TagsOf(s4.graph, path) == TagsOf(s4.index, path)
                <==> AfterOperation(op, TagsOf(s.index, path), names) == s.tasks[id].tags)
  {
    hide WithTags, AfterOperation;
    var now := AfterOperation(op, TagsOf(s.index, path), names);
    WithTagsTwice(s.index, path, now, {});
    WithTagsTwice(s.graph, path, now, s.tasks[id].tags);
    WithTagsTwice(WithTags(s.graph, path, now), path, s.tasks[id].tags, {});
  }

  /** Such a moment comes in every request, right after it has read back. */
  lemma EveryRequestCanBeOvertaken(s: State, id: nat, path: string, op: string, names: set<string>)
    requires id !in s.tasks
    ensures var s2 := Apply(Apply(s, Write(id, path, op, names)), Read(id));
            && id in s2.tasks
            && s2.tasks[id] == ReadBack(path, AfterOperation(op, TagsOf(s.index, path), names))
            && TagsOf(s2.index, path) == s2.tasks[id].tags
  {
    WithTagsTwice(s.index, path, AfterOperation(op, TagsOf(s.index, path), names), {});
  }
}

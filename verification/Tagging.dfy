// Tag requests as the daemon serves them: path by path, the file's own attribute is
// changed, then the index, and then the in-memory graph is brought in line.
module Tagging {
  import opened TagRelation
  import opened TagIndex
  import opened TagGraph
  import opened Options
  import opened Csv
  import opened TagFiles

  datatype TagEvent = TagEvent(path: string, added: set<string>, removed: set<string>)

  function Selecting(paths: seq<string>, chosen: set<string>): seq<string> {
    if paths == [] then []
    else Selecting(paths[..|paths| - 1], chosen)
         + if paths[|paths| - 1] in chosen then [paths[|paths| - 1]] else []
  }

  function Rejecting(paths: seq<string>, chosen: set<string>): seq<string> {
    if paths == [] then []
    else Rejecting(paths[..|paths| - 1], chosen)
         + if paths[|paths| - 1] in chosen then [] else [paths[|paths| - 1]]
  }

  /** The relation after an operation on each of the paths in turn. */
  function Applied(r: Relation, op: string, paths: seq<string>, names: set<string>): Relation {
    if paths == [] then r
    else
      var before := Applied(r, op, paths[..|paths| - 1], names);
      var path := paths[|paths| - 1];
      WithTags(before, path, AfterOperation(op, TagsOf(before, path), names))
  }

  /** The events that describe that run: what each change really added and removed. */
  function Events(r: Relation, op: string, paths: seq<string>, names: set<string>): seq<TagEvent> {
    if paths == [] then []
    else
      var n, path := |paths| - 1, paths[|paths| - 1];
      var was, now := TagsOf(Applied(r, op, paths[..n], names), path), TagsOf(Applied(r, op, paths, names), path);
      Events(r, op, paths[..n], names) + if was == now then [] else [TagEvent(path, now - was, was - now)]
  }

  /** The graph stands for the same relation as the index. */
  ghost predicate Coherent(idx: DB, g: Graph)
    reads idx, g
  {
    idx.Valid() && g.Valid() && g.fileAdj == idx.T().Rel()
  }

  /** Start-up: the graph is loaded from the index, and the vectors if they could be listed. */
  method LoadGraphState(
    idx: DB, embs: Option<map<string, seq<real>>>, idf: (nat, nat) -> real, cosine: (seq<real>, seq<real>) -> real)
    returns (g: Graph)
    requires idx.Valid()
    ensures fresh(g) && Coherent(idx, g)
    ensures g.fileEmbeddings == if embs.Some? then embs.value else map[]
  {
    g := new Graph(idf, cosine);
    var pairs := idx.ListFileTagPairs();
    g.Load(pairs);
    if embs.Some? {
      g.LoadEmbeddings(embs.value);
    }
  }

  /** The predicted difference, computed before anything is written. */
  method PredictDiff(oldTags: seq<string>, op: string, names: seq<string>)
    returns (added: set<string>, removed: set<string>)
    requires KnownOperation(op)
    ensures var was := Elems(oldTags);
            var now := AfterOperation(op, was, Elems(names));
            added == now - was && removed == was - now
  {
    var oldSet := set t | t in oldTags;
    var newSet := Updated(op, oldTags, names);
    added, removed := newSet - oldSet, oldSet - newSet;
  }

  lemma AppliedOneMore(r: Relation, op: string, paths: seq<string>, names: set<string>, path: string)
    ensures Applied(r, op, paths + [path], names)
         == WithTags(Applied(r, op, paths, names), path,
                     AfterOperation(op, TagsOf(Applied(r, op, paths, names), path), names))
  {
    assert (paths + [path])[..|paths|] == paths;
  }

  lemma EventsOneMore(r: Relation, op: string, paths: seq<string>, names: set<string>, path: string)
    ensures var was := TagsOf(Applied(r, op, paths, names), path);
            var now := AfterOperation(op, was, names);
            Events(r, op, paths + [path], names)
            == Events(r, op, paths, names) + if was == now then [] else [TagEvent(path, now - was, was - now)]
  {
    AppliedOneMore(r, op, paths, names, path);
    WithTagsTwice(Applied(r, op, paths, names), path,
                  AfterOperation(op, TagsOf(Applied(r, op, paths, names), path), names), {});
    assert (paths + [path])[..|paths|] == paths;
  }

  lemma SelectingOneMore(paths: seq<string>, i: nat, chosen: set<string>)
    requires i < |paths|
    ensures Selecting(paths[..i + 1], chosen)
         == Selecting(paths[..i], chosen) + if paths[i] in chosen then [paths[i]] else []
    ensures Rejecting(paths[..i + 1], chosen)
         == Rejecting(paths[..i], chosen) + if paths[i] in chosen then [] else [paths[i]]
  {
    assert paths[..i + 1][..i] == paths[..i];
  }

  lemma NothingYet(r: Relation, op: string, paths: seq<string>, names: set<string>, chosen: set<string>)
    ensures Applied(r, op, [], names) == r && Events(r, op, [], names) == []
    ensures Selecting(paths[..0], chosen) == [] == Rejecting(paths[..0], chosen)
  {
  }

  /** after is before once the operation has been done on each path's own tags in turn. */
  ghost predicate RanOn(before: Values, after: Values, op: string, paths: seq<string>, names: set<string>)
    decreases |paths|
  {
    if paths == [] then after == before
    else
      exists mid {:trigger Wrote(mid, after, op, paths[|paths| - 1], names)} ::
        && RanOn(before, mid, op, paths[..|paths| - 1], names)
        && Wrote(mid, after, op, paths[|paths| - 1], names)
  }

  lemma NothingRan(values: Values, op: string, names: set<string>)
    ensures RanOn(values, values, op, [], names)
  {
  }

  lemma RanOneMore(
    before: Values, mid: Values, after: Values, op: string, paths: seq<string>, names: set<string>, path: string)
    requires RanOn(before, mid, op, paths, names) && Wrote(mid, after, op, path, names)
    ensures RanOn(before, after, op, paths + [path], names)
  {
    hide Wrote;
    var longer := paths + [path];
    assert longer[..|longer| - 1] == paths && longer[|longer| - 1] == path;
    assert Wrote(mid, after, op, longer[|longer| - 1], names);
  }

  /** A tag request. An invalid operation changes nothing. Otherwise exactly the
      indexed paths are changed, in order; index and graph stay equal; and the
      events sent, if anyone listens, are the changes that took place. */
  method HandleTag(op: string, paths: seq<string>, names: seq<string>, store: Store, idx: DB, g: Graph,
                   listening: bool)
    returns (ok: bool, pathsOK: seq<string>, pathsErr: seq<string>, events: seq<TagEvent>)
    requires Coherent(idx, g)
    modifies store, idx, g
    ensures Coherent(idx, g) && idx.files == old(idx.files)
    ensures ok == (op == "add" || op == "remove" || op == "set")
    ensures forall p :: p in pathsOK <==> ok && p in paths && p in idx.files
    ensures forall p :: p in pathsErr <==> ok && p in paths && p !in idx.files
    ensures forall p :: p !in pathsOK ==> TagsOf(g.fileAdj, p) == TagsOf(old(g.fileAdj), p)
    ensures op == "add" ==>
              forall p :: p in pathsOK ==> TagsOf(g.fileAdj, p) == TagsOf(old(g.fileAdj), p) + Elems(names)
    ensures op == "remove" ==>
              forall p :: p in pathsOK ==> TagsOf(g.fileAdj, p) == TagsOf(old(g.fileAdj), p) - Elems(names)
    ensures op == "set" ==> forall p :: p in pathsOK ==> TagsOf(g.fileAdj, p) == Elems(names)
    ensures !listening ==> events == []
    ensures listening ==> Announced(old(g.fileAdj), g.fileAdj, pathsOK, events)
    ensures pathsOK == (if ok then Selecting(paths, idx.files.Keys) else [])
    ensures pathsErr == (if ok then Rejecting(paths, idx.files.Keys) else [])
    ensures g.fileAdj == Applied(old(g.fileAdj), op, pathsOK, Elems(names))
    ensures events == if listening then Events(old(g.fileAdj), op, pathsOK, Elems(names)) else []
    ensures if ok then RanOn(old(store.values), store.values, op, Selecting(paths, store.writable), Elems(names))
            else store.values == old(store.values)
  {
    hide Coherent, Applied, Events, Selecting, Rejecting, AfterOperation, WithTags, RanOn, Wrote;
    pathsOK, pathsErr, events := [], [], [];
    ok := KnownOperation(op);
    ghost var start, own := g.fileAdj, store.values;
    NothingYet(start, op, paths, Elems(names), idx.files.Keys);
    NothingYet(start, op, paths, Elems(names), store.writable);
    NothingRan(own, op, Elems(names));
    if !ok {
      return;
    }
    for i := 0 to |paths|
      invariant Coherent(idx, g) && idx.files == old(idx.files)
      invariant pathsOK == Selecting(paths[..i], idx.files.Keys)
      invariant pathsErr == Rejecting(paths[..i], idx.files.Keys)
      invariant g.fileAdj == Applied(start, op, pathsOK, Elems(names))
      invariant events == if listening then Events(start, op, pathsOK, Elems(names)) else []
      invariant RanOn(own, store.values, op, Selecting(paths[..i], store.writable), Elems(names))
    {
      var path := paths[i];
      SelectingOneMore(paths, i, idx.files.Keys);
      SelectingOneMore(paths, i, store.writable);
      ghost var before, ran := store.values, Selecting(paths[..i], store.writable);
      var changed, event := TagPath(op, path, names, store, idx, g, listening);
      if path in store.writable {
        RanOneMore(own, before, store.values, op, ran, Elems(names), path);
      } else {
        assert ran + [] == ran;
      }
      if !changed {
        pathsErr := pathsErr + [path];
        continue;
      }
      AppliedOneMore(start, op, pathsOK, Elems(names), path);
      EventsOneMore(start, op, pathsOK, Elems(names), path);
      pathsOK := pathsOK + [path];
      if listening && (event.added != {} || event.removed != {}) {
        events := events + [event];
      }
    }
    assert paths[..|paths|] == paths;
    RequestMeaning(start, op, paths, Elems(names), idx.files.Keys);
  }

  /** There is an event for each path whose tags changed, with what was really added
      and removed; no path has two. */
  ghost predicate Announced(before: Relation, after: Relation, paths: seq<string>, events: seq<TagEvent>) {
    && (forall e :: e in events <==>
          var was, now := TagsOf(before, e.path), TagsOf(after, e.path);
          e.path in paths && was != now && e.added == now - was && e.removed == was - now)
    && forall i, j :: 0 <= i < j < |events| ==> events[i].path != events[j].path
  }

  /** What a request leaves on each path, operation by operation, and what it announces. */
  lemma RequestMeaning(r: Relation, op: string, paths: seq<string>, names: set<string>, indexed: set<string>)
    requires KnownOperation(op)
    ensures var ran := Selecting(paths, indexed);
            var after := Applied(r, op, ran, names);
            && op in ["add", "remove", "set"]
            && (forall p :: p in ran <==> p in paths && p in indexed)
            && (forall p :: p in Rejecting(paths, indexed) <==> p in paths && p !in indexed)
            && (forall p :: p !in ran ==> TagsOf(after, p) == TagsOf(r, p))
            && (op == "add" ==> forall p :: p in ran ==> TagsOf(after, p) == TagsOf(r, p) + names)
            && (op == "remove" ==> forall p :: p in ran ==> TagsOf(after, p) == TagsOf(r, p) - names)
            && (op == "set" ==> forall p :: p in ran ==> TagsOf(after, p) == names)
            && Announced(r, after, ran, Events(r, op, ran, names))
  {
    hide Applied, Selecting, Rejecting, Events, Announced, TagsOf;
    var ran := Selecting(paths, indexed);
    forall p
      ensures p in ran <==> p in paths && p in indexed
      ensures p in Rejecting(paths, indexed) <==> p in paths && p !in indexed
      ensures TagsOf(Applied(r, op, ran, names), p)
           == if p in ran then AfterOperation(op, TagsOf(r, p), names) else TagsOf(r, p)
    {
      SelectedAmong(paths, indexed, p);
      RejectedAmong(paths, indexed, p);
      AppliedMeaning(r, op, ran, names, p);
    }
    EventsAnnounce(r, op, ran, names);
  }

  lemma {:induction false} RejectedAmong(paths: seq<string>, chosen: set<string>, path: string)
    ensures path in Rejecting(paths, chosen) <==> path in paths && path !in chosen
  {
    if paths != [] {
      var n := |paths| - 1;
      RejectedAmong(paths[..n], chosen, path);
      assert paths == paths[..n] + [paths[n]];
    }
  }

  /** Repeating the operation on a path changes nothing, so a path is announced once. */
  lemma {:induction false} EventsAnnounce(r: Relation, op: string, paths: seq<string>, names: set<string>)
    ensures Announced(r, Applied(r, op, paths, names), paths, Events(r, op, paths, names))
  {
    hide Applied, Events, TagsOf, AfterOperation;
    if paths == [] {
      NothingYet(r, op, paths, names, {});
    } else {
      var n := |paths| - 1;
      var front, path := paths[..n], paths[n];
      assert paths == front + [path];
      EventsAnnounce(r, op, front, names);
      EventsOneMore(r, op, front, names, path);
      AppliedMeaning(r, op, front, names, path);
      OperationTwice(op, TagsOf(r, path), names);
      var earlier := Events(r, op, front, names);
      var before, after := Applied(r, op, front, names), Applied(r, op, paths, names);
      forall p
        ensures TagsOf(after, p) == if p == path then AfterOperation(op, TagsOf(r, path), names) else TagsOf(before, p)
      {
        AppliedMeaning(r, op, front, names, p);
        AppliedMeaning(r, op, paths, names, p);
      }
      AnnouncesOneMore(r, before, after, front, path, earlier, Events(r, op, paths, names));
    }
  }

  lemma OperationTwice(op: string, tags: set<string>, names: set<string>)
    ensures AfterOperation(op, AfterOperation(op, tags, names), names) == AfterOperation(op, tags, names)
  {
  }

  lemma AnnouncesOneMore(
    r: Relation, before: Relation, after: Relation, paths: seq<string>, path: string,
    earlier: seq<TagEvent>, events: seq<TagEvent>)
    requires Announced(r, before, paths, earlier)
    requires forall p :: p != path ==> TagsOf(after, p) == TagsOf(before, p)
    requires path in paths ==> TagsOf(after, path) == TagsOf(before, path)
    requires path !in paths ==> TagsOf(before, path) == TagsOf(r, path)
    requires var was, now := TagsOf(before, path), TagsOf(after, path);
             events == earlier + if was == now then [] else [TagEvent(path, now - was, was - now)]
    ensures Announced(r, after, paths + [path], events)
  {
    hide TagsOf;
    var was, now := TagsOf(before, path), TagsOf(after, path);
    var extra := if was == now then [] else [TagEvent(path, now - was, was - now)];
    assert forall e: TagEvent :: e in events <==> e in earlier || e in extra;
    assert forall p :: p in paths + [path] <==> p in paths || p == path;
    assert forall i :: 0 <= i < |earlier| ==> earlier[i] in earlier;
  }

  /** One path of a request. */
  method TagPath(op: string, path: string, names: seq<string>, store: Store, idx: DB, g: Graph, listening: bool)
    returns (changed: bool, event: TagEvent)
    requires Coherent(idx, g) && KnownOperation(op)
    modifies store, idx, g
    ensures Coherent(idx, g) && idx.files == old(idx.files)
    ensures changed == (path in idx.files)
    ensures !changed ==> g.fileAdj == old(g.fileAdj)
    ensures changed ==>
              var was := TagsOf(old(g.fileAdj), path);
              var now := AfterOperation(op, was, Elems(names));
              && g.fileAdj == WithTags(old(g.fileAdj), path, now)
              && (listening ==> event == TagEvent(path, now - was, was - now))
    ensures if path in store.writable then Wrote(old(store.values), store.values, op, path, Elems(names))
            else store.values == old(store.values)
  {
    hide Wrote, WithTags, AfterOperation;
    RelGivesTags(idx.T(), path);
    event := TagEvent(path, {}, {});
    if listening {
      var oldTags := idx.GetFileTags(path);
      var added, removed := PredictDiff(oldTags, op, names);
      event := TagEvent(path, added, removed);
    }
    ghost var before := idx.T().Rel();
    var written := store.ApplyTags(path, names, op);
    var r := idx.ModifyFileTags(path, names, op);
    changed := r == Done;
    if changed {
      var updated := idx.GetFileTags(path);
      RelGivesTags(idx.T(), path);
      g.SetFileTags(path, updated);
      WithTagsTwice(before, path, AfterOperation(op, TagsOf(before, path), Elems(names)), Elems(updated));
    }
  }

  /** A path that is asked for ends up with the operation done on its tags, however
      often and among whatever else it is asked for; any other path is untouched. */
  lemma {:induction false} AppliedMeaning(r: Relation, op: string, paths: seq<string>, names: set<string>, path: string)
    ensures TagsOf(Applied(r, op, paths, names), path)
         == if path in paths then AfterOperation(op, TagsOf(r, path), names) else TagsOf(r, path)
  {
    if paths != [] {
      var n := |paths| - 1;
      AppliedMeaning(r, op, paths[..n], names, path);
      assert paths == paths[..n] + [paths[n]];
    }
  }

  // ----- The files' own tags -----

  /** If every tag a file should end with is safe, its attribute ends with exactly
      these, whatever the order of writing and however often the file is asked for. */
  lemma {:induction false} SafeTagsArrive(
    before: Values, after: Values, op: string, paths: seq<string>, names: set<string>, path: string)
    requires RanOn(before, after, op, paths, names)
    requires forall t :: t in AfterOperation(op, TagsIn(before, path), names) ==> Safe(t)
    ensures TagsIn(after, path)
         == if path in paths then AfterOperation(op, TagsIn(before, path), names) else TagsIn(before, path)
  {
    hide TagsIn, ReadBack, ValueOf, Kept, NonEmpty, Safe;
    if paths != [] {
      var n := |paths| - 1;
      var mid :| RanOn(before, mid, op, paths[..n], names) && Wrote(mid, after, op, paths[n], names);
      SafeTagsArrive(before, mid, op, paths[..n], names, path);
      assert paths == paths[..n] + [paths[n]];
      var merged :| Distinct(merged) && Elems(merged) == AfterOperation(op, TagsIn(mid, paths[n]), names)
                    && after == mid[paths[n] := ValueOf(merged)];
      WrittenIsRead(mid, paths[n], merged);
      if paths[n] == path {
        assert forall i :: 0 <= i < |merged| ==> merged[i] in Elems(merged);
        SafeSurvive(merged);
      }
    }
  }

  /** A tag has been lost, and no longer one can turn into it. */
  ghost predicate Lost(values: Values, path: string, tag: string) {
    tag !in TagsIn(values, path) && SafeBeyond(TagsIn(values, path), tag)
  }

  /** A write that puts the tag last loses it. */
  lemma LosingWrite(before: Values, op: string, path: string, names: set<string>, file: string, tag: string)
    returns (after: Values)
    requires tag != "" && !Safe(tag)
    requires SafeBeyond(AfterOperation(op, TagsIn(before, file), names), tag)
    ensures Wrote(before, after, op, path, names)
    ensures path == file ==> Lost(after, file, tag)
    ensures path != file ==> TagsIn(after, file) == TagsIn(before, file)
  {
    hide ReadBack, ValueOf, Kept, NonEmpty, Safe, TagsIn;
    var merged := OrderedWithLast(AfterOperation(op, TagsIn(before, path), names), tag);
    after := before[path := ValueOf(merged)];
    WrittenIsRead(before, path, merged);
    if path == file {
      LastIsLost(merged, tag);
    }
  }

  /** The operation brings no further unsafe tag as long as this one. */
  lemma OperationStaysSafeBeyond(op: string, was: set<string>, tags: set<string>, names: set<string>, tag: string)
    requires SafeBeyond(AfterOperation(op, was, names), tag) && SafeBeyond(tags, tag)
    ensures SafeBeyond(AfterOperation(op, tags, names), tag)
  {
  }

  /** If one is not, some order of writing loses it for good. */
  lemma {:induction false} LosingRun(
    before: Values, op: string, paths: seq<string>, names: set<string>, path: string, tag: string)
    returns (after: Values)
    requires tag != "" && !Safe(tag) && SafeBeyond(AfterOperation(op, TagsIn(before, path), names), tag)
    ensures RanOn(before, after, op, paths, names)
    ensures if path in paths then Lost(after, path, tag) else TagsIn(after, path) == TagsIn(before, path)
  {
    hide TagsIn, Safe, Wrote, RanOn, AfterOperation, SafeBeyond;
    if paths == [] {
      NothingRan(before, op, names);
      after := before;
    } else {
      var n := |paths| - 1;
      var front, last := paths[..n], paths[n];
      assert paths == front + [last];
      var mid := LosingRun(before, op, front, names, path, tag);
      if path in front {
        OperationStaysSafeBeyond(op, TagsIn(before, path), TagsIn(mid, path), names, tag);
      }
      after := LosingWrite(mid, op, last, names, path, tag);
      RanOneMore(before, mid, after, op, front, names, last);
    }
  }

  /** Where a file's attribute and the graph agree before a request that can change
      both, they agree after it in every order of writing if and only if every tag
      that the file should end with is safe. */
  lemma AttributesFollow(
    own: Values, graph: Relation, op: string, paths: seq<string>, names: seq<string>, path: string,
    writable: set<string>, indexed: set<string>)
    requires TagsIn(own, path) == TagsOf(graph, path) && path in paths && path in writable && path in indexed
    ensures var graph' := Applied(graph, op, Selecting(paths, indexed), Elems(names));
            (forall own' :: RanOn(own, own', op, Selecting(paths, writable), Elems(names)) ==>
               TagsIn(own', path) == TagsOf(graph', path))
            <==> forall t :: t in AfterOperation(op, TagsOf(graph, path), Elems(names)) ==> Safe(t)
  {
    hide Applied, Selecting, AfterOperation, TagsIn, Safe, RanOn;
    var now := AfterOperation(op, TagsOf(graph, path), Elems(names));
    var ran := Selecting(paths, writable);
    AppliedMeaning(graph, op, Selecting(paths, indexed), Elems(names), path);
    SelectedAmong(paths, writable, path);
    SelectedAmong(paths, indexed, path);
    if forall t :: t in now ==> Safe(t) {
      forall own' | RanOn(own, own', op, ran, Elems(names)) ensures TagsIn(own', path) == now {
        SafeTagsArrive(own, own', op, ran, Elems(names), path);
      }
    } else {
      var own' := UnsafeRun(own, op, ran, Elems(names), path);
      assert TagsIn(own', path) != now;
    }
  }

  lemma UnsafeRun(own: Values, op: string, ran: seq<string>, names: set<string>, path: string) returns (own': Values)
    requires path in ran && exists t :: t in AfterOperation(op, TagsIn(own, path), names) && !Safe(t)
    ensures RanOn(own, own', op, ran, names)
    ensures TagsIn(own', path) != AfterOperation(op, TagsIn(own, path), names)
  {
    hide TagsIn, Safe, RanOn;
    var now := AfterOperation(op, TagsIn(own, path), names);
    if "" in now {
      own' := SomeRun(own, op, ran, names);
      NoEmptyTagRead(own', path);
    } else {
      var tag := LongestUnsafe(now);
      own' := LosingRun(own, op, ran, names, path, tag);
    }
  }

  lemma {:induction false} SomeRun(before: Values, op: string, paths: seq<string>, names: set<string>)
    returns (after: Values)
    ensures RanOn(before, after, op, paths, names)
  {
    hide TagsIn;
    if paths == [] {
      after := before;
    } else {
      var n := |paths| - 1;
      var mid := SomeRun(before, op, paths[..n], names);
      var merged := OrderedWithLast(AfterOperation(op, TagsIn(mid, paths[n]), names), "");
      after := mid[paths[n] := ValueOf(merged)];
      assert Wrote(mid, after, op, paths[n], names);
    }
  }

  lemma NoEmptyTagRead(values: Values, path: string)
    ensures "" !in TagsIn(values, path)
  {
    hide ReadFields, TrimSpace, Lines;
    if path in values {
      var record := ReadFields(Lines(TrimSpace(values[path])));
      if record.Some? {
        NonEmptyElems(record.value);
      }
    }
  }

  lemma {:induction false} OthersUntouched(
    before: Values, after: Values, op: string, paths: seq<string>, names: set<string>, path: string)
    requires RanOn(before, after, op, paths, names) && path !in paths
    ensures TagsIn(after, path) == TagsIn(before, path)
  {
    hide ValueOf, Kept, NonEmpty, TagsOfValue;
    if paths != [] {
      var n := |paths| - 1;
      var mid :| RanOn(before, mid, op, paths[..n], names) && Wrote(mid, after, op, paths[n], names);
      OthersUntouched(before, mid, op, paths[..n], names, path);
    }
  }

  /** Where only one of the two can change, they agree afterwards exactly if it did not
      change; the attribute of an unindexed file is written although the answer calls
      the path an error. */
  lemma OneStoreOnly(
    own: Values, own': Values, graph: Relation, op: string, paths: seq<string>, names: seq<string>, path: string,
    writable: set<string>, indexed: set<string>)
    requires TagsIn(own, path) == TagsOf(graph, path) && path in paths && (path in writable) != (path in indexed)
    requires RanOn(own, own', op, Selecting(paths, writable), Elems(names))
    requires path in writable ==> forall t :: t in AfterOperation(op, TagsOf(graph, path), Elems(names)) ==> Safe(t)
    ensures var graph' := Applied(graph, op, Selecting(paths, indexed), Elems(names));
            TagsIn(own', path) == TagsOf(graph', path)
            <==> AfterOperation(op, TagsOf(graph, path), Elems(names)) == TagsOf(graph, path)
  {
    hide Applied, Selecting, AfterOperation, TagsIn, Safe, RanOn;
    AppliedMeaning(graph, op, Selecting(paths, indexed), Elems(names), path);
    SelectedAmong(paths, writable, path);
    SelectedAmong(paths, indexed, path);
    if path in writable {
      SafeTagsArrive(own, own', op, Selecting(paths, writable), Elems(names), path);
    } else {
      OthersUntouched(own, own', op, Selecting(paths, writable), Elems(names), path);
    }
  }

  lemma {:induction false} SelectedAmong(paths: seq<string>, chosen: set<string>, path: string)
    ensures path in Selecting(paths, chosen) <==> path in paths && path in chosen
  {
    if paths != [] {
      var n := |paths| - 1;
      SelectedAmong(paths[..n], chosen, path);
      assert paths == paths[..n] + [paths[n]];
    }
  }

  /** Every requested path is accounted for, once for each time it was asked for. */
  lemma {:induction false} PathsAreAccountedFor(paths: seq<string>, chosen: set<string>)
    ensures multiset(Selecting(paths, chosen)) + multiset(Rejecting(paths, chosen)) == multiset(paths)
    ensures forall p :: p in Selecting(paths, chosen) ==> p in chosen
    ensures forall p :: p in Rejecting(paths, chosen) ==> p !in chosen
  {
    if paths != [] {
      var n := |paths| - 1;
      PathsAreAccountedFor(paths[..n], chosen);
      assert paths == paths[..n] + [paths[n]];
    }
  }

  /** What a listener that keeps its own copy does with the events it receives. */
  function Replay(r: Relation, events: seq<TagEvent>): Relation {
    if events == [] then r
    else
      var before, e := Replay(r, events[..|events| - 1]), events[|events| - 1];
      WithTags(before, e.path, (TagsOf(before, e.path) - e.removed) + e.added)
  }

  /** The i-th event adds only new tags, removes only present ones, and is not empty. */
  ghost predicate Exact(r: Relation, events: seq<TagEvent>, i: nat)
    requires i < |events|
  {
    var was := TagsOf(Replay(r, events[..i]), events[i].path);
    && events[i].added !! was && events[i].removed <= was
    && (events[i].added != {} || events[i].removed != {})
  }

  /** The events tell the whole story: replaying them on the old tags gives the
      new tags, and each of them is exact. */
  lemma {:induction false} EventsReplay(r: Relation, op: string, paths: seq<string>, names: set<string>)
    requires NoEmptySets(r)
    ensures Replay(r, Events(r, op, paths, names)) == Applied(r, op, paths, names)
    ensures NoEmptySets(Applied(r, op, paths, names))
    ensures forall i :: 0 <= i < |Events(r, op, paths, names)| ==> Exact(r, Events(r, op, paths, names), i)
  {
    hide Exact, WithTags, AfterOperation, NoEmptySets, Replay, Applied, Events;
    if paths == [] {
      NothingYet(r, op, paths, names, {});
      NothingToReplay(r);
    } else {
      var front, path := paths[..|paths| - 1], paths[|paths| - 1];
      assert paths == front + [path];
      EventsReplay(r, op, front, names);
      AppliedOneMore(r, op, front, names, path);
      EventsOneMore(r, op, front, names, path);
      var before, earlier := Applied(r, op, front, names), Events(r, op, front, names);
      var was := TagsOf(before, path);
      var now := AfterOperation(op, was, names);
      ChangedOrSame(before, path, now);
      if was != now {
        OneMoreEvent(r, earlier, TagEvent(path, now - was, was - now));
        assert (was - (was - now)) + (now - was) == now;
      } else {
        assert earlier + [] == earlier;
      }
    }
  }

  lemma NothingToReplay(r: Relation)
    ensures Replay(r, []) == r
  {
  }

  lemma OneMoreEvent(r: Relation, earlier: seq<TagEvent>, e: TagEvent)
    requires forall i :: 0 <= i < |earlier| ==> Exact(r, earlier, i)
    requires e.added !! TagsOf(Replay(r, earlier), e.path) && e.removed <= TagsOf(Replay(r, earlier), e.path)
    requires e.added != {} || e.removed != {}
    ensures forall i :: 0 <= i < |earlier + [e]| ==> Exact(r, earlier + [e], i)
    ensures Replay(r, earlier + [e])
         == WithTags(Replay(r, earlier), e.path, (TagsOf(Replay(r, earlier), e.path) - e.removed) + e.added)
  {
    hide WithTags, Exact;
    var events := earlier + [e];
    assert events[..|earlier|] == earlier;
    forall i | 0 <= i < |events| ensures Exact(r, events, i) {
      if i < |earlier| {
        ExactEarlier(r, earlier, e, i);
      } else {
        ExactLast(r, earlier, e);
      }
    }
  }

  lemma ExactEarlier(r: Relation, earlier: seq<TagEvent>, e: TagEvent, i: nat)
    requires i < |earlier| && Exact(r, earlier, i)
    ensures Exact(r, earlier + [e], i)
  {
    hide Replay;
    assert (earlier + [e])[..i] == earlier[..i];
  }

  lemma ExactLast(r: Relation, earlier: seq<TagEvent>, e: TagEvent)
    requires e.added !! TagsOf(Replay(r, earlier), e.path) && e.removed <= TagsOf(Replay(r, earlier), e.path)
    requires e.added != {} || e.removed != {}
    ensures Exact(r, earlier + [e], |earlier|)
  {
    hide Replay;
    assert (earlier + [e])[..|earlier|] == earlier;
  }

  lemma ChangedOrSame(r: Relation, path: string, tags: set<string>)
    requires NoEmptySets(r)
    ensures NoEmptySets(WithTags(r, path, tags)) && TagsOf(WithTags(r, path, tags), path) == tags
    ensures tags == TagsOf(r, path) ==> WithTags(r, path, tags) == r
  {
  }
}

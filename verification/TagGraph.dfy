// The in-memory bipartite graph of internal/graph/graph.go: two adjacency maps
// and the counters derived from them, all changed together under one lock.
module TagGraph {
  import opened TagRelation
  import opened Distance
  import opened Traversal

  /** fa (path -> tags) and ta (tag -> paths) hold the same edges. */
  ghost predicate Inverse(fa: Relation, ta: Relation) {
    && NoEmptySets(fa)
    && forall p, t :: t in TagsOf(fa, p) <==> p in TagsOf(ta, t)
  }

  ghost function Cardinalities(ta: Relation): map<string, nat> {
    map t | t in ta :: |ta[t]|
  }

  /** ta once path is deleted from every set; sets may become empty. */
  ghost function Without(ta: Relation, path: string): Relation {
    map t | t in ta :: ta[t] - {path}
  }

  lemma AddKeepsInverse(fa: Relation, ta: Relation, path: string, tag: string)
    requires Inverse(fa, ta)
    ensures Inverse(AddPair(fa, path, tag), AddPair(ta, tag, path))
  {
    var fa', ta' := AddPair(fa, path, tag), AddPair(ta, tag, path);
    forall p, t ensures t in TagsOf(fa', p) <==> p in TagsOf(ta', t) {
      assert t in TagsOf(fa, p) <==> p in TagsOf(ta, t);
    }
  }

  lemma DropKeepsInverse(fa: Relation, ta: Relation, path: string)
    requires Inverse(fa, ta)
    ensures Inverse(fa - {path}, Without(ta, path))
  {
    forall p, t
      ensures t in TagsOf(fa - {path}, p) <==> p in TagsOf(Without(ta, path), t)
    {
      assert t in TagsOf(fa, p) <==> p in TagsOf(ta, t);
    }
  }

  class Graph {
    var fileAdj: map<string, set<string>>    // path -> tag names
    var tagAdj: map<string, set<string>>     // tag name -> paths
    var fileEmbeddings: map<string, Vector>
    var tagCardinality: map<string, nat>
    var totalFiles: nat

    // The two floating-point functions, left abstract and exact.
    const idf: (nat, nat) -> real
    const cosine: (Vector, Vector) -> real

    /** The two maps are inverse to each other and the counters are exact.
        Only tagAdj may keep empty sets behind. */
    ghost predicate Valid()
      reads this
    {
      && Inverse(fileAdj, tagAdj)
      && totalFiles == |fileAdj|
      && tagCardinality == Cardinalities(tagAdj)
    }

    constructor (idf: (nat, nat) -> real, cosine: (Vector, Vector) -> real)
      ensures Valid() && fileAdj == map[] && fileEmbeddings == map[]
      ensures this.idf == idf && this.cosine == cosine
    {
      this.idf, this.cosine := idf, cosine;
      fileAdj, tagAdj, fileEmbeddings, tagCardinality, totalFiles := map[], map[], map[], map[], 0;
    }

    method AddEdge(path: string, tag: string)
      modifies this`fileAdj, this`tagAdj
      ensures fileAdj == AddPair(old(fileAdj), path, tag)
      ensures tagAdj == AddPair(old(tagAdj), tag, path)
    {
      if path !in fileAdj {
        fileAdj := fileAdj[path := {}];
      }
      fileAdj := fileAdj[path := fileAdj[path] + {tag}];
      if tag !in tagAdj {
        tagAdj := tagAdj[tag := {}];
      }
      tagAdj := tagAdj[tag := tagAdj[tag] + {path}];
    }

    method RebuildCounts()
      modifies this`totalFiles, this`tagCardinality
      ensures totalFiles == |fileAdj|
      ensures tagCardinality == Cardinalities(tagAdj)
    {
      totalFiles := |fileAdj|;
      tagCardinality := map[];
      var todo := tagAdj.Keys;
      while todo != {}
        invariant todo <= tagAdj.Keys
        invariant totalFiles == |fileAdj|
        invariant tagCardinality == map t | t in tagAdj && t !in todo :: |tagAdj[t]|
        decreases |todo|
      {
        var t :| t in todo;
        tagCardinality := tagCardinality[t := |tagAdj[t]|];
        todo := todo - {t};
      }
    }

    /** Takes every edge of path out of both maps, touching only path's own tags. */
    method DropEdges(path: string)
      requires Inverse(fileAdj, tagAdj)
      modifies this`fileAdj, this`tagAdj
      ensures fileAdj == old(fileAdj) - {path}
      ensures tagAdj == Without(old(tagAdj), path)
      ensures Inverse(fileAdj, tagAdj)
    {
      ghost var ta := tagAdj;
      var own := if path in fileAdj then fileAdj[path] else {};
      var todo := own;
      assert forall t :: t in TagsOf(fileAdj, path) <==> path in TagsOf(tagAdj, t);
      while todo != {}
        invariant todo <= own
        invariant fileAdj == old(fileAdj)
        invariant tagAdj == map t | t in ta :: if t in own && t !in todo then ta[t] - {path} else ta[t]
        decreases |todo|
      {
        var t :| t in todo;
        assert path in TagsOf(ta, t);
        tagAdj := tagAdj[t := tagAdj[t] - {path}];
        todo := todo - {t};
      }
      forall t | t in ta ensures t in tagAdj && tagAdj[t] == ta[t] - {path} {
        assert t in own <==> path in TagsOf(ta, t);
      }
      DropKeepsInverse(fileAdj, ta, path);
      fileAdj := fileAdj - {path};
      assert tagAdj == Without(ta, path);
    }

    /** Rebuilds everything from the rows; no stale tag entry survives. */
    method Load(pairs: seq<(string, string)>)
      modifies this`fileAdj, this`tagAdj, this`totalFiles, this`tagCardinality
      ensures Valid()
      ensures fileAdj == FromPairs(pairs)
      ensures NoEmptySets(tagAdj)
    {
      fileAdj, tagAdj := map[], map[];
      for i := 0 to |pairs|
        invariant Inverse(fileAdj, tagAdj) && NoEmptySets(tagAdj)
        invariant fileAdj == FromPairs(pairs[..i])
      {
        assert pairs[..i + 1][..i] == pairs[..i];
        AddKeepsInverse(fileAdj, tagAdj, pairs[i].0, pairs[i].1);
        AddEdge(pairs[i].0, pairs[i].1);
      }
      assert pairs[..|pairs|] == pairs;
      RebuildCounts();
    }

    /** Each given vector replaces what its path had; other paths keep theirs, and the
        tags are untouched. */
    method LoadEmbeddings(embs: map<string, Vector>)
      modifies this`fileEmbeddings
      ensures fileEmbeddings == old(fileEmbeddings) + embs
    {
      var todo := embs.Keys;
      while todo != {}
        invariant todo <= embs.Keys
        invariant fileEmbeddings == old(fileEmbeddings) + (embs - todo)
        decreases |todo|
      {
        var path :| path in todo;
        assert embs - (todo - {path}) == (embs - todo)[path := embs[path]];
        fileEmbeddings := fileEmbeddings[path := embs[path]];
        todo := todo - {path};
      }
      assert embs - todo == embs;
    }

    /** Afterwards path has exactly the given tags and every other path is as before. */
    method SetFileTags(path: string, tagNames: seq<string>)
      requires Valid()
      modifies this`fileAdj, this`tagAdj, this`totalFiles, this`tagCardinality
      ensures Valid()
      ensures fileAdj == WithTags(old(fileAdj), path, Elems(tagNames))
    {
      hide Inverse, WithTags, AddPair, Cardinalities;
      ghost var fa := fileAdj;
      DropEdges(path);
      WithNoTags(fa, path);
      assert Elems(tagNames[..0]) == {};
      for i := 0 to |tagNames|
        invariant Inverse(fileAdj, tagAdj)
        invariant fileAdj == WithTags(fa, path, Elems(tagNames[..i]))
      {
        ElemsOfPrefix(tagNames, i);
        WithTagsGrows(fa, path, Elems(tagNames[..i]), tagNames[i]);
        AddKeepsInverse(fileAdj, tagAdj, path, tagNames[i]);
        AddEdge(path, tagNames[i]);
      }
      assert tagNames[..|tagNames|] == tagNames;
      RebuildCounts();
    }

    method RemoveFile(path: string)
      requires Valid()
      modifies this
      ensures Valid()
      ensures fileAdj == old(fileAdj) - {path}
      ensures fileEmbeddings == old(fileEmbeddings) - {path}
    {
      ghost var fe := fileEmbeddings;
      DropEdges(path);
      fileEmbeddings := fileEmbeddings - {path};
      RebuildCounts();
    }

    ghost function Snapshot(seed: string, hopWeight: real, vecWeight: real): Query
      reads this
    {
      Query(fileAdj, fileEmbeddings, idf, cosine, seed, hopWeight, vecWeight)
    }

    /** Adds contrib to every unscored neighbour. */
    method Credit(pending: map<string, real>, nbrs: set<string>, scored: set<string>, contrib: real)
      returns (r: map<string, real>)
      ensures Raised(pending, r, nbrs - scored, contrib)
    {
      r := pending;
      var todo := nbrs;
      ghost var got: set<string> := {};
      while todo != {}
        invariant todo <= nbrs && got == nbrs - todo - scored
        invariant Raised(pending, r, got, contrib)
        decreases |todo|
      {
        var n :| n in todo;
        todo := todo - {n};
        if n !in scored {
          r := r[n := (if n in r then r[n] else 0.0) + contrib];
          got := got + {n};
        }
      }
    }

    /** One tag of one frontier file. */
    method CreditTag(
      f: string, t: string, pending: map<string, real>, scored: set<string>, hop: nat, hopWeight: real,
      ghost q: Query, ghost done: set<(string, string)>)
      returns (r: map<string, real>)
      requires Valid() && hop > 0 && q == Snapshot(q.seed, hopWeight, q.vecWeight)
      requires t in TagsOf(fileAdj, f)
      requires q.Credited(pending, scored, done, hop) && (f, t) !in done
      ensures q.Credited(r, scored, done + {(f, t)}, hop)
    {
      CardinalityIsCard(f, t, q);
      var contrib := hopWeight * idf(totalFiles, tagCardinality[t]) / hop as real;
      assert contrib == q.Contribution(t, hop);
      r := Credit(pending, tagAdj[t], scored, contrib);
      q.CreditStep(pending, r, scored, done, hop, (f, t));
    }

    /** The tags of one frontier file, stopwords left out. */
    method CreditFile(
      f: string, pending: map<string, real>, scored: set<string>, maxCard: nat, hop: nat, hopWeight: real,
      ghost q: Query, ghost done: set<(string, string)>)
      returns (r: map<string, real>)
      requires Valid() && hop > 0
      requires q == Snapshot(q.seed, hopWeight, q.vecWeight) && maxCard == q.MaxCard()
      requires q.Credited(pending, scored, done, hop) && forall t :: (f, t) !in done
      ensures q.Credited(r, scored, done + q.EdgesFrom(f, {}), hop)
    {
      r := pending;
      var own := if f in fileAdj then fileAdj[f] else {};
      var tags := own;
      ghost var edges := done;
      while tags != {}
        invariant tags <= own
        invariant edges == done + q.EdgesFrom(f, tags)
        invariant q.Credited(r, scored, edges, hop)
        decreases |tags|
      {
        var t :| t in tags;
        tags := tags - {t};
        CardinalityIsCard(f, t, q);
        if tagCardinality[t] < maxCard {
          r := CreditTag(f, t, r, scored, hop, hopWeight, q, edges);
          edges := edges + {(f, t)};
        }
      }
    }

    /** One hop: exactly the unscored files next to the frontier become pending,
        each with the sum of its contributions. */
    method DiscoverNextHop(
      frontier: set<string>, scored: set<string>, maxCard: nat, hop: nat, hopWeight: real, ghost q: Query)
      returns (pending: map<string, real>)
      requires Valid() && hop > 0
      requires q == Snapshot(q.seed, hopWeight, q.vecWeight) && maxCard == q.MaxCard()
      ensures forall n :: n in pending <==> n in fileAdj && n !in scored && q.Edges(frontier, n) != {}
      ensures forall n :: n in pending ==> pending[n] == q.Sum(q.Edges(frontier, n), hop)
    {
      hide Query.Credited, Query.AllEdgesFrom, Query.EdgesFrom, Query.Edges, Query.Sum, Graph.Valid;
      pending := map[];
      var files := frontier;
      q.NothingCredited(scored, hop);
      assert frontier - files == {};
      while files != {}
        invariant files <= frontier
        invariant q.Credited(pending, scored, q.AllEdgesFrom(frontier - files), hop)
        decreases |files|
      {
        var f :| f in files;
        ghost var before := frontier - files;
        q.AllEdgesGrow(before, f);
        files := files - {f};
        assert frontier - files == before + {f};
        pending := CreditFile(f, pending, scored, maxCard, hop, hopWeight, q, q.AllEdgesFrom(before));
      }
      assert frontier - files == frontier;
      q.AllCredited(pending, scored, frontier, hop);
    }

    /** The counter and the reverse set of a tag in use agree with the relation. */
    lemma CardinalityIsCard(f: string, t: string, q: Query)
      requires Valid() && q.adj == fileAdj && t in TagsOf(fileAdj, f)
      ensures t in tagAdj && tagAdj[t] == FilesWith(fileAdj, t)
      ensures t in tagCardinality && tagCardinality[t] == q.Card(t)
    {
      assert f in TagsOf(tagAdj, t);
      forall p ensures p in tagAdj[t] <==> p in FilesWith(fileAdj, t) {
        assert t in TagsOf(fileAdj, p) <==> p in TagsOf(tagAdj, t);
      }
    }

    /** Files similar to the seed get a positive similarity added to their score. */
    method ApplySimilarityBoost(pending: map<string, real>, seed: string, vecWeight: real, ghost q: Query)
      returns (r: map<string, real>)
      requires q == Snapshot(seed, q.hopWeight, vecWeight)
      ensures forall n :: n in r <==> n in pending
      ensures forall n :: n in pending ==> r[n] == pending[n] + q.Boost(n)
    {
      r := pending;
      if seed in fileEmbeddings {
        var todo := pending.Keys;
        while todo != {}
          invariant todo <= pending.Keys
          invariant forall n :: n in r <==> n in pending
          invariant forall n :: n in pending ==> r[n] == pending[n] + if n in todo then 0.0 else q.Boost(n)
          decreases |todo|
        {
          var n :| n in todo;
          todo := todo - {n};
          if n in fileEmbeddings {
            var sim := cosine(fileEmbeddings[seed], fileEmbeddings[n]);
            if sim > 0.0 {
              r := r[n := r[n] + sim * vecWeight];
            }
          }
        }
      }
    }

    /** Keeps the highest-scored pending files, up to the cap, and records their results. */
    method AdvanceFrontier(
      pending: map<string, real>, scores: Scores, scored: set<string>, seed: string, maxFrontier: nat, hop: nat,
      ghost q: Query)
      returns (nextFrontier: set<string>, scores': Scores, scored': set<string>)
      requires q == Snapshot(seed, q.hopWeight, q.vecWeight)
      ensures IsTop(pending, nextFrontier, maxFrontier)
      ensures scores' == q.Extended(scores, pending, nextFrontier, hop)
      ensures scored' == scored + nextFrontier
    {
      var candidates := Truncate(pending, maxFrontier);
      scores', scored' := Record(candidates, pending, scores, scored, seed, hop, q);
      nextFrontier := candidates;
    }

    method ResultFor(score: real, hop: nat, seed: string, n: string, ghost q: Query) returns (r: ScoringResult)
      requires q == Snapshot(seed, q.hopWeight, q.vecWeight)
      ensures r == ScoringResult(score, hop, q.Similarity(n))
    {
      var sim := 0.0;
      if seed in fileEmbeddings && n in fileEmbeddings {
        sim := cosine(fileEmbeddings[seed], fileEmbeddings[n]);
      }
      r := ScoringResult(score, hop, sim);
    }

    method Record(
      candidates: set<string>, pending: map<string, real>, scores: Scores, scored: set<string>, seed: string,
      hop: nat, ghost q: Query)
      returns (scores': Scores, scored': set<string>)
      requires q == Snapshot(seed, q.hopWeight, q.vecWeight) && candidates <= pending.Keys
      ensures scores' == q.Extended(scores, pending, candidates, hop)
      ensures scored' == scored + candidates
    {
      var results: Scores := map[];
      var todo := candidates;
      while todo != {}
        invariant todo <= candidates
        invariant forall n :: n in results <==> n in candidates && n !in todo
        invariant forall n :: n in results ==> results[n] == ScoringResult(pending[n], hop, q.Similarity(n))
        decreases |todo|
      {
        var n :| n in todo;
        todo := todo - {n};
        var result := ResultFor(pending[n], hop, seed, n, q);
        results := results[n := result];
      }
      scores', scored' := scores + results, scored + candidates;
    }

    /** Discovery and boost together yield what the hop after k must find. */
    method FindHop(
      found: Scores, scored: set<string>, frontier: set<string>, seed: string, maxCard: nat,
      k: nat, hopWeight: real, vecWeight: real, ghost q: Query)
      returns (pending: map<string, real>)
      requires Valid()
      requires q == Snapshot(seed, hopWeight, vecWeight) && maxCard == q.MaxCard()
      requires Bounds(q, found, scored, frontier, k)
      ensures q.Found(found, pending, k)
    {
      pending := DiscoverNextHop(frontier, scored, maxCard, k + 1, hopWeight, q);
      pending := ApplySimilarityBoost(pending, seed, vecWeight, q);
      FoundByHop(q, found, scored, frontier, k, pending);
    }

    /** The round of the search loop after hop k; done means that nothing new was found. */
    method Hop(
      found: Scores, scored: set<string>, frontier: set<string>, seed: string, maxCard: nat, maxFrontier: nat,
      k: nat, hopWeight: real, vecWeight: real, ghost q: Query)
      returns (done: bool, found': Scores, scored': set<string>, frontier': set<string>)
      requires Valid() && maxFrontier > 0
      requires q == Snapshot(seed, hopWeight, vecWeight) && maxCard == q.MaxCard()
      requires SearchState(q, found, scored, frontier, k, maxFrontier)
      ensures done ==> q.Network().Next(frontier) - scored == {}
      ensures !done ==> SearchState(q, found', scored', frontier', k + 1, maxFrontier) && |found'| > |found|
    {
      var pending := FindHop(found, scored, frontier, seed, maxCard, k, hopWeight, vecWeight, q);
      done, found', scored', frontier' := |pending| == 0, found, scored, frontier;
      if done {
        FoundNothing(q, found, scored, frontier, k, pending);
      } else {
        frontier', found', scored' := AdvanceFrontier(pending, found, scored, seed, maxFrontier, k + 1, q);
        SearchStep(q, found, scored, frontier, k, maxFrontier, pending, frontier');
      }
    }

    /** All results, best first, cut to limit when limit is positive. */
    method FormatRelatedOutput(scores: Scores, limit: int) returns (out: seq<RelatedFile>)
      ensures Ranked(scores, out, limit)
    {
      var m := map n | n in scores :: scores[n].score;
      var ks := KeysByScore(m);
      KeysAreAll(m, ks);
      assert |m.Keys| == |scores.Keys| == |scores| by { assert m.Keys == scores.Keys; }
      var size := if 0 < limit < |ks| then limit else |ks|;
      out := [];
      for i := 0 to size
        invariant |out| == i
        invariant forall j :: 0 <= j < i ==> out[j] == RowOf(scores, ks[j])
      {
        out := out + [RowOf(scores, ks[i])];
      }
      RankedByKeys(scores, m, ks, out, limit);
    }

    /** The search loop: ends when the range is exhausted or a hop finds nothing, and
        before that every round uses up at least one of the files still to score. */
    method Search(
      seed: string, maxHops: int, limit: int, maxCard: nat, maxFrontier: nat, hopWeight: real, vecWeight: real,
      ghost q: Query)
      returns (found: Scores)
      requires Valid() && seed in fileAdj && maxFrontier == FrontierCap(limit)
      requires q == Snapshot(seed, hopWeight, vecWeight) && maxCard == q.MaxCard()
      ensures Meets(q, found, maxHops, limit)
    {
      hide SearchState, Meets;
      found := map[];
      var scored, frontier := {seed}, {seed};
      var hops: nat := 0;
      EmptyState(q, found, scored, frontier, hops, maxFrontier);
      while hops < maxHops
        invariant hops <= Range(maxHops)
        invariant SearchState(q, found, scored, frontier, hops, maxFrontier)
        decreases |fileAdj| - |found|
      {
        var done, found', scored', frontier' :=
          Hop(found, scored, frontier, seed, maxCard, maxFrontier, hops, hopWeight, vecWeight, q);
        if done {
          break;
        }
        FilesLeft(q, found', scored', frontier', hops + 1, maxFrontier);
        found, scored, frontier, hops := found', scored', frontier', hops + 1;
      }
      SearchEnd(q, found, scored, frontier, hops, maxHops, limit);
    }

    /** The related files of seedPath: the best of a set of scored files, each score of
        which is explained by the hop before it; each hop keeps all it has in reach or as
        many as the cap allows, until the range or the reach ends; and the hops are true
        distances exactly when no level within range is wider than the cap. */
    method Related(seedPath: string, maxHops: int, limit: int, hopWeight: real, vecWeight: real)
      returns (out: seq<RelatedFile>)
      requires Valid()
      ensures seedPath !in fileAdj ==> out == []
      ensures seedPath in fileAdj ==>
                exists scores :: Ranked(scores, out, limit)
                                 && Meets(Snapshot(seedPath, hopWeight, vecWeight), scores, maxHops, limit)
    {
      hide Ranked, Meets;
      if seedPath !in fileAdj {
        return [];
      }
      ghost var q := Snapshot(seedPath, hopWeight, vecWeight);
      var share := totalFiles / HIGH_CARDINALITY_DIVISOR;
      var maxCard := if share > MIN_HIGH_CARDINALITY_THRESHOLD then share else MIN_HIGH_CARDINALITY_THRESHOLD;
      var found := Search(seedPath, maxHops, limit, maxCard, FrontierCap(limit), hopWeight, vecWeight, q);
      out := FormatRelatedOutput(found, limit);
    }
  }

  function Range(maxHops: int): nat {
    if maxHops < 0 then 0 else maxHops
  }

  /** What Related promises about the files it scores. */
  ghost predicate Meets(q: Query, scores: Scores, maxHops: int, limit: int) {
    var cap := if limit <= 0 then 400 else 8 * limit;
    var hops := if maxHops <= 0 then 0 else maxHops;
    && q.Explained(scores) && q.Greedy(scores)
    && (forall n :: n in scores ==> q.Earned(scores, n))
    && (q.Network().Complete(HopsOf(scores), hops) <==> q.Network().Narrow(hops, cap))
    && exists k :: q.Network().WentOn(HopsOf(scores), k, hops, cap)
  }

  lemma EmptyState(q: Query, found: Scores, scored: set<string>, frontier: set<string>, k: nat, cap: int)
    requires found == map[] && scored == frontier == {q.seed} && k == 0
    ensures SearchState(q, found, scored, frontier, k, cap)
  {
    q.Network().OnTrackStart();
    assert HopsOf(found) == map[];
  }

  /** What the search loop keeps: everything scored is explained, and nothing
      has been cut so far or something has been cut for good. */
  ghost predicate SearchState(
    q: Query, found: Scores, scored: set<string>, frontier: set<string>, k: nat, cap: int)
  {
    && Bounds(q, found, scored, frontier, k)
    && q.Explained(found) && q.Greedy(found)
    && q.Network().Progress(HopsOf(found), k, cap)
    && q.Network().Filled(HopsOf(found), k, cap)
  }

  ghost predicate Bounds(q: Query, found: Scores, scored: set<string>, frontier: set<string>, k: nat) {
    && q.seed !in found && found.Keys <= q.adj.Keys
    && scored == found.Keys + {q.seed}
    && frontier == q.Network().At(HopsOf(found), k)
    && (forall n :: n in found ==> found[n].hop <= k)
  }

  /** A discovered and boosted map is what the hop must find. */
  lemma FoundByHop(
    q: Query, found: Scores, scored: set<string>, frontier: set<string>, k: nat, pending: map<string, real>)
    requires Bounds(q, found, scored, frontier, k)
    requires forall n :: n in pending <==> n in q.adj && n !in scored && q.Edges(frontier, n) != {}
    requires forall n :: n in pending ==> pending[n] == q.HopScore(frontier, n, k + 1)
    ensures q.Found(found, pending, k)
  {
    forall n ensures n in pending <==> n in q.Network().Next(frontier) - scored {
      q.EdgesMeanLinked(frontier, n);
      q.LinkedFilesExist(frontier, n);
    }
  }

  lemma FoundNothing(
    q: Query, found: Scores, scored: set<string>, frontier: set<string>, k: nat, pending: map<string, real>)
    requires Bounds(q, found, scored, frontier, k) && q.Found(found, pending, k) && |pending| == 0
    ensures q.Network().Next(frontier) - scored == {}
  {
    assert |pending.Keys| == 0;
    assert q.Network().Next(frontier) - scored == pending.Keys;
  }

  lemma SearchStep(
    q: Query, found: Scores, scored: set<string>, frontier: set<string>, k: nat, cap: nat,
    pending: map<string, real>, kept: set<string>)
    requires SearchState(q, found, scored, frontier, k, cap) && cap > 0
    requires q.Found(found, pending, k) && |pending| > 0
    requires IsTop(pending, kept, cap)
    ensures SearchState(q, q.Extended(found, pending, kept, k + 1), scored + kept, kept, k + 1, cap)
    ensures |q.Extended(found, pending, kept, k + 1)| > |found|
  {
    assert |pending.Keys| == |pending|;
    var s := q.Extended(found, pending, kept, k + 1);
    q.HopKeepsExplained(found, pending, kept, k);
    q.HopKeepsGreedy(found, pending, kept, k);
    StepKeepsProgress(q, found, k, cap, pending, kept);
    StepKeepsFilled(q, found, k, cap, pending, kept);
    StepKeepsBounds(q, found, scored, frontier, k, pending, kept);
    StateFromParts(q, s, scored + kept, kept, k + 1, cap);
    Grows(q, found, pending, kept, k + 1);
  }

  lemma StateFromParts(q: Query, found: Scores, scored: set<string>, frontier: set<string>, k: nat, cap: int)
    requires q.Explained(found) && q.Greedy(found)
    requires q.Network().Progress(HopsOf(found), k, cap) && q.Network().Filled(HopsOf(found), k, cap)
    requires Bounds(q, found, scored, frontier, k)
    ensures SearchState(q, found, scored, frontier, k, cap)
  {
  }

  lemma StepKeepsProgress(
    q: Query, found: Scores, k: nat, cap: int, pending: map<string, real>, kept: set<string>)
    requires q.Network().Progress(HopsOf(found), k, cap) && cap > 0
    requires q.Found(found, pending, k)
    requires kept <= pending.Keys && |kept| == if |pending.Keys| <= cap then |pending.Keys| else cap
    ensures q.Network().Progress(HopsOf(q.Extended(found, pending, kept, k + 1)), k + 1, cap)
  {
    hide Net.Progress, Net.Extended, Query.Extended, Query.LinksFrom, Query.HopScore, Net.Next, Net.At;
    q.ExtendedHops(found, pending, kept, k + 1);
    q.Network().HopKeepsProgress(HopsOf(found), pending.Keys, kept, k, cap);
  }

  lemma StepKeepsFilled(
    q: Query, found: Scores, k: nat, cap: int, pending: map<string, real>, kept: set<string>)
    requires q.Network().Filled(HopsOf(found), k, cap) && forall n :: n in found ==> found[n].hop <= k
    requires q.Found(found, pending, k)
    requires kept <= pending.Keys && |kept| == if |pending.Keys| <= cap then |pending.Keys| else cap
    ensures q.Network().Filled(HopsOf(q.Extended(found, pending, kept, k + 1)), k + 1, cap)
  {
    hide Net.Filled, Net.Extended, Query.Extended, Query.LinksFrom, Query.HopScore, Net.Next, Net.At;
    q.ExtendedHops(found, pending, kept, k + 1);
    q.Network().HopKeepsFilled(HopsOf(found), pending.Keys, kept, k, cap);
  }

  lemma StepKeepsBounds(
    q: Query, found: Scores, scored: set<string>, frontier: set<string>, k: nat,
    pending: map<string, real>, kept: set<string>)
    requires Bounds(q, found, scored, frontier, k)
    requires q.Found(found, pending, k) && kept <= pending.Keys
    ensures Bounds(q, q.Extended(found, pending, kept, k + 1), scored + kept, kept, k + 1)
  {
    hide Query.HopScore, Query.LinksFrom, Net.Next, Net.At;
    var s := q.Extended(found, pending, kept, k + 1);
    FrontierAfter(q, found, k, pending, kept);
    forall n | n in kept ensures n in q.adj {
      q.LinkedFilesExist(frontier, n);
    }
    assert s.Keys == found.Keys + kept;
  }

  lemma FrontierAfter(q: Query, found: Scores, k: nat, pending: map<string, real>, kept: set<string>)
    requires kept <= pending.Keys && forall n :: n in found ==> found[n].hop <= k
    ensures q.Network().At(HopsOf(q.Extended(found, pending, kept, k + 1)), k + 1) == kept
  {
    q.ExtendedHops(found, pending, kept, k + 1);
    q.Network().NewestHop(HopsOf(found), kept, k);
  }

  lemma Grows(q: Query, found: Scores, pending: map<string, real>, kept: set<string>, hop: nat)
    requires kept <= pending.Keys && kept !! found.Keys && kept != {}
    ensures |q.Extended(found, pending, kept, hop)| > |found|
  {
    var s := q.Extended(found, pending, kept, hop);
    Bigger(found.Keys, kept);
    assert s.Keys == found.Keys + kept && |s.Keys| == |s| && |found.Keys| == |found|;
  }

  lemma Bigger(a: set<string>, b: set<string>)
    requires a !! b
    ensures |a + b| == |a| + |b|
  {
  }

  lemma FilesLeft(q: Query, found: Scores, scored: set<string>, frontier: set<string>, k: nat, cap: int)
    requires SearchState(q, found, scored, frontier, k, cap) && q.seed in q.adj
    ensures |found| < |q.adj|
  {
    SubsetSize(scored, q.adj.Keys);
    Bigger(found.Keys, {q.seed});
    assert |found.Keys| == |found| && |q.adj.Keys| == |q.adj|;
  }

  lemma SearchEnd(
    q: Query, found: Scores, scored: set<string>, frontier: set<string>, k: nat, maxHops: int, limit: int)
    requires SearchState(q, found, scored, frontier, k, FrontierCap(limit)) && k <= Range(maxHops)
    requires k == Range(maxHops) || q.Network().Next(frontier) - scored == {}
    ensures Meets(q, found, maxHops, limit)
  {
    var hops := HopsOf(found);
    assert q.Network().Next(frontier) - hops.Keys - {q.seed} == q.Network().Next(frontier) - scored;
    q.Network().ProgressDecides(hops, k, Range(maxHops), FrontierCap(limit));
    q.Network().NewestHop(hops, {}, k);
    assert q.Network().WentOn(hops, k, Range(maxHops), FrontierCap(limit));
    forall n | n in found ensures q.Earned(found, n) {
      assert q.Justified(found, n);
      q.JustifiedIsEarned(found, n);
    }
  }

  function RowOf(scores: Scores, n: string): RelatedFile
    requires n in scores
  {
    RelatedFile(n, scores[n].score, scores[n].hop, scores[n].cosineSim)
  }

  lemma RankedByKeys(scores: Scores, m: map<string, real>, ks: seq<string>, out: seq<RelatedFile>, limit: int)
    requires m == map n | n in scores :: scores[n].score
    requires Distinct(ks) && Elems(ks) == m.Keys && SortedBy(m, ks) && |ks| == |scores|
    requires |out| == if 0 < limit < |ks| then limit else |ks|
    requires forall j :: 0 <= j < |out| ==> out[j] == RowOf(scores, ks[j])
    ensures Ranked(scores, out, limit)
  {
    forall j | 0 <= j < |out| ensures Listed(out, ks[j]) {
      assert out[j].path == ks[j];
    }
    forall n, i | n in scores && !Listed(out, n) && 0 <= i < |out| ensures scores[n].score <= out[i].score {
      assert n in Elems(ks);
      var j :| 0 <= j < |ks| && ks[j] == n;
      assert m[ks[i]] >= m[ks[j]];
    }
  }

  method KeysByScore(m: map<string, real>) returns (ks: seq<string>)
    ensures Distinct(ks) && Elems(ks) == m.Keys && SortedBy(m, ks)
  {
    ks := [];
    var todo := m.Keys;
    while todo != {}
      invariant todo <= m.Keys && Elems(ks) == m.Keys - todo
      invariant Distinct(ks) && SortedBy(m, ks)
      decreases |todo|
    {
      var k :| k in todo;
      todo := todo - {k};
      assert k !in Elems(ks);
      ks := InsertByScore(m, ks, k);
    }
  }

  method InsertByScore(m: map<string, real>, ks: seq<string>, k: string) returns (r: seq<string>)
    requires SortedBy(m, ks) && Distinct(ks) && k in m && k !in ks
    ensures SortedBy(m, r) && Distinct(r) && Elems(r) == Elems(ks) + {k}
  {
    var i := |ks|;
    while i > 0 && m[ks[i - 1]] < m[k]
      invariant 0 <= i <= |ks|
      invariant forall j :: i <= j < |ks| ==> m[ks[j]] < m[k]
    {
      i := i - 1;
    }
    r := ks[..i] + [k] + ks[i..];
    InsertedIsSorted(m, ks, k, i);
    InsertedElems(ks, k, i);
  }

  lemma InsertedIsSorted(m: map<string, real>, ks: seq<string>, k: string, i: nat)
    requires SortedBy(m, ks) && Distinct(ks) && k in m && k !in ks && i <= |ks|
    requires i > 0 ==> m[ks[i - 1]] >= m[k]
    requires forall j :: i <= j < |ks| ==> m[ks[j]] < m[k]
    ensures SortedBy(m, ks[..i] + [k] + ks[i..]) && Distinct(ks[..i] + [k] + ks[i..])
  {
    InsertedIsDistinct(ks, k, i);
    hide Distinct;
    var r := ks[..i] + [k] + ks[i..];
    assert forall j :: 0 <= j < i ==> r[j] == ks[j];
    assert forall j :: i < j < |r| ==> r[j] == ks[j - 1];
  }

  lemma InsertedIsDistinct(ks: seq<string>, k: string, i: nat)
    requires Distinct(ks) && k !in ks && i <= |ks|
    ensures Distinct(ks[..i] + [k] + ks[i..])
  {
    var r := ks[..i] + [k] + ks[i..];
    assert forall j :: 0 <= j < i ==> r[j] == ks[j];
    assert forall j :: i < j < |r| ==> r[j] == ks[j - 1];
  }

  lemma InsertedElems(ks: seq<string>, k: string, i: nat)
    requires i <= |ks|
    ensures Elems(ks[..i] + [k] + ks[i..]) == Elems(ks) + {k}
  {
    assert ks == ks[..i] + ks[i..];
  }

  /** sort.Slice and a slice: the top n keys. */
  method Truncate(pending: map<string, real>, n: nat) returns (kept: set<string>)
    ensures IsTop(pending, kept, n)
  {
    kept := pending.Keys;
    assert |pending.Keys| == |pending|;
    if |pending| > n {
      var sl := KeysByScore(pending);
      TopOfSorted(pending, sl, n);
      kept := Elems(sl[..n]);
    }
  }

  lemma KeysAreAll(m: map<string, real>, ks: seq<string>)
    requires Distinct(ks) && Elems(ks) == m.Keys
    ensures |ks| == |m|
  {
    DistinctSize(ks);
    assert |m.Keys| == |m|;
  }

  lemma TopOfSorted(m: map<string, real>, ks: seq<string>, n: nat)
    requires Distinct(ks) && Elems(ks) == m.Keys && SortedBy(m, ks) && n < |m|
    ensures n <= |ks| && IsTop(m, Elems(ks[..n]), n)
  {
    KeysAreAll(m, ks);
    DistinctSize(ks[..n]);
    forall a, b | a in Elems(ks[..n]) && b in m.Keys - Elems(ks[..n]) ensures m[a] >= m[b] {
      var i :| 0 <= i < n && ks[i] == a;
      assert b in Elems(ks);
      var j :| 0 <= j < |ks| && ks[j] == b;
      assert forall x :: 0 <= x < n ==> ks[x] in Elems(ks[..n]);
    }
  }

  /** The representation is canonical: a valid graph's maps are fixed by its
      relation, except for tag entries left empty. So a graph maintained
      incrementally and one loaded afresh differ in nothing else. */
  lemma ValidGraphIsDetermined(g: Graph, h: Graph)
    requires g.Valid() && h.Valid() && g.fileAdj == h.fileAdj
    ensures g.totalFiles == h.totalFiles
    ensures forall t :: TagsOf(g.tagAdj, t) == TagsOf(h.tagAdj, t) == FilesWith(g.fileAdj, t)
    ensures forall t :: t in g.tagCardinality && g.tagCardinality[t] != 0 ==>
              t in h.tagCardinality && h.tagCardinality[t] == g.tagCardinality[t]
  {
    forall t
      ensures TagsOf(g.tagAdj, t) == TagsOf(h.tagAdj, t) == FilesWith(g.fileAdj, t)
    {
      assert forall p :: t in TagsOf(g.fileAdj, p) <==> p in TagsOf(g.tagAdj, t);
      assert forall p :: t in TagsOf(h.fileAdj, p) <==> p in TagsOf(h.tagAdj, t);
      assert forall p :: p in FilesWith(g.fileAdj, t) <==> t in TagsOf(g.fileAdj, p);
    }
    forall t | t in g.tagCardinality && g.tagCardinality[t] != 0
      ensures t in h.tagCardinality && h.tagCardinality[t] == g.tagCardinality[t]
    {
      assert TagsOf(g.tagAdj, t) == TagsOf(h.tagAdj, t);
    }
  }
}

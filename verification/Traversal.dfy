// What a related-files query means, stated on the plain relation: which files
// are linked through tags that are not stopwords, and what score a hop gives.
module Traversal {
  import opened TagRelation
  import opened Distance

  type Vector = seq<real>

  const HIGH_CARDINALITY_DIVISOR := 20
  const MIN_HIGH_CARDINALITY_THRESHOLD := 50
  const FRONTIER_FACTOR := 8
  const DEFAULT_FRONTIER := 400

  /** How many files one hop may pass on to the next. */
  function FrontierCap(limit: int): (cap: int)
    ensures cap == if limit <= 0 then 400 else 8 * limit
  {
    if limit * FRONTIER_FACTOR <= 0 then DEFAULT_FRONTIER else limit * FRONTIER_FACTOR
  }

  datatype ScoringResult = ScoringResult(score: real, hop: nat, cosineSim: real)

  type Scores = map<string, ScoringResult>

  function HopsOf(scores: Scores): Hops {
    map n | n in scores :: scores[n].hop
  }

  datatype RelatedFile = RelatedFile(path: string, score: real, hopDistance: nat, cosineSim: real)

  /** Everything a query may depend on. Neither the tag side of the graph nor
      its counters occur here: they are derived from adj. */
  datatype Query = Query(
    adj: Relation,
    embeddings: map<string, Vector>,
    idf: (nat, nat) -> real,
    cosine: (Vector, Vector) -> real,
    seed: string,
    hopWeight: real,
    vecWeight: real)
  {
    function Card(tag: string): nat { |FilesWith(adj, tag)| }

    function MaxCard(): nat {
      var share := |adj| / HIGH_CARDINALITY_DIVISOR;
      if share > MIN_HIGH_CARDINALITY_THRESHOLD then share else MIN_HIGH_CARDINALITY_THRESHOLD
    }

    /** The tag is not a stopword. */
    predicate Passes(tag: string) { Card(tag) < MaxCard() }

    ghost predicate Share(f: string, g: string) {
      exists t :: t in TagsOf(adj, f) && t in TagsOf(adj, g) && Passes(t)
    }

    ghost function LinksFrom(f: string): set<string> {
      set g | g in adj && Share(f, g)
    }

    /** The files, linked when they share a tag that is not a stopword. */
    ghost function Network(): Net {
      Net(map f | f in adj :: LinksFrom(f), seed)
    }

    // ----- Score -----

    function Contribution(tag: string, hop: nat): real
      requires hop > 0
    {
      hopWeight * idf(|adj|, Card(tag)) / hop as real
    }

    /** The (frontier file, shared tag) pairs that lead to n. */
    ghost function Edges(frontier: set<string>, n: string): set<(string, string)> {
      set f, t | f in frontier && t in TagsOf(adj, f) && t in TagsOf(adj, n) && Passes(t) :: (f, t)
    }

    /** A sum over a set, so no order of addition is implied. */
    ghost function Sum(edges: set<(string, string)>, hop: nat): real
      requires hop > 0
    {
      if edges == {} then 0.0
      else
        var e :| e in edges;
        Contribution(e.1, hop) + Sum(edges - {e}, hop)
    }

    function Similarity(n: string): real {
      if seed in embeddings && n in embeddings then cosine(embeddings[seed], embeddings[n]) else 0.0
    }

    function Boost(n: string): real {
      if Similarity(n) > 0.0 then Similarity(n) * vecWeight else 0.0
    }

    ghost function HopScore(frontier: set<string>, n: string, hop: nat): real
      requires hop > 0
    {
      Sum(Edges(frontier, n), hop) + Boost(n)
    }

    /** What a file first reached at this hop from this frontier must be given. */
    ghost function Result(frontier: set<string>, n: string, hop: nat): ScoringResult
      requires hop > 0
    {
      ScoringResult(HopScore(frontier, n, hop), hop, Similarity(n))
    }

    /** n was reached from files scored one hop earlier, and scored by that. */
    ghost predicate Justified(scores: Scores, n: string) {
      && n in scores && scores[n].hop > 0
      && HasPredecessor(scores, n)
      && scores[n] == Result(Network().At(HopsOf(scores), scores[n].hop - 1), n, scores[n].hop)
    }

    ghost predicate HasPredecessor(scores: Scores, n: string) {
      Network().HasPredecessor(HopsOf(scores), n)
    }

    ghost predicate Explained(scores: Scores) {
      forall n {:trigger Justified(scores, n)} :: n in scores ==> Justified(scores, n)
    }

    /** n could have been scored at this hop but was cut. */
    ghost predicate PassedOver(scores: Scores, n: string, hop: nat) {
      && hop > 0 && n != seed
      && n in Network().Next(Network().At(HopsOf(scores), hop - 1))
      && (n in scores ==> scores[n].hop > hop)
    }

    ghost predicate Outscores(scores: Scores, m: string, n: string) {
      m in scores && PassedOver(scores, n, scores[m].hop) ==>
        HopScore(Network().At(HopsOf(scores), scores[m].hop - 1), n, scores[m].hop) <= scores[m].score
    }

    /** The cap only ever cuts files in favour of files that score as high. */
    ghost predicate Greedy(scores: Scores) {
      forall m, n {:trigger Outscores(scores, m, n)} :: Outscores(scores, m, n)
    }

    // ----- Facts -----

    lemma EdgesMeanLinked(frontier: set<string>, n: string)
      ensures Edges(frontier, n) != {} <==> n in Network().Next(frontier)
    {
      Network().InNext(frontier, n);
      if f :| f in frontier && Network().Linked(f, n) {
        var t :| t in TagsOf(adj, f) && t in TagsOf(adj, n) && Passes(t);
        assert (f, t) in Edges(frontier, n);
      }
      if Edges(frontier, n) != {} {
        var e :| e in Edges(frontier, n);
        assert Share(e.0, n);
        assert e.0 in frontier && Network().Linked(e.0, n);
      }
    }

    lemma LinkedFilesExist(frontier: set<string>, n: string)
      ensures n in Network().Next(frontier) ==> n in adj
    {
    }

    /** An outcome that can be explained can be traced back hop by hop. */
    lemma ExplainedIsRooted(scores: Scores)
      requires Explained(scores)
      ensures Network().Rooted(HopsOf(scores))
    {
      forall n | n in HopsOf(scores) ensures Network().HasPredecessor(HopsOf(scores), n) {
        assert Justified(scores, n);
      }
    }

    lemma {:induction false} SumTakesOut(edges: set<(string, string)>, e: (string, string), hop: nat)
      requires hop > 0 && e in edges
      ensures Sum(edges, hop) == Contribution(e.1, hop) + Sum(edges - {e}, hop)
    {
      var x :| x in edges && Sum(edges, hop) == Contribution(x.1, hop) + Sum(edges - {x}, hop);
      if x != e {
        SumTakesOut(edges - {x}, e, hop);
        SumTakesOut(edges - {e}, x, hop);
        assert edges - {x} - {e} == edges - {e} - {x};
      }
    }

    // ----- What a score is worth -----

    /** A tag on fewer than 50 files, or on less than a twentieth of all, is no stopword. */
    ghost predicate Telling(tag: string) {
      |FilesWith(adj, tag)| < 50 || |FilesWith(adj, tag)| < |adj| / 20
    }

    /** Two files are linked exactly when they share a telling tag. */
    lemma LinkedByTellingTag(f: string, g: string)
      ensures Network().Linked(f, g) <==> f in adj && g in adj && exists t :: t in adj[f] * adj[g] && Telling(t)
    {
      if f in adj && g in adj {
        if t :| t in adj[f] * adj[g] && Telling(t) {
          assert t in TagsOf(adj, f) && t in TagsOf(adj, g) && Passes(t);
          assert Share(f, g);
        }
        if Share(f, g) {
          var t :| t in TagsOf(adj, f) && t in TagsOf(adj, g) && Passes(t);
          assert t in adj[f] * adj[g] && Telling(t);
        }
      }
    }

    /** The telling tags that n shares with files of the hop before, each with its file. */
    ghost function Shared(previous: set<string>, n: string): set<(string, string)> {
      set f, t | f in previous && t in TagsOf(adj, f) && t in TagsOf(adj, n) && Telling(t) :: (f, t)
    }

    function Worth(tag: string): real {
      hopWeight * idf(|adj|, |FilesWith(adj, tag)|)
    }

    /** The sum of what the tags of such pairs are worth, whatever the hop. */
    ghost function Gain(pairs: set<(string, string)>): real {
      if pairs == {} then 0.0
      else
        var e :| e in pairs;
        Worth(e.1) + Gain(pairs - {e})
    }

    lemma {:induction false} GainTakesOut(pairs: set<(string, string)>, e: (string, string))
      requires e in pairs
      ensures Gain(pairs) == Worth(e.1) + Gain(pairs - {e})
    {
      hide Worth;
      var x :| x in pairs && Gain(pairs) == Worth(x.1) + Gain(pairs - {x});
      if x != e {
        GainTakesOut(pairs - {x}, e);
        GainTakesOut(pairs - {e}, x);
        assert pairs - {x} - {e} == pairs - {e} - {x};
      }
    }

    /** Pair by pair, a gain is made of weight times idf. */
    lemma GainByPairs(pairs: set<(string, string)>, f: string, t: string)
      ensures Gain({}) == 0.0
      ensures (f, t) !in pairs ==> Gain(pairs + {(f, t)}) == Gain(pairs) + hopWeight * idf(|adj|, |FilesWith(adj, t)|)
    {
      hide Gain;
      assert Gain({}) == 0.0 by { GainOfNone(); }
      if (f, t) !in pairs {
        GainTakesOut(pairs + {(f, t)}, (f, t));
        assert pairs + {(f, t)} - {(f, t)} == pairs;
      }
    }

    lemma GainOfNone()
      ensures Gain({}) == 0.0
    {
    }

    /** A hop's sum falls off with the hop: times the hop, it is the gain of its pairs. */
    lemma {:induction false} SumFallsOff(edges: set<(string, string)>, hop: nat)
      requires hop > 0
      ensures Sum(edges, hop) * hop as real == Gain(edges)
    {
      hide Contribution, Worth;
      if edges == {} {
        assert Sum(edges, hop) == 0.0 && Gain(edges) == 0.0;
      } else {
        hide Sum, Gain;
        var e :| e in edges;
        SumTakesOut(edges, e, hop);
        GainTakesOut(edges, e);
        SumFallsOff(edges - {e}, hop);
        ContributionFallsOff(e.1, hop);
        OneMoreTerm(Contribution(e.1, hop), Sum(edges - {e}, hop), Worth(e.1), Gain(edges - {e}), hop as real);
      }
    }

    lemma ContributionFallsOff(tag: string, hop: nat)
      requires hop > 0
      ensures Contribution(tag, hop) * hop as real == Worth(tag)
    {
      DivideAndMultiply(hopWeight * idf(|adj|, Card(tag)), hop as real);
    }

    /** The score of n, less what its similarity adds, times its hop, is the gain over the
        telling tags it shares with the files scored one hop before; there is one. */
    ghost predicate Earned(scores: Scores, n: string)
      requires n in scores
    {
      var hop := scores[n].hop;
      var previous := if hop == 1 then {seed} else set p | p in scores && scores[p].hop == hop - 1;
      var sim := if seed in embeddings && n in embeddings then cosine(embeddings[seed], embeddings[n]) else 0.0;
      var boost := if sim > 0.0 then sim * vecWeight else 0.0;
      && hop > 0 && Shared(previous, n) != {}
      && (scores[n].score - boost) * hop as real == Gain(Shared(previous, n))
      && scores[n].cosineSim == sim
    }

    lemma SharedAreEdges(previous: set<string>, n: string)
      ensures Shared(previous, n) == Edges(previous, n)
    {
    }

    lemma JustifiedIsEarned(scores: Scores, n: string)
      requires Justified(scores, n)
      ensures Earned(scores, n)
    {
      hide Edges, Shared, Sum, Gain, Net.Next, LinksFrom;
      var hop := scores[n].hop;
      var previous := if hop == 1 then {seed} else set p | p in scores && scores[p].hop == hop - 1;
      assert previous == Network().At(HopsOf(scores), hop - 1);
      SharedAreEdges(previous, n);
      SumFallsOff(Edges(previous, n), hop);
      EdgesMeanLinked(previous, n);
      PredecessorIsNext(HopsOf(scores), n);
    }

    lemma PredecessorIsNext(hops: Hops, n: string)
      requires n in hops && hops[n] > 0 && Network().HasPredecessor(hops, n)
      ensures n in Network().Next(Network().At(hops, hops[n] - 1))
    {
      var f :| Network().Precedes(hops, f, n);
      Network().InNext(Network().At(hops, hops[n] - 1), n);
    }

    ghost predicate WeightsAreNonNegative() {
      && hopWeight >= 0.0 && vecWeight >= 0.0
      && forall total, card :: 0 <= card <= total ==> idf(total, card) >= 0.0
    }

    /** A tag is on no more files than there are, so scores cannot be negative. */
    lemma {:induction false} ScoresAreNonNegative(frontier: set<string>, n: string, hop: nat)
      requires hop > 0 && WeightsAreNonNegative()
      ensures HopScore(frontier, n, hop) >= 0.0
    {
      SumIsNonNegative(Edges(frontier, n), hop);
      assert Boost(n) >= 0.0;
    }

    lemma {:induction false} SumIsNonNegative(edges: set<(string, string)>, hop: nat)
      requires hop > 0 && WeightsAreNonNegative()
      ensures Sum(edges, hop) >= 0.0
    {
      if edges != {} {
        var e :| e in edges;
        SumTakesOut(edges, e, hop);
        ContributionIsNonNegative(e.1, hop);
        SumIsNonNegative(edges - {e}, hop);
      }
    }

    lemma ContributionIsNonNegative(tag: string, hop: nat)
      requires hop > 0 && WeightsAreNonNegative()
      ensures Contribution(tag, hop) >= 0.0
    {
      SubsetSize(FilesWith(adj, tag), adj.Keys);
      assert |adj.Keys| == |adj|;
      assert hopWeight * idf(|adj|, Card(tag)) >= 0.0;
    }

    // ----- Partial sums -----

    ghost function Toward(done: set<(string, string)>, n: string): set<(string, string)> {
      set e | e in done && e.1 in TagsOf(adj, n)
    }

    /** The credited edges of one frontier file, leaving out the given tags. */
    ghost function EdgesFrom(f: string, except: set<string>): set<(string, string)> {
      set t | t in TagsOf(adj, f) && t !in except && Passes(t) :: (f, t)
    }

    ghost function AllEdgesFrom(files: set<string>): set<(string, string)> {
      set f, t | f in files && t in TagsOf(adj, f) && Passes(t) :: (f, t)
    }

    lemma AllEdgesGrow(files: set<string>, f: string)
      ensures AllEdgesFrom(files + {f}) == AllEdgesFrom(files) + EdgesFrom(f, {})
      ensures f !in files ==> forall t :: (f, t) !in AllEdgesFrom(files)
    {
    }

    lemma TowardIsEdges(frontier: set<string>, n: string)
      ensures Toward(AllEdgesFrom(frontier), n) == Edges(frontier, n)
    {
    }

    /** pending holds the contributions of the edges in done, and of no others. */
    ghost predicate Credited(pending: map<string, real>, scored: set<string>, done: set<(string, string)>, hop: nat)
      requires hop > 0
    {
      && (forall n :: n in pending <==> n in adj && n !in scored && Toward(done, n) != {})
      && (forall n :: n in pending ==> pending[n] == Sum(Toward(done, n), hop))
    }

    /** Once every edge of the frontier is in, what is pending is what the hop finds. */
    lemma AllCredited(pending: map<string, real>, scored: set<string>, frontier: set<string>, hop: nat)
      requires hop > 0 && Credited(pending, scored, AllEdgesFrom(frontier), hop)
      ensures forall n :: n in pending <==> n in adj && n !in scored && Edges(frontier, n) != {}
      ensures forall n :: n in pending ==> pending[n] == Sum(Edges(frontier, n), hop)
    {
      hide AllEdgesFrom, Toward, Edges, Sum;
      forall n ensures Toward(AllEdgesFrom(frontier), n) == Edges(frontier, n) {
        TowardIsEdges(frontier, n);
      }
    }

    /** Before any edge is in, nothing is pending. */
    lemma NothingCredited(scored: set<string>, hop: nat)
      requires hop > 0
      ensures AllEdgesFrom({}) == {} && Credited(map[], scored, {}, hop)
    {
    }

    /** One more edge credits exactly the unscored files that carry its tag. */
    lemma CreditStep(
      pending: map<string, real>, pending': map<string, real>, scored: set<string>,
      done: set<(string, string)>, hop: nat, e: (string, string))
      requires hop > 0 && Credited(pending, scored, done, hop) && e !in done
      requires Raised(pending, pending', FilesWith(adj, e.1) - scored, Contribution(e.1, hop))
      ensures Credited(pending', scored, done + {e}, hop)
    {
      var done' := done + {e};
      forall n
        ensures n in pending' <==> n in adj && n !in scored && Toward(done', n) != {}
        ensures n in pending' ==> pending'[n] == Sum(Toward(done', n), hop)
      {
        TowardOneMore(done, e, n, hop);
        assert n in FilesWith(adj, e.1) <==> e.1 in TagsOf(adj, n);
      }
    }

    lemma TowardOneMore(done: set<(string, string)>, e: (string, string), n: string, hop: nat)
      requires hop > 0 && e !in done
      ensures e.1 in TagsOf(adj, n) ==> Toward(done + {e}, n) != {}
      ensures e.1 in TagsOf(adj, n) ==>
                Sum(Toward(done + {e}, n), hop) == Sum(Toward(done, n), hop) + Contribution(e.1, hop)
      ensures e.1 !in TagsOf(adj, n) ==> Toward(done + {e}, n) == Toward(done, n)
      ensures Sum({}, hop) == 0.0
    {
      var after := Toward(done + {e}, n);
      if e.1 in TagsOf(adj, n) {
        assert e in after && after - {e} == Toward(done, n);
        SumTakesOut(after, e, hop);
      } else {
        assert after == Toward(done, n);
      }
    }

    // ----- One hop -----

    /** pending is what the hop after k must find, with the scores it must give. */
    ghost predicate Found(scores: Scores, pending: map<string, real>, k: nat) {
      && pending.Keys == Network().Next(Network().At(HopsOf(scores), k)) - scores.Keys - {seed}
      && forall n :: n in pending ==> pending[n] == HopScore(Network().At(HopsOf(scores), k), n, k + 1)
    }

    ghost function Extended(scores: Scores, pending: map<string, real>, kept: set<string>, hop: nat): Scores
      requires kept <= pending.Keys
    {
      scores + map n | n in kept :: ScoringResult(pending[n], hop, Similarity(n))
    }

    lemma ExtendedHops(scores: Scores, pending: map<string, real>, kept: set<string>, hop: nat)
      requires kept <= pending.Keys
      ensures HopsOf(Extended(scores, pending, kept, hop)) == Network().Extended(HopsOf(scores), kept, hop)
    {
    }

    /** Later hops leave earlier hops alone. */
    lemma AtIsStable(hops: Hops, kept: set<string>, k: nat, j: nat)
      requires j <= k && kept !! hops.Keys
      ensures Network().At(Network().Extended(hops, kept, k + 1), j) == Network().At(hops, j)
    {
    }

    lemma ExtendedAt(scores: Scores, pending: map<string, real>, kept: set<string>, k: nat, j: nat)
      requires kept <= pending.Keys && kept !! scores.Keys && j <= k
      ensures Network().At(HopsOf(Extended(scores, pending, kept, k + 1)), j) == Network().At(HopsOf(scores), j)
    {
      hide Extended;
      ExtendedHops(scores, pending, kept, k + 1);
      AtIsStable(HopsOf(scores), kept, k, j);
    }

    lemma PredecessorIsStable(hops: Hops, kept: set<string>, k: nat, n: string)
      requires Network().HasPredecessor(hops, n) && kept !! hops.Keys
      ensures Network().HasPredecessor(Network().Extended(hops, kept, k + 1), n)
    {
      var f :| Network().Precedes(hops, f, n);
      assert Network().Precedes(Network().Extended(hops, kept, k + 1), f, n);
    }

    lemma NewHasPredecessor(hops: Hops, kept: set<string>, k: nat, n: string)
      requires n in kept && n in Network().Next(Network().At(hops, k)) && kept !! hops.Keys
      ensures Network().HasPredecessor(Network().Extended(hops, kept, k + 1), n)
    {
      Network().InNext(Network().At(hops, k), n);
      var f :| f in Network().At(hops, k) && Network().Linked(f, n);
      assert Network().Precedes(Network().Extended(hops, kept, k + 1), f, n);
    }

    lemma HopKeepsGreedy(scores: Scores, pending: map<string, real>, kept: set<string>, k: nat)
      requires Greedy(scores) && Found(scores, pending, k) && kept <= pending.Keys
      requires forall a, b :: a in kept && b in pending.Keys - kept ==> pending[a] >= pending[b]
      requires forall n :: n in scores ==> scores[n].hop <= k
      ensures Greedy(Extended(scores, pending, kept, k + 1))
    {
      var s := Extended(scores, pending, kept, k + 1);
      forall m, n ensures Outscores(s, m, n) {
        if m in s && PassedOver(s, n, s[m].hop) {
          if m in kept {
            NewOutscores(scores, pending, kept, k, m, n);
          } else {
            OldOutscores(scores, pending, kept, k, m, n);
          }
        }
      }
    }

    lemma NewOutscores(
      scores: Scores, pending: map<string, real>, kept: set<string>, k: nat, m: string, n: string)
      requires Found(scores, pending, k) && kept <= pending.Keys && m in kept
      requires forall b :: b in pending.Keys - kept ==> pending[m] >= pending[b]
      requires forall n :: n in scores ==> scores[n].hop <= k
      requires PassedOver(Extended(scores, pending, kept, k + 1), n, k + 1)
      ensures Outscores(Extended(scores, pending, kept, k + 1), m, n)
    {
      hide HopScore, Similarity, LinksFrom, Net.Next, Net.At;
      var s := Extended(scores, pending, kept, k + 1);
      ExtendedAt(scores, pending, kept, k, k);
      assert n !in s && n in pending.Keys - kept;
    }

    lemma OldOutscores(
      scores: Scores, pending: map<string, real>, kept: set<string>, k: nat, m: string, n: string)
      requires Greedy(scores) && kept <= pending.Keys && m in scores && kept !! scores.Keys
      requires scores[m].hop <= k && PassedOver(Extended(scores, pending, kept, k + 1), n, scores[m].hop)
      ensures Outscores(Extended(scores, pending, kept, k + 1), m, n)
    {
      hide HopScore, Similarity, LinksFrom, Net.Next, Net.At;
      var s, h := Extended(scores, pending, kept, k + 1), scores[m].hop;
      assert Outscores(scores, m, n);
      if h > 0 {
        ExtendedAt(scores, pending, kept, k, h - 1);
      }
    }

    lemma HopKeepsExplained(scores: Scores, pending: map<string, real>, kept: set<string>, k: nat)
      requires Explained(scores) && Found(scores, pending, k) && kept <= pending.Keys
      requires forall n :: n in scores ==> scores[n].hop <= k
      ensures Explained(Extended(scores, pending, kept, k + 1))
    {
      var s := Extended(scores, pending, kept, k + 1);
      var hops := HopsOf(scores);
      ExtendedHops(scores, pending, kept, k + 1);
      forall n | n in s ensures Justified(s, n) {
        if n in kept {
          AtIsStable(hops, kept, k, k);
          NewHasPredecessor(hops, kept, k, n);
        } else {
          assert Justified(scores, n);
          AtIsStable(hops, kept, k, scores[n].hop - 1);
          PredecessorIsStable(hops, kept, k, n);
        }
      }
    }
  }

  /** r is pending after r[n] += amount for each of the given files; absent entries count as zero. */
  ghost predicate Raised(pending: map<string, real>, r: map<string, real>, files: set<string>, amount: real) {
    && (forall n :: n in r <==> n in pending || n in files)
    && (forall n :: n in r && n in files ==> r[n] == (if n in pending then pending[n] else 0.0) + amount)
    && (forall n :: n in r && n !in files ==> r[n] == pending[n])
  }

  ghost predicate SortedBy(m: map<string, real>, ks: seq<string>) {
    && (forall i :: 0 <= i < |ks| ==> ks[i] in m)
    && forall i, j :: 0 <= i < j < |ks| ==> m[ks[i]] >= m[ks[j]]
  }

  /** kept are n of the highest-valued keys; ties may fall either way. */
  ghost predicate IsTop(m: map<string, real>, kept: set<string>, n: nat) {
    && kept <= m.Keys
    && |kept| == (if |m| <= n then |m| else n)
    && forall a, b :: a in kept && b in m.Keys - kept ==> m[a] >= m[b]
  }

  ghost predicate Listed(out: seq<RelatedFile>, n: string) {
    exists i :: 0 <= i < |out| && out[i].path == n
  }

  /** out lists the best-scored files first, at most limit of them if limit is positive. */
  ghost predicate Ranked(scores: Scores, out: seq<RelatedFile>, limit: int) {
    && |out| == (if 0 < limit < |scores| then limit else |scores|)
    && (forall i :: 0 <= i < |out| ==>
          out[i].path in scores
          && scores[out[i].path] == ScoringResult(out[i].score, out[i].hopDistance, out[i].cosineSim))
    && (forall i, j :: 0 <= i < j < |out| ==> out[i].path != out[j].path && out[i].score >= out[j].score)
    && (forall n, i :: n in scores && !Listed(out, n) && 0 <= i < |out| ==> scores[n].score <= out[i].score)
  }

  lemma DivideAndMultiply(x: real, d: real)
    requires d > 0.0
    ensures x / d * d == x
  {
  }

  lemma OneMoreTerm(a: real, b: real, x: real, y: real, d: real)
    requires a * d == x && b * d == y
    ensures (a + b) * d == x + y
  {
  }
}

// Merging the outputs of harvesters that run concurrently: results arrive in any
// order, are sorted by priority, and later ones overwrite earlier ones.
module Harvest {
  import opened Priorities
  import opened Overlay

  datatype Harvested = Harvested(priority: int, meta: Fields)

  const HARVEST: View<Harvested> := View((r: Harvested) => r.priority, (r: Harvested) => r.meta)

  /** merged has exactly the keys that arrived, each with the value of a result that
      has it and that no other result with it surpasses in priority. */
  ghost predicate HighestWin(arrived: seq<Harvested>, merged: Fields) {
    && (forall key :: key in merged <==> exists r :: r in arrived && key in r.meta)
    && forall key :: key in merged ==> exists r :: Highest(arrived, r, key) && merged[key] == r.meta[key]
  }

  ghost predicate Highest(arrived: seq<Harvested>, r: Harvested, key: string) {
    r in arrived && key in r.meta && forall q :: q in arrived && key in q.meta ==> q.priority <= r.priority
  }

  /** runAndMerge on the results in the order they came through the channel. */
  method RunAndMerge(arrived: seq<Harvested>) returns (merged: Fields)
    ensures exists sorted :: Arrangement(arrived, sorted, HARVEST.rank) && merged == Merge(HARVEST, sorted)
    ensures HighestWin(arrived, merged)
  {
    if |arrived| == 0 {
      assert Arrangement(arrived, [], HARVEST.rank);
      return map[];
    }
    var results := Sort(arrived, HARVEST.rank);
    merged := map[];
    for i := 0 to |results|
      invariant merged == Merge(HARVEST, results[..i])
    {
      assert results[..i + 1][..i] == results[..i];
      merged := merged + results[i].meta;
    }
    assert results[..|results|] == results;
    forall key
      ensures key in merged <==> exists r :: r in arrived && key in r.meta
      ensures key in merged ==> exists r :: Highest(arrived, r, key) && merged[key] == r.meta[key]
    {
      WinnerPrevails(HARVEST, arrived, results, key);
      assert forall r :: Produces(HARVEST, r, key) <==> key in r.meta;
      if key in merged {
        var r :| Wins(HARVEST, arrived, r, key) && merged[key] == HARVEST.fields(r)[key];
        WinnerRanksHighest(arrived, r, key);
      }
    }
  }

  /** Winning is having the key at the highest priority. */
  lemma WinnerRanksHighest(arrived: seq<Harvested>, r: Harvested, key: string)
    ensures Wins(HARVEST, arrived, r, key) <==> Highest(arrived, r, key)
  {
    assert forall q :: Produces(HARVEST, q, key) <==> key in q.meta;
    assert forall q :: HARVEST.rank(q) == q.priority;
  }

  /** Every completion order, and every way the sort may place equals, gives one
      and the same map, when harvesters that share an output key differ in priority. */
  lemma DistinctPrioritiesSuffice(results: seq<Harvested>, arrived: seq<Harvested>, m: Fields, n: Fields)
    requires forall key, q, r :: q in results && r in results && q != r && key in q.meta && key in r.meta ==>
               q.priority != r.priority
    requires multiset(arrived) == multiset(results)
    requires HighestWin(results, m) && HighestWin(arrived, n)
    ensures m == n
  {
    SameElements(results, arrived);
    forall key ensures key in m <==> key in n
               ensures key in m ==> m[key] == n[key]
    {
      hide Highest;
      if key in m && key in n {
        var r :| Highest(results, r, key) && m[key] == r.meta[key];
        var q :| Highest(arrived, q, key) && n[key] == q.meta[key];
        SameHighest(results, arrived, r, q, key);
      }
    }
  }

  lemma SameHighest(results: seq<Harvested>, arrived: seq<Harvested>, r: Harvested, q: Harvested, key: string)
    requires forall x :: x in results <==> x in arrived
    requires forall x, y :: x in results && y in results && x != y && key in x.meta && key in y.meta ==>
               x.priority != y.priority
    requires Highest(results, r, key) && Highest(arrived, q, key)
    ensures r == q
  {
  }
}

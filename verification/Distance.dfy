// Distance in a graph of files, and how a breadth-first search that may cut a
// level short relates to it.
module Distance {
  import opened TagRelation

  /** The hop at which each file was first reached. */
  type Hops = map<string, nat>

  datatype Net = Net(links: map<string, set<string>>, seed: string) {

    ghost predicate Linked(f: string, g: string) {
      f in links && g in links[f]
    }

    ghost function Next(files: set<string>): set<string> {
      set f, g | f in files && f in links && g in links[f] :: g
    }

    lemma InNext(files: set<string>, g: string)
      ensures g in Next(files) <==> exists f :: f in files && Linked(f, g)
    {
    }

    /** The files at most k hops from the seed. */
    ghost function Ball(k: nat): set<string> {
      if k == 0 then {seed} else Ball(k - 1) + Next(Ball(k - 1))
    }

    /** The files exactly k hops from the seed. */
    ghost function Level(k: nat): set<string> {
      if k == 0 then {seed} else Ball(k) - Ball(k - 1)
    }

    /** c is a walk from the seed to n. */
    ghost predicate Walk(c: seq<string>, n: string) {
      && c != [] && c[|c| - 1] == n
      && if |c| == 1 then n == seed else Linked(c[|c| - 2], n) && Walk(c[..|c| - 1], c[|c| - 2])
    }

    ghost predicate AtDistance(hops: Hops, n: string) {
      n in hops && n in Level(hops[n])
    }

    /** Exactly the files within maxHops are reached, each at its true distance. */
    ghost predicate Complete(hops: Hops, maxHops: nat) {
      && hops.Keys == Ball(maxHops) - {seed}
      && forall n {:trigger AtDistance(hops, n)} :: n in hops ==> AtDistance(hops, n)
    }

    /** No level within range is wider than the cap. */
    ghost predicate Narrow(maxHops: nat, cap: int) {
      forall k :: 1 <= k <= maxHops ==> |Level(k)| <= cap
    }

    // ----- Levels measure distance -----

    lemma BallGrows(j: nat, k: nat)
      requires j <= k
      ensures Ball(j) <= Ball(k)
    {
      if j < k { BallGrows(j, k - 1); }
    }

    lemma LevelsAreDisjoint(j: nat, k: nat)
      requires j < k
      ensures Level(j) !! Level(k)
    {
      BallGrows(j, k - 1);
      assert Level(j) <= Ball(j);
    }

    /** Only the newest level can lead outside a ball. */
    lemma LevelLeadsOut(k: nat)
      ensures Level(k + 1) == Next(Level(k)) - Ball(k)
    {
      forall g | g in Next(Ball(k)) ensures g in Ball(k) || g in Next(Level(k)) {
        InNext(Ball(k), g);
        var f :| f in Ball(k) && Linked(f, g);
        if f !in Level(k) {
          InNext(Ball(k - 1), g);
        }
      }
    }

    /** Once a level is empty the ball has stopped growing. */
    lemma {:induction false} EmptyLevelEnds(k: nat, m: nat)
      requires k > 0 && Level(k) == {} && k - 1 <= m
      ensures Ball(m) == Ball(k - 1)
      decreases m
    {
      hide Next, Level;
      EmptyLevelIsClosed(k);
      if m >= k {
        EmptyLevelEnds(k, m - 1);
      }
    }

    lemma EmptyLevelIsClosed(k: nat)
      requires k > 0 && Level(k) == {}
      ensures Ball(k - 1) + Next(Ball(k - 1)) == Ball(k - 1)
    {
      var b, next := Ball(k - 1), Next(Ball(k - 1));
      forall x | x in next ensures x in b {
        assert x in Ball(k) && x !in Level(k);
      }
    }

    lemma LaterLevelsAreEmpty(k: nat, j: nat)
      requires 0 < k <= j && Level(k) == {}
      ensures Level(j) == {}
    {
      hide Ball;
      EmptyLevelEnds(k, j);
      EmptyLevelEnds(k, j - 1);
    }

    /** A ball is what walks of bounded length reach. */
    lemma {:induction false} BallIsWalks(k: nat, n: string)
      ensures n in Ball(k) <==> exists c :: Walk(c, n) && |c| <= k + 1
    {
      if n in Ball(k) {
        var c := WalkTo(k, n);
      }
      forall c | Walk(c, n) && |c| <= k + 1 ensures n in Ball(k) {
        WalkStaysInBall(c, n);
        BallGrows(|c| - 1, k);
      }
    }

    lemma {:induction false} WalkTo(k: nat, n: string) returns (c: seq<string>)
      requires n in Ball(k)
      ensures Walk(c, n) && |c| <= k + 1
    {
      if k == 0 {
        c := [seed];
      } else if n in Ball(k - 1) {
        c := WalkTo(k - 1, n);
      } else {
        InNext(Ball(k - 1), n);
        var f :| f in Ball(k - 1) && Linked(f, n);
        var d := WalkTo(k - 1, f);
        c := d + [n];
        assert c[..|d|] == d;
      }
    }

    lemma {:induction false} WalkStaysInBall(c: seq<string>, n: string)
      requires Walk(c, n)
      ensures n in Ball(|c| - 1)
    {
      if |c| > 1 {
        WalkStaysInBall(c[..|c| - 1], c[|c| - 2]);
      }
    }

    /** In a complete outcome a file's hop is the length of a shortest walk. */
    lemma CompleteIsShortest(hops: Hops, maxHops: nat, n: string)
      requires Complete(hops, maxHops) && n in hops
      ensures exists c :: Walk(c, n) && |c| == hops[n] + 1
      ensures forall c :: Walk(c, n) ==> |c| >= hops[n] + 1
    {
      var h := hops[n];
      assert AtDistance(hops, n) && n != seed;
      BallIsWalks(h, n);
      BallIsWalks(h - 1, n);
    }

    // ----- Every outcome is backed by walks -----

    /** f was reached one hop before n and is linked to it. */
    ghost predicate Precedes(hops: Hops, f: string, n: string)
      requires n in hops
    {
      && hops[n] > 0 && Linked(f, n)
      && if hops[n] == 1 then f == seed else f in hops && hops[f] == hops[n] - 1
    }

    ghost predicate HasPredecessor(hops: Hops, n: string) {
      n in hops && exists f :: Precedes(hops, f, n)
    }

    ghost predicate Rooted(hops: Hops) {
      forall n {:trigger HasPredecessor(hops, n)} :: n in hops ==> HasPredecessor(hops, n)
    }

    /** Each file reached has a walk whose i-th file was reached at hop i, so its
        hop is never below its true distance. */
    lemma {:induction false} RootedHasWalk(hops: Hops, n: string) returns (c: seq<string>)
      requires Rooted(hops) && n in hops
      ensures Walk(c, n) && |c| == hops[n] + 1
      ensures c[0] == seed && forall i :: 0 < i < |c| ==> c[i] in hops && hops[c[i]] == i
      decreases hops[n]
    {
      assert HasPredecessor(hops, n);
      var f :| Precedes(hops, f, n);
      var d := [seed];
      if hops[n] > 1 {
        d := RootedHasWalk(hops, f);
      }
      c := d + [n];
      assert c[..|d|] == d;
    }

    // ----- A search that may cut levels -----

    /** After hop k the search has seen exactly the ball of radius k. */
    ghost predicate OnTrack(hops: Hops, k: nat) {
      Complete(hops, k) && forall n :: n in hops ==> 0 < hops[n] <= k
    }

    /** The cap has cut w from the level it belongs to. */
    ghost predicate CutAt(hops: Hops, d: nat, w: string, cap: int) {
      && d > 0 && |Level(d)| > cap && w in Level(d)
      && (w in hops ==> hops[w] > d)
    }

    ghost predicate Derailed(hops: Hops, k: nat, cap: int) {
      exists d, w :: 1 <= d <= k && CutAt(hops, d, w, cap)
    }

    lemma OnTrackStart()
      ensures OnTrack(map[], 0)
    {
    }

    lemma SeedIsInBall(k: nat)
      ensures seed in Ball(k)
    {
      BallGrows(0, k);
    }

    lemma OnTrackIsComplete(hops: Hops, k: nat, maxHops: nat, cap: int)
      requires OnTrack(hops, k) && Narrow(k, cap) && cap > 0 && k <= maxHops
      requires k == maxHops || Level(k + 1) == {}
      ensures Complete(hops, maxHops) && Narrow(maxHops, cap)
    {
      if k < maxHops {
        EmptyLevelEnds(k + 1, maxHops);
        forall j | k < j <= maxHops ensures |Level(j)| <= cap {
          LaterLevelsAreEmpty(k + 1, j);
        }
      }
    }

    lemma DerailedIsIncomplete(hops: Hops, k: nat, maxHops: nat, cap: int)
      requires Derailed(hops, k, cap) && k <= maxHops
      ensures !Complete(hops, maxHops) && !Narrow(maxHops, cap)
    {
      var d, w :| 1 <= d <= k && CutAt(hops, d, w, cap);
      BallGrows(d, maxHops);
      LevelsAreDisjoint(0, d);
      if Complete(hops, maxHops) {
        assert AtDistance(hops, w);
        LevelsAreDisjoint(d, hops[w]);
        assert false;
      }
    }

    /** hops after hop k + 1 has kept some of the files it found. */
    ghost function Extended(hops: Hops, kept: set<string>, hop: nat): Hops {
      hops + map n | n in kept :: hop
    }

    ghost function At(hops: Hops, hop: nat): set<string> {
      if hop == 0 then {seed} else set n | n in hops && hops[n] == hop
    }

    lemma LevelIsAt(hops: Hops, k: nat)
      requires OnTrack(hops, k)
      ensures At(hops, k) == Level(k)
    {
      if k > 0 {
        forall n | n in Level(k) ensures n in At(hops, k) {
          LevelsAreDisjoint(0, k);
          assert AtDistance(hops, n);
          if hops[n] < k { LevelsAreDisjoint(hops[n], k); }
        }
        forall n | n in At(hops, k) ensures n in Level(k) {
          assert AtDistance(hops, n);
        }
      }
    }

    /** What a hop finds when nothing has been cut before it. */
    lemma OnTrackFindsLevel(hops: Hops, k: nat, found: set<string>)
      requires OnTrack(hops, k)
      requires found == Next(At(hops, k)) - hops.Keys - {seed}
      ensures found == Level(k + 1)
    {
      LevelIsAt(hops, k);
      LevelLeadsOut(k);
      SeedIsInBall(k);
    }

    lemma WholeLevelFillsBall(hops: Hops, k: nat)
      requires hops.Keys == Ball(k) - {seed}
      ensures Extended(hops, Level(k + 1), k + 1).Keys == Ball(k + 1) - {seed}
    {
      var level := Level(k + 1);
      assert seed in Ball(k) && seed !in level by {
        SeedIsInBall(k);
      }
      assert Ball(k + 1) == Ball(k) + level by {
        BallGrows(k, k + 1);
      }
    }

    lemma WholeLevelKeepsTrack(hops: Hops, k: nat)
      requires OnTrack(hops, k)
      ensures OnTrack(Extended(hops, Level(k + 1), k + 1), k + 1)
    {
      var s := Extended(hops, Level(k + 1), k + 1);
      WholeLevelFillsBall(hops, k);
      forall n | n in s ensures AtDistance(s, n) {
        if n !in Level(k + 1) { assert AtDistance(hops, n); }
      }
    }

    lemma CutDerails(hops: Hops, kept: set<string>, k: nat, cap: int)
      requires OnTrack(hops, k)
      requires kept <= Level(k + 1) && |kept| <= cap < |Level(k + 1)|
      ensures Derailed(Extended(hops, kept, k + 1), k + 1, cap)
    {
      var level := Level(k + 1);
      assert level - kept != {} by {
        assert kept == level - (level - kept);
      }
      var w :| w in level - kept;
      assert w !in Ball(k);
      assert CutAt(Extended(hops, kept, k + 1), k + 1, w, cap);
    }

    /** The invariant of the search: nothing cut so far, or something cut for good. */
    ghost predicate Progress(hops: Hops, k: nat, cap: int) {
      (OnTrack(hops, k) && Narrow(k, cap)) || Derailed(hops, k, cap)
    }

    lemma HopKeepsDerailed(hops: Hops, kept: set<string>, k: nat, cap: int)
      requires Derailed(hops, k, cap)
      ensures Derailed(Extended(hops, kept, k + 1), k + 1, cap)
    {
      var d, w :| 1 <= d <= k && CutAt(hops, d, w, cap);
      assert CutAt(Extended(hops, kept, k + 1), d, w, cap);
    }

    lemma HopKeepsTrack(hops: Hops, kept: set<string>, k: nat, cap: int)
      requires OnTrack(hops, k) && Narrow(k, cap)
      requires kept <= Level(k + 1) && |kept| == if |Level(k + 1)| <= cap then |Level(k + 1)| else cap
      ensures Progress(Extended(hops, kept, k + 1), k + 1, cap)
    {
      if |Level(k + 1)| <= cap {
        SubsetSize(kept, Level(k + 1));
        WholeLevelKeepsTrack(hops, k);
      } else {
        CutDerails(hops, kept, k, cap);
      }
    }

    lemma HopKeepsProgress(hops: Hops, found: set<string>, kept: set<string>, k: nat, cap: int)
      requires Progress(hops, k, cap) && cap > 0
      requires found == Next(At(hops, k)) - hops.Keys - {seed}
      requires kept <= found && |kept| == if |found| <= cap then |found| else cap
      ensures Progress(Extended(hops, kept, k + 1), k + 1, cap)
    {
      if Derailed(hops, k, cap) {
        HopKeepsDerailed(hops, kept, k, cap);
      } else {
        OnTrackFindsLevel(hops, k, found);
        HopKeepsTrack(hops, kept, k, cap);
      }
    }

    /** When the search ends it is complete exactly if no level was too wide. */
    lemma ProgressDecides(hops: Hops, k: nat, maxHops: nat, cap: int)
      requires Progress(hops, k, cap) && cap > 0 && k <= maxHops
      requires k == maxHops || Next(At(hops, k)) - hops.Keys - {seed} == {}
      ensures Complete(hops, maxHops) <==> Narrow(maxHops, cap)
    {
      if Derailed(hops, k, cap) {
        DerailedIsIncomplete(hops, k, maxHops, cap);
      } else {
        OnTrackFindsLevel(hops, k, Next(At(hops, k)) - hops.Keys - {seed});
        OnTrackIsComplete(hops, k, maxHops, cap);
      }
    }

    // ----- How much each hop keeps -----

    /** What hop h has in reach: the files next to those of the hop before that no
        earlier hop has reached. */
    ghost function InReach(hops: Hops, h: nat): set<string>
      requires h > 0
    {
      Next(At(hops, h - 1)) - (set n | n in hops && hops[n] < h) - {seed}
    }

    /** Hop h keeps all it has in reach, or as many as the cap allows. */
    ghost predicate FilledAt(hops: Hops, h: nat, cap: int)
      requires h > 0
    {
      At(hops, h) <= InReach(hops, h)
      && |At(hops, h)| == if |InReach(hops, h)| <= cap then |InReach(hops, h)| else cap
    }

    ghost predicate Filled(hops: Hops, k: nat, cap: int) {
      forall h :: 1 <= h <= k ==> FilledAt(hops, h, cap)
    }

    /** The search went on for k hops, each filled to the cap, and ended because the
        range was exhausted or nothing new was in reach. */
    ghost predicate WentOn(hops: Hops, k: nat, maxHops: nat, cap: int) {
      && k <= maxHops && Filled(hops, k, cap) && (forall n :: n in hops ==> hops[n] <= k)
      && (k == maxHops || InReach(hops, k + 1) == {})
    }

    /** Later hops change nothing about earlier ones. */
    lemma EarlierHopsStay(hops: Hops, kept: set<string>, k: nat, h: nat)
      requires kept !! hops.Keys && h <= k + 1
      ensures h <= k ==> At(Extended(hops, kept, k + 1), h) == At(hops, h)
      ensures h > 0 ==> InReach(Extended(hops, kept, k + 1), h) == InReach(hops, h)
    {
      hide Next;
      var more := Extended(hops, kept, k + 1);
      assert forall n :: n in more && more[n] < k + 1 <==> n in hops && hops[n] < k + 1;
      if h > 0 {
        assert At(more, h - 1) == At(hops, h - 1);
        assert (set n | n in more && more[n] < h) == set n | n in hops && hops[n] < h;
      }
    }

    lemma NewestHop(hops: Hops, kept: set<string>, k: nat)
      requires forall n :: n in hops ==> hops[n] <= k
      ensures At(Extended(hops, kept, k + 1), k + 1) == kept
      ensures InReach(hops, k + 1) == Next(At(hops, k)) - hops.Keys - {seed}
    {
      hide Next;
      assert (set n | n in hops && hops[n] < k + 1) == hops.Keys;
    }

    lemma HopKeepsFilled(hops: Hops, found: set<string>, kept: set<string>, k: nat, cap: int)
      requires Filled(hops, k, cap) && forall n :: n in hops ==> hops[n] <= k
      requires found == Next(At(hops, k)) - hops.Keys - {seed}
      requires kept <= found && |kept| == if |found| <= cap then |found| else cap
      ensures Filled(Extended(hops, kept, k + 1), k + 1, cap)
    {
      hide Next, At, InReach, Extended, FilledAt;
      var more := Extended(hops, kept, k + 1);
      assert kept !! hops.Keys;
      forall h | 1 <= h <= k + 1 ensures FilledAt(more, h, cap) {
        if h <= k {
          EarlierStaysFilled(hops, kept, k, h, cap);
        } else {
          NewestIsFilled(hops, found, kept, k, cap);
        }
      }
    }

    lemma EarlierStaysFilled(hops: Hops, kept: set<string>, k: nat, h: nat, cap: int)
      requires kept !! hops.Keys && 1 <= h <= k && FilledAt(hops, h, cap)
      ensures FilledAt(Extended(hops, kept, k + 1), h, cap)
    {
      hide At, InReach, Extended;
      EarlierHopsStay(hops, kept, k, h);
    }

    lemma NewestIsFilled(hops: Hops, found: set<string>, kept: set<string>, k: nat, cap: int)
      requires kept !! hops.Keys && forall n :: n in hops ==> hops[n] <= k
      requires found == Next(At(hops, k)) - hops.Keys - {seed}
      requires kept <= found && |kept| == if |found| <= cap then |found| else cap
      ensures FilledAt(Extended(hops, kept, k + 1), k + 1, cap)
    {
      hide Next, At, InReach, Extended;
      NewestHop(hops, kept, k);
      EarlierHopsStay(hops, kept, k, k + 1);
    }
  }
}

// Stable inode numbers: a hash of the real path, with further probes when the
// number is taken. Two maps, kept inverse to each other, hold the assignments.
module Inodes {
  import opened TagRelation

  class InodeTable {
    var inoMap: map<string, nat>    // real path -> inode
    var inoUsed: map<nat, string>   // inode -> real path
    const hash: string -> nat       // FNV-64a

    ghost predicate Valid()
      reads this
    {
      && (forall p :: p in inoMap ==> inoMap[p] != 0 && inoMap[p] in inoUsed && inoUsed[inoMap[p]] == p)
      && (forall i :: i in inoUsed ==> inoUsed[i] in inoMap && inoMap[inoUsed[i]] == i)
    }

    constructor (hash: string -> nat)
      ensures Valid() && inoMap == map[] && inoUsed == map[] && this.hash == hash
    {
      inoMap, inoUsed, this.hash := map[], map[], hash;
    }

    function HashOf(s: string): (ino: nat)
      ensures ino != 0
    {
      if hash(s) == 0 then 1 else hash(s)
    }

    ghost function Padded(path: string, k: nat): string {
      path + seq(k, _ => '\0')
    }

    /** The k-th number tried for a path: the hash of the path with k zero bytes behind
        it, or 1 for a hash of 0. */
    ghost function Probe(path: string, k: nat): nat {
      var h := hash(Padded(path, k));
      if h == 0 then 1 else h
    }

    ghost function Probes(path: string, n: nat): set<nat> {
      set k | 0 <= k < n :: Probe(path, k)
    }

    ghost predicate HasFree(path: string)
      reads this
    {
      exists k :: Probe(path, k) !in inoUsed
    }

    ghost predicate FirstFree(used: set<nat>, path: string, k: nat) {
      Probe(path, k) !in used && forall j :: 0 <= j < k ==> Probe(path, j) in used
    }

    /** The probes of each path take enough different values to find room for all. */
    ghost predicate ProbesSuffice(paths: seq<string>)
      reads this
    {
      forall i :: 0 <= i < |paths| ==> exists n: nat :: |Probes(paths[i], n)| > |inoUsed| + |paths|
    }

    /** Pigeonhole: probes that take more different values than are in use reach a free one. */
    lemma ManyProbesReachFree(path: string, n: nat)
      requires |Probes(path, n)| > |inoUsed|
      ensures HasFree(path)
    {
      assert |inoUsed.Keys| == |inoUsed|;
      if Probes(path, n) <= inoUsed.Keys {
        SubsetSize(Probes(path, n), inoUsed.Keys);
      }
      var ino :| ino in Probes(path, n) && ino !in inoUsed;
      var k :| 0 <= k < n && Probe(path, k) == ino;
    }

    /** Returns the number a path already has, or gives it the first free one of
        its probes. The search ends only if there is a free one. */
    method AllocInode(realPath: string) returns (ino: nat)
      requires Valid() && (realPath in inoMap || HasFree(realPath))
      modifies this`inoMap, this`inoUsed
      ensures Valid() && realPath in inoMap && ino == inoMap[realPath]
      ensures realPath in old(inoMap) ==> inoMap == old(inoMap) && inoUsed == old(inoUsed)
      ensures realPath !in old(inoMap) ==>
                && (exists k :: FirstFree(old(inoUsed).Keys, realPath, k) && ino == Probe(realPath, k))
                && inoMap == old(inoMap)[realPath := ino] && inoUsed == old(inoUsed)[ino := realPath]
    {
      if realPath in inoMap {
        return inoMap[realPath];
      }
      ghost var free: nat :| Probe(realPath, free) !in inoUsed;
      ghost var k: nat := 0;
      assert Padded(realPath, 0) == realPath;
      ino := HashOf(realPath);
      var probe := realPath;
      while ino in inoUsed && inoUsed[ino] != realPath
        invariant k <= free
        invariant probe == Padded(realPath, k) && ino == Probe(realPath, k)
        invariant forall j :: 0 <= j < k ==> Probe(realPath, j) in inoUsed
        decreases free - k
      {
        assert Padded(realPath, k + 1) == probe + ['\0'];
        probe := probe + ['\0'];
        ino := HashOf(probe);
        k := k + 1;
      }
      assert ino !in inoUsed;
      assert FirstFree(inoUsed.Keys, realPath, k);
      inoMap := inoMap[realPath := ino];
      inoUsed := inoUsed[ino := realPath];
    }

    /** Any run of requests: equal numbers mean equal paths, no number is 0, and
        no assignment made before or during the run is ever changed. */
    method AllocAll(paths: seq<string>) returns (inos: seq<nat>)
      requires Valid() && ProbesSuffice(paths)
      modifies this`inoMap, this`inoUsed
      ensures Valid() && |inos| == |paths|
      ensures forall i, j :: 0 <= i < |paths| && 0 <= j < |paths| ==> (inos[i] == inos[j] <==> paths[i] == paths[j])
      ensures forall i :: 0 <= i < |paths| ==> inos[i] != 0 && paths[i] in inoMap && inoMap[paths[i]] == inos[i]
      ensures forall p :: p in old(inoMap) ==> p in inoMap && inoMap[p] == old(inoMap)[p]
    {
      inos := [];
      for i := 0 to |paths|
        invariant Valid() && |inos| == i
        invariant |inoUsed| <= |old(inoUsed)| + i
        invariant forall j :: 0 <= j < i ==> paths[j] in inoMap && inoMap[paths[j]] == inos[j]
        invariant forall p :: p in old(inoMap) ==> p in inoMap && inoMap[p] == old(inoMap)[p]
      {
        ghost var n: nat :| |Probes(paths[i], n)| > |old(inoUsed)| + |paths|;
        ManyProbesReachFree(paths[i], n);
        var ino := AllocInode(paths[i]);
        inos := inos + [ino];
      }
      forall i, j | 0 <= i < |paths| && 0 <= j < |paths| ensures inos[i] == inos[j] <==> paths[i] == paths[j] {
        assert inoUsed[inos[i]] == paths[i] && inoUsed[inos[j]] == paths[j];
      }
    }
  }
}

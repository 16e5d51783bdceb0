// The cache of one virtual directory: how a query result becomes named entries
// with inode numbers.
module DirCache {
  import opened Options
  import opened TagRelation
  import opened EntryNames
  import opened Inodes

  const QUERY_CACHE_TTL := 30

  datatype Entry = Entry(name: string, realPath: string, ino: nat)

  function Get(counts: map<string, nat>, key: string): nat {
    if key in counts then counts[key] else 0
  }

  /** The counter map has counted the basenames of these paths. */
  ghost predicate Counts(counts: map<string, nat>, paths: seq<string>) {
    forall b :: Get(counts, b) == CountBase(paths, b)
  }

  lemma CountsOneMore(counts: map<string, nat>, paths: seq<string>, i: nat)
    requires i < |paths| && Counts(counts, paths[..i])
    ensures var b := Base(paths[i]); Counts(counts[b := Get(counts, b) + 1], paths[..i + 1])
  {
    hide Base;
    var base := Base(paths[i]);
    assert paths[..i + 1][..i] == paths[..i];
    var counts' := counts[base := Get(counts, base) + 1];
    forall b ensures Get(counts', b) == CountBase(paths[..i + 1], b) {
      assert Get(counts, b) == CountBase(paths[..i], b);
    }
  }

  /** entryName: counts the basename as seen and numbers it if it is shared. */
  method EntryName(paths: seq<string>, i: nat, counts: map<string, nat>, seen: map<string, nat>)
    returns (name: string, seen': map<string, nat>)
    requires i < |paths| < INT64_LIMIT && Counts(counts, paths) && Counts(seen, paths[..i])
    ensures name == NameAt(paths, i) && Counts(seen', paths[..i + 1])
  {
    hide Base, Ext;
    var base := Base(paths[i]);
    assert Get(counts, base) == CountBase(paths, base) && Get(seen, base) == CountBase(paths[..i], base);
    CountsOneMore(seen, paths, i);
    seen' := seen[base := Get(seen, base) + 1];
    if Get(counts, base) <= 1 {
      return base, seen';
    }
    CountIsBounded(paths[..i], base);
    var number := IntStr(seen'[base] - 1);
    var ext := Ext(base);
    name := Stem(base) + "_" + number + ext;
  }

  lemma {:induction false} CountIsBounded(paths: seq<string>, base: string)
    ensures CountBase(paths, base) <= |paths|
  {
    hide Base;
    if paths != [] { CountIsBounded(paths[..|paths| - 1], base); }
  }

  class TagCache {
    var entries: seq<Entry>
    var byName: Option<map<string, nat>>
    var expiry: int

    predicate IsFresh(now: int)
      reads this
    {
      byName.Some? && now < expiry
    }

    /** If there is a name index, it is that of the entries. */
    ghost predicate Valid()
      reads this
    {
      byName.Some? ==> IndexOf(entries, byName.value)
    }

    /** The file listed last under a name, or nothing if there is none or no name index. */
    function RealPathOf(name: string): (path: string)
      requires Valid()
      reads this
      ensures byName.None? || (forall i :: 0 <= i < |entries| ==> entries[i].name != name) ==> path == ""
      ensures forall i | 0 <= i < |entries| ::
                byName.Some? && entries[i].name == name
                && (forall j :: i < j < |entries| ==> entries[j].name != name) ==>
                  path == entries[i].realPath
    {
      if byName.Some? && name in byName.value then entries[byName.value[name]].realPath else ""
    }

    constructor ()
      ensures Valid() && entries == [] && forall now :: !IsFresh(now)
    {
      entries, byName, expiry := [], None, 0;
    }

    /** One entry for each result, in order, under its listing name and its inode. */
    method Fill(results: seq<string>, inodes: InodeTable, now: int)
      requires inodes.Valid() && inodes.ProbesSuffice(results) && |results| < INT64_LIMIT
      modifies this, inodes`inoMap, inodes`inoUsed
      ensures inodes.Valid() && |entries| == |results|
      ensures forall i :: 0 <= i < |results| ==>
                && entries[i].name == NameAt(results, i) && entries[i].realPath == results[i]
                && results[i] in inodes.inoMap && entries[i].ino == inodes.inoMap[results[i]]
      ensures Valid() && forall t :: IsFresh(t) <==> t < now + 30
    {
      var inos := inodes.AllocAll(results);
      var built, index := BuildEntries(results, inos);
      entries, byName, expiry := built, Some(index), now + QUERY_CACHE_TTL;
    }

    /** Whatever the time, the cache answers no lookup until it is filled again;
        what is listed stays. */
    method Invalidate()
      modifies this`byName
      ensures Valid() && (forall now :: !IsFresh(now)) && (forall name :: RealPathOf(name) == "")
      ensures entries == old(entries)
    {
      byName := None;
    }
  }

  /** The index leads from every listed name to the last entry that bears it. */
  ghost predicate IndexOf(entries: seq<Entry>, index: map<string, nat>) {
    && (forall i :: 0 <= i < |entries| ==> entries[i].name in index)
    && (forall n :: n in index ==>
          var i := index[n];
          i < |entries| && entries[i].name == n && forall j :: i < j < |entries| ==> entries[j].name != n)
  }

  method BuildEntries(results: seq<string>, inos: seq<nat>) returns (built: seq<Entry>, index: map<string, nat>)
    requires |inos| == |results| < INT64_LIMIT
    ensures |built| == |results| && IndexOf(built, index)
    ensures forall i :: 0 <= i < |results| ==> built[i] == Entry(NameAt(results, i), results[i], inos[i])
  {
    hide NameAt, IndexOf, Counts;
    var nameCounts := CountNames(results);
    var seen: map<string, nat> := map[];
    built, index := [], map[];
    NothingCounted(results);
    for i := 0 to |results|
      invariant |built| == i && Counts(seen, results[..i]) && IndexOf(built, index)
      invariant forall j :: 0 <= j < i ==> built[j] == Entry(NameAt(results, j), results[j], inos[j])
    {
      var name;
      name, seen := EntryName(results, i, nameCounts, seen);
      IndexOneMore(built, index, Entry(name, results[i], inos[i]));
      built := built + [Entry(name, results[i], inos[i])];
      index := index[name := i];
    }
  }

  lemma NothingCounted(paths: seq<string>)
    ensures Counts(map[], paths[..0]) && IndexOf([], map[])
  {
  }

  lemma IndexOneMore(entries: seq<Entry>, index: map<string, nat>, e: Entry)
    requires IndexOf(entries, index)
    ensures IndexOf(entries + [e], index[e.name := |entries|])
  {
  }

  method CountNames(paths: seq<string>) returns (counts: map<string, nat>)
    ensures Counts(counts, paths)
  {
    hide Base;
    counts := map[];
    for i := 0 to |paths|
      invariant Counts(counts, paths[..i])
    {
      CountsOneMore(counts, paths, i);
      var base := Base(paths[i]);
      counts := counts[base := Get(counts, base) + 1];
    }
    assert paths[..|paths|] == paths;
  }
}

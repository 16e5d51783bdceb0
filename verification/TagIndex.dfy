// The relational tag index of internal/index: three tables with row ids between
// names and associations, the queries the daemon runs on them, and the
// relation they stand for.
module TagIndex {
  import opened TagRelation

  datatype SearchParams = SearchParams(
    tags: seq<string>, tagsAny: bool, tagExclude: seq<string>, untagged: bool, limit: nat)

  datatype ModifyResult = Done | NotInIndex | UnknownOperation

  const DEFAULT_SEARCH_LIMIT := 50

  datatype Tables = Tables(files: map<string, nat>, tags: map<string, nat>, fileTags: set<(nat, nat)>) {

    /** Unique names have unique ids, and no row refers to a missing file or tag. */
    ghost predicate Valid() {
      && (forall p, q :: p in files && q in files && files[p] == files[q] ==> p == q)
      && (forall s, t :: s in tags && t in tags && tags[s] == tags[t] ==> s == t)
      && (forall f, t :: (f, t) in fileTags ==> f in files.Values && t in tags.Values)
    }

    predicate Joined(id: nat, name: string) {
      name in tags && (id, tags[name]) in fileTags
    }

    /** SELECT t.name ... JOIN tags ... WHERE ft.file_id = id */
    function TagNames(id: nat): set<string> {
      set t | t in tags && Joined(id, t)
    }

    function TagsAt(path: string): set<string> {
      if path in files then TagNames(files[path]) else {}
    }

    ghost function Rel(): Relation {
      map p | p in files && TagsAt(p) != {} :: TagsAt(p)
    }

    // ----- Queries -----

    /** The distinct names among the given ones that a file's rows join to. */
    function JoinedNames(id: nat, names: seq<string>): set<string> {
      set t | t in names && Joined(id, t)
    }

    /** GROUP BY file_id HAVING COUNT(DISTINCT t.name) = length of the list. */
    predicate HasCount(id: nat, names: seq<string>) {
      names == [] || |JoinedNames(id, names)| == |names|
    }

    predicate HasAny(id: nat, names: seq<string>) {
      names == [] || JoinedNames(id, names) != {}
    }

    predicate HasNone(id: nat, names: seq<string>) {
      names == [] || JoinedNames(id, names) == {}
    }

    predicate Matches(id: nat, p: SearchParams) {
      && (if p.tagsAny then HasAny(id, p.tags) else HasCount(id, p.tags))
      && HasNone(id, p.tagExclude)
      && (p.untagged ==> forall t :: t in tags.Values ==> (id, t) !in fileTags)
    }

    /** The paths a search selects, before ORDER BY, LIMIT and OFFSET. */
    function Selected(p: SearchParams): set<string> {
      set path | path in files && Matches(files[path], p)
    }

    /** The paths under a browse level. */
    function Browse(inc: seq<string>, exc: seq<string>): set<string> {
      set path | path in files && HasCount(files[path], inc) && HasNone(files[path], exc)
    }

    function ListCooccurringTags(inc: seq<string>, exc: seq<string>): set<string> {
      set t | t in tags && t !in inc + exc
              && exists path :: path in Browse(inc, exc) && Joined(files[path], t)
    }

    // ----- What the queries mean -----

    /** The counting trick answers "has all of them" exactly for lists without
        repetition; with a repeated name no file can reach the count. */
    lemma CountMeansAll(id: nat, names: seq<string>)
      ensures HasCount(id, names) <==> Distinct(names) && Elems(names) <= TagNames(id)
    {
      var joined := JoinedNames(id, names);
      assert joined == Elems(names) * TagNames(id);
      assert joined == Elems(names) <==> Elems(names) <= TagNames(id);
      DistinctSize(names);
      SubsetSize(joined, Elems(names));
      hide Distinct, JoinedNames, TagNames, Elems;
    }

    lemma NoneMeansDisjoint(id: nat, names: seq<string>)
      ensures HasNone(id, names) <==> Elems(names) !! TagNames(id)
      ensures names != [] ==> (HasAny(id, names) <==> !(Elems(names) !! TagNames(id)))
    {
      var joined := JoinedNames(id, names);
      if joined != {} {
        var t :| t in joined;
        assert t in Elems(names) && t in TagNames(id);
      } else {
        assert forall t :: t in Elems(names) && t in TagNames(id) ==> t in joined;
      }
    }

    lemma BrowseMeaning(inc: seq<string>, exc: seq<string>, path: string)
      ensures path in Browse(inc, exc) <==>
                && path in files && Distinct(inc)
                && Elems(inc) <= TagsAt(path) && Elems(exc) !! TagsAt(path)
    {
      if path in files {
        CountMeansAll(files[path], inc);
        NoneMeansDisjoint(files[path], exc);
      }
    }

    /** Adding a tag to either side splits a browse level in two, with nothing
        lost or shared, exactly when the tag is new or there is nothing to split. */
    lemma BrowseSplits(inc: seq<string>, exc: seq<string>, tag: string)
      ensures Browse(inc + [tag], exc) !! Browse(inc, exc + [tag])
      ensures Browse(inc, exc) == Browse(inc + [tag], exc) + Browse(inc, exc + [tag])
         <==> tag !in inc || Browse(inc, exc) == {}
    {
      assert Elems(inc + [tag]) == Elems(inc) + {tag};
      assert Elems(exc + [tag]) == Elems(exc) + {tag};
      DistinctSnoc(inc, tag);
      forall path
        ensures path in Browse(inc + [tag], exc) <==>
                  path in Browse(inc, exc) && tag in TagsAt(path) && tag !in inc
        ensures path in Browse(inc, exc + [tag]) <==>
                  path in Browse(inc, exc) && tag !in TagsAt(path)
        ensures path in Browse(inc, exc) && tag in inc ==> tag in TagsAt(path)
      {
        BrowseMeaning(inc, exc, path);
        BrowseMeaning(inc + [tag], exc, path);
        BrowseMeaning(inc, exc + [tag], path);
      }
    }

    /** A tag is offered exactly when it is new and choosing it finds something. */
    lemma ListedIffOpensNonEmpty(inc: seq<string>, exc: seq<string>, tag: string)
      ensures tag in ListCooccurringTags(inc, exc) <==>
                tag !in inc && tag !in exc && Browse(inc + [tag], exc) != {}
    {
      assert Elems(inc + [tag]) == Elems(inc) + {tag};
      DistinctSnoc(inc, tag);
      forall path
        ensures path in Browse(inc + [tag], exc) <==>
                  path in Browse(inc, exc) && Joined(files[path], tag) && tag !in inc
      {
        BrowseMeaning(inc, exc, path);
        BrowseMeaning(inc + [tag], exc, path);
      }
      if tag !in inc && tag !in exc && Browse(inc + [tag], exc) != {} {
        var path :| path in Browse(inc + [tag], exc);
        assert path in Browse(inc, exc) && Joined(files[path], tag);
      }
    }

    /** With nothing included, the listing is all tags outside the exclusions
        only if each of them is on some file that survives the exclusions. */
    lemma EmptyIncludeListing(exc: seq<string>)
      ensures ListCooccurringTags([], exc) == tags.Keys - Elems(exc)
         <==> forall t :: t in tags && t !in exc ==>
                exists p :: p in files && t in TagsAt(p) && Elems(exc) !! TagsAt(p)
    {
      forall t
        ensures t in ListCooccurringTags([], exc) <==>
                  t in tags && t !in exc
                  && exists p :: p in files && t in TagsAt(p) && Elems(exc) !! TagsAt(p)
      {
        forall p ensures p in Browse([], exc) <==> p in files && Elems(exc) !! TagsAt(p) {
          BrowseMeaning([], exc, p);
        }
      }
    }
  }

  // ----- How single rows change the relation -----

  lemma NewTagChangesNothing(t: Tables, name: string, id: nat)
    requires t.Valid() && name !in t.tags && id !in t.tags.Values
    ensures t.(tags := t.tags[name := id]).Valid()
    ensures t.(tags := t.tags[name := id]).Rel() == t.Rel()
  {
    var u := t.(tags := t.tags[name := id]);
    forall f, n | (f, n) in u.fileTags ensures n in u.tags.Values {
      var m :| m in t.tags && t.tags[m] == n;
      assert u.tags[m] == n;
    }
    forall f ensures u.TagNames(f) == t.TagNames(f) {
      forall m ensures u.Joined(f, m) <==> t.Joined(f, m) {}
    }
  }

  lemma RelFromTags(t: Tables, u: Tables, path: string, own: set<string>)
    requires t.files == u.files && path in t.files
    requires forall p :: p in t.files ==> u.TagsAt(p) == if p == path then own else t.TagsAt(p)
    ensures u.Rel() == WithTags(t.Rel(), path, own)
    ensures u.TagsAt(path) == own
  {
    hide Tables.TagNames;
  }

  lemma AddRowAddsPair(t: Tables, path: string, tag: string)
    requires t.Valid() && path in t.files && tag in t.tags
    ensures var u := t.(fileTags := t.fileTags + {(t.files[path], t.tags[tag])});
            u.Valid() && u.Rel() == WithTags(t.Rel(), path, t.TagsAt(path) + {tag})
  {
    var u := t.(fileTags := t.fileTags + {(t.files[path], t.tags[tag])});
    forall p | p in t.files ensures u.TagsAt(p) == if p == path then t.TagsAt(p) + {tag} else t.TagsAt(p) {}
    RelFromTags(t, u, path, t.TagsAt(path) + {tag});
  }

  lemma RemoveRowRemovesPair(t: Tables, path: string, tag: string)
    requires t.Valid() && path in t.files && tag in t.tags
    ensures var u := t.(fileTags := t.fileTags - {(t.files[path], t.tags[tag])});
            u.Valid() && u.Rel() == WithTags(t.Rel(), path, t.TagsAt(path) - {tag})
  {
    var u := t.(fileTags := t.fileTags - {(t.files[path], t.tags[tag])});
    forall p | p in t.files ensures u.TagsAt(p) == if p == path then t.TagsAt(p) - {tag} else t.TagsAt(p) {}
    RelFromTags(t, u, path, t.TagsAt(path) - {tag});
  }

  function WithoutRows(t: Tables, id: nat): Tables {
    t.(fileTags := set r | r in t.fileTags && r.0 != id)
  }

  lemma WithoutRowsClears(t: Tables, path: string)
    requires t.Valid() && path in t.files
    ensures var u := WithoutRows(t, t.files[path]);
            u.Valid() && u.Rel() == WithTags(t.Rel(), path, {}) && u.TagsAt(path) == {}
  {
    var u := WithoutRows(t, t.files[path]);
    forall p | p in t.files ensures u.TagsAt(p) == if p == path then {} else t.TagsAt(p) {}
    RelFromTags(t, u, path, {});
  }

  lemma RelGivesTags(t: Tables, path: string)
    ensures TagsOf(t.Rel(), path) == t.TagsAt(path)
    ensures NoEmptySets(t.Rel())
  {
  }

  lemma UnchangedTags(t: Tables, path: string)
    ensures WithTags(t.Rel(), path, t.TagsAt(path)) == t.Rel()
  {
  }

  lemma WithTagsTwice(r: Relation, path: string, a: set<string>, b: set<string>)
    ensures WithTags(WithTags(r, path, a), path, b) == WithTags(r, path, b)
    ensures TagsOf(WithTags(r, path, a), path) == a
  {
  }

  lemma FreshIdExists(used: set<nat>) returns (id: nat)
    ensures id !in used && forall u :: u in used ==> u < id
  {
    if used == {} {
      id := 0;
    } else {
      var x :| x in used;
      id := FreshIdExists(used - {x});
      if id <= x { id := x + 1; }
      assert forall u :: u in used ==> u == x || u in used - {x};
    }
  }

  /** The tags an operation must leave on a file that had the old ones. */
  function AfterOperation(op: string, tags: set<string>, names: set<string>): set<string> {
    if op == "add" then tags + names
    else if op == "remove" then tags - names
    else if op == "set" then names
    else tags
  }

  predicate KnownOperation(op: string) {
    op in ["add", "remove", "set"]
  }

  class DB {
    var files: map<string, nat>
    var tags: map<string, nat>
    var fileTags: set<(nat, nat)>

    ghost function T(): Tables
      reads this
    {
      Tables(files, tags, fileTags)
    }

    ghost predicate Valid()
      reads this
    {
      T().Valid()
    }

    constructor (files: map<string, nat>)
      requires forall p, q :: p in files && q in files && files[p] == files[q] ==> p == q
      ensures Valid() && this.files == files && T().Rel() == map[]
    {
      this.files, tags, fileTags := files, map[], {};
    }

    method UpsertTag(name: string) returns (id: nat)
      requires Valid()
      modifies this`tags
      ensures Valid() && T().Rel() == old(T().Rel())
      ensures name in tags && tags[name] == id
      ensures forall t :: t in old(tags) ==> t in tags && tags[t] == old(tags)[t]
    {
      if name in tags {
        id := tags[name];
      } else {
        ghost var unused := FreshIdExists(tags.Values);
        id :| id !in tags.Values;
        NewTagChangesNothing(T(), name, id);
        tags := tags[name := id];
      }
    }

    /** The names a path has, each once; none for a path that is not indexed. */
    method GetFileTags(path: string) returns (names: seq<string>)
      ensures Distinct(names) && Elems(names) == T().TagsAt(path)
    {
      names := [];
      if path in files {
        var found := Tables(files, tags, fileTags).TagNames(files[path]);
        names := Rows(found, |found|);
      }
    }

    method AddTag(path: string, name: string)
      requires Valid() && path in files
      modifies this`tags, this`fileTags
      ensures Valid()
      ensures T().Rel() == WithTags(old(T().Rel()), path, old(T().TagsAt(path)) + {name})
    {
      RelGivesTags(T(), path);
      var id := UpsertTag(name);
      RelGivesTags(T(), path);
      AddRowAddsPair(T(), path, name);
      fileTags := fileTags + {(files[path], id)};
    }

    method AddTags(path: string, names: seq<string>)
      requires Valid() && path in files
      modifies this`tags, this`fileTags
      ensures Valid()
      ensures T().Rel() == WithTags(old(T().Rel()), path, old(T().TagsAt(path)) + Elems(names))
    {
      hide Tables.Rel, Tables.TagsAt, WithTags, Tables.Valid;
      ghost var before, own := T().Rel(), T().TagsAt(path);
      UnchangedTags(T(), path);
      assert own + Elems(names[..0]) == own;
      for i := 0 to |names|
        invariant Valid() && files == old(files)
        invariant T().Rel() == WithTags(before, path, own + Elems(names[..i]))
      {
        ghost var so := own + Elems(names[..i]);
        RelGivesTags(T(), path);
        WithTagsTwice(before, path, so, so + {names[i]});
        AddTag(path, names[i]);
        ElemsOfPrefix(names, i);
        assert own + Elems(names[..i + 1]) == so + {names[i]};
      }
      assert names[..|names|] == names;
    }

    method RemoveTags(path: string, names: seq<string>)
      requires Valid() && path in files
      modifies this`fileTags
      ensures Valid()
      ensures T().Rel() == WithTags(old(T().Rel()), path, old(T().TagsAt(path)) - Elems(names))
    {
      ghost var before, own := T().Rel(), T().TagsAt(path);
      UnchangedTags(T(), path);
      assert own - Elems(names[..0]) == own;
      for i := 0 to |names|
        invariant Valid() && files == old(files)
        invariant T().Rel() == WithTags(before, path, own - Elems(names[..i]))
      {
        ghost var so := own - Elems(names[..i]);
        RelGivesTags(T(), path);
        WithTagsTwice(before, path, so, so - {names[i]});
        ElemsOfPrefix(names, i);
        assert own - Elems(names[..i + 1]) == so - {names[i]};
        if names[i] in tags {
          RemoveRowRemovesPair(T(), path, names[i]);
          fileTags := fileTags - {(files[path], tags[names[i]])};
        } else {
          assert so - {names[i]} == so;
        }
      }
      assert names[..|names|] == names;
    }

    /** DELETE all rows of the file, then insert the new ones, in one transaction. */
    method SetFileTags(path: string, names: seq<string>)
      requires Valid() && path in files
      modifies this`tags, this`fileTags
      ensures Valid()
      ensures T().Rel() == WithTags(old(T().Rel()), path, Elems(names))
    {
      ghost var before := T().Rel();
      WithoutRowsClears(T(), path);
      fileTags := set r | r in fileTags && r.0 != files[path];
      AddTags(path, names);
      WithTagsTwice(before, path, {}, Elems(names));
      assert {} + Elems(names) == Elems(names);
    }

    /** An unknown path is reported before the operation is looked at; in both
        error cases nothing changes. */
    method ModifyFileTags(path: string, names: seq<string>, op: string) returns (r: ModifyResult)
      requires Valid()
      modifies this`tags, this`fileTags
      ensures Valid()
      ensures r == (if path !in files then NotInIndex else if !KnownOperation(op) then UnknownOperation else Done)
      ensures r == UnknownOperation ==> op !in ["add", "remove", "set"]
      ensures r != Done ==> T() == old(T())
      ensures r == Done && op == "add" ==> T().TagsAt(path) == old(T().TagsAt(path)) + Elems(names)
      ensures r == Done && op == "remove" ==> T().TagsAt(path) == old(T().TagsAt(path)) - Elems(names)
      ensures r == Done && op == "set" ==> T().TagsAt(path) == Elems(names)
      ensures r == Done ==>
                T().Rel() == WithTags(old(T().Rel()), path, AfterOperation(op, old(T().TagsAt(path)), Elems(names)))
    {
      if path !in files {
        return NotInIndex;
      }
      ghost var before, own := T().Rel(), T().TagsAt(path);
      if op == "add" {
        AddTags(path, names);
      } else if op == "remove" {
        RemoveTags(path, names);
      } else if op == "set" {
        SetFileTags(path, names);
      } else {
        return UnknownOperation;
      }
      WithTagsTwice(before, path, AfterOperation(op, own, Elems(names)), {});
      RelGivesTags(T(), path);
      return Done;
    }

    /** The tags of many paths from one join. An empty tag name, which GetFileTags
        would return, is dropped here. */
    method GetFileTagsBatch(paths: seq<string>) returns (result: map<string, seq<string>>)
      ensures forall p :: p in result <==> p in paths
      ensures forall p :: p in result ==> Distinct(result[p]) && Elems(result[p]) == T().TagsAt(p) - {""}
    {
      hide Distinct;
      result := map[];
      for i := 0 to |paths|
        invariant forall p :: p in result <==> p in paths[..i]
        invariant forall p :: p in result ==> result[p] == [] && Distinct(result[p])
      {
        NothingTwice();
        if paths[i] !in result {
          result := result[paths[i] := []];
        }
      }
      var rows := set p, t | p in result && p in files && t in tags && (files[p], tags[t]) in fileTags :: (p, t);
      var todo := rows;
      while todo != {}
        invariant todo <= rows
        invariant forall p :: p in result <==> p in paths
        invariant forall p :: p in result ==> Distinct(result[p])
        invariant forall p, t :: p in result && t in result[p] <==> (p, t) in rows - todo && t != ""
        decreases |todo|
      {
        var row :| row in todo;
        todo := todo - {row};
        if row.1 != "" {
          DistinctSnoc(result[row.0], row.1);
          result := result[row.0 := result[row.0] + [row.1]];
        }
      }
      forall p | p in result ensures Elems(result[p]) == T().TagsAt(p) - {""} {
        forall t ensures t in Elems(result[p]) <==> t in T().TagsAt(p) - {""} {
          assert (p, t) in rows <==> t in T().TagsAt(p);
        }
      }
    }

    /** The result page and the total: the page holds selected paths only, each
        once, and all of them unless the limit cuts it. */
    method Search(p: SearchParams) returns (results: seq<string>, total: nat)
      ensures total == |T().Selected(p)|
      ensures Distinct(results) && Elems(results) <= T().Selected(p)
      ensures |results| == var n := if p.limit == 0 then 50 else p.limit;
                           if total <= n then total else n
      ensures |results| == total ==> Elems(results) == T().Selected(p)
    {
      var limit := if p.limit == 0 then DEFAULT_SEARCH_LIMIT else p.limit;
      var selected := Tables(files, tags, fileTags).Selected(p);
      total := |selected|;
      results := Rows(selected, limit);
    }

    /** Every (path, tag) row once, in any order. */
    method ListFileTagPairs() returns (pairs: seq<(string, string)>)
      requires Valid()
      ensures FromPairs(pairs) == T().Rel()
    {
      var todo := set p, t | p in files && t in tags && (files[p], tags[t]) in fileTags :: (p, t);
      ghost var all := todo;
      pairs := [];
      while todo != {}
        invariant todo <= all
        invariant forall x :: x in pairs <==> x in all - todo
        decreases |todo|
      {
        var x :| x in todo;
        todo := todo - {x};
        pairs := pairs + [x];
      }
      FromPairsIsMembership(pairs);
      forall p ensures TagsOf(FromPairs(pairs), p) == TagsOf(T().Rel(), p) {
        RelGivesTags(T(), p);
        forall t ensures t in TagsOf(FromPairs(pairs), p) <==> t in T().TagsAt(p) {
          assert (p, t) in pairs <==> (p, t) in all;
        }
      }
      RelGivesTags(T(), "");
      SameTagsSameRelation(FromPairs(pairs), T().Rel());
    }
  }

  /** The rows a statement with a limit returns, in any order. */
  method Rows(selected: set<string>, limit: nat) returns (rows: seq<string>)
    ensures Distinct(rows) && Elems(rows) <= selected
    ensures |rows| == if |selected| <= limit then |selected| else limit
    ensures |rows| == |selected| ==> Elems(rows) == selected
  {
    rows := [];
    var todo := selected;
    while todo != {} && |rows| < limit
      invariant todo <= selected && |rows| <= limit && |rows| + |todo| == |selected|
      invariant forall r :: r in selected - todo <==> r in rows
      invariant Distinct(rows)
      decreases |todo|
    {
      var row :| row in todo;
      todo := todo - {row};
      DistinctSnoc(rows, row);
      rows := rows + [row];
    }
  }

  lemma NothingTwice()
    ensures Distinct<string>([])
  {
  }

  lemma DistinctSnoc(names: seq<string>, name: string)
    ensures Distinct(names + [name]) <==> Distinct(names) && name !in names
  {
    DistinctPrefix(names + [name], |names|);
    assert (names + [name])[..|names|] == names;
  }
}

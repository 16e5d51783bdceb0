// The tags kept on the files themselves, in an extended attribute: one line of
// comma-separated names, read as a list, changed as a set and written back.
module TagFiles {
  import opened Options
  import opened TagRelation
  import opened TagIndex
  import opened Csv

  /** The attribute values of the files that have one. */
  type Values = map<string, string>

  /** What reading a file's attribute gives; nothing if it cannot be parsed. */
  function ReadBack(values: Values, path: string): Option<seq<string>> {
    if path in values then TagsOfValue(values[path]) else Some([])
  }

  /** The tags a file is taken to have: none if its attribute cannot be parsed. */
  function TagsIn(values: Values, path: string): set<string> {
    var tags := ReadBack(values, path);
    if tags.Some? then Elems(tags.value) else {}
  }

  /** after is before once a request has been done on the path's own tags. The tags
      are written in whatever order the set is iterated. */
  ghost predicate Wrote(before: Values, after: Values, op: string, path: string, names: set<string>) {
    exists merged ::
      && Distinct(merged) && Elems(merged) == AfterOperation(op, TagsIn(before, path), names)
      && after == before[path := ValueOf(merged)]
  }

  /** The tag set a request leaves, computed from the old list as the code does. */
  method Updated(op: string, existing: seq<string>, names: seq<string>) returns (tagSet: set<string>)
    requires KnownOperation(op)
    ensures tagSet == AfterOperation(op, Elems(existing), Elems(names))
    ensures op == "add" ==> tagSet == Elems(existing) + Elems(names)
    ensures op == "remove" ==> tagSet == Elems(existing) - Elems(names)
    ensures op == "set" ==> tagSet == Elems(names)
  {
    tagSet := {};
    if op != "set" {
      for i := 0 to |existing|
        invariant tagSet == Elems(existing[..i])
      {
        ElemsOfPrefix(existing, i);
        tagSet := tagSet + {existing[i]};
      }
      assert existing[..|existing|] == existing;
    }
    ghost var start := tagSet;
    for i := 0 to |names|
      invariant tagSet == if op == "remove" then start - Elems(names[..i]) else start + Elems(names[..i])
    {
      ElemsOfPrefix(names, i);
      tagSet := if op == "remove" then tagSet - {names[i]} else tagSet + {names[i]};
    }
    assert names[..|names|] == names;
  }

  method ListOf(tagSet: set<string>) returns (merged: seq<string>)
    ensures Distinct(merged) && Elems(merged) == tagSet
  {
    merged := [];
    var left := tagSet;
    while left != {}
      invariant left <= tagSet && Elems(merged) == tagSet - left && Distinct(merged)
      decreases |left|
    {
      var t :| t in left;
      assert t !in Elems(merged) && Elems(merged + [t]) == Elems(merged) + {t};
      merged, left := merged + [t], left - {t};
    }
  }

  lemma WrittenIsRead(values: Values, path: string, tags: seq<string>)
    ensures ReadBack(values[path := ValueOf(tags)], path) == Some(NonEmpty(Kept(tags)))
    ensures ReadBack(values[path := ValueOf(tags)], path) == Some(NonEmpty(tags)) <==> Survives(tags)
    ensures TagsIn(values[path := ValueOf(tags)], path) == Elems(NonEmpty(Kept(tags)))
    ensures forall p :: p != path ==> TagsIn(values[path := ValueOf(tags)], p) == TagsIn(values, p)
  {
    hide TagsOfValue, ValueOf, Kept, Survives, NonEmpty;
    ReadingGivesKept(tags);
    RoundTrip(tags);
  }

  class Store {
    var values: Values
    const writable: set<string>

    constructor (writable: set<string>)
      ensures values == map[] && this.writable == writable
    {
      values := map[];
      this.writable := writable;
    }

    /** The names in the attribute except empty ones; none if the file has no attribute. */
    method ReadTags(path: string) returns (tags: Option<seq<string>>)
      ensures tags == ReadBack(values, path)
    {
      if path !in values {
        return Some([]);
      }
      var line := TrimSpace(values[path]);
      if line == "" {
        return Some([]);
      }
      var record := ReadFields(Lines(line));
      if record.None? {
        return None;
      }
      var named := [];
      for i := 0 to |record.value|
        invariant named == NonEmpty(record.value[..i])
      {
        assert record.value[..i + 1][..i] == record.value[..i];
        if record.value[i] != "" {
          named := named + [record.value[i]];
        }
      }
      assert record.value[..|record.value|] == record.value;
      tags := Some(named);
    }

    /** What is read afterwards is the list that was written, empty names apart, if
        and only if the list survives. */
    method WriteTags(path: string, tags: seq<string>) returns (ok: bool)
      modifies this
      ensures ok == (path in writable)
      ensures values == if ok then old(values)[path := ValueOf(tags)] else old(values)
      ensures ok ==> (ReadBack(values, path) == Some(NonEmpty(tags)) <==> Survives(tags))
    {
      ok := path in writable;
      if ok {
        WrittenIsRead(values, path, tags);
        values := values[path := ValueOf(tags)];
      }
    }

    /** applyTagsXattr: the operation on the file's own tags; an attribute that cannot
        be parsed counts as empty and is overwritten. */
    method ApplyTags(path: string, names: seq<string>, op: string) returns (ok: bool)
      requires KnownOperation(op)
      modifies this
      ensures ok == (path in writable)
      ensures if ok then Wrote(old(values), values, op, path, Elems(names)) else values == old(values)
      ensures ok ==>
                exists merged ::
                  && values == old(values)[path := ValueOf(merged)]
                  && (op == "add" ==> Elems(merged) == TagsIn(old(values), path) + Elems(names))
                  && (op == "remove" ==> Elems(merged) == TagsIn(old(values), path) - Elems(names))
                  && (op == "set" ==> Elems(merged) == Elems(names))
    {
      hide ReadBack, ValueOf, Survives, NonEmpty;
      var read := ReadTags(path);
      var existing := if read.Some? then read.value else [];
      assert Elems(existing) == TagsIn(values, path);
      var tagSet := Updated(op, existing, names);
      var merged := ListOf(tagSet);
      ok := WriteTags(path, merged);
    }
  }
}

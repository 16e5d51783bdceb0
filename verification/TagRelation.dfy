// The plain relation that the tag graph and the relational index both stand
// for: each path with its set of tag names. A path without tags is absent.
module TagRelation {
  type Relation = map<string, set<string>>

  function TagsOf(r: Relation, path: string): set<string> {
    if path in r then r[path] else {}
  }

  function FilesWith(r: Relation, tag: string): set<string> {
    set p | p in r && tag in r[p]
  }

  ghost predicate NoEmptySets(r: Relation) {
    forall p :: p in r ==> r[p] != {}
  }

  /** The elements of a list of names. */
  function Elems(names: seq<string>): set<string> {
    set t | t in names
  }

  ghost predicate Distinct<T>(s: seq<T>) {
    forall i, j :: 0 <= i < j < |s| ==> s[i] != s[j]
  }

  lemma DistinctPrefix(names: seq<string>, n: nat)
    requires n + 1 == |names|
    ensures Distinct(names) <==> Distinct(names[..n]) && names[n] !in names[..n]
  {
    assert forall i :: 0 <= i < n ==> names[..n][i] == names[i];
  }

  lemma {:induction false} DistinctSize(names: seq<string>)
    ensures |Elems(names)| <= |names|
    ensures Distinct(names) <==> |Elems(names)| == |names|
  {
    if names != [] {
      hide Distinct;
      var n := |names| - 1;
      DistinctSize(names[..n]);
      ElemsOfPrefix(names, n);
      DistinctPrefix(names, n);
      assert names[..n + 1] == names;
    }
  }

  lemma {:induction false} SubsetSize<T>(a: set<T>, b: set<T>)
    requires a <= b
    ensures |a| <= |b|
    ensures |a| == |b| ==> a == b
  {
    if a != {} {
      var x :| x in a;
      SubsetSize(a - {x}, b - {x});
    }
  }

  lemma ElemsOfPrefix(names: seq<string>, i: nat)
    requires i < |names|
    ensures Elems(names[..i + 1]) == Elems(names[..i]) + {names[i]}
  {
    assert names[..i + 1] == names[..i] + [names[i]];
  }

  /** Replacing the tag set of one path. */
  function WithTags(r: Relation, path: string, tags: set<string>): Relation {
    if tags == {} then r - {path} else r[path := tags]
  }

  lemma WithNoTags(r: Relation, path: string)
    ensures WithTags(r, path, {}) == r - {path}
  {
  }

  lemma WithTagsGrows(r: Relation, path: string, tags: set<string>, tag: string)
    ensures AddPair(WithTags(r, path, tags), path, tag) == WithTags(r, path, tags + {tag})
  {
  }

  function AddPair(r: Relation, path: string, tag: string): Relation {
    r[path := TagsOf(r, path) + {tag}]
  }

  /** The relation a list of (path, tag) rows describes, read row by row. */
  function FromPairs(pairs: seq<(string, string)>): Relation {
    if pairs == [] then map[]
    else
      var last := pairs[|pairs| - 1];
      AddPair(FromPairs(pairs[..|pairs| - 1]), last.0, last.1)
  }

  /** FromPairs is the relation of the rows, whatever their order or repetition. */
  lemma {:induction false} FromPairsIsMembership(pairs: seq<(string, string)>)
    ensures NoEmptySets(FromPairs(pairs))
    ensures forall p, t :: t in TagsOf(FromPairs(pairs), p) <==> (p, t) in pairs
  {
    if pairs != [] {
      var n := |pairs| - 1;
      FromPairsIsMembership(pairs[..n]);
      assert pairs == pairs[..n] + [pairs[n]];
    }
  }

  /** Two relations without empty sets that agree on every path are equal. */
  lemma SameTagsSameRelation(r: Relation, s: Relation)
    requires NoEmptySets(r) && NoEmptySets(s)
    requires forall p :: TagsOf(r, p) == TagsOf(s, p)
    ensures r == s
  {
    forall p | p in r ensures p in s && r[p] == s[p] {
      assert TagsOf(r, p) == TagsOf(s, p) != {};
    }
    forall p | p in s ensures p in r {
      assert TagsOf(r, p) == TagsOf(s, p) != {};
    }
  }
}

// Arranging things by ascending priority with a sort that is not stable: equal
// priorities may end up in any order.
module Priorities {

  ghost predicate Ascending<T>(s: seq<T>, priority: T -> int) {
    forall i, j :: 0 <= i < j < |s| ==> priority(s[i]) <= priority(s[j])
  }

  ghost predicate Arrangement<T>(s: seq<T>, r: seq<T>, priority: T -> int) {
    multiset(r) == multiset(s) && Ascending(r, priority)
  }

  /** x put behind everything of at most its own priority. */
  function Insert<T>(s: seq<T>, x: T, priority: T -> int): (r: seq<T>)
    ensures |r| == |s| + 1
  {
    if s == [] || priority(s[|s| - 1]) <= priority(x) then s + [x]
    else Insert(s[..|s| - 1], x, priority) + [s[|s| - 1]]
  }

  lemma {:induction false} InsertKeepsElements<T>(s: seq<T>, x: T, priority: T -> int)
    ensures multiset(Insert(s, x, priority)) == multiset(s + [x])
  {
    if s != [] && priority(s[|s| - 1]) > priority(x) {
      var n := |s| - 1;
      InsertKeepsElements(s[..n], x, priority);
      assert s == s[..n] + [s[n]];
    }
  }

  lemma {:induction false} InsertAscends<T>(s: seq<T>, x: T, priority: T -> int)
    requires Ascending(s, priority)
    ensures Ascending(Insert(s, x, priority), priority)
  {
    if s != [] && priority(s[|s| - 1]) > priority(x) {
      var n := |s| - 1;
      var front, last := s[..n], s[n];
      var inner := Insert(front, x, priority);
      InsertAscends(front, x, priority);
      forall i | 0 <= i < |inner| ensures priority(inner[i]) <= priority(last) {
        InsertKeepsElements(front, x, priority);
        assert inner[i] in multiset(front + [x]);
      }
      assert Insert(s, x, priority) == inner + [last];
    }
  }

  lemma InsertArranges<T>(s: seq<T>, x: T, priority: T -> int)
    requires Ascending(s, priority)
    ensures Arrangement(s + [x], Insert(s, x, priority), priority)
  {
    InsertKeepsElements(s, x, priority);
    InsertAscends(s, x, priority);
  }

  /** sort.Slice: some arrangement of the elements. */
  method Sort<T>(s: seq<T>, priority: T -> int) returns (r: seq<T>)
    ensures Arrangement(s, r, priority)
  {
    r := [];
    for i := 0 to |s|
      invariant Arrangement(s[..i], r, priority)
    {
      InsertArranges(r, s[i], priority);
      r := Insert(r, s[i], priority);
      assert s[..i + 1] == s[..i] + [s[i]];
    }
    assert s[..|s|] == s;
  }

  lemma ArrangedElements<T>(s: seq<T>, r: seq<T>, priority: T -> int)
    requires Arrangement(s, r, priority)
    ensures |r| == |s|
    ensures forall i :: 0 <= i < |r| ==> r[i] in s
    ensures forall i :: 0 <= i < |s| ==> s[i] in r
  {
    assert |multiset(r)| == |multiset(s)|;
    forall i | 0 <= i < |r| ensures r[i] in s { assert r[i] in multiset(r); }
    forall i | 0 <= i < |s| ensures s[i] in r { assert s[i] in multiset(s); }
  }

  /** Some arrangement always exists. */
  lemma {:induction false} Arranged<T>(s: seq<T>, priority: T -> int) returns (r: seq<T>)
    ensures Arrangement(s, r, priority)
  {
    if s == [] {
      r := [];
    } else {
      var n := |s| - 1;
      var t := Arranged(s[..n], priority);
      InsertArranges(t, s[n], priority);
      r := Insert(t, s[n], priority);
      assert s == s[..n] + [s[n]];
    }
  }

  lemma SameElements<T>(s: seq<T>, t: seq<T>)
    requires multiset(s) == multiset(t)
    ensures forall x :: x in s <==> x in t
  {
    forall i | 0 <= i < |s| ensures s[i] in t { assert s[i] in multiset(s); }
    forall i | 0 <= i < |t| ensures t[i] in s { assert t[i] in multiset(t); }
  }
}

// Laying maps over one another in ascending priority: what a key ends up with, and
// when that depends on how equal priorities happen to be arranged.
module Overlay {
  import opened Priorities

  type Fields = map<string, string>

  /** What a contributor is worth and what it contributes. */
  datatype View<!T> = View(rank: T -> int, fields: T -> Fields)

  function Merge<T>(v: View<T>, s: seq<T>): Fields {
    if s == [] then map[] else Merge(v, s[..|s| - 1]) + v.fields(s[|s| - 1])
  }

  ghost predicate Produces<T>(v: View<T>, x: T, key: string) {
    key in v.fields(x)
  }

  /** x produces the key and nothing of higher rank does. */
  ghost predicate Wins<T>(v: View<T>, s: seq<T>, x: T, key: string) {
    && x in s && Produces(v, x, key)
    && forall q :: q in s && Produces(v, q, key) ==> v.rank(q) <= v.rank(x)
  }

  /** Two winners for one key never give it different values. */
  ghost predicate WinnersAgree<T>(v: View<T>, s: seq<T>) {
    forall key, i, j :: 0 <= i < |s| && 0 <= j < |s| && Wins(v, s, s[i], key) && Wins(v, s, s[j], key) ==>
      v.fields(s[i])[key] == v.fields(s[j])[key]
  }

  /** In whatever order contributors of equal rank fall, the outcome is the same. */
  ghost predicate OrderIndependent<T(!new)>(v: View<T>, s: seq<T>) {
    forall a, b :: Arrangement(s, a, v.rank) && Arrangement(s, b, v.rank) ==> Merge(v, a) == Merge(v, b)
  }

  /** In an ascending sequence the value of a key is that of a winner. */
  lemma {:induction false} LastProducerWins<T>(v: View<T>, sorted: seq<T>, key: string)
    requires Ascending(sorted, v.rank)
    ensures key in Merge(v, sorted) <==> exists x :: x in sorted && Produces(v, x, key)
    ensures key in Merge(v, sorted) ==>
              exists x :: Wins(v, sorted, x, key) && Merge(v, sorted)[key] == v.fields(x)[key]
  {
    if sorted != [] {
      var n := |sorted| - 1;
      var front, last := sorted[..n], sorted[n];
      LastProducerWins(v, front, key);
      assert sorted == front + [last];
      if Produces(v, last, key) {
        assert forall i :: 0 <= i <= n ==> v.rank(sorted[i]) <= v.rank(last);
        assert Wins(v, sorted, last, key);
      } else if key in Merge(v, front) {
        var x :| Wins(v, front, x, key) && Merge(v, front)[key] == v.fields(x)[key];
        assert Wins(v, sorted, x, key);
      }
    }
  }

  /** However the contributors are arranged, a key has the value of one of its winners. */
  lemma WinnerPrevails<T>(v: View<T>, s: seq<T>, sorted: seq<T>, key: string)
    requires Arrangement(s, sorted, v.rank)
    ensures key in Merge(v, sorted) <==> exists x :: x in s && Produces(v, x, key)
    ensures key in Merge(v, sorted) ==> exists x :: Wins(v, s, x, key) && Merge(v, sorted)[key] == v.fields(x)[key]
  {
    LastProducerWins(v, sorted, key);
    ArrangedElements(s, sorted, v.rank);
    assert forall x :: Wins(v, sorted, x, key) ==> Wins(v, s, x, key);
  }

  lemma AgreementGivesOneOutcome<T>(v: View<T>, s: seq<T>, a: seq<T>, b: seq<T>)
    requires WinnersAgree(v, s)
    requires Arrangement(s, a, v.rank) && Arrangement(s, b, v.rank)
    ensures Merge(v, a) == Merge(v, b)
  {
    forall key ensures key in Merge(v, a) <==> key in Merge(v, b)
               ensures key in Merge(v, a) ==> Merge(v, a)[key] == Merge(v, b)[key]
    {
      WinnerPrevails(v, s, a, key);
      WinnerPrevails(v, s, b, key);
    }
  }

  /** Inserted behind its equals, a contributor decides each key it wins. */
  lemma {:induction false} InsertedDecides<T>(v: View<T>, sorted: seq<T>, x: T, key: string)
    requires Produces(v, x, key)
    requires forall q :: q in sorted && Produces(v, q, key) ==> v.rank(q) <= v.rank(x)
    ensures var m := Merge(v, Insert(sorted, x, v.rank)); key in m && m[key] == v.fields(x)[key]
  {
    var inserted := Insert(sorted, x, v.rank);
    if sorted == [] || v.rank(sorted[|sorted| - 1]) <= v.rank(x) {
      assert inserted[..|sorted|] == sorted;
    } else {
      var n := |sorted| - 1;
      InsertedDecides(v, sorted[..n], x, key);
      assert inserted[..n + 1] == Insert(sorted[..n], x, v.rank);
      assert sorted[n] in sorted;
    }
  }

  /** A sort may leave x last among its equals. */
  lemma ArrangeWithLast<T>(v: View<T>, rest: seq<T>, q: T, x: T, key: string) returns (a: seq<T>)
    requires Wins(v, rest + [q, x], x, key)
    ensures Arrangement(rest + [q, x], a, v.rank)
    ensures key in Merge(v, a) && Merge(v, a)[key] == v.fields(x)[key]
  {
    var t := Arranged(rest + [q], v.rank);
    ArrangedElements(rest + [q], t, v.rank);
    InsertArranges(t, x, v.rank);
    a := Insert(t, x, v.rank);
    forall y | y in t && Produces(v, y, key) ensures v.rank(y) <= v.rank(x) {
      assert y in rest + [q, x];
    }
    InsertedDecides(v, t, x, key);
    assert rest + [q, x] == rest + [q] + [x];
  }

  lemma WithoutTwo<T>(s: seq<T>, lo: nat, hi: nat) returns (rest: seq<T>)
    requires lo < hi < |s|
    ensures multiset(rest + [s[lo], s[hi]]) == multiset(s) == multiset(rest + [s[hi], s[lo]])
  {
    var a, b, c := s[..lo], s[lo + 1..hi], s[hi + 1..];
    rest := a + b + c;
    assert s == a + [s[lo]] + b + [s[hi]] + c;
  }

  lemma WinsByElements<T>(v: View<T>, s: seq<T>, t: seq<T>, key: string)
    requires multiset(s) == multiset(t)
    ensures forall x :: Wins(v, s, x, key) ==> Wins(v, t, x, key)
  {
    SameElements(s, t);
  }

  lemma DisagreementShows<T>(v: View<T>, s: seq<T>, i: nat, j: nat, key: string)
    requires i < |s| && j < |s| && i != j
    requires Wins(v, s, s[i], key) && Wins(v, s, s[j], key)
    requires v.fields(s[i])[key] != v.fields(s[j])[key]
    ensures exists a, b :: Arrangement(s, a, v.rank) && Arrangement(s, b, v.rank) && Merge(v, a) != Merge(v, b)
  {
    var lo, hi := if i < j then i else j, if i < j then j else i;
    var q, x := s[lo], s[hi];
    hide Merge, Wins;
    var rest := WithoutTwo(s, lo, hi);
    WinsByElements(v, s, rest + [q, x], key);
    WinsByElements(v, s, rest + [x, q], key);
    var a := ArrangeWithLast(v, rest, q, x, key);
    var b := ArrangeWithLast(v, rest, x, q, key);
    assert Arrangement(s, a, v.rank) && Arrangement(s, b, v.rank);
  }

  /** The outcome is independent of the order of equals exactly when the winners of
      each key agree on its value. */
  lemma IndependentIffWinnersAgree<T(!new)>(v: View<T>, s: seq<T>)
    ensures OrderIndependent(v, s) <==> WinnersAgree(v, s)
  {
    if WinnersAgree(v, s) {
      forall a, b | Arrangement(s, a, v.rank) && Arrangement(s, b, v.rank) ensures Merge(v, a) == Merge(v, b) {
        AgreementGivesOneOutcome(v, s, a, b);
      }
    } else {
      var key, i, j :| 0 <= i < |s| && 0 <= j < |s| && Wins(v, s, s[i], key) && Wins(v, s, s[j], key)
                       && v.fields(s[i])[key] != v.fields(s[j])[key];
      DisagreementShows(v, s, i, j, key);
    }
  }
}

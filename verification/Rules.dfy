// Rules that derive tags from a file's metadata, and the step that writes what
// they derive to the stores.
module Rules {
  import opened Priorities
  import opened Overlay
  import opened TagRelation
  import opened TagIndex
  import opened TagGraph
  import opened Options
  import opened Csv
  import opened TagFiles
  import opened Tagging

  datatype Outcome = Tags(names: seq<string>) | Failed

  datatype Rule = Rule(name: string, priority: int, eval: Fields -> Outcome)

  /** Tag name to the names of the rules suppressed for it on this file. */
  type Overrides = map<string, seq<string>>

  predicate Suppressed(overrides: Overrides, tag: string, rule: string) {
    tag in overrides && rule in overrides[tag]
  }

  /** r succeeds and is allowed to add the tag. */
  predicate Yields(r: Rule, meta: Fields, overrides: Overrides, tag: string) {
    r.eval(meta).Tags? && tag in r.eval(meta).names && !Suppressed(overrides, tag, r.name)
  }

  /** Each rule contributes its name to every tag it yields. */
  function Attribution(meta: Fields, overrides: Overrides): View<Rule> {
    View((r: Rule) => r.priority,
         (r: Rule) => var names := if r.eval(meta).Tags? then r.eval(meta).names else [];
                      map t | t in names && Yields(r, meta, overrides, t) :: r.name)
  }

  /** The rule succeeds with the tag among its tags, and no override names the pair. */
  ghost predicate MayAdd(r: Rule, meta: Fields, overrides: Overrides, tag: string) {
    && r.eval(meta).Tags? && tag in r.eval(meta).names
    && (tag in overrides ==> r.name !in overrides[tag])
  }

  ghost predicate Derived(rules: seq<Rule>, meta: Fields, overrides: Overrides, tag: string) {
    exists r :: r in rules && MayAdd(r, meta, overrides, tag)
  }

  /** r yields the tag and no rule that does so outranks it. */
  ghost predicate Tops(rules: seq<Rule>, meta: Fields, overrides: Overrides, tag: string, r: Rule) {
    && r in rules && MayAdd(r, meta, overrides, tag)
    && forall q :: q in rules && MayAdd(q, meta, overrides, tag) ==> q.priority <= r.priority
  }

  ghost predicate Credited(rules: seq<Rule>, meta: Fields, overrides: Overrides, tag: string, source: string) {
    exists r :: Tops(rules, meta, overrides, tag, r) && source == "rule:" + r.name
  }

  /** The highest-ranked rules for each tag share a name. */
  ghost predicate TopsShareNames(rules: seq<Rule>, meta: Fields, overrides: Overrides) {
    forall t, i, j | 0 <= i < |rules| && 0 <= j < |rules| ::
      Tops(rules, meta, overrides, t, rules[i]) && Tops(rules, meta, overrides, t, rules[j]) ==>
        rules[i].name == rules[j].name
  }

  class Engine {
    var rules: seq<Rule>

    ghost predicate Valid()
      reads this
    {
      Ascending(rules, (r: Rule) => r.priority)
    }

    constructor ()
      ensures Valid() && rules == []
    {
      rules := [];
    }

    method Register(r: Rule)
      requires Valid()
      modifies this
      ensures Valid() && Arrangement(old(rules) + [r], rules, (r: Rule) => r.priority)
    {
      rules := Sort(rules + [r], (r: Rule) => r.priority);
    }

    /** The tags to add, in some order, each once, none of them there already; and
        for each of them the rule it is credited to. */
    method Eval(meta: Fields, existingTags: seq<string>, overrides: Overrides)
      returns (added: seq<string>, sources: Fields)
      requires Valid()
      ensures Distinct(added) && forall t :: t in sources <==> t in added
      ensures forall t :: t in added <==> t !in existingTags && Derived(rules, meta, overrides, t)
      ensures forall t :: t in added ==> Credited(rules, meta, overrides, t, sources[t])
    {
      hide Derived, Credited, Ascending, Merge, Attribution;
      var existing := set t | t in existingTags;
      var toAdd := CollectTags(meta, overrides);
      added, sources := [], map[];
      var left := toAdd;
      while left != map[]
        invariant forall t :: t in left ==> t in toAdd && left[t] == toAdd[t]
        invariant forall t :: t in added <==> t in toAdd && t !in left && t !in existing
        invariant forall t :: t in sources <==> t in added
        invariant forall t :: t in sources ==> sources[t] == "rule:" + toAdd[t]
        invariant Distinct(added)
        decreases |left|
      {
        var tag :| tag in left;
        if tag !in existing {
          added := added + [tag];
          sources := sources[tag := "rule:" + left[tag]];
        }
        left := left - {tag};
      }
    }

    /** For each derived tag the rule that was evaluated last among those yielding it. */
    method CollectTags(meta: Fields, overrides: Overrides) returns (toAdd: Fields)
      requires Valid()
      ensures toAdd == Merge(Attribution(meta, overrides), rules)
      ensures forall t :: t in toAdd <==> Derived(rules, meta, overrides, t)
      ensures forall t :: t in toAdd ==> Credited(rules, meta, overrides, t, "rule:" + toAdd[t])
    {
      hide Derived, Credited, Ascending, Attribution;
      toAdd := map[];
      for i := 0 to |rules|
        invariant toAdd == Merge(Attribution(meta, overrides), rules[..i])
      {
        assert rules[..i + 1][..i] == rules[..i];
        toAdd := AddOutcome(rules[i], meta, overrides, toAdd);
      }
      assert rules[..|rules|] == rules;
      forall t
        ensures t in toAdd <==> Derived(rules, meta, overrides, t)
        ensures t in toAdd ==> Credited(rules, meta, overrides, t, "rule:" + toAdd[t])
      {
        MergedIsCredited(rules, meta, overrides, t);
      }
    }

    /** One rule's part of the loop: a rule that fails adds nothing. */
    static method AddOutcome(rule: Rule, meta: Fields, overrides: Overrides, before: Fields) returns (toAdd: Fields)
      ensures toAdd == before + Attribution(meta, overrides).fields(rule)
    {
      toAdd := before;
      var outcome := rule.eval(meta);
      if outcome.Failed? {
        assert Attribution(meta, overrides).fields(rule) == map[];
        return;
      }
      hide Attribution;
      var names := outcome.names;
      for j := 0 to |names|
        invariant forall t :: t in toAdd <==>
                    t in before || (t in names[..j] && !Suppressed(overrides, t, rule.name))
        invariant forall t :: t in toAdd ==>
                    toAdd[t] == if t in names[..j] && !Suppressed(overrides, t, rule.name) then rule.name else before[t]
      {
        var tag := names[j];
        assert names[..j + 1] == names[..j] + [tag];
        if !Suppressed(overrides, tag, rule.name) {
          toAdd := toAdd[tag := rule.name];
        }
      }
      assert names[..|names|] == names;
      ContributionAdded(rule, meta, overrides, before, toAdd);
    }
  }

  lemma ContributionAdded(rule: Rule, meta: Fields, overrides: Overrides, before: Fields, after: Fields)
    requires rule.eval(meta).Tags?
    requires forall t :: t in after <==> t in before || Yields(rule, meta, overrides, t)
    requires forall t :: t in after ==> after[t] == if Yields(rule, meta, overrides, t) then rule.name else before[t]
    ensures after == before + Attribution(meta, overrides).fields(rule)
  {
  }

  /** Topping the rules for a tag is winning the tag as a key. */
  lemma TopsIsWinning(rules: seq<Rule>, meta: Fields, overrides: Overrides, tag: string, r: Rule)
    ensures Tops(rules, meta, overrides, tag, r) <==> Wins(Attribution(meta, overrides), rules, r, tag)
    ensures Tops(rules, meta, overrides, tag, r) ==>
              var names := Attribution(meta, overrides).fields(r); tag in names && names[tag] == r.name
  {
    var v := Attribution(meta, overrides);
    assert forall q :: Yields(q, meta, overrides, tag) <==> MayAdd(q, meta, overrides, tag);
    assert forall q :: Produces(v, q, tag) <==> Yields(q, meta, overrides, tag);
    assert forall q :: v.rank(q) == q.priority;
  }

  lemma MergedIsCredited(rules: seq<Rule>, meta: Fields, overrides: Overrides, tag: string)
    requires Ascending(rules, (r: Rule) => r.priority)
    ensures var m := Merge(Attribution(meta, overrides), rules);
            && (tag in m <==> Derived(rules, meta, overrides, tag))
            && (tag in m ==> Credited(rules, meta, overrides, tag, "rule:" + m[tag]))
  {
    var v := Attribution(meta, overrides);
    assert Ascending(rules, v.rank);
    LastProducerWins(v, rules, tag);
    assert forall r :: Yields(r, meta, overrides, tag) <==> MayAdd(r, meta, overrides, tag);
    assert forall r :: Produces(v, r, tag) <==> Yields(r, meta, overrides, tag);
    var m := Merge(v, rules);
    if tag in m {
      var r :| Wins(v, rules, r, tag) && m[tag] == v.fields(r)[tag];
      TopsIsWinning(rules, meta, overrides, tag, r);
    }
  }

  /** The order of registration never changes which tags are derived. It changes no
      credit either exactly when the highest-ranked rules for each tag share a name. */
  lemma RegistrationOrder(rules: seq<Rule>, other: seq<Rule>, meta: Fields, overrides: Overrides)
    requires multiset(rules) == multiset(other)
    ensures forall t :: Derived(rules, meta, overrides, t) <==> Derived(other, meta, overrides, t)
    ensures OrderIndependent(Attribution(meta, overrides), rules) <==> TopsShareNames(rules, meta, overrides)
  {
    hide Wins, Tops, Attribution;
    SameElements(rules, other);
    var v := Attribution(meta, overrides);
    IndependentIffWinnersAgree(v, rules);
    forall t, i | 0 <= i < |rules|
      ensures Tops(rules, meta, overrides, t, rules[i]) <==> Wins(v, rules, rules[i], t)
      ensures Tops(rules, meta, overrides, t, rules[i]) ==>
                t in v.fields(rules[i]) && v.fields(rules[i])[t] == rules[i].name
    {
      TopsIsWinning(rules, meta, overrides, t, rules[i]);
    }
  }

  /** Suppressing more never derives more, and what it takes away was yielded only
      by rules it suppresses. */
  lemma SuppressingMoreDerivesLess(rules: seq<Rule>, meta: Fields, few: Overrides, many: Overrides, tag: string)
    requires forall t, n :: t in few && n in few[t] ==> t in many && n in many[t]
    ensures Derived(rules, meta, many, tag) ==> Derived(rules, meta, few, tag)
    ensures Derived(rules, meta, few, tag) && !Derived(rules, meta, many, tag) ==>
              forall r :: r in rules && MayAdd(r, meta, few, tag) ==> tag in many && r.name in many[tag]
  {
  }

  // ----- The rule phase -----

  /** applyDiff: the tags go to the file first; only if that works, to index and graph. */
  method ApplyDiff(path: string, existingTags: seq<string>, added: seq<string>, store: Store, idx: DB, g: Graph)
    returns (ok: bool)
    requires Coherent(idx, g) && path in idx.files
    modifies store, idx, g
    ensures Coherent(idx, g) && idx.files == old(idx.files)
    ensures ok == (path in store.writable)
    ensures store.values == if ok then old(store.values)[path := ValueOf(existingTags + added)] else old(store.values)
    ensures g.fileAdj == if ok then WithTags(old(g.fileAdj), path, Elems(existingTags + added)) else old(g.fileAdj)
  {
    hide WithTags, ReadBack, Survives, ValueOf;
    var newTags := existingTags + added;
    ok := store.WriteTags(path, newTags);
    if ok {
      idx.SetFileTags(path, newTags);
      g.SetFileTags(path, newTags);
    }
  }

  /** What one run of the rules writes over the tags read from a file's attribute:
      nothing if the attribute cannot be parsed or no derived tag is missing from it,
      else the tags read and behind them, in some order, those missing. */
  ghost predicate RulePass(
    rules: seq<Rule>, meta: Fields, overrides: Overrides, read: Option<seq<string>>, written: Option<seq<string>>)
  {
    if read.None? || forall t :: Derived(rules, meta, overrides, t) ==> t in read.value then written == None
    else
      exists added ::
        && Distinct(added)
        && (forall t :: t in added <==> Derived(rules, meta, overrides, t) && t !in read.value)
        && written == Some(read.value + added)
  }

  lemma PassFromEval(
    rules: seq<Rule>, meta: Fields, overrides: Overrides, existing: seq<string>, added: seq<string>)
    requires Distinct(added)
    requires forall t :: t in added <==> t !in existing && Derived(rules, meta, overrides, t)
    ensures RulePass(rules, meta, overrides, Some(existing), if added == [] then None else Some(existing + added))
  {
    hide Derived;
    if added != [] {
      assert added[0] in added;
    }
  }

  /** The rule phase for one file: all three stores get the outcome of one run of the
      rules, or, if the file is not indexed or cannot be written, none does. */
  method ApplyRules(engine: Engine, path: string, meta: Fields, overrides: Overrides, store: Store, idx: DB, g: Graph)
    returns (written: Option<seq<string>>)
    requires engine.Valid() && Coherent(idx, g)
    modifies store, idx, g
    ensures Coherent(idx, g) && idx.files == old(idx.files)
    ensures if path in idx.files && path in store.writable
            then RulePass(engine.rules, meta, overrides, ReadBack(old(store.values), path), written)
            else written == None
    ensures store.values ==
            if written.Some? then old(store.values)[path := ValueOf(written.value)] else old(store.values)
    ensures g.fileAdj ==
            if written.Some? then WithTags(old(g.fileAdj), path, Elems(written.value)) else old(g.fileAdj)
  {
    hide RulePass, Derived, Credited, WithTags, Distinct, Engine.Valid, Coherent, ReadBack, ValueOf;
    var read := store.ReadTags(path);
    if read.None? {
      UnreadablePass(engine.rules, meta, overrides);
      return None;
    }
    if path !in idx.files {
      return None;
    }
    var existingTags := read.value;
    var added, sources := engine.Eval(meta, existingTags, overrides);
    PassFromEval(engine.rules, meta, overrides, existingTags, added);
    if |added| == 0 {
      return None;
    }
    var ok := ApplyDiff(path, existingTags, added, store, idx, g);
    written := if ok then Some(existingTags + added) else None;
  }

  lemma UnreadablePass(rules: seq<Rule>, meta: Fields, overrides: Overrides)
    ensures RulePass(rules, meta, overrides, None, None)
  {
  }

  // ----- Running the rules again -----

  /** What is read after a run: what it wrote, or what was there. */
  function ReadAfter(read: Option<seq<string>>, written: Option<seq<string>>): Option<seq<string>> {
    if written.Some? then TagsOfValue(ValueOf(written.value)) else read
  }

  /** Whatever a file's attribute held and in whatever order tags are added, a second
      run of the same rules on the same metadata writes nothing. */
  ghost predicate Settles(rules: seq<Rule>, meta: Fields, overrides: Overrides) {
    forall read, first, second | RulePass(rules, meta, overrides, read, first) ::
      RulePass(rules, meta, overrides, ReadAfter(read, first), second) ==> second == None
  }

  /** A run of the rules settles a file for good if and only if every tag they derive
      is safe: any other is found missing again after it has been written. */
  lemma RulesSettle(rules: seq<Rule>, meta: Fields, overrides: Overrides)
    ensures Settles(rules, meta, overrides) <==> forall t :: Derived(rules, meta, overrides, t) ==> Safe(t)
  {
    hide RulePass, Derived, Safe, ReadAfter;
    if forall t :: Derived(rules, meta, overrides, t) ==> Safe(t) {
      forall read, first, second | RulePass(rules, meta, overrides, read, first)
                                   && RulePass(rules, meta, overrides, ReadAfter(read, first), second)
        ensures second == None
      {
        SafePassSettles(rules, meta, overrides, read, first, second);
      }
    } else {
      var first, second := UnsettledPasses(rules, meta, overrides);
      assert RulePass(rules, meta, overrides, Some([]), first);
    }
  }

  lemma SafePassSettles(
    rules: seq<Rule>, meta: Fields, overrides: Overrides, read: Option<seq<string>>,
    first: Option<seq<string>>, second: Option<seq<string>>)
    requires forall t :: Derived(rules, meta, overrides, t) ==> Safe(t)
    requires RulePass(rules, meta, overrides, read, first)
    requires RulePass(rules, meta, overrides, ReadAfter(read, first), second)
    ensures second == None
  {
    hide Derived, Safe, TagsOfValue, ValueOf, Kept, NonEmpty;
    if first.Some? {
      var names := first.value;
      ReadingGivesKept(names);
      forall t | Derived(rules, meta, overrides, t) ensures t in NonEmpty(Kept(names)) {
        assert t in names;
        SafeTagKept(names, t);
      }
    }
  }

  lemma SafeTagKept(names: seq<string>, tag: string)
    requires tag in names && Safe(tag)
    ensures tag in NonEmpty(Kept(names))
  {
    hide Kept, NonEmpty, HasCrLf, EndsLoose;
    var i :| 0 <= i < |names| && names[i] == tag;
    KeptName(names, i);
    NonEmptyElems(Kept(names));
    assert tag in Elems(NonEmpty(Kept(names)));
  }

  function DerivedTags(rules: seq<Rule>, meta: Fields, overrides: Overrides): set<string> {
    set i, t | 0 <= i < |rules| && t in NamesOf(rules[i], meta) && Yields(rules[i], meta, overrides, t) :: t
  }

  function NamesOf(r: Rule, meta: Fields): seq<string> {
    if r.eval(meta).Tags? then r.eval(meta).names else []
  }

  lemma DerivedAreTags(rules: seq<Rule>, meta: Fields, overrides: Overrides, tag: string)
    ensures Derived(rules, meta, overrides, tag) <==> tag in DerivedTags(rules, meta, overrides)
  {
    assert forall r :: Yields(r, meta, overrides, tag) <==> MayAdd(r, meta, overrides, tag);
    if Derived(rules, meta, overrides, tag) {
      var r :| r in rules && MayAdd(r, meta, overrides, tag);
      var i :| 0 <= i < |rules| && rules[i] == r;
      assert tag in NamesOf(rules[i], meta);
    }
  }

  /** On a file without tags an unsafe derived tag can be written last and is then
      missing again. */
  lemma UnsettledPasses(rules: seq<Rule>, meta: Fields, overrides: Overrides)
    returns (first: Option<seq<string>>, second: Option<seq<string>>)
    requires exists t :: Derived(rules, meta, overrides, t) && !Safe(t)
    ensures RulePass(rules, meta, overrides, Some([]), first)
    ensures RulePass(rules, meta, overrides, ReadAfter(Some([]), first), second) && second != None
  {
    hide Derived, Safe, RulePass, TagsOfValue, ValueOf, Kept, NonEmpty, DerivedTags;
    var tags := DerivedTags(rules, meta, overrides);
    forall t ensures Derived(rules, meta, overrides, t) <==> t in tags {
      DerivedAreTags(rules, meta, overrides, t);
    }
    var tag := "";
    if "" !in tags {
      tag := LongestUnsafe(tags);
    }
    var names := OrderedWithLast(tags, tag);
    assert forall t :: t in names <==> t in Elems(names);
    PassFromEval(rules, meta, overrides, [], names);
    assert [] + names == names && tag in names;
    first := Some(names);
    ReadingGivesKept(names);
    var read := NonEmpty(Kept(names));
    NonEmptyElems(Kept(names));
    if tag == "" {
      assert "" !in Elems(read);
    } else {
      LastIsLost(names, tag);
    }
    var missing := OrderedWithLast(tags - Elems(read), tag);
    assert forall t :: t in missing <==> t in Elems(missing);
    PassFromEval(rules, meta, overrides, read, missing);
    assert tag in Elems(missing);
    second := Some(read + missing);
  }
}

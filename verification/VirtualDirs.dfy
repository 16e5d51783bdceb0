// The virtual directories of internal/fuse/server.go: what a tag expression
// selects, and incremental browsing one tag at a time.
module VirtualDirs {
  import opened Options
  import opened TagRelation
  import opened TagIndex
  import opened ExprCodec
  import opened Text
  import DirCache

  const DEFAULT_LIMIT := 10_000

  // ----- Tag expressions as queries -----

  /** The expression read as a Boolean formula over a file's tags. */
  ghost predicate Holds(e: Expr, tags: set<string>)
    requires e.TagExpr?
  {
    && (if e.any then exists t :: t in e.tags && t in tags else forall t :: t in e.tags ==> t in tags)
    && forall t :: t in e.excluded ==> t !in tags
  }

  function ToSearchParams(e: Expr, limit: nat): SearchParams {
    var n := if limit == 0 then DEFAULT_LIMIT else limit;
    match e
    case TagExpr(tags, any, excluded) => SearchParams(tags, any, excluded, false, n)
    case Untagged => SearchParams([], false, [], true, n)
    case Special(_) => SearchParams([], false, [], false, n)
  }

  /** A query means its formula, unless an AND expression names a tag twice:
      then it selects nothing at all. */
  lemma CompilationPreservesMeaning(t: Tables, name: string, highRun: string -> bool, limit: nat)
    requires TagExprOf(name, highRun).Ok?
    ensures var e := TagExprOf(name, highRun).value;
            e.TagExpr? &&
            t.Selected(ToSearchParams(e, limit)) ==
              if e.any || Distinct(e.tags) then set p | p in t.files && Holds(e, t.TagsAt(p)) else {}
  {
    hide TagExprOf;
    AcceptedTagsAreNotEmpty(name, highRun);
    var e := TagExprOf(name, highRun).value;
    forall p | p in t.files
      ensures t.Matches(t.files[p], ToSearchParams(e, limit))
         <==> Holds(e, t.TagsAt(p)) && (e.any || Distinct(e.tags))
    {
      MatchesMeansHolds(t, p, e, limit);
    }
  }

  lemma MatchesMeansHolds(t: Tables, p: string, e: Expr, limit: nat)
    requires p in t.files && e.TagExpr? && e.tags != []
    ensures t.Matches(t.files[p], ToSearchParams(e, limit))
       <==> Holds(e, t.TagsAt(p)) && (e.any || Distinct(e.tags))
  {
    t.CountMeansAll(t.files[p], e.tags);
    t.NoneMeansDisjoint(t.files[p], e.tags);
    t.NoneMeansDisjoint(t.files[p], e.excluded);
  }

  /** A tag may be written in two ways and still count as repeated. */
  lemma RepeatedTagSelectsNothing(t: Tables, highRun: string -> bool, limit: nat)
    ensures TagExprOf("a+%61", highRun) == Ok(TagExpr(["a", "a"], false, []))
    ensures t.Selected(ToSearchParams(TagExpr(["a", "a"], false, []), limit)) == {}
  {
    RepeatParses(highRun);
    hide TagExprOf;
    var e := TagExpr(["a", "a"], false, []);
    assert !Distinct(e.tags) by { assert e.tags[0] == e.tags[1]; }
    forall p | p in t.files ensures !t.Matches(t.files[p], ToSearchParams(e, limit)) {
      MatchesMeansHolds(t, p, e, limit);
    }
  }

  lemma RepeatParses(highRun: string -> bool)
    ensures TagExprOf("a+%61", highRun) == Ok(TagExpr(["a", "a"], false, []))
  {
    SplitPiece("a", "%61", '+');
    SplitPiece("%61", "", '+');
    assert "a" + ['+'] + "%61" == "a+%61";
    assert Split("a+%61", '+') == ["a", "%61"];
    assert Printable("a+%61", highRun);
    hide Split, Printable, AndParts;
    NoPercentDecodesToItself("a");
    DecodeTriple('6', '1');
    assert ['%', '6', '1'] == "%61" && 97 as char == 'a';
    AndPartsOfRepeated();
  }

  lemma DecodeTriple(hi: char, lo: char)
    requires HexDigit(hi) >= 0 && HexDigit(lo) >= 0
    ensures Decode(['%', hi, lo]) == Ok([(16 * HexDigit(hi) + HexDigit(lo)) as char])
  {
    var c := (16 * HexDigit(hi) + HexDigit(lo)) as char;
    assert ['%', hi, lo][3..] == "";
    assert [c] + "" == [c];
  }

  lemma AndPartsOfRepeated()
    requires Decode("a") == Ok("a") && Decode("%61") == Ok("a")
    ensures AndParts(["a", "%61"], [], []) == Ok(TagExpr(["a", "a"], false, []))
  {
    hide Decode;
    assert ["a", "%61"][1..] == ["%61"];
    assert [] + ["a"] == ["a"];
    assert ["%61"][1..] == [] && ["a"] + ["a"] == ["a", "a"];
    assert AndParts(["%61"], ["a"], []) == AndParts([], ["a", "a"], []);
  }

  lemma UntaggedSelectsTagless(t: Tables, limit: nat)
    requires t.Valid()
    ensures t.Selected(ToSearchParams(Untagged, limit)) == set p | p in t.files && t.TagsAt(p) == {}
  {
    forall p | p in t.files
      ensures t.Matches(t.files[p], ToSearchParams(Untagged, limit)) <==> t.TagsAt(p) == {}
    {
      if t.TagsAt(p) != {} {
        var n :| n in t.TagsAt(p);
        assert t.tags[n] in t.tags.Values;
      } else {
        forall id | id in t.tags.Values ensures (t.files[p], id) !in t.fileTags {
          var n :| n in t.tags && t.tags[n] == id;
          assert n !in t.TagsAt(p);
        }
      }
    }
  }

  // ----- Incremental browsing -----

  /** The search a level sends and the subquery of the tag listing select the same files. */
  lemma FilesAreBrowsed(t: Tables, dir: BrowseDir)
    ensures dir.Files(t) == t.Browse(dir.inc, dir.exc)
  {
  }

  datatype Node = Dir(dir: BrowseDir) | Files(dir: BrowseDir) | NotFound

  datatype BrowseDir = BrowseDir(inc: seq<string>, exc: seq<string>) {

    /** browseQuery, as it is sent to the index search. */
    function Query(): SearchParams {
      SearchParams(inc, false, exc, false, DEFAULT_LIMIT)
    }

    function Files(t: Tables): set<string> {
      t.Selected(Query())
    }

    function Offered(t: Tables): set<string> {
      t.ListCooccurringTags(inc, exc)
    }

    function Readdir(t: Tables): set<string> {
      {"@files"} + set tag | tag in Offered(t) :: Encode(tag)
    }

    function Lookup(name: string): Node {
      if name == "@files" then Node.Files(this)
      else
        var isNot := name != "" && name[0] == '!';
        var decoded := Decode(if isNot then name[1..] else name);
        if decoded.Err? || decoded.value == "" then NotFound
        else if isNot then Dir(BrowseDir(inc, exc + [decoded.value]))
        else Dir(BrowseDir(inc + [decoded.value], exc))
    }

    function After(step: Signed): BrowseDir {
      if step.negated then BrowseDir(inc, exc + [step.tag]) else BrowseDir(inc + [step.tag], exc)
    }

    /** The name of a tag leads to the level for that tag, with two exceptions. */
    lemma LookupFollowsName(step: Signed)
      ensures Lookup(PrintItem(step)) == Dir(After(step))
         <==> step.tag != "" && (step.negated || step.tag != "@files")
    {
      hide Decode, Encode;
      DecodeUndoesEncode(step.tag);
      EncodeHidesOperators(step.tag);
      PlainIsItsOwnCode("@files");
      var name := PrintItem(step);
      if step.negated {
        assert name[1..] == Encode(step.tag);
      } else {
        assert name == Encode(step.tag);
        if name == "@files" { EncodeIsInjective(step.tag, "@files"); }
      }
      AppendsDiffer(inc, exc, step.tag);
    }

    /** What is listed: the files, and each unused tag of a file here under its code. */
    lemma ReaddirMeaning(t: Tables, tag: string)
      ensures "@files" in Readdir(t)
      ensures tag != "@files" ==>
                (Encode(tag) in Readdir(t)
                 <==> tag !in inc && tag !in exc && exists p :: p in Files(t) && tag in t.TagsAt(p))
    {
      hide Encode, Decode, Tables.HasCount, Tables.HasNone;
      PlainIsItsOwnCode("@files");
      FilesAreBrowsed(t, this);
      if tag != "@files" && Encode(tag) in Readdir(t) {
        if Encode(tag) == "@files" { EncodeIsInjective(tag, "@files"); }
        var u :| u in Offered(t) && Encode(u) == Encode(tag);
        EncodeIsInjective(tag, u);
      }
    }

    /** Each name that is listed opens what it stands for: the files here, or the level
        of one of the tags offered, on which there is at least one file. */
    lemma ListedNamesOpen(t: Tables, name: string)
      requires name in Readdir(t) && name != ""
      ensures if name == "@files" then Lookup(name) == Node.Files(this)
              else exists tag :: tag in Offered(t) && name == Encode(tag)
                                 && Lookup(name) == Dir(BrowseDir(inc + [tag], exc))
                                 && BrowseDir(inc + [tag], exc).Files(t) != {}
    {
      hide Encode, Decode;
      if name != "@files" {
        var tag :| tag in Offered(t) && name == Encode(tag);
        EncodeHidesOperators(tag);
        DecodeUndoesEncode(tag);
        if tag == "" { EncodeOfNothing(); }
        t.ListedIffOpensNonEmpty(inc, exc, tag);
        FilesAreBrowsed(t, BrowseDir(inc + [tag], exc));
      }
    }

    lemma AppendsDiffer(a: seq<string>, b: seq<string>, tag: string)
      ensures a + [tag] != a && b + [tag] != b
    {
      assert |a + [tag]| != |a| && |b + [tag]| != |b|;
    }

    /** Each step names a tag that the level it is taken from offers. */
    ghost predicate Offers(t: Tables, steps: seq<Signed>)
      decreases |steps|
    {
      steps != [] ==>
        && steps[0].tag in Offered(t)
        && steps[0].tag != "" && (steps[0].negated || steps[0].tag != "@files")
        && After(steps[0]).Offers(t, steps[1..])
    }

    function Descend(names: seq<string>): Node
      decreases |names|
    {
      if names == [] then Dir(this)
      else
        var next := Lookup(names[0]);
        if next.Dir? then next.dir.Descend(names[1..]) else if |names| == 1 then next else NotFound
    }

    /** No tag is used twice on the way to this level. */
    ghost predicate Clean() {
      Distinct(inc) && Elems(inc) !! Elems(exc)
    }

    lemma OfferedStepStaysClean(t: Tables, step: Signed)
      requires Clean() && step.tag in Offered(t)
      ensures After(step).Clean()
    {
      DistinctSnoc(inc, step.tag);
      assert Elems(inc + [step.tag]) == Elems(inc) + {step.tag};
      assert Elems(exc + [step.tag]) == Elems(exc) + {step.tag};
    }

    /** Following offered names arrives at the level of exactly the chosen tags, on which
        the counting query means having all of them; and the name "@files" behind them
        opens the files of that level. */
    lemma {:induction false} BrowsePathArrives(t: Tables, steps: seq<Signed>)
      requires Clean() && Offers(t, steps)
      ensures var last := BrowseDir(inc + Included(steps), exc + Excluded(steps));
              && Descend(PrintItems(steps)) == Dir(last)
              && Descend(PrintItems(steps) + ["@files"]) == Node.Files(last)
              && last.Clean()
              && last.Files(t) <= Files(t)
              && last.Files(t) == set p | p in t.files
                   && Elems(last.inc) <= t.TagsAt(p) && Elems(last.exc) !! t.TagsAt(p)
      decreases |steps|
    {
      if steps == [] {
        assert inc + [] == inc && exc + [] == exc;
        assert PrintItems(steps) + ["@files"] == ["@files"];
        FilesOfClean(t);
      } else {
        var step, rest := steps[0], steps[1..];
        OfferedStepStaysClean(t, step);
        After(step).BrowsePathArrives(t, rest);
        LookupFollowsName(step);
        assert PrintItems(steps)[1..] == PrintItems(rest);
        assert (PrintItems(steps) + ["@files"])[1..] == PrintItems(rest) + ["@files"];
        StepNarrows(t, step);
        StepAppends(step, rest);
      }
    }

    lemma StepAppends(step: Signed, rest: seq<Signed>)
      ensures var next := After(step);
              && next.inc + Included(rest) == inc + Included([step] + rest)
              && next.exc + Excluded(rest) == exc + Excluded([step] + rest)
    {
      assert ([step] + rest)[1..] == rest;
    }

    lemma FilesOfClean(t: Tables)
      requires Clean()
      ensures Files(t) == set p | p in t.files && Elems(inc) <= t.TagsAt(p) && Elems(exc) !! t.TagsAt(p)
    {
      forall p ensures p in Files(t) <==>
          p in t.files && Elems(inc) <= t.TagsAt(p) && Elems(exc) !! t.TagsAt(p)
      {
        t.BrowseMeaning(inc, exc, p);
      }
    }

    /** Choosing an offered tag finds some of the files here; choosing it and
        refusing it share out the files here between them. */
    lemma StepNarrows(t: Tables, step: Signed)
      requires step.tag in Offered(t)
      ensures After(step).Files(t) <= Files(t)
      ensures !step.negated ==> After(step).Files(t) != {}
      ensures After(Signed(false, step.tag)).Files(t) + After(Signed(true, step.tag)).Files(t) == Files(t)
      ensures After(Signed(false, step.tag)).Files(t) !! After(Signed(true, step.tag)).Files(t)
    {
      t.ListedIffOpensNonEmpty(inc, exc, step.tag);
      t.BrowseSplits(inc, exc, step.tag);
      FilesAreBrowsed(t, this);
      FilesAreBrowsed(t, After(Signed(false, step.tag)));
      FilesAreBrowsed(t, After(Signed(true, step.tag)));
    }
  }

  lemma EncodeOfNothing()
    ensures Encode("") == ""
  {
  }

  /** The files under a level, as the directory node asks for them: files with all of
      the included tags and none of the excluded, all of them up to ten thousand. A
      level that includes a tag twice has none. */
  method BrowseQuery(idx: DB, dir: BrowseDir) returns (paths: seq<string>)
    ensures Distinct(paths)
    ensures var here := set p | p in idx.files && Distinct(dir.inc)
                                && Elems(dir.inc) <= idx.T().TagsAt(p) && Elems(dir.exc) !! idx.T().TagsAt(p);
            && Elems(paths) <= here
            && |paths| == (if |here| <= 10_000 then |here| else 10_000)
  {
    var results, total := idx.Search(dir.Query());
    paths := results;
    FilesOfLevel(idx.T(), dir);
  }

  lemma FilesOfLevel(t: Tables, dir: BrowseDir)
    ensures t.Selected(dir.Query()) == set p | p in t.files && Distinct(dir.inc)
                                               && Elems(dir.inc) <= t.TagsAt(p) && Elems(dir.exc) !! t.TagsAt(p)
  {
    FilesAreBrowsed(t, dir);
    var level := set p | p in t.files && Distinct(dir.inc)
                         && Elems(dir.inc) <= t.TagsAt(p) && Elems(dir.exc) !! t.TagsAt(p);
    forall p ensures p in t.Browse(dir.inc, dir.exc) <==> p in level {
      t.BrowseMeaning(dir.inc, dir.exc, p);
    }
  }

  /** The files in the directory of a name: those that satisfy its expression, all of
      them up to ten thousand; none if an AND repeats a tag. "@untagged" has the files
      without tags. */
  method TagQuery(idx: DB, name: string, e: Expr, highRun: string -> bool) returns (paths: seq<string>)
    requires idx.Valid() && ParseExpr(name, highRun) == Ok(e) && (e.TagExpr? || name == "@untagged")
    ensures Distinct(paths)
    ensures var t := idx.T();
            var here := if name == "@untagged" then set p | p in t.files && t.TagsAt(p) == {}
                        else if e.any || Distinct(e.tags) then set p | p in t.files && Holds(e, t.TagsAt(p))
                        else {};
            && Elems(paths) <= here
            && |paths| == (if |here| <= 10_000 then |here| else 10_000)
  {
    hide TagExprOf;
    SpecialNames(name, highRun);
    var results, total := idx.Search(ToSearchParams(e, 10_000));
    paths := results;
    if name == "@untagged" {
      UntaggedSelectsTagless(idx.T(), 10_000);
    } else {
      CompilationPreservesMeaning(idx.T(), name, highRun, 10_000);
    }
  }

  lemma EncodeIsInjective(s: string, t: string)
    requires Encode(s) == Encode(t)
    ensures s == t
  {
    DecodeUndoesEncode(s);
    DecodeUndoesEncode(t);
  }

  // ----- Moving a file between directories -----

  datatype Errno = OK | ENOENT | EPERM | EXDEV | EIO

  /** The directory a file is moved to, if it is one of tags. */
  datatype Target = TagDir(name: string, expr: Expr) | OtherNode

  /** simpleTagsFromExpr: only AND expressions say what a move should change. */
  predicate IsSimple(e: Expr) {
    e.TagExpr? && !e.any
  }

  /** The move goes through to the index. */
  predicate Moves(realPath: string, warmed: bool, srcName: string, src: Expr, dest: Target) {
    && dest.TagDir? && warmed && realPath != "" && srcName != dest.name
    && src.TagExpr? && !src.any && dest.expr.TagExpr? && !dest.expr.any
  }

  /** Rename: the file is looked up in the source's cache, if that could be warmed; the
      source's included tags are removed one by one, then the destination's are added;
      index errors are only logged. Afterwards neither cache answers before it has
      queried again. */
  method Rename(
    idx: DB, name: string, srcName: string, src: Expr, cache: DirCache.TagCache, warmed: bool,
    dest: Target, destCache: DirCache.TagCache)
    returns (r: Errno)
    requires idx.Valid() && cache.Valid() && destCache.Valid()
    modifies idx, cache`byName, destCache`byName
    ensures idx.Valid() && idx.files == old(idx.files) && cache.Valid() && destCache.Valid()
    ensures var realPath := old(cache.RealPathOf(name));
            && r == (if dest.OtherNode? then EXDEV
                     else if !warmed then EIO
                     else if realPath == "" then ENOENT
                     else if srcName == dest.name then OK
                     else if src.TagExpr? && !src.any && dest.expr.TagExpr? && !dest.expr.any then OK
                     else EPERM)
            && idx.T().Rel() ==
                 (if Moves(realPath, warmed, srcName, src, dest) && realPath in idx.files
                  then WithTags(old(idx.T().Rel()), realPath,
                                (old(idx.T().TagsAt(realPath)) - Elems(src.tags)) + Elems(dest.expr.tags))
                  else old(idx.T().Rel()))
            && (if Moves(realPath, warmed, srcName, src, dest)
                then forall now :: !cache.IsFresh(now) && !destCache.IsFresh(now)
                else cache.byName == old(cache.byName) && destCache.byName == old(destCache.byName))
  {
    if dest.OtherNode? {
      return EXDEV;
    }
    if !warmed {
      return EIO;
    }
    var realPath := cache.RealPathOf(name);
    if realPath == "" {
      return ENOENT;
    }
    if srcName == dest.name {
      return OK;
    }
    if !IsSimple(src) || !IsSimple(dest.expr) {
      return EPERM;
    }
    Retag(idx, realPath, src, dest.expr);
    cache.Invalidate();
    destCache.Invalidate();
    return OK;
  }

  method Retag(idx: DB, path: string, src: Expr, dst: Expr)
    requires idx.Valid() && IsSimple(src) && IsSimple(dst)
    modifies idx
    ensures idx.Valid() && idx.files == old(idx.files)
    ensures idx.T().Rel() ==
            if path in idx.files
            then WithTags(old(idx.T().Rel()), path, (old(idx.T().TagsAt(path)) - Elems(src.tags)) + Elems(dst.tags))
            else old(idx.T().Rel())
  {
    ghost var before, own := idx.T().Rel(), idx.T().TagsAt(path);
    ModifyOneByOne(idx, path, src.tags, "remove");
    RelGivesTags(idx.T(), path);
    WithTagsTwice(before, path, own - Elems(src.tags), (own - Elems(src.tags)) + Elems(dst.tags));
    ModifyOneByOne(idx, path, dst.tags, "add");
  }

  method ModifyOneByOne(idx: DB, path: string, names: seq<string>, op: string)
    requires idx.Valid() && op in ["add", "remove"]
    modifies idx
    ensures idx.Valid() && idx.files == old(idx.files)
    ensures idx.T().Rel() ==
            if path in idx.files
            then WithTags(old(idx.T().Rel()), path, AfterOperation(op, old(idx.T().TagsAt(path)), Elems(names)))
            else old(idx.T().Rel())
  {
    hide Tables.Rel, Tables.TagsAt, WithTags, Tables.Valid;
    ghost var before, own := idx.T().Rel(), idx.T().TagsAt(path);
    UnchangedTags(idx.T(), path);
    assert AfterOperation(op, own, Elems(names[..0])) == own;
    for i := 0 to |names|
      invariant idx.Valid() && idx.files == old(idx.files)
      invariant idx.T().Rel() == if path in idx.files
                                 then WithTags(before, path, AfterOperation(op, own, Elems(names[..i])))
                                 else before
    {
      ghost var so := AfterOperation(op, own, Elems(names[..i]));
      RelGivesTags(idx.T(), path);
      WithTagsTwice(before, path, so, AfterOperation(op, so, {names[i]}));
      assert Elems([names[i]]) == {names[i]};
      var r := idx.ModifyFileTags(path, [names[i]], op);
      ElemsOfPrefix(names, i);
      assert AfterOperation(op, own, Elems(names[..i + 1])) == AfterOperation(op, so, {names[i]});
    }
    assert names[..|names|] == names;
  }

  /** Where a moved file is listed afterwards, on the tables that a move has left. It
      may fail to arrive: exclusions of the destination are not acted on, and a
      directory that repeats a tag lists nothing. It may fail to leave: the destination
      may add all the source's tags again. */
  lemma WhereAMoveLands(
    t: Tables, path: string, was: set<string>, srcName: string, dstName: string, highRun: string -> bool, limit: nat)
    requires path in t.files && TagExprOf(srcName, highRun).Ok? && TagExprOf(dstName, highRun).Ok?
    requires var src, dst := TagExprOf(srcName, highRun).value, TagExprOf(dstName, highRun).value;
             && src.TagExpr? && !src.any && dst.TagExpr? && !dst.any
             && t.TagsAt(path) == (was - Elems(src.tags)) + Elems(dst.tags)
    ensures var src, dst := TagExprOf(srcName, highRun).value, TagExprOf(dstName, highRun).value;
            && (path in t.Selected(ToSearchParams(dst, limit))
                <==> Distinct(dst.tags) && Elems(dst.excluded) !! t.TagsAt(path))
            && (path in t.Selected(ToSearchParams(src, limit))
                <==> && Distinct(src.tags) && Elems(src.tags) <= Elems(dst.tags)
                     && Elems(src.excluded) !! t.TagsAt(path))
  {
    hide TagExprOf, Tables.TagsAt, Distinct, Tables.Matches;
    AcceptedTagsAreNotEmpty(srcName, highRun);
    AcceptedTagsAreNotEmpty(dstName, highRun);
    var src, dst := TagExprOf(srcName, highRun).value, TagExprOf(dstName, highRun).value;
    MatchesMeansHolds(t, path, src, limit);
    MatchesMeansHolds(t, path, dst, limit);
    HoldsAsSets(src, t.TagsAt(path));
    HoldsAsSets(dst, t.TagsAt(path));
    assert forall x :: x in Elems(src.tags) ==> (x in t.TagsAt(path) <==> x in Elems(dst.tags));
  }

  lemma HoldsAsSets(e: Expr, tags: set<string>)
    requires IsSimple(e)
    ensures Holds(e, tags) <==> Elems(e.tags) <= tags && Elems(e.excluded) !! tags
  {
    assert forall t :: t in e.tags <==> t in Elems(e.tags);
    assert forall t :: t in e.excluded <==> t in Elems(e.excluded);
  }
}

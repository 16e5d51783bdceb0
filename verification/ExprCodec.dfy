// The path-expression grammar of internal/fuse/expr.go. A Go string is the
// sequence of its bytes, each held as a char below 256.
module ExprCodec {
  import opened Text

  datatype Error =
    | TruncatedEncoding | InvalidEncoding
    | EmptyExpression | NotPrintable | MixedOperators
    | EmptyOrTag | NegatedOrTag
    | EmptyPart | EmptyNegation | NegationOnly | EmptyTag

  datatype Result<T> = Ok(value: T) | Err(error: Error)

  /** Only the tag expressions are looked into; every other name that starts
      with '@' is kept as it is. */
  datatype Expr =
    | TagExpr(tags: seq<string>, any: bool, excluded: seq<string>)
    | Untagged
    | Special(name: string)

  // ----- Percent encoding -----

  function EncodeChar(c: char): string {
    if c == '%' then "%25"
    else if c == '+' then "%2B"
    else if c == ',' then "%2C"
    else if c == '!' then "%21"
    else [c]
  }

  function Encode(s: string): string {
    if s == "" then "" else EncodeChar(s[0]) + Encode(s[1..])
  }

  function HexDigit(c: char): (d: int)
    ensures -1 <= d < 16
  {
    if '0' <= c <= '9' then c as int - '0' as int
    else if 'a' <= c <= 'f' then c as int - 'a' as int + 10
    else if 'A' <= c <= 'F' then c as int - 'A' as int + 10
    else -1
  }

  function Prepend(c: char, r: Result<string>): Result<string> {
    if r.Ok? then Ok([c] + r.value) else r
  }

  function After(read: string, r: Result<string>): Result<string> {
    if r.Ok? then Ok(read + r.value) else r
  }

  function Decode(s: string): Result<string> {
    if s == "" then Ok("")
    else if s[0] != '%' then Prepend(s[0], Decode(s[1..]))
    else if |s| < 3 then Err(TruncatedEncoding)
    else if HexDigit(s[1]) < 0 || HexDigit(s[2]) < 0 then Err(InvalidEncoding)
    else Prepend((16 * HexDigit(s[1]) + HexDigit(s[2])) as char, Decode(s[3..]))
  }

  predicate IsOperator(c: char) {
    c in "%+,!"
  }

  /** percentEncode: the loop, with its shortcut for names that need no encoding. */
  method PercentEncode(s: string) returns (r: string)
    ensures r == Encode(s)
  {
    if forall i :: 0 <= i < |s| ==> !IsOperator(s[i]) {
      PlainIsItsOwnCode(s);
      return s;
    }
    r := "";
    for i := 0 to |s|
      invariant r == Encode(s[..i])
    {
      EncodeConcat(s[..i], [s[i]]);
      assert s[..i + 1] == s[..i] + [s[i]];
      assert Encode([s[i]]) == EncodeChar(s[i]) + Encode("");
      r := r + EncodeChar(s[i]);
    }
    assert s[..|s|] == s;
  }

  /** percentDecode: the loop over an index that skips the digits it has read. */
  method PercentDecode(s: string) returns (r: Result<string>)
    ensures r == Decode(s)
  {
    if '%' !in s {
      NoPercentDecodesToItself(s);
      return Ok(s);
    }
    var buf := "";
    var i := 0;
    AfterNothing(s);
    while i < |s|
      invariant 0 <= i <= |s|
      invariant Decode(s) == After(buf, Decode(s[i..]))
      decreases |s| - i
    {
      ghost var rest := s[i..];
      if s[i] != '%' {
        assert rest[1..] == s[i + 1..];
        AfterMore(buf, s[i], Decode(rest[1..]));
        buf := buf + [s[i]];
      } else {
        if i + 2 >= |s| {
          return Err(TruncatedEncoding);
        }
        var hi, lo := HexDigit(s[i + 1]), HexDigit(s[i + 2]);
        if hi < 0 || lo < 0 {
          return Err(InvalidEncoding);
        }
        assert rest[3..] == s[i + 3..];
        AfterMore(buf, (16 * hi + lo) as char, Decode(rest[3..]));
        buf := buf + [(16 * hi + lo) as char];
        i := i + 2;
      }
      i := i + 1;
    }
    assert buf + "" == buf;
    r := Ok(buf);
  }

  lemma AfterNothing(s: string)
    ensures Decode(s) == After("", Decode(s[0..]))
  {
    assert s[0..] == s;
    if Decode(s).Ok? { assert "" + Decode(s).value == Decode(s).value; }
  }

  lemma AfterMore(buf: string, c: char, r: Result<string>)
    ensures After(buf, Prepend(c, r)) == After(buf + [c], r)
  {
    if r.Ok? { assert buf + ([c] + r.value) == buf + [c] + r.value; }
  }

  lemma {:induction false} PlainIsItsOwnCode(s: string)
    requires forall i :: 0 <= i < |s| ==> !IsOperator(s[i])
    ensures Encode(s) == s
  {
    if s != "" {
      PlainIsItsOwnCode(s[1..]);
      assert s == [s[0]] + s[1..];
    }
  }

  lemma {:induction false} NoPercentDecodesToItself(s: string)
    requires '%' !in s
    ensures Decode(s) == Ok(s)
  {
    if s != "" {
      NoPercentDecodesToItself(s[1..]);
      assert s == [s[0]] + s[1..];
    }
  }

  /** Decoding undoes encoding, so no two names share a code. */
  lemma {:induction false} DecodeUndoesEncode(s: string)
    ensures Decode(Encode(s)) == Ok(s)
  {
    if s != "" {
      DecodeUndoesEncode(s[1..]);
      DecodeOneCode(s[0], Encode(s[1..]));
      assert s == [s[0]] + s[1..];
    }
  }

  lemma DecodeOneCode(c: char, rest: string)
    ensures Decode(EncodeChar(c) + rest) == Prepend(c, Decode(rest))
  {
    var code := EncodeChar(c);
    assert (code + rest)[|code|..] == rest;
    if IsOperator(c) {
      assert (16 * HexDigit(code[1]) + HexDigit(code[2])) as char == c;
    }
  }

  lemma {:induction false} EncodeHidesOperators(s: string)
    ensures '+' !in Encode(s) && ',' !in Encode(s) && '!' !in Encode(s)
    ensures |Encode(s)| >= |s|
    ensures s != "" ==> Encode(s)[0] == if IsOperator(s[0]) then '%' else s[0]
  {
    if s != "" { EncodeHidesOperators(s[1..]); }
  }

  /** Decoding something never gives nothing. */
  lemma DecodeIsNotEmpty(s: string)
    requires s != "" && Decode(s).Ok?
    ensures Decode(s).value != ""
  {
  }

  lemma EncodeStep(c: char, s: string)
    ensures Encode([c] + s) == EncodeChar(c) + Encode(s) && Encode("") == ""
  {
    assert ([c] + s)[1..] == s;
  }

  lemma {:induction false} EncodeConcat(s: string, t: string)
    ensures Encode(s + t) == Encode(s) + Encode(t)
  {
    hide EncodeChar, Encode;
    if s == "" {
      EncodeStep(' ', "");
      assert s + t == t;
    } else {
      var c, rest := s[0], s[1..];
      EncodeConcat(rest, t);
      EncodeStep(c, rest);
      EncodeStep(c, rest + t);
      assert s == [c] + rest && s + t == [c] + (rest + t);
      ConcatAssociates(EncodeChar(c), Encode(rest), Encode(t));
    }
  }

  // ----- Printable names -----

  /** unicode.IsPrint over the runes of a name. A rune never spans an ASCII byte,
      so the bytes from 128 up fall into maximal runs, judged by an arbitrary
      predicate; run is the part of the current one already passed. */
  predicate PrintsAfter(run: string, s: string, highRun: string -> bool)
    decreases s
  {
    if s == "" then run == "" || highRun(run)
    else if s[0] < 128 as char then
      (run == "" || highRun(run)) && ' ' <= s[0] <= '~' && PrintsAfter("", s[1..], highRun)
    else PrintsAfter(run + [s[0]], s[1..], highRun)
  }

  predicate Printable(s: string, highRun: string -> bool) {
    PrintsAfter("", s, highRun)
  }

  lemma {:induction false} PrintsAcross(run: string, s: string, c: char, t: string, highRun: string -> bool)
    requires ' ' <= c <= '~'
    decreases s
    ensures PrintsAfter(run, s + [c] + t, highRun)
       <==> PrintsAfter(run, s, highRun) && PrintsAfter("", t, highRun)
  {
    if s == "" {
      assert (s + [c] + t)[1..] == t;
    } else {
      var next := if s[0] < 128 as char then "" else run + [s[0]];
      assert (s + [c] + t)[1..] == s[1..] + [c] + t;
      PrintsAcross(next, s[1..], c, t, highRun);
    }
  }

  lemma {:induction false} EncodePrints(run: string, s: string, highRun: string -> bool)
    decreases s
    ensures PrintsAfter(run, Encode(s), highRun) <==> PrintsAfter(run, s, highRun)
  {
    if s != "" {
      var next := if s[0] < 128 as char then "" else run + [s[0]];
      EncodePrints(next, s[1..], highRun);
      var code, rest := EncodeChar(s[0]), Encode(s[1..]);
      if |code| == 3 {
        assert code + rest == "" + [code[0]] + ([code[1]] + ([code[2]] + rest));
        PrintsAcross(run, "", code[0], [code[1]] + ([code[2]] + rest), highRun);
        PrintsAcross("", "", code[1], [code[2]] + rest, highRun);
        PrintsAcross("", "", code[2], rest, highRun);
        assert "" + [code[1]] + ([code[2]] + rest) == [code[1]] + ([code[2]] + rest);
        assert "" + [code[2]] + rest == [code[2]] + rest;
      } else {
        assert Encode(s)[1..] == rest;
      }
    }
  }

  // ----- The parser -----

  function TrimLeft(s: string): string {
    if s != "" && s[0] == ' ' then TrimLeft(s[1..]) else s
  }

  function TrimRight(s: string): string {
    if s != "" && s[|s| - 1] == ' ' then TrimRight(s[..|s| - 1]) else s
  }

  /** strings.TrimSpace on a printable name: the only printable space is ' '. */
  function Trim(s: string): string {
    TrimRight(TrimLeft(s))
  }

  function OrParts(parts: seq<string>, tags: seq<string>): Result<Expr> {
    if parts == [] then Ok(TagExpr(tags, true, []))
    else
      var raw := Trim(parts[0]);
      if raw == "" then Err(EmptyOrTag)
      else if raw[0] == '!' then Err(NegatedOrTag)
      else if Decode(raw).Err? then Err(Decode(raw).error)
      else OrParts(parts[1..], tags + [Decode(raw).value])
  }

  function AndParts(parts: seq<string>, inc: seq<string>, exc: seq<string>): Result<Expr> {
    if parts == [] then (if inc == [] then Err(NegationOnly) else Ok(TagExpr(inc, false, exc)))
    else
      var p := parts[0];
      if p == "" then Err(EmptyPart)
      else if p[0] == '!' && p[1..] == "" then Err(EmptyNegation)
      else if p[0] == '!' && inc == [] then Err(NegationOnly)
      else
        var decoded := Decode(if p[0] == '!' then p[1..] else p);
        if decoded.Err? then Err(decoded.error)
        else if decoded.value == "" then Err(EmptyTag)
        else if p[0] == '!' then AndParts(parts[1..], inc, exc + [decoded.value])
        else AndParts(parts[1..], inc + [decoded.value], exc)
  }

  function TagExprOf(name: string, highRun: string -> bool): Result<Expr> {
    if name == "" then Err(EmptyExpression)
    else if !Printable(name, highRun) then Err(NotPrintable)
    else if ',' in name then
      if '+' in name then Err(MixedOperators) else OrParts(Split(name, ','), [])
    else AndParts(Split(name, '+'), [], [])
  }

  function ParseExpr(name: string, highRun: string -> bool): Result<Expr> {
    if name != "" && name[0] == '@' then
      if name == "@untagged" then Ok(Untagged) else Ok(Special(name))
    else TagExprOf(name, highRun)
  }

  /** Names that start with '@' are kept whole, one of them known; all others are tag
      expressions. */
  lemma SpecialNames(name: string, highRun: string -> bool)
    ensures ParseExpr(name, highRun) == Ok(Untagged) <==> name == "@untagged"
    ensures name != "@untagged" && name != "" && name[0] == '@' <==> ParseExpr(name, highRun) == Ok(Special(name))
    ensures name == "" || name[0] != '@' ==> ParseExpr(name, highRun) == TagExprOf(name, highRun)
    ensures TagExprOf(name, highRun).Ok? ==> TagExprOf(name, highRun).value.TagExpr?
  {
    hide TagExprOf;
    if TagExprOf(name, highRun).Ok? {
      AcceptedTagsAreNotEmpty(name, highRun);
    }
  }

  /** The parser as written: two loops over the parts of a name. */
  method ParseTagExpr(name: string, highRun: string -> bool) returns (r: Result<Expr>)
    ensures r == TagExprOf(name, highRun)
  {
    if name == "" {
      return Err(EmptyExpression);
    }
    if !Printable(name, highRun) {
      return Err(NotPrintable);
    }
    if ',' in name {
      if '+' in name {
        return Err(MixedOperators);
      }
      r := ParseOr(Split(name, ','));
    } else {
      r := ParseAnd(Split(name, '+'));
    }
  }

  method ParseOr(rawParts: seq<string>) returns (r: Result<Expr>)
    ensures r == OrParts(rawParts, [])
  {
    var tags: seq<string> := [];
    assert rawParts[0..] == rawParts;
    for i := 0 to |rawParts|
      invariant OrParts(rawParts[i..], tags) == OrParts(rawParts, [])
    {
      assert rawParts[i..][1..] == rawParts[i + 1..];
      var raw := Trim(rawParts[i]);
      if raw == "" {
        return Err(EmptyOrTag);
      }
      if raw[0] == '!' {
        return Err(NegatedOrTag);
      }
      var decoded := PercentDecode(raw);
      if decoded.Err? {
        return Err(decoded.error);
      }
      tags := tags + [decoded.value];
    }
    r := Ok(TagExpr(tags, true, []));
  }

  method ParseAnd(parts: seq<string>) returns (r: Result<Expr>)
    ensures r == AndParts(parts, [], [])
  {
    var inc: seq<string>, exc: seq<string> := [], [];
    assert parts[0..] == parts;
    for i := 0 to |parts|
      invariant AndParts(parts[i..], inc, exc) == AndParts(parts, [], [])
    {
      assert parts[i..][1..] == parts[i + 1..];
      var p := parts[i];
      if p == "" {
        return Err(EmptyPart);
      }
      var raw := p;
      var isNot := p[0] == '!';
      if isNot {
        raw := p[1..];
        if raw == "" {
          return Err(EmptyNegation);
        }
        if |inc| == 0 {
          return Err(NegationOnly);
        }
      }
      var decoded := PercentDecode(raw);
      if decoded.Err? {
        return Err(decoded.error);
      }
      if decoded.value == "" {
        return Err(EmptyTag);
      }
      if isNot {
        exc := exc + [decoded.value];
      } else {
        inc := inc + [decoded.value];
      }
    }
    if |inc| == 0 {
      return Err(NegationOnly);
    }
    r := Ok(TagExpr(inc, false, exc));
  }

  // ----- Printing and reading back -----

  datatype Signed = Signed(negated: bool, tag: string)

  function Included(items: seq<Signed>): seq<string> {
    if items == [] then []
    else (if items[0].negated then [] else [items[0].tag]) + Included(items[1..])
  }

  function Excluded(items: seq<Signed>): seq<string> {
    if items == [] then []
    else (if items[0].negated then [items[0].tag] else []) + Excluded(items[1..])
  }

  function PrintItem(item: Signed): string {
    (if item.negated then "!" else "") + Encode(item.tag)
  }

  function PrintItems(items: seq<Signed>): (parts: seq<string>)
    ensures |parts| == |items| && forall i :: 0 <= i < |items| ==> parts[i] == PrintItem(items[i])
  {
    if items == [] then [] else [PrintItem(items[0])] + PrintItems(items[1..])
  }

  function EncodeAll(tags: seq<string>): (parts: seq<string>)
    ensures |parts| == |tags| && forall i :: 0 <= i < |tags| ==> parts[i] == Encode(tags[i])
  {
    if tags == [] then [] else [Encode(tags[0])] + EncodeAll(tags[1..])
  }

  function PrintAnd(items: seq<Signed>): string
    requires items != []
  {
    Join(PrintItems(items), '+')
  }

  function PrintOr(tags: seq<string>): string
    requires tags != []
  {
    Join(EncodeAll(tags), ',')
  }

  ghost predicate Proper(tag: string, highRun: string -> bool) {
    tag != "" && Printable(tag, highRun)
  }

  lemma {:induction false} JoinPrints(parts: seq<string>, sep: char, highRun: string -> bool)
    requires parts != [] && ' ' <= sep <= '~'
    ensures Printable(Join(parts, sep), highRun) <==> forall i :: 0 <= i < |parts| ==> Printable(parts[i], highRun)
  {
    if |parts| > 1 {
      JoinPrints(parts[1..], sep, highRun);
      PrintsAcross("", parts[0], sep, Join(parts[1..], sep), highRun);
    }
  }

  lemma {:induction false} JoinLacks(parts: seq<string>, sep: char, c: char)
    requires parts != [] && c != sep && forall i :: 0 <= i < |parts| ==> c !in parts[i]
    ensures c !in Join(parts, sep)
  {
    if |parts| > 1 { JoinLacks(parts[1..], sep, c); }
  }

  lemma {:induction false} AndPartsReadBack(items: seq<Signed>, inc: seq<string>, exc: seq<string>)
    requires forall i :: 0 <= i < |items| ==> items[i].tag != ""
    requires inc != []
    ensures AndParts(PrintItems(items), inc, exc)
         == Ok(TagExpr(inc + Included(items), false, exc + Excluded(items)))
  {
    hide Decode, Encode, PrintItem;
    if items == [] {
      assert inc + [] == inc && exc + [] == exc;
    } else {
      var it, rest := items[0], items[1..];
      PartReadsBack(it);
      var parts := PrintItems(items);
      assert parts[1..] == PrintItems(rest);
      if it.negated {
        AndPartsReadBack(rest, inc, exc + [it.tag]);
        assert exc + [it.tag] + Excluded(rest) == exc + Excluded(items);
        assert Included(items) == Included(rest);
      } else {
        AndPartsReadBack(rest, inc + [it.tag], exc);
        assert inc + [it.tag] + Included(rest) == inc + Included(items);
        assert Excluded(items) == Excluded(rest);
      }
    }
  }

  /** How the parser sees one printed item. */
  lemma PartReadsBack(it: Signed)
    requires it.tag != ""
    ensures var p := PrintItem(it);
            && p != "" && (p[0] == '!' <==> it.negated)
            && (it.negated ==> p[1..] != "")
            && Decode(if p[0] == '!' then p[1..] else p) == Ok(it.tag)
  {
    DecodeUndoesEncode(it.tag);
    EncodeHidesOperators(it.tag);
    assert ("!" + Encode(it.tag))[1..] == Encode(it.tag);
    assert "" + Encode(it.tag) == Encode(it.tag);
  }

  /** Any mixture of included and excluded tags, printed with '+' and '!', reads
      back as its included and its excluded tags in order, except that an
      expression may not begin with an exclusion. */
  lemma AndRoundTrip(items: seq<Signed>, highRun: string -> bool)
    requires items != [] && forall i :: 0 <= i < |items| ==> Proper(items[i].tag, highRun)
    ensures TagExprOf(PrintAnd(items), highRun)
         == if items[0].negated then Err(NegationOnly)
            else Ok(TagExpr(Included(items), false, Excluded(items)))
  {
    hide AndParts, OrParts, PrintItems, Printable, Split, Join;
    PrintAndIsClean(items, highRun);
    SplitUndoesJoin(PrintItems(items), '+');
    AndPartsReadBackFromStart(items);
  }

  lemma AndPartsReadBackFromStart(items: seq<Signed>)
    requires items != [] && forall i :: 0 <= i < |items| ==> items[i].tag != ""
    ensures AndParts(PrintItems(items), [], [])
         == if items[0].negated then Err(NegationOnly)
            else Ok(TagExpr(Included(items), false, Excluded(items)))
  {
    hide Decode, Encode, PrintItem, Included, Excluded;
    var it, rest := items[0], items[1..];
    PartReadsBack(it);
    assert PrintItems(items)[1..] == PrintItems(rest);
    if !it.negated {
      AndPartsReadBack(rest, [it.tag], []);
      FirstIsIncluded(items);
      assert [] + [it.tag] == [it.tag];
    }
  }

  lemma FirstIsIncluded(items: seq<Signed>)
    requires items != [] && !items[0].negated
    ensures Included(items) == [items[0].tag] + Included(items[1..])
    ensures Excluded(items) == [] + Excluded(items[1..])
  {
  }

  lemma PrintAndIsClean(items: seq<Signed>, highRun: string -> bool)
    requires items != [] && forall i :: 0 <= i < |items| ==> Proper(items[i].tag, highRun)
    ensures forall i :: 0 <= i < |items| ==> '+' !in PrintItems(items)[i]
    ensures PrintAnd(items) != "" && ',' !in PrintAnd(items) && Printable(PrintAnd(items), highRun)
  {
    var parts := PrintItems(items);
    forall i | 0 <= i < |items|
      ensures '+' !in parts[i] && ',' !in parts[i] && parts[i] != "" && Printable(parts[i], highRun)
    {
      PrintItemIsClean(items[i], highRun);
    }
    JoinPrints(parts, '+', highRun);
    JoinLacks(parts, '+', ',');
  }

  lemma PrintItemIsClean(item: Signed, highRun: string -> bool)
    requires Proper(item.tag, highRun)
    ensures '+' !in PrintItem(item) && ',' !in PrintItem(item) && PrintItem(item) != ""
    ensures Printable(PrintItem(item), highRun)
  {
    EncodeHidesOperators(item.tag);
    EncodePrints("", item.tag, highRun);
    PrintsAcross("", "", '!', Encode(item.tag), highRun);
    assert "" + ['!'] + Encode(item.tag) == "!" + Encode(item.tag);
    assert "" + Encode(item.tag) == Encode(item.tag);
  }

  /** A tag listed in the root directory opens as the expression for itself
      exactly when it is printable, not empty and does not start with '@'. */
  lemma RootNameOpensItself(tag: string, highRun: string -> bool)
    ensures ParseExpr(Encode(tag), highRun) == Ok(TagExpr([tag], false, []))
       <==> Proper(tag, highRun) && tag[0] != '@'
  {
    hide Decode, Split, Printable;
    EncodeHidesOperators(tag);
    EncodePrintable(tag, highRun);
    if Proper(tag, highRun) && tag[0] != '@' {
      var items := [Signed(false, tag)];
      AndRoundTrip(items, highRun);
      assert PrintAnd(items) == Encode(tag);
      assert Included(items) == [tag] && Excluded(items) == [];
    }
  }

  lemma EncodePrintable(s: string, highRun: string -> bool)
    ensures Printable(Encode(s), highRun) <==> Printable(s, highRun)
  {
    EncodePrints("", s, highRun);
  }

  lemma {:induction false} TrimCommutes(s: string)
    ensures Trim(Encode(s)) == Encode(Trim(s))
  {
    TrimLeftCommutes(s);
    TrimRightCommutes(TrimLeft(s));
  }

  lemma {:induction false} TrimLeftCommutes(s: string)
    ensures TrimLeft(Encode(s)) == Encode(TrimLeft(s))
  {
    if s != "" {
      EncodeHidesOperators(s);
      if s[0] == ' ' {
        TrimLeftCommutes(s[1..]);
        assert Encode(s)[1..] == Encode(s[1..]);
      }
    }
  }

  lemma CodeEnd(c: char)
    ensures var code := EncodeChar(c);
            code != "" && (code[|code| - 1] == ' ' <==> c == ' ') && (c == ' ' ==> code == " ")
  {
  }

  lemma {:induction false} TrimRightCommutes(s: string)
    ensures TrimRight(Encode(s)) == Encode(TrimRight(s))
  {
    if s != "" {
      hide Encode, EncodeChar;
      var front, last := s[..|s| - 1], s[|s| - 1];
      CodeEnd(last);
      EncodeSnoc(front, last);
      assert front + [last] == s;
      if last == ' ' {
        TrimRightCommutes(front);
        assert Encode(s)[..|Encode(s)| - 1] == Encode(front);
      }
    }
  }

  lemma EncodeSnoc(s: string, c: char)
    ensures Encode(s + [c]) == Encode(s) + EncodeChar(c)
  {
    EncodeConcat(s, [c]);
    assert Encode([c]) == EncodeChar(c) + Encode("");
  }

  function TrimAll(tags: seq<string>): (trimmed: seq<string>)
    ensures |trimmed| == |tags| && forall i :: 0 <= i < |tags| ==> trimmed[i] == Trim(tags[i])
  {
    if tags == [] then [] else [Trim(tags[0])] + TrimAll(tags[1..])
  }

  lemma {:induction false} OrPartsReadBack(tags: seq<string>, before: seq<string>)
    ensures OrParts(EncodeAll(tags), before)
         == if "" in TrimAll(tags) then Err(EmptyOrTag) else Ok(TagExpr(before + TrimAll(tags), true, []))
  {
    if tags == [] {
      assert before + [] == before;
    } else {
      var t, rest := Trim(tags[0]), tags[1..];
      TrimCommutes(tags[0]);
      DecodeUndoesEncode(t);
      EncodeHidesOperators(t);
      assert EncodeAll(tags)[1..] == EncodeAll(rest);
      OrPartsReadBack(rest, before + [t]);
      assert before + [t] + TrimAll(rest) == before + TrimAll(tags);
    }
  }

  /** Tags printed with ',' read back with the spaces at their ends lost; a tag
      of spaces only makes the whole expression invalid. */
  lemma OrReadBack(tags: seq<string>, highRun: string -> bool)
    requires |tags| >= 2 && forall i :: 0 <= i < |tags| ==> Proper(tags[i], highRun)
    ensures TagExprOf(PrintOr(tags), highRun)
         == if "" in TrimAll(tags) then Err(EmptyOrTag) else Ok(TagExpr(TrimAll(tags), true, []))
  {
    hide OrParts, Split, Printable, Encode, TrimAll;
    var parts := EncodeAll(tags);
    forall i | 0 <= i < |tags|
      ensures '+' !in parts[i] && ',' !in parts[i] && Printable(parts[i], highRun)
    {
      EncodeHidesOperators(tags[i]);
      EncodePrintable(tags[i], highRun);
    }
    SplitUndoesJoin(parts, ',');
    JoinPrints(parts, ',', highRun);
    JoinLacks(parts, ',', '+');
    OrPartsReadBack(tags, []);
    assert [] + TrimAll(tags) == TrimAll(tags);
  }

  predicate SpaceAtEnd(s: string) {
    s != "" && (s[0] == ' ' || s[|s| - 1] == ' ')
  }

  /** Nothing in the grammar encodes a space, so an OR expression gives back its
      tags exactly when none of them begins or ends with one. */
  lemma OrRoundTrip(tags: seq<string>, highRun: string -> bool)
    requires |tags| >= 2 && forall i :: 0 <= i < |tags| ==> Proper(tags[i], highRun)
    ensures TagExprOf(PrintOr(tags), highRun) == Ok(TagExpr(tags, true, []))
       <==> forall i :: 0 <= i < |tags| ==> !SpaceAtEnd(tags[i])
  {
    OrReadBack(tags, highRun);
    forall i | 0 <= i < |tags| ensures TrimAll(tags)[i] == tags[i] <==> !SpaceAtEnd(tags[i]) {
      TrimIsIdentity(tags[i]);
    }
    if forall i :: 0 <= i < |tags| ==> !SpaceAtEnd(tags[i]) {
      assert TrimAll(tags) == tags;
    }
  }

  lemma TrimIsIdentity(s: string)
    requires s != ""
    ensures Trim(s) == s <==> !SpaceAtEnd(s)
  {
    TrimsShorten(s);
    TrimsShorten(TrimLeft(s));
    if s[0] == ' ' { TrimsShorten(s[1..]); }
    if s[|s| - 1] == ' ' { TrimsShorten(s[..|s| - 1]); }
  }

  lemma {:induction false} TrimsShorten(s: string)
    ensures |TrimLeft(s)| <= |s| && |TrimRight(s)| <= |s|
  {
    if s != "" {
      TrimsShorten(s[1..]);
      TrimsShorten(s[..|s| - 1]);
    }
  }

  /** No accepted expression holds an empty tag. */
  lemma AcceptedTagsAreNotEmpty(name: string, highRun: string -> bool)
    requires TagExprOf(name, highRun).Ok?
    ensures TagExprOf(name, highRun).value.TagExpr?
    ensures var e := TagExprOf(name, highRun).value; e.tags != [] && "" !in e.tags && "" !in e.excluded
  {
    if ',' in name {
      OrPartsNotEmpty(Split(name, ','), []);
    } else {
      AndPartsNotEmpty(Split(name, '+'), [], []);
    }
  }

  lemma {:induction false} OrPartsNotEmpty(parts: seq<string>, tags: seq<string>)
    requires OrParts(parts, tags).Ok? && "" !in tags && (parts != [] || tags != [])
    ensures var e := OrParts(parts, tags).value;
            e.TagExpr? && e.any && e.tags != [] && "" !in e.tags && e.excluded == []
  {
    if parts != [] {
      var raw := Trim(parts[0]);
      DecodeIsNotEmpty(raw);
      OrPartsNotEmpty(parts[1..], tags + [Decode(raw).value]);
    }
  }

  lemma {:induction false} AndPartsNotEmpty(parts: seq<string>, inc: seq<string>, exc: seq<string>)
    requires AndParts(parts, inc, exc).Ok? && "" !in inc && "" !in exc
    ensures var e := AndParts(parts, inc, exc).value;
            e.TagExpr? && !e.any && e.tags != [] && "" !in e.tags && "" !in e.excluded
  {
    if parts != [] {
      var p := parts[0];
      var tag := Decode(if p[0] == '!' then p[1..] else p).value;
      if p[0] == '!' {
        AndPartsNotEmpty(parts[1..], inc, exc + [tag]);
      } else {
        AndPartsNotEmpty(parts[1..], inc + [tag], exc);
      }
    }
  }
}

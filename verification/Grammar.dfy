// The path grammar described from outside: what its codes stand for and which names
// it accepts, without reference to the functions that read them.
module Grammar {
  import opened Text
  import opened ExprCodec

  const LOWER := "0123456789abcdef"
  const UPPER := "0123456789ABCDEF"

  // ----- Codes -----

  /** c is the hexadecimal digit of this value, in either case. */
  predicate IsDigit(c: char, value: nat) {
    value < 16 && (c == LOWER[value] || c == UPPER[value])
  }

  lemma DigitValue(c: char, value: nat)
    ensures IsDigit(c, value) <==> HexDigit(c) == value
  {
    assert |LOWER| == 16 == |UPPER|;
  }

  /** s stands for t: character by character itself, or a code of two digits. */
  ghost predicate StandsFor(s: string, t: string)
    decreases |t|
  {
    if t == "" then s == ""
    else
      || (s != "" && s[0] != '%' && s[0] == t[0] && StandsFor(s[1..], t[1..]))
      || (|s| >= 3 && s[0] == '%' && StandsFor(s[3..], t[1..])
          && exists hi: nat, lo: nat :: IsDigit(s[1], hi) && IsDigit(s[2], lo) && t[0] == (16 * hi + lo) as char)
  }

  lemma PrependIs(c: char, r: Result<string>, t: string)
    ensures Prepend(c, r) == Ok(t) <==> t != "" && c == t[0] && r == Ok(t[1..])
  {
    if Prepend(c, r) == Ok(t) {
      assert t == [c] + r.value;
    }
    if t != "" && c == t[0] && r == Ok(t[1..]) {
      assert t == [c] + t[1..];
    }
  }

  /** Decoding succeeds with t exactly if the name stands for t. */
  lemma {:induction false} DecodeMeaning(s: string, t: string)
    ensures Decode(s) == Ok(t) <==> StandsFor(s, t)
    decreases |s|
  {
    hide HexDigit, IsDigit, Prepend;
    if s != "" && s[0] != '%' {
      PrependIs(s[0], Decode(s[1..]), t);
      if t != "" { DecodeMeaning(s[1..], t[1..]); }
    } else if |s| >= 3 {
      var hi, lo := HexDigit(s[1]), HexDigit(s[2]);
      forall v: nat ensures IsDigit(s[1], v) <==> hi == v { DigitValue(s[1], v); }
      forall v: nat ensures IsDigit(s[2], v) <==> lo == v { DigitValue(s[2], v); }
      if hi >= 0 && lo >= 0 {
        PrependIs((16 * hi + lo) as char, Decode(s[3..]), t);
        if t != "" { DecodeMeaning(s[3..], t[1..]); }
        assert IsDigit(s[1], hi) && IsDigit(s[2], lo);
      }
    }
  }

  /** The encoder writes codes for four characters ... */
  lemma FourCodes()
    ensures Encode("%") == "%25" && Encode("+") == "%2B" && Encode(",") == "%2C" && Encode("!") == "%21"
  {
    forall c: char ensures Encode([c]) == EncodeChar(c) {
      assert [c][1..] == "";
    }
  }

  /** ... and leaves all others as they are. */
  lemma {:induction false} OthersAreNotEncoded(s: string)
    requires forall i :: 0 <= i < |s| ==> s[i] != '%' && s[i] != '+' && s[i] != ',' && s[i] != '!'
    ensures Encode(s) == s
  {
    if s != "" {
      OthersAreNotEncoded(s[1..]);
      assert s == [s[0]] + s[1..];
    }
  }

  // ----- Printable and trimmed names -----

  /** A name of ASCII characters is printable exactly between ' ' and '~'. */
  lemma {:induction false} AsciiIsPrintable(s: string, highRun: string -> bool)
    requires forall i :: 0 <= i < |s| ==> s[i] < 128 as char
    ensures Printable(s, highRun) <==> forall i :: 0 <= i < |s| ==> ' ' <= s[i] <= '~'
  {
    if s != "" {
      AsciiIsPrintable(s[1..], highRun);
      assert forall i :: 0 < i < |s| ==> s[i] == s[1..][i - 1];
    }
  }

  /** raw is p between its spaces. */
  ghost predicate Between(p: string, raw: string, i: nat, j: nat) {
    && i <= j <= |p| && raw == p[i..j]
    && (forall k :: 0 <= k < i || j <= k < |p| ==> p[k] == ' ')
    && (raw != "" ==> raw[0] != ' ' && raw[|raw| - 1] != ' ')
  }

  lemma TrimMeaning(p: string)
    ensures exists i, j :: Between(p, Trim(p), i, j)
  {
    var left := TrimLeft(p);
    var i := LeftSpaces(p);
    var j := RightSpaces(left);
    assert Trim(p) == left[..j] == p[i..i + j];
    assert forall k :: 0 <= k < |left| ==> left[k] == p[i + k];
    assert forall k :: i + j <= k < |p| ==> p[k] == left[k - i];
    assert Between(p, Trim(p), i, i + j);
  }

  lemma {:induction false} LeftSpaces(p: string) returns (i: nat)
    ensures i <= |p| && TrimLeft(p) == p[i..] && (forall k :: 0 <= k < i ==> p[k] == ' ')
    ensures i < |p| ==> p[i] != ' '
  {
    if p != "" && p[0] == ' ' {
      i := LeftSpaces(p[1..]);
      assert forall k :: 0 < k <= i ==> p[k] == p[1..][k - 1];
      i := i + 1;
    } else {
      i := 0;
    }
  }

  lemma {:induction false} RightSpaces(p: string) returns (j: nat)
    ensures j <= |p| && TrimRight(p) == p[..j] && (forall k :: j <= k < |p| ==> p[k] == ' ')
    ensures j > 0 ==> p[j - 1] != ' '
  {
    if p != "" && p[|p| - 1] == ' ' {
      j := RightSpaces(p[..|p| - 1]);
    } else {
      j := |p|;
      assert p[..j] == p;
    }
  }

  // ----- Accepted names -----

  /** A part of an AND expression: a tag's name, or one behind '!'. */
  ghost predicate Reads(part: string, item: Signed) {
    && part != "" && item.tag != "" && (part[0] == '!' <==> item.negated)
    && StandsFor(if item.negated then part[1..] else part, item.tag)
  }

  ghost predicate ReadsAs(parts: seq<string>, items: seq<Signed>) {
    |items| == |parts| && forall i :: 0 <= i < |parts| ==> Reads(parts[i], items[i])
  }

  /** A part of an OR expression: a tag's name between spaces. */
  ghost predicate OrReads(part: string, tag: string) {
    Trim(part) != "" && Trim(part)[0] != '!' && StandsFor(Trim(part), tag)
  }

  ghost predicate OrReadsAs(parts: seq<string>, tags: seq<string>) {
    |tags| == |parts| && forall i :: 0 <= i < |parts| ==> OrReads(parts[i], tags[i])
  }

  /** What a name without '@' at its start means, if anything: separated by ',' tags of
      which one is wanted; or separated by '+' tags that are wanted and, behind '!',
      tags that are not, of which the first is wanted. Both separators together mean
      nothing. */
  ghost predicate Means(name: string, e: Expr) {
    if ',' in name then
      '+' !in name && exists tags :: OrReadsAs(Split(name, ','), tags) && e == TagExpr(tags, true, [])
    else
      exists items: seq<Signed> ::
        && ReadsAs(Split(name, '+'), items) && !items[0].negated
        && e == TagExpr(Included(items), false, Excluded(items))
  }

  /** The parser accepts exactly the printable names that mean something, as what they mean. */
  lemma ParserMeaning(name: string, e: Expr, highRun: string -> bool)
    ensures TagExprOf(name, highRun) == Ok(e) <==> name != "" && Printable(name, highRun) && Means(name, e)
  {
    hide Split, Printable, AndParts, OrParts, ReadsAs, OrReadsAs;
    if name != "" {
      if ',' in name {
        OrMeaning(Split(name, ','), e);
      } else {
        AndMeaning(Split(name, '+'), e);
      }
    }
  }

  lemma OrMeaning(parts: seq<string>, e: Expr)
    ensures OrParts(parts, []) == Ok(e) <==> exists tags :: OrReadsAs(parts, tags) && e == TagExpr(tags, true, [])
  {
    hide OrParts, OrReadsAs;
    if OrParts(parts, []).Ok? {
      var tags := OrTags(parts, []);
      assert [] + tags == tags;
    }
    forall tags | OrReadsAs(parts, tags) ensures OrParts(parts, []) == Ok(TagExpr(tags, true, [])) {
      OrFromTags(parts, tags, []);
      assert [] + tags == tags;
    }
  }

  lemma {:induction false} OrTags(parts: seq<string>, before: seq<string>) returns (tags: seq<string>)
    requires OrParts(parts, before).Ok?
    ensures OrReadsAs(parts, tags) && OrParts(parts, before).value == TagExpr(before + tags, true, [])
  {
    hide Trim, Decode, StandsFor;
    if parts == [] {
      tags := [];
      assert before + tags == before;
    } else {
      var tag := Decode(Trim(parts[0])).value;
      DecodeMeaning(Trim(parts[0]), tag);
      var rest := OrTags(parts[1..], before + [tag]);
      tags := [tag] + rest;
      assert before + tags == before + [tag] + rest;
    }
  }

  lemma {:induction false} OrFromTags(parts: seq<string>, tags: seq<string>, before: seq<string>)
    requires OrReadsAs(parts, tags)
    ensures OrParts(parts, before) == Ok(TagExpr(before + tags, true, []))
  {
    hide Trim, Decode, StandsFor;
    if parts == [] {
      assert before + tags == before;
    } else {
      assert OrReads(parts[0], tags[0]);
      DecodeMeaning(Trim(parts[0]), tags[0]);
      OrFromTags(parts[1..], tags[1..], before + [tags[0]]);
      assert before + tags == before + [tags[0]] + tags[1..];
    }
  }

  lemma AndMeaning(parts: seq<string>, e: Expr)
    requires parts != []
    ensures AndParts(parts, [], []) == Ok(e) <==>
            exists items: seq<Signed> :: ReadsAs(parts, items) && !items[0].negated
                            && e == TagExpr(Included(items), false, Excluded(items))
  {
    hide AndParts, Reads, Included, Excluded;
    if AndParts(parts, [], []).Ok? {
      var items := AndItems(parts, [], []);
      assert [] + Included(items) == Included(items) && [] + Excluded(items) == Excluded(items);
    }
    forall items: seq<Signed> | ReadsAs(parts, items) && !items[0].negated
      ensures AndParts(parts, [], []) == Ok(TagExpr(Included(items), false, Excluded(items)))
    {
      AndFromItems(parts, items, [], []);
      assert [] + Included(items) == Included(items) && [] + Excluded(items) == Excluded(items);
    }
  }

  function Stripped(part: string): string {
    if part != "" && part[0] == '!' then part[1..] else part
  }

  lemma {:induction false} AndItems(parts: seq<string>, inc: seq<string>, exc: seq<string>)
    returns (items: seq<Signed>)
    requires AndParts(parts, inc, exc).Ok?
    ensures ReadsAs(parts, items)
    ensures AndParts(parts, inc, exc).value == TagExpr(inc + Included(items), false, exc + Excluded(items))
    ensures inc == [] ==> items != [] && !items[0].negated
  {
    hide Decode, StandsFor;
    if parts == [] {
      items := [];
      assert inc + [] == inc && exc + [] == exc;
    } else {
      var p := parts[0];
      var item := Signed(p[0] == '!', Decode(Stripped(p)).value);
      DecodeMeaning(Stripped(p), item.tag);
      assert Reads(p, item);
      var rest;
      if item.negated {
        rest := AndItems(parts[1..], inc, exc + [item.tag]);
      } else {
        rest := AndItems(parts[1..], inc + [item.tag], exc);
      }
      items := [item] + rest;
      OneMoreItem(item, rest, inc, exc);
    }
  }

  lemma OneMoreItem(item: Signed, rest: seq<Signed>, inc: seq<string>, exc: seq<string>)
    ensures inc + Included([item] + rest) == (if item.negated then inc else inc + [item.tag]) + Included(rest)
    ensures exc + Excluded([item] + rest) == (if item.negated then exc + [item.tag] else exc) + Excluded(rest)
  {
    assert ([item] + rest)[1..] == rest;
  }

  lemma {:induction false} AndFromItems(parts: seq<string>, items: seq<Signed>, inc: seq<string>, exc: seq<string>)
    requires ReadsAs(parts, items) && (inc == [] ==> items != [] && !items[0].negated)
    ensures AndParts(parts, inc, exc) == Ok(TagExpr(inc + Included(items), false, exc + Excluded(items)))
  {
    hide Decode, StandsFor;
    if parts == [] {
      assert inc + Included(items) == inc && exc + Excluded(items) == exc;
    } else {
      var p, item, rest := parts[0], items[0], items[1..];
      assert Reads(p, item) && items == [item] + rest;
      DecodeMeaning(Stripped(p), item.tag);
      SomethingStands(Stripped(p), item.tag);
      OneMoreItem(item, rest, inc, exc);
      if item.negated {
        AndFromItems(parts[1..], rest, inc, exc + [item.tag]);
      } else {
        AndFromItems(parts[1..], rest, inc + [item.tag], exc);
      }
    }
  }

  lemma SomethingStands(s: string, t: string)
    requires StandsFor(s, t)
    ensures s == "" <==> t == ""
  {
  }
}

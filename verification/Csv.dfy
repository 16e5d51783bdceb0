// The one line in which a file's attribute keeps its tags: how encoding/csv of the
// Go library writes and reads it, with the trimming that the tag store adds.
module Csv {
  import opened Options
  import opened Text
  import opened TagRelation

  // ----- White space -----

  /** The UTF-8 bytes of the characters that unicode.IsSpace accepts. */
  predicate Space1(a: char) { '\t' <= a <= '\r' || a == ' ' }

  predicate Space2(a: char, b: char) {
    a == 0xC2 as char && (b == 0x85 as char || b == 0xA0 as char)
  }

  predicate Space3(a: char, b: char, c: char) {
    || (a == 0xE1 as char && b == 0x9A as char && c == 0x80 as char)
    || (a == 0xE2 as char && b == 0x80 as char &&
        (0x80 as char <= c <= 0x8A as char || c == 0xA8 as char || c == 0xA9 as char || c == 0xAF as char))
    || (a == 0xE2 as char && b == 0x81 as char && c == 0x9F as char)
    || (a == 0xE3 as char && b == 0x80 as char && c == 0x80 as char)
  }

  /** How many bytes of white space s begins with: one character's, or none. */
  function SpaceAtStart(s: string): (n: nat)
    ensures n <= |s|
  {
    if |s| >= 1 && Space1(s[0]) then 1
    else if |s| >= 2 && Space2(s[0], s[1]) then 2
    else if |s| >= 3 && Space3(s[0], s[1], s[2]) then 3
    else 0
  }

  function SpaceAtEnd(s: string): (n: nat)
    ensures n <= |s|
  {
    var k := |s|;
    if k >= 1 && Space1(s[k - 1]) then 1
    else if k >= 2 && Space2(s[k - 2], s[k - 1]) then 2
    else if k >= 3 && Space3(s[k - 3], s[k - 2], s[k - 1]) then 3
    else 0
  }

  function TrimStart(s: string): string {
    if SpaceAtStart(s) == 0 then s else TrimStart(s[SpaceAtStart(s)..])
  }

  function TrimEnd(s: string): (t: string)
    ensures t <= s
  {
    if SpaceAtEnd(s) == 0 then s else TrimEnd(s[..|s| - SpaceAtEnd(s)])
  }

  function TrimSpace(s: string): string {
    TrimEnd(TrimStart(s))
  }

  // ----- Writing -----

  predicate Special(c: char) {
    c == ',' || c == '"' || c == '\r' || c == '\n'
  }

  predicate Bare(f: string) {
    forall i :: 0 <= i < |f| ==> !Special(f[i])
  }

  /** Quoted are fields with a special character, with white space at the start, and "\.". */
  predicate NeedsQuotes(f: string) {
    f != "" && (f == "\\." || !Bare(f) || SpaceAtStart(f) > 0)
  }

  function Doubled(f: string): string {
    if f == "" then "" else (if f[0] == '"' then "\"\"" else [f[0]]) + Doubled(f[1..])
  }

  function Quoted(f: string): string {
    "\"" + Doubled(f) + "\""
  }

  function WriteField(f: string): string {
    if NeedsQuotes(f) then Quoted(f) else f
  }

  function WriteFields(record: seq<string>): (codes: seq<string>)
    ensures |codes| == |record| && forall i :: 0 <= i < |codes| ==> codes[i] == WriteField(record[i])
  {
    if record == [] then [] else [WriteField(record[0])] + WriteFields(record[1..])
  }

  function WriteRecord(record: seq<string>): string {
    (if record == [] then "" else Join(WriteFields(record), ',')) + "\n"
  }

  function TrimNewlines(s: string): string {
    if s != "" && (s[|s| - 1] == '\r' || s[|s| - 1] == '\n') then TrimNewlines(s[..|s| - 1]) else s
  }

  /** The attribute value for a list of tags. */
  function ValueOf(tags: seq<string>): string {
    TrimNewlines(WriteRecord(tags))
  }

  // ----- Reading -----

  /** Line ends "\r\n" become "\n". */
  function Unix(s: string): (t: string)
    ensures |t| <= |s|
  {
    if s == "" then ""
    else if |s| >= 2 && s[0] == '\r' && s[1] == '\n' then "\n" + Unix(s[2..])
    else [s[0]] + Unix(s[1..])
  }

  /** The lines as the reader sees them: a "\r" at the very end goes as well. */
  function Lines(s: string): string {
    Unix(if s != "" && s[|s| - 1] == '\r' then s[..|s| - 1] else s)
  }

  /** The longest start without a comma or a line end. */
  function Plain(s: string): (p: string)
    ensures p <= s && (|p| < |s| ==> s[|p|] == ',' || s[|p|] == '\n')
    ensures forall i :: 0 <= i < |p| ==> p[i] != ',' && p[i] != '\n'
  {
    if s == "" || s[0] == ',' || s[0] == '\n' then ""
    else
      var p := Plain(s[1..]);
      assert forall i :: 0 <= i < |p| ==> p[i] == s[i + 1];
      [s[0]] + p
  }

  function Before(field: string, rest: Option<seq<string>>): Option<seq<string>> {
    if rest.Some? then Some([field] + rest.value) else None
  }

  /** The fields of one record, or nothing for a stray or an unclosed quote. */
  function ReadFields(s: string): Option<seq<string>>
    decreases |s|
  {
    if s != "" && s[0] == '"' then ReadQuoted(s[1..], "")
    else
      var f := Plain(s);
      if '"' in f then None
      else if |f| < |s| && s[|f|] == ',' then Before(f, ReadFields(s[|f| + 1..]))
      else Some([f])
  }

  function ReadQuoted(s: string, field: string): Option<seq<string>>
    decreases |s|
  {
    if s == "" then None
    else if s[0] != '"' then ReadQuoted(s[1..], field + [s[0]])
    else if |s| == 1 || s[1] == '\n' then Some([field])
    else if s[1] == '"' then ReadQuoted(s[2..], field + "\"")
    else if s[1] == ',' then Before(field, ReadFields(s[2..]))
    else None
  }

  function NonEmpty(names: seq<string>): seq<string> {
    if names == [] then []
    else NonEmpty(names[..|names| - 1]) + if names[|names| - 1] == "" then [] else [names[|names| - 1]]
  }

  /** The tags in an attribute value; none for a value that cannot be read. A trimmed
      value does not begin with an empty line, which the reader would skip. */
  function TagsOfValue(value: string): Option<seq<string>> {
    var line := TrimSpace(value);
    if line == "" then Some([])
    else
      var record := ReadFields(Lines(line));
      if record.None? then None else Some(NonEmpty(record.value))
  }

  // ----- What becomes of a list -----

  /** The last field loses white space at its end, unless it is quoted. */
  function KeptLast(f: string): string {
    if NeedsQuotes(f) then Unix(f) else TrimEnd(f)
  }

  function AllUnix(names: seq<string>): (r: seq<string>)
    ensures |r| == |names| && forall i :: 0 <= i < |r| ==> r[i] == Unix(names[i])
  {
    if names == [] then [] else [Unix(names[0])] + AllUnix(names[1..])
  }

  /** A list as it comes back, before empty names are dropped. */
  function Kept(names: seq<string>): (r: seq<string>)
    ensures |r| == |names|
    ensures forall i :: 0 <= i < |r| ==> r[i] == if i + 1 == |r| then KeptLast(names[i]) else Unix(names[i])
  {
    if names == [] then []
    else AllUnix(names[..|names| - 1]) + [KeptLast(names[|names| - 1])]
  }

  /** code is one way to write the field f. */
  predicate Writes(code: string, f: string) {
    code == Quoted(f) || (code == f && Bare(f))
  }

  ghost predicate AllWrite(codes: seq<string>, fields: seq<string>) {
    |codes| == |fields| && forall i :: 0 <= i < |codes| ==> Writes(codes[i], fields[i])
  }

  // ----- Reading what was written -----

  lemma DoubledStep(c: char, f: string)
    ensures Doubled([c] + f) == (if c == '"' then "\"\"" else [c]) + Doubled(f)
  {
    assert ([c] + f)[1..] == f;
  }

  lemma {:induction false} QuotedReads(f: string, rest: string, read: string)
    requires rest == "" || rest[0] == ','
    ensures ReadQuoted(Doubled(f) + "\"" + rest, read)
         == if rest == "" then Some([read + f]) else Before(read + f, ReadFields(rest[1..]))
    decreases f
  {
    var s := Doubled(f) + "\"" + rest;
    if f == "" {
      assert s == "\"" + rest && read + f == read;
      assert rest != "" ==> s[2..] == rest[1..];
    } else {
      var tail := Doubled(f[1..]) + "\"" + rest;
      assert read + [f[0]] + f[1..] == read + f;
      QuotedReads(f[1..], rest, read + [f[0]]);
      if f[0] == '"' {
        assert s == "\"\"" + tail && s[2..] == tail;
      } else {
        assert s == [f[0]] + tail && s[1..] == tail;
      }
    }
  }

  lemma {:induction false} BareIsPlain(f: string, rest: string)
    requires Bare(f) && (rest == "" || rest[0] == ',')
    ensures Plain(f + rest) == f
  {
    if f == "" {
      assert f + rest == rest;
    } else {
      assert (f + rest)[1..] == f[1..] + rest;
      BareIsPlain(f[1..], rest);
    }
  }

  lemma BareReads(f: string, rest: string)
    requires Bare(f) && (rest == "" || rest[0] == ',')
    ensures ReadFields(f + rest) == if rest == "" then Some([f]) else Before(f, ReadFields(rest[1..]))
  {
    hide Plain, ReadQuoted;
    var s := f + rest;
    BareIsPlain(f, rest);
    assert '"' !in f && (s == "" || s[0] != '"');
    assert s[|f|..] == rest;
    assert rest != "" ==> s[|f| + 1..] == rest[1..];
  }

  /** A field followed by nothing or a comma is read whatever way it was written. */
  lemma FieldReads(code: string, f: string, rest: string)
    requires Writes(code, f) && (rest == "" || rest[0] == ',')
    ensures ReadFields(code + rest) == if rest == "" then Some([f]) else Before(f, ReadFields(rest[1..]))
  {
    if code == Quoted(f) {
      hide ReadQuoted, Doubled, Bare, Plain;
      var s := code + rest;
      QuotedReads(f, rest, "");
      assert s[0] == '"' && s[1..] == Doubled(f) + "\"" + rest && "" + f == f;
    } else {
      BareReads(f, rest);
    }
  }

  lemma {:induction false} FieldsRead(codes: seq<string>, fields: seq<string>)
    requires codes != [] && AllWrite(codes, fields)
    ensures ReadFields(Join(codes, ',')) == Some(fields)
  {
    hide ReadFields, Writes;
    if |codes| == 1 {
      assert codes[0] + "" == codes[0];
      FieldReads(codes[0], fields[0], "");
      assert fields == [fields[0]];
    } else {
      var rest := "," + Join(codes[1..], ',');
      FieldReads(codes[0], fields[0], rest);
      assert Join(codes, ',') == codes[0] + rest && rest[1..] == Join(codes[1..], ',');
      FieldsRead(codes[1..], fields[1..]);
      assert fields == [fields[0]] + fields[1..];
    }
  }

  // ----- Line ends inside fields -----

  lemma UnixStep(c: char, s: string)
    requires c != '\r' || s == "" || s[0] != '\n'
    ensures Unix([c] + s) == [c] + Unix(s) && Unix("") == ""
  {
    assert ([c] + s)[1..] == s;
  }

  lemma UnixPair(s: string)
    ensures Unix("\r\n" + s) == "\n" + Unix(s)
  {
    assert ("\r\n" + s)[2..] == s;
  }

  /** Line ends do not reach across any other character. */
  lemma {:induction false} UnixAcross(a: string, c: char, b: string)
    requires c != '\r' && c != '\n'
    ensures Unix(a + [c] + b) == Unix(a) + [c] + Unix(b)
    decreases |a|
  {
    hide Unix;
    UnixStep(c, b);
    if a == "" {
      assert a + [c] + b == [c] + b;
    } else if |a| >= 2 && a[0] == '\r' && a[1] == '\n' {
      var rest := a[2..];
      UnixPair(rest);
      UnixPair(rest + [c] + b);
      assert a == "\r\n" + rest && a + [c] + b == "\r\n" + (rest + [c] + b);
      UnixAcross(rest, c, b);
      ConcatAssociates("\n", Unix(rest), [c] + Unix(b));
      assert Unix(rest) + [c] + Unix(b) == Unix(rest) + ([c] + Unix(b));
      assert "\n" + Unix(rest) + [c] + Unix(b) == "\n" + Unix(rest) + ([c] + Unix(b));
    } else {
      var rest := a[1..];
      UnixStep(a[0], rest);
      UnixStep(a[0], rest + [c] + b);
      assert a == [a[0]] + rest && a + [c] + b == [a[0]] + (rest + [c] + b);
      UnixAcross(rest, c, b);
      assert [a[0]] + (Unix(rest) + [c] + Unix(b)) == [a[0]] + Unix(rest) + [c] + Unix(b);
    }
  }

  lemma {:induction false} UnixDoubled(f: string)
    ensures Unix(Doubled(f)) == Doubled(Unix(f))
    decreases |f|
  {
    hide Unix;
    if f == "" {
      UnixStep(' ', "");
    } else if |f| >= 2 && f[0] == '\r' && f[1] == '\n' {
      var rest := f[2..];
      UnixDoubled(rest);
      UnixPair(rest);
      UnixPair(Doubled(rest));
      DoubledStep('\n', rest);
      DoubledStep('\r', "\n" + rest);
      DoubledStep('\n', Unix(rest));
      assert f == "\r\n" + rest && f == "\r" + ("\n" + rest);
      assert Doubled(f) == "\r\n" + Doubled(rest);
    } else {
      var c, rest := f[0], f[1..];
      UnixDoubled(rest);
      UnixStep(c, rest);
      DoubledStep(c, rest);
      DoubledStep(c, Unix(rest));
      assert f == [c] + rest;
      DoubledStart(rest);
      if c == '"' {
        UnixStep('"', "\"" + Doubled(rest));
        UnixStep('"', Doubled(rest));
        assert Doubled(f) == "\"" + ("\"" + Doubled(rest));
        assert "\"" + ("\"" + Unix(Doubled(rest))) == "\"\"" + Unix(Doubled(rest));
      } else {
        UnixStep(c, Doubled(rest));
      }
    }
  }

  lemma DoubledStart(f: string)
    ensures Doubled(f) == "" <==> f == ""
    ensures f != "" ==> Doubled(f)[0] == f[0]
  {
  }

  lemma {:induction false} UnixBare(f: string)
    requires Bare(f)
    ensures Unix(f) == f
  {
    if f != "" {
      UnixBare(f[1..]);
      assert f == [f[0]] + f[1..];
    }
  }

  lemma UnixKeepsCode(code: string, f: string)
    requires Writes(code, f)
    ensures Writes(Unix(code), Unix(f))
  {
    if code == Quoted(f) {
      UnixQuoted(f);
    } else {
      UnixBare(f);
    }
  }

  lemma UnixQuoted(f: string)
    ensures Unix(Quoted(f)) == Quoted(Unix(f))
  {
    hide Unix, Doubled;
    var inner := Doubled(f);
    UnixStep(' ', "");
    UnixDoubled(f);
    UnixAcross("", '"', inner + "\"");
    UnixAcross(inner, '"', "");
    assert "" + ['"'] + (inner + "\"") == Quoted(f) && inner + ['"'] + "" == inner + "\"";
    assert "" + ['"'] + (Unix(inner) + ['"'] + "") == "\"" + Unix(inner) + "\"";
  }

  lemma {:induction false} UnixJoin(codes: seq<string>)
    requires codes != []
    ensures Unix(Join(codes, ',')) == Join(AllUnix(codes), ',')
  {
    if |codes| > 1 {
      UnixAcross(codes[0], ',', Join(codes[1..], ','));
      UnixJoin(codes[1..]);
      assert AllUnix(codes)[1..] == AllUnix(codes[1..]);
    }
  }

  // ----- White space at the ends of the line -----

  lemma JoinLast(codes: seq<string>, last: string)
    ensures Join(codes + [last], ',') == (if codes == [] then "" else Join(codes, ',') + ",") + last
  {
    if codes == [] {
      assert codes + [last] == [last];
    } else {
      JoinAppend(codes, [last], ',');
    }
  }

  /** No character of white space reaches across a comma. */
  lemma {:induction false} TrimEndAcross(front: string, f: string)
    requires front == "" || front[|front| - 1] == ','
    ensures TrimEnd(front + f) == front + TrimEnd(f)
    decreases |f|
  {
    var s, k := front + f, SpaceAtEnd(f);
    SpaceAtEndAcross(front, f);
    if k > 0 {
      assert s[..|s| - k] == front + f[..|f| - k];
      TrimEndAcross(front, f[..|f| - k]);
    }
  }

  lemma SpaceHasNoComma()
    ensures forall a :: Space1(a) ==> a != ','
    ensures forall a, b :: Space2(a, b) ==> a != ',' && b != ','
    ensures forall a, b, c :: Space3(a, b, c) ==> a != ',' && b != ',' && c != ','
  {
  }

  lemma SpaceAtEndAcross(front: string, f: string)
    requires front == "" || front[|front| - 1] == ','
    ensures SpaceAtEnd(front + f) == SpaceAtEnd(f)
  {
    hide Space1, Space2, Space3;
    SpaceHasNoComma();
    var s, n := front + f, |front|;
    assert forall i :: 0 <= i < |f| ==> s[n + i] == f[i];
    assert n > 0 ==> s[n - 1] == ',';
  }

  lemma SpaceAtStartAcross(code: string, rest: string)
    requires rest == "" || rest[0] == ','
    ensures SpaceAtStart(code + rest) == SpaceAtStart(code)
  {
    hide Space1, Space2, Space3;
    SpaceHasNoComma();
    var s := code + rest;
    assert forall i :: 0 <= i < |code| ==> s[i] == code[i];
    assert rest != "" ==> s[|code|] == ',';
  }

  lemma FieldStart(f: string)
    ensures SpaceAtStart(WriteField(f)) == 0
    ensures Writes(WriteField(f), f)
  {
    if NeedsQuotes(f) {
      assert WriteField(f)[0] == '"';
    }
  }

  lemma QuotedEnd(f: string)
    ensures TrimEnd(Quoted(f)) == Quoted(f) != ""
    ensures Quoted(f)[|Quoted(f)| - 1] == '"'
  {
  }

  lemma LineStart(record: seq<string>)
    requires record != []
    ensures TrimStart(Join(WriteFields(record), ',')) == Join(WriteFields(record), ',')
  {
    var codes := WriteFields(record);
    FieldStart(record[0]);
    var rest := if |codes| == 1 then "" else "," + Join(codes[1..], ',');
    SpaceAtStartAcross(codes[0], rest);
    assert Join(codes, ',') == codes[0] + rest;
  }

  /** What trimming makes of the codes and of the fields they stand for. */
  function TrimmedCodes(record: seq<string>): (codes: seq<string>)
    requires record != []
    ensures |codes| == |record|
  {
    var n := |record| - 1;
    WriteFields(record)[..n] + [TrimEnd(WriteField(record[n]))]
  }

  function TrimmedFields(record: seq<string>): (fields: seq<string>)
    requires record != []
    ensures |fields| == |record|
  {
    var n := |record| - 1;
    record[..n] + [if NeedsQuotes(record[n]) then record[n] else TrimEnd(record[n])]
  }

  lemma LineTrims(record: seq<string>)
    requires record != []
    ensures TrimSpace(Join(WriteFields(record), ',')) == Join(TrimmedCodes(record), ',')
  {
    hide TrimEnd, WriteField, Join, TrimStart;
    var n, written := |record| - 1, WriteFields(record);
    var front := written[..n];
    LineStart(record);
    JoinLast(front, written[n]);
    JoinLast(front, TrimEnd(written[n]));
    assert written == front + [written[n]];
    TrimEndAcross(if front == [] then "" else Join(front, ',') + ",", written[n]);
  }

  lemma TrimmedWrite(record: seq<string>)
    requires record != []
    ensures AllWrite(TrimmedCodes(record), TrimmedFields(record))
  {
    hide NeedsQuotes, Doubled, TrimEnd, Quoted, WriteField, Writes, WriteFields;
    var n := |record| - 1;
    forall i | 0 <= i <= n ensures Writes(TrimmedCodes(record)[i], TrimmedFields(record)[i]) {
      FieldStart(record[i]);
      LastFieldTrims(record[i]);
    }
  }

  lemma LastFieldTrims(f: string)
    ensures Writes(TrimEnd(WriteField(f)), if NeedsQuotes(f) then f else TrimEnd(f))
  {
    hide Doubled, Quoted;
    QuotedEnd(f);
  }

  lemma TrimmedAreKept(record: seq<string>)
    requires record != []
    ensures AllUnix(TrimmedFields(record)) == Kept(record)
  {
    hide Unix, TrimEnd, AllUnix, Kept, NeedsQuotes;
    var n := |record| - 1;
    forall i | 0 <= i <= n ensures AllUnix(TrimmedFields(record))[i] == Kept(record)[i] {
      if i == n && !NeedsQuotes(record[n]) {
        BareTrimmed(record[n]);
      }
    }
  }

  lemma BareTrimmed(f: string)
    requires !NeedsQuotes(f)
    ensures Unix(TrimEnd(f)) == TrimEnd(f)
  {
    UnixBare(TrimEnd(f));
  }

  /** A written line ends neither in "\r" nor in "\n". */
  lemma LineEnd(codes: seq<string>, fields: seq<string>)
    requires codes != [] && AllWrite(codes, fields)
    ensures var line := Join(codes, ','); line == "" || (line[|line| - 1] != '\r' && line[|line| - 1] != '\n')
    ensures Join(codes, ',') == "" ==> codes == [""]
  {
    var n := |codes| - 1;
    assert codes == codes[..n] + [codes[n]];
    JoinLast(codes[..n], codes[n]);
    assert Writes(codes[n], fields[n]);
    QuotedEnd(fields[n]);
  }

  lemma WrittenWrite(record: seq<string>)
    ensures AllWrite(WriteFields(record), record)
  {
    forall i | 0 <= i < |record| ensures Writes(WriteFields(record)[i], record[i]) {
      FieldStart(record[i]);
    }
  }

  lemma ValueIsLine(record: seq<string>)
    ensures ValueOf(record) == if record == [] then "" else Join(WriteFields(record), ',')
  {
    hide WriteFields, Join, TrimNewlines;
    var line := if record == [] then "" else Join(WriteFields(record), ',');
    if record != [] {
      WrittenWrite(record);
      LineEnd(WriteFields(record), record);
    }
    NewlineTrimmed(line);
  }

  lemma NewlineTrimmed(line: string)
    requires line == "" || (line[|line| - 1] != '\r' && line[|line| - 1] != '\n')
    ensures TrimNewlines(line + "\n") == line
  {
    var whole := line + "\n";
    assert whole[..|whole| - 1] == line;
  }

  /** Codes of fields are read as these fields with their line ends changed. */
  lemma CodesRead(codes: seq<string>, fields: seq<string>)
    requires codes != [] && AllWrite(codes, fields)
    ensures var line := Join(codes, ',');
            if line == "" then NonEmpty(AllUnix(fields)) == [] else ReadFields(Lines(line)) == Some(AllUnix(fields))
  {
    hide ReadFields, Unix, Join, Writes, AllUnix;
    LineEnd(codes, fields);
    forall i | 0 <= i < |codes| ensures Writes(AllUnix(codes)[i], AllUnix(fields)[i]) {
      UnixKeepsCode(codes[i], fields[i]);
    }
    if Join(codes, ',') == "" {
      OnlyEmpty(codes, fields);
    } else {
      UnixJoin(codes);
      FieldsRead(AllUnix(codes), AllUnix(fields));
    }
  }

  lemma OnlyEmpty(codes: seq<string>, fields: seq<string>)
    requires codes == [""] && AllWrite(codes, fields)
    ensures NonEmpty(AllUnix(fields)) == []
  {
    assert Writes(codes[0], fields[0]);
    QuotedEnd(fields[0]);
    assert fields == [""];
  }

  /** Reading what was written gives the kept names, whatever the list. */
  lemma ReadingGivesKept(names: seq<string>)
    ensures TagsOfValue(ValueOf(names)) == Some(NonEmpty(Kept(names)))
  {
    hide ReadFields, TrimSpace, WriteFields, Join, Lines, TrimmedCodes, TrimmedFields;
    ValueIsLine(names);
    if names == [] {
      NothingTrimmed();
    } else {
      LineTrims(names);
      TrimmedWrite(names);
      TrimmedAreKept(names);
      CodesRead(TrimmedCodes(names), TrimmedFields(names));
    }
  }

  lemma NothingTrimmed()
    ensures TrimSpace("") == ""
  {
  }

  // ----- When a list comes back unchanged -----

  predicate HasCrLf(f: string) {
    exists i :: 0 <= i < |f| - 1 && f[i] == '\r' && f[i + 1] == '\n'
  }

  /** White space at the end that the writer does not protect by quotes. */
  predicate EndsLoose(f: string) {
    !NeedsQuotes(f) && SpaceAtEnd(f) > 0
  }

  /** A tag that every attribute gives back, wherever in the list it stands. */
  predicate Safe(tag: string) {
    tag != "" && !HasCrLf(tag) && !EndsLoose(tag)
  }

  predicate Survives(names: seq<string>) {
    && (forall i :: 0 <= i < |names| ==> !HasCrLf(names[i]))
    && (names != [] ==> !EndsLoose(names[|names| - 1]))
  }

  lemma {:induction false} UnixChanges(f: string)
    ensures if HasCrLf(f) then |Unix(f)| < |f| else Unix(f) == f
    ensures f != "" ==> Unix(f) != ""
    decreases |f|
  {
    if |f| >= 2 && f[0] == '\r' && f[1] == '\n' {
      UnixChanges(f[2..]);
    } else if f != "" {
      var rest := f[1..];
      UnixChanges(rest);
      assert f == [f[0]] + rest;
      if HasCrLf(f) {
        var i :| 0 <= i < |f| - 1 && f[i] == '\r' && f[i + 1] == '\n';
        assert rest[i - 1] == '\r' && rest[i] == '\n';
      }
    }
  }

  lemma {:induction false} AllSpaceStartsWithSpace(f: string)
    requires f != "" && TrimEnd(f) == ""
    ensures SpaceAtStart(f) > 0
    decreases |f|
  {
    var g := f[..|f| - SpaceAtEnd(f)];
    if g != "" {
      AllSpaceStartsWithSpace(g);
    }
  }

  lemma {:induction false} TrimShortens(f: string)
    ensures if SpaceAtEnd(f) > 0 then |TrimEnd(f)| < |f| else TrimEnd(f) == f
  {
  }

  /** A kept name is the name or shorter, and empty only if it was. */
  lemma KeptName(names: seq<string>, i: nat)
    requires i < |names|
    ensures var f, kept := names[i], Kept(names)[i];
            && (if HasCrLf(f) || (i + 1 == |names| && EndsLoose(f)) then |kept| < |f| else kept == f)
            && (kept == "" <==> f == "")
  {
    hide Unix, TrimEnd, Kept, HasCrLf, SpaceAtStart, SpaceAtEnd;
    var f := names[i];
    UnixChanges(f);
    if i + 1 == |names| && !NeedsQuotes(f) {
      BareHasNoCrLf(f);
      TrimShortens(f);
      if f != "" && TrimEnd(f) == "" {
        AllSpaceStartsWithSpace(f);
      }
    }
  }

  lemma BareHasNoCrLf(f: string)
    requires Bare(f)
    ensures !HasCrLf(f)
  {
  }

  lemma KeptIsSame(names: seq<string>)
    ensures Kept(names) == names <==> Survives(names)
  {
    hide Kept, HasCrLf, EndsLoose;
    forall i | 0 <= i < |names|
      ensures Kept(names)[i] == names[i] <==> !HasCrLf(names[i]) && !(i + 1 == |names| && EndsLoose(names[i]))
    {
      KeptName(names, i);
    }
    if Survives(names) {
      assert forall i :: 0 <= i < |names| ==> Kept(names)[i] == names[i];
    }
  }

  lemma {:induction false} SameNonEmpty(a: seq<string>, b: seq<string>)
    requires |a| == |b| && forall i :: 0 <= i < |a| ==> (a[i] == "" <==> b[i] == "")
    ensures NonEmpty(a) == NonEmpty(b) <==> a == b
  {
    if a != [] {
      var n := |a| - 1;
      var x, y := NonEmpty(a[..n]), NonEmpty(b[..n]);
      SameNonEmpty(a[..n], b[..n]);
      assert a == a[..n] + [a[n]] && b == b[..n] + [b[n]];
      if a[n] != "" {
        assert NonEmpty(a) == x + [a[n]] && NonEmpty(b) == y + [b[n]];
        assert x + [a[n]] == y + [b[n]] ==> x == y && a[n] == b[n] by { SameSnoc(x, a[n], y, b[n]); }
      } else {
        assert NonEmpty(a) == x && NonEmpty(b) == y;
      }
    }
  }

  lemma SameSnoc(x: seq<string>, s: string, y: seq<string>, t: string)
    ensures x + [s] == y + [t] ==> x == y && s == t
  {
    if x + [s] == y + [t] {
      assert x == (x + [s])[..|x|] && y == (y + [t])[..|y|];
      assert (x + [s])[|x|] == s && (y + [t])[|y|] == t;
    }
  }

  /** A list of tags comes back as it was written, empty names apart, if and only if
      no tag holds "\r\n" and the last does not end in unprotected white space. */
  lemma RoundTrip(names: seq<string>)
    ensures TagsOfValue(ValueOf(names)) == Some(NonEmpty(names)) <==> Survives(names)
  {
    hide TagsOfValue, ValueOf, Kept, Survives;
    ReadingGivesKept(names);
    KeptIsSame(names);
    forall i | 0 <= i < |names| ensures Kept(names)[i] == "" <==> names[i] == "" {
      KeptName(names, i);
    }
    SameNonEmpty(Kept(names), names);
  }

  lemma {:induction false} NonEmptyElems(names: seq<string>)
    ensures Elems(NonEmpty(names)) == Elems(names) - {""}
  {
    if names != [] {
      var n := |names| - 1;
      NonEmptyElems(names[..n]);
      assert names == names[..n] + [names[n]];
      assert Elems(NonEmpty(names)) == Elems(NonEmpty(names[..n])) + if names[n] == "" then {} else {names[n]};
      assert Elems(names) == Elems(names[..n]) + {names[n]};
    }
  }

  lemma {:induction false} LongestChanged(a: seq<string>, b: seq<string>, n: nat) returns (i: nat)
    requires n <= |a| == |b| && exists j :: 0 <= j < n && a[j] != b[j]
    ensures i < n && a[i] != b[i] && forall j :: 0 <= j < n && a[j] != b[j] ==> |a[j]| <= |a[i]|
  {
    if exists j :: 0 <= j < n - 1 && a[j] != b[j] {
      i := LongestChanged(a, b, n - 1);
      if a[n - 1] != b[n - 1] && |a[n - 1]| > |a[i]| {
        i := n - 1;
      }
    } else {
      i := n - 1;
    }
  }

  /** Nor can another tag take the place of one that is altered: as sets, too, what
      is read equals what was written only if every tag came back. */
  lemma RoundTripAsSet(names: seq<string>)
    requires Distinct(names)
    ensures Elems(NonEmpty(Kept(names))) == Elems(names) - {""} <==> Survives(names)
  {
    hide Kept, Survives, NonEmpty;
    var kept := Kept(names);
    KeptIsSame(names);
    NonEmptyElems(kept);
    if kept == names {
      NonEmptyElems(names);
    } else {
      var i := LongestChanged(names, kept, |names|);
      KeptName(names, i);
      if names[i] in kept {
        var j :| 0 <= j < |kept| && kept[j] == names[i];
        KeptName(names, j);
      }
      assert names[i] in Elems(names) - {""} && names[i] !in Elems(kept);
    }
  }

  /** For one: a tag that ends in a space comes back without it. */
  lemma SpaceAtEndIsLost()
    ensures TagsOfValue(ValueOf(["x "])) == Some(["x"]) && !Safe("x ")
  {
    hide TagsOfValue, ValueOf, NonEmpty, Kept, Unix, TrimEnd;
    ReadingGivesKept(["x "]);
    LooseX();
    assert Kept(["x "]) == ["x"];
    OneNonEmpty("x");
  }

  lemma LooseX()
    ensures EndsLoose("x ") && KeptLast("x ") == "x"
  {
    var f := "x ";
    assert f[..1] == "x" && SpaceAtEnd(f) == 1 && SpaceAtEnd("x") == 0;
    assert TrimEnd(f) == TrimEnd("x") == "x";
    assert Bare(f) && SpaceAtStart(f) == 0;
  }

  lemma OneNonEmpty(f: string)
    requires f != ""
    ensures NonEmpty([f]) == [f]
  {
    assert [f][..0] == [];
  }

  /** A list of safe tags survives in every order, and a list with one that is not
      can be ordered so that this tag is lost. */
  lemma SafeSurvive(names: seq<string>)
    requires forall i :: 0 <= i < |names| ==> Safe(names[i])
    ensures Survives(names) && Elems(NonEmpty(Kept(names))) == Elems(names)
  {
    hide Kept, EndsLoose, HasCrLf, NonEmpty;
    KeptIsSame(names);
    NonEmptyElems(names);
  }

  /** Every tag that is longer than this one and not the empty one is safe. */
  ghost predicate SafeBeyond(tags: set<string>, tag: string) {
    forall u :: u in tags && |u| > |tag| ==> Safe(u)
  }

  lemma LastIsLost(names: seq<string>, tag: string)
    requires Distinct(names) && tag != "" && !Safe(tag) && SafeBeyond(Elems(names), tag)
    requires tag in names ==> names[|names| - 1] == tag
    ensures tag !in NonEmpty(Kept(names)) && SafeBeyond(Elems(NonEmpty(Kept(names))), tag)
  {
    hide Kept, EndsLoose, HasCrLf, NonEmpty;
    var kept := Kept(names);
    NonEmptyElems(kept);
    forall j | 0 <= j < |kept|
      ensures kept[j] != tag && (|kept[j]| > |tag| ==> Safe(kept[j]))
    {
      KeptName(names, j);
      assert names[j] in Elems(names);
    }
    assert forall u :: u in Elems(NonEmpty(kept)) <==> u in NonEmpty(kept);
  }

  /** The tags of a set in some order, this one last if it is there. */
  lemma {:induction false} OrderedWithLast(tags: set<string>, tag: string) returns (names: seq<string>)
    ensures Distinct(names) && Elems(names) == tags
    ensures tag in tags ==> names[|names| - 1] == tag
  {
    if tags == {} {
      names := [];
    } else {
      var t :| t in tags && (tag in tags ==> t == tag);
      var front := OrderedWithLast(tags - {t}, tag);
      names := front + [t];
      assert t !in Elems(front);
      assert Elems(names) == Elems(front) + {t};
    }
  }

  lemma {:induction false} LongestUnsafe(tags: set<string>) returns (tag: string)
    requires "" !in tags && exists t :: t in tags && !Safe(t)
    ensures tag in tags && !Safe(tag) && SafeBeyond(tags, tag)
  {
    var t :| t in tags && !Safe(t);
    if exists u :: u in tags - {t} && !Safe(u) {
      var u := LongestUnsafe(tags - {t});
      tag := if |t| > |u| then t else u;
    } else {
      tag := t;
    }
  }

  // ----- Values, seen from outside -----

  /** Names that need no protection are simply joined by commas ... */
  lemma {:induction false} PlainNamesAreJoined(names: seq<string>)
    requires names != [] && forall i :: 0 <= i < |names| ==> !NeedsQuotes(names[i])
    ensures WriteFields(names) == names && ValueOf(names) == Join(names, ',')
  {
    hide NeedsQuotes;
    assert forall i :: 0 <= i < |names| ==> WriteFields(names)[i] == names[i];
    assert WriteFields(names) == names;
    ValueIsLine(names);
  }

  /** ... which are those without comma, quote and line end, not beginning with a space
      or tab, and not "\."; the others stand between quotes, with theirs doubled. */
  lemma AsciiNeedsQuotes(f: string)
    requires forall i :: 0 <= i < |f| ==> f[i] < 128 as char
    ensures NeedsQuotes(f) <==>
            || f == "\\."
            || (exists i :: 0 <= i < |f| && f[i] in [',', '"', '\r', '\n'])
            || (f != "" && f[0] in [' ', '\t', '\n', 11 as char, 12 as char, '\r'])
    ensures NeedsQuotes(f) ==> WriteField(f) == "\"" + Doubled(f) + "\""
  {
    hide SpaceAtStart, Bare, Doubled;
    BareMeaning(f);
    if f != "" { AsciiStart(f); }
  }

  lemma BareMeaning(f: string)
    ensures Bare(f) <==> !exists i :: 0 <= i < |f| && f[i] in [',', '"', '\r', '\n']
  {
    assert forall i :: 0 <= i < |f| ==> (Special(f[i]) <==> f[i] in [',', '"', '\r', '\n']);
  }

  lemma AsciiStart(f: string)
    requires f != "" && f[0] < 128 as char
    ensures SpaceAtStart(f) > 0 <==> f[0] in [' ', '\t', '\n', 11 as char, 12 as char, '\r']
  {
  }

  /** White space around a value does not matter, whoever wrote it. */
  lemma SpaceAroundIsIgnored(value: string, c: char)
    requires c in [' ', '\t', '\n', '\r']
    ensures TagsOfValue([c] + value) == TagsOfValue(value) == TagsOfValue(value + [c])
  {
    hide ReadFields, Lines;
    assert SpaceAtStart([c] + value) == 1 && ([c] + value)[1..] == value;
    TrimStartSnoc(value, c);
    TrimEndSnoc(TrimStart(value), c);
  }

  lemma {:induction false} TrimStartSnoc(s: string, c: char)
    requires c in [' ', '\t', '\n', '\r']
    ensures TrimStart(s + [c]) == if TrimStart(s) == "" then "" else TrimStart(s) + [c]
    decreases |s|
  {
    var longer, k := s + [c], SpaceAtStart(s);
    if s == "" {
      assert longer == [c] && longer[1..] == "";
    } else {
      SpaceAtStartSnoc(s, c);
      if k > 0 {
        assert longer[k..] == s[k..] + [c];
        TrimStartSnoc(s[k..], c);
      }
    }
  }

  lemma SpaceAtStartSnoc(s: string, c: char)
    requires s != "" && c in [' ', '\t', '\n', '\r']
    ensures SpaceAtStart(s + [c]) == SpaceAtStart(s)
  {
    assert forall i :: 0 <= i < |s| ==> (s + [c])[i] == s[i];
  }

  lemma TrimEndSnoc(s: string, c: char)
    requires c in [' ', '\t', '\n', '\r']
    ensures TrimEnd(s + [c]) == TrimEnd(s)
  {
    assert SpaceAtEnd(s + [c]) == 1 && (s + [c])[..|s|] == s;
  }

  /** A trimmed value has no white space at either end. */
  lemma {:induction false} TrimmedHasNoSpace(s: string)
    ensures SpaceAtStart(TrimSpace(s)) == 0 && SpaceAtEnd(TrimSpace(s)) == 0
  {
    StartTrimmed(s);
    EndTrimmed(TrimStart(s));
    var t, u := TrimStart(s), TrimSpace(s);
    assert u <= t;
    assert SpaceAtStart(u) > 0 ==> SpaceAtStart(t) > 0;
  }

  lemma {:induction false} StartTrimmed(s: string)
    ensures SpaceAtStart(TrimStart(s)) == 0
    decreases |s|
  {
    if SpaceAtStart(s) > 0 { StartTrimmed(s[SpaceAtStart(s)..]); }
  }

  lemma {:induction false} EndTrimmed(s: string)
    ensures SpaceAtEnd(TrimEnd(s)) == 0
    decreases |s|
  {
    if SpaceAtEnd(s) > 0 { EndTrimmed(s[..|s| - SpaceAtEnd(s)]); }
  }

  /** A quote inside an unquoted field makes the line unreadable, ... */
  lemma StrayQuoteFails(f: string, rest: string)
    requires f != "" && f[0] != '"' && '"' in f && (forall i :: 0 <= i < |f| ==> f[i] != ',' && f[i] != '\n')
    requires rest == "" || rest[0] == ','
    ensures ReadFields(f + rest) == None
  {
    PlainOf(f, rest);
  }

  lemma {:induction false} PlainOf(f: string, rest: string)
    requires forall i :: 0 <= i < |f| ==> f[i] != ',' && f[i] != '\n'
    requires rest == "" || rest[0] == ',' || rest[0] == '\n'
    ensures Plain(f + rest) == f
  {
    if f == "" {
      assert f + rest == rest;
    } else {
      assert (f + rest)[1..] == f[1..] + rest;
      PlainOf(f[1..], rest);
    }
  }

  /** ... and so does a quoted field that is not closed or is followed by anything but a
      comma or a line end. */
  lemma {:induction false} BadQuotesFail(f: string, rest: string, read: string)
    requires rest != "" ==> rest[0] == '"' && |rest| > 1 && rest[1] != '"' && rest[1] != ',' && rest[1] != '\n'
    ensures ReadQuoted(Doubled(f) + rest, read) == None
    decreases f
  {
    var s := Doubled(f) + rest;
    if f == "" {
      assert s == rest;
    } else {
      var tail := Doubled(f[1..]) + rest;
      if f[0] == '"' {
        assert s == "\"\"" + tail && s[2..] == tail;
        BadQuotesFail(f[1..], rest, read + "\"");
      } else {
        assert s == [f[0]] + tail && s[1..] == tail;
        BadQuotesFail(f[1..], rest, read + [f[0]]);
      }
    }
  }

  lemma BadQuotedFieldFails(f: string, rest: string)
    requires rest != "" ==> rest[0] == '"' && |rest| > 1 && rest[1] != '"' && rest[1] != ',' && rest[1] != '\n'
    ensures ReadFields("\"" + Doubled(f) + rest) == None
  {
    var s := "\"" + Doubled(f) + rest;
    BadQuotesFail(f, rest, "");
    assert s[0] == '"' && s[1..] == Doubled(f) + rest;
  }
}

// Names of the entries in a virtual directory: basenames, with a counter put
// before the extension where several files share one.
module EntryNames {
  import opened Text
  import opened TagRelation

  // ----- Decimal numbers -----

  function DigitChar(d: nat): char
    requires d < 10
  {
    '0' + d as char
  }

  function Decimal(n: nat): (s: string)
    ensures s != "" && forall i :: 0 <= i < |s| ==> '0' <= s[i] <= '9'
  {
    if n < 10 then [DigitChar(n)] else Decimal(n / 10) + [DigitChar(n % 10)]
  }

  function Value(s: string): int {
    if s == "" then 0 else 10 * Value(s[..|s| - 1]) + (s[|s| - 1] as int - '0' as int)
  }

  /** The printed digits determine the number. */
  lemma {:induction false} ValueOfDecimal(n: nat)
    ensures Value(Decimal(n)) == n
  {
    if n >= 10 {
      ValueOfDecimal(n / 10);
      assert Decimal(n)[..|Decimal(n)| - 1] == Decimal(n / 10);
    } else {
      assert Decimal(n)[..0] == "";
    }
  }

  function Pow10(k: nat): nat {
    if k == 0 then 1 else 10 * Pow10(k - 1)
  }

  const INT64_LIMIT := 0x8000_0000_0000_0000
  const BUFFER_SIZE := 20

  lemma Int64FitsBuffer()
    ensures INT64_LIMIT < Pow10(19)
  {
    assert Pow10(4) == 10_000;
    assert Pow10(8) == 100_000_000;
    assert Pow10(12) == 1_000_000_000_000;
    assert Pow10(16) == 10_000_000_000_000_000;
  }

  /** The digits still to be written. */
  function Digits(m: nat): string {
    if m == 0 then "" else Decimal(m)
  }

  lemma LastDigit(m: nat)
    requires m > 0
    ensures Digits(m) == Digits(m / 10) + [DigitChar(m % 10)]
  {
  }

  /** One turn of the loop: the last digit moves over, and one place of room with it. */
  lemma DigitMoves(n: nat, m: nat, tail: string, room: nat)
    requires 0 < m < Pow10(room) && Decimal(n) == Digits(m) + tail
    ensures Decimal(n) == Digits(m / 10) + ([DigitChar(m % 10)] + tail)
    ensures '0' + (m % 10) as char == DigitChar(m % 10)
    ensures room > 0 && m / 10 < Pow10(room - 1)
  {
    hide Decimal, Digits;
    LastDigit(m);
    ConcatAssociates(Digits(m / 10), [DigitChar(m % 10)], tail);
  }

  lemma NoDigits(n: int)
    ensures Digits(0) == "" && (n > 0 ==> Digits(n) == Decimal(n))
  {
  }

  /** intStr: digits are written from the end of a 20-byte buffer, which never
      overflows for a 64-bit int. A negative number prints as nothing. */
  method IntStr(n: int) returns (r: string)
    requires -INT64_LIMIT <= n < INT64_LIMIT
    ensures r == if n < 0 then "" else Decimal(n)
  {
    if n == 0 {
      return "0";
    }
    var buf := new char[BUFFER_SIZE](_ => 0 as char);
    var pos := buf.Length;
    var m := n;
    hide Decimal, Pow10, Digits, DigitChar;
    Int64FitsBuffer();
    NoDigits(m);
    while m > 0
      invariant 1 <= pos <= buf.Length
      invariant n < 0 ==> m == n && pos == buf.Length
      invariant n > 0 ==> 0 <= m < Pow10(pos - 1)
      invariant n > 0 ==> Decimal(n) == Digits(m) + buf[pos..]
    {
      ghost var tail := buf[pos..];
      DigitMoves(n, m, tail, pos - 1);
      pos := pos - 1;
      buf[pos] := '0' + (m % 10) as char;
      assert buf[pos..] == [DigitChar(m % 10)] + tail;
      m := m / 10;
    }
    r := buf[pos..];
  }

  // ----- Paths -----

  function StripSlashes(s: string): string {
    if s != "" && s[|s| - 1] == '/' then StripSlashes(s[..|s| - 1]) else s
  }

  function AfterSlash(s: string): (r: string)
    ensures '/' !in r
  {
    if s == "" || s[|s| - 1] == '/' then "" else AfterSlash(s[..|s| - 1]) + [s[|s| - 1]]
  }

  /** filepath.Base */
  function Base(path: string): (b: string)
    ensures b == "/" || '/' !in b
  {
    if path == "" then "."
    else
      var last := AfterSlash(StripSlashes(path));
      if last == "" then "/" else last
  }

  /** filepath.Ext: from the last dot of the last element. */
  function Ext(s: string): (e: string)
    ensures |e| <= |s| && s[|s| - |e|..] == e
    ensures '/' !in e && (e != "" ==> e[0] == '.' && '.' !in e[1..])
  {
    if s == "" || s[|s| - 1] == '/' then ""
    else if s[|s| - 1] == '.' then "."
    else
      var e := Ext(s[..|s| - 1]);
      if e == "" then "" else e + [s[|s| - 1]]
  }

  function Stem(s: string): string {
    s[..|s| - |Ext(s)|]
  }

  lemma {:induction false} NoDotNoExt(s: string)
    requires '.' !in s
    ensures Ext(s) == ""
  {
    if s != "" { NoDotNoExt(s[..|s| - 1]); }
  }

  lemma {:induction false} NoExtNoDot(s: string)
    requires Ext(s) == "" && (s == "/" || '/' !in s)
    ensures '.' !in s
  {
    if s != "" && s != "/" {
      var front, last := s[..|s| - 1], s[|s| - 1];
      assert s == front + [last] && last in s;
      assert last != '.' && Ext(front) == "";
      hide Ext;
      NoExtNoDot(front);
    }
  }

  lemma {:induction false} ExtOfConcat(s: string, e: string)
    requires e != "" && e[0] == '.' && '.' !in e[1..] && '/' !in e
    ensures Ext(s + e) == e
  {
    var n := |e| - 1;
    assert (s + e)[..|s + e| - 1] == s + e[..n];
    if n > 0 {
      assert e[n] == e[1..][n - 1];
      ExtOfConcat(s, e[..n]);
      assert e == e[..n] + [e[n]];
    }
  }

  // ----- Generated names -----

  function Generated(base: string, k: nat): string {
    Numbered(base, k) + Ext(base)
  }

  lemma NoDotInNumbered(base: string, k: nat)
    requires '.' !in base
    ensures '.' !in Numbered(base, k)
  {
    hide Decimal, Ext;
  }

  lemma GeneratedExt(base: string, k: nat)
    requires base == "/" || '/' !in base
    ensures Ext(Generated(base, k)) == Ext(base)
  {
    var front := Numbered(base, k);
    if Ext(base) == "" {
      NoExtNoDot(base);
      NoDotInNumbered(base, k);
      assert Generated(base, k) == front;
      NoDotNoExt(front);
    } else {
      hide Numbered;
      ExtOfConcat(front, Ext(base));
    }
  }

  function BeforeNumber(s: string): string {
    if s == "" then ""
    else if s[|s| - 1] == '_' then s[..|s| - 1]
    else BeforeNumber(s[..|s| - 1])
  }

  lemma {:induction false} NumberIsLast(stem: string, digits: string)
    requires '_' !in digits
    ensures BeforeNumber(stem + "_" + digits) == stem
  {
    var s := stem + "_" + digits;
    if digits == "" {
      assert s[..|s| - 1] == stem;
    } else {
      NumberIsLast(stem, digits[..|digits| - 1]);
      assert s[..|s| - 1] == stem + "_" + digits[..|digits| - 1];
      assert s[|s| - 1] == digits[|digits| - 1];
    }
  }

  function Numbered(base: string, k: nat): string {
    Stem(base) + "_" + Decimal(k)
  }

  lemma NumberedIsInjective(a: string, i: nat, b: string, j: nat)
    requires Numbered(a, i) == Numbered(b, j)
    ensures Stem(a) == Stem(b) && i == j
  {
    hide Stem, Decimal;
    NumberIsLast(Stem(a), Decimal(i));
    NumberIsLast(Stem(b), Decimal(j));
    var n := |Stem(a)| + 1;
    assert Numbered(a, i)[n..] == Decimal(i) && Numbered(b, j)[n..] == Decimal(j);
    ValueOfDecimal(i);
    ValueOfDecimal(j);
  }

  /** A generated name tells its basename and its number. */
  lemma GeneratedIsInjective(a: string, i: nat, b: string, j: nat)
    requires (a == "/" || '/' !in a) && (b == "/" || '/' !in b)
    requires Generated(a, i) == Generated(b, j)
    ensures a == b && i == j
  {
    GeneratedExt(a, i);
    GeneratedExt(b, j);
    var g, n := Generated(a, i), |Generated(a, i)| - |Ext(a)|;
    assert g[..n] == Numbered(a, i) && g[..n] == Numbered(b, j) by {
      hide Stem, Decimal, Ext;
    }
    NumberedIsInjective(a, i, b, j);
    StemAndExt(a);
    StemAndExt(b);
  }

  lemma StemAndExt(s: string)
    ensures s == Stem(s) + Ext(s)
  {
  }

  // ----- The names of a listing -----

  function CountBase(paths: seq<string>, base: string): nat {
    if paths == [] then 0
    else CountBase(paths[..|paths| - 1], base) + if Base(paths[|paths| - 1]) == base then 1 else 0
  }

  /** entryName for the i-th result. */
  function NameAt(paths: seq<string>, i: nat): string
    requires i < |paths|
  {
    var base := Base(paths[i]);
    if CountBase(paths, base) <= 1 then base else Generated(base, CountBase(paths[..i], base))
  }

  lemma {:induction false} CountGrows(paths: seq<string>, i: nat, j: nat, base: string)
    requires i <= j <= |paths|
    ensures CountBase(paths[..i], base) <= CountBase(paths[..j], base)
    ensures i < j && Base(paths[i]) == base ==> CountBase(paths[..i], base) < CountBase(paths[..j], base)
  {
    hide Base;
    if i < j {
      CountGrows(paths, i, j - 1, base);
      assert paths[..j][..j - 1] == paths[..j - 1];
    }
  }

  predicate Repeated(paths: seq<string>, i: nat)
    requires i < |paths|
  {
    CountBase(paths, Base(paths[i])) > 1
  }

  /** Two different files with one basename make it a repeated one, with different numbers. */
  lemma SameBaseDiffers(paths: seq<string>, i: nat, j: nat)
    requires i < j < |paths| && Base(paths[i]) == Base(paths[j])
    ensures Repeated(paths, i) && Repeated(paths, j)
    ensures CountBase(paths[..i], Base(paths[i])) < CountBase(paths[..j], Base(paths[i]))
  {
    var base := Base(paths[i]);
    CountGrows(paths, i, j, base);
    CountGrows(paths, j, |paths|, base);
    assert paths[..|paths|] == paths;
  }

  /** The one way two names can collide: a unique basename that looks generated. */
  ghost predicate LooksGenerated(paths: seq<string>, i: nat, j: nat)
    requires i < |paths| && j < |paths|
  {
    !Repeated(paths, i) && Repeated(paths, j) && Base(paths[i]) == NameAt(paths, j)
  }

  function Names(paths: seq<string>): seq<string> {
    seq(|paths|, i requires 0 <= i < |paths| => NameAt(paths, i))
  }

  /** All names of a listing are different exactly when no unique basename is
      also the numbered name of another file. */
  lemma NamesAreDistinct(paths: seq<string>)
    ensures Distinct(Names(paths))
       <==> forall i, j :: 0 <= i < |paths| && 0 <= j < |paths| ==> !LooksGenerated(paths, i, j)
  {
    hide NameAt, Repeated, Base, CountBase;
    var names := Names(paths);
    forall i, j | 0 <= i < j < |paths| && names[i] == names[j]
      ensures LooksGenerated(paths, i, j) || LooksGenerated(paths, j, i)
    {
      SameNameLooksGenerated(paths, i, j);
    }
    forall i, j | 0 <= i < |paths| && 0 <= j < |paths| && LooksGenerated(paths, i, j)
      ensures i != j && names[i] == names[j]
    {
      LookalikeCollides(paths, i, j);
    }
  }

  lemma LookalikeCollides(paths: seq<string>, i: nat, j: nat)
    requires i < |paths| && j < |paths| && LooksGenerated(paths, i, j)
    ensures i != j && NameAt(paths, i) == NameAt(paths, j)
  {
    hide Base, Generated, CountBase;
  }

  lemma SameNameLooksGenerated(paths: seq<string>, i: nat, j: nat)
    requires i < j < |paths| && NameAt(paths, i) == NameAt(paths, j)
    ensures LooksGenerated(paths, i, j) || LooksGenerated(paths, j, i)
  {
    hide Base, Generated, CountBase;
    var a, b := Base(paths[i]), Base(paths[j]);
    if a == b {
      SameBaseDiffers(paths, i, j);
    }
    if Repeated(paths, i) && Repeated(paths, j) {
      var m, n := CountBase(paths[..i], a), CountBase(paths[..j], b);
      GeneratedIsInjective(a, m, b, n);
      assert false;
    }
  }

  lemma {:induction false} AfterSlashOfJoin(dir: string, base: string)
    requires '/' !in base
    ensures AfterSlash(dir + "/" + base) == base
  {
    var s := dir + "/" + base;
    if base == "" {
      assert s[|s| - 1] == '/';
    } else {
      AfterSlashOfJoin(dir, base[..|base| - 1]);
      assert s[..|s| - 1] == dir + "/" + base[..|base| - 1];
      assert base == base[..|base| - 1] + [base[|base| - 1]];
    }
  }

  lemma BaseOfJoin(dir: string, base: string)
    requires base != "" && '/' !in base
    ensures Base(dir + "/" + base) == base
  {
    var s := dir + "/" + base;
    assert s[|s| - 1] == base[|base| - 1];
    AfterSlashOfJoin(dir, base);
  }

  /** Collisions do occur: next to two files called base, a file that happens to
      bear the first one's numbered name. */
  lemma LookalikesCollide(p: string, q: string, r: string, base: string)
    requires base != "" && '/' !in base
    ensures !Distinct(Names([p + "/" + base, q + "/" + base, r + "/" + Generated(base, 0)]))
  {
    var g := Generated(base, 0);
    var paths := [p + "/" + base, q + "/" + base, r + "/" + g];
    BaseOfJoin(p, base);
    BaseOfJoin(q, base);
    BaseOfJoin(r, g);
    assert g != base by {
      assert |g| == |base| + 2 by { StemAndExt(base); }
    }
    hide Base, Generated;
    assert paths[..2] == [p + "/" + base, q + "/" + base] && paths[..2][..1] == [p + "/" + base];
    assert paths[..1] == [p + "/" + base] && paths[..0] == [] && paths[..1][..0] == [];
    assert CountBase(paths[..0], base) == 0 && CountBase(paths[..1], base) == 1;
    assert CountBase(paths[..2], base) == 2 && CountBase(paths, base) == 2;
    assert CountBase(paths[..0], g) == 0 && CountBase(paths[..1], g) == 0;
    assert CountBase(paths[..2], g) == 0 && CountBase(paths, g) == 1;
    assert Names(paths)[0] == g == Names(paths)[2];
  }

  // ----- Names, seen from outside -----

  ghost function EarlierWith(paths: seq<string>, i: nat, base: string): set<nat>
    requires i <= |paths|
  {
    set j: nat | j < i && Base(paths[j]) == base
  }

  lemma {:induction false} CountIsEarlier(paths: seq<string>, i: nat, base: string)
    requires i <= |paths|
    ensures CountBase(paths[..i], base) == |EarlierWith(paths, i, base)|
  {
    hide Base;
    if i > 0 {
      var n := i - 1;
      CountIsEarlier(paths, n, base);
      assert paths[..i][..n] == paths[..n];
      assert EarlierWith(paths, i, base)
          == EarlierWith(paths, n, base) + if Base(paths[n]) == base then {n} else {};
    } else {
      assert EarlierWith(paths, 0, base) == {};
    }
  }

  /** A file whose basename no other has is listed under it; one that shares it is
      listed with the number of those before it put in front of the extension. */
  lemma ListedName(paths: seq<string>, i: nat, stem: string, ext: string)
    requires i < |paths| && Base(paths[i]) == stem + ext && '/' !in stem + ext
    requires if ext == "" then '.' !in stem else ext[0] == '.' && '.' !in ext[1..]
    ensures (forall j :: 0 <= j < |paths| && j != i ==> Base(paths[j]) != stem + ext) ==> NameAt(paths, i) == stem + ext
    ensures (exists j :: 0 <= j < |paths| && j != i && Base(paths[j]) == stem + ext) ==>
              NameAt(paths, i) == stem + "_" + Decimal(|EarlierWith(paths, i, stem + ext)|) + ext
  {
    var base := stem + ext;
    if ext == "" {
      assert base == stem;
      NoDotNoExt(base);
    } else {
      ExtOfConcat(stem, ext);
    }
    assert Ext(base) == ext && Stem(base) == stem;
    hide Base, Ext, Stem, Decimal, CountBase, EarlierWith;
    CountIsEarlier(paths, i, base);
    SharedIfCounted(paths, i, base);
  }

  lemma SharedIfCounted(paths: seq<string>, i: nat, base: string)
    requires i < |paths| && Base(paths[i]) == base
    ensures CountBase(paths, base) > 1 <==> exists j :: 0 <= j < |paths| && j != i && Base(paths[j]) == base
  {
    hide Base, CountBase;
    var all := EarlierWith(paths, |paths|, base);
    CountIsEarlier(paths, |paths|, base);
    assert paths[..|paths|] == paths && i in all;
    if j :| 0 <= j < |paths| && j != i && Base(paths[j]) == base {
      SubsetSize({i, j}, all);
    } else {
      assert all == {i};
    }
  }

  lemma FirstNumbers()
    ensures Decimal(0) == "0" && Decimal(7) == "7" && Decimal(10) == "10" && Decimal(123) == "123"
  {
    assert Decimal(12) == "12";
  }
}

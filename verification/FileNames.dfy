/** File names per iteration: how HandleMgr builds them and how ParallelDataCollector::listFilesInDir reads them back. */
module FileNames {
  import opened Arithmetic
  import opened Options

  const NPOS := 0xFFFF_FFFF_FFFF_FFFF

  // ---- Decimal numbers ----------------------------------------------------------------------------

  predicate IsDigit(c: char) {
    '0' <= c <= '9'
  }

  function Digit(d: nat): (c: char)
    requires d < 10
    ensures IsDigit(c) && DigitValue(c) == d
  {
    "0123456789"[d]
  }

  function DigitValue(c: char): (d: nat)
    requires IsDigit(c)
    ensures d < 10
  {
    c as int - '0' as int
  }

  /** What a stream prints for an unsigned number. */
  function Dec(n: nat): (s: string)
    ensures |s| > 0 && AllDigits(s)
  {
    if n < 10 then [Digit(n)] else Dec(n / 10) + [Digit(n % 10)]
  }

  predicate AllDigits(s: string) {
    forall i | 0 <= i < |s| :: IsDigit(s[i])
  }

  function Value(s: string): nat
    requires AllDigits(s)
  {
    if |s| == 0 then 0 else Value(s[..|s| - 1]) * 10 + DigitValue(s[|s| - 1])
  }

  /** Printing and reading a number gives the number back, so different numbers print differently. */
  lemma {:induction false} ValueOfDec(n: nat)
    ensures Value(Dec(n)) == n
  {
    if n >= 10 {
      ValueOfDec(n / 10);
      assert Dec(n)[..|Dec(n)| - 1] == Dec(n / 10);
    } else {
      assert Dec(n)[..0] == "";
    }
  }

  // ---- std::string --------------------------------------------------------------------------------

  predicate OccursAt(s: string, pattern: string, i: nat) {
    i + |pattern| <= |s| && s[i..i + |pattern|] == pattern
  }

  /** std::string::find from position i. */
  function FindFrom(s: string, pattern: string, i: nat): (r: nat)
    ensures r == NPOS || (r >= i && OccursAt(s, pattern, r))
    ensures forall k | i <= k < r && k < |s| :: !OccursAt(s, pattern, k)
    decreases |s| - i
  {
    if i >= |s| then NPOS
    else if OccursAt(s, pattern, i) then i
    else FindFrom(s, pattern, i + 1)
  }

  function Find(s: string, pattern: string): nat {
    FindFrom(s, pattern, 0)
  }

  /** std::string::rfind among the first n positions. */
  function RFindBelow(s: string, pattern: string, n: nat): (r: nat)
    requires n <= |s| < NPOS
    ensures r == NPOS || (r < n && OccursAt(s, pattern, r))
    ensures r == NPOS ==> forall k | 0 <= k < n :: !OccursAt(s, pattern, k)
    ensures r != NPOS ==> forall k | r < k < n :: !OccursAt(s, pattern, k)
  {
    if n == 0 then NPOS
    else if OccursAt(s, pattern, n - 1) then n - 1
    else RFindBelow(s, pattern, n - 1)
  }

  function RFind(s: string, pattern: string): nat
    requires |s| < NPOS
  {
    RFindBelow(s, pattern, |s|)
  }

  /** std::string::substr for a start inside the string. */
  function Substr(s: string, start: nat, length: nat): string
    requires start <= |s|
  {
    if start + length <= |s| then s[start..start + length] else s[start..]
  }

  // ---- strtol -------------------------------------------------------------------------------------

  predicate IsSpace(c: char) {
    c == ' ' || (9 as char <= c <= 13 as char)
  }

  function SkipSpace(s: string, i: nat): (r: nat)
    requires i <= |s|
    ensures i <= r <= |s| && forall k | i <= k < r :: IsSpace(s[k])
    decreases |s| - i
  {
    if i < |s| && IsSpace(s[i]) then SkipSpace(s, i + 1) else i
  }

  function SkipDigits(s: string, i: nat): (r: nat)
    requires i <= |s|
    ensures i <= r <= |s| && AllDigits(s[i..r]) && (r < |s| ==> !IsDigit(s[r]))
    decreases |s| - i
  {
    if i < |s| && IsDigit(s[i]) then
      var r := SkipDigits(s, i + 1);
      assert s[i..r] == [s[i]] + s[i + 1..r];
      r
    else i
  }

  const LONG_MAX: int := 0x7FFF_FFFF_FFFF_FFFF
  const LONG_MIN: int := -0x8000_0000_0000_0000

  /** strtol in base 10: the number, clamped to long, and the index of the first character not used. */
  function Strtol(s: string): (r: (int, nat))
    ensures r.1 <= |s| && forall k | 0 <= k < r.1 :: IsSpace(s[k]) || s[k] == '-' || s[k] == '+' || IsDigit(s[k])
  {
    var i := SkipSpace(s, 0);
    var negative := i < |s| && s[i] == '-';
    var j := if i < |s| && (s[i] == '-' || s[i] == '+') then i + 1 else i;
    var k := SkipDigits(s, j);
    if k == j then (0, 0)
    else
      assert forall m | j <= m < k :: s[m] == s[j..k][m - j];
      var digits: int := Value(s[j..k]);
      var v := if negative then -digits else digits;
      (if v > LONG_MAX then LONG_MAX else if v < LONG_MIN then LONG_MIN else v, k)
  }

  lemma {:induction false} SpaceSkipped(s: string, i: nat, j: nat)
    requires i <= j <= |s| && (forall m | i <= m < j :: s[m] in " \t\n\r" || s[m] == 11 as char || s[m] == 12 as char)
    requires j < |s| ==> !IsSpace(s[j])
    ensures SkipSpace(s, i) == j
    decreases j - i
  {
    if i < j {
      SpaceSkipped(s, i + 1, j);
    }
  }

  lemma {:induction false} DigitsSkipped(s: string, i: nat, j: nat)
    requires i <= j <= |s| && AllDigits(s[i..j]) && (j < |s| ==> !IsDigit(s[j]))
    ensures SkipDigits(s, i) == j
    decreases j - i
  {
    if i < j {
      assert s[i] == s[i..j][0];
      assert s[i + 1..j] == s[i..j][1..];
      DigitsSkipped(s, i + 1, j);
    }
  }

  /** strtol reads white space up to i, a sign up to j and digits up to k, and stays within the range of long. */
  lemma StrtolReads(s: string, i: nat, j: nat, k: nat)
    requires i <= j <= k <= |s|
    requires forall m | 0 <= m < i :: s[m] in " \t\n\r" || s[m] == 11 as char || s[m] == 12 as char
    requires i == j || (j == i + 1 && (s[i] == '-' || s[i] == '+'))
    requires AllDigits(s[j..k]) && (k < |s| ==> !IsDigit(s[k]))
    requires i == k < |s| ==> s[i] !in " \t\n\r-+" && s[i] != 11 as char && s[i] != 12 as char
    ensures var n: int := Value(s[j..k]);
            var v := if i < j && s[i] == '-' then -n else n;
            Strtol(s) ==
              if j == k then (0, 0)
              else (if v >= 0x8000_0000_0000_0000 then 0x7FFF_FFFF_FFFF_FFFF
                    else if v < -0x8000_0000_0000_0000 then -0x8000_0000_0000_0000 else v, k)
  {
    assert i == j < k ==> s[i] == s[j..k][0];
    SpaceSkipped(s, 0, i);
    DigitsSkipped(s, j, k);
    hide SkipSpace, SkipDigits, Value;
  }

  /** The conversion of a long to int32_t. */
  function ToInt32(v: int): (r: int)
    ensures -0x8000_0000 <= r < 0x8000_0000 && (v - r) % 0x1_0000_0000 == 0
  {
    (v + 0x8000_0000) % 0x1_0000_0000 - 0x8000_0000
  }

  // ---- Building and reading names -----------------------------------------------------------------

  /** The name of iteration `id`, as HandleMgr::get builds it from a base name. */
  function IterationName(base: string, id: nat): string {
    base + "_" + Dec(id) + ".h5"
  }

  /** What one directory entry contributes to the set of ids. */
  function Listed(base: string, fname: string): Option<int>
    requires |fname| < NPOS - 1 && |base| < NPOS - 1
  {
    var name := base + "_";
    if !(name <= fname) then None
    else
      var fileNameLength := Minus(|fname|, 3);
      if RFind(fname, ".h5") != fileNameLength then None
      else
        LastUnderscore(fname, |base|);
        var idStr := Substr(fname, RFind(fname, "_") + 1, Minus(fileNameLength, |name|));
        var (v, end) := Strtol(idStr);
        if end == |idStr| then Some(ToInt32(v)) else None
  }

  lemma LastUnderscore(fname: string, i: nat)
    requires |fname| < NPOS && i < |fname| && fname[i] == '_'
    ensures i <= RFind(fname, "_") < |fname| && fname[RFind(fname, "_")] == '_'
    ensures forall k | RFind(fname, "_") < k < |fname| :: fname[k] != '_'
  {
    assert OccursAt(fname, "_", i);
    var u := RFind(fname, "_");
    assert fname[u..u + 1] == "_";
    forall k | u < k < |fname| ensures fname[k] != '_' {
      if fname[k] == '_' {
        assert OccursAt(fname, "_", k);
      }
    }
  }

  /** The middle of a listed name: no underscore, and strtol reads it to the end. */
  predicate IsId(middle: string) {
    '_' !in middle && Strtol(middle).1 == |middle|
  }

  lemma EndsWith(fname: string)
    requires 3 <= |fname| < NPOS
    ensures RFind(fname, ".h5") == |fname| - 3 <==> fname[|fname| - 3..] == ".h5"
  {
    if fname[|fname| - 3..] == ".h5" {
      assert OccursAt(fname, ".h5", |fname| - 3);
    }
  }

  /** "<base>_<middle>.h5" where the middle is a number to strtol and has no underscore. */
  predicate NamedAfter(base: string, fname: string) {
    && |fname| >= |base| + 4 && base + "_" <= fname && fname[|fname| - 3..] == ".h5"
    && IsId(fname[|base| + 1..|fname| - 3])
  }

  lemma PrefixAndSuffix(base: string, fname: string)
    requires |base| < NPOS - 1 && 3 <= |fname| < NPOS - 1 && base + "_" <= fname && fname[|fname| - 3..] == ".h5"
    ensures |fname| >= |base| + 4 && fname[|base|] == '_' && fname[|fname| - 3] == '.'
    ensures forall k | |fname| - 3 <= k < |fname| :: fname[k] != '_'
  {}

  /** The part of the name that goes to strtol: from the last underscore on, as long as the middle is. */
  function IdString(base: string, fname: string): string
    requires 3 <= |fname| < NPOS && |fname| >= |base| + 4 && fname[|base|] == '_'
  {
    LastUnderscore(fname, |base|);
    Substr(fname, RFind(fname, "_") + 1, |fname| - 4 - |base|)
  }

  /** The last underscore decides: behind the base name it leaves the whole middle. */
  lemma WholeMiddle(base: string, fname: string)
    requires 3 <= |fname| < NPOS && |fname| >= |base| + 4 && fname[|base|] == '_'
    requires '_' !in fname[|base| + 1..|fname| - 3] && forall k | |fname| - 3 <= k < |fname| :: fname[k] != '_'
    ensures IdString(base, fname) == fname[|base| + 1..|fname| - 3]
  {
    LastUnderscore(fname, |base|);
    var u := RFind(fname, "_");
    UnderscoreIn(fname, |base| + 1, |fname| - 3, u);
    assert u == |base|;
  }

  /** ... and further on it lets the dot of the extension in, where strtol stops. */
  lemma DotInMiddle(base: string, fname: string)
    requires 3 <= |fname| < NPOS && |fname| >= |base| + 4 && fname[|base|] == '_' && fname[|fname| - 3] == '.'
    requires '_' in fname[|base| + 1..|fname| - 3] && forall k | |fname| - 3 <= k < |fname| :: fname[k] != '_'
    ensures Strtol(IdString(base, fname)).1 < |IdString(base, fname)|
  {
    LastUnderscore(fname, |base|);
    var n, u := |fname| - 3, RFind(fname, "_");
    var k :| 0 <= k < |fname[|base| + 1..n]| && fname[|base| + 1..n][k] == '_';
    assert fname[|base| + 1 + k] == '_';
    assert |base| < u < n;
    hide RFind, Strtol, AllDigits;
    var s := IdString(base, fname);
    assert n - u - 1 < |s| && s[n - u - 1] == fname[n];
    DotStops(s, n - u - 1);
  }

  lemma DotStops(s: string, k: nat)
    requires k < |s| && s[k] == '.'
    ensures Strtol(s).1 < |s|
  {
    hide Strtol;
    assert !IsSpace(s[k]) && !IsDigit(s[k]);
  }

  lemma UnderscoreIn(s: string, lo: nat, hi: nat, k: nat)
    ensures lo <= k < hi <= |s| && s[k] == '_' ==> '_' in s[lo..hi]
  {}

  /** The listing without its wrap-around arithmetic. */
  lemma ListedCases(base: string, fname: string)
    requires |base| < NPOS - 1 && 3 <= |fname| < NPOS - 1
    ensures !(base + "_" <= fname && fname[|fname| - 3..] == ".h5") ==> Listed(base, fname) == None
    ensures base + "_" <= fname && fname[|fname| - 3..] == ".h5" ==>
              && |fname| >= |base| + 4 && fname[|base|] == '_'
              && var s := IdString(base, fname);
                 Listed(base, fname) == if Strtol(s).1 == |s| then Some(ToInt32(Strtol(s).0)) else None
  {
    EndsWith(fname);
    MinusExact(|fname|, 3);
    if base + "_" <= fname && fname[|fname| - 3..] == ".h5" {
      PrefixAndSuffix(base, fname);
      MinusExact(|fname| - 3, |base| + 1);
    }
    hide RFind, Strtol, ToInt32, Minus, Substr;
  }

  /**
   * A name of two characters that begins like the base name. Its length minus 3 wraps to npos, which is
   * what rfind gives for a name without the extension.
   */
  predicate WrapsToNpos(base: string, fname: string) {
    && |fname| == 2 && base + "_" <= fname
    && (fname[1] == '_' || Strtol(fname[1..]).1 == 1)
  }

  /** What such a name is listed as: nothing at all reads as 0, and one digit as itself. */
  function WrappedId(fname: string): int
    requires |fname| == 2
  {
    if fname[1] == '_' then 0 else ToInt32(Strtol(fname[1..]).0)
  }

  lemma ShorterThanExtension(base: string, fname: string)
    requires |base| < NPOS - 1 && |fname| < 3
    ensures Listed(base, fname) == if WrapsToNpos(base, fname) then Some(WrappedId(fname)) else None
  {
    assert RFind(fname, ".h5") == NPOS;
    if |fname| == 2 && base + "_" <= fname {
      assert Minus(2, 3) == NPOS && Minus(NPOS, |base| + 1) > 2;
      LastUnderscore(fname, |base|);
      var u := RFind(fname, "_");
      assert Substr(fname, u + 1, Minus(NPOS, |base| + 1)) == fname[u + 1..];
      if fname[1] == '_' {
        assert u == 1 && fname[2..] == "";
        assert Strtol("") == (0, 0) && ToInt32(0) == 0;
      } else {
        assert u == 0;
      }
    }
  }

  /**
   * Exactly the names "<base>_<id>.h5" whose middle part has no underscore and is a number to strtol
   * are listed, under that number, and besides them some names of two characters without an extension.
   */
  lemma ListedExactly(base: string, fname: string)
    requires |base| < NPOS - 1 && |fname| < NPOS - 1
    ensures Listed(base, fname).Some? <==> NamedAfter(base, fname) || WrapsToNpos(base, fname)
    ensures NamedAfter(base, fname) ==> Listed(base, fname) == Some(ToInt32(Strtol(fname[|base| + 1..|fname| - 3]).0))
    ensures WrapsToNpos(base, fname) ==> Listed(base, fname) == Some(WrappedId(fname))
  {
    if |fname| < 3 {
      ShorterThanExtension(base, fname);
    } else {
      LongNames(base, fname);
    }
    hide Listed, Strtol, ToInt32;
  }

  lemma LongNames(base: string, fname: string)
    requires |base| < NPOS - 1 && 3 <= |fname| < NPOS - 1
    ensures Listed(base, fname) ==
            if NamedAfter(base, fname) then Some(ToInt32(Strtol(fname[|base| + 1..|fname| - 3]).0)) else None
  {
    ListedCases(base, fname);
    hide Listed, Strtol, ToInt32, IdString;
    if base + "_" <= fname && fname[|fname| - 3..] == ".h5" {
      PrefixAndSuffix(base, fname);
      if '_' in fname[|base| + 1..|fname| - 3] {
        DotInMiddle(base, fname);
      } else {
        WholeMiddle(base, fname);
      }
    }
  }

  lemma DigitsOnly(s: string)
    requires |s| > 0 && AllDigits(s)
    ensures Strtol(s).1 == |s| && IsId(s)
    ensures Strtol(s).0 == if Value(s) > LONG_MAX then LONG_MAX else Value(s)
  {
    assert SkipSpace(s, 0) == 0;
    assert SkipDigits(s, 0) == |s|;
    assert s[0..|s|] == s;
  }

  lemma NameParts(other: string, id: nat)
    ensures var fname := IterationName(other, id);
            && |fname| == |other| + |Dec(id)| + 4
            && fname[..|other|] == other && fname[|other|] == '_'
            && (forall k | |other| < k < |fname| :: fname[k] != '_')
            && fname[|fname| - 3..] == ".h5" && fname[|other| + 1..|fname| - 3] == Dec(id)
  {}

  /** A name built for another base name is not named after this one. */
  lemma OtherBase(base: string, other: string, id: nat)
    requires NamedAfter(base, IterationName(other, id))
    ensures base == other
  {
    NameParts(other, id);
    hide IterationName, Strtol, Dec;
    var fname := IterationName(other, id);
    assert fname[|base|] == '_' && fname[..|base|] == base;
    UnderscoreIn(fname, |base| + 1, |fname| - 3, |other|);
    assert |base| == |other|;
  }

  /** The number that the listing makes of an id: long, then int32_t. */
  function ReadBack(id: nat): int {
    ToInt32(if id > LONG_MAX then LONG_MAX else id)
  }

  /**
   * Listing under a base name finds the names of iterations of that base name, each under its id as far as that
   * survives the conversions; names for any other base name, also for one that extends this one, are passed over.
   */
  lemma NamesReadBack(base: string, other: string, id: nat)
    requires |base| < NPOS - 1 && |IterationName(other, id)| < NPOS - 1
    ensures Listed(base, IterationName(other, id)) == if base == other then Some(ReadBack(id)) else None
  {
    var fname := IterationName(other, id);
    NameParts(other, id);
    ListedExactly(base, fname);
    if base == other {
      PlainId(id);
      hide Listed, IterationName, Strtol, Dec, IsId, ToInt32;
      assert base + "_" <= fname;
    } else {
      hide NamedAfter, Listed, IterationName, Strtol, Dec, IsId;
      if NamedAfter(base, fname) {
        OtherBase(base, other, id);
      }
      assert |fname| > 2;
    }
  }

  lemma PlainId(id: nat)
    ensures IsId(Dec(id)) && ToInt32(Strtol(Dec(id)).0) == ReadBack(id)
  {
    DigitsOnly(Dec(id));
    ValueOfDec(id);
  }

  /** Not every listed file is one of those: an empty number counts as iteration 0. */
  lemma EmptyIdIsZero(base: string)
    requires |base| < NPOS - 8
    ensures Listed(base, base + "_.h5") == Some(0)
  {
    var fname := base + "_.h5";
    hide Listed;
    ListedExactly(base, fname);
    assert fname[|base| + 1..|fname| - 3] == "";
    assert fname[|fname| - 3..] == ".h5";
    assert Strtol("") == (0, 0);
    assert ToInt32(0) == 0;
    hide Listed, Strtol, ToInt32;
  }

  /** Nor need it have the extension: the file "a_" is iteration 0 of "a", and "_7" iteration 7 of the empty base name. */
  lemma ListedWithoutExtension()
    ensures Listed("a", "a_") == Some(0) && Listed("", "_7") == Some(7)
  {
    hide Listed;
    ListedExactly("a", "a_");
    ListedExactly("", "_7");
    DigitsOnly("7");
    assert Value("7") == 7 by {
      assert "7"[..0] == "";
    }
    assert "_7"[1..] == "7";
    assert ToInt32(7) == 7;
    hide Strtol, ToInt32;
  }

  lemma ListedMiddle(base: string, middle: string)
    requires |base| < NPOS - 1 && |base + "_" + middle + ".h5"| < NPOS - 1 && '_' !in middle
    ensures Listed(base, base + "_" + middle + ".h5") == if Strtol(middle).1 == |middle| then Some(ToInt32(Strtol(middle).0)) else None
  {
    var fname := base + "_" + middle + ".h5";
    ListedExactly(base, fname);
    hide Listed, Strtol, ToInt32;
    assert fname[|base| + 1..|fname| - 3] == middle && fname[|fname| - 3..] == ".h5" && base + "_" <= fname;
  }

  lemma StrtolOfId(id: nat)
    requires id <= LONG_MAX
    ensures Strtol("-" + Dec(id)) == (0 - id, 1 + |Dec(id)|)
    ensures Strtol(" " + Dec(id)) == (id, 1 + |Dec(id)|)
    ensures Strtol(Dec(id) + "x") == (id, |Dec(id)|)
  {
    var d := Dec(id);
    ValueOfDec(id);
    hide Dec, Strtol, Value;
    assert ("-" + d)[1..|d| + 1] == d && (" " + d)[1..|d| + 1] == d && (d + "x")[0..|d|] == d;
    StrtolReads("-" + d, 0, 1, |d| + 1);
    StrtolReads(" " + d, 1, 1, |d| + 1);
    StrtolReads(d + "x", 0, 0, |d|);
  }

  lemma NoUnderscore(a: string, digits: string, b: string)
    requires AllDigits(digits) && '_' !in a && '_' !in b
    ensures '_' !in a + digits + b
  {}

  /** A sign before the number is read. */
  lemma SignedId(base: string, id: nat, middle: string)
    requires middle == "-" + Dec(id) && |base| < NPOS - 1 && |base + "_" + middle + ".h5"| < NPOS - 1 && id <= LONG_MAX
    ensures Listed(base, base + "_" + middle + ".h5") == Some(ToInt32(0 - id))
  {
    hide *;
    StrtolOfId(id);
    NoUnderscore("-", Dec(id), "");
    assert middle == "-" + Dec(id) + "";
    ListedMiddle(base, middle);
  }

  /** White space before the number is skipped. */
  lemma SpacedId(base: string, id: nat, middle: string)
    requires middle == " " + Dec(id) && |base| < NPOS - 1 && |base + "_" + middle + ".h5"| < NPOS - 1 && id <= LONG_MAX
    ensures Listed(base, base + "_" + middle + ".h5") == Some(ToInt32(id))
  {
    hide *;
    StrtolOfId(id);
    NoUnderscore(" ", Dec(id), "");
    assert middle == " " + Dec(id) + "";
    ListedMiddle(base, middle);
  }

  /** A letter behind the number is too much. */
  lemma LetterBehind(base: string, id: nat, middle: string)
    requires middle == Dec(id) + "x" && |base| < NPOS - 1 && |base + "_" + middle + ".h5"| < NPOS - 1 && id <= LONG_MAX
    ensures Listed(base, base + "_" + middle + ".h5") == None
  {
    hide *;
    StrtolOfId(id);
    NoUnderscore("", Dec(id), "x");
    assert middle == "" + Dec(id) + "x";
    ListedMiddle(base, middle);
  }

  // ---- Listing a directory ------------------------------------------------------------------------

  /** The directory and the name part of a path. */
  function SplitBase(path: string): (r: (string, string))
    requires |path| < NPOS
    ensures '/' !in r.1
  {
    var pos := RFind(path, "/");
    if pos == NPOS then
      NoSlash(path, 0);
      (".", path)
    else
      NoSlash(path, pos + 1);
      (path[..pos], path[pos + 1..])
  }

  /** The last slash divides a path; without one the directory is the current one. */
  lemma SplitBaseExactly(path: string)
    requires |path| < NPOS
    ensures var (dir, name) := SplitBase(path);
            '/' !in name && if '/' in path then path == dir + "/" + name else dir == "." && name == path
  {
    var pos := RFind(path, "/");
    if pos == NPOS {
      NoSlash(path, 0);
      assert path[0..] == path;
    } else {
      assert path[pos] == path[pos..pos + 1][0] == '/';
      assert path == path[..pos] + "/" + path[pos + 1..];
    }
  }

  lemma NoSlash(path: string, start: nat)
    requires |path| < NPOS && start <= |path|
    requires start == (if RFind(path, "/") == NPOS then 0 else RFind(path, "/") + 1)
    ensures '/' !in path[start..]
  {
    forall k | start <= k < |path| ensures path[k] != '/' {
      assert path[k..k + 1] == [path[k]];
      assert OccursAt(path, "/", k) <==> path[k] == '/';
    }
  }

  ghost predicate ShortNames(base: string, entries: seq<string>) {
    |base| < NPOS - 1 && forall f | f in entries :: |f| < NPOS - 1
  }

  ghost function ListedIds(base: string, entries: seq<string>): set<int>
    requires ShortNames(base, entries)
  {
    set f | f in entries && Listed(base, f).Some? :: Listed(base, f).value
  }

  /** listFilesInDir; `readDir` stands for the file system and has no entries for a directory that cannot be opened. */
  method ListFilesInDir(baseFilename: string, readDir: string -> Option<seq<string>>) returns (ids: Option<set<int>>)
    requires |baseFilename| < NPOS - 1
    requires readDir(SplitBase(baseFilename).0).Some? ==>
               ShortNames(SplitBase(baseFilename).1, readDir(SplitBase(baseFilename).0).value)
    ensures ids.None? <==> readDir(SplitBase(baseFilename).0).None?
    ensures ids.Some? ==> ids.value == ListedIds(SplitBase(baseFilename).1, readDir(SplitBase(baseFilename).0).value)
  {
    var (dirPath, name) := SplitBase(baseFilename);
    var dir := readDir(dirPath);
    if dir.None? {
      return None;
    }
    var entries := dir.value;
    var found := {};
    for i := 0 to |entries|
      invariant found == ListedIds(name, entries[..i])
    {
      var id := Listed(name, entries[i]);
      ListedOneMore(name, entries, i);
      if id.Some? {
        found := found + {id.value};
      }
    }
    assert entries[..|entries|] == entries;
    return Some(found);
  }

  lemma ListedOneMore(base: string, entries: seq<string>, i: nat)
    requires ShortNames(base, entries) && i < |entries|
    ensures ShortNames(base, entries[..i]) && ShortNames(base, entries[..i + 1])
    ensures ListedIds(base, entries[..i + 1])
         == ListedIds(base, entries[..i]) + (if Listed(base, entries[i]).Some? then {Listed(base, entries[i]).value} else {})
  {}
}

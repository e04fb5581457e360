/**
 * The names of the chapter files: `sanitize_filename` and the `ch{idx:02d}_{title}.md`
 * pattern of `_write_chapters`.
 */
module ChapterNames {
  import opened Text

  /** A character `INVALID_CHARS` (`[^A-Za-z0-9._-]+`) leaves alone. */
  predicate Allowed(c: char)
  {
    'a' <= c <= 'z' || 'A' <= c <= 'Z' || IsDigit(c) || c == '.' || c == '_' || c == '-'
  }

  /** A character a sanitized name may hold: allowed, and not an upper-case letter. */
  predicate NameChar(c: char)
  {
    Allowed(c) && !IsUpper(c)
  }

  /**
   * `INVALID_CHARS.sub("_", s)`, scanning with `inRun` telling whether the previous character
   * was disallowed: every maximal run of disallowed characters becomes a single '_'.
   */
  function SquashFrom(s: string, inRun: bool): (r: string)
    ensures |r| <= |s|
    ensures forall k :: 0 <= k < |r| ==> Allowed(r[k])
    decreases |s|
  {
    if s == [] then []
    else if Allowed(s[0]) then [s[0]] + SquashFrom(s[1..], false)
    else if inRun then SquashFrom(s[1..], true)
    else "_" + SquashFrom(s[1..], true)
  }

  function Squash(s: string): string
  {
    SquashFrom(s, false)
  }

  /** The substitution changes nothing exactly when every character is allowed. */
  lemma {:induction false} SquashIdentity(s: string, inRun: bool)
    ensures SquashFrom(s, inRun) == s <==> forall k :: 0 <= k < |s| ==> Allowed(s[k])
    decreases |s|
  {
    if s != [] {
      SquashIdentity(s[1..], false);
      SquashIdentity(s[1..], true);
      if Allowed(s[0]) {
        assert forall k :: 0 < k < |s| ==> s[k] == s[1..][k - 1];
        if forall k :: 0 <= k < |s[1..]| ==> Allowed(s[1..][k]) {
          assert SquashFrom(s, inRun) == [s[0]] + s[1..] == s;
        }
      } else if inRun {
        assert |SquashFrom(s[1..], true)| <= |s| - 1;
      }
    }
  }

  /** Applying the substitution twice is the same as applying it once. */
  lemma SquashIdempotent(s: string)
    ensures Squash(Squash(s)) == Squash(s)
  {
    SquashIdentity(Squash(s), false);
  }

  /** A character that the substitution keeps as '_' or replaces by '_'. */
  predicate Filler(c: char)
  {
    !Allowed(c) || c == '_'
  }

  predicate Underscores(r: string)
  {
    forall k :: 0 <= k < |r| ==> r[k] == '_'
  }

  predicate AllFiller(s: string)
  {
    forall k :: 0 <= k < |s| ==> Filler(s[k])
  }

  lemma UnderscoresCons(c: char, r: string)
    ensures Underscores([c] + r) <==> c == '_' && Underscores(r)
  {
    var cr := [c] + r;
    if Underscores(cr) {
      assert cr[0] == c;
      forall k | 0 <= k < |r| ensures r[k] == '_' {
        assert cr[k + 1] == r[k];
      }
    }
    if c == '_' && Underscores(r) {
      forall k | 0 <= k < |cr| ensures cr[k] == '_' {
        if k > 0 {
          assert cr[k] == r[k - 1];
        }
      }
    }
  }

  lemma AllFillerCons(s: string)
    requires s != []
    ensures AllFiller(s) <==> Filler(s[0]) && AllFiller(s[1..])
  {
    assert forall k :: 0 < k < |s| ==> s[k] == s[1..][k - 1];
  }

  /** The substitution yields nothing but underscores exactly when the input is all filler. */
  lemma {:induction false} SquashUnderscores(s: string, inRun: bool)
    ensures Underscores(SquashFrom(s, inRun)) <==> AllFiller(s)
    decreases |s|
  {
    if s != [] {
      var t := s[1..];
      AllFillerCons(s);
      if Allowed(s[0]) {
        SquashUnderscores(t, false);
        UnderscoresCons(s[0], SquashFrom(t, false));
      } else {
        SquashUnderscores(t, true);
        if !inRun {
          UnderscoresCons('_', SquashFrom(t, true));
        }
      }
    }
  }

  /** `s[:n]` in Python: a negative `n` counts from the end. */
  function PyPrefix(s: string, n: int): (r: string)
    ensures |r| <= |s| && r == s[..|r|]
    ensures n >= 0 ==> |r| == if n < |s| then n else |s|
    ensures n < 0 ==> |r| == if |s| + n > 0 then |s| + n else 0
  {
    if n >= 0 then (if n < |s| then s[..n] else s)
    else if |s| + n > 0 then s[..|s| + n] else []
  }

  /** `INVALID_CHARS.sub("_", name.lower()).strip("_")` */
  function Clean(name: string): string
  {
    Strip(Squash(Lower(name)), iset{'_'})
  }

  const Untitled: string := "untitled"

  /**
   * `sanitize_filename(name, max_len)`: a non-empty name of lower-case letters, digits, '.',
   * '_' and '-' that does not begin with '_', no longer than `max_len` unless it is the
   * fallback "untitled", and otherwise a prefix of the cleaned name.
   */
  function Sanitize(name: string, maxLen: int): (r: string)
    ensures r != [] && r[0] != '_'
    ensures forall k :: 0 <= k < |r| ==> NameChar(r[k])
    ensures maxLen >= 0 && r != Untitled ==> |r| <= maxLen
    ensures r == Untitled || (|r| <= |Clean(name)| && r == Clean(name)[..|r|])
  {
    var clean := Clean(name);
    CleanChars(name);
    var cut := PyPrefix(clean, maxLen);
    if cut == [] then Untitled
    else
      assert cut[0] == clean[0];
      cut
  }

  /** The cleaned name holds only name characters, and it neither begins nor ends with '_'. */
  lemma CleanChars(name: string)
    ensures forall k :: 0 <= k < |Clean(name)| ==> NameChar(Clean(name)[k])
    ensures Clean(name) != [] ==> Clean(name)[0] != '_' && Clean(name)[|Clean(name)| - 1] != '_'
  {
    var low := Lower(name);
    var sq := Squash(low);
    var c := Clean(name);
    StripSpec(sq, iset{'_'});
    var i: nat :| StrippedAt(sq, c, i, iset{'_'});
    SquashedNameChars(low, c, i);
  }

  /** Any infix of the substitution of a lower-cased text holds only name characters. */
  lemma SquashedNameChars(low: string, c: string, i: nat)
    requires forall k :: 0 <= k < |low| ==> !IsUpper(low[k])
    requires i + |c| <= |Squash(low)| && c == Squash(low)[i..i + |c|]
    ensures forall k :: 0 <= k < |c| ==> NameChar(c[k])
  {
    var sq := Squash(low);
    forall k | 0 <= k < |c| ensures NameChar(c[k]) {
      assert c[k] == sq[i + k];
      SquashLower(low, false, i + k);
    }
  }

  /** What the substitution keeps of a lower-cased text is still lower case. */
  lemma {:induction false} SquashLower(s: string, inRun: bool, j: nat)
    requires forall k :: 0 <= k < |s| ==> !IsUpper(s[k])
    requires j < |SquashFrom(s, inRun)|
    ensures !IsUpper(SquashFrom(s, inRun)[j])
    decreases |s|
  {
    var t := s[1..];
    var r := SquashFrom(s, inRun);
    if Allowed(s[0]) {
      if j > 0 {
        assert r[j] == SquashFrom(t, false)[j - 1];
        SquashLower(t, false, j - 1);
      }
    } else if inRun {
      SquashLower(t, true, j);
    } else if j > 0 {
      assert r[j] == SquashFrom(t, true)[j - 1];
      SquashLower(t, true, j - 1);
    }
  }

  /**
   * A name falls back to "untitled" when every character of it is disallowed or '_' (and so
   * when it is empty); otherwise the cleaned name is not empty.
   */
  lemma CleanEmpty(name: string)
    ensures Clean(name) == [] <==> AllFiller(name)
  {
    var low := Lower(name);
    var sq := Squash(low);
    StripSpec(sq, iset{'_'});
    SquashUnderscores(low, false);
    assert forall k :: 0 <= k < |name| ==> (Filler(name[k]) <==> Filler(low[k]));
  }

  lemma FillerUntitled(name: string, maxLen: int)
    requires AllFiller(name)
    ensures Sanitize(name, maxLen) == Untitled
  {
    CleanEmpty(name);
  }

  /** A name that is already clean and short enough is left as it is. */
  lemma SanitizeFixedPoint(s: string, maxLen: int)
    requires s != [] && |s| <= maxLen && s[0] != '_' && s[|s| - 1] != '_'
    requires forall k :: 0 <= k < |s| ==> NameChar(s[k])
    ensures Sanitize(s, maxLen) == s
  {
    assert Lower(s) == s;
    SquashIdentity(s, false);
    StripKeeps(s, iset{'_'});
  }

  /**
   * Every sanitized name that does not end in '_' is its own sanitization, once the limit
   * leaves room for the fallback name.
   */
  lemma SanitizeIdempotent(name: string, maxLen: int)
    requires maxLen >= |Untitled|
    requires var r := Sanitize(name, maxLen); r[|r| - 1] != '_'
    ensures Sanitize(Sanitize(name, maxLen), maxLen) == Sanitize(name, maxLen)
  {
    SanitizeFixedPoint(Sanitize(name, maxLen), maxLen);
  }

  /** Truncation can leave a trailing '_', which a second sanitization then strips. */
  lemma TruncationLeavesUnderscore()
    ensures Sanitize("ab c", 3) == "ab_"
    ensures Sanitize("ab_", 3) == "ab"
  {
    TruncateFirst();
    TruncateSecond();
  }

  lemma TruncateFirst()
    ensures Sanitize("ab c", 3) == "ab_"
  {
    assert Lower("ab c") == "ab" + " c";
    SquashAllowedPrefix("ab", " c", false);
    assert " c"[1..] == "c";
    assert Squash("ab c") == "ab_c";
    StripKeeps("ab_c", iset{'_'});
    assert Clean("ab c") == "ab_c";
  }

  lemma TruncateSecond()
    ensures Sanitize("ab_", 3) == "ab"
  {
    assert Lower("ab_") == "ab_";
    SquashIdentity("ab_", false);
    assert Strip("ab_", iset{'_'}) == "ab";
    SanitizeSteps("ab_", "ab_", "ab_", "ab", 3);
  }

  /** A cleaned name that fits the limit is the sanitized name. */
  lemma SanitizeShort(name: string, maxLen: int)
    requires 0 < |Clean(name)| <= maxLen
    ensures Sanitize(name, maxLen) == Clean(name)
  {
  }

  /** The sanitization of a name, step by step: lower-case, substitute, strip, fits the limit. */
  lemma SanitizeSteps(name: string, low: string, squashed: string, clean: string, maxLen: int)
    requires Lower(name) == low && Squash(low) == squashed && Strip(squashed, iset{'_'}) == clean
    requires 0 < |clean| <= maxLen
    ensures Sanitize(name, maxLen) == clean
  {
    SanitizeShort(name, maxLen);
  }

  /** A leading run of allowed characters passes through the substitution unchanged. */
  lemma {:induction false} SquashAllowedPrefix(x: string, t: string, inRun: bool)
    requires x != [] && forall k :: 0 <= k < |x| ==> Allowed(x[k])
    ensures SquashFrom(x + t, inRun) == x + SquashFrom(t, false)
    decreases |x|
  {
    assert (x + t)[0] == x[0];
    assert (x + t)[1..] == x[1..] + t;
    if |x| > 1 {
      SquashAllowedPrefix(x[1..], t, false);
      assert x == [x[0]] + x[1..];
    } else {
      assert x[1..] + t == t;
    }
  }

  /** "Part 1" followed by two disallowed characters sanitizes to "part_1". */
  lemma PartTitle(c: char)
    requires !Allowed(c)
    ensures Sanitize("Part 1" + [c, c], 80) == "part_1"
  {
    var name := "Part 1" + [c, c];
    var low := "part 1" + [c, c];
    assert Lower(name) == low;
    PartSquash(c);
    assert "part_1_"[..6] == "part_1";
    assert Strip("part_1_", iset{'_'}) == "part_1";
    SanitizeSteps(name, low, "part_1_", "part_1", 80);
  }

  lemma PartSquash(c: char)
    requires !Allowed(c)
    ensures Squash("part 1" + [c, c]) == "part_1_"
  {
    var run := [c, c];
    var rest := "1" + run;
    assert SquashFrom(run, false) == "_" by {
      assert run[1..] == [c];
    }
    SquashAllowedPrefix("1", run, true);
    assert ([' '] + rest)[1..] == rest;
    assert SquashFrom([' '] + rest, false) == "_" + SquashFrom(rest, true);
    SquashAllowedPrefix("part", [' '] + rest, false);
    assert "part 1" + [c, c] == "part" + ([' '] + rest);
  }

  /** Different titles can give the same name: punctuation is squashed to '_' and stripped. */
  lemma TitlesCollide()
    ensures Sanitize("Part 1!!", 80) == Sanitize("Part 1??", 80) == "part_1"
  {
    PartTitle('!');
    assert "Part 1" + ['!', '!'] == "Part 1!!";
    PartTitle('?');
    assert "Part 1" + ['?', '?'] == "Part 1??";
  }

  /** `f"{idx:02d}"`: at least two digits, zero-padded. */
  function Pad2(idx: nat): (r: string)
    ensures |r| >= 2 && forall k :: 0 <= k < |r| ==> IsDigit(r[k])
    ensures |r| == 2 <==> idx < 100
    ensures DigitsValue(r) == idx
  {
    DecimalRoundTrip(idx);
    DecimalLength(idx);
    var d := Decimal(idx);
    if idx < 10 then
      assert DigitsValue("0" + d) == DigitsValue(d) by {
        assert ("0" + d)[..1] == "0";
      }
      "0" + d
    else d
  }

  /** Two digits below one hundred: the tens, then the units. */
  lemma Pad2Small(idx: nat)
    requires idx < 100
    ensures Pad2(idx) == [Digit(idx / 10), Digit(idx % 10)]
  {
    if idx >= 10 {
      assert Decimal(idx / 10) == [Digit(idx / 10)];
    }
  }

  /** What follows the position in a chapter file name. */
  function NameTail(title: string): string
  {
    "_" + Sanitize(title, 80) + ".md"
  }

  /** `f"ch{idx:02d}_{sanitize_filename(title)}.md"` */
  function ChapterFileName(idx: nat, title: string): string
  {
    "ch" + (Pad2(idx) + NameTail(title))
  }

  /** The length of the run of digits that starts at `p`. */
  function DigitRun(s: string, p: nat): (n: nat)
    requires p <= |s|
    ensures p + n <= |s| && forall k :: p <= k < p + n ==> IsDigit(s[k])
    ensures p + n == |s| || !IsDigit(s[p + n])
    decreases |s| - p
  {
    if p < |s| && IsDigit(s[p]) then 1 + DigitRun(s, p + 1) else 0
  }

  /** A run of digits closed by a non-digit is what DigitRun measures. */
  lemma {:induction false} DigitRunExact(s: string, p: nat, m: nat)
    requires p + m < |s| && !IsDigit(s[p + m])
    requires forall k :: p <= k < p + m ==> IsDigit(s[k])
    ensures DigitRun(s, p) == m
    decreases m
  {
    if m > 0 {
      DigitRunExact(s, p + 1, m - 1);
    }
  }

  /** Reads the position back from a chapter file name: the number between "ch" and '_'. */
  function ChapterIndex(name: string): nat
    requires |name| >= 2
  {
    var n := DigitRun(name, 2);
    DigitsValue(name[2..2 + n])
  }

  /** The position can be read back from the file name, whatever the title. */
  lemma ChapterIndexRoundTrip(idx: nat, title: string)
    ensures ChapterIndex(ChapterFileName(idx, title)) == idx
  {
    IndexBeforeUnderscore(Pad2(idx), NameTail(title));
  }

  /** The digits between "ch" and a following '_' are read back exactly. */
  lemma IndexBeforeUnderscore(p: string, rest: string)
    requires forall k :: 0 <= k < |p| ==> IsDigit(p[k])
    requires rest != [] && rest[0] == '_'
    ensures ChapterIndex("ch" + (p + rest)) == DigitsValue(p)
  {
    var name := "ch" + (p + rest);
    assert name[2..] == p + rest;
    assert name[2..2 + |p|] == (p + rest)[..|p|] == p;
    assert name[2 + |p|] == rest[0];
    DigitsBetween(name, p);
  }

  /** A name whose digits after "ch" are `p`, closed by a non-digit, has position `p`. */
  lemma DigitsBetween(name: string, p: string)
    requires 2 + |p| < |name| && name[2..2 + |p|] == p && !IsDigit(name[2 + |p|])
    requires forall k :: 0 <= k < |p| ==> IsDigit(p[k])
    ensures ChapterIndex(name) == DigitsValue(p)
  {
    forall k | 2 <= k < 2 + |p|
      ensures IsDigit(name[k])
    {
      assert name[k] == name[2..2 + |p|][k - 2];
    }
    DigitRunExact(name, 2, |p|);
  }

  /** Different positions give different file names, whatever the titles: no chapter overwrites another. */
  lemma ChapterFileNamesDistinct(i: nat, a: string, j: nat, b: string)
    requires i != j
    ensures ChapterFileName(i, a) != ChapterFileName(j, b)
  {
    ChapterIndexRoundTrip(i, a);
    ChapterIndexRoundTrip(j, b);
  }

  /** Two equal-length strings that differ: the order is settled before anything appended. */
  lemma {:induction false} LexLessSameLength(x: string, y: string, a: string, b: string)
    requires |x| == |y| && LexLess(x, y)
    ensures LexLess(x + a, y + b)
    decreases |x|
  {
    assert (x + a)[0] == x[0] && (y + b)[0] == y[0];
    if x[0] == y[0] {
      assert (x + a)[1..] == x[1..] + a;
      assert (y + b)[1..] == y[1..] + b;
      LexLessSameLength(x[1..], y[1..], a, b);
    }
  }

  /** Below one hundred, the order of the file names is the order of the chapters. */
  lemma ChapterFileNamesOrdered(i: nat, a: string, j: nat, b: string)
    requires i < j < 100
    ensures LexLess(ChapterFileName(i, a), ChapterFileName(j, b))
  {
    Pad2Small(i);
    Pad2Small(j);
    var pi, pj := Pad2(i), Pad2(j);
    assert LexLess(pi, pj) by {
      if i / 10 == j / 10 {
        assert pi[1..] == [Digit(i % 10)] && pj[1..] == [Digit(j % 10)];
      }
    }
    LexLessSameLength(pi, pj, NameTail(a), NameTail(b));
    LexLessCommonPrefix("ch", pi + NameTail(a), pj + NameTail(b));
  }

  /** From one hundred on, the order breaks: chapter 100 sorts before chapter 11. */
  lemma ChapterFileNamesOrderBreaks()
    ensures LexLess(ChapterFileName(100, "a"), ChapterFileName(11, "a"))
  {
    var p100, p11 := Pad2(100), Pad2(11);
    assert Decimal(100) == "100";
    Pad2Small(11);
    var rest := NameTail("a");
    assert LexLess(p100 + rest, p11 + rest) by {
      assert (p100 + rest)[0] == '1' == (p11 + rest)[0];
      assert (p100 + rest)[1..][0] == '0' < '1' == (p11 + rest)[1..][0];
    }
    LexLessCommonPrefix("ch", p100 + rest, p11 + rest);
  }
}

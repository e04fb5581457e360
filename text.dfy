/**
 * The behaviour of the Python string built-ins the scripts rely on:
 * `str.isspace`, `str.strip`, `str.lower`, decimal formatting and `<` on `str`.
 */
module Text {

  /**
   * The characters for which `str.isspace()` holds; `str.strip()` with no argument removes
   * them, and the `\s` class of `re` on str patterns is the same table.
   */
  predicate IsSpace(c: char)
  {
    || '\t' <= c <= '\r'
    || '\U{1C}' <= c <= ' '
    || c == '\U{85}' || c == '\U{A0}' || c == '\U{1680}'
    || '\U{2000}' <= c <= '\U{200A}'
    || c == '\U{2028}' || c == '\U{2029}' || c == '\U{202F}' || c == '\U{205F}' || c == '\U{3000}'
  }

  const Whitespace: iset<char> := iset c: char | IsSpace(c)

  /** The character of `s` at `k` is one of `drop`. */
  predicate Dropped(s: string, k: nat, drop: iset<char>)
  {
    k < |s| && s[k] in drop
  }

  /** Drops the characters of `drop` from the back of `s`. */
  function TrimEnd(s: string, drop: iset<char>): (r: string)
    ensures |r| <= |s| && r == s[..|r|]
    ensures forall k: nat :: |r| <= k < |s| ==> Dropped(s, k, drop)
    ensures r != [] ==> r[|r| - 1] !in drop
    decreases |s|
  {
    if s != [] && s[|s| - 1] in drop then
      var r := TrimEnd(s[..|s| - 1], drop);
      assert forall k: nat :: |r| <= k < |s| ==> Dropped(s, k, drop) by {
        forall k: nat | |r| <= k < |s| ensures Dropped(s, k, drop) {
          if k < |s| - 1 {
            assert Dropped(s[..|s| - 1], k, drop);
          }
        }
      }
      r
    else s
  }

  /**
   * `s.strip(chars)`: drops the characters of `drop` from both ends of `s`.
   */
  function Strip(s: string, drop: iset<char>): (r: string)
    ensures |r| <= |s|
    ensures r != [] ==> r[0] !in drop && r[|r| - 1] !in drop
    decreases |s|
  {
    if s != [] && s[0] in drop then Strip(s[1..], drop) else TrimEnd(s, drop)
  }

  /** What the strip keeps: an infix of `s` with only dropped characters around it. */
  lemma {:induction false} StripSpec(s: string, drop: iset<char>)
    ensures exists i: nat :: StrippedAt(s, Strip(s, drop), i, drop)
    ensures Strip(s, drop) == [] <==> forall k :: 0 <= k < |s| ==> s[k] in drop
    decreases |s|
  {
    if s != [] && s[0] in drop {
      StripSpec(s[1..], drop);
      var r := Strip(s, drop);
      var i: nat :| StrippedAt(s[1..], r, i, drop);
      forall k: nat | k < i + 1 ensures Dropped(s, k, drop) {
        if k > 0 {
          assert Dropped(s[1..], k - 1, drop);
        }
      }
      forall k: nat | i + 1 + |r| <= k < |s| ensures Dropped(s, k, drop) {
        assert Dropped(s[1..], k - 1, drop);
      }
      assert StrippedAt(s, r, i + 1, drop);
    } else {
      if s != [] {
        assert !Dropped(s, 0, drop);
      }
      assert StrippedAt(s, Strip(s, drop), 0, drop);
    }
  }

  /** `r` is `s` with the first `i` characters and everything after `r` dropped. */
  predicate StrippedAt(s: string, r: string, i: nat, drop: iset<char>)
  {
    && i + |r| <= |s|
    && r == s[i..i + |r|]
    && (forall k: nat :: k < i ==> Dropped(s, k, drop))
    && (forall k: nat :: i + |r| <= k < |s| ==> Dropped(s, k, drop))
  }

  /** A string that is its own strip: it is empty or begins and ends with kept characters. */
  lemma StripKeeps(s: string, drop: iset<char>)
    requires s == [] || (s[0] !in drop && s[|s| - 1] !in drop)
    ensures Strip(s, drop) == s
  {
  }

  /** A string whose first character is kept strips to a string with that same first character. */
  lemma StripFirst(s: string, drop: iset<char>)
    requires s != [] && s[0] !in drop
    ensures Strip(s, drop) != [] && Strip(s, drop)[0] == s[0]
  {
    var r := Strip(s, drop);
    StripSpec(s, drop);
    var i: nat :| StrippedAt(s, r, i, drop);
    assert !Dropped(s, 0, drop);
    assert i == 0;
  }

  predicate IsUpper(c: char) { 'A' <= c <= 'Z' }

  /** `str.lower()` restricted to ASCII: only 'A'..'Z' change. */
  function LowerChar(c: char): (r: char)
    ensures !IsUpper(r)
    ensures IsUpper(c) ==> r as int == c as int + 32
    ensures !IsUpper(c) ==> r == c
  {
    if IsUpper(c) then (c as int + 32) as char else c
  }

  function Lower(s: string): (r: string)
    ensures |r| == |s| && forall k :: 0 <= k < |s| ==> r[k] == LowerChar(s[k])
  {
    seq(|s|, k requires 0 <= k < |s| => LowerChar(s[k]))
  }

  predicate IsDigit(c: char) { '0' <= c <= '9' }

  function Digit(d: nat): (c: char)
    requires d < 10
    ensures IsDigit(c) && c as int - '0' as int == d
  {
    ('0' as int + d) as char
  }

  /** `str(n)` for a natural number. */
  function Decimal(n: nat): (r: string)
    ensures r != [] && forall k :: 0 <= k < |r| ==> IsDigit(r[k])
    ensures |r| == 1 <==> n < 10
  {
    if n < 10 then [Digit(n)] else Decimal(n / 10) + [Digit(n % 10)]
  }

  /** `int(s)` for a string of decimal digits. */
  function DigitsValue(s: string): nat
    requires forall k :: 0 <= k < |s| ==> IsDigit(s[k])
  {
    if s == [] then 0 else DigitsValue(s[..|s| - 1]) * 10 + DigitValue(s[|s| - 1])
  }

  function DigitValue(c: char): nat
    requires IsDigit(c)
  {
    c as int - '0' as int
  }

  /** Reading back a formatted number gives the number. */
  lemma {:induction false} DecimalRoundTrip(n: nat)
    ensures DigitsValue(Decimal(n)) == n
  {
    if n >= 10 {
      var d := Decimal(n / 10) + [Digit(n % 10)];
      assert d[..|d| - 1] == Decimal(n / 10);
      DecimalRoundTrip(n / 10);
    }
  }

  lemma {:induction false} DecimalLength(n: nat)
    ensures 10 <= n < 100 ==> |Decimal(n)| == 2
    ensures n >= 100 ==> |Decimal(n)| >= 3
  {
    if n >= 10 {
      DecimalLength(n / 10);
    }
  }

  /** Python's `a < b` on `str`: lexicographic on code points, a proper prefix sorts first. */
  predicate LexLess(a: string, b: string)
    decreases |a|
  {
    if a == [] then b != []
    else b != [] && (a[0] < b[0] || (a[0] == b[0] && LexLess(a[1..], b[1..])))
  }

  /** A common prefix does not change the order. */
  lemma {:induction false} LexLessCommonPrefix(p: string, a: string, b: string)
    requires LexLess(a, b)
    ensures LexLess(p + a, p + b)
  {
    if p == [] {
      assert p + a == a && p + b == b;
    } else {
      assert (p + a)[0] == p[0] == (p + b)[0];
      assert (p + a)[1..] == p[1..] + a;
      assert (p + b)[1..] == p[1..] + b;
      LexLessCommonPrefix(p[1..], a, b);
    }
  }

  /** `sep.join(parts)`. */
  function Join(parts: seq<string>, sep: string): string
  {
    if parts == [] then "" else if |parts| == 1 then parts[0] else parts[0] + sep + Join(parts[1..], sep)
  }
}

/**
 * The heading pattern `^(#{level})\s+(.+)$` of split_markdown, compiled with MULTILINE and
 * scanned with `finditer`. Python's backtracking matcher is modelled exactly: `\s+` may run
 * across line breaks, and group 2 starts at the LAST position the greedy `\s+` can give it.
 */
module HeadingMatch {
  import opened Text
  import opened Wrappers

  /** One match: `m.start()`, the start of group 2, and `m.end()`. */
  datatype Heading = Heading(start: nat, titleStart: nat, end: nat)

  /** `^` in MULTILINE mode matches at `i`. */
  predicate LineStart(text: string, i: nat)
  {
    i == 0 || (i <= |text| && text[i - 1] == '\n')
  }

  /** The text holds a '#' at `k`. */
  predicate HashAt(text: string, k: nat)
  {
    k < |text| && text[k] == '#'
  }

  /** The text holds whitespace at `k`. */
  predicate SpaceAt(text: string, k: nat)
  {
    k < |text| && IsSpace(text[k])
  }

  /** The text holds a line break at `k`. */
  predicate BreakAt(text: string, k: nat)
  {
    k < |text| && text[k] == '\n'
  }

  /** `#{level}` matches at `i`. */
  predicate HashesAt(text: string, i: nat, level: nat)
  {
    i + level <= |text| && forall k: nat :: i <= k < i + level ==> HashAt(text, k)
  }

  /**
   * Group 2 can start at `t` for a match at `i`: `\s+` takes everything from the end of the
   * hashes up to `t` (at least one character) and `.` takes text[t].
   */
  predicate TitleCanStart(text: string, i: nat, level: nat, t: nat)
  {
    i + level < t < |text| && text[t] != '\n' && forall k: nat :: i + level <= k < t ==> SpaceAt(text, k)
  }

  /** The pattern matches at `i` (`.+$` then always extends to the end of the line). */
  ghost predicate Matches(text: string, level: nat, i: nat)
  {
    LineStart(text, i) && HashesAt(text, i, level) && exists t: nat :: TitleCanStart(text, i, level, t)
  }

  /** Length of the run of whitespace that starts at `p`. */
  function SpaceRun(text: string, p: nat): (n: nat)
    requires p <= |text|
    ensures p + n <= |text|
    ensures forall k: nat :: p <= k < p + n ==> SpaceAt(text, k)
    ensures p + n == |text| || !IsSpace(text[p + n])
    decreases |text| - p
  {
    if p < |text| && IsSpace(text[p]) then 1 + SpaceRun(text, p + 1) else 0
  }

  /** The first line break at or after `t`, or the end of the text: where `.+$` stops. */
  function LineEnd(text: string, t: nat): (e: nat)
    requires t <= |text|
    ensures t <= e <= |text| && (e == |text| || text[e] == '\n')
    ensures forall k: nat :: t <= k < e ==> !BreakAt(text, k)
    decreases |text| - t
  {
    if t == |text| || text[t] == '\n' then t else LineEnd(text, t + 1)
  }

  /** The last position in [lo, hi) that holds no line break. */
  function LastNonNewline(text: string, lo: nat, hi: nat): (r: Option<nat>)
    requires hi <= |text|
    ensures r.Some? ==> lo <= r.value < hi && text[r.value] != '\n'
                        && forall k: nat :: r.value < k < hi ==> BreakAt(text, k)
    ensures r.None? ==> forall k: nat :: lo <= k < hi ==> BreakAt(text, k)
    decreases hi
  {
    if hi <= lo then None
    else if text[hi - 1] != '\n' then Some(hi - 1)
    else LastNonNewline(text, lo, hi - 1)
  }

  /** The match of the heading pattern at position `i`, if any. */
  function MatchAt(text: string, level: nat, i: nat): (r: Option<Heading>)
    requires i <= |text|
    ensures r.Some? ==> r.value.start == i && i + level < r.value.titleStart < r.value.end <= |text|
  {
    if !LineStart(text, i) || !HashesAt(text, i, level) then None
    else
      var p := i + level;
      var q := p + SpaceRun(text, p);
      if q == p then None
      else if q < |text| then Some(Heading(i, q, LineEnd(text, q)))
      else
        match LastNonNewline(text, p + 1, q)
        case None => None
        case Some(t) => Some(Heading(i, t, LineEnd(text, t)))
  }

  /**
   * A match exists at `i` exactly when the pattern matches there; group 2 starts at the
   * greatest admissible position, and the match runs to the end of that line.
   */
  lemma MatchAtSpec(text: string, level: nat, i: nat)
    requires i <= |text|
    ensures var r := MatchAt(text, level, i);
            && (r.Some? <==> Matches(text, level, i))
            && (r.Some? ==>
                  && HashesAt(text, i, level)
                  && TitleCanStart(text, i, level, r.value.titleStart)
                  && (forall t: nat :: TitleCanStart(text, i, level, t) ==> t <= r.value.titleStart)
                  && (r.value.end == |text| || text[r.value.end] == '\n')
                  && (forall k: nat :: r.value.titleStart <= k < r.value.end ==> !BreakAt(text, k)))
  {
    if LineStart(text, i) && HashesAt(text, i, level) {
      var p := i + level;
      var q := p + SpaceRun(text, p);
      if q == p {
        forall t: nat | p < t ensures !TitleCanStart(text, i, level, t) {
          assert !SpaceAt(text, p);
        }
      } else if q < |text| {
        assert TitleCanStart(text, i, level, q);
        forall t: nat | TitleCanStart(text, i, level, t) ensures t <= q {
          assert !SpaceAt(text, q);
        }
      } else {
        match LastNonNewline(text, p + 1, q)
        case None =>
          forall t: nat ensures !TitleCanStart(text, i, level, t) {
            if p + 1 <= t < q { assert BreakAt(text, t); }
          }
        case Some(t0) =>
          assert TitleCanStart(text, i, level, t0);
          forall t: nat | TitleCanStart(text, i, level, t) ensures t <= t0 {
            assert t <= t0 || BreakAt(text, t);
          }
      }
    }
  }

  /** A line that starts with more than `level` hashes is never a split point at `level`. */
  lemma DeeperHeadingNoMatch(text: string, level: nat, i: nat)
    requires i <= |text| && HashesAt(text, i, level + 1)
    ensures MatchAt(text, level, i).None?
  {
    MatchAtSpec(text, level, i);
    assert HashAt(text, i + level);
  }

  /** `finditer` resuming at `from`: the leftmost match at or after `from`. */
  function NextMatch(text: string, level: nat, from: nat): (r: Option<Heading>)
    requires from <= |text|
    ensures r.Some? ==> from <= r.value.start <= |text| && MatchAt(text, level, r.value.start) == r
    decreases |text| - from
  {
    match MatchAt(text, level, from)
    case Some(h) => Some(h)
    case None => if from == |text| then None else NextMatch(text, level, from + 1)
  }

  /** The resumed search skips no match: nothing matches before the one found, or at all if none is. */
  lemma {:induction false} NextMatchLeftmost(text: string, level: nat, from: nat)
    requires from <= |text|
    ensures var r := NextMatch(text, level, from);
            r.Some? ==> forall j :: from <= j < r.value.start ==> MatchAt(text, level, j).None?
    ensures NextMatch(text, level, from).None? ==> forall j :: from <= j <= |text| ==> MatchAt(text, level, j).None?
    decreases |text| - from
  {
    var here := MatchAt(text, level, from);
    if here.Some? {
      assert NextMatch(text, level, from) == here;
    } else if from < |text| {
      NextMatchLeftmost(text, level, from + 1);
      LeftmostStep(text, level, from);
    } else {
      assert NextMatch(text, level, from).None?;
      forall j | from <= j <= |text| ensures MatchAt(text, level, j).None? {
        assert j == from;
      }
    }
  }

  /** No match at `from` itself: the search goes on from the next position. */
  lemma LeftmostStep(text: string, level: nat, from: nat)
    requires from < |text| && MatchAt(text, level, from).None?
    requires var r := NextMatch(text, level, from + 1);
             r.Some? ==> forall j :: from + 1 <= j < r.value.start ==> MatchAt(text, level, j).None?
    requires NextMatch(text, level, from + 1).None? ==>
               forall j :: from + 1 <= j <= |text| ==> MatchAt(text, level, j).None?
    ensures var r := NextMatch(text, level, from);
            r.Some? ==> forall j :: from <= j < r.value.start ==> MatchAt(text, level, j).None?
    ensures NextMatch(text, level, from).None? ==> forall j :: from <= j <= |text| ==> MatchAt(text, level, j).None?
  {
    var r := NextMatch(text, level, from + 1);
    assert NextMatch(text, level, from) == r;
    var stop := if r.Some? then r.value.start else |text| + 1;
    forall j | from <= j < stop ensures MatchAt(text, level, j).None? {
      if j > from {
        assert from + 1 <= j;
      }
    }
  }

  /** Matches that lie in [lo, n), in order and without overlap. */
  predicate Ordered(hs: seq<Heading>, lo: nat, n: nat)
  {
    && (forall k :: 0 <= k < |hs| ==> lo <= hs[k].start < hs[k].titleStart < hs[k].end <= n)
    && (forall j, k :: 0 <= j < k < |hs| ==> hs[j].end <= hs[k].start)
  }

  /** Every match `finditer` yields when it starts scanning at `from`. */
  function HeadingsFrom(text: string, level: nat, from: nat): (hs: seq<Heading>)
    requires from <= |text|
    ensures Ordered(hs, from, |text|)
    decreases |text| - from
  {
    match NextMatch(text, level, from)
    case None => []
    case Some(h) =>
      var rest := HeadingsFrom(text, level, h.end);
      OrderedCons(h, rest, from, |text|);
      [h] + rest
  }

  /** Each match `finditer` yields is the match of the pattern at its own start. */
  lemma {:induction false} HeadingsAreMatches(text: string, level: nat, from: nat)
    requires from <= |text|
    ensures forall k :: 0 <= k < |HeadingsFrom(text, level, from)| ==>
              MatchAt(text, level, HeadingsFrom(text, level, from)[k].start) == Some(HeadingsFrom(text, level, from)[k])
    decreases |text| - from
  {
    var r := NextMatch(text, level, from);
    if r.Some? {
      var h := r.value;
      HeadingsFromStep(text, level, from);
      HeadingsAreMatches(text, level, h.end);
      var hs := HeadingsFrom(text, level, from);
      var rest := HeadingsFrom(text, level, h.end);
      forall k | 0 < k < |hs| ensures hs[k] == rest[k - 1] {
      }
    }
  }

  lemma OrderedCons(h: Heading, rest: seq<Heading>, lo: nat, n: nat)
    requires lo <= h.start < h.titleStart < h.end <= n && Ordered(rest, h.end, n)
    ensures Ordered([h] + rest, lo, n)
  {
    var hs := [h] + rest;
    forall j, k | 0 <= j < k < |hs| ensures hs[j].end <= hs[k].start {
      assert hs[k] == rest[k - 1];
      if j > 0 { assert hs[j] == rest[j - 1]; }
    }
  }

  /** `list(h_re.finditer(text))` */
  function Headings(text: string, level: nat): seq<Heading>
  {
    HeadingsFrom(text, level, 0)
  }

  /** Position `j` lies within the text of match `h`. */
  predicate Covers(h: Heading, j: nat)
  {
    h.start <= j < h.end
  }

  /**
   * No split point is missed: every position where the pattern matches is the start of a
   * yielded match, or lies inside one (a `\s+` that ran across line breaks swallowed it).
   */
  lemma {:induction false} HeadingsComplete(text: string, level: nat, from: nat, j: nat)
    requires from <= j <= |text| && MatchAt(text, level, j).Some?
    ensures exists k :: 0 <= k < |HeadingsFrom(text, level, from)| && Covers(HeadingsFrom(text, level, from)[k], j)
    decreases |text| - from
  {
    var k := CoveringMatch(text, level, from, j);
  }

  /** The index of the yielded match that covers position `j`. */
  lemma {:induction false} CoveringMatch(text: string, level: nat, from: nat, j: nat) returns (k: nat)
    requires from <= j <= |text| && MatchAt(text, level, j).Some?
    ensures k < |HeadingsFrom(text, level, from)| && Covers(HeadingsFrom(text, level, from)[k], j)
    decreases |text| - from
  {
    var r := NextMatch(text, level, from);
    NextMatchLeftmost(text, level, from);
    if r.None? {
      assert false;
    } else {
      var h := r.value;
      HeadingsFromStep(text, level, from);
      var hs := HeadingsFrom(text, level, from);
      var rest := HeadingsFrom(text, level, h.end);
      if j < h.end {
        assert !(j < h.start);
        assert hs[0] == h;
        k := 0;
      } else {
        var k' := CoveringMatch(text, level, h.end, j);
        assert hs[k' + 1] == rest[k'];
        k := k' + 1;
      }
    }
  }

  /** One step of `finditer`: the next match, then every match after its end. */
  lemma HeadingsFromStep(text: string, level: nat, from: nat)
    requires from <= |text| && NextMatch(text, level, from).Some?
    ensures var h := NextMatch(text, level, from).value;
            h.end <= |text| && HeadingsFrom(text, level, from) == [h] + HeadingsFrom(text, level, h.end)
  {
  }

  /** The title: group 2, stripped. */
  function Title(text: string, h: Heading): string
    requires h.titleStart <= h.end <= |text|
  {
    Strip(text[h.titleStart..h.end], Whitespace)
  }
}

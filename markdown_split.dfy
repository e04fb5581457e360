/**
 * split_markdown: cuts a Markdown text into chapters at the headings of one level. The text
 * before the first heading is the "prologue"; blank regions are dropped, every chapter is
 * stripped, and a chapter that does not begin with '#' gets a heading line put in front.
 */
module MarkdownSplit {
  import opened Text
  import opened HeadingMatch
  import opened Wrappers

  /** One `(title, chapter_text)` pair. */
  datatype Chapter = Chapter(title: string, text: string)

  const PrologueTitle: string := "prologue"

  /** Where the text before the first match ends. */
  function FirstStart(hs: seq<Heading>, n: nat): nat
  {
    if hs == [] then n else hs[0].start
  }

  /** Where the region of match `k` ends: at the next match, or at the end of the text. */
  function RegionEnd(hs: seq<Heading>, k: nat, n: nat): nat
    requires k < |hs|
  {
    if k + 1 < |hs| then hs[k + 1].start else n
  }

  /**
   * The regions the loop slices out, unstripped: from `lastPos` to the first match under
   * `lastTitle`, then from each match to the next under the match's title.
   */
  function Pieces(text: string, hs: seq<Heading>, lastPos: nat, lastTitle: string): (ps: seq<Chapter>)
    requires lastPos <= |text| && Ordered(hs, lastPos, |text|)
    ensures |ps| == |hs| + 1
    decreases |hs|
  {
    if hs == [] then [Chapter(lastTitle, text[lastPos..])]
    else
      assert Ordered(hs[1..], hs[0].start, |text|) by {
        forall k | 0 <= k < |hs| - 1 ensures hs[0].start <= hs[1..][k].start {
          assert hs[1..][k] == hs[k + 1];
        }
      }
      [Chapter(lastTitle, text[lastPos..hs[0].start])] + Pieces(text, hs[1..], hs[0].start, Title(text, hs[0]))
  }

  /** The texts of `ps`, one after the other. */
  function Concat(ps: seq<Chapter>): string
  {
    if ps == [] then "" else ps[0].text + Concat(ps[1..])
  }

  /** The regions cover the text: nothing is lost or repeated before stripping. */
  lemma {:induction false} PiecesCover(text: string, hs: seq<Heading>, lastPos: nat, lastTitle: string)
    requires lastPos <= |text| && Ordered(hs, lastPos, |text|)
    ensures Concat(Pieces(text, hs, lastPos, lastTitle)) == text[lastPos..]
    decreases |hs|
  {
    if hs != [] {
      OrderedTail(hs, lastPos, |text|);
      var ps := Pieces(text, hs, lastPos, lastTitle);
      var rest := Pieces(text, hs[1..], hs[0].start, Title(text, hs[0]));
      PiecesCover(text, hs[1..], hs[0].start, Title(text, hs[0]));
      assert ps[1..] == rest;
      assert Concat(ps) == text[lastPos..hs[0].start] + Concat(rest);
      assert text[lastPos..hs[0].start] + text[hs[0].start..] == text[lastPos..];
    }
  }

  /** The matches after the first are ordered from the first's start. */
  lemma OrderedTail(hs: seq<Heading>, lo: nat, n: nat)
    requires hs != [] && Ordered(hs, lo, n)
    ensures Ordered(hs[1..], hs[0].start, n)
  {
    forall k | 0 <= k < |hs| - 1 ensures hs[0].start <= hs[1..][k].start {
      assert hs[1..][k] == hs[k + 1];
    }
  }

  /** A match's region runs from its start to no further than the end of the text. */
  lemma RegionBounds(hs: seq<Heading>, k: nat, n: nat)
    requires Ordered(hs, 0, n) && k < |hs|
    ensures hs[k].start <= RegionEnd(hs, k, n) <= n
  {
    if k + 1 < |hs| {
      assert hs[k].end <= hs[k + 1].start;
    }
  }

  /** Region by region: what the prologue region and the region of each match are. */
  lemma PiecesAt(text: string, hs: seq<Heading>, lastPos: nat, lastTitle: string)
    requires lastPos <= |text| && Ordered(hs, lastPos, |text|)
    ensures Pieces(text, hs, lastPos, lastTitle)[0] == Chapter(lastTitle, text[lastPos..FirstStart(hs, |text|)])
    ensures forall k :: 0 <= k < |hs| ==>
              hs[k].start <= RegionEnd(hs, k, |text|) <= |text|
              && Pieces(text, hs, lastPos, lastTitle)[k + 1]
                 == Chapter(Title(text, hs[k]), text[hs[k].start..RegionEnd(hs, k, |text|)])
  {
    PiecesHead(text, hs, lastPos, lastTitle);
    PiecesTail(text, hs, lastPos, lastTitle);
  }

  /** The region of each match, by induction on the matches. */
  lemma {:induction false} PiecesTail(text: string, hs: seq<Heading>, lastPos: nat, lastTitle: string)
    requires lastPos <= |text| && Ordered(hs, lastPos, |text|)
    ensures forall k :: 0 <= k < |hs| ==>
              hs[k].start <= RegionEnd(hs, k, |text|) <= |text|
              && Pieces(text, hs, lastPos, lastTitle)[k + 1]
                 == Chapter(Title(text, hs[k]), text[hs[k].start..RegionEnd(hs, k, |text|)])
    decreases |hs|
  {
    if hs != [] {
      var tl := hs[1..];
      OrderedTail(hs, lastPos, |text|);
      PiecesTail(text, tl, hs[0].start, Title(text, hs[0]));
      forall k | 0 <= k < |hs|
        ensures hs[k].start <= RegionEnd(hs, k, |text|) <= |text|
        ensures Pieces(text, hs, lastPos, lastTitle)[k + 1]
                == Chapter(Title(text, hs[k]), text[hs[k].start..RegionEnd(hs, k, |text|)])
      {
        PieceShift(text, hs, lastPos, lastTitle, k);
      }
    }
  }

  /** Region k+1 of the matches is region k of the matches after the first. */
  lemma PieceShift(text: string, hs: seq<Heading>, lastPos: nat, lastTitle: string, k: nat)
    requires lastPos <= |text| && Ordered(hs, lastPos, |text|) && k < |hs|
    requires Ordered(hs[1..], hs[0].start, |text|)
    requires k > 0 ==>
               var tl := hs[1..];
               Pieces(text, tl, hs[0].start, Title(text, hs[0]))[k]
               == Chapter(Title(text, tl[k - 1]), text[tl[k - 1].start..RegionEnd(tl, k - 1, |text|)])
    ensures hs[k].start <= RegionEnd(hs, k, |text|) <= |text|
    ensures Pieces(text, hs, lastPos, lastTitle)[k + 1]
            == Chapter(Title(text, hs[k]), text[hs[k].start..RegionEnd(hs, k, |text|)])
  {
    var tl := hs[1..];
    var rest := Pieces(text, tl, hs[0].start, Title(text, hs[0]));
    assert Pieces(text, hs, lastPos, lastTitle)[k + 1] == rest[k];
    RegionBounds(hs, k, |text|);
    if k == 0 {
      FirstRegion(text, hs);
    } else {
      assert tl[k - 1] == hs[k];
      assert RegionEnd(tl, k - 1, |text|) == RegionEnd(hs, k, |text|);
    }
  }

  /** The first region of the matches after the first one is the first match's region. */
  lemma FirstRegion(text: string, hs: seq<Heading>)
    requires hs != [] && Ordered(hs, 0, |text|) && Ordered(hs[1..], hs[0].start, |text|)
    ensures hs[0].start <= RegionEnd(hs, 0, |text|) <= |text|
    ensures Pieces(text, hs[1..], hs[0].start, Title(text, hs[0]))[0]
            == Chapter(Title(text, hs[0]), text[hs[0].start..RegionEnd(hs, 0, |text|)])
  {
    var tl := hs[1..];
    RegionBounds(hs, 0, |text|);
    PiecesHead(text, tl, hs[0].start, Title(text, hs[0]));
    if tl != [] {
      assert tl[0] == hs[1];
    }
  }

  /** The first region runs from `lastPos` to the first match. */
  lemma PiecesHead(text: string, hs: seq<Heading>, lastPos: nat, lastTitle: string)
    requires lastPos <= |text| && Ordered(hs, lastPos, |text|)
    ensures lastPos <= FirstStart(hs, |text|) <= |text|
    ensures Pieces(text, hs, lastPos, lastTitle)[0] == Chapter(lastTitle, text[lastPos..FirstStart(hs, |text|)])
  {
    if hs == [] {
      assert text[lastPos..] == text[lastPos..|text|];
    }
  }

  /** `if body.strip(): parts.append((title, body.strip()))` for one region. */
  function KeepOne(p: Chapter): seq<Chapter>
  {
    var s := Strip(p.text, Whitespace);
    if s == [] then [] else [Chapter(p.title, s)]
  }

  /** The regions that survive, stripped. */
  function Keep(ps: seq<Chapter>): (cs: seq<Chapter>)
    ensures |cs| <= |ps|
  {
    if ps == [] then [] else KeepOne(ps[0]) + Keep(ps[1..])
  }

  /** No kept chapter is blank or has whitespace at either end. */
  lemma {:induction false} KeepTrimmed(ps: seq<Chapter>)
    ensures forall c :: c in Keep(ps) ==> c.text != [] && !IsSpace(c.text[0]) && !IsSpace(c.text[|c.text| - 1])
  {
    if ps != [] {
      KeepTrimmed(ps[1..]);
      var one := KeepOne(ps[0]);
      assert Keep(ps) == one + Keep(ps[1..]);
      forall c | c in one ensures c.text != [] && !IsSpace(c.text[0]) && !IsSpace(c.text[|c.text| - 1]) {
        assert c.text == Strip(ps[0].text, Whitespace);
      }
    }
  }

  lemma {:induction false} KeepAppend(a: seq<Chapter>, b: seq<Chapter>)
    ensures Keep(a + b) == Keep(a) + Keep(b)
  {
    if a == [] {
      assert a + b == b;
    } else {
      assert (a + b)[1..] == a[1..] + b;
      KeepAppend(a[1..], b);
    }
  }

  /** Regions that are not blank all survive, in order, stripped. */
  lemma {:induction false} KeepNonBlank(ps: seq<Chapter>)
    requires forall k :: 0 <= k < |ps| ==> Strip(ps[k].text, Whitespace) != []
    ensures |Keep(ps)| == |ps|
    ensures forall k :: 0 <= k < |ps| ==> Keep(ps)[k] == Chapter(ps[k].title, Strip(ps[k].text, Whitespace))
  {
    if ps != [] {
      KeepNonBlank(ps[1..]);
    }
  }

  /** `'#' * level` */
  function Hashes(level: nat): (r: string)
    ensures |r| == level && forall k :: 0 <= k < level ==> r[k] == '#'
  {
    seq(level, _ => '#')
  }

  /** The second loop on one chapter: put `"<hashes> <title>\n\n"` in front unless it starts with '#'. */
  function RefineOne(c: Chapter, level: nat): Chapter
  {
    if |c.text| > 0 && c.text[0] == '#' then c
    else Chapter(c.title, Hashes(level) + " " + c.title + "\n\n" + c.text)
  }

  function Refine(cs: seq<Chapter>, level: nat): (rs: seq<Chapter>)
    ensures |rs| == |cs| && forall k :: 0 <= k < |cs| ==> rs[k] == RefineOne(cs[k], level)
  {
    seq(|cs|, k requires 0 <= k < |cs| => RefineOne(cs[k], level))
  }

  /** What split_markdown returns for `text` and `level`. */
  function Split(text: string, level: nat): seq<Chapter>
  {
    Refine(Keep(Pieces(text, Headings(text, level), 0, PrologueTitle)), level)
  }

  /** The text before the first heading. */
  function Prologue(text: string, level: nat): string
  {
    text[..FirstStart(Headings(text, level), |text|)]
  }

  lemma AppendAssoc(a: seq<Chapter>, b: seq<Chapter>, c: seq<Chapter>)
    ensures a + (b + c) == (a + b) + c
  {
  }

  /** One step of the scan: the next match closes the current region and opens its own. */
  lemma ScanStep(text: string, level: nat, pos: nat, lastPos: nat, lastTitle: string)
    requires lastPos <= pos <= |text| && NextMatch(text, level, pos).Some?
    requires Ordered(HeadingsFrom(text, level, pos), lastPos, |text|)
    ensures var h := NextMatch(text, level, pos).value;
            var rest := HeadingsFrom(text, level, h.end);
            && lastPos <= h.start <= h.end <= |text|
            && Ordered(rest, h.start, |text|)
            && Keep(Pieces(text, HeadingsFrom(text, level, pos), lastPos, lastTitle))
               == KeepOne(Chapter(lastTitle, text[lastPos..h.start]))
                  + Keep(Pieces(text, rest, h.start, Title(text, h)))
  {
    var h := NextMatch(text, level, pos).value;
    var rest := HeadingsFrom(text, level, h.end);
    assert HeadingsFrom(text, level, pos) == [h] + rest;
    assert Ordered(rest, h.start, |text|);
    var ps := Pieces(text, HeadingsFrom(text, level, pos), lastPos, lastTitle);
    assert ps[1..] == Pieces(text, rest, h.start, Title(text, h));
  }

  /** The scan has reached the end: the rest of the text is the last region. */
  lemma ScanEnd(text: string, level: nat, pos: nat, lastPos: nat, lastTitle: string)
    requires lastPos <= pos <= |text| && NextMatch(text, level, pos).None?
    ensures Keep(Pieces(text, HeadingsFrom(text, level, pos), lastPos, lastTitle))
            == KeepOne(Chapter(lastTitle, text[lastPos..]))
  {
    assert HeadingsFrom(text, level, pos) == [];
    var ps := Pieces(text, [], lastPos, lastTitle);
    assert ps[1..] == [];
  }

  /** split_markdown itself: the scan over the matches, then the pass that adds heading lines. */
  method SplitMarkdown(text: string, level: nat) returns (chapters: seq<Chapter>)
    ensures chapters == Split(text, level)
  {
    var parts := ScanParts(text, level);
    chapters := AddHeadingLines(parts, level);
  }

  /** The first loop of split_markdown: the stripped, non-blank regions between matches. */
  method ScanParts(text: string, level: nat) returns (parts: seq<Chapter>)
    ensures parts == Keep(Pieces(text, Headings(text, level), 0, PrologueTitle))
  {
    parts := [];
    var lastPos: nat := 0;
    var lastTitle := PrologueTitle;
    var pos: nat := 0;
    var m := NextMatch(text, level, 0);
    while m.Some?
      invariant lastPos <= pos <= |text|
      invariant m == NextMatch(text, level, pos)
      invariant Ordered(HeadingsFrom(text, level, pos), lastPos, |text|)
      invariant Keep(Pieces(text, Headings(text, level), 0, PrologueTitle))
                == parts + Keep(Pieces(text, HeadingsFrom(text, level, pos), lastPos, lastTitle))
      decreases |text| - pos
    {
      var h := m.value;
      ScanStep(text, level, pos, lastPos, lastTitle);
      ghost var later := Keep(Pieces(text, HeadingsFrom(text, level, h.end), h.start, Title(text, h)));
      ghost var one := KeepOne(Chapter(lastTitle, text[lastPos..h.start]));
      AppendAssoc(parts, one, later);
      var body := Strip(text[lastPos..h.start], Whitespace);
      if body != [] {
        parts := parts + [Chapter(lastTitle, body)];
      } else {
        assert parts + one == parts;
      }
      lastTitle := Title(text, h);
      lastPos := h.start;
      pos := h.end;
      m := NextMatch(text, level, pos);
    }
    ScanEnd(text, level, pos, lastPos, lastTitle);
    var tail := Strip(text[lastPos..], Whitespace);
    if tail != [] {
      parts := parts + [Chapter(lastTitle, tail)];
    }
  }

  /** The second loop of split_markdown: a heading line in front of each part not starting with '#'. */
  method AddHeadingLines(parts: seq<Chapter>, level: nat) returns (chapters: seq<Chapter>)
    ensures chapters == Refine(parts, level)
  {
    var refined: seq<Chapter> := [];
    for i := 0 to |parts|
      invariant |refined| == i
      invariant forall k :: 0 <= k < i ==> refined[k] == RefineOne(parts[k], level)
    {
      var c := parts[i];
      if !(|c.text| > 0 && c.text[0] == '#') {
        c := Chapter(c.title, Hashes(level) + " " + c.title + "\n\n" + c.text);
      }
      refined := refined + [c];
    }
    chapters := refined;
  }

  /** Every chapter is non-empty, begins with '#' and has no whitespace at either end. */
  lemma ChaptersWellFormed(text: string, level: nat)
    requires level >= 1
    ensures forall c :: c in Split(text, level) ==>
              c.text != [] && c.text[0] == '#' && !IsSpace(c.text[0]) && !IsSpace(c.text[|c.text| - 1])
  {
    var kept := Keep(Pieces(text, Headings(text, level), 0, PrologueTitle));
    KeepTrimmed(Pieces(text, Headings(text, level), 0, PrologueTitle));
    var cs := Split(text, level);
    forall k | 0 <= k < |cs|
      ensures cs[k].text != [] && cs[k].text[0] == '#' && !IsSpace(cs[k].text[|cs[k].text| - 1])
    {
      assert kept[k] in kept;
      assert cs[k] == RefineOne(kept[k], level);
      RefineOneWellFormed(kept[k], level);
    }
  }

  /** A chapter with no trailing whitespace, once refined, begins with '#' and still ends the same. */
  lemma RefineOneWellFormed(c: Chapter, level: nat)
    requires level >= 1 && c.text != [] && !IsSpace(c.text[|c.text| - 1])
    ensures var t := RefineOne(c, level).text;
            t != [] && t[0] == '#' && !IsSpace(t[|t| - 1])
  {
    if c.text[0] != '#' {
      var t := Hashes(level) + " " + c.title + "\n\n" + c.text;
      assert t[0] == '#';
      assert t[|t| - 1] == c.text[|c.text| - 1];
    }
  }

  /** Every match begins with a '#' of the text. */
  predicate HashStarts(text: string, hs: seq<Heading>)
  {
    forall k :: 0 <= k < |hs| ==> hs[k].start < |text| && text[hs[k].start] == '#'
  }

  lemma HeadingsHashStarts(text: string, level: nat)
    requires level >= 1
    ensures HashStarts(text, Headings(text, level)) && Ordered(Headings(text, level), 0, |text|)
  {
    var hs := HeadingsFrom(text, level, 0);
    HeadingsAreMatches(text, level, 0);
    forall k | 0 <= k < |hs| ensures hs[k].start < |text| && text[hs[k].start] == '#' {
      assert MatchAt(text, level, hs[k].start) == Some(hs[k]);
      MatchAtSpec(text, level, hs[k].start);
      assert HashesAt(text, hs[k].start, level);
      assert HashAt(text, hs[k].start);
    }
  }

  /** The region of a match strips to a text that still begins with '#'. */
  lemma HeadingRegion(text: string, hs: seq<Heading>, k: nat)
    requires Ordered(hs, 0, |text|) && HashStarts(text, hs) && k < |hs|
    ensures var s := Strip(text[hs[k].start..RegionEnd(hs, k, |text|)], Whitespace);
            s != [] && s[0] == '#'
  {
    if k + 1 < |hs| {
      assert hs[k].end <= hs[k + 1].start;
    }
    var region := text[hs[k].start..RegionEnd(hs, k, |text|)];
    assert region[0] == text[hs[k].start] == '#';
    StripFirst(region, Whitespace);
  }

  /** The regions after the first match all survive, each still beginning with '#'. */
  lemma HeadingChapters(text: string, hs: seq<Heading>)
    requires Ordered(hs, 0, |text|) && HashStarts(text, hs)
    ensures var tl := Pieces(text, hs, 0, PrologueTitle)[1..];
            && |Keep(tl)| == |hs|
            && forall k :: 0 <= k < |hs| ==>
                 hs[k].start <= RegionEnd(hs, k, |text|) <= |text|
                 && Keep(tl)[k] == Chapter(Title(text, hs[k]),
                                           Strip(text[hs[k].start..RegionEnd(hs, k, |text|)], Whitespace))
                 && Keep(tl)[k].text != [] && Keep(tl)[k].text[0] == '#'
  {
    var ps := Pieces(text, hs, 0, PrologueTitle);
    PiecesAt(text, hs, 0, PrologueTitle);
    var tl := ps[1..];
    forall k | 0 <= k < |tl| ensures Strip(tl[k].text, Whitespace) != [] && Strip(tl[k].text, Whitespace)[0] == '#' {
      assert tl[k] == ps[k + 1];
      HeadingRegion(text, hs, k);
    }
    KeepNonBlank(tl);
    forall k | 0 <= k < |hs|
      ensures Keep(tl)[k] == Chapter(Title(text, hs[k]), Strip(text[hs[k].start..RegionEnd(hs, k, |text|)], Whitespace))
    {
      assert tl[k] == ps[k + 1];
    }
  }

  /** 1 when the prologue region is not blank (and so is kept), 0 otherwise. */
  function PrologueOffset(text: string, hs: seq<Heading>): nat
    requires Ordered(hs, 0, |text|)
  {
    if Strip(text[..FirstStart(hs, |text|)], Whitespace) == [] then 0 else 1
  }

  /** The chapter of match `k`: its title and its stripped region. */
  function RegionChapter(text: string, hs: seq<Heading>, k: nat): Chapter
    requires Ordered(hs, 0, |text|) && k < |hs|
  {
    RegionBounds(hs, k, |text|);
    Chapter(Title(text, hs[k]), Strip(text[hs[k].start..RegionEnd(hs, k, |text|)], Whitespace))
  }

  /** From position `off` on, `cs` holds exactly the chapters of the matches, in order. */
  predicate RegionsFrom(text: string, hs: seq<Heading>, cs: seq<Chapter>, off: nat)
    requires Ordered(hs, 0, |text|)
  {
    |cs| == off + |hs| && forall k :: 0 <= k < |hs| ==> cs[off + k] == RegionChapter(text, hs, k)
  }

  /** The chapters the first loop keeps, for any ordered matches that begin with '#'. */
  lemma KeptLayout(text: string, hs: seq<Heading>)
    requires Ordered(hs, 0, |text|) && HashStarts(text, hs)
    ensures var kept := Keep(Pieces(text, hs, 0, PrologueTitle));
            && RegionsFrom(text, hs, kept, PrologueOffset(text, hs))
            && (PrologueOffset(text, hs) == 1 ==>
                  kept[0] == Chapter(PrologueTitle, Strip(text[..FirstStart(hs, |text|)], Whitespace)))
  {
    var ps := Pieces(text, hs, 0, PrologueTitle);
    var tl := ps[1..];
    KeptHead(text, hs);
    HeadingChapters(text, hs);
    var kept := Keep(ps);
    var head := KeepOne(Chapter(PrologueTitle, text[..FirstStart(hs, |text|)]));
    assert kept == head + Keep(tl);
    var off := PrologueOffset(text, hs);
    assert |head| == off;
    forall k | 0 <= k < |hs| ensures kept[off + k] == RegionChapter(text, hs, k) {
      assert kept[off + k] == Keep(tl)[k];
    }
    assert RegionsFrom(text, hs, kept, off);
  }

  /** The first loop keeps the prologue region (if not blank), then the regions of the matches. */
  lemma KeptHead(text: string, hs: seq<Heading>)
    requires Ordered(hs, 0, |text|)
    ensures var ps := Pieces(text, hs, 0, PrologueTitle);
            Keep(ps) == KeepOne(Chapter(PrologueTitle, text[..FirstStart(hs, |text|)])) + Keep(ps[1..])
  {
    var ps := Pieces(text, hs, 0, PrologueTitle);
    assert text[0..FirstStart(hs, |text|)] == text[..FirstStart(hs, |text|)];
    assert ps[0] == Chapter(PrologueTitle, text[..FirstStart(hs, |text|)]);
    assert ps == [ps[0]] + ps[1..];
    KeepAppend([ps[0]], ps[1..]);
    assert Keep([ps[0]]) == KeepOne(ps[0]);
  }

  /** The layout of the chapters for any ordered matches that begin with '#'. */
  lemma LayoutOf(text: string, hs: seq<Heading>, level: nat)
    requires Ordered(hs, 0, |text|) && HashStarts(text, hs)
    ensures var cs := Refine(Keep(Pieces(text, hs, 0, PrologueTitle)), level);
            && RegionsFrom(text, hs, cs, PrologueOffset(text, hs))
            && (PrologueOffset(text, hs) == 1 ==>
                  cs[0] == RefineOne(Chapter(PrologueTitle, Strip(text[..FirstStart(hs, |text|)], Whitespace)), level))
  {
    KeptLayout(text, hs);
    var kept := Keep(Pieces(text, hs, 0, PrologueTitle));
    var cs := Refine(kept, level);
    var off := PrologueOffset(text, hs);
    forall k | 0 <= k < |hs| ensures cs[off + k] == RegionChapter(text, hs, k) {
      RegionBounds(hs, k, |text|);
      RegionStartsHash(text, hs, k);
      assert cs[off + k] == RefineOne(kept[off + k], level);
    }
  }

  /** The chapter of a match begins with '#', so the second loop leaves it alone. */
  lemma RegionStartsHash(text: string, hs: seq<Heading>, k: nat)
    requires Ordered(hs, 0, |text|) && HashStarts(text, hs) && k < |hs|
    ensures var c := RegionChapter(text, hs, k); c.text != [] && c.text[0] == '#'
  {
    HeadingRegion(text, hs, k);
  }

  /**
   * The chapters, in document order: the prologue (when it is not blank), then one chapter
   * per heading, titled by the stripped heading text and holding the stripped region from
   * that heading up to the next one.
   */
  lemma ChapterLayout(text: string, level: nat)
    requires level >= 1
    ensures var hs := Headings(text, level);
            var pro := Strip(Prologue(text, level), Whitespace);
            var off := if pro == [] then 0 else 1;
            var cs := Split(text, level);
            && |cs| == off + |hs|
            && (off == 1 ==> cs[0] == Chapter(PrologueTitle,
                                              if pro[0] == '#' then pro
                                              else Hashes(level) + " " + PrologueTitle + "\n\n" + pro))
            && forall k :: 0 <= k < |hs| ==>
                 hs[k].start <= RegionEnd(hs, k, |text|) <= |text|
                 && cs[off + k] == Chapter(Title(text, hs[k]),
                                           Strip(text[hs[k].start..RegionEnd(hs, k, |text|)], Whitespace))
  {
    var hs := Headings(text, level);
    HeadingsHashStarts(text, level);
    LayoutOf(text, hs, level);
    assert Prologue(text, level) == text[..FirstStart(hs, |text|)];
    var cs := Split(text, level);
    var off := PrologueOffset(text, hs);
    forall k | 0 <= k < |hs|
      ensures hs[k].start <= RegionEnd(hs, k, |text|) <= |text|
      ensures cs[off + k] == Chapter(Title(text, hs[k]), Strip(text[hs[k].start..RegionEnd(hs, k, |text|)], Whitespace))
    {
      RegionBounds(hs, k, |text|);
      assert cs[off + k] == RegionChapter(text, hs, k);
    }
  }

  /** A text without a heading of the level yields at most one chapter. */
  lemma NoHeadingAtMostOneChapter(text: string, level: nat)
    requires Headings(text, level) == []
    ensures |Split(text, level)| <= 1
  {
    assert Pieces(text, [], 0, PrologueTitle) == [Chapter(PrologueTitle, text)];
  }

  /** A heading on the very first line: no prologue chapter, the first chapter is that heading's. */
  lemma LeadingHeadingNoPrologue(text: string, level: nat)
    requires level >= 1
    requires Headings(text, level) != [] && Headings(text, level)[0].start == 0
    ensures |Split(text, level)| == |Headings(text, level)|
    ensures Split(text, level)[0].title == Title(text, Headings(text, level)[0])
  {
    ChapterLayout(text, level);
    assert Prologue(text, level) == [];
  }
}

/**
 * pathlib's view of a path, on the sequence of its name components: `name`, `parent`,
 * `suffix`, `stem`, `with_suffix` and `relative_to`.
 */
module Paths {
  import opened Text
  import opened Wrappers

  /** A path as its name components (pathlib's `parts`); `str()` joins them with "/". */
  type Path = seq<string>

  /** `path.name`: the last component, "" for the empty path. */
  function Name(p: Path): string
  {
    if p == [] then "" else p[|p| - 1]
  }

  /** `path.parent` */
  function Parent(p: Path): Path
  {
    if p == [] then [] else p[..|p| - 1]
  }

  /** `str(path)` */
  function Show(p: Path): string
  {
    Join(p, "/")
  }

  /** `name.rfind('.')`: the position of the last dot, or -1. */
  function LastDot(name: string): (i: int)
    ensures -1 <= i < |name|
    ensures i >= 0 ==> name[i] == '.'
    ensures forall k :: i < k < |name| ==> name[k] != '.'
    decreases |name|
  {
    if name == [] then -1
    else if name[|name| - 1] == '.' then |name| - 1
    else LastDot(name[..|name| - 1])
  }

  /** pathlib sees a suffix when the last dot is neither the first nor the last character. */
  predicate HasSuffix(name: string)
  {
    0 < LastDot(name) < |name| - 1
  }

  /** `path.suffix` of a path whose name is `name`. */
  function Suffix(name: string): string
  {
    if HasSuffix(name) then name[LastDot(name)..] else ""
  }

  /** `path.stem` of a path whose name is `name`. */
  function Stem(name: string): (r: string)
    ensures name != "" ==> r != ""
  {
    if HasSuffix(name) then name[..LastDot(name)] else name
  }

  /** A name is its stem followed by its suffix. */
  lemma StemSuffix(name: string)
    ensures Stem(name) + Suffix(name) == name
  {
  }

  /** What `with_suffix` accepts: the empty suffix, or a dot followed by at least one character. */
  predicate ValidSuffix(suffix: string)
  {
    suffix == "" || (|suffix| >= 2 && suffix[0] == '.')
  }

  /** The name of `path.with_suffix(suffix)` for a path whose name is `name`. */
  function WithSuffix(name: string, suffix: string): (r: string)
    requires name != "" && ValidSuffix(suffix)
    ensures r != ""
  {
    Stem(name) + suffix
  }

  /** Replacing the suffix by one with a single dot keeps the stem and installs the new suffix. */
  lemma WithSuffixRoundTrip(name: string, suffix: string)
    requires name != "" && ValidSuffix(suffix) && suffix != ""
    requires forall k :: 0 < k < |suffix| ==> suffix[k] != '.'
    ensures Stem(WithSuffix(name, suffix)) == Stem(name)
    ensures Suffix(WithSuffix(name, suffix)) == suffix
  {
    var s := WithSuffix(name, suffix);
    var j := |Stem(name)|;
    assert s[j] == '.';
    assert forall k :: j < k < |s| ==> s[k] == suffix[k - j];
    assert LastDot(s) == j;
    assert s[..j] == Stem(name);
  }

  /** `root` is an ancestor of `p`, or `p` itself. */
  predicate IsPrefix(root: Path, p: Path)
  {
    |root| <= |p| && p[..|root|] == root
  }

  /** Every non-empty leading part of `p`: the directories `p.mkdir(parents=True)` makes sure of. */
  function Ancestors(p: Path): set<Path>
  {
    set k | 1 <= k <= |p| :: p[..k]
  }

  /** `p.relative_to(root)`: the components after `root`, or None where pathlib raises. */
  function RelativeTo(p: Path, root: Path): (r: Option<Path>)
    ensures r.Some? <==> IsPrefix(root, p)
    ensures r.Some? ==> root + r.value == p
  {
    if IsPrefix(root, p) then Some(p[|root|..]) else None
  }
}

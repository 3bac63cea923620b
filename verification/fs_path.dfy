/** Relative filesystem paths as sequences of elements, with the lexical
    operations of `std::filesystem::path` the archive façade relies on. */
module FsPath {

  /** A path: its elements in order (`"a/b/c.dds"` is `["a", "b", "c.dds"]`). */
  datatype Path = Path(elements: seq<string>)

  const Dot: string := "."
  const DotDot: string := ".."

  /** The elements joined with `/`. */
  function Join(elements: seq<string>): string
  {
    if |elements| == 0 then ""
    else if |elements| == 1 then elements[0]
    else elements[0] + "/" + Join(elements[1..])
  }

  /** `generic_string()` */
  function GenericString(p: Path): string
  {
    Join(p.elements)
  }

  /** The path ends in a separator: its last element is empty. */
  predicate EndsInSeparator(p: Path)
  {
    |p.elements| > 0 && p.elements[|p.elements| - 1] == ""
  }

  /** `filename()`: the last element, or the empty path when there is none
      or the path ends in a separator. */
  function Filename(p: Path): (r: Path)
    ensures |p.elements| > 0 && !EndsInSeparator(p) ==> r.elements == [p.elements[|p.elements| - 1]]
    ensures |p.elements| == 0 || EndsInSeparator(p) ==> r.elements == []
  {
    if |p.elements| == 0 || EndsInSeparator(p) then Path([])
    else Path([p.elements[|p.elements| - 1]])
  }

  /** `parent_path()`: every element but the last (for a path ending in a
      separator, the path without that separator). */
  function ParentPath(p: Path): (r: Path)
    ensures !EndsInSeparator(p) ==> r.elements + Filename(p).elements == p.elements
    ensures EndsInSeparator(p) ==> r.elements + [""] == p.elements
  {
    if |p.elements| == 0 then p else Path(p.elements[..|p.elements| - 1])
  }

  /** A normal element sequence: no empty or `.` element, and every `..`
      before every name. */
  ghost predicate Normal(elements: seq<string>)
  {
    && (forall i :: 0 <= i < |elements| ==> elements[i] != "" && elements[i] != Dot)
    && (forall i, j :: 0 <= i < j < |elements| && elements[i] != DotDot ==> elements[j] != DotDot)
  }

  /** Folds the remaining elements onto an already normal prefix. */
  function NormalizeFrom(done: seq<string>, rest: seq<string>): (r: seq<string>)
    requires Normal(done)
    ensures Normal(r)
    decreases |rest|
  {
    if |rest| == 0 then done
    else
      var e := rest[0];
      if e == "" || e == Dot then NormalizeFrom(done, rest[1..])
      else if e == DotDot && |done| > 0 && done[|done| - 1] != DotDot then
        NormalizeFrom(done[..|done| - 1], rest[1..])
      else NormalizeFrom(done + [e], rest[1..])
  }

  /** `lexically_normal()`: drops `.` and empty elements, cancels each name
      followed by `..`, and yields `.` for a non-empty path that cancels out. */
  function LexicallyNormal(p: Path): (r: Path)
    ensures Normal(r.elements) || r.elements == [Dot]
    ensures |p.elements| == 0 <==> |r.elements| == 0
  {
    var elements := NormalizeFrom([], p.elements);
    if |elements| == 0 && |p.elements| > 0 then Path([Dot]) else Path(elements)
  }

  /** Folding a sequence that keeps the prefix normal appends it unchanged. */
  lemma {:induction false} NormalizeNormal(done: seq<string>, rest: seq<string>)
    requires Normal(done + rest)
    ensures Normal(done) && NormalizeFrom(done, rest) == done + rest
    decreases |rest|
  {
    assert Normal(done) by {
      forall i | 0 <= i < |done|
        ensures done[i] == (done + rest)[i]
      {
      }
    }
    if |rest| > 0 {
      var e := rest[0];
      assert (done + rest)[|done|] == e;
      if e == DotDot && |done| > 0 {
        assert (done + rest)[|done| - 1] == done[|done| - 1];
      }
      assert done + rest == (done + [e]) + rest[1..];
      NormalizeNormal(done + [e], rest[1..]);
    }
  }

  /** Normalising twice is normalising once. */
  lemma LexicallyNormalIdempotent(p: Path)
    ensures LexicallyNormal(LexicallyNormal(p)) == LexicallyNormal(p)
  {
    var r := LexicallyNormal(p);
    if r.elements == [Dot] {
      assert NormalizeFrom([], [Dot]) == NormalizeFrom([], []);
    } else {
      NormalizeNormal([], r.elements);
      assert [] + r.elements == r.elements;
    }
  }

  /** The elements iteration over a path yields: repeated separators count
      as one, so an empty element survives only at the end, where it stands
      for a trailing separator. */
  function Iterated(elements: seq<string>): (r: seq<string>)
    ensures forall i :: 0 <= i < |r| - 1 ==> r[i] != ""
  {
    if |elements| <= 1 then elements
    else (if elements[0] == "" then [] else [elements[0]]) + Iterated(elements[1..])
  }

  /** The non-empty elements, in order. */
  function NonEmpty(elements: seq<string>): (r: seq<string>)
    ensures forall i :: 0 <= i < |r| ==> r[i] != ""
  {
    if |elements| == 0 then []
    else (if elements[0] == "" then [] else [elements[0]]) + NonEmpty(elements[1..])
  }

  /** `lexically_relative(base)` for two paths under the same root, compared
      element by element as iteration yields them: the elements after the
      common prefix, preceded by one `..` for every name of `base` left over;
      empty when `base` climbs out with `..`. */
  function LexicallyRelative(path: Path, base: Path): (r: Path)
  {
    var p, b := Iterated(path.elements), Iterated(base.elements);
    var k := CommonPrefix(p, b);
    if k == |p| && k == |b| then Path([Dot])
    else
      var n := NameBalance(b[k..]);
      if n < 0 then Path([])
      else if n == 0 && (k == |p| || p[k] == "") then Path([Dot])
      else Path(Repeat(DotDot, n) + p[k..])
  }

  /** Length of the longest common prefix (`std::mismatch`). */
  function CommonPrefix(a: seq<string>, b: seq<string>): (k: nat)
    ensures k <= |a| && k <= |b|
    ensures a[..k] == b[..k]
    ensures k < |a| && k < |b| ==> a[k] != b[k]
  {
    if |a| == 0 || |b| == 0 || a[0] != b[0] then 0
    else 1 + CommonPrefix(a[1..], b[1..])
  }

  /** Names minus `..` elements; `.` and empty elements count for nothing. */
  function NameBalance(elements: seq<string>): int
  {
    if |elements| == 0 then 0
    else
      var e := elements[0];
      (if e == DotDot then -1 else if e == Dot || e == "" then 0 else 1) + NameBalance(elements[1..])
  }

  function Repeat(e: string, n: nat): (r: seq<string>)
    ensures |r| == n
    ensures forall i :: 0 <= i < n ==> r[i] == e
  {
    if n == 0 then [] else [e] + Repeat(e, n - 1)
  }

  /** Iterating a path that goes on after `base` yields the names of `base`
      followed by what iterating the rest yields. */
  lemma {:induction false} IteratedAppend(base: seq<string>, rest: seq<string>)
    requires |rest| > 0
    ensures Iterated(base + rest) == NonEmpty(base) + Iterated(rest)
    decreases |base|
  {
    if |base| > 0 {
      assert (base + rest)[0] == base[0];
      assert (base + rest)[1..] == base[1..] + rest;
      IteratedAppend(base[1..], rest);
    } else {
      assert base + rest == rest;
    }
  }

  /** Iterating `base` alone yields its names, then a trailing empty element
      if it ends in a separator. */
  lemma {:induction false} IteratedAlone(base: seq<string>)
    ensures Iterated(base) == NonEmpty(base) + (if |base| > 0 && base[|base| - 1] == "" then [""] else [])
    decreases |base|
  {
    if |base| > 1 {
      IteratedAlone(base[1..]);
      assert base[1..][|base| - 2] == base[|base| - 1];
    }
  }

  /** A path below `base` is relative to it by exactly the elements that
      follow, whatever separators `base` is written with. */
  lemma RelativeBelowBase(base: seq<string>, rest: seq<string>)
    requires |rest| > 0 && rest[0] != ""
    ensures LexicallyRelative(Path(base + rest), Path(base)) == Path(Iterated(rest))
  {
    IteratedAppend(base, rest);
    IteratedAlone(base);
    var q := NonEmpty(base);
    var p, b := Iterated(base + rest), Iterated(base);
    var tail := Iterated(rest);
    assert tail[0] == rest[0];
    PrefixBeforeName(q, tail, b[|q|..]);
    assert b == q + b[|q|..];
    var k := |q|;
    assert b[k..] == [] || b[k..] == [""];
    assert NameBalance(b[k..]) == 0;
    assert p[k..] == tail;
  }

  /** Where the shared names end and a name meets nothing or an empty
      element, the common prefix ends. */
  lemma {:induction false} PrefixBeforeName(q: seq<string>, tail: seq<string>, extra: seq<string>)
    requires |tail| > 0 && tail[0] != ""
    requires extra == [] || extra == [""]
    ensures CommonPrefix(q + tail, q + extra) == |q|
    decreases |q|
  {
    if |q| > 0 {
      assert (q + tail)[0] == q[0] == (q + extra)[0];
      assert (q + tail)[1..] == q[1..] + tail;
      assert (q + extra)[1..] == q[1..] + extra;
      PrefixBeforeName(q[1..], tail, extra);
    } else {
      assert q + tail == tail && q + extra == extra;
    }
  }

  /** A doubled separator is one separator: `r//x` relative to `r` is `x`. */
  lemma DoubledSeparatorRelative(path: Path, base: Path)
    requires path == Path(["r", "", "x"]) && base == Path(["r"])
    ensures LexicallyRelative(path, base) == Path(["x"])
  {
    assert path.elements == ["r", ""] + ["x"];
    RelativeBelowBase(["r", ""], ["x"]);
  }
}

/** The worker's two-way map between controller paths and scratch paths (osimflow/input_staging.py). */
module PathRemapping {
  import opened Wrappers
  import opened RelativePaths
  import Text

  /** One entry of the insertion-ordered `_mapping`. */
  datatype Mapped = Mapped(original: Path, scratch: Path)

  type Mapping = seq<Mapped>

  function Find(m: Mapping, p: Path): (r: Option<Path>)
    ensures r.Some? ==> Mapped(p, r.value) in m
    ensures r.None? ==> forall i :: 0 <= i < |m| ==> m[i].original != p
  {
    if m == [] then None else if m[0].original == p then Some(m[0].scratch) else Find(m[1..], p)
  }

  /** Below the first mapped root that has the path under it. */
  function UnderRoot(m: Mapping, p: Path): Path {
    if m == [] then p
    else if m[0].original < p then m[0].scratch + p[|m[0].original|..]
    else UnderRoot(m[1..], p)
  }

  /** `scratch_for` */
  function ScratchFor(m: Mapping, p: Path): Path {
    if Find(m, p).Some? then Find(m, p).value else UnderRoot(m, p)
  }

  /** `to_original` on a path */
  function ToOriginal(m: Mapping, v: Path): Path {
    if m == [] then v
    else if m[0].scratch <= v then m[0].original + v[|m[0].scratch|..]
    else ToOriginal(m[1..], v)
  }

  ghost predicate OneEntryEach(m: Mapping) {
    forall i, j :: 0 <= i < j < |m| ==> m[i].original != m[j].original
  }

  function Originals(m: Mapping): set<Path> {
    set i | 0 <= i < |m| :: m[i].original
  }

  lemma OriginalsSnoc(m: Mapping, e: Mapped)
    requires OneEntryEach(m) && Find(m, e.original).None?
    ensures OneEntryEach(m + [e]) && Originals(m + [e]) == Originals(m) + {e.original}
  {
    var n := m + [e];
    assert n[|m|] == e && forall i :: 0 <= i < |m| ==> n[i] == m[i];
  }

  ghost predicate Incomparable(m: Mapping) {
    forall i, j :: 0 <= i < |m| && 0 <= j < |m| && i != j ==> !(m[i].scratch <= m[j].scratch)
  }

  function BaseName(p: Path): string {
    if p == [] || p[|p| - 1] == "/" then "item" else p[|p| - 1]
  }

  class WorkerPathRemapper {
    const root: Path
    var mapping: Mapping
    var outputs: set<Path>
    var counter: nat
    ghost var numbers: seq<nat>

    /** Each scratch path lies below the directory its own number made. */
    ghost predicate Valid()
      reads this
    {
      && OneEntryEach(mapping)
      && Numbered(root, mapping, numbers, counter)
      && outputs <= Originals(mapping)
    }

    constructor (root: Path)
      ensures Valid() && this.root == root && mapping == [] && outputs == {} && counter == 0
    {
      this.root, mapping, outputs, counter, numbers := root, [], {}, 0, [];
    }

    /**
     `_materialize`: `isOutput` is the kind of reference; otherwise `content` is where the
     manifest put its root below `content`, None when materializing it raised.
     */
    method Materialize(original: Path, isOutput: bool, roleOutput: bool, content: Option<Path>) returns (r: Option<Path>)
      requires Valid()
      modifies this`mapping, this`outputs, this`counter, this`numbers
      ensures Valid()
      ensures Find(old(mapping), original).Some? ==>
                r == Find(old(mapping), original) && mapping == old(mapping) && outputs == old(outputs) && counter == old(counter)
      ensures Find(old(mapping), original).None? && r.None? ==>
                !isOutput && content.None? && mapping == old(mapping) && outputs == old(outputs) && counter == old(counter) + 1
      ensures Find(old(mapping), original).None? && r.Some? ==>
                && (isOutput || content.Some?)
                && mapping == old(mapping) + [Mapped(original, r.value)]
                && counter == old(counter) + 1
                && r.value == root + ["paths", Text.Decimal(counter)] +
                              (if !isOutput then ["content"] + content.value
                               else if original == [] || original[|original| - 1] == "/" then ["item"]
                               else [original[|original| - 1]])
                && outputs == old(outputs) + (if isOutput || roleOutput then {original} else {})
    {
      var known := Find(mapping, original);
      if known.Some? {
        return known;
      }
      counter := counter + 1;
      if !isOutput && content.None? {
        return None;
      }
      var below := if isOutput then [BaseName(original)] else ["content"] + content.value;
      var target := DirOf(root, counter) + below;
      assert InDir(root, counter, target);
      Record(original, target, isOutput || roleOutput);
      r := Some(target);
    }

    /** `_mapping[original] = target` */
    method Record(original: Path, target: Path, isOutput: bool)
      requires Valid() && Find(mapping, original).None? && InDir(root, counter, target)
      requires forall i :: 0 <= i < |numbers| ==> numbers[i] < counter
      modifies this`mapping, this`outputs, this`numbers
      ensures Valid()
      ensures mapping == old(mapping) + [Mapped(original, target)]
      ensures outputs == old(outputs) + (if isOutput then {original} else {})
    {
      NumberedSnoc(root, mapping, numbers, counter, Mapped(original, target));
      OriginalsSnoc(mapping, Mapped(original, target));
      mapping := mapping + [Mapped(original, target)];
      numbers := numbers + [counter];
      if isOutput {
        outputs := outputs + {original};
      }
    }

    /** `scratch_for` */
    method Scratch(p: Path) returns (r: Path)
      ensures r == ScratchFor(mapping, p)
    {
      var direct := Find(mapping, p);
      if direct.Some? {
        return direct.value;
      }
      for i := 0 to |mapping|
        invariant UnderRoot(mapping, p) == UnderRoot(mapping[i..], p)
      {
        if mapping[i].original < p {
          return mapping[i].scratch + p[|mapping[i].original|..];
        }
      }
      r := p;
    }

    /** `to_original` */
    method Original(v: Path) returns (r: Path)
      ensures r == ToOriginal(mapping, v)
    {
      for i := 0 to |mapping|
        invariant ToOriginal(mapping, v) == ToOriginal(mapping[i..], v)
      {
        if v == mapping[i].scratch {
          return mapping[i].original;
        }
        if mapping[i].scratch < v {
          return mapping[i].original + v[|mapping[i].scratch|..];
        }
      }
      r := v;
    }

    /** Scratch paths handed out by the counter are pairwise incomparable. */
    lemma ScratchIncomparable()
      requires Valid()
      ensures Incomparable(mapping)
    {
      forall i, j | 0 <= i < |mapping| && 0 <= j < |mapping| && i != j ensures !(mapping[i].scratch <= mapping[j].scratch) {
        assert numbers[i] != numbers[j];
        DirsDiffer(root, numbers[i], numbers[j], mapping[i].scratch, mapping[j].scratch);
      }
    }
  }

  function DirOf(root: Path, n: nat): Path {
    root + ["paths", Text.Decimal(n)]
  }

  predicate InDir(root: Path, n: nat, p: Path) {
    DirOf(root, n) < p
  }

  ghost predicate Numbered(root: Path, m: Mapping, numbers: seq<nat>, counter: nat) {
    && |numbers| == |m|
    && (forall i :: 0 <= i < |numbers| ==> numbers[i] <= counter)
    && (forall i, j :: 0 <= i < j < |numbers| ==> numbers[i] < numbers[j])
    && (forall i :: 0 <= i < |m| ==> InDir(root, numbers[i], m[i].scratch))
  }

  lemma NumberedSnoc(root: Path, m: Mapping, numbers: seq<nat>, counter: nat, e: Mapped)
    requires Numbered(root, m, numbers, counter) && InDir(root, counter, e.scratch)
    requires forall i :: 0 <= i < |numbers| ==> numbers[i] < counter
    ensures Numbered(root, m + [e], numbers + [counter], counter)
  {
  }

  lemma DirsDiffer(root: Path, m: nat, n: nat, p: Path, q: Path)
    requires m != n && InDir(root, m, p) && InDir(root, n, q)
    ensures !(p <= q)
  {
    assert DirOf(root, m)[|root| + 1] == Text.Decimal(m) && DirOf(root, n)[|root| + 1] == Text.Decimal(n);
    assert p[|root| + 1] == Text.Decimal(m) && q[|root| + 1] == Text.Decimal(n);
    if Text.Decimal(m) == Text.Decimal(n) {
      Text.DecimalInjective(m, n);
    }
  }

  // ---------------------------------------------------------------------
  // The round trips
  // ---------------------------------------------------------------------

  lemma PrefixesCompare(a: Path, b: Path, v: Path)
    ensures a <= v && b <= v ==> a <= b || b <= a
  {
    if a <= v && b <= v {
      if |a| <= |b| {
        assert a == v[..|a|] == b[..|a|];
      } else {
        assert b == v[..|b|] == a[..|b|];
      }
    }
  }

  lemma TailIncomparable(m: Mapping)
    requires m != [] && Incomparable(m)
    ensures Incomparable(m[1..])
  {
    var t := m[1..];
    forall i, j | 0 <= i < |t| && 0 <= j < |t| && i != j ensures !(t[i].scratch <= t[j].scratch) {
      assert t[i] == m[i + 1] && t[j] == m[j + 1];
    }
  }

  /** At most one scratch path has `v` under it, so the order of the search does not matter. */
  lemma {:induction false} SearchIsUnambiguous(m: Mapping, i: nat, v: Path)
    requires Incomparable(m) && i < |m| && m[i].scratch <= v
    ensures ToOriginal(m, v) == m[i].original + v[|m[i].scratch|..]
  {
    if i > 0 {
      assert !(m[0].scratch <= m[i].scratch) && !(m[i].scratch <= m[0].scratch);
      PrefixesCompare(m[0].scratch, m[i].scratch, v);
      TailIncomparable(m);
      SearchIsUnambiguous(m[1..], i - 1, v);
    }
  }

  /** The path is mapped, or lies under a mapped root. */
  ghost predicate Covered(m: Mapping, p: Path) {
    exists i :: 0 <= i < |m| && m[i].original <= p
  }

  /** Under some mapped root, the path goes below that root's scratch path. */
  lemma {:induction false} UnderSomeRoot(m: Mapping, p: Path) returns (i: nat)
    requires exists k :: 0 <= k < |m| && m[k].original < p
    ensures i < |m| && m[i].original < p && UnderRoot(m, p) == m[i].scratch + p[|m[i].original|..]
    ensures forall j :: 0 <= j < i ==> !(m[j].original < p)
  {
    if m[0].original < p {
      i := 0;
    } else {
      var k :| 0 <= k < |m| && m[k].original < p;
      assert m[1..][k - 1] == m[k];
      var j := UnderSomeRoot(m[1..], p);
      i := j + 1;
      assert forall l :: 1 <= l < i ==> m[l] == m[1..][l - 1];
    }
  }

  lemma MovedAndBack(m: Mapping, i: nat, p: Path)
    requires Incomparable(m) && i < |m| && m[i].original <= p
    ensures ToOriginal(m, m[i].scratch + p[|m[i].original|..]) == p
  {
    var rest := p[|m[i].original|..];
    var v := m[i].scratch + rest;
    SearchIsUnambiguous(m, i, v);
    assert v[|m[i].scratch|..] == rest;
  }

  /** The scratch path of a covered path lies below some mapped root's, by the same remainder. */
  lemma ScratchOfCovered(m: Mapping, p: Path) returns (i: nat)
    requires Covered(m, p)
    ensures i < |m| && m[i].original <= p && ScratchFor(m, p) == m[i].scratch + p[|m[i].original|..]
  {
    if Find(m, p).Some? {
      i :| 0 <= i < |m| && m[i] == Mapped(p, Find(m, p).value);
      assert p[|p|..] == [];
    } else {
      var k :| 0 <= k < |m| && m[k].original <= p;
      assert m[k].original < p;
      i := UnderSomeRoot(m, p);
    }
  }

  /** A mapped path has its own scratch path; below mapped roots the one mapped first decides, by the same remainder. */
  lemma {:induction false} ScratchIs(m: Mapping, i: nat, p: Path)
    requires OneEntryEach(m) && i < |m|
    ensures m[i].original == p ==> ScratchFor(m, p) == m[i].scratch
    ensures m[i].original < p && (forall j :: 0 <= j < |m| ==> m[j].original != p) && (forall j :: 0 <= j < i ==> !(m[j].original < p)) ==>
              ScratchFor(m, p) == m[i].scratch + p[|m[i].original|..]
  {
    if Find(m, p).Some? {
      var k :| 0 <= k < |m| && m[k] == Mapped(p, Find(m, p).value);
    } else if m[i].original < p && forall j :: 0 <= j < i ==> !(m[j].original < p) {
      var k := UnderSomeRoot(m, p);
      assert k == i;
    }
  }

  /** Every covered path comes back, nested roots or not, in any mapping order. */
  lemma {:induction false} OriginalRoundTrip(m: Mapping, p: Path)
    requires OneEntryEach(m) && Incomparable(m) && Covered(m, p)
    ensures ToOriginal(m, ScratchFor(m, p)) == p
  {
    var i := ScratchOfCovered(m, p);
    MovedAndBack(m, i, p);
  }

  lemma {:induction false} OutsideStays(m: Mapping, p: Path)
    requires forall i :: 0 <= i < |m| ==> !(m[i].original <= p)
    ensures ScratchFor(m, p) == p
  {
    if m != [] {
      OutsideStays(m[1..], p);
    }
  }

  /** No mapped original lies strictly below another. */
  ghost predicate Unnested(m: Mapping) {
    forall i, j :: 0 <= i < |m| && 0 <= j < |m| ==> !(m[i].original < m[j].original)
  }

  ghost predicate ScratchRoundTrips(m: Mapping) {
    forall i, v :: 0 <= i < |m| && m[i].scratch <= v ==> ScratchFor(m, ToOriginal(m, v)) == v
  }

  lemma UnnestedComesBack(m: Mapping, i: nat, v: Path)
    requires OneEntryEach(m) && Incomparable(m) && Unnested(m) && i < |m| && m[i].scratch <= v
    ensures ScratchFor(m, ToOriginal(m, v)) == v
  {
    SearchIsUnambiguous(m, i, v);
    var o, rest := m[i].original, v[|m[i].scratch|..];
    var p := o + rest;
    assert v == m[i].scratch + rest;
    forall k | 0 <= k < |m| && m[k].original <= p ensures k == i {
      var a := m[k].original;
      PrefixesCompare(a, o, p);
      assert !(a < o) && !(o < a);
    }
    assert o <= p;
    if Find(m, p).Some? {
      var k :| 0 <= k < |m| && m[k] == Mapped(p, Find(m, p).value);
      assert m[k].original <= p;
    } else {
      assert o < p;
      var k := UnderSomeRoot(m, p);
      assert m[k].original <= p;
    }
  }

  lemma NestedIsLost(m: Mapping, i: nat, j: nat)
    requires OneEntryEach(m) && Incomparable(m) && i < |m| && j < |m| && m[i].original < m[j].original
    ensures var v := m[i].scratch + m[j].original[|m[i].original|..];
            m[i].scratch <= v && ScratchFor(m, ToOriginal(m, v)) != v
  {
    var v := m[i].scratch + m[j].original[|m[i].original|..];
    SearchIsUnambiguous(m, i, v);
    var p := m[j].original;
    assert m[i].original + v[|m[i].scratch|..] == p;
    var s := Find(m, p).value;
    var k :| 0 <= k < |m| && m[k] == Mapped(p, s);
    assert k != i;
    assert !(m[i].scratch <= m[k].scratch);
  }

  /** The other direction holds exactly when no mapped original is nested in another. */
  lemma {:induction false} ScratchRoundTripsIffUnnested(m: Mapping)
    requires OneEntryEach(m) && Incomparable(m)
    ensures ScratchRoundTrips(m) <==> Unnested(m)
  {
    if Unnested(m) {
      forall i, v | 0 <= i < |m| && m[i].scratch <= v ensures ScratchFor(m, ToOriginal(m, v)) == v {
        UnnestedComesBack(m, i, v);
      }
    }
    forall i, j | 0 <= i < |m| && 0 <= j < |m| && m[i].original < m[j].original ensures !ScratchRoundTrips(m) {
      NestedIsLost(m, i, j);
    }
  }
}

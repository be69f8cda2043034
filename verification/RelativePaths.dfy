/** Relative POSIX paths as a manifest writes them, and `_safe_rel` (osimflow/input_staging.py). */
module RelativePaths {
  import opened Wrappers
  import Text

  type Path = seq<string>

  /** `s.split("/")` */
  function SplitOn(c: char, s: string): (r: seq<string>)
    ensures r != [] && forall p :: p in r ==> c !in p
  {
    if s == "" then [""]
    else
      var rest := SplitOn(c, s[1..]);
      if s[0] == c then [""] + rest else [[s[0]] + rest[0]] + rest[1..]
  }

  predicate KeepsPart(part: string) {
    part != "" && part != "."
  }

  function KeptParts(parts: seq<string>): (r: seq<string>)
    ensures forall p :: p in r <==> p in parts && KeepsPart(p)
  {
    assert parts != [] ==> parts == [parts[0]] + parts[1..];
    if parts == [] then []
    else if KeepsPart(parts[0]) then [parts[0]] + KeptParts(parts[1..])
    else KeptParts(parts[1..])
  }

  /** A name a directory can hold. */
  predicate CleanName(name: string) {
    name != "" && name != "." && name != ".." && '/' !in name
  }

  predicate CleanPath(p: Path) {
    p != [] && forall i :: 0 <= i < |p| ==> CleanName(p[i])
  }

  /** `_safe_rel`: None is an `InputStagingError`. An accepted path never leaves its root. */
  function SafeRel(s: string): (r: Option<Path>)
    ensures r.Some? ==> CleanPath(r.value)
  {
    var parts := KeptParts(SplitOn('/', s));
    assert forall i :: 0 <= i < |parts| ==> parts[i] in parts;
    if s != "" && s[0] == '/' then None
    else if ".." in parts || parts == [] then None
    else Some(parts)
  }

  lemma {:induction false} KeptConcat(a: seq<string>, b: seq<string>)
    ensures KeptParts(a + b) == KeptParts(a) + KeptParts(b)
  {
    if a == [] {
      assert a + b == b;
    } else {
      KeptConcat(a[1..], b);
      assert (a + b)[1..] == a[1..] + b;
    }
  }

  /** `as_posix()` */
  function Posix(p: Path): string {
    Text.Join('/', p)
  }

  lemma {:induction false} SplitFirst(c: char, a: string, b: string)
    requires c !in a
    ensures SplitOn(c, a) == [a]
    ensures SplitOn(c, a + [c] + b) == [a] + SplitOn(c, b)
  {
    var s := a + [c] + b;
    if a == "" {
      assert s[1..] == b;
    } else {
      SplitFirst(c, a[1..], b);
      assert a == [a[0]] + a[1..];
      assert s[1..] == a[1..] + [c] + b;
    }
  }

  lemma {:induction false} SplitJoin(c: char, p: seq<string>)
    requires p != [] && forall i :: 0 <= i < |p| ==> c !in p[i]
    ensures SplitOn(c, Text.Join(c, p)) == p
  {
    if |p| == 1 {
      SplitFirst(c, p[0], "");
    } else {
      SplitFirst(c, p[0], Text.Join(c, p[1..]));
      SplitJoin(c, p[1..]);
    }
  }

  lemma {:induction false} CleanPartsKept(p: seq<string>)
    requires forall i :: 0 <= i < |p| ==> CleanName(p[i])
    ensures KeptParts(p) == p
  {
    if p != [] {
      CleanPartsKept(p[1..]);
    }
  }

  /** A staged path is read back as the same components. */
  lemma {:induction false} SafeRelRoundTrip(p: Path)
    requires CleanPath(p)
    ensures SafeRel(Posix(p)) == Some(p)
  {
    SplitJoin('/', p);
    CleanPartsKept(p);
    assert CleanName(p[0]);
    assert Posix(p)[0] == p[0][0];
    assert forall i :: 0 <= i < |p| ==> CleanName(p[i]) && p[i] != "..";
  }

  /** What is kept of components: all but the empty ones and `.`, in order. */
  lemma {:induction false} KeptPartsAre(a: seq<string>, b: seq<string>, x: string)
    ensures KeptParts(a + [x] + b) == KeptParts(a) + (if x == "" || x == "." then [] else [x]) + KeptParts(b)
  {
    KeptConcat(a + [x], b);
    KeptConcat(a, [x]);
    assert [x][1..] == [] && KeptParts([]) == [];
  }

  lemma NothingKeptIff(parts: seq<string>)
    ensures KeptParts(parts) == [] <==> forall i :: 0 <= i < |parts| ==> parts[i] == "" || parts[i] == "."
  {
    if i :| 0 <= i < |parts| && parts[i] != "" && parts[i] != "." {
      assert parts[i] in KeptParts(parts);
    }
    if KeptParts(parts) != [] {
      assert KeptParts(parts)[0] in KeptParts(parts);
    }
  }

  /** Of any string of components: refused exactly if it is absolute, climbs with `..`, or has no component left. */
  lemma {:induction false} SafeRelIs(parts: seq<string>)
    requires parts != [] && forall i :: 0 <= i < |parts| ==> '/' !in parts[i]
    ensures SafeRel(Text.Join('/', parts)) ==
            if |parts| > 1 && parts[0] == "" then None
            else if ".." in parts then None
            else if forall i :: 0 <= i < |parts| ==> parts[i] == "" || parts[i] == "." then None
            else Some(KeptParts(parts))
  {
    SplitJoin('/', parts);
    JoinStart(parts);
    NothingKeptIff(parts);
  }

  lemma JoinStart(parts: seq<string>)
    requires parts != [] && '/' !in parts[0]
    ensures var s := Text.Join('/', parts); (s != "" && s[0] == '/') <==> |parts| > 1 && parts[0] == ""
  {
  }

  /** A single name is accepted exactly when a directory can hold it. */
  lemma {:induction false} SafeNameIff(name: string)
    requires '/' !in name
    ensures SafeRel(name).Some? <==> CleanName(name)
  {
    SplitFirst('/', name, "");
    assert KeptParts([]) == [];
    assert KeptParts([name]) == if KeepsPart(name) then [name] else [];
  }
}

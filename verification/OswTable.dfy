/**
 The name-resolution table of an OpenStudio workflow (osimflow/apply_params.py):
 plain names go to the first step, `<measure>.<arg>` to the only step of that
 measure, `<alias>.<arg>` to the step that alone claims the alias.
 */
module OswTable {
  import opened Wrappers
  import Text

  datatype Value = Null | Bool(b: bool) | Num(r: real) | Str(s: string)

  datatype XmlArg = XmlArg(name: string, typ: string, default: Value)

  /** What `measure.xml` declares: arguments without repetition, `<name>` and `<class_name>`. */
  datatype Xml = Xml(args: seq<XmlArg>, aliases: seq<string>)

  /** `argNames` is the order of the JSON object `arguments`; an absent name or directory is "". */
  datatype Step =
    | NotAnObject
    | Step(dirName: string, name: string, argNames: seq<string>, args: map<string, Value>, xml: Option<Xml>)

  datatype Kind = MeasureArgument | Attribute

  datatype Mapped = Mapped(
    kind: Kind, name: string, default: Value, stepIndex: Option<nat>,
    measureName: Option<string>, stepName: Option<string>, ambiguousSteps: seq<string>)

  type Table = map<string, Mapped>

  const SKIP := "__SKIP__"

  predicate DistinctNames(names: seq<string>) {
    forall i, j :: 0 <= i < j < |names| ==> names[i] != names[j]
  }

  predicate WfStep(s: Step) {
    s.Step? ==>
      && DistinctNames(s.argNames)
      && (set a | a in s.argNames) == s.args.Keys
      && (s.xml.Some? ==> s.dirName != "" && forall i, j :: 0 <= i < j < |s.xml.value.args| ==> s.xml.value.args[i].name != s.xml.value.args[j].name)
  }

  predicate WfSteps(steps: seq<Step>) {
    forall i :: 0 <= i < |steps| ==> WfStep(steps[i])
  }

  function MeasureName(s: Step): string {
    if s.NotAnObject? then "" else if s.dirName != "" then s.dirName else s.name
  }

  function NonEmpty(s: string): Option<string> {
    if s == "" then None else Some(s)
  }

  // ---------------------------------------------------------------------
  // Aliases
  // ---------------------------------------------------------------------

  /** `list(dict.fromkeys(...))` */
  function Dedup(names: seq<string>): seq<string> {
    if names == [] then []
    else
      var init, last := Dedup(names[..|names| - 1]), names[|names| - 1];
      if last in init then init else init + [last]
  }

  lemma {:induction false} DedupKeepsMembers(names: seq<string>, n: string)
    ensures n in Dedup(names) <==> n in names
  {
    if names != [] {
      var init, last := names[..|names| - 1], names[|names| - 1];
      DedupKeepsMembers(init, n);
      assert n in names <==> n in init || n == last;
    }
  }

  /** Extra identifiers a step would like: its name and the names in its `measure.xml`. */
  function RawAliases(s: Step): seq<string> {
    if s.NotAnObject? || s.dirName == "" then []
    else Dedup((if s.name != "" then [s.name] else []) + (if s.xml.Some? then s.xml.value.aliases else []))
  }

  /** Only a step with a directory has aliases: its name, and the names in its `measure.xml`. */
  lemma {:induction false} RawAliasesAre(s: Step, n: string)
    ensures n in RawAliases(s) <==>
            s.Step? && s.dirName != "" && ((n == s.name && n != "") || (s.xml.Some? && n in s.xml.value.aliases))
  {
    if s.Step? && s.dirName != "" {
      DedupKeepsMembers((if s.name != "" then [s.name] else []) + (if s.xml.Some? then s.xml.value.aliases else []), n);
    }
  }

  function Canonical(steps: seq<Step>): set<string> {
    set i | 0 <= i < |steps| && steps[i].Step? :: MeasureName(steps[i])
  }

  /** The alias is nobody's measure name and no other step's alias. */
  predicate SoleAlias(steps: seq<Step>, i: nat, n: string)
    requires i < |steps|
  {
    && n in RawAliases(steps[i])
    && n !in Canonical(steps)
    && forall j :: 0 <= j < |steps| && j != i ==> n !in RawAliases(steps[j])
  }

  function Keep(steps: seq<Step>, i: nat, names: seq<string>): seq<string>
    requires i < |steps|
  {
    if names == [] then []
    else
      var last := names[|names| - 1];
      Keep(steps, i, names[..|names| - 1]) + (if SoleAlias(steps, i, last) then [last] else [])
  }

  function Aliases(steps: seq<Step>, i: nat): seq<string>
    requires i < |steps|
  {
    Keep(steps, i, RawAliases(steps[i]))
  }

  lemma {:induction false} KeptAre(steps: seq<Step>, i: nat, names: seq<string>, n: string)
    requires i < |steps|
    ensures n in Keep(steps, i, names) <==> n in names && SoleAlias(steps, i, n)
  {
    if names != [] {
      var init, last := names[..|names| - 1], names[|names| - 1];
      KeptAre(steps, i, init, n);
      assert n in names <==> n in init || n == last;
    }
  }

  /** A step's aliases are exactly the names it alone claims. */
  lemma AliasesAre(steps: seq<Step>, i: nat, n: string)
    requires i < |steps|
    ensures n in Aliases(steps, i) <==> SoleAlias(steps, i, n)
  {
    KeptAre(steps, i, RawAliases(steps[i]), n);
  }

  type Claims = map<string, set<nat>>

  /** `claims[n]` is the set of the first `n` steps' indices that would like the name. */
  ghost predicate ClaimsOk(steps: seq<Step>, n: nat, claims: Claims)
    requires n <= |steps|
  {
    forall name, k: nat :: Claimed(claims, name, k) <==> k < n && name in RawAliases(steps[k])
  }

  predicate Claimed(claims: Claims, name: string, k: nat) {
    name in claims && k in claims[name]
  }

  method AddClaims(claims: Claims, names: seq<string>, i: nat) returns (r: Claims)
    ensures forall name, k: nat :: Claimed(r, name, k) <==> Claimed(claims, name, k) || (k == i && name in names)
  {
    r := claims;
    for j := 0 to |names|
      invariant forall name, k: nat :: Claimed(r, name, k) <==> Claimed(claims, name, k) || (k == i && name in names[..j])
    {
      assert names[..j + 1] == names[..j] + [names[j]];
      ClaimedWith(r, names[j], i);
      r := WithClaim(r, names[j], i);
    }
    assert names[..|names|] == names;
  }

  /** `claims.setdefault(name, set()).add(i)` */
  function WithClaim(claims: Claims, name: string, i: nat): Claims {
    claims[name := (if name in claims then claims[name] else {}) + {i}]
  }

  lemma ClaimedWith(claims: Claims, name: string, i: nat)
    ensures forall n, k: nat :: Claimed(WithClaim(claims, name, i), n, k) <==> Claimed(claims, n, k) || (k == i && n == name)
  {
  }

  method CollectClaims(steps: seq<Step>) returns (canonical: set<string>, claims: Claims)
    ensures canonical == Canonical(steps) && ClaimsOk(steps, |steps|, claims)
  {
    canonical, claims := {}, map[];
    for i := 0 to |steps|
      invariant canonical == set k | 0 <= k < i && steps[k].Step? :: MeasureName(steps[k])
      invariant ClaimsOk(steps, i, claims)
    {
      if steps[i].Step? {
        canonical := canonical + {MeasureName(steps[i])};
      }
      claims := AddClaims(claims, RawAliases(steps[i]), i);
    }
  }

  lemma SingleOwner(owners: set<nat>, i: nat)
    requires i in owners
    ensures |owners| == 1 <==> owners == {i}
  {
    assert |owners - {i}| == |owners| - 1;
  }

  lemma {:induction false} SoleIffSingleClaim(steps: seq<Step>, i: nat, claims: Claims, n: string)
    requires i < |steps| && ClaimsOk(steps, |steps|, claims) && n in RawAliases(steps[i])
    ensures n in claims && (SoleAlias(steps, i, n) <==> n !in Canonical(steps) && |claims[n]| == 1)
  {
    assert Claimed(claims, n, i);
    SingleOwner(claims[n], i);
    if claims[n] == {i} {
      forall j: nat | j < |steps| && j != i ensures n !in RawAliases(steps[j]) {
        assert !Claimed(claims, n, j);
      }
    } else {
      var k :| k in claims[n] && k != i;
      assert Claimed(claims, n, k);
    }
  }

  lemma KeepSnoc(steps: seq<Step>, i: nat, names: seq<string>, j: nat)
    requires i < |steps| && j < |names|
    ensures Keep(steps, i, names[..j + 1]) ==
            Keep(steps, i, names[..j]) + (if SoleAlias(steps, i, names[j]) then [names[j]] else [])
  {
    assert names[..j + 1][..j] == names[..j];
  }

  method SoleClaims(steps: seq<Step>, i: nat, canonical: set<string>, claims: Claims) returns (r: seq<string>)
    requires i < |steps| && canonical == Canonical(steps) && ClaimsOk(steps, |steps|, claims)
    ensures r == Aliases(steps, i)
  {
    var names := RawAliases(steps[i]);
    r := [];
    for j := 0 to |names|
      invariant r == Keep(steps, i, names[..j])
    {
      KeepSnoc(steps, i, names, j);
      SoleIffSingleClaim(steps, i, claims, names[j]);
      r := r + if names[j] !in canonical && |claims[names[j]]| == 1 then [names[j]] else [];
    }
    assert names[..|names|] == names;
  }

  /** `r` holds exactly the first `n` steps with a directory, each with its aliases. */
  ghost predicate AliasesOfFirst(steps: seq<Step>, n: nat, r: map<nat, seq<string>>)
    requires n <= |steps|
  {
    && (forall k :: k in r <==> 0 <= k < n && steps[k].Step? && steps[k].dirName != "")
    && (forall k :: k in r ==> r[k] == Aliases(steps, k))
  }

  /** `_collect_step_aliases`: who claims what, then only the sole claims. */
  method CollectStepAliases(steps: seq<Step>) returns (r: map<nat, seq<string>>)
    ensures AliasesOfFirst(steps, |steps|, r)
  {
    var canonical, claims := CollectClaims(steps);
    r := map[];
    for i := 0 to |steps|
      invariant AliasesOfFirst(steps, i, r)
    {
      if steps[i].Step? && steps[i].dirName != "" {
        var sole := SoleClaims(steps, i, canonical, claims);
        r := r[i := sole];
      }
    }
  }

  // ---------------------------------------------------------------------
  // Registration
  // ---------------------------------------------------------------------

  datatype Reg = Reg(arg: string, default: Value, idx: nat, measure: string, aliases: seq<string>, stepName: string)

  function Param(r: Reg): Mapped {
    Mapped(MeasureArgument, r.arg, r.default, Some(r.idx), NonEmpty(r.measure), NonEmpty(r.stepName), [])
  }

  function StepLabel(m: Mapped): string {
    if m.stepName.Some? then m.stepName.value
    else "step[" + (if m.stepIndex.Some? then Text.Decimal(m.stepIndex.value) else "None") + "]"
  }

  function Dotted(qualifier: string, arg: string): string {
    qualifier + "." + arg
  }

  function PutFirst(t: Table, key: string, m: Mapped): Table {
    if key in t then t else t[key := m]
  }

  /** A later step of the same measure marks the key ambiguous. */
  function PutDotted(t: Table, key: string, m: Mapped): Table {
    if key !in t then t[key := m]
    else if t[key].stepIndex != m.stepIndex && t[key].measureName == m.measureName then
      var labels := if t[key].ambiguousSteps != [] then t[key].ambiguousSteps else [StepLabel(t[key])];
      t[key := t[key].(ambiguousSteps := labels + [StepLabel(m)])]
    else t
  }

  function PutAliases(t: Table, r: Reg, aliases: seq<string>): Table {
    if aliases == [] then t
    else
      var before := PutAliases(t, r, aliases[..|aliases| - 1]);
      var alias := aliases[|aliases| - 1];
      if alias != "" && alias != r.measure then PutFirst(before, Dotted(alias, r.arg), Param(r)) else before
  }

  function Registered(t: Table, r: Reg): Table {
    var withPlain := PutFirst(t, r.arg, Param(r));
    var withDotted := if r.measure != "" then PutDotted(withPlain, Dotted(r.measure, r.arg), Param(r)) else withPlain;
    PutAliases(withDotted, r, r.aliases)
  }

  // ---------------------------------------------------------------------
  // Declarations of a step, in the order they are registered
  // ---------------------------------------------------------------------

  datatype Decl = Decl(name: string, default: Value)

  function Listed(s: Step, a: string): Value
    requires s.Step?
  {
    if a in s.args then s.args[a] else Null
  }

  function ListedDecls(s: Step, n: nat): seq<Decl>
    requires s.Step? && n <= |s.argNames|
  {
    seq(n, i requires 0 <= i < n => Decl(s.argNames[i], Listed(s, s.argNames[i])))
  }

  function XmlDecls(s: Step, xs: seq<XmlArg>): seq<Decl>
    requires s.Step?
  {
    if xs == [] then []
    else XmlDecls(s, xs[..|xs| - 1]) +
         (if xs[|xs| - 1].name in s.args then [] else [Decl(xs[|xs| - 1].name, xs[|xs| - 1].default)])
  }

  function SkipDecl(s: Step): seq<Decl>
    requires s.Step?
  {
    if SKIP in s.args then [] else [Decl(SKIP, Bool(false))]
  }

  function Decls(s: Step): seq<Decl> {
    if s.NotAnObject? then []
    else ListedDecls(s, |s.argNames|) + (if s.xml.Some? then XmlDecls(s, s.xml.value.args) else []) + SkipDecl(s)
  }

  function RegOf(steps: seq<Step>, i: nat, d: Decl): Reg
    requires i < |steps|
  {
    Reg(d.name, d.default, i, MeasureName(steps[i]), Aliases(steps, i), if steps[i].Step? then steps[i].name else "")
  }

  /** The table after some declarations of one step. */
  function TableWith(t: Table, steps: seq<Step>, i: nat, ds: seq<Decl>): Table
    requires i < |steps|
  {
    if ds == [] then t
    else Registered(TableWith(t, steps, i, ds[..|ds| - 1]), RegOf(steps, i, ds[|ds| - 1]))
  }

  /** The table after one more step. */
  function NextTable(steps: seq<Step>, i: nat, t: Table): Table
    requires i < |steps|
  {
    TableWith(t, steps, i, Decls(steps[i]))
  }

  /** `f` applied for 0, 1, ..., n - 1 to an empty table. */
  function Iterated(f: (nat, Table) -> Table, n: nat): Table {
    if n == 0 then map[] else f(n - 1, Iterated(f, n - 1))
  }

  /** What holds at the start and is kept by every application holds at the end. */
  lemma {:induction false} IterationInduction(f: (nat, Table) -> Table, n: nat, p: (nat, Table) -> bool)
    requires p(0, map[])
    requires forall i: nat, t :: i < n && p(i, t) ==> p(i + 1, f(i, t))
    ensures p(n, Iterated(f, n))
  {
    if n > 0 {
      IterationInduction(f, n - 1, p);
    }
  }

  function StepOf(steps: seq<Step>): (nat, Table) -> Table {
    (i: nat, t: Table) => if i < |steps| then NextTable(steps, i, t) else t
  }

  /** The table after the first `n` steps. */
  function TableAfter(steps: seq<Step>, n: nat): Table {
    Iterated(StepOf(steps), n)
  }

  function TableOf(steps: seq<Step>): Table {
    TableAfter(steps, |steps|)
  }

  /** What holds of the empty table and is kept by every step holds of the table. */
  lemma TableInduction(steps: seq<Step>, p: (nat, Table) -> bool)
    requires p(0, map[])
    requires forall i: nat, t :: i < |steps| && p(i, t) ==> p(i + 1, NextTable(steps, i, t))
    ensures p(|steps|, TableOf(steps))
  {
    IterationInduction(StepOf(steps), |steps|, p);
  }

  /** The table under construction. */
  class MappingTable {
    var entries: Table

    constructor ()
      ensures entries == map[]
    {
      entries := map[];
    }

    /** `_register_osw_argument`. */
    method Register(r: Reg)
      modifies this
      ensures entries == Registered(old(entries), r)
    {
      var param := Param(r);
      if r.arg !in entries {
        entries := entries[r.arg := param];
      }
      if r.measure != "" {
        var key := Dotted(r.measure, r.arg);
        if key !in entries {
          entries := entries[key := param];
        } else {
          var existing := entries[key];
          if existing.stepIndex != Some(r.idx) && existing.measureName == param.measureName {
            var labels := if existing.ambiguousSteps != [] then existing.ambiguousSteps else [StepLabel(existing)];
            entries := entries[key := existing.(ambiguousSteps := labels + [StepLabel(param)])];
          }
        }
      }
      ghost var base := entries;
      for i := 0 to |r.aliases|
        invariant entries == PutAliases(base, r, r.aliases[..i])
      {
        assert r.aliases[..i + 1][..i] == r.aliases[..i];
        var alias := r.aliases[i];
        if alias != "" && alias != r.measure && Dotted(alias, r.arg) !in entries {
          entries := entries[Dotted(alias, r.arg) := param];
        }
      }
      assert r.aliases[..|r.aliases|] == r.aliases;
    }
  }

  /** `parse_osw_arguments`. */
  method ParseOswArguments(steps: seq<Step>) returns (t: Table)
    requires WfSteps(steps)
    ensures t == TableOf(steps)
  {
    var table := new MappingTable();
    var stepAliases := CollectStepAliases(steps);
    for idx := 0 to |steps|
      modifies table
      invariant table.entries == TableAfter(steps, idx)
    {
      VisitStep(table, steps, idx, stepAliases);
    }
    t := table.entries;
  }

  function AliasesOr(stepAliases: map<nat, seq<string>>, steps: seq<Step>, idx: nat): (r: seq<string>)
    requires idx < |steps| && AliasesOfFirst(steps, |steps|, stepAliases)
    ensures r == Aliases(steps, idx)
  {
    assert idx !in stepAliases ==> RawAliases(steps[idx]) == [];
    if idx in stepAliases then stepAliases[idx] else []
  }

  method VisitStep(table: MappingTable, steps: seq<Step>, idx: nat, stepAliases: map<nat, seq<string>>)
    requires WfSteps(steps) && idx < |steps| && AliasesOfFirst(steps, |steps|, stepAliases)
    requires table.entries == TableAfter(steps, idx)
    modifies table
    ensures table.entries == TableAfter(steps, idx + 1)
  {
    TableStep(steps, idx);
    if steps[idx].Step? {
      var aliases := AliasesOr(stepAliases, steps, idx);
      RegisterStep(table, steps, idx, aliases);
    }
  }

  lemma TableStep(steps: seq<Step>, n: nat)
    requires n < |steps|
    ensures steps[n].NotAnObject? ==> TableAfter(steps, n + 1) == TableAfter(steps, n)
    ensures TableAfter(steps, n + 1) == TableWith(TableAfter(steps, n), steps, n, Decls(steps[n]))
  {
    NoDecls(TableAfter(steps, n), steps, n);
  }

  /** One declaration of the step. */
  method RegisterDecl(table: MappingTable, steps: seq<Step>, idx: nat, aliases: seq<string>, name: string, default: Value, ghost t0: Table, ghost done: seq<Decl>)
    requires idx < |steps| && steps[idx].Step? && aliases == Aliases(steps, idx)
    requires table.entries == TableWith(t0, steps, idx, done)
    modifies table
    ensures table.entries == TableWith(t0, steps, idx, done + [Decl(name, default)])
  {
    table.Register(Reg(name, default, idx, MeasureName(steps[idx]), aliases, steps[idx].name));
    RegsSnoc(t0, steps, idx, done, Decl(name, default));
  }

  /** The three passes over one step: listed arguments, `measure.xml` arguments, `__SKIP__`. */
  method RegisterStep(table: MappingTable, steps: seq<Step>, idx: nat, aliases: seq<string>)
    requires WfSteps(steps) && idx < |steps| && steps[idx].Step? && aliases == Aliases(steps, idx)
    modifies table
    ensures table.entries == TableWith(old(table.entries), steps, idx, Decls(steps[idx]))
  {
    var s := steps[idx];
    ghost var t0 := table.entries;
    RegisterListed(table, steps, idx, aliases);
    ghost var listed := ListedDecls(s, |s.argNames|);
    ghost var fromXml := if s.xml.Some? then XmlDecls(s, s.xml.value.args) else [];
    if s.xml.Some? {
      RegisterXml(table, steps, idx, aliases, t0, listed);
    }
    assert listed + fromXml == if s.xml.Some? then listed + fromXml else listed;
    if SKIP !in s.args {
      RegisterDecl(table, steps, idx, aliases, SKIP, Bool(false), t0, listed + fromXml);
    } else {
      assert Decls(s) == listed + fromXml;
    }
  }

  method RegisterListed(table: MappingTable, steps: seq<Step>, idx: nat, aliases: seq<string>)
    requires WfSteps(steps) && idx < |steps| && steps[idx].Step? && aliases == Aliases(steps, idx)
    modifies table
    ensures table.entries == TableWith(old(table.entries), steps, idx, ListedDecls(steps[idx], |steps[idx].argNames|))
  {
    var s := steps[idx];
    ghost var t0 := table.entries;
    NoDecls(t0, steps, idx);
    assert ListedDecls(s, 0) == [];
    for i := 0 to |s.argNames|
      modifies table
      invariant table.entries == TableWith(t0, steps, idx, ListedDecls(s, i))
    {
      ListedSnoc(s, i);
      var a := s.argNames[i];
      RegisterDecl(table, steps, idx, aliases, a, s.args[a], t0, ListedDecls(s, i));
    }
  }

  /** The declarations of a step once some of its `measure.xml` arguments were visited. */
  function WithXml(s: Step, listed: seq<Decl>, xs: seq<XmlArg>): seq<Decl>
    requires s.Step?
  {
    listed + XmlDecls(s, xs)
  }

  method RegisterXml(table: MappingTable, steps: seq<Step>, idx: nat, aliases: seq<string>, ghost t0: Table, ghost listed: seq<Decl>)
    requires WfSteps(steps) && idx < |steps| && steps[idx].Step? && steps[idx].xml.Some? && aliases == Aliases(steps, idx)
    requires table.entries == TableWith(t0, steps, idx, listed)
    modifies table
    ensures table.entries == TableWith(t0, steps, idx, WithXml(steps[idx], listed, steps[idx].xml.value.args))
  {
    var s := steps[idx];
    var xs := s.xml.value.args;
    assert WithXml(s, listed, xs[..0]) == listed;
    for i := 0 to |xs|
      modifies table
      invariant table.entries == TableWith(t0, steps, idx, WithXml(s, listed, xs[..i]))
    {
      XmlSnoc(s, xs, i, listed);
      if xs[i].name !in s.args {
        RegisterDecl(table, steps, idx, aliases, xs[i].name, xs[i].default, t0, WithXml(s, listed, xs[..i]));
      }
    }
    assert xs[..|xs|] == xs;
  }

  lemma NoDecls(t: Table, steps: seq<Step>, i: nat)
    requires i < |steps|
    ensures TableWith(t, steps, i, []) == t
  {
  }

  lemma ListedSnoc(s: Step, i: nat)
    requires s.Step? && WfStep(s) && i < |s.argNames|
    ensures s.argNames[i] in s.args
    ensures ListedDecls(s, i + 1) == ListedDecls(s, i) + [Decl(s.argNames[i], s.args[s.argNames[i]])]
  {
    assert s.argNames[i] in (set n | n in s.argNames);
  }

  lemma XmlSnoc(s: Step, xs: seq<XmlArg>, i: nat, listed: seq<Decl>)
    requires s.Step? && i < |xs|
    ensures xs[i].name in s.args ==> WithXml(s, listed, xs[..i + 1]) == WithXml(s, listed, xs[..i])
    ensures xs[i].name !in s.args ==>
              WithXml(s, listed, xs[..i + 1]) == WithXml(s, listed, xs[..i]) + [Decl(xs[i].name, xs[i].default)]
  {
    assert xs[..i + 1][..i] == xs[..i];
  }

  lemma RegsSnoc(t: Table, steps: seq<Step>, i: nat, ds: seq<Decl>, d: Decl)
    requires i < |steps|
    ensures TableWith(t, steps, i, ds + [d]) == Registered(TableWith(t, steps, i, ds), RegOf(steps, i, d))
  {
    assert (ds + [d])[..|ds|] == ds;
  }
}

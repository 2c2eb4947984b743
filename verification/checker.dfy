/**
 * The per-package dependency checker (internal/policy/checker.go).
 *
 * A package is checked against the constraints of the policy that apply to
 * it. Each constraint is an allow-list or a forbid-list of dependency
 * patterns; every finding is a message "<pkg> depends on <dep>" routed to the
 * warning or the error bucket by the constraint's severity.
 *
 * The pattern type is a type parameter `P` and pattern matching is the
 * parameter `matches`: the glob matcher is not part of this model.
 */
module PolicyChecker {

  /** Kind of a canonical constraint; `Unknown` stands for any other value of the kind type. */
  datatype Kind = Allow | Forbid | Unknown(name: string)

  /** Severity of a constraint (`onBreak`). */
  datatype Level = Warn | Error

  /** A canonical constraint as the checker reads it: its kind, dependency patterns and severity. */
  datatype Constraint<P> = Constraint(kind: Kind, depPatterns: seq<P>, onBreak: Level)

  /** A resolved package: its name, whether it is a standard-library package, and its direct dependencies. */
  datatype Pkg = Pkg(name: string, internal: bool, deps: seq<Pkg>)

  /** Outcome of resolving the dependency tree of a package. */
  datatype Resolution = Resolved(root: Pkg) | Unresolved(cause: string)

  /** Diagnostics published for one package; `CheckResult(warns, errs)` is also `buildCheckResult`. */
  datatype CheckResult = CheckResult(warns: seq<string>, errs: seq<string>)

  function DependsMessage(pkg: string, dep: string): string
  {
    pkg + " depends on " + dep
  }

  function ResolveErrorMessage(pkg: string, cause: string): string
  {
    "unable to get dependencies of " + pkg + ": " + cause
  }

  function UnknownKindMessage(kind: string): string
  {
    "unable to check constraints of kind `" + kind + "`"
  }

  /** Diagnostics of two results, one after the other. */
  function Merge(a: CheckResult, b: CheckResult): CheckResult
  {
    CheckResult(a.warns + b.warns, a.errs + b.errs)
  }

  /** `appendByLevel`: adds `msg` to the warnings for level Warn, to the errors otherwise. */
  function AppendByLevel(w: seq<string>, e: seq<string>, level: Level, msg: string): (r: (seq<string>, seq<string>))
    ensures level == Warn ==> r.0 == w + [msg] && r.1 == e
    ensures level != Warn ==> r.0 == w && r.1 == e + [msg]
    ensures |r.0| + |r.1| == |w| + |e| + 1
  {
    if level == Warn then (w + [msg], e) else (w, e + [msg])
  }

  /** Messages routed to one bucket by severity. */
  function Bucketed(level: Level, msgs: seq<string>): CheckResult
  {
    if level == Warn then CheckResult(msgs, []) else CheckResult([], msgs)
  }

  /** Some pattern of `pats` matches `name`. */
  predicate AnyMatch<P>(pats: seq<P>, name: string, matches: (P, string) -> bool)
  {
    exists k :: 0 <= k < |pats| && matches(pats[k], name)
  }

  /** Whether a non-stdlib dependency breaks a constraint of a known kind. */
  predicate Breaks<P>(kind: Kind, pats: seq<P>, name: string, matches: (P, string) -> bool)
    requires !kind.Unknown?
  {
    if kind == Allow then !AnyMatch(pats, name, matches) else AnyMatch(pats, name, matches)
  }

  /** The diagnostic one dependency yields under a constraint: at most one message. */
  function DepFinding<P>(kind: Kind, pats: seq<P>, pkg: string, d: Pkg, matches: (P, string) -> bool): seq<string>
    requires !kind.Unknown?
  {
    if !d.internal && Breaks(kind, pats, d.name, matches) then [DependsMessage(pkg, d.name)] else []
  }

  /** The diagnostics of one allow or forbid constraint over `deps`, in dependency order. */
  function Findings<P>(kind: Kind, pats: seq<P>, pkg: string, deps: seq<Pkg>, matches: (P, string) -> bool): seq<string>
    requires !kind.Unknown?
  {
    if deps == [] then []
    else Findings(kind, pats, pkg, deps[..|deps| - 1], matches) + DepFinding(kind, pats, pkg, deps[|deps| - 1], matches)
  }

  /** What one constraint adds to the result. */
  function Contribution<P>(pkg: string, c: Constraint<P>, deps: seq<Pkg>, matches: (P, string) -> bool): CheckResult
  {
    match c.kind
    case Unknown(k) => CheckResult([], [UnknownKindMessage(k)])
    case _ => Bucketed(c.onBreak, Findings(c.kind, c.depPatterns, pkg, deps, matches))
  }

  /** The result of evaluating the constraints `cs`, in order, over `deps`. */
  function Evaluate<P>(pkg: string, cs: seq<Constraint<P>>, deps: seq<Pkg>, matches: (P, string) -> bool): CheckResult
  {
    if cs == [] then CheckResult([], [])
    else Merge(Evaluate(pkg, cs[..|cs| - 1], deps, matches), Contribution(pkg, cs[|cs| - 1], deps, matches))
  }

  /** The non-stdlib dependencies, in order. */
  function NonStdlib(deps: seq<Pkg>): (r: seq<Pkg>)
    ensures |r| <= |deps|
    ensures forall i :: 0 <= i < |r| ==> !r[i].internal
  {
    if deps == [] then []
    else NonStdlib(deps[..|deps| - 1]) + (if deps[|deps| - 1].internal then [] else [deps[|deps| - 1]])
  }

  /** `checkAllowConstraint`: flags every non-stdlib dependency that no pattern matches. */
  method CheckAllowConstraint<P>(constraint: Constraint<P>, pkg: string, pkgDeps: seq<Pkg>, matches: (P, string) -> bool)
    returns (warns: seq<string>, errs: seq<string>)
    ensures CheckResult(warns, errs) == Bucketed(constraint.onBreak, Findings(Allow, constraint.depPatterns, pkg, pkgDeps, matches))
  {
    warns, errs := [], [];
    var i := 0;
    while i < |pkgDeps|
      invariant 0 <= i <= |pkgDeps|
      invariant CheckResult(warns, errs) == Bucketed(constraint.onBreak, Findings(Allow, constraint.depPatterns, pkg, pkgDeps[..i], matches))
    {
      var d := pkgDeps[i];
      assert pkgDeps[..i + 1][..i] == pkgDeps[..i];
      if !d.internal {
        var ok := false;
        var j := 0;
        while j < |constraint.depPatterns|
          invariant 0 <= j <= |constraint.depPatterns|
          invariant !ok
          invariant forall k :: 0 <= k < j ==> !matches(constraint.depPatterns[k], d.name)
        {
          if matches(constraint.depPatterns[j], d.name) {
            ok := true;
            break;
          }
          j := j + 1;
        }
        assert ok == AnyMatch(constraint.depPatterns, d.name, matches);
        if !ok {
          var bucketed := AppendByLevel(warns, errs, constraint.onBreak, DependsMessage(pkg, d.name));
          warns, errs := bucketed.0, bucketed.1;
        }
      }
      i := i + 1;
    }
    assert pkgDeps[..i] == pkgDeps;
  }

  /** `checkForbidConstraint`: flags every non-stdlib dependency that some pattern matches. */
  method CheckForbidConstraint<P>(constraint: Constraint<P>, pkg: string, pkgDeps: seq<Pkg>, matches: (P, string) -> bool)
    returns (warns: seq<string>, errs: seq<string>)
    ensures CheckResult(warns, errs) == Bucketed(constraint.onBreak, Findings(Forbid, constraint.depPatterns, pkg, pkgDeps, matches))
  {
    warns, errs := [], [];
    var i := 0;
    while i < |pkgDeps|
      invariant 0 <= i <= |pkgDeps|
      invariant CheckResult(warns, errs) == Bucketed(constraint.onBreak, Findings(Forbid, constraint.depPatterns, pkg, pkgDeps[..i], matches))
    {
      var d := pkgDeps[i];
      assert pkgDeps[..i + 1][..i] == pkgDeps[..i];
      if !d.internal {
        var ok := true;
        var j := 0;
        while j < |constraint.depPatterns|
          invariant 0 <= j <= |constraint.depPatterns|
          invariant ok
          invariant forall k :: 0 <= k < j ==> !matches(constraint.depPatterns[k], d.name)
        {
          if matches(constraint.depPatterns[j], d.name) {
            ok := false;
            break;
          }
          j := j + 1;
        }
        assert ok == !AnyMatch(constraint.depPatterns, d.name, matches);
        if !ok {
          var bucketed := AppendByLevel(warns, errs, constraint.onBreak, DependsMessage(pkg, d.name));
          warns, errs := bucketed.0, bucketed.1;
        }
      }
      i := i + 1;
    }
    assert pkgDeps[..i] == pkgDeps;
  }

  /**
   * `CheckPkg`, returning the result it publishes. `applicable` is what the
   * policy reports for `pkg`, `resolution` what the dependency resolver yields.
   */
  method CheckPkg<P>(pkg: string, applicable: seq<Constraint<P>>, resolution: Resolution, matches: (P, string) -> bool)
    returns (result: CheckResult)
    ensures applicable == [] ==> result == CheckResult([], [])
    ensures applicable != [] && resolution.Unresolved? ==>
      result == CheckResult([], [ResolveErrorMessage(pkg, resolution.cause)])
    ensures applicable != [] && resolution.Resolved? ==>
      result == Evaluate(pkg, applicable, resolution.root.deps, matches)
  {
    var errs: seq<string> := [];
    var warns: seq<string> := [];
    if |applicable| == 0 {
      return CheckResult(warns, errs);
    }
    if resolution.Unresolved? {
      return CheckResult(warns, errs + [ResolveErrorMessage(pkg, resolution.cause)]);
    }
    var pkgDeps := resolution.root.deps;
    for i := 0 to |applicable|
      invariant CheckResult(warns, errs) == Evaluate(pkg, applicable[..i], pkgDeps, matches)
    {
      var constr := applicable[i];
      assert applicable[..i + 1][..i] == applicable[..i];
      match constr.kind {
        case Allow =>
          var w, e := CheckAllowConstraint(constr, pkg, pkgDeps, matches);
          warns := warns + w;
          errs := errs + e;
        case Forbid =>
          var w, e := CheckForbidConstraint(constr, pkg, pkgDeps, matches);
          warns := warns + w;
          errs := errs + e;
        case Unknown(kind) =>
          errs := errs + [UnknownKindMessage(kind)];
      }
    }
    assert applicable[..|applicable|] == applicable;
    result := CheckResult(warns, errs);
  }

  // ---------------------------------------------------------------------
  // Properties of a single constraint
  // ---------------------------------------------------------------------

  /** Findings over a concatenation are the findings of each part, in dependency order. */
  lemma {:induction false} FindingsAppend<P>(kind: Kind, pats: seq<P>, pkg: string, a: seq<Pkg>, b: seq<Pkg>, matches: (P, string) -> bool)
    requires !kind.Unknown?
    ensures Findings(kind, pats, pkg, a + b, matches) == Findings(kind, pats, pkg, a, matches) + Findings(kind, pats, pkg, b, matches)
    decreases |b|
  {
    if b == [] {
      assert a + b == a;
    } else {
      var b' := b[..|b| - 1];
      assert (a + b)[..|a + b| - 1] == a + b';
      FindingsAppend(kind, pats, pkg, a, b', matches);
    }
  }

  /**
   * One dependency contributes, at its own position, exactly one diagnostic
   * "<pkg> depends on <dep>" when it is not stdlib and breaks the constraint
   * (allow: no pattern matches; forbid: some pattern matches), and nothing otherwise.
   */
  lemma DependencyContribution<P>(kind: Kind, pats: seq<P>, pkg: string, before: seq<Pkg>, d: Pkg, after: seq<Pkg>, matches: (P, string) -> bool)
    requires !kind.Unknown?
    ensures Findings(kind, pats, pkg, before + [d] + after, matches) ==
      Findings(kind, pats, pkg, before, matches)
      + (if !d.internal && (kind == Allow <==> !AnyMatch(pats, d.name, matches)) then [DependsMessage(pkg, d.name)] else [])
      + Findings(kind, pats, pkg, after, matches)
  {
    FindingsAppend(kind, pats, pkg, before + [d], after, matches);
    FindingsAppend(kind, pats, pkg, before, [d], matches);
    assert Findings(kind, pats, pkg, [d], matches) == DepFinding(kind, pats, pkg, d, matches) by {
      assert [d][..0] == [];
    }
  }

  /** A message is a finding iff it names a non-stdlib dependency that breaks the constraint. */
  lemma {:induction false} FindingsMembership<P>(kind: Kind, pats: seq<P>, pkg: string, deps: seq<Pkg>, matches: (P, string) -> bool, m: string)
    requires !kind.Unknown?
    ensures m in Findings(kind, pats, pkg, deps, matches) <==>
      exists i :: 0 <= i < |deps| && !deps[i].internal && Breaks(kind, pats, deps[i].name, matches)
                  && m == DependsMessage(pkg, deps[i].name)
  {
    if deps != [] {
      var init := deps[..|deps| - 1];
      FindingsMembership(kind, pats, pkg, init, matches, m);
      var last := |deps| - 1;
      if m in Findings(kind, pats, pkg, deps, matches) {
        if m !in Findings(kind, pats, pkg, init, matches) {
          assert m in DepFinding(kind, pats, pkg, deps[last], matches);
          assert !deps[last].internal && Breaks(kind, pats, deps[last].name, matches) && m == DependsMessage(pkg, deps[last].name);
        } else {
          var i :| 0 <= i < |init| && !init[i].internal && Breaks(kind, pats, init[i].name, matches) && m == DependsMessage(pkg, init[i].name);
          assert deps[i] == init[i];
        }
      }
      if exists i :: 0 <= i < |deps| && !deps[i].internal && Breaks(kind, pats, deps[i].name, matches) && m == DependsMessage(pkg, deps[i].name) {
        var i :| 0 <= i < |deps| && !deps[i].internal && Breaks(kind, pats, deps[i].name, matches) && m == DependsMessage(pkg, deps[i].name);
        if i < last {
          assert init[i] == deps[i];
        }
      }
    }
  }

  /** Stdlib dependencies are invisible: dropping them changes no finding. */
  lemma {:induction false} StdlibIgnored<P>(kind: Kind, pats: seq<P>, pkg: string, deps: seq<Pkg>, matches: (P, string) -> bool)
    requires !kind.Unknown?
    ensures Findings(kind, pats, pkg, deps, matches) == Findings(kind, pats, pkg, NonStdlib(deps), matches)
  {
    if deps != [] {
      var init := deps[..|deps| - 1];
      var d := deps[|deps| - 1];
      StdlibIgnored(kind, pats, pkg, init, matches);
      var tail := if d.internal then [] else [d];
      FindingsAppend(kind, pats, pkg, NonStdlib(init), tail, matches);
      assert [d][..0] == [];
    }
  }

  /** A constraint yields at most one diagnostic per non-stdlib dependency. */
  lemma {:induction false} FindingsBound<P>(kind: Kind, pats: seq<P>, pkg: string, deps: seq<Pkg>, matches: (P, string) -> bool)
    requires !kind.Unknown?
    ensures |Findings(kind, pats, pkg, deps, matches)| <= |NonStdlib(deps)|
  {
    if deps != [] {
      FindingsBound(kind, pats, pkg, deps[..|deps| - 1], matches);
    }
  }

  /**
   * With the same patterns, allow and forbid flag complementary, disjoint sets
   * of non-stdlib dependencies: together they name each non-stdlib dependency
   * exactly once.
   */
  lemma {:induction false} AllowForbidComplement<P>(pats: seq<P>, pkg: string, deps: seq<Pkg>, matches: (P, string) -> bool)
    ensures multiset(Findings(Allow, pats, pkg, deps, matches)) + multiset(Findings(Forbid, pats, pkg, deps, matches))
         == multiset(Messages(pkg, NonStdlib(deps)))
  {
    if deps != [] {
      var init := deps[..|deps| - 1];
      var d := deps[|deps| - 1];
      AllowForbidComplement(pats, pkg, init, matches);
      MessagesAppend(pkg, NonStdlib(init), if d.internal then [] else [d]);
    }
  }

  /** "<pkg> depends on <dep>" for each dependency, in order. */
  function Messages(pkg: string, deps: seq<Pkg>): (r: seq<string>)
    ensures |r| == |deps|
  {
    if deps == [] then [] else Messages(pkg, deps[..|deps| - 1]) + [DependsMessage(pkg, deps[|deps| - 1].name)]
  }

  lemma {:induction false} MessagesAppend(pkg: string, a: seq<Pkg>, b: seq<Pkg>)
    ensures Messages(pkg, a + b) == Messages(pkg, a) + Messages(pkg, b)
    decreases |b|
  {
    if b == [] {
      assert a + b == a;
    } else {
      assert (a + b)[..|a + b| - 1] == a + b[..|b| - 1];
      MessagesAppend(pkg, a, b[..|b| - 1]);
    }
  }

  // ---------------------------------------------------------------------
  // Properties of a whole check
  // ---------------------------------------------------------------------

  /** The result is the concatenation, in constraint order, of each constraint's contribution. */
  lemma {:induction false} EvaluateAppend<P>(pkg: string, a: seq<Constraint<P>>, b: seq<Constraint<P>>, deps: seq<Pkg>, matches: (P, string) -> bool)
    ensures Evaluate(pkg, a + b, deps, matches) == Merge(Evaluate(pkg, a, deps, matches), Evaluate(pkg, b, deps, matches))
    decreases |b|
  {
    if b == [] {
      assert a + b == a;
    } else {
      var b' := b[..|b| - 1];
      var c := b[|b| - 1];
      assert (a + b)[..|a + b| - 1] == a + b';
      assert (a + b)[|a + b| - 1] == c;
      EvaluateAppend(pkg, a, b', deps, matches);
      var last := Contribution(pkg, c, deps, matches);
      assert Evaluate(pkg, a + b, deps, matches) == Merge(Evaluate(pkg, a + b', deps, matches), last);
      assert Evaluate(pkg, b, deps, matches) == Merge(Evaluate(pkg, b', deps, matches), last);
      MergeAssociative(Evaluate(pkg, a, deps, matches), Evaluate(pkg, b', deps, matches), last);
    }
  }

  lemma MergeAssociative(x: CheckResult, y: CheckResult, z: CheckResult)
    ensures Merge(Merge(x, y), z) == Merge(x, Merge(y, z))
  {
  }

  /**
   * A constraint of unknown kind adds one error at its position and the
   * constraints after it are still evaluated.
   */
  lemma UnknownKindContinues<P>(pkg: string, before: seq<Constraint<P>>, c: Constraint<P>, after: seq<Constraint<P>>, deps: seq<Pkg>, matches: (P, string) -> bool)
    requires c.kind.Unknown?
    ensures Evaluate(pkg, before + [c] + after, deps, matches) ==
      Merge(Merge(Evaluate(pkg, before, deps, matches), CheckResult([], [UnknownKindMessage(c.kind.name)])),
            Evaluate(pkg, after, deps, matches))
  {
    EvaluateAppend(pkg, before + [c], after, deps, matches);
    EvaluateAppend(pkg, before, [c], deps, matches);
    assert [c][..0] == [];
  }

  /** A warn-level constraint adds no error and an error-level one adds no warning. */
  lemma {:induction false} SeverityRouting<P>(pkg: string, cs: seq<Constraint<P>>, deps: seq<Pkg>, matches: (P, string) -> bool)
    ensures (forall i :: 0 <= i < |cs| ==> cs[i].onBreak == Warn && !cs[i].kind.Unknown?) ==> Evaluate(pkg, cs, deps, matches).errs == []
    ensures (forall i :: 0 <= i < |cs| ==> cs[i].onBreak == Error) ==> Evaluate(pkg, cs, deps, matches).warns == []
  {
    if cs != [] {
      SeverityRouting(pkg, cs[..|cs| - 1], deps, matches);
    }
  }

  /** Each constraint contributes at most as many diagnostics as there are non-stdlib dependencies (one for an unknown kind). */
  lemma {:induction false} EvaluateBound<P>(pkg: string, cs: seq<Constraint<P>>, deps: seq<Pkg>, matches: (P, string) -> bool)
    ensures |Evaluate(pkg, cs, deps, matches).warns| + |Evaluate(pkg, cs, deps, matches).errs|
         <= |cs| * (if |NonStdlib(deps)| == 0 then 1 else |NonStdlib(deps)|)
  {
    if cs != [] {
      var n := if |NonStdlib(deps)| == 0 then 1 else |NonStdlib(deps)|;
      var c := cs[|cs| - 1];
      var prev := Evaluate(pkg, cs[..|cs| - 1], deps, matches);
      var last := Contribution(pkg, c, deps, matches);
      EvaluateBound(pkg, cs[..|cs| - 1], deps, matches);
      assert |prev.warns| + |prev.errs| <= (|cs| - 1) * n;
      if !c.kind.Unknown? {
        FindingsBound(c.kind, c.depPatterns, pkg, deps, matches);
      }
      assert |last.warns| + |last.errs| <= n;
      assert (|cs| - 1) * n + n == |cs| * n;
    }
  }

  /** Same name and stdlib flag, whatever the dependency's own dependencies. */
  predicate SameDirect(a: seq<Pkg>, b: seq<Pkg>)
  {
    |a| == |b| && forall i :: 0 <= i < |a| ==> a[i].name == b[i].name && a[i].internal == b[i].internal
  }

  /** Only the root's direct dependencies are checked: deeper levels of the tree never matter. */
  lemma {:induction false} DirectDepsOnly<P>(pkg: string, cs: seq<Constraint<P>>, a: seq<Pkg>, b: seq<Pkg>, matches: (P, string) -> bool)
    requires SameDirect(a, b)
    ensures Evaluate(pkg, cs, a, matches) == Evaluate(pkg, cs, b, matches)
  {
    if cs != [] {
      DirectDepsOnly(pkg, cs[..|cs| - 1], a, b, matches);
      var c := cs[|cs| - 1];
      if !c.kind.Unknown? {
        FindingsDirect(c.kind, c.depPatterns, pkg, a, b, matches);
      }
    }
  }

  lemma {:induction false} FindingsDirect<P>(kind: Kind, pats: seq<P>, pkg: string, a: seq<Pkg>, b: seq<Pkg>, matches: (P, string) -> bool)
    requires !kind.Unknown?
    requires SameDirect(a, b)
    ensures Findings(kind, pats, pkg, a, matches) == Findings(kind, pats, pkg, b, matches)
    decreases |a|
  {
    if a != [] {
      FindingsDirect(kind, pats, pkg, a[..|a| - 1], b[..|b| - 1], matches);
    }
  }

  // ---------------------------------------------------------------------
  // Examples
  // ---------------------------------------------------------------------

  /** For the examples only: a pattern that matches exactly its own text. */
  function LiteralMatch(pattern: string, name: string): bool
  {
    pattern == name
  }

  /** A forbid constraint flags the forbidden dependency once, as an error, and is silent about stdlib "fmt". */
  lemma ForbidExample()
    ensures Evaluate("acme/web/http", [Constraint(Forbid, ["acme/db/pg"], Error)],
                     [Pkg("fmt", true, []), Pkg("acme/db/pg", false, [])], LiteralMatch)
         == CheckResult([], ["acme/web/http depends on acme/db/pg"])
  {
    var pats := ["acme/db/pg"];
    var deps := [Pkg("fmt", true, []), Pkg("acme/db/pg", false, [])];
    var cs := [Constraint(Forbid, pats, Error)];
    assert deps[..1] == [deps[0]] && [deps[0]][..0] == [];
    assert Findings(Forbid, pats, "acme/web/http", [deps[0]], LiteralMatch) == [];
    assert LiteralMatch(pats[0], deps[1].name);
    assert DependsMessage("acme/web/http", "acme/db/pg") == "acme/web/http depends on acme/db/pg";
    assert Findings(Forbid, pats, "acme/web/http", deps, LiteralMatch) == ["acme/web/http depends on acme/db/pg"];
    assert cs[..0] == [];
  }

  /** An allow constraint at warn level turns a dependency outside its list into one warning. */
  lemma AllowExample()
    ensures Evaluate("acme/core/x", [Constraint(Allow, ["acme/core/y", "acme/util/z"], Warn)],
                     [Pkg("acme/third/y", false, [])], LiteralMatch)
         == CheckResult(["acme/core/x depends on acme/third/y"], [])
  {
    var pats := ["acme/core/y", "acme/util/z"];
    var deps := [Pkg("acme/third/y", false, [])];
    var cs := [Constraint(Allow, pats, Warn)];
    assert deps[..0] == [];
    assert !AnyMatch(pats, "acme/third/y", LiteralMatch);
    assert DependsMessage("acme/core/x", "acme/third/y") == "acme/core/x depends on acme/third/y";
    assert Findings(Allow, pats, "acme/core/x", deps, LiteralMatch) == ["acme/core/x depends on acme/third/y"];
    assert cs[..0] == [];
  }
}

# dfence dependency fences, modelled in Dafny

dfence checks the imports of a Go code base against a dependency policy. The
policy groups packages into components. It declares, per component, which
dependencies are allowed or forbidden. Each finding is a warning or an error,
depending on the constraint's severity. A second command draws the
component-level dependency graph.

This project models three parts of dfence:

- **`PolicyChecker`** (`checker.dfy`): the per-package checker.
  - `CheckPkg` evaluates the constraints that apply to a package over the
    package's direct dependencies.
  - `CheckAllowConstraint` flags every non-stdlib dependency that no pattern
    matches. `CheckForbidConstraint` flags every one that some pattern matches.
  - `AppendByLevel` puts each finding in the warning or the error bucket.
  - Each method is proved against a specification function: `Findings` for
    one constraint and `Evaluate` for a list of constraints. Lemmas state the
    properties of these functions.
- **`DepGraph`** (`dep_graph.dfy`): the graph walker.
  - `WriteDepsGraphRec` is a recursive method that adds edges to a shared
    `EdgeSet` object.
  - `GraphEdges` specifies what a walk adds. `Expanded` is an independent
    description of the nodes the walk goes through.
  - `GetNodeLabel`, `MustSkip` and `BuildSkipSet` model the labelling, the
    edge filter and the `--skip` map.
- **`Enforce`** (`enforce.dfy`):
  - `Check` folds the received check results into an error count and the
    command's outcome.
  - `RetrievePackages` post-processes the output of `go list`.
- **`TextUtil`** (`text_util.dfy`):
  - Go's `strings.Split` with a one-character separator. Both commands use it.
  - Its inverse `Join`. The source never calls it; it only states the round trips.
  - The decimal text of `%d`, used in the message of `enforce`.

Abstract inputs:

- The pattern type is a type parameter `P`. The pattern's `match` is a
  function parameter `matches: (P, string) -> bool`. No glob matcher is modelled.
- `Policy.GetApplicableConstraints` is not called. `CheckPkg` receives its
  result as the list `applicable`.
- `Policy.ComponentsForPackage` is the parameter
  `lookup: string -> Components(comps, ok)`. The Go code reads `comps[0]`
  whenever `ok` holds. So the walker requires `LookupValid`: a lookup never
  reports `ok` with an empty list.
- The dependency resolvers are inputs:
  - `Resolution` is `depth.Tree.Resolve`: a tree of `Pkg(name, internal, deps)`
    or an error cause.
  - `NodeResolution` is `deps.ResolvePkgDeps`.
- The `go list` run is a `ListRun`: stdout, stderr, and whether it failed.
- Go's `error` values are their message strings. A nil error is `None`.

Three behaviours of the code, modelled as written:

- A package with no applicable constraints gets an empty result. The warning
  "does not have constraints" is only logged, and no resolution happens.
- Only the root's direct dependencies are checked (`DirectDepsOnly`).
- The walker enters a dependency only when it kept the edge to it.
  - A dependency in the same component as its parent is not entered.
  - A dependency with a skipped label is not entered.
  - `SameComponentNotEntered` shows that an edge A -> C two levels down is then
    not recorded.

## Model

| member | source | states |
|---|---|---|
| `PolicyChecker.AppendByLevel` | internal/policy/checker.go:138-146 | Level Warn adds the message to the warnings and leaves the errors unchanged. Any other level adds it to the errors and leaves the warnings unchanged. Exactly one message is added. |
| `PolicyChecker.CheckAllowConstraint` | internal/policy/checker.go:86-110 | The result equals the allow findings, in dependency order, routed to the bucket of the constraint's severity. The inner pattern loop with its early exit computes "some pattern matches". |
| `PolicyChecker.CheckForbidConstraint` | internal/policy/checker.go:112-136 | The result equals the forbid findings, in dependency order, routed to the bucket of the constraint's severity. |
| `PolicyChecker.CheckPkg` | internal/policy/checker.go:43-84 | No applicable constraints gives an empty result, whatever the resolver would say. A failed resolution gives exactly one error "unable to get dependencies of <pkg>: <cause>" and no warnings. Otherwise the result is `Evaluate` over the constraints in order and the root's direct dependencies. |
| `PolicyChecker.FindingsAppend` | internal/policy/checker.go:90-107 | The findings of a constraint over concatenated dependency lists are the concatenation of the findings, in dependency order. |
| `PolicyChecker.DependencyContribution` | internal/policy/checker.go:90-107 | At its own position, a dependency contributes exactly one "<pkg> depends on <dep>" iff it is not stdlib and breaks the constraint. Under allow, it breaks it when no pattern matches. Under forbid, it breaks it when some pattern matches. Otherwise it contributes nothing. |
| `PolicyChecker.FindingsMembership` | internal/policy/checker.go:95-106 | A message is among a constraint's findings iff it names a non-stdlib dependency that breaks the constraint. |
| `PolicyChecker.StdlibIgnored` | internal/policy/checker.go:91-93 | Removing the stdlib dependencies changes no finding, under allow or forbid. |
| `PolicyChecker.FindingsBound` | internal/policy/checker.go:90-107 | A constraint yields at most one diagnostic per non-stdlib dependency. |
| `PolicyChecker.AllowForbidComplement` | internal/policy/checker.go:121-132 | With the same patterns, the allow findings and the forbid findings together name each non-stdlib dependency exactly once. So they are complementary and disjoint. |
| `PolicyChecker.EvaluateAppend` | internal/policy/checker.go:68-81 | The result over concatenated constraint lists is the two results merged, warnings after warnings and errors after errors. |
| `PolicyChecker.UnknownKindContinues` | internal/policy/checker.go:78-79 | A constraint of unknown kind adds the one error "unable to check constraints of kind `<kind>`" at its position. The constraints after it are still evaluated. |
| `PolicyChecker.SeverityRouting` | internal/policy/checker.go:70-77 | Warn-level known constraints produce no error. Error-level constraints produce no warning. |
| `PolicyChecker.EvaluateBound` | internal/policy/checker.go:68-81 | The number of diagnostics is at most the number of constraints times the number of non-stdlib dependencies, or times 1 when there are none. |
| `PolicyChecker.DirectDepsOnly` | internal/policy/checker.go:66 | Two dependency lists with the same names and stdlib flags give the same result, whatever their own dependencies are. |
| `PolicyChecker.ForbidExample` | internal/policy/checker.go:112-136 | Forbidding acme/db/pg from acme/web/http, where the dependencies are the stdlib fmt and acme/db/pg, gives exactly one error and no warning. |
| `PolicyChecker.AllowExample` | internal/policy/checker.go:86-110 | At warn level, a dependency outside the allow list gives exactly one warning and no error. |
| `DepGraph.GetNodeLabel` | cmd/depGraph.go:102-109 | The label is "UNDEFINED" when the lookup reports not found. Otherwise it is the first component in the returned list. |
| `DepGraph.MustSkip` | cmd/depGraph.go:98-100 | True iff the labels are equal, or either label is in the skip set. A missing map key reads as not skipped. |
| `DepGraph.BuildSkipSet` | cmd/depGraph.go:45-48 | The skipped labels are exactly the comma-separated pieces of the flag, and every key maps to true. An empty flag gives the set {""}. |
| `DepGraph.WriteDepsGraphRec` | cmd/depGraph.go:78-96 | The new edge set is the old one plus `GraphEdges` of the node. Nothing is removed, and inserting an existing edge changes nothing. A node with a skipped label leaves the set unchanged. A set with no self-loop and no skipped endpoint stays that way. |
| `DepGraph.WriteDepsGraph` | cmd/depGraph.go:50-59 | The shared edge set ends as the union of the walks over every tree that resolved. A tree that failed to resolve adds nothing. The returned set has no self-loop and no edge touching a skipped label. |
| `DepGraph.AllEdgesClean` | cmd/depGraph.go:50-59 | Every edge of the union over all resolved trees joins two distinct labels, neither of them skipped. |
| `DepGraph.GraphEdgesSound` | cmd/depGraph.go:79-94 | Every recorded edge is `"<from>" -> "<to>"`. Here `from` labels an expanded node and `to` labels one of its direct dependencies, over a kept edge. |
| `DepGraph.GraphEdgesComplete` | cmd/depGraph.go:85-94 | Every kept edge out of an expanded node is recorded. With `GraphEdgesSound`, the edge set is exactly the kept edges of the nodes the walk enters. |
| `DepGraph.GraphEdgesClean` | cmd/depGraph.go:88-92 | Every recorded edge joins two distinct labels, neither of them skipped. |
| `DepGraph.SkipExample` | cmd/depGraph.go:78-96 | a -> b -> c and a -> c, with B skipped, give the single edge A -> C. |
| `DepGraph.SameComponentNotEntered` | cmd/depGraph.go:88-94 | A dependency in its parent's component is not entered, so its own edges are not recorded. An unmapped package is labelled "UNDEFINED". |
| `Enforce.Check` | cmd/enforce.go:79-97 | Over exactly one result per package, the method returns an error iff the total of `len(Errs)` is positive. The error's text is "found K error(s)", where K is that total. |
| `Enforce.TotalErrorsPermutation` | cmd/enforce.go:79-89 | The total, and so the outcome, is the same for any arrival order of the results. |
| `Enforce.WarningsIgnored` | cmd/enforce.go:81-88 | Results that differ only in their warnings give the same total. |
| `Enforce.RetrievePackages` | cmd/enforce.go:109-115 | On failure: no packages, and an error carrying stderr. On success: one package per newline of stdout, none of them containing a newline, and an empty list for empty stdout. |
| `Enforce.RetrievePackagesRoundTrip` | cmd/enforce.go:113-115 | Writing the packages back as lines, followed by the dropped last piece, gives stdout. Output that is empty or ends in a newline is reproduced exactly. |
| `TextUtil.JoinSplit` | cmd/enforce.go:113 | Joining the pieces of a split with the separator gives back the text. |
| `TextUtil.SplitJoin` | cmd/depGraph.go:46 | Splitting a join of separator-free pieces gives back the pieces. |
| `TextUtil.SplitLength` | cmd/enforce.go:113 | A split has one piece more than the text has separators. |
| `TextUtil.SplitPiecesFree` | cmd/depGraph.go:46 | No piece of a split contains the separator. |
| `TextUtil.NatToString` | cmd/enforce.go:94 | The count is written with decimal digits only, with no leading zero except for 0 itself. |
| `TextUtil.NatToStringValue` | cmd/enforce.go:94 | Reading the decimal text of the count back gives the count. |

## Left out

- Goroutines and the result channel:
  - `CheckPkg` returns the result it would send.
  - `Check` takes the received results in arrival order. It requires one result per package: each `CheckPkg` call publishes exactly one.
- Logging (`Debugf`, `Warningf`, `Infof`, `Errorf`, `Fatalf`). It has no effect on results, including the "does not have constraints" warning.
- `Checker.String` and `NewChecker`: formatting and a constructor that cannot fail.
- `buildCheckResult`: it is the `CheckResult` datatype constructor itself.
- `depth.Tree.Resolve` and `deps.ResolvePkgDeps`: external resolvers. Their outcomes are inputs, and their code is not part of this model.
- `exec.Command("go", "list", …)`: a subprocess. Only the processing of its output is modelled.
- Policy loading and JSON parsing, `GetApplicableConstraints`, `ComponentsForPackage`, and the pattern `match`: their code is not part of this model. They are taken as parameters.
- The DOT text written out, its map-iteration order, and creating the output file.
- The cobra/viper command wiring in every `cmd` file, including `cmd/dfence.go` and its flag registration.
- `DepGraph.GetNodeLabel`: requires that the lookup never reports `ok` with an empty component list. The Go code would panic on `comps[0]` in that case, and the model does not represent the panic.

/** What the command promises across its steps: usage errors before any
    lookup, the failure when nothing matches, the newest-only reduction,
    the `--all` listing and the format dispatch. */
module SpecificationProperties {
  import opened GemModel
  import opened VersionOrder
  import opened SpecificationCommand

  /** The command line reaches the lookups: a gem is named and FIELD is
      not combined with `--ruby`. */
  predicate ArgumentsAccepted(o: Options) {
    |o.args| > 0 && !(|o.args| > 1 && o.format == Ruby)
  }

  /** The dependency built from the first argument and `--version`. */
  function DependencyOf(o: Options): (dep: Dependency)
    requires |o.args| > 0
    ensures dep.name == o.args[0] && dep.requirement == o.version
  {
    Dependency(o.args[0], o.version)
  }

  /** Every candidate gathered from the enabled sources. */
  function CandidatesOf(o: Options, w: World): seq<Spec>
    requires |o.args| > 0
  {
    Candidates(o.args[0], DependencyOf(o), o, w).specs
  }

  /** A usage error is decided before any collaborator is consulted. */
  lemma UsageErrorConsultsNothing(o: Options, w: World)
    ensures Execute(o, w).outcome.UsageError? <==> !ArgumentsAccepted(o)
    ensures !ArgumentsAccepted(o) ==> Execute(o, w).trace == []
    ensures |o.args| > 1 && o.format == Ruby ==>
              Execute(o, w).outcome == UsageError(ExclusiveMessage)
  {
  }

  /** With the local source enabled, a readable archive at the given path
      is the only local candidate and the installed index is not asked;
      otherwise the local candidates are exactly the index's matches. */
  lemma ArchiveShadowsIndex(o: Options, w: World)
    requires ArgumentsAccepted(o) && o.local
    ensures var gem := o.args[0];
            var dep := DependencyOf(o);
            var run := Execute(o, w);
            && FileExists(gem) in run.trace
            && (w.fileExists(gem) && w.readPackage(gem).Some? ==>
                  && MatchingSpecs(dep) !in run.trace
                  && CandidatesOf(o, w)[0] == w.readPackage(gem).value)
            && (!(w.fileExists(gem) && w.readPackage(gem).Some?) ==>
                  && MatchingSpecs(dep) in run.trace
                  && CandidatesOf(o, w)[..|w.matchingSpecs(dep)|] == w.matchingSpecs(dep))
  {
    var gem := o.args[0];
    var dep := DependencyOf(o);
    var local := LocalCandidates(gem, dep, w);
    var remote := if o.remote then RemoteCandidates(dep, o, w).trace else [];
    assert Execute(o, w).trace == local.trace + remote;
    assert local.trace[0] == FileExists(gem);
  }

  /** The remote fetcher is asked once, with the user's prerelease choice
      when the requirement is unset or unconstrained and with `true` when
      it pins versions. */
  lemma RemotePrereleasePolicy(o: Options, w: World)
    requires ArgumentsAccepted(o) && o.remote
    ensures var dep := DependencyOf(o);
            var pinned := o.version.Some? && !o.version.value.IsNone();
            && (pinned ==> Fetch(dep, true) in Execute(o, w).trace)
            && (!pinned ==> Fetch(dep, o.prerelease) in Execute(o, w).trace)
            && (forall c :: c in Execute(o, w).trace && c.Fetch? ==>
                  c == Fetch(dep, if pinned then true else o.prerelease))
  {
  }

  /** Candidates are the local ones followed by the fetched ones, in the
      order the sources gave them, with disabled sources contributing
      nothing. */
  lemma CandidatesLocalThenRemote(o: Options, w: World)
    requires |o.args| > 0
    ensures var dep := DependencyOf(o);
            var local := if o.local then LocalCandidates(o.args[0], dep, w).specs else [];
            var found := if o.remote then w.fetch(dep, RemotePrerelease(o.version, o.prerelease)) else [];
            && |CandidatesOf(o, w)| == |local| + |found|
            && CandidatesOf(o, w)[..|local|] == local
            && forall i :: 0 <= i < |found| ==> CandidatesOf(o, w)[|local| + i] == found[i].0
  {
  }

  /** The command fails with status 1 and the dependency in its alert
      exactly when no enabled source yields a candidate; nothing is
      rendered then. */
  lemma NoMatchExactlyWhenNoCandidates(o: Options, w: World)
    requires ArgumentsAccepted(o)
    ensures Execute(o, w).outcome.NoMatch? <==> |CandidatesOf(o, w)| == 0
    ensures Execute(o, w).outcome.NoMatch? ==>
              Execute(o, w).outcome ==
                NoMatch(DependencyOf(o),
                        "No gem matching '" + w.describe(DependencyOf(o)) + "' found",
                        1)
  {
  }

  /** Without `--all` one unit is rendered, for a candidate whose version
      is at least every candidate's. */
  lemma NewestOnlyWithoutAll(o: Options, w: World)
    requires ArgumentsAccepted(o) && !o.all
    ensures Execute(o, w).outcome.Rendered? ==>
              && |Execute(o, w).outcome.outputs| == 1
              && IsHighest(Execute(o, w).outcome.outputs[0].shown.Origin(), CandidatesOf(o, w))
  {
  }

  /** The model's own tie policy, which the unstable `sort_by` does not
      promise: without `--all` the unit shown is for the last candidate of
      the highest version. */
  lemma ModelTieChoiceWithoutAll(o: Options, w: World)
    requires ArgumentsAccepted(o) && !o.all
    ensures Execute(o, w).outcome.Rendered? ==>
              Execute(o, w).outcome.outputs[0].shown.Origin() == LastHighest(CandidatesOf(o, w))
  {
    var cands := CandidatesOf(o, w);
    if |cands| > 0 {
      LatestIsLastHighest(cands);
    }
  }

  /** With `--all` every candidate is rendered once, in candidate order. */
  lemma EveryCandidateWithAll(o: Options, w: World)
    requires ArgumentsAccepted(o) && o.all
    ensures Execute(o, w).outcome.Rendered? ==>
              && |Execute(o, w).outcome.outputs| == |CandidatesOf(o, w)|
              && forall i :: 0 <= i < |CandidatesOf(o, w)| ==>
                   Execute(o, w).outcome.outputs[i].shown.Origin() == CandidatesOf(o, w)[i]
  {
  }

  /** Every rendered unit is followed by a blank line and uses the
      encoder of the chosen format; `to_ruby` only ever sees whole
      specifications, and without FIELD every unit is a whole one. */
  lemma UnitsFollowFormat(o: Options, w: World)
    requires ArgumentsAccepted(o)
    ensures Execute(o, w).outcome.Rendered? ==>
              forall u :: u in Execute(o, w).outcome.outputs ==>
                && u.trailer == "\n"
                && u.encoder == EncoderFor(o.format)
                && (u.encoder == ToRuby ==> u.shown.Whole?)
                && (|o.args| == 1 ==> u.shown.Whole?)
    ensures Execute(o, w).outcome.Rendered? ==> |Execute(o, w).outcome.outputs| > 0
  {
  }

  /** A field lookup that raises stops the output at the first chosen
      specification lacking the field; the units said before it stand. */
  lemma MissingFieldStopsOutput(o: Options, w: World)
    requires ArgumentsAccepted(o) && |o.args| > 1
    ensures Execute(o, w).outcome.UnknownField? ==>
              var chosen := Select(CandidatesOf(o, w), o.all);
              var said := Execute(o, w).outcome.said;
              && Execute(o, w).outcome.field == o.args[1]
              && |said| < |chosen|
              && w.send(chosen[|said|], o.args[1]).None?
              && forall i :: 0 <= i < |said| ==>
                   said[i] == Output(FieldOf(chosen[i], o.args[1], w.send(chosen[i], o.args[1]).value),
                                     EncoderFor(o.format), "\n")
    ensures |CandidatesOf(o, w)| > 0 && w.send(Select(CandidatesOf(o, w), o.all)[0], o.args[1]).None? ==>
              Execute(o, w).outcome == UnknownField(o.args[1], [])
  {
  }

  /** Under the defaults only the local source is consulted and output is
      YAML. */
  lemma DefaultsStayLocal(args: seq<string>, w: World)
    requires |args| > 0
    ensures forall c :: c in Execute(DefaultOptions(args), w).trace ==> c.IsLocal()
    ensures Execute(DefaultOptions(args), w).outcome.Rendered? ==>
              forall u :: u in Execute(DefaultOptions(args), w).outcome.outputs ==> u.encoder == ToYaml
  {
  }

  /** Every well-formed command line that passes the argument checks
      consults at least one source before deciding the outcome. */
  lemma WellFormedConsultsASource(o: Options, w: World)
    requires WellFormed(o) && ArgumentsAccepted(o)
    ensures |Execute(o, w).trace| > 0
    ensures o.local ==> Execute(o, w).trace[0] == FileExists(o.args[0])
    ensures !o.local ==> Execute(o, w).trace[0].Fetch?
  {
  }

  /** Two installed versions of one gem and the default options: only
      the newer one is shown, as YAML. */
  lemma NewerOfTwoInstalledVersions()
    ensures var older := Spec("widget", 100, "ruby");
            var newer := Spec("widget", 200, "ruby");
            var w := World(_ => false, _ => None, _ => [older, newer], (_, _) => [],
                           (_, _) => None, _ => "widget (>= 0)");
            Execute(DefaultOptions(["widget"]), w).outcome ==
              Rendered([Output(Whole(newer), ToYaml, "\n")])
  {
    var older := Spec("widget", 100, "ruby");
    var newer := Spec("widget", 200, "ruby");
    var w := World(_ => false, _ => None, _ => [older, newer], (_, _) => [],
                   (_, _) => None, _ => "widget (>= 0)");
    var o := DefaultOptions(["widget"]);
    assert CandidatesOf(o, w) == [older, newer];
    LatestIsUniqueHighest([older, newer], newer);
    assert Select([older, newer], false) == [newer];
    assert RenderEach([newer], None, Yaml, w) == Done([Output(Whole(newer), ToYaml, "\n")]);
  }

  /** The same store with `--all`: both versions, in the index's order. */
  lemma BothInstalledVersionsWithAll()
    ensures var older := Spec("widget", 100, "ruby");
            var newer := Spec("widget", 200, "ruby");
            var w := World(_ => false, _ => None, _ => [older, newer], (_, _) => [],
                           (_, _) => None, _ => "widget (>= 0)");
            Execute(DefaultOptions(["widget"]).(all := true), w).outcome ==
              Rendered([Output(Whole(older), ToYaml, "\n"), Output(Whole(newer), ToYaml, "\n")])
  {
  }

  /** A gem no source knows: the no-match alert with status 1. */
  lemma UnknownGemReportsNoMatch()
    ensures var w := World(_ => false, _ => None, _ => [], (_, _) => [],
                           (_, _) => None, _ => "missing-gem (>= 0)");
            var run := Execute(DefaultOptions(["missing-gem"]).(remote := true), w);
            && run.outcome.NoMatch?
            && run.outcome.alert == "No gem matching 'missing-gem (>= 0)' found"
            && run.outcome.status == 1
  {
    var w := World(_ => false, _ => None, _ => [], (_, _) => [],
                   (_, _) => None, _ => "missing-gem (>= 0)");
    var o := DefaultOptions(["missing-gem"]).(remote := true);
    assert LocalCandidates("missing-gem", DependencyOf(o), w).specs == [];
    assert RemoteCandidates(DependencyOf(o), o, w).specs == [];
  }
}

/** `Gem::Commands::SpecificationCommand#execute`: check the arguments,
    gather local then remote candidates, fail when there are none, keep the
    newest unless `--all`, and serialise each chosen specification (or one
    field of it) in the requested format. */
module SpecificationCommand {
  import opened GemModel
  import opened VersionOrder

  const MissingGemMessage: string := "Please specify a gem name or file on the command line"
  const ExclusiveMessage: string := "--ruby and FIELD are mutually exclusive"

  /** The status `terminate_interaction` exits with when nothing matched. */
  const NoMatchStatus: nat := 1

  /** The encoder a format selects: `to_ruby`, `Marshal.dump` or `to_yaml`. */
  datatype Encoder = ToRuby | MarshalDump | ToYaml

  /** What is handed to the encoder: the whole specification, or the value
      of one of its fields. */
  datatype Shown = Whole(spec: Spec) | FieldOf(spec: Spec, field: string, value: Attribute) {
    function Origin(): Spec {
      match this
      case Whole(s) => s
      case FieldOf(s, _, _) => s
    }
  }

  /** One rendered unit: the encoded value, then the `say "\n"` after it. */
  datatype Output = Output(shown: Shown, encoder: Encoder, trailer: string)

  datatype Outcome =
    | UsageError(msg: string)
    | NoMatch(dep: Dependency, alert: string, status: nat)
    | UnknownField(field: string, said: seq<Output>)
    | Rendered(outputs: seq<Output>)

  /** An outcome with the collaborators consulted on the way, in order. */
  datatype Run = Run(outcome: Outcome, trace: seq<Consult>)

  /** Candidates gathered by one step, with the consultations it made. */
  datatype Gathered = Gathered(specs: seq<Spec>, trace: seq<Consult>)

  /** The first argument, shifted off `options[:args]`. */
  function GemArgument(args: seq<string>): (g: Option<string>)
    ensures g.Some? <==> |args| > 0
    ensures g.Some? ==> g.value == args[0]
  {
    if |args| == 0 then None else Some(args[0])
  }

  /** `get_one_optional_argument` after the shift: the second argument. */
  function FieldArgument(args: seq<string>): (f: Option<string>)
    ensures f.Some? <==> |args| > 1
    ensures f.Some? ==> f.value == args[1]
  {
    if |args| <= 1 then None else Some(args[1])
  }

  /** Local candidates: the archive's own specification when `gem` names
      an existing file that reads as a package; otherwise every installed
      specification matching the dependency. */
  function LocalCandidates(gem: string, dep: Dependency, w: World): (g: Gathered)
    ensures |g.trace| > 0 && g.trace[0] == FileExists(gem)
    ensures forall c :: c in g.trace ==> c.IsLocal()
    ensures MatchingSpecs(dep) in g.trace <==>
              !(w.fileExists(gem) && w.readPackage(gem).Some?)
    ensures MatchingSpecs(dep) in g.trace ==> g.specs == w.matchingSpecs(dep)
    ensures MatchingSpecs(dep) !in g.trace ==> g.specs == [w.readPackage(gem).value]
    ensures ReadPackage(gem) in g.trace <==> w.fileExists(gem)
  {
    if w.fileExists(gem) then
      match w.readPackage(gem)
      case Some(s) => Gathered([s], [FileExists(gem), ReadPackage(gem)])
      case None =>
        Gathered(w.matchingSpecs(dep), [FileExists(gem), ReadPackage(gem), MatchingSpecs(dep)])
    else
      Gathered(w.matchingSpecs(dep), [FileExists(gem), MatchingSpecs(dep)])
  }

  /** The prerelease flag passed to the remote fetcher: the user's choice
      when the requirement is unset or unconstrained, otherwise always
      true so that pinned prereleases can be found. */
  function RemotePrerelease(version: Option<Requirement>, prerelease: bool): (b: bool)
    ensures (version.None? || version.value.IsNone()) ==> b == prerelease
    ensures version.Some? && !version.value.IsNone() ==> b
    ensures !b ==> !prerelease
  {
    if version.None? || version.value.IsNone() then prerelease else true
  }

  /** The specifications of the fetcher's (spec, source) pairs, in order. */
  function SpecsOf(found: seq<(Spec, Source)>): (specs: seq<Spec>)
    ensures |specs| == |found|
    ensures forall i :: 0 <= i < |found| ==> specs[i] == found[i].0
  {
    seq(|found|, i requires 0 <= i < |found| => found[i].0)
  }

  function RemoteCandidates(dep: Dependency, o: Options, w: World): (g: Gathered)
    ensures g.trace == [Fetch(dep, RemotePrerelease(o.version, o.prerelease))]
    ensures g.specs == SpecsOf(w.fetch(dep, RemotePrerelease(o.version, o.prerelease)))
  {
    var pre := RemotePrerelease(o.version, o.prerelease);
    Gathered(SpecsOf(w.fetch(dep, pre)), [Fetch(dep, pre)])
  }

  /** Local candidates followed by remote ones, each only when its source
      is enabled; no de-duplication and no reordering. */
  function Candidates(gem: string, dep: Dependency, o: Options, w: World): (g: Gathered)
    ensures g.specs ==
              (if o.local then LocalCandidates(gem, dep, w).specs else []) +
              (if o.remote then RemoteCandidates(dep, o, w).specs else [])
    ensures g.trace ==
              (if o.local then LocalCandidates(gem, dep, w).trace else []) +
              (if o.remote then RemoteCandidates(dep, o, w).trace else [])
  {
    var local := if o.local then LocalCandidates(gem, dep, w) else Gathered([], []);
    var remote := if o.remote then RemoteCandidates(dep, o, w) else Gathered([], []);
    Gathered(local.specs + remote.specs, local.trace + remote.trace)
  }

  /** Every candidate with `--all`, otherwise only the newest. */
  function Select(candidates: seq<Spec>, all: bool): (chosen: seq<Spec>)
    requires |candidates| > 0
    ensures all ==> chosen == candidates
    ensures !all ==> |chosen| == 1 && IsHighest(chosen[0], candidates)
  {
    if all then candidates else [Latest(candidates)]
  }

  function EncoderFor(f: Format): (e: Encoder)
    ensures e == ToRuby <==> f == Ruby
    ensures e == MarshalDump <==> f == Marshal
    ensures e == ToYaml <==> !(f.Ruby? || f.Marshal?)
  {
    match f
    case Ruby => ToRuby
    case Marshal => MarshalDump
    case _ => ToYaml
  }

  /** `s = s.send field if field`: `None` when the lookup raises. */
  function Project(s: Spec, field: Option<string>, w: World): (v: Option<Shown>)
    ensures field.None? ==> v == Some(Whole(s))
    ensures field.Some? ==> (v.Some? <==> w.send(s, field.value).Some?)
    ensures v.Some? ==> v.value.Origin() == s
    ensures v.Some? && field.Some? ==> v.value == FieldOf(s, field.value, w.send(s, field.value).value)
  {
    match field
    case None => Some(Whole(s))
    case Some(f) =>
      match w.send(s, f)
      case None => None
      case Some(a) => Some(FieldOf(s, f, a))
  }

  /** The result of the rendering loop: every unit, or the units said
      before the field lookup raised. */
  datatype Rendering = Done(outputs: seq<Output>) | Raised(field: string, said: seq<Output>)

  /** Each output renders the specification at the same position. */
  predicate RendersEach(outputs: seq<Output>, specs: seq<Spec>, field: Option<string>, f: Format, w: World)
    requires |outputs| <= |specs|
  {
    forall i :: 0 <= i < |outputs| ==>
      && Project(specs[i], field, w).Some?
      && outputs[i] == Output(Project(specs[i], field, w).value, EncoderFor(f), "\n")
  }

  /** The `specs.each` loop: one unit per specification, in order, until a
      field lookup raises. */
  function RenderEach(specs: seq<Spec>, field: Option<string>, f: Format, w: World): (r: Rendering)
    ensures r.Done? ==> |r.outputs| == |specs| && RendersEach(r.outputs, specs, field, f, w)
    ensures r.Done? <==> forall i :: 0 <= i < |specs| ==> Project(specs[i], field, w).Some?
    ensures r.Raised? ==>
              && field.Some? && r.field == field.value
              && |r.said| < |specs|
              && RendersEach(r.said, specs, field, f, w)
              && Project(specs[|r.said|], field, w).None?
  {
    if |specs| == 0 then Done([])
    else
      match Project(specs[0], field, w)
      case None => Raised(field.value, [])
      case Some(v) =>
        var unit := Output(v, EncoderFor(f), "\n");
        match RenderEach(specs[1..], field, f, w)
        case Done(us) => Done([unit] + us)
        case Raised(fld, said) => Raised(fld, [unit] + said)
  }

  /** The whole command. */
  function Execute(o: Options, w: World): (r: Run)
    ensures |o.args| == 0 ==> r == Run(UsageError(MissingGemMessage), [])
    ensures |o.args| > 1 && o.format == Ruby ==> r == Run(UsageError(ExclusiveMessage), [])
    ensures r.outcome.UsageError? <==> |o.args| == 0 || (|o.args| > 1 && o.format == Ruby)
    ensures !o.local ==> forall c :: c in r.trace ==> !c.IsLocal()
    ensures !o.remote ==> forall c :: c in r.trace ==> c.IsLocal()
    ensures r.outcome.NoMatch? ==> r.outcome.status == NoMatchStatus && |o.args| > 0
  {
    match GemArgument(o.args)
    case None => Run(UsageError(MissingGemMessage), [])
    case Some(gem) =>
      var dep := Dependency(gem, o.version);
      var field := FieldArgument(o.args);
      if field.Some? && o.format == Ruby then
        Run(UsageError(ExclusiveMessage), [])
      else
        var found := Candidates(gem, dep, o, w);
        if |found.specs| == 0 then
          Run(NoMatch(dep, "No gem matching '" + w.describe(dep) + "' found", NoMatchStatus), found.trace)
        else
          match RenderEach(Select(found.specs, o.all), field, o.format, w)
          case Done(us) => Run(Rendered(us), found.trace)
          case Raised(fld, said) => Run(UnknownField(fld, said), found.trace)
  }
}

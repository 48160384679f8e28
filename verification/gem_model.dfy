/** The values the `gem specification` command works on: the parsed options,
    the dependency it builds, the specifications it finds, and the
    collaborators it consults (the file system, the package reader, the
    installed index, the remote fetcher and the reflective field lookup),
    which are passed in as plain functions. */
module GemModel {

  datatype Option<+T> = None | Some(value: T)

  /** A version requirement. `AnyVersion` is `Gem::Requirement.default`,
      the only requirement for which `none?` holds. */
  datatype Requirement = AnyVersion | Constrained(text: string) {
    predicate IsNone() {
      AnyVersion?
    }
  }

  /** `Gem::Dependency.new gem, options[:version]`: the name (or path) typed
      on the command line and the requirement option, absent when unset. */
  datatype Dependency = Dependency(name: string, requirement: Option<Requirement>)

  /** A gem specification: its name, its platform and its version. The
      version is a key of the version order (the order of `Gem::Version`
      is a total order that the key stands for); the command itself only
      inspects the version. Two specifications with equal fields are the
      same value, wherever they were found. */
  datatype Spec = Spec(name: string, version: nat, platform: string)

  /** The opaque value `s.send field` returns. */
  datatype Attribute = Attribute(repr: string)

  /** Where the remote fetcher found a specification; the command drops it. */
  datatype Source = Source(uri: string)

  /** The `:format` option. The option parser only ever stores `:yaml`,
      `:ruby` or `:marshal`; any other symbol falls to the YAML branch. */
  datatype Format = Yaml | Ruby | Marshal | OtherFormat(symbol: string)

  /** The command's options after parsing. `local` and `remote` are the
      answers of `local?` and `remote?`. */
  datatype Options = Options(
    args: seq<string>,
    version: Option<Requirement>,
    prerelease: bool,
    all: bool,
    format: Format,
    local: bool,
    remote: bool)

  /** The options `initialize` installs before any flag is parsed:
      the local domain, the default requirement and the YAML format. */
  function DefaultOptions(args: seq<string>): (o: Options)
    ensures o.args == args
    ensures o.local && !o.remote
    ensures o.version == Some(AnyVersion) && o.version.value.IsNone()
    ensures o.format == Yaml && !o.all && !o.prerelease
    ensures WellFormed(o)
  {
    Options(args, Some(AnyVersion), false, false, Yaml, true, false)
  }

  /** Options a command line can produce: a format symbol outside the
      three the parser stores is not one of their names, a constrained
      requirement is not the default `>= 0` spelled out, and at least one
      of `local?` and `remote?` holds, as every `:domain` value gives. */
  predicate WellFormed(o: Options) {
    && (o.format.OtherFormat? ==> o.format.symbol !in {"ruby", "marshal", "yaml"})
    && (o.version.Some? && o.version.value.Constrained? ==> o.version.value.text != ">= 0")
    && (o.local || o.remote)
  }

  /** The collaborators of the command, as total functions.
      `readPackage(path)` is `None` when `Gem::Package.new(path).spec`
      raises; `send(s, f)` is `None` when the specification has no
      method `f`; `describe` is `Dependency#to_s`. */
  datatype World = World(
    fileExists: string -> bool,
    readPackage: string -> Option<Spec>,
    matchingSpecs: Dependency -> seq<Spec>,
    fetch: (Dependency, bool) -> seq<(Spec, Source)>,
    send: (Spec, string) -> Option<Attribute>,
    describe: Dependency -> string)

  /** One consultation of a collaborator that looks for specifications. */
  datatype Consult =
    | FileExists(path: string)
    | ReadPackage(path: string)
    | MatchingSpecs(dep: Dependency)
    | Fetch(dep: Dependency, prerelease: bool)
  {
    predicate IsLocal() {
      !Fetch?
    }
  }
}

# `gem specification`, modelled in Dafny

A model of `Gem::Commands::SpecificationCommand#execute` from RubyGems: the
command that, given a gem name or a path to a `.gem` archive, an optional
FIELD and some flags, finds candidate specifications locally and/or
remotely, keeps the newest one unless `--all` is given, and prints each
chosen specification (or one field of it) as YAML, Ruby or Marshal data,
each followed by a blank line.

The model is functional. `Execute(o, w)` takes the parsed options `o` and a
`World` `w` of collaborators and returns the outcome (a usage error, the
"No gem matching" failure with its exit status, a field lookup that
raised, or the rendered units) together with the trace of collaborators
consulted, in order.

Files:

- `gem_model.dfy` (`GemModel`): options and their defaults, dependency,
  specification, version requirement, formats, the collaborators and the
  trace entries.
- `version_order.dfy` (`VersionOrder`): `sort_by { |s| s.version }.last` as a
  stable insertion sort by version and its last element.
- `specification_command.dfy` (`SpecificationCommand`): the steps of
  `execute` and `Execute` itself.
- `specification_properties.dfy` (`SpecificationProperties`): properties
  that relate the steps to the whole command, and three concrete scenarios.

Collaborators are inputs. `fileExists` is `File.exist?`. `readPackage` is
`Gem::Package.new(gem).spec`; it yields `None` when that raises, since
the command rescues the error. `matchingSpecs` is
`Gem::Dependency#matching_specs`. `fetch(dep, prerelease)` is
`Gem::SpecFetcher.fetcher.fetch dep, false, false, prerelease`; it
returns (specification, source) pairs. `send(s, field)` is `s.send field`;
it yields `None` when the specification has no such method. `describe` is
`Dependency#to_s`, used in the alert text. A version is a `nat` key that
stands for the total order of `Gem::Version`. The requirement `AnyVersion`
is `Gem::Requirement.default`, the only requirement whose `none?` holds.
`local?` and `remote?` are two booleans in the options.

The default domain follows the code, which is `:domain => :local`
(specification_command.rb:15). `DefaultOptions` therefore enables only the
local source.

Tie policy: `Latest` is the last element of a stable sort by version. Of
several candidates with the highest version, the one found last wins, so a
remote candidate beats a local one (`LatestIsLastHighest`). A `Spec` is a
plain value, so a local and a remote copy with equal name, version and
platform are the same value and that preference cannot be observed for
them. Ruby's `sort_by` is not stable, so the program does not promise
this choice. `NewestOnlyWithoutAll` states what the program promises: the
chosen candidate is one of the candidates, and its version is at least
every candidate's. `ModelTieChoiceWithoutAll` states the model's own tie
policy separately.

## Model

| member | source | states |
|---|---|---|
| `GemModel.DefaultOptions` | lib/rubygems/commands/specification_command.rb:14-16 | The defaults `initialize` installs: local domain only, the default requirement (for which `none?` holds), YAML format, no `--all`, no prerelease. They are well-formed options. |
| `SpecificationCommand.GemArgument` | lib/rubygems/commands/specification_command.rb:59 | `options[:args].shift` yields a gem exactly when there is at least one argument, and then it is the first argument. |
| `SpecificationCommand.FieldArgument` | lib/rubygems/commands/specification_command.rb:68 | After the shift, `get_one_optional_argument` yields FIELD exactly when there is a second argument, and then it is that argument. |
| `SpecificationCommand.RemoteCandidates` | lib/rubygems/commands/specification_command.rb:83-95 | The remote branch makes exactly one fetch, for the dependency, with the flag `RemotePrerelease` picks. Its candidates are the specs of the fetched pairs. |
| `SpecificationProperties.WellFormedConsultsASource` | lib/rubygems/commands/specification_command.rb:73-95 | For options a command line can produce, once the arguments pass, some source is consulted. The first consultation is `File.exist?` when local lookup is on, otherwise the remote fetch. |
| `SpecificationCommand.Execute` | lib/rubygems/commands/specification_command.rb:57-117 | No argument gives the "Please specify" usage error with an empty trace. FIELD together with `--ruby` gives the "mutually exclusive" usage error with an empty trace. A usage error happens exactly in those two cases. A disabled source is never consulted. A no-match outcome carries status 1. |
| `SpecificationProperties.UsageErrorConsultsNothing` | lib/rubygems/commands/specification_command.rb:59-71 | A usage error happens exactly when the command line is rejected. It happens before any file, index or fetcher is consulted. |
| `SpecificationCommand.LocalCandidates` | lib/rubygems/commands/specification_command.rb:73-81 | `File.exist?` is asked first. The archive is read exactly when the file exists. The index is consulted exactly when there is no readable archive, and then it supplies the candidates. Otherwise the archive's spec is the only candidate. |
| `SpecificationProperties.ArchiveShadowsIndex` | lib/rubygems/commands/specification_command.rb:73-81 | Seen from the whole command: a readable archive is the first candidate and the index is not asked. Otherwise the index's matches lead the candidate list and the index appears in the trace. |
| `SpecificationCommand.RemotePrerelease` | lib/rubygems/commands/specification_command.rb:84-92 | The fetcher gets the user's prerelease flag when the requirement is unset or unconstrained, and `true` when it is constrained. So it only gets `false` when the user did not ask for prereleases. |
| `SpecificationProperties.RemotePrereleasePolicy` | lib/rubygems/commands/specification_command.rb:83-92 | When the remote source is on, the trace shows exactly one kind of fetch: for this dependency, with the prerelease flag the policy dictates. |
| `SpecificationCommand.SpecsOf` | lib/rubygems/commands/specification_command.rb:94 | Keeps the specification of each fetched (spec, source) pair, in order and with nothing dropped. |
| `SpecificationCommand.Candidates` | lib/rubygems/commands/specification_command.rb:73-95 | The candidates are the local results followed by the remote results, and the trace is ordered the same way. A disabled source contributes nothing. |
| `SpecificationProperties.CandidatesLocalThenRemote` | lib/rubygems/commands/specification_command.rb:73-95 | The candidate count is the local count plus the fetched count. The local results form a prefix. Each fetched spec sits at its own offset after them, with no de-duplication and no re-sorting. |
| `SpecificationProperties.NoMatchExactlyWhenNoCandidates` | lib/rubygems/commands/specification_command.rb:97-100 | Once the arguments are accepted, the outcome is the no-match failure if and only if the candidate list is empty. The alert is "No gem matching '<dep>' found" and the status is 1. |
| `VersionOrder.SortByVersion` | lib/rubygems/commands/specification_command.rb:103 | The result is ordered by version and is a permutation of its input (same multiset). |
| `VersionOrder.Latest` | lib/rubygems/commands/specification_command.rb:103 | The last element of the sorted candidates is a candidate, and its version is at least every candidate's version. |
| `VersionOrder.LatestIsUniqueHighest` | lib/rubygems/commands/specification_command.rb:102-104 | A candidate that is strictly newer than all others is the one chosen. |
| `VersionOrder.LastHighest` | lib/rubygems/commands/specification_command.rb:103 | A reference choice: a highest-version candidate with no later candidate of the same version. |
| `VersionOrder.LatestIsLastHighest` | lib/rubygems/commands/specification_command.rb:103 | The sorted-then-last choice equals the reference choice. On a tie, the candidate found last wins. |
| `SpecificationCommand.Select` | lib/rubygems/commands/specification_command.rb:102-104 | With `--all`, the candidates are returned unchanged. Otherwise exactly one candidate of the highest version is returned. |
| `SpecificationProperties.NewestOnlyWithoutAll` | lib/rubygems/commands/specification_command.rb:102-104 | Without `--all`, a rendered outcome has exactly one unit. That unit comes from a candidate whose version is at least every candidate's. |
| `SpecificationProperties.ModelTieChoiceWithoutAll` | lib/rubygems/commands/specification_command.rb:103 | The model's tie policy, not the program's: without `--all`, the unit shown is for the last candidate of the highest version. |
| `SpecificationProperties.EveryCandidateWithAll` | lib/rubygems/commands/specification_command.rb:102-116 | With `--all`, a rendered outcome has one unit per candidate, in candidate order. |
| `SpecificationCommand.EncoderFor` | lib/rubygems/commands/specification_command.rb:109-113 | `:ruby` selects `to_ruby` and only it does. `:marshal` selects `Marshal.dump` and only it does. Every other format, `:yaml` included, selects `to_yaml`. |
| `SpecificationCommand.Project` | lib/rubygems/commands/specification_command.rb:107 | Without FIELD, the whole spec is shown. With FIELD, the projection succeeds exactly when `send` does and shows that field of that spec. |
| `SpecificationCommand.RenderEach` | lib/rubygems/commands/specification_command.rb:106-116 | Rendering completes exactly when every spec projects. It then yields one unit per spec, in order, each encoded by the format and followed by "\n". If a lookup raises, the units already said stand and the next spec is the one lacking the field. |
| `SpecificationProperties.UnitsFollowFormat` | lib/rubygems/commands/specification_command.rb:106-116 | Every rendered unit ends in "\n" and uses the format's encoder. `to_ruby` only ever sees whole specs. Without FIELD, every unit is a whole spec. A rendered outcome is never empty. |
| `SpecificationProperties.MissingFieldStopsOutput` | lib/rubygems/commands/specification_command.rb:106-107 | A raising field lookup names FIELD. It is preceded by one field unit per earlier chosen spec and stops at the first spec without the field. |
| `SpecificationProperties.DefaultsStayLocal` | lib/rubygems/commands/specification_command.rb:14-16 | Under the defaults (local domain, default requirement, YAML), only local collaborators are consulted and every unit is YAML. |
| `SpecificationProperties.NewerOfTwoInstalledVersions` | lib/rubygems/commands/specification_command.rb:102-104 | Widget 1.0.0 and 2.0.0 are installed and the defaults are used. The output is exactly one YAML unit, for 2.0.0. |
| `SpecificationProperties.BothInstalledVersionsWithAll` | lib/rubygems/commands/specification_command.rb:102-116 | The same store with `--all`. The output is two YAML units in the index's order. |
| `SpecificationProperties.UnknownGemReportsNoMatch` | lib/rubygems/commands/specification_command.rb:97-100 | A gem no source knows yields the no-match alert naming it, with status 1. |

## Left out

- Option registration, help text, `arguments`, `usage` and `defaults_str` (lines 17-55) are command-line plumbing. Only the defaults set at lines 14-16 are kept (`DefaultOptions`).
- `Gem.load_yaml` (line 12) is a library load with no effect on the selection.
- The platform option (line 19) only sets global platform state that the index and fetcher read. Here it is part of those collaborators.
- How `local?` and `remote?` follow from the `:domain` option is not part of this model. They are two booleans. `DefaultOptions` takes `:local` to mean local only. Both booleans false matches no `:domain` value. `WellFormed` excludes that case, but `Execute` also accepts it (it then consults nothing and reports no match).
- `OtherFormat` with the symbol `ruby`, `marshal` or `yaml` matches no option the parser stores, and `Execute` would treat it as YAML. `WellFormed` excludes these values. The other properties do not assume it.
- `Gem::Requirement` is not modelled beyond `none?`. A requirement is either the default one or an opaque constrained one. The text of a `Constrained` requirement is not parsed. A constrained requirement that is equal to the default, such as `>= 0`, would wrongly force prerelease `true`. `WellFormed` excludes the literal `>= 0`; other spellings of the default are not recognised.
- The archive reader, `File.exist?`, the installed index, the remote fetcher and `Dependency#to_s` are inputs of the model, not code in it. The fetcher's second and third arguments (both `false`) are not recorded in the trace.
- A network failure inside the fetcher is not modelled. In the source it propagates as an exception. In the model the fetcher is a total function.
- `Gem::Version` ordering is a `nat` key, so prerelease ordering is part of the key and is not derived here.
- `to_yaml`, `to_ruby` and `Marshal.dump` are opaque. Only which encoder is chosen is modelled.
- The value `s.send field` returns is an opaque `Attribute`.
- `say`, `alert_error` and `terminate_interaction` are represented by the outcome values, not by output or process exit.
- Tie-breaking among equal versions: Ruby's `sort_by` is unstable, so the source does not promise which of several highest-version candidates is printed. The model fixes one choice (the last such candidate). `NewestOnlyWithoutAll` promises only membership and maximality; `ModelTieChoiceWithoutAll` states the fixed choice as model policy.

/**
  Compilation evidence as untyped JSON records, exactly as the Python checks
  read them, and the ordered chain of distinct invocations that acceptance
  implies.  A check that raises, for whatever reason, refuses the record.
 */
module Evidence {
  import opened Common
  import opened Pointer

  const MAX_LIBRARY_ARCHIVE := 2 * 1024 * 1024 * 1024
  const MAX_COMPILED_ARCHIVE := 4 * 1024 * 1024 * 1024

  /** `value.get(key)`: null when absent. */
  function Get(value: Json, key: string): Json {
    if value.Obj? && key in value.fields then value.fields[key] else Null
  }

  predicate HasFields(value: Json, names: set<string>) {
    value.Obj? && value.fields.Keys == names
  }

  /** Python truth of a JSON value. */
  predicate Truthy(value: Json) {
    match value
    case Null => false
    case Bool(b) => b
    case Number(n) => n != 0
    case Str(s) => s != ""
    case Arr(items) => items != []
    case Obj(fields) => fields != map[]
  }

  predicate IsHex64(value: Json) {
    value.Str? && |value.s| == 64 && forall i | 0 <= i < 64 :: value.s[i] in "0123456789abcdef"
  }

  // ----- observations -----

  function Started(observation: Json): int {
    var v := Get(observation, "started_unix_nanos");
    if v.Number? then v.n else 0
  }

  function Finished(observation: Json): int {
    var v := Get(observation, "finished_unix_nanos");
    if v.Number? then v.n else 0
  }

  function Invocation(observation: Json): Json {
    Get(observation, "invocation")
  }

  /** Host, invocation and an ordered pair of positive integer times. */
  predicate TimedObservation(observation: Json) {
    && observation.Obj?
    && Truthy(Get(observation, "host")) && Truthy(Invocation(observation))
    && Get(observation, "started_unix_nanos").Number? && Get(observation, "finished_unix_nanos").Number?
    && 0 < Started(observation) <= Finished(observation)
  }

  /** A distinct invocation that began only after the first had finished. */
  predicate Later(first: Json, last: Json) {
    Invocation(first) != Invocation(last) && Finished(first) <= Started(last)
  }

  function Package(binary: string): Option<string> {
    if binary == "peritusd" then Some("peritus-daemon")
    else if binary == "peritus" then Some("peritus-cli")
    else None
  }

  datatype Phase = Library | Binary

  function CargoArguments(phase: Phase, binary: string, system: Json): seq<string> {
    var package := if Package(binary).Some? then Package(binary).value else "";
    if phase.Binary? && system == Str("Windows") then
      ["cargo", "rustc", "--release", "--locked", "--package", package, "--bin", binary, "--", "-C", "link-arg=/Brepro"]
    else
      ["cargo", "build", "--release", "--locked", "--package", package]
      + if phase.Library? then ["--lib"] else ["--bin", binary]
  }

  function Strings(s: seq<string>): Json {
    Arr(seq(|s|, i requires 0 <= i < |s| => Str(s[i])))
  }

  predicate ObservationOk(observation: Json, phase: Phase, binary: string, system: Json) {
    && TimedObservation(observation)
    && Package(binary).Some?
    && Get(observation, "command") == Strings(CargoArguments(phase, binary, system))
  }

  // ----- library records -----

  /** The same binding, for the daemon package. */
  function DaemonBinding(binding: Json): Json {
    if binding.Obj? then Obj(binding.fields["package" := Str("peritus-daemon")]["binary" := Str("peritusd")]) else binding
  }

  const LIBRARY_FIELDS := {"schema_version", "kind", "binding", "observation",
                           "archive_byte_length", "archive_sha256", "previous_library"}

  predicate LibraryHeader(record: Json, expected: Json) {
    && HasFields(record, LIBRARY_FIELDS)
    && Get(record, "schema_version") == Number(2)
    && Get(record, "kind") == Str("native-release-library-compilation")
    && Get(record, "binding") == expected
    && Get(record, "archive_byte_length").Number?
    && 0 < Get(record, "archive_byte_length").n <= MAX_LIBRARY_ARCHIVE
    && IsHex64(Get(record, "archive_sha256"))
  }

  /** `validate_record`: a daemon library stands alone; any other rests on a daemon library built before it. */
  predicate LibraryOk(record: Json, expected: Json)
    decreases if Get(expected, "binary") == Str("peritusd") then 0 else 1
  {
    var binary, previous := Get(expected, "binary"), Get(record, "previous_library");
    && LibraryHeader(record, expected)
    && binary.Str? && ObservationOk(Get(record, "observation"), Library, binary.s, Null)
    && (if binary == Str("peritusd") then previous == Null
        else expected.Obj? && LibraryOk(previous, DaemonBinding(expected))
             && Later(Get(previous, "observation"), Get(record, "observation")))
  }

  // ----- binary records -----

  const BINARY_FIELDS := {"schema_version", "kind", "binding", "library", "observation", "binary"}
  const BINDING_FIELDS := {"candidate", "environment", "role", "package", "binary", "workflow"}

  predicate BinaryOk(record: Json, candidate: Json, role: Json, observed: Json, binary: string) {
    var bound, library, observation := Get(record, "binding"), Get(record, "library"), Get(record, "observation");
    && Package(binary).Some?
    && HasFields(record, BINARY_FIELDS)
    && Get(record, "schema_version") == Number(3)
    && Get(record, "kind") == Str("native-release-binary-compilation")
    && HasFields(bound, BINDING_FIELDS)
    && Get(bound, "candidate") == candidate && Get(bound, "role") == role
    && Get(bound, "package") == Str(Package(binary).value) && Get(bound, "binary") == Str(binary)
    && LibraryOk(library, bound)
    && Get(bound, "environment").Obj?
    && ObservationOk(observation, Binary, binary, Get(Get(bound, "environment"), "system"))
    && Later(Get(library, "observation"), observation)
    && (Get(library, "previous_library") != Null ==>
          Later(Get(Get(library, "previous_library"), "observation"), observation))
    && Get(record, "binary") == observed
  }

  /** What the assembling host says of itself; the workflow is only compared when there is one. */
  datatype Host = Host(rustc: Json, imageVersion: Json, workflow: Option<map<string, Json>>)

  function LowerAscii(s: string): string {
    seq(|s|, i requires 0 <= i < |s| => if 'A' <= s[i] <= 'Z' then s[i] + ' ' else s[i])
  }

  /** The non-Windows environment check: missing keys raise, and an incomplete workflow is refused. */
  predicate EnvironmentOk(bound: Json, host: Host) {
    var environment := Get(bound, "environment");
    && environment.Obj? && {"system", "machine", "rustc", "image_version"} <= environment.fields.Keys
    && Get(environment, "system") == Str("Darwin")
    && Get(environment, "machine").Str? && LowerAscii(Get(environment, "machine").s) == "x86_64"
    && Get(environment, "rustc") == host.rustc
    && Get(environment, "image_version") == host.imageVersion
    && (host.workflow.Some? ==>
          (forall key | key in host.workflow.value :: Truthy(host.workflow.value[key]))
          && Get(bound, "workflow") == Obj(host.workflow.value))
  }

  /** The two-binary case: both records, and one daemon library under both. */
  predicate EvidenceOk(records: Json, observed: map<string, Json>, candidate: Json, role: Json, host: Host) {
    var daemon, cli := Get(records, "peritusd"), Get(records, "peritus");
    && HasFields(records, {"peritusd", "peritus"})
    && observed.Keys == {"peritusd", "peritus"}
    && BinaryOk(daemon, candidate, role, observed["peritusd"], "peritusd") && EnvironmentOk(Get(daemon, "binding"), host)
    && BinaryOk(cli, candidate, role, observed["peritus"], "peritus") && EnvironmentOk(Get(cli, "binding"), host)
    && Get(daemon, "library") == Get(Get(cli, "library"), "previous_library")
    && Invocation(Get(daemon, "observation")) != Invocation(Get(cli, "observation"))
    && Invocation(Get(daemon, "observation")) != Invocation(Get(Get(cli, "library"), "observation"))
  }

  // ----- what acceptance implies -----

  ghost predicate PairwiseDistinct<T>(invocations: seq<T>) {
    forall i, j :: 0 <= i < j < |invocations| ==> invocations[i] != invocations[j]
  }

  lemma FourDistinct<T>(a: T, b: T, c: T, d: T)
    ensures PairwiseDistinct([a, b, c, d]) <==> a != b && a != c && a != d && b != c && b != d && c != d
  {
    var all := [a, b, c, d];
    assert all[0] == a && all[1] == b && all[2] == c && all[3] == d;
  }

  lemma DaemonLibraryStandsAlone(record: Json, expected: Json)
    requires LibraryOk(record, expected) && Get(expected, "binary") == Str("peritusd")
    ensures Get(record, "previous_library") == Null && TimedObservation(Get(record, "observation"))
  {
  }

  lemma CliLibraryRestsOnDaemon(record: Json, expected: Json)
    requires LibraryOk(record, expected) && Get(expected, "binary") == Str("peritus")
    ensures var previous := Get(record, "previous_library");
            && previous != Null
            && Get(previous, "binding") == DaemonBinding(expected)
            && TimedObservation(Get(previous, "observation")) && TimedObservation(Get(record, "observation"))
            && Later(Get(previous, "observation"), Get(record, "observation"))
  {
  }

  /**
    Accepted evidence consists of four compilations with pairwise distinct invocations: the daemon
    library before the CLI library before the CLI binary, and the daemon library before the daemon binary.
   */
  lemma AcceptedEvidenceIsAChain(records: Json, observed: map<string, Json>, candidate: Json, role: Json, host: Host)
    requires EvidenceOk(records, observed, candidate, role, host)
    ensures var daemon, cli := Get(records, "peritusd"), Get(records, "peritus");
            var daemonLibrary, cliLibrary := Get(Get(daemon, "library"), "observation"), Get(Get(cli, "library"), "observation");
            var daemonBinary, cliBinary := Get(daemon, "observation"), Get(cli, "observation");
            && (forall o | o in [daemonLibrary, cliLibrary, daemonBinary, cliBinary] :: TimedObservation(o))
            && PairwiseDistinct([Invocation(daemonLibrary), Invocation(cliLibrary),
                                 Invocation(daemonBinary), Invocation(cliBinary)])
            && Finished(daemonLibrary) <= Started(cliLibrary) && Finished(cliLibrary) <= Started(cliBinary)
            && Finished(daemonLibrary) <= Started(daemonBinary)
  {
    hide LibraryOk, CargoArguments, Strings, LibraryHeader, DaemonBinding, EnvironmentOk, HasFields, PairwiseDistinct, Invocation,
      Started, Finished, Truthy;
    var daemon, cli := Get(records, "peritusd"), Get(records, "peritus");
    assert ObservationOk(Get(daemon, "observation"), Binary, "peritusd", Get(Get(Get(daemon, "binding"), "environment"), "system"));
    DaemonLibraryStandsAlone(Get(daemon, "library"), Get(daemon, "binding"));
    CliLibraryRestsOnDaemon(Get(cli, "library"), Get(cli, "binding"));
    FourDistinct(Invocation(Get(Get(daemon, "library"), "observation")), Invocation(Get(Get(cli, "library"), "observation")),
                 Invocation(Get(daemon, "observation")), Invocation(Get(cli, "observation")));
  }

  /**
    Since both binaries rest on the one daemon library, they were compiled for the same candidate,
    role, workflow and environment; only the package and the binary differ.
   */
  lemma AcceptedEvidenceSharesEnvironment(records: Json, observed: map<string, Json>, candidate: Json, role: Json, host: Host)
    requires EvidenceOk(records, observed, candidate, role, host)
    ensures var daemon, cli := Get(Get(records, "peritusd"), "binding"), Get(Get(records, "peritus"), "binding");
            daemon == DaemonBinding(cli)
            && forall key | key in {"candidate", "environment", "role", "workflow"} :: Get(daemon, key) == Get(cli, key)
  {
    hide TimedObservation, CargoArguments, Strings;
    var daemon, cli := Get(records, "peritusd"), Get(records, "peritus");
    CliLibraryRestsOnDaemon(Get(cli, "library"), Get(cli, "binding"));
    assert LibraryHeader(Get(daemon, "library"), Get(daemon, "binding"));
  }

  lemma DaemonLibrarySays(record: Json, expected: Json)
    requires LibraryOk(record, expected) && Get(expected, "binary") == Str("peritusd")
    ensures Get(record, "binding") == expected
    ensures Get(Get(record, "observation"), "command") ==
            Strings(["cargo", "build", "--release", "--locked", "--package", "peritus-daemon", "--lib"])
    ensures Get(record, "archive_byte_length").Number? && 0 < Get(record, "archive_byte_length").n <= 2147483648
  {
    var all := ["cargo", "build", "--release", "--locked", "--package", "peritus-daemon", "--lib"];
    assert CargoArguments(Library, "peritusd", Null) == all;
  }

  lemma CliLibrarySays(record: Json, expected: Json)
    requires LibraryOk(record, expected) && Get(expected, "binary") == Str("peritus")
    ensures Get(record, "binding") == expected
    ensures Get(Get(record, "observation"), "command") ==
            Strings(["cargo", "build", "--release", "--locked", "--package", "peritus-cli", "--lib"])
    ensures Get(record, "archive_byte_length").Number? && 0 < Get(record, "archive_byte_length").n <= 2147483648
  {
    var all := ["cargo", "build", "--release", "--locked", "--package", "peritus-cli", "--lib"];
    assert CargoArguments(Library, "peritus", Null) == all;
  }

  /** A binary is compiled by the release command of its package, on Windows with reproducible linking. */
  lemma AcceptedBinaryCommand(record: Json, candidate: Json, role: Json, observed: Json, binary: string)
    requires BinaryOk(record, candidate, role, observed, binary)
    ensures binary == "peritusd" || binary == "peritus"
    ensures var package := if binary == "peritusd" then "peritus-daemon" else "peritus-cli";
            Get(Get(record, "observation"), "command") ==
            Strings(if Get(Get(Get(record, "binding"), "environment"), "system") == Str("Windows")
                    then ["cargo", "rustc", "--release", "--locked", "--package", package, "--bin", binary, "--", "-C", "link-arg=/Brepro"]
                    else ["cargo", "build", "--release", "--locked", "--package", package, "--bin", binary])
  {
    hide LibraryOk, TimedObservation, Later, Strings;
    var package := if binary == "peritusd" then "peritus-daemon" else "peritus-cli";
    assert ["cargo", "build", "--release", "--locked", "--package", package] + ["--bin", binary]
           == ["cargo", "build", "--release", "--locked", "--package", package, "--bin", binary];
  }

  /**
    What accepted evidence vouches for: exactly the observed products, for exactly the candidate and
    role asked for, each compiled by the release command of its own package.
   */
  lemma AcceptedEvidenceNamesProducts(records: Json, observed: map<string, Json>, candidate: Json, role: Json, host: Host)
    requires EvidenceOk(records, observed, candidate, role, host)
    ensures var daemon, cli := Get(records, "peritusd"), Get(records, "peritus");
            && observed == map["peritusd" := Get(daemon, "binary"), "peritus" := Get(cli, "binary")]
            && (forall record | record in [daemon, cli] ::
                  Get(Get(record, "binding"), "candidate") == candidate && Get(Get(record, "binding"), "role") == role)
            && Get(Get(daemon, "observation"), "command") ==
               Strings(["cargo", "build", "--release", "--locked", "--package", "peritus-daemon", "--bin", "peritusd"])
            && Get(Get(cli, "observation"), "command") ==
               Strings(["cargo", "build", "--release", "--locked", "--package", "peritus-cli", "--bin", "peritus"])
            && Get(Get(Get(daemon, "library"), "observation"), "command") ==
               Strings(["cargo", "build", "--release", "--locked", "--package", "peritus-daemon", "--lib"])
            && Get(Get(Get(cli, "library"), "observation"), "command") ==
               Strings(["cargo", "build", "--release", "--locked", "--package", "peritus-cli", "--lib"])
  {
    hide LibraryOk, LibraryHeader, DaemonBinding, TimedObservation, Later, Strings;
    var daemon, cli := Get(records, "peritusd"), Get(records, "peritus");
    DaemonLibrarySays(Get(daemon, "library"), Get(daemon, "binding"));
    CliLibrarySays(Get(cli, "library"), Get(cli, "binding"));
    assert observed.Keys == {"peritusd", "peritus"};
    AcceptedBinaryCommand(daemon, candidate, role, observed["peritusd"], "peritusd");
    AcceptedBinaryCommand(cli, candidate, role, observed["peritus"], "peritus");
  }

  // ----- packaged compilations -----

  datatype Stage = Release | Checks

  const COMPILED_FIELDS := {"schema_version", "kind", "binding", "stage", "previous_compilation",
                            "compile_observation", "archive_sha256", "archive_byte_length"}

  function StageName(stage: Stage): string {
    if stage.Release? then "release" else "checks"
  }

  predicate CompiledHeader(record: Json, expected: Json, stage: Stage) {
    var observation := Get(record, "compile_observation");
    && HasFields(record, COMPILED_FIELDS)
    && Get(record, "schema_version") == Number(2)
    && Get(record, "kind") == Str("native-distribution-compilation")
    && Get(record, "binding") == expected
    && Get(record, "stage") == Str(StageName(stage))
    && IsHex64(Get(record, "archive_sha256"))
    && Get(record, "archive_byte_length").Number?
    && 0 < Get(record, "archive_byte_length").n <= MAX_COMPILED_ARCHIVE
    && expected.Obj? && "cargo_build_jobs" in expected.fields
    && Get(observation, "cargo_build_jobs") == expected.fields["cargo_build_jobs"]
    && TimedObservation(observation)
  }

  predicate CompiledOk(record: Json, expected: Json, stage: Stage)
    decreases if stage.Release? then 0 else 1
  {
    var previous := Get(record, "previous_compilation");
    && CompiledHeader(record, expected, stage)
    && (match stage
        case Release => previous == Null
        case Checks =>
          && Get(expected, "format") == Str("rpm")
          && CompiledOk(previous, expected, Release)
          && Later(Get(previous, "compile_observation"), Get(record, "compile_observation")))
  }

  /** The compilations a record rests on, itself last. */
  function CompiledChain(record: Json, stage: Stage): seq<Json> {
    if stage.Release? then [record] else [Get(record, "previous_compilation"), record]
  }

  /** An accepted record is a chain for one binding, release first, of distinct invocations each begun after the last. */
  lemma AcceptedCompilationIsAChain(record: Json, expected: Json, stage: Stage)
    requires CompiledOk(record, expected, stage)
    ensures var chain := CompiledChain(record, stage);
            && Last(chain) == record
            && Get(chain[0], "stage") == Str("release") && Get(chain[0], "previous_compilation") == Null
            && (forall i | 0 <= i < |chain| :: Get(chain[i], "binding") == expected
                                               && TimedObservation(Get(chain[i], "compile_observation")))
            && (forall i, j :: 0 <= i < j < |chain| ==>
                  Later(Get(chain[i], "compile_observation"), Get(chain[j], "compile_observation")))
            && (stage.Checks? ==> Get(expected, "format") == Str("rpm"))
  {
  }
}

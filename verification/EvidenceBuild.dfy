/**
  The records that a two-binary build writes, and the other direction of the
  evidence check: what an honest build on one site wrote is accepted exactly
  when its four compilations form the required chain.
 */
module EvidenceBuild {
  import opened Pointer
  import opened Evidence

  /** One observed run of Cargo. */
  datatype Compilation = Compilation(host: string, invocation: string, started: nat, finished: nat, job: Json)

  /** What both bindings of one role have in common. */
  datatype Site = Site(candidate: Json, environment: map<string, Json>, role: Json, workflow: Json)

  datatype Archived = Archived(length: nat, sha256: string)

  predicate Ran(c: Compilation) {
    c.host != "" && c.invocation != "" && 0 < c.started <= c.finished
  }

  /** Sixty-four lower-case hexadecimal digits. */
  ghost predicate Digest(s: string) {
    |s| == 64 && forall c | c in s :: '0' <= c <= '9' || 'a' <= c <= 'f'
  }

  /** Not empty, and at most two gibibytes. */
  ghost predicate Kept(a: Archived) {
    0 < a.length <= 2_147_483_648 && Digest(a.sha256)
  }

  lemma DigestIsHex(s: string)
    ensures IsHex64(Str(s)) <==> Digest(s)
  {
    assert forall i | 0 <= i < |s| :: s[i] in s;
    forall c: char ensures c in "0123456789abcdef" <==> '0' <= c <= '9' || 'a' <= c <= 'f' { HexDigit(c); }
  }

  lemma HexDigit(c: char)
    ensures c in "0123456789abcdef" <==> '0' <= c <= '9' || 'a' <= c <= 'f'
  {
  }

  function Observed(c: Compilation, phase: Phase, binary: string, system: Json): Json {
    Obj(map["host" := Str(c.host), "invocation" := Str(c.invocation),
            "started_unix_nanos" := Number(c.started), "finished_unix_nanos" := Number(c.finished),
            "command" := Strings(CargoArguments(phase, binary, system)), "workflow_job" := c.job])
  }

  function Binding(site: Site, binary: string): Json
    requires Package(binary).Some?
  {
    Obj(map["candidate" := site.candidate, "environment" := Obj(site.environment), "role" := site.role,
            "package" := Str(Package(binary).value), "binary" := Str(binary), "workflow" := site.workflow])
  }

  function LibraryRecord(binding: Json, observation: Json, previous: Json, archive: Archived): Json {
    Obj(map["schema_version" := Number(2), "kind" := Str("native-release-library-compilation"),
            "binding" := binding, "observation" := observation, "previous_library" := previous,
            "archive_byte_length" := Number(archive.length), "archive_sha256" := Str(archive.sha256)])
  }

  function BinaryRecord(binding: Json, library: Json, observation: Json, product: Json): Json {
    Obj(map["schema_version" := Number(3), "kind" := Str("native-release-binary-compilation"),
            "binding" := binding, "library" := library, "observation" := observation, "binary" := product])
  }

  function System(site: Site): Json {
    Get(Obj(site.environment), "system")
  }

  function DaemonLibrary(site: Site, c: Compilation, archive: Archived): Json {
    LibraryRecord(Binding(site, "peritusd"), Observed(c, Library, "peritusd", System(site)), Null, archive)
  }

  /** The CLI stage restores the daemon libraries of its role and compiles on top of them. */
  function CliLibrary(site: Site, c: Compilation, archive: Archived, daemon: Json): Json {
    LibraryRecord(Binding(site, "peritus"), Observed(c, Library, "peritus", System(site)), daemon, archive)
  }

  function Product(site: Site, binary: string, library: Json, c: Compilation, product: Json): Json
    requires Package(binary).Some?
  {
    BinaryRecord(Binding(site, binary), library, Observed(c, Binary, binary, System(site)), product)
  }

  predicate Before(a: Compilation, b: Compilation) {
    a.invocation != b.invocation && a.finished <= b.started
  }

  lemma ObservedIsOk(c: Compilation, phase: Phase, binary: string, system: Json, required: Json)
    requires Package(binary).Some? && (phase.Binary? ==> required == system)
    ensures ObservationOk(Observed(c, phase, binary, system), phase, binary, required) <==> Ran(c)
  {
  }

  lemma LaterObserved(a: Compilation, p: Phase, b: string, c: Compilation, q: Phase, d: string, system: Json)
    ensures Later(Observed(a, p, b, system), Observed(c, q, d, system)) <==> Before(a, c)
  {
  }

  lemma DaemonBindingOfCli(site: Site)
    ensures DaemonBinding(Binding(site, "peritus")) == Binding(site, "peritusd")
  {
    assert DaemonBinding(Binding(site, "peritus")).fields == Binding(site, "peritusd").fields;
  }

  lemma BuiltHeader(binding: Json, observation: Json, previous: Json, archive: Archived)
    ensures var r := LibraryRecord(binding, observation, previous, archive);
            (LibraryHeader(r, binding) <==> Kept(archive)) && Get(r, "observation") == observation && Get(r, "previous_library") == previous
  {
    hide IsHex64, Digest;
    DigestIsHex(archive.sha256);
    var r := LibraryRecord(binding, observation, previous, archive);
    assert r.fields.Keys == LIBRARY_FIELDS;
  }

  lemma DaemonLibraryIsOk(site: Site, c: Compilation, archive: Archived)
    ensures LibraryOk(DaemonLibrary(site, c, archive), Binding(site, "peritusd")) <==> Ran(c) && Kept(archive)
  {
    hide ObservationOk, Observed, LibraryHeader, LibraryRecord;
    BuiltHeader(Binding(site, "peritusd"), Observed(c, Library, "peritusd", System(site)), Null, archive);
    ObservedIsOk(c, Library, "peritusd", System(site), Null);
  }

  lemma CliLibraryIsOk(site: Site, d: Compilation, a: Archived, c: Compilation, archive: Archived)
    ensures LibraryOk(CliLibrary(site, c, archive, DaemonLibrary(site, d, a)), Binding(site, "peritus")) <==>
            Ran(d) && Ran(c) && Kept(a) && Kept(archive) && Before(d, c)
  {
    hide ObservationOk, Observed, LibraryHeader, LibraryRecord, Later, Before, DaemonBinding;
    var daemon := DaemonLibrary(site, d, a);
    BuiltHeader(Binding(site, "peritusd"), Observed(d, Library, "peritusd", System(site)), Null, a);
    BuiltHeader(Binding(site, "peritus"), Observed(c, Library, "peritus", System(site)), daemon, archive);
    ObservedIsOk(c, Library, "peritus", System(site), Null);
    DaemonLibraryIsOk(site, d, a);
    DaemonBindingOfCli(site);
    LaterObserved(d, Library, "peritusd", c, Library, "peritus", System(site));
  }

  lemma BuiltBinaryHeader(site: Site, binary: string, library: Json, c: Compilation, product: Json)
    requires Package(binary).Some?
    ensures var r := Product(site, binary, library, c, product);
            && HasFields(r, BINARY_FIELDS) && HasFields(Get(r, "binding"), BINDING_FIELDS)
            && Get(r, "schema_version") == Number(3) && Get(r, "kind") == Str("native-release-binary-compilation")
            && Get(r, "binding") == Binding(site, binary) && Get(r, "library") == library && Get(r, "binary") == product
            && Get(r, "observation") == Observed(c, Binary, binary, System(site))
  {
    hide Observed, System;
    var r := Product(site, binary, library, c, product);
    assert r.fields.Keys == BINARY_FIELDS;
    assert Binding(site, binary).fields.Keys == BINDING_FIELDS;
  }

  lemma BuiltBindingFields(site: Site, binary: string)
    requires Package(binary).Some?
    ensures var b := Binding(site, binary);
            && Get(b, "candidate") == site.candidate && Get(b, "environment") == Obj(site.environment)
            && Get(b, "role") == site.role && Get(b, "package") == Str(Package(binary).value)
            && Get(b, "binary") == Str(binary) && Get(b, "workflow") == site.workflow
  {
  }

  lemma BinaryIsOk(site: Site, binary: string, library: Json, c: Compilation, product: Json,
                   candidate: Json, role: Json, observed: Json)
    requires Package(binary).Some?
    ensures BinaryOk(Product(site, binary, library, c, product), candidate, role, observed, binary) <==>
            var observation := Observed(c, Binary, binary, System(site));
            && Ran(c) && site.candidate == candidate && site.role == role && product == observed
            && LibraryOk(library, Binding(site, binary))
            && Later(Get(library, "observation"), observation)
            && (Get(library, "previous_library") != Null ==>
                  Later(Get(Get(library, "previous_library"), "observation"), observation))
  {
    hide LibraryOk, Later, ObservationOk, Observed, Binding, Product, HasFields;
    BuiltBinaryHeader(site, binary, library, c, product);
    BuiltBindingFields(site, binary);
    ObservedIsOk(c, Binary, binary, System(site), System(site));
  }

  lemma DaemonProductIsOk(site: Site, d: Compilation, a: Archived, b: Compilation, product: Json,
                          candidate: Json, role: Json, observed: Json)
    ensures BinaryOk(Product(site, "peritusd", DaemonLibrary(site, d, a), b, product), candidate, role, observed, "peritusd")
            <==> Ran(d) && Kept(a) && Ran(b)
                 && site.candidate == candidate && site.role == role && product == observed && Before(d, b)
  {
    hide BinaryOk, LibraryOk, Later, Before, Observed, Binding, LibraryHeader;
    BinaryIsOk(site, "peritusd", DaemonLibrary(site, d, a), b, product, candidate, role, observed);
    BuiltHeader(Binding(site, "peritusd"), Observed(d, Library, "peritusd", System(site)), Null, a);
    DaemonLibraryIsOk(site, d, a);
    LaterObserved(d, Library, "peritusd", b, Binary, "peritusd", System(site));
  }

  lemma CliProductIsOk(site: Site, d: Compilation, a: Archived, l: Compilation, al: Archived, b: Compilation, product: Json,
                       candidate: Json, role: Json, observed: Json)
    ensures BinaryOk(Product(site, "peritus", CliLibrary(site, l, al, DaemonLibrary(site, d, a)), b, product),
                     candidate, role, observed, "peritus")
            <==> Ran(d) && Kept(a) && Ran(l) && Kept(al) && Ran(b)
                 && site.candidate == candidate && site.role == role && product == observed
                 && Before(d, l) && Before(l, b) && Before(d, b)
  {
    hide BinaryOk, LibraryOk, Later, Before, Observed, Binding, LibraryHeader;
    var daemon := DaemonLibrary(site, d, a);
    BinaryIsOk(site, "peritus", CliLibrary(site, l, al, daemon), b, product, candidate, role, observed);
    BuiltHeader(Binding(site, "peritusd"), Observed(d, Library, "peritusd", System(site)), Null, a);
    BuiltHeader(Binding(site, "peritus"), Observed(l, Library, "peritus", System(site)), daemon, al);
    CliLibraryIsOk(site, d, a, l, al);
    LaterObserved(d, Library, "peritusd", b, Binary, "peritus", System(site));
    LaterObserved(l, Library, "peritus", b, Binary, "peritus", System(site));
  }

  /**
    Everything one site built in four compilations.  Its evidence is accepted exactly when the
    compilations were properly observed and their archives kept, the host matches, candidate, role
    and products are those expected, the daemon library came before the CLI library and the daemon
    binary, the CLI library before the CLI binary, and no two compilations share an invocation.
   */
  lemma BuiltEvidenceIsAcceptedExactly(site: Site, daemonLibrary: Compilation, daemonArchive: Archived,
                                       cliLibrary: Compilation, cliArchive: Archived,
                                       daemonBinary: Compilation, cliBinary: Compilation,
                                       products: map<string, Json>, host: Host,
                                       candidate: Json, role: Json, observed: map<string, Json>)
    requires products.Keys == observed.Keys == {"peritusd", "peritus"}
    ensures var library := DaemonLibrary(site, daemonLibrary, daemonArchive);
            var records := Obj(map[
              "peritusd" := Product(site, "peritusd", library, daemonBinary, products["peritusd"]),
              "peritus" := Product(site, "peritus", CliLibrary(site, cliLibrary, cliArchive, library), cliBinary, products["peritus"])]);
            EvidenceOk(records, observed, candidate, role, host) <==>
            && Ran(daemonLibrary) && Ran(cliLibrary) && Ran(daemonBinary) && Ran(cliBinary)
            && Kept(daemonArchive) && Kept(cliArchive) && SiteFits(site, host)
            && site.candidate == candidate && site.role == role && products == observed
            && PairwiseDistinct([daemonLibrary.invocation, cliLibrary.invocation, daemonBinary.invocation, cliBinary.invocation])
            && daemonLibrary.finished <= cliLibrary.started && cliLibrary.finished <= cliBinary.started
            && daemonLibrary.finished <= daemonBinary.started
  {
    hide BinaryOk, Observed, Binding, LibraryHeader, EnvironmentOk, Product, PairwiseDistinct, BinaryRecord, LibraryRecord;
    var library := DaemonLibrary(site, daemonLibrary, daemonArchive);
    var cli := CliLibrary(site, cliLibrary, cliArchive, library);
    var daemonRecord := Product(site, "peritusd", library, daemonBinary, products["peritusd"]);
    var cliRecord := Product(site, "peritus", cli, cliBinary, products["peritus"]);
    var records := Obj(map["peritusd" := daemonRecord, "peritus" := cliRecord]);
    assert records.fields.Keys == {"peritusd", "peritus"};
    DaemonProductIsOk(site, daemonLibrary, daemonArchive, daemonBinary, products["peritusd"], candidate, role, observed["peritusd"]);
    CliProductIsOk(site, daemonLibrary, daemonArchive, cliLibrary, cliArchive, cliBinary, products["peritus"],
                   candidate, role, observed["peritus"]);
    assert products == observed <==> products["peritusd"] == observed["peritusd"] && products["peritus"] == observed["peritus"];
    BuiltBinaryHeader(site, "peritusd", library, daemonBinary, products["peritusd"]);
    BuiltBinaryHeader(site, "peritus", cli, cliBinary, products["peritus"]);
    BuiltHeader(Binding(site, "peritus"), Observed(cliLibrary, Library, "peritus", System(site)), library, cliArchive);
    SameEnvironment(site, "peritusd", host);
    SameEnvironment(site, "peritus", host);
    ObservedInvocation(daemonBinary, Binary, "peritusd", System(site));
    ObservedInvocation(cliBinary, Binary, "peritus", System(site));
    ObservedInvocation(cliLibrary, Library, "peritus", System(site));
    FourDistinct(daemonLibrary.invocation, cliLibrary.invocation, daemonBinary.invocation, cliBinary.invocation);
  }

  lemma ObservedInvocation(c: Compilation, phase: Phase, binary: string, system: Json)
    ensures Invocation(Observed(c, phase, binary, system)) == Str(c.invocation)
  {
  }

  /** A macOS builder on x86-64 with the assembling host's toolchain, image and, if there is one, complete workflow. */
  ghost predicate SiteFits(site: Site, host: Host) {
    && "system" in site.environment && site.environment["system"] == Str("Darwin")
    && "machine" in site.environment && site.environment["machine"] in {Str("x86_64"), Str("X86_64")}
    && "rustc" in site.environment && site.environment["rustc"] == host.rustc
    && "image_version" in site.environment && site.environment["image_version"] == host.imageVersion
    && (host.workflow.Some? ==>
          && site.workflow == Obj(host.workflow.value)
          && forall key | key in host.workflow.value ::
               host.workflow.value[key] !in {Null, Bool(false), Number(0), Str(""), Arr([]), Obj(map[])})
  }

  lemma MachineName(s: string)
    ensures LowerAscii(s) == "x86_64" <==> s == "x86_64" || s == "X86_64"
  {
    var l := LowerAscii(s);
    if l == "x86_64" {
      assert l[0] == 'x' && l[1] == '8' && l[2] == '6' && l[3] == '_' && l[4] == '6' && l[5] == '4';
      assert s == [s[0], '8', '6', '_', '6', '4'];
    }
  }

  /** The environment check looks only at what both bindings share. */
  lemma SameEnvironment(site: Site, binary: string, host: Host)
    requires Package(binary).Some?
    ensures EnvironmentOk(Binding(site, binary), host) <==> SiteFits(site, host)
  {
    hide Binding, LowerAscii;
    BuiltBindingFields(site, binary);
    var e := site.environment;
    if "machine" in e && e["machine"].Str? {
      MachineName(e["machine"].s);
    }
    assert {"system", "machine", "rustc", "image_version"} <= e.Keys <==>
           "system" in e && "machine" in e && "rustc" in e && "image_version" in e;
    forall v: Json ensures Truthy(v) <==> v !in {Null, Bool(false), Number(0), Str(""), Arr([]), Obj(map[])} {}
  }

  // ----- packaged compilations -----

  /** An observed package build. */
  function Built(c: Compilation, jobs: Json, attempt: Json): Json {
    Obj(map["host" := Str(c.host), "invocation" := Str(c.invocation), "cargo_build_jobs" := jobs,
            "started_unix_nanos" := Number(c.started), "finished_unix_nanos" := Number(c.finished),
            "workflow_job" := c.job, "workflow_run_attempt" := attempt])
  }

  /** Not empty, and at most four gibibytes. */
  ghost predicate Bundled(a: Archived) {
    0 < a.length <= 4_294_967_296 && Digest(a.sha256)
  }

  /** The record a saved bundle carries; the stage follows from whether there is an earlier compilation. */
  function CompiledRecord(binding: Json, observation: Json, previous: Json, archive: Archived): Json {
    Obj(map["schema_version" := Number(2), "kind" := Str("native-distribution-compilation"), "binding" := binding,
            "stage" := Str(if previous == Null then "release" else "checks"),
            "previous_compilation" := previous, "compile_observation" := observation,
            "archive_sha256" := Str(archive.sha256), "archive_byte_length" := Number(archive.length)])
  }

  lemma BuiltIsTimed(c: Compilation, jobs: Json, attempt: Json)
    ensures TimedObservation(Built(c, jobs, attempt)) <==> Ran(c)
    ensures Get(Built(c, jobs, attempt), "cargo_build_jobs") == jobs
  {
  }

  lemma BuiltBefore(a: Compilation, b: Compilation, jobs: Json, attempt: Json)
    ensures Later(Built(a, jobs, attempt), Built(b, jobs, attempt)) <==> Before(a, b)
  {
  }

  lemma CompiledFields(binding: Json, observation: Json, previous: Json, archive: Archived)
    ensures var r := CompiledRecord(binding, observation, previous, archive);
            && HasFields(r, COMPILED_FIELDS)
            && Get(r, "schema_version") == Number(2) && Get(r, "kind") == Str("native-distribution-compilation")
            && Get(r, "binding") == binding && Get(r, "previous_compilation") == previous
            && Get(r, "compile_observation") == observation && Get(r, "archive_sha256") == Str(archive.sha256)
            && Get(r, "archive_byte_length") == Number(archive.length)
            && Get(r, "stage") == Str(StageName(if previous == Null then Release else Checks))
  {
    assert CompiledRecord(binding, observation, previous, archive).fields.Keys == COMPILED_FIELDS;
  }

  /** The build ran with the number of jobs its binding asks for. */
  ghost predicate JobsFit(binding: Json, jobs: Json) {
    binding.Obj? && "cargo_build_jobs" in binding.fields && binding.fields["cargo_build_jobs"] == jobs
  }

  lemma CompiledHeaderOk(binding: Json, c: Compilation, jobs: Json, attempt: Json, previous: Json, archive: Archived)
    ensures CompiledHeader(CompiledRecord(binding, Built(c, jobs, attempt), previous, archive), binding,
                           if previous == Null then Release else Checks) <==>
            Ran(c) && Bundled(archive) && JobsFit(binding, jobs)
  {
    hide IsHex64, Digest, CompiledRecord, Built, TimedObservation, Get, HasFields, StageName, Ran;
    DigestIsHex(archive.sha256);
    BuiltIsTimed(c, jobs, attempt);
    CompiledFields(binding, Built(c, jobs, attempt), previous, archive);
  }

  /**
    The first compilation of an honest build is accepted as a release exactly when it was properly
    observed, bundled and run with the jobs asked for; a second one on top of it exactly when both
    were, for the rpm format, and when it is a distinct invocation begun after the first.
   */
  lemma WrittenCompilationIsAcceptedExactly(binding: Json, first: Compilation, firstArchive: Archived,
                                            second: Compilation, secondArchive: Archived, jobs: Json, attempt: Json)
    ensures var release := CompiledRecord(binding, Built(first, jobs, attempt), Null, firstArchive);
            var checks := CompiledRecord(binding, Built(second, jobs, attempt), release, secondArchive);
            && (CompiledOk(release, binding, Release) <==> Ran(first) && Bundled(firstArchive) && JobsFit(binding, jobs))
            && (CompiledOk(checks, binding, Checks) <==>
                  Ran(first) && Bundled(firstArchive) && Ran(second) && Bundled(secondArchive) && JobsFit(binding, jobs)
                  && Get(binding, "format") == Str("rpm") && Before(first, second))
            && !CompiledOk(release, binding, Checks) && !CompiledOk(checks, binding, Release)
  {
    hide CompiledHeader, CompiledRecord, Built, Bundled, Ran, Before, Later, Get, HasFields, JobsFit;
    var release := CompiledRecord(binding, Built(first, jobs, attempt), Null, firstArchive);
    assert release != Null by { NotNull(binding, Built(first, jobs, attempt), Null, firstArchive); }
    CompiledHeaderOk(binding, first, jobs, attempt, Null, firstArchive);
    CompiledHeaderOk(binding, second, jobs, attempt, release, secondArchive);
    CompiledFields(binding, Built(first, jobs, attempt), Null, firstArchive);
    CompiledFields(binding, Built(second, jobs, attempt), release, secondArchive);
    StageIsFixed(binding, Built(first, jobs, attempt), Null, firstArchive);
    StageIsFixed(binding, Built(second, jobs, attempt), release, secondArchive);
    BuiltBefore(first, second, jobs, attempt);
  }

  lemma NotNull(binding: Json, observation: Json, previous: Json, archive: Archived)
    ensures CompiledRecord(binding, observation, previous, archive) != Null
  {
  }

  lemma StageIsFixed(binding: Json, observation: Json, previous: Json, archive: Archived)
    ensures !CompiledHeader(CompiledRecord(binding, observation, previous, archive), binding,
                            if previous == Null then Checks else Release)
  {
    hide CompiledRecord, HasFields, Get;
    CompiledFields(binding, observation, previous, archive);
    assert "release"[0] != "checks"[0];
  }

  // ----- nothing but what was written is accepted -----

  lemma SameFields(a: Json, b: Json, names: set<string>)
    requires HasFields(a, names) && HasFields(b, names) && forall key | key in names :: Get(a, key) == Get(b, key)
    ensures a == b
  {
    assert a.fields == b.fields;
  }

  /** An accepted binary record is the one written for its binding, library and observation: no field is free. */
  lemma AcceptedBinaryIsWritten(record: Json, candidate: Json, role: Json, observed: Json, binary: string)
    requires BinaryOk(record, candidate, role, observed, binary)
    ensures record == BinaryRecord(Get(record, "binding"), Get(record, "library"), Get(record, "observation"), observed)
  {
    hide LibraryOk, ObservationOk, Later;
    var written := BinaryRecord(Get(record, "binding"), Get(record, "library"), Get(record, "observation"), observed);
    assert written.fields.Keys == BINARY_FIELDS;
    SameFields(record, written, BINARY_FIELDS);
  }

  /** An accepted binding names the candidate, the role and the package of its binary, and nothing else but environment and workflow. */
  lemma AcceptedBindingIsWritten(record: Json, candidate: Json, role: Json, observed: Json, binary: string)
    requires BinaryOk(record, candidate, role, observed, binary)
    ensures var bound := Get(record, "binding");
            && Package(binary).Some? && Get(bound, "environment").Obj?
            && bound == Binding(Site(candidate, Get(bound, "environment").fields, role, Get(bound, "workflow")), binary)
  {
    hide LibraryOk, ObservationOk, Later;
    var bound := Get(record, "binding");
    var written := Binding(Site(candidate, Get(bound, "environment").fields, role, Get(bound, "workflow")), binary);
    assert written.fields.Keys == BINDING_FIELDS;
    SameFields(bound, written, BINDING_FIELDS);
  }

  lemma AcceptedLibraryIsWritten(record: Json, expected: Json)
    requires LibraryOk(record, expected)
    ensures Get(record, "archive_byte_length").Number? && Get(record, "archive_sha256").Str?
    ensures Get(record, "archive_byte_length").n > 0
    ensures record == LibraryRecord(expected, Get(record, "observation"), Get(record, "previous_library"),
                                    Archived(Get(record, "archive_byte_length").n, Get(record, "archive_sha256").s))
  {
    hide ObservationOk, Later;
    var written := LibraryRecord(expected, Get(record, "observation"), Get(record, "previous_library"),
                                 Archived(Get(record, "archive_byte_length").n, Get(record, "archive_sha256").s));
    assert written.fields.Keys == LIBRARY_FIELDS;
    SameFields(record, written, LIBRARY_FIELDS);
  }

  lemma AcceptedCompilationIsWritten(record: Json, expected: Json, stage: Stage)
    requires CompiledOk(record, expected, stage)
    ensures Get(record, "archive_byte_length").Number? && Get(record, "archive_sha256").Str?
    ensures Get(record, "archive_byte_length").n > 0
    ensures record == CompiledRecord(expected, Get(record, "compile_observation"), Get(record, "previous_compilation"),
                                     Archived(Get(record, "archive_byte_length").n, Get(record, "archive_sha256").s))
  {
    StageFollows(record, expected, stage);
    hide TimedObservation, IsHex64, CompiledRecord, Get, StageName, HasFields, CompiledOk;
    assert CompiledHeader(record, expected, stage);
    assert Get(record, "archive_sha256").Str? by { HexIsText(Get(record, "archive_sha256")); }
    var archive := Archived(Get(record, "archive_byte_length").n, Get(record, "archive_sha256").s);
    CompiledFields(expected, Get(record, "compile_observation"), Get(record, "previous_compilation"), archive);
    SameFields(record, CompiledRecord(expected, Get(record, "compile_observation"), Get(record, "previous_compilation"), archive),
               COMPILED_FIELDS);
  }

  lemma HexIsText(value: Json)
    requires IsHex64(value)
    ensures value.Str?
  {
  }

  lemma StageFollows(record: Json, expected: Json, stage: Stage)
    requires CompiledOk(record, expected, stage)
    ensures CompiledHeader(record, expected, stage)
    ensures stage == if Get(record, "previous_compilation") == Null then Release else Checks
  {
    hide TimedObservation, IsHex64, Later, StageName;
  }
}

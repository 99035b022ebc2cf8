/**
 * `coredump_interpreter.py`: the `docker run` command line that runs
 * `esp-coredump` on a raw dump and its ELF, the report cut from its
 * output, and the order of the checks around the run. The file system,
 * the environment variables and the container run are inputs.
 */
module Interpreter {
  import opened Wrappers
  import Text
  import Markers

  const DefaultDockerImage := "espressif/idf:v5.5.1"
  const DefaultTimeoutSeconds := 120
  const StartMarker := "==================== ESP32 CORE DUMP START ===================="
  const EndMarker := "===================== ESP32 CORE DUMP END ====================="

  /**
   * `_extract_report`: the stripped text between the first start marker and
   * the first end marker from there on; the whole output when either is
   * missing.
   */
  function ExtractReport(stdout: string, start: string, end: string): (r: string)
    ensures (forall i :: !Text.OccursAt(stdout, start, i)) ==> r == stdout
    ensures forall i | Markers.FirstAt(stdout, start, 0, i) ::
      (forall j :: i <= j ==> !Text.OccursAt(stdout, end, j)) ==> r == stdout
    ensures forall i, j | Markers.FirstAt(stdout, start, 0, i) && Markers.FirstAt(stdout, end, i, j) ::
      r == Text.Strip(Markers.Slice(stdout, i + |start|, j))
  {
    Markers.BetweenCases(stdout, start, end);
    match Markers.Between(stdout, start, end)
    case None => stdout
    case Some(block) => block
  }

  /** A report printed between the two markers is what the extractor keeps, stripped. */
  lemma ReportRecovered(pre: string, report: string, post: string)
    requires forall k :: 0 <= k < |pre| ==> !Text.OccursAt(pre + StartMarker + report + EndMarker + post, StartMarker, k)
    requires forall k :: |pre| <= k < |pre + StartMarker + report| ==>
      !Text.OccursAt(pre + StartMarker + report + EndMarker + post, EndMarker, k)
    ensures ExtractReport(pre + StartMarker + report + EndMarker + post, StartMarker, EndMarker) == Text.Strip(report)
  {
    Markers.BetweenFramed(pre, report, post, StartMarker, EndMarker);
  }

  /** Python's truth value of `chip_type`: given and not empty. */
  predicate ChipGiven(chip: Option<string>) {
    chip.Some? && chip.value != ""
  }

  /** The words of the `esp-coredump` command run inside the container. */
  function InnerWords(coreName: string, elfName: string, chip: Option<string>): (w: seq<string>)
    ensures |w| == if ChipGiven(chip) then 9 else 7
    ensures w[..6] == ["esp-coredump", "info_corefile", "--core-format", "raw", "--core", coreName]
    ensures ChipGiven(chip) ==> w[6..8] == ["--rom-elf", "$IDF_PATH/components/esp_rom/rom_elfs/" + chip.value + ".elf"]
    ensures w[|w| - 1] == elfName
  {
    var parts := ["esp-coredump", "info_corefile", "--core-format", "raw", "--core", coreName];
    var parts := if ChipGiven(chip) then parts + ["--rom-elf", "$IDF_PATH/components/esp_rom/rom_elfs/" + chip.value + ".elf"] else parts;
    parts + [elfName]
  }

  /** The read-only mount of a host file at `/app/<name>`. */
  function Mount(host: string, name: string): string {
    host + ":/app/" + name + ":ro"
  }

  /**
   * `_build_docker_command`: `docker run --rm -w /app`, the dump and then
   * the ELF mounted read-only under their base names, the image, and the
   * inner command handed to `bash -c` as one string.
   */
  function DockerCommand(coredumpFile: string, elfFile: string, image: string, chip: Option<string>): (argv: seq<string>)
    ensures |argv| == 13
    ensures argv[..6] == ["docker", "run", "--rm", "-w", "/app", "-v"]
    ensures argv[6] == Mount(coredumpFile, Text.Basename(coredumpFile)) && argv[7] == "-v"
    ensures argv[8] == Mount(elfFile, Text.Basename(elfFile))
    ensures argv[9] == image && argv[10] == "bash" && argv[11] == "-c"
    ensures argv[12] == Text.Join(InnerWords(Text.Basename(coredumpFile), Text.Basename(elfFile), chip), " ")
  {
    var inner := Text.Join(InnerWords(Text.Basename(coredumpFile), Text.Basename(elfFile), chip), " ");
    ["docker", "run", "--rm", "-w", "/app",
     "-v", Mount(coredumpFile, Text.Basename(coredumpFile)),
     "-v", Mount(elfFile, Text.Basename(elfFile)),
     image, "bash", "-c", inner]
  }

  /** When no name holds a space, cutting the inner command at spaces gives back its words, with the ELF last. */
  lemma InnerCommandWords(coredumpFile: string, elfFile: string, image: string, chip: Option<string>)
    requires ' ' !in Text.Basename(coredumpFile) && ' ' !in Text.Basename(elfFile)
    requires ChipGiven(chip) ==> ' ' !in chip.value
    ensures var w := InnerWords(Text.Basename(coredumpFile), Text.Basename(elfFile), chip);
      Text.Split(DockerCommand(coredumpFile, elfFile, image, chip)[12], ' ') == w
  {
    var w := InnerWords(Text.Basename(coredumpFile), Text.Basename(elfFile), chip);
    if ChipGiven(chip) {
      var rom := "$IDF_PATH/components/esp_rom/rom_elfs/" + chip.value + ".elf";
      assert ' ' !in rom by {
        forall k | 0 <= k < |rom| ensures rom[k] != ' ' {
          if 38 <= k < 38 + |chip.value| {
            assert rom[k] == chip.value[k - 38];
          }
        }
      }
    }
    assert forall i :: 0 <= i < |w| ==> ' ' !in w[i];
    Text.SplitJoin(w, ' ');
  }

  /** Which input `generate_coredump_report_docker` finds missing. */
  datatype Missing = CoredumpFile | ElfFile | OutputDir

  /** Why the run failed: the tool's exit status, no `docker` on the PATH, the timeout, or anything else. */
  datatype Failure = ExitStatus(code: int, stderr: string) | DockerNotFound | TimedOut | UnexpectedError

  /** What the container run answers. */
  datatype RunOutcome = Completed(stdout: string) | Failed(failure: Failure)

  /** Whether writing the report succeeds. A FileNotFoundError there is caught as if `docker` were missing. */
  datatype WriteOutcome = Written | WriteNotFound | WriteFailed

  /** FileNotFoundError before the run, or CoreDumpProcessingError around it. */
  datatype ReportError = NotFound(missing: Missing) | ProcessingError(cause: Failure)

  /** The command and timeout the container is run with. */
  datatype Launch = Launch(argv: seq<string>, timeout: int)

  /** The report file's path and text. */
  datatype Report = Report(path: string, text: string)

  /** The files and directories that exist, the environment's defaults, and what the run and the write answer. */
  datatype Env = Env(files: set<string>, dirs: set<string>, envImage: string, envTimeout: int,
                     run: RunOutcome, write: WriteOutcome)

  /** `output_path / name`. */
  function PathJoin(dir: string, name: string): string {
    if |dir| > 0 && dir[|dir| - 1] == '/' then dir + name else dir + "/" + name
  }

  /** The report is named after the dump: `<output dir>/<dump stem>.txt`. */
  function ReportPath(coredumpFile: string, outputDir: string): string {
    PathJoin(outputDir, Text.Stem(Text.Basename(coredumpFile)) + ".txt")
  }

  /**
   * `generate_coredump_report_docker` on resolved paths: the dump, the ELF
   * and the output directory are checked in that order; then the container
   * runs with the given image and timeout, or the environment's when they
   * are empty or zero; the extracted report is written next.
   */
  function GenerateReport(coredumpFile: string, elfFile: string, outputDir: string, image: Option<string>,
                          chip: Option<string>, timeout: Option<int>, start: string, end: string, env: Env)
    : (r: (Option<Launch>, Result<Report, ReportError>))
    ensures coredumpFile !in env.files ==> r == (None, Err(NotFound(CoredumpFile)))
    ensures coredumpFile in env.files && elfFile !in env.files ==> r == (None, Err(NotFound(ElfFile)))
    ensures coredumpFile in env.files && elfFile in env.files && outputDir !in env.dirs ==> r == (None, Err(NotFound(OutputDir)))
    ensures r.0.Some? <==> coredumpFile in env.files && elfFile in env.files && outputDir in env.dirs
    ensures r.0.Some? ==>
      && r.0.value.argv == DockerCommand(coredumpFile, elfFile, if image.Some? && image.value != "" then image.value else env.envImage, chip)
      && r.0.value.timeout == if timeout.Some? && timeout.value != 0 then timeout.value else env.envTimeout
    ensures r.0.Some? && env.run.Failed? ==> r.1 == Err(ProcessingError(env.run.failure))
    ensures r.0.Some? && env.run.Completed? ==>
      r.1 == match env.write
        case Written => Ok(Report(ReportPath(coredumpFile, outputDir), ExtractReport(env.run.stdout, start, end)))
        case WriteNotFound => Err(ProcessingError(DockerNotFound))
        case WriteFailed => Err(ProcessingError(UnexpectedError))
  {
    if coredumpFile !in env.files then (None, Err(NotFound(CoredumpFile)))
    else if elfFile !in env.files then (None, Err(NotFound(ElfFile)))
    else if outputDir !in env.dirs then (None, Err(NotFound(OutputDir)))
    else
      var imageToUse := if image.Some? && image.value != "" then image.value else env.envImage;
      var effectiveTimeout := if timeout.Some? && timeout.value != 0 then timeout.value else env.envTimeout;
      var launch := Launch(DockerCommand(coredumpFile, elfFile, imageToUse, chip), effectiveTimeout);
      match env.run
      case Failed(f) => (Some(launch), Err(ProcessingError(f)))
      case Completed(stdout) =>
        var report := ExtractReport(stdout, start, end);
        match env.write
        case Written => (Some(launch), Ok(Report(ReportPath(coredumpFile, outputDir), report)))
        case WriteNotFound => (Some(launch), Err(ProcessingError(DockerNotFound)))
        case WriteFailed => (Some(launch), Err(ProcessingError(UnexpectedError)))
  }

  /** A report is produced only after all three checks passed and the run completed; it lies in the output directory under the dump's stem. */
  lemma ReportOnlyAfterChecks(coredumpFile: string, elfFile: string, outputDir: string, image: Option<string>,
                              chip: Option<string>, timeout: Option<int>, start: string, end: string, env: Env)
    requires GenerateReport(coredumpFile, elfFile, outputDir, image, chip, timeout, start, end, env).1.Ok?
    ensures coredumpFile in env.files && elfFile in env.files && outputDir in env.dirs
    ensures env.run.Completed? && env.write == Written
    ensures var p := GenerateReport(coredumpFile, elfFile, outputDir, image, chip, timeout, start, end, env).1.value.path;
      p == PathJoin(outputDir, Text.Stem(Text.Basename(coredumpFile)) + ".txt")
  {
  }
}

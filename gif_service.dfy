/**
 * `generate_gif_from_html` in backend/services/gif_service.py: write the HTML
 * to a fresh temporary file, reserve a fresh temporary GIF path, run the
 * standalone worker on them, decide success from its return code and the
 * output file, and clean the temporary files up.
 *
 * The worker process, `mkstemp` and the operating system's files are not run:
 * the two fresh paths and the worker's outcome are parameters, and the file
 * system is a map from path to contents that the steps update in place.
 */
module GifService {
  import opened Wrappers
  import opened CliArgs

  /** The keyword defaults of `generate_gif_from_html`. */
  const ServiceWidth: int := 600
  const ServiceHeight: int := 400
  const ServiceDuration: int := 3
  const ServiceFps: int := 30

  const FailurePrefix: string := "GIF Generation Subprocess Failed: "

  /**
   * What the worker process leaves behind: its return code, its captured
   * standard error, and the contents of the output path afterwards (`None`
   * when the file no longer exists).
   */
  datatype WorkerRun = WorkerRun(returncode: int, stderr: string, output: Option<string>)

  datatype ServiceError =
    | SubprocessFailed(message: string)  // the RuntimeError raised for a non-zero return code
    | OutputMissing(path: string)        // the OSError of `os.path.getsize` on a missing file
    | SetupFailed                        // an error raised before `try:`, by `mkstemp` or the write

  /**
   * How the steps before `try:` end: both temporary files made and the HTML
   * fully written, or the first `mkstemp` failing (no file made), the write
   * failing after `written` reached the disk (an OSError, or a character
   * UTF-8 cannot encode), or the second `mkstemp` failing.
   */
  datatype Setup =
    | SetupDone
    | HtmlTempFails
    | HtmlWriteFails(written: string)
    | GifTempFails

  /** The service's verdict on a finished worker run whose output path is `gifPath`. */
  function Outcome(run: WorkerRun, gifPath: string): (r: Result<string, ServiceError>)
    ensures r.Ok? <==> run.returncode == 0 && run.output.Some?
    ensures r.Ok? ==> r.value == gifPath
    ensures run.returncode != 0 ==>
              (r.Err? && r.error.SubprocessFailed?
               && |r.error.message| == |FailurePrefix| + |run.stderr|
               && r.error.message[..|FailurePrefix|] == FailurePrefix
               && r.error.message[|FailurePrefix|..] == run.stderr)
    ensures run.returncode == 0 && run.output.None? ==> r == Err(OutputMissing(gifPath))
  {
    if run.returncode != 0 then Err(SubprocessFailed(FailurePrefix + run.stderr))
    else if run.output.None? then Err(OutputMissing(gifPath))
    else Ok(gifPath)
  }

  /** A path that does not start with '-' is read by the worker's parser as a value. */
  lemma PathIsValueToken(path: string)
    requires |path| > 0 && path[0] != '-'
    ensures IsValueToken(path)
  {
  }

  /**
   * The worker's parser reads back exactly the paths and integers the service
   * passed, whatever they are, as long as neither temporary path starts with
   * '-' (`mkstemp` returns absolute paths).
   */
  lemma WorkerReadsServiceArgs(python: string, script: string, htmlPath: string, gifPath: string,
                               width: int, height: int, duration: int, fps: int)
    requires |htmlPath| > 0 && htmlPath[0] != '-' && |gifPath| > 0 && gifPath[0] != '-'
    ensures var cmd := BuildCommand(python, script, GifArgs(htmlPath, gifPath, width, height, duration, fps));
            Parse(cmd[2..]) == Parsed(GifArgs(htmlPath, gifPath, width, height, duration, fps))
  {
    PathIsValueToken(htmlPath);
    PathIsValueToken(gifPath);
    ParseBuildCommand(python, script, GifArgs(htmlPath, gifPath, width, height, duration, fps));
  }

  /**
   * A call that leaves width, height, duration and fps at the service's defaults
   * runs the worker with the same values its own parser would default to.
   */
  lemma ServiceDefaultsMatchWorker(python: string, script: string, htmlPath: string, gifPath: string)
    requires |htmlPath| > 0 && htmlPath[0] != '-' && |gifPath| > 0 && gifPath[0] != '-'
    ensures var cmd := BuildCommand(python, script,
                                    GifArgs(htmlPath, gifPath, ServiceWidth, ServiceHeight, ServiceDuration, ServiceFps));
            Parse(cmd[2..]) == Parse(["--input", htmlPath, "--output", gifPath])
  {
    WorkerReadsServiceArgs(python, script, htmlPath, gifPath, ServiceWidth, ServiceHeight, ServiceDuration, ServiceFps);
    PathIsValueToken(htmlPath);
    PathIsValueToken(gifPath);
    ParseDefaults(htmlPath, gifPath);
  }

  /** Removing the two keys that were added to `m` gives back `m`. */
  lemma RemoveBothAdded(m: map<string, string>, h: string, c: string, g: string, e: string)
    requires h !in m && g !in m && h != g
    ensures m[h := c][g := e] - {h, g} == m
  {
  }

  /** Removing the first added key and overwriting the second keeps just the second. */
  lemma RemoveFirstAdded(m: map<string, string>, h: string, c: string, g: string, e: string, v: string)
    requires h !in m && g !in m && h != g
    ensures (m[h := c][g := e] - {h})[g := v] == m[g := v]
  {
  }

  /** The files the service can see, by path. */
  class FileSystem {
    var files: map<string, string>

    constructor (initial: map<string, string>)
      ensures files == initial
    {
      files := initial;
    }

    /** `os.remove` guarded by `os.path.exists`, with any error ignored. */
    method RemoveIfExists(path: string)
      modifies this
      ensures files == old(files) - {path}
    {
      if path in files {
        files := files - {path};
      }
    }
  }

  /**
   * `generate_gif_from_html`. `htmlPath` and `gifPath` are the names `mkstemp`
   * hands out, so they are distinct and not yet taken; `setup` says how the
   * steps before `try:` went. The worker sees the command `cmd` and the input
   * file's contents `inputSeen`, and finishes as `run` says.
   *
   * Only the `try:` block is covered by the `finally` that removes the input
   * file: a failure while writing it, or while making the GIF path, leaves it
   * behind.
   */
  method GenerateGifFromHtml(fs: FileSystem, htmlContent: string,
                             width: int, height: int, duration: int, fps: int,
                             python: string, script: string, htmlPath: string, gifPath: string,
                             setup: Setup, run: WorkerRun)
    returns (r: Result<string, ServiceError>, cmd: seq<string>, inputSeen: string)
    requires htmlPath != gifPath && htmlPath !in fs.files && gifPath !in fs.files
    modifies fs
    ensures !setup.SetupDone? ==> r == Err(SetupFailed) && cmd == []
    ensures setup.HtmlTempFails? ==> fs.files == old(fs.files)
    ensures setup.HtmlWriteFails? ==> fs.files == old(fs.files)[htmlPath := setup.written]
    ensures setup.GifTempFails? ==> fs.files == old(fs.files)[htmlPath := htmlContent]
    ensures setup.SetupDone? ==>
              && cmd == BuildCommand(python, script, GifArgs(htmlPath, gifPath, width, height, duration, fps))
              && inputSeen == htmlContent
              && r == Outcome(run, gifPath)
    ensures setup.SetupDone? && r.Ok? ==> fs.files == old(fs.files)[gifPath := run.output.value]
    ensures setup.SetupDone? && r.Err? ==> fs.files == old(fs.files)
    ensures htmlPath in fs.files <==> setup.HtmlWriteFails? || setup.GifTempFails?
  {
    cmd, inputSeen := [], [];
    // mkstemp(suffix=".html")
    if setup.HtmlTempFails? {
      return Err(SetupFailed), cmd, inputSeen;
    }
    fs.files := fs.files[htmlPath := ""];
    // the write of the HTML, and the file's closing
    if setup.HtmlWriteFails? {
      fs.files := fs.files[htmlPath := setup.written];
      return Err(SetupFailed), cmd, inputSeen;
    }
    fs.files := fs.files[htmlPath := htmlContent];
    // mkstemp(suffix=".gif"): an empty file the worker overwrites
    if setup.GifTempFails? {
      return Err(SetupFailed), cmd, inputSeen;
    }
    fs.files := fs.files[gifPath := ""];
    r, cmd, inputSeen := RunWorker(fs, width, height, duration, fps, python, script, htmlPath, gifPath, run);
    if r.Ok? {
      RemoveFirstAdded(old(fs.files), htmlPath, htmlContent, gifPath, "", run.output.value);
    } else {
      RemoveBothAdded(old(fs.files), htmlPath, htmlContent, gifPath, "");
    }
  }

  /**
   * The `try:` block of `generate_gif_from_html` with its `except` and
   * `finally`: run the worker on the two existing temporary files, remove the
   * GIF when anything fails, and remove the input file in every case.
   */
  method RunWorker(fs: FileSystem, width: int, height: int, duration: int, fps: int,
                   python: string, script: string, htmlPath: string, gifPath: string,
                   run: WorkerRun)
    returns (r: Result<string, ServiceError>, cmd: seq<string>, inputSeen: string)
    requires htmlPath != gifPath && htmlPath in fs.files && gifPath in fs.files
    modifies fs
    ensures cmd == BuildCommand(python, script, GifArgs(htmlPath, gifPath, width, height, duration, fps))
    ensures inputSeen == old(fs.files)[htmlPath]
    ensures r == Outcome(run, gifPath)
    ensures r.Ok? ==> fs.files == (old(fs.files) - {htmlPath})[gifPath := run.output.value]
    ensures r.Err? ==> fs.files == old(fs.files) - {htmlPath, gifPath}
  {
    cmd := BuildCommand(python, script, GifArgs(htmlPath, gifPath, width, height, duration, fps));
    inputSeen := fs.files[htmlPath];
    match run.output {
      case Some(bytes) => fs.files := fs.files[gifPath := bytes];
      case None => fs.files := fs.files - {gifPath};
    }
    if run.returncode != 0 {
      r := Err(SubprocessFailed(FailurePrefix + run.stderr));
    } else if gifPath !in fs.files {
      r := Err(OutputMissing(gifPath));
    } else {
      r := Ok(gifPath);
    }
    if r.Err? {
      fs.RemoveIfExists(gifPath);
    }
    fs.RemoveIfExists(htmlPath);
  }
}

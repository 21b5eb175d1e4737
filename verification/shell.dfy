/** Conventions the adapters share around their external calls. */
module Shell {

  import opened Results

  /** `os.environ[key]`: a missing variable raises `KeyError`, whose
      message is the key itself. */
  function Getenv(env: map<string, string>, key: string): (r: Result<string>)
    ensures key in env <==> r.Ok?
    ensures r.Ok? ==> r.value == env[key]
    ensures r.Err? ==> r.message == key
  {
    if key in env then Ok(env[key]) else Err(key)
  }

  /** `output if output else tempfile.mkdtemp()`: `None` and the empty
      string both fall back to the fresh temporary directory. */
  function OutputDir(output: Option<string>, tempDir: string): (dir: string)
    ensures output.Some? && output.value != "" ==> dir == output.value
    ensures output.None? || output.value == "" ==> dir == tempDir
  {
    match output
    case Some(o) => if o != "" then o else tempDir
    case None => tempDir
  }

  /** `raise RuntimeError("<prefix>: {}".format(error))` around a process
      call: a crash becomes an error whose text starts with the prefix. */
  function Wrap(run: Run, prefix: string): (r: Result<()>)
    ensures run.Completed? <==> r.Ok?
    ensures run.Crashed? ==> r.message == prefix + ": " + run.message
  {
    match run
    case Completed => Ok(())
    case Crashed(m) => Err(prefix + ": " + m)
  }
}

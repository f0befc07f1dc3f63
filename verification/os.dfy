/** The operating-system surface the program touches, reduced to values:
    paths that may not be valid UTF-8, finished child processes, and a shell
    oracle that answers each command line with what the process did. */
module Os {
  import opened Wrappers

  /** A filesystem path; `text` is None when the path is not valid UTF-8,
      which is exactly when Rust's `Path::to_str` fails. */
  datatype FsPath = FsPath(text: Option<string>)

  /** A path as text, with `fallback` standing in when it is not valid
      UTF-8. */
  function PathText(p: FsPath, fallback: string): string {
    p.text.GetOr(fallback)
  }

  /** A finished child process: its exit code (None when a signal ended it)
      and its two output streams, each None when not valid UTF-8. */
  datatype Output = Output(code: Option<int>, stdout: Option<string>, stderr: Option<string>)

  /** `ExitStatus::success`: the process exited with code 0. */
  predicate Success(o: Output) {
    o.code == Some(0)
  }

  /** What running `sh -c <command>` produced: the spawn itself failed, or the
      process ran to completion. */
  datatype Spawn = SpawnFailed(reason: string) | Spawned(output: Output)

  /** The world outside the program, answering each shell command line. */
  type Shell = string -> Spawn
}

/**
 * The two sources of host facts, as oracles: the file system the probe reads
 * (`fs.readFileSync`) and the commands it runs (`child_process.exec`).
 */
module HostIO {
  import opened Wrappers

  /** Path to file contents; a path that is absent or maps to `None` cannot be read. */
  type FileSystem = map<string, Option<string>>

  /** Command text to the standard output it produces. */
  type ExecOracle = map<string, string>

  /** `fs.readFileSync(path, 'utf8')`, with `None` for the exception it throws. */
  function ReadFile(files: FileSystem, path: string): Option<string>
  {
    if path in files then files[path] else None
  }

  /** The collector's `execP`: a command that fails (here: one the oracle does
      not know) resolves to the empty output instead of rejecting. */
  function Exec(commands: ExecOracle, cmd: string): string
  {
    if cmd in commands then commands[cmd] else ""
  }
}

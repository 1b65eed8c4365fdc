/** Values shared by every part of the release tool: results and errors,
    the output of a subprocess, and the events that make up a run's trace. */
module Common {

  datatype Option<+T> = None | Some(value: T)

  /** Why an operation stopped. `Failure` carries an error message built by
      the tool itself (an `anyhow!` or `bail!`); the other variants stand for
      errors raised by the standard library or by a panic. */
  datatype Error =
    | Failure(message: string)   // an error message of the tool's own
    | NotFound(path: string)     // a file could not be opened
    | WriteFailed(path: string)  // writing a file's new contents failed
    | ParseError(path: string)   // the JSON or TOML library rejected a file
    | Spawn(program: string)     // a subprocess could not be started
    | Panic(site: string)        // an `unwrap` on a failed value aborted the process

  datatype Result<+T> = Ok(value: T) | Err(error: Error)

  /** What a finished subprocess hands back: its exit status and its two
      output streams, already decoded to text. */
  datatype CommandOutput = CommandOutput(success: bool, stdout: string, stderr: string)

  /** The external effects of a run, in the order they happen. */
  datatype Event =
    | Git(args: seq<string>)       // `git <args>` was invoked
    | Bun(args: seq<string>)       // `bun <args>` was invoked
    | Create(path: string)         // an empty file was created at `path`
    | Read(path: string)           // the contents of `path` were read
    | Write(path: string)          // the contents of `path` were replaced
    | Prompt(current: string)      // the user was asked for the version after `current`
    | Publish(body: string, version: string, name: string)  // the release was handed off

  /** The outcome of invoking `git` with an argument vector. */
  type GitRunner = seq<string> -> CommandOutput

  /** The outcome of invoking `bun` with an argument vector; `None` when the
      process could not be started. */
  type BunRunner = seq<string> -> Option<CommandOutput>

  /** A result together with the events that produced it, for operations
      that leave the file system alone. */
  datatype Reply<+T> = Reply(result: Result<T>, events: seq<Event>)
}

/** Constants, result codes and the small wrapper types shared by the shell model. */
module ShellBase {

  /** Largest number of arguments one command may carry. */
  const MaxArgs: nat := 10
  /** Capacity of the shell-variable table. */
  const MaxEnvVars: nat := 100

  /** The shell's result codes: SUCCESS, INVALID_INPUT, EXIT and SYSTEM_FAILURES. */
  datatype Status = Success | InvalidInput | Exit | SystemFailure {
    /** The integer the C code returns for this status. */
    function Code(): int {
      match this
      case Success => 1
      case InvalidInput => -1
      case Exit => 3
      case SystemFailure => 2
    }
  }

  datatype Option<T> = None | Some(value: T)

  /** A space or a tab, the characters trimmed around pipeline stages. */
  predicate IsBlank(c: char) {
    c == ' ' || c == '\t'
  }
}

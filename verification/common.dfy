/**
 * Types shared by every layer of the SAP-2 assembler and interpreter:
 * the 8- and 16-bit value ranges, the process exit codes, the failure-aware
 * `Result` used wherever the C code calls `exit`, and the configuration values
 * the C code reads but whose definitions are not part of this model.
 */
module Common {

  /** One memory cell or register: the 8-bit pattern, read as unsigned. */
  type Byte = x: int | 0 <= x < 0x100

  /** A 16-bit value (`uhex2_t`): addresses and the program counter. */
  type Word = x: int | 0 <= x < 0x1_0000

  /** A byte is "negative" when its top (sign) bit is set. */
  predicate Negative(b: Byte) {
    b >= 0x80
  }

  /** Low and high halves of a 16-bit value. */
  function Low(w: Word): Byte {
    w % 0x100
  }

  function High(w: Word): Byte {
    w / 0x100
  }

  /** Rebuilding a word from its two halves gives it back. */
  lemma HalvesRebuild(w: Word)
    ensures High(w) * 0x100 + Low(w) == w
  {
  }

  /** Adding to a counter already wrapped at 16 bits is adding before wrapping. */
  lemma WrapAdd(a: nat, b: nat)
    ensures (a % 0x1_0000 + b) % 0x1_0000 == (a + b) % 0x1_0000
  {
  }

  datatype Option<T> = None | Some(value: T)

  /**
   * `ErrorCode_t` plus `EXIT_SUCCESS` and `EXIT_ILLEGAL_HEX`; the numeric
   * value of the last one is not shown in the source, so it is kept symbolic.
   */
  datatype ExitCode =
    | Success            //  0
    | NoMemory           // -1
    | NoFile             //  1
    | FileNotFound       //  2
    | InvalidArgument    //  3
    | NullArgument       //  4
    | InvalidInstruction //  5
    | ReadOnlyAddress    //  6
    | Halted             //  7 (EXIT_HLT)
    | IllegalHex         // value not shown

  /**
   * The outcome of an operation that can end the process: either its value,
   * or the code it would have passed to `exit`.
   */
  datatype Result<T> = Ok(value: T) | Err(code: ExitCode) {
    predicate IsFailure() {
      Err?
    }

    function PropagateFailure<U>(): Result<U>
      requires Err?
    {
      Err(code)
    }

    function Extract(): T
      requires Ok?
    {
      value
    }
  }

  /**
   * Values the C code uses without defining them here:
   * `env_params->start_address`, `MAX_INT_TO_HEX`, `HEX1_MAX` and `HEX2_MAX`.
   */
  datatype Config = Config(
    startAddress: Word,
    maxIntToHex: nat,
    hex1Max: int,
    hex2Max: int
  )
}

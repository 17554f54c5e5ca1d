/**
 * `evaluate.c`: the fetch-execute loop run after assembly. The byte at the
 * program counter selects a handler; operands are fetched from the bytes
 * after it, a two-byte operand low byte first. Only ADD, SUB, DCR, MVI, OUT
 * and HLT have a handler: every other byte ends the run as an unknown
 * operation code.
 */
module Runtime {
  import opened Common
  import opened Instructions
  import opened Environment
  import opened InstructionsFunctions

  /** How a run ends. */
  datatype Stop =
    | Ended                            // the counter reached `MEMORY_SIZE`
    | HltExit(dump: seq<(Word, Byte)>) // HLT: the memory listing, then `exit(EXIT_SUCCESS)`
    | Invalid(opcode: Byte)            // no handler: `EXIT_INVALID_INSTRUCTION`
    | PastEnd                          // an operand fetch at 0xFFFF, one past the last cell

  /** One step: the run goes on with what the step printed, or it stops. */
  datatype Step = Next(env: Env, printed: seq<Byte>) | Stopped(stop: Stop)

  /** A whole run: how it ended, the environment it ended in, everything OUT printed. */
  datatype Run = Run(stop: Stop, env: Env, output: seq<Byte>)

  // ---------------------------------------------------------------------
  // Operand fetch
  // ---------------------------------------------------------------------

  /**
   * `consume_hex1`: the byte at the counter, and the counter moved past it.
   * Memory holds 65535 cells, so there is no byte to read at 0xFFFF.
   */
  function ConsumeHex1(env: Env): (r: Option<(Byte, Env)>)
    requires Valid(env)
    ensures r.Some? <==> env.pc < MemorySize
    ensures r.Some? ==> r.value.1 == env.(pc := env.pc + 1)
  {
    if env.pc < MemorySize then Some((env.memory[env.pc].value, env.(pc := env.pc + 1))) else None
  }

  /** `consume_hex2`: two bytes, the first one the low half of the value. */
  function ConsumeHex2(env: Env): (r: Option<(Word, Env)>)
    requires Valid(env)
    ensures r.Some? <==> env.pc + 1 < MemorySize
    ensures r.Some? ==> r.value.1 == env.(pc := env.pc + 2)
    ensures r.Some? ==> r.value.0 == ReadWord(env, env.pc)
  {
    match ConsumeHex1(env)
    case None => None
    case Some((lsb, e1)) =>
      match ConsumeHex1(e1)
      case None => None
      case Some((msb, e2)) => Some((msb * 0x100 + lsb, e2))
  }

  /** A byte stored by the second pass at the counter is what a fetch from there reads. */
  lemma Hex1ReadsBack(env: Env, cfg: Config, hex: Byte)
    requires Valid(env) && !env.firstPass && AddToMemoryHex1(env, cfg, hex).Ok?
    ensures
      var e := AddToMemoryHex1(env, cfg, hex).value;
      ConsumeHex1(e.(pc := env.pc)) == Some((hex, e))
  {
  }

  /** A word stored by the second pass at the counter is what a two-byte fetch from there reads. */
  lemma Hex2ReadsBack(env: Env, cfg: Config, hex: Word)
    requires Valid(env) && !env.firstPass && AddToMemoryHex2(env, cfg, hex).Ok?
    ensures
      var e := AddToMemoryHex2(env, cfg, hex).value;
      ConsumeHex2(e.(pc := env.pc)) == Some((hex, e))
  {
    var e := AddToMemoryHex2(env, cfg, hex).value;
    HalvesRebuild(hex);
    assert ReadWord(e, env.pc) == hex;
  }

  // ---------------------------------------------------------------------
  // One instruction
  // ---------------------------------------------------------------------

  /** The step that goes on after a handler ran: one more instruction executed. */
  function Done(e: Env): Step {
    Next(e.(currentInstruction := e.currentInstruction + 1), [])
  }

  /** MVI: the immediate byte after the opcode goes to the register. */
  function StepMvi(e: Env, r: Reg): Step
    requires Valid(e)
  {
    match ConsumeHex1(e)
    case None => Stopped(PastEnd)
    case Some((x1, e1)) => Done(ExecuteMvi(e1, r, x1))
  }

  /** OUT: the two operand bytes are fetched, then the accumulator is printed. */
  function StepOut(e: Env): Step
    requires Valid(e)
  {
    match ConsumeHex2(e)
    case None => Stopped(PastEnd)
    case Some((x2, e2)) => Next(e2.(currentInstruction := e2.currentInstruction + 1), [ExecuteOut(e2, x2)])
  }

  /**
   * `execute_instruction`: fetch the operation code and switch on it; the
   * counter of executed instructions goes up after every handler that returns.
   */
  function ExecuteInstruction(env: Env): (r: Step)
    requires Valid(env) && env.pc < MemorySize
    ensures r.Next? ==> Valid(r.env) && env.pc < r.env.pc <= MemorySize
    ensures r.Next? ==> r.env.currentInstruction == env.currentInstruction + 1
    ensures r.Next? ==>
      r.env.memory == env.memory && r.env.used == env.used && r.env.labels == env.labels &&
      r.env.flags == env.flags && r.env.firstPass == env.firstPass
  {
    var opcode := env.memory[env.pc].value;
    var e := env.(pc := env.pc + 1);
    match Decode(opcode)
    case Some(AddB) => Done(ExecuteAdd(e, B))
    case Some(AddC) => Done(ExecuteAdd(e, C))
    case Some(DcrA) => Done(ExecuteDcr(e, A))
    case Some(DcrB) => Done(ExecuteDcr(e, B))
    case Some(DcrC) => Done(ExecuteDcr(e, C))
    case Some(Hlt) => Stopped(HltExit(ExecuteHlt(e)))
    case Some(MviA) => StepMvi(e, A)
    case Some(MviB) => StepMvi(e, B)
    case Some(MviC) => StepMvi(e, C)
    case Some(Out) => StepOut(e)
    case Some(SubB) => Done(ExecuteSub(e, B))
    case Some(SubC) => Done(ExecuteSub(e, C))
    case _ => Stopped(Invalid(opcode))
  }

  // ---------------------------------------------------------------------
  // The same instruction, read off the opcode table
  // ---------------------------------------------------------------------

  /** The instructions `execute_instruction` has a handler for. */
  predicate Executable(op: Opcode) {
    MnemonicOf(op) in {ADD, SUB, DCR, MVI, OUT, HLT}
  }

  /** The bytes an instruction occupies: its opcode and its operand. */
  function Length(op: Opcode): nat {
    match MnemonicOf(op)
    case MVI => 2
    case OUT => 3
    case _ => 1
  }

  /** The `n` byte values stored from `from` on. */
  function Values(env: Env, from: nat, n: nat): (vs: seq<Byte>)
    requires Valid(env) && from + n <= MemorySize
    ensures |vs| == n && forall k :: 0 <= k < n ==> vs[k] == env.memory[from + k].value
  {
    seq<Byte>(n, k requires 0 <= k < n => env.memory[from + k].value)
  }

  /**
   * What an executable instruction does, by its mnemonic, its register and
   * its operand bytes `args`; `env` already has the counter past the operand.
   */
  function Effect(env: Env, op: Opcode, args: seq<Byte>): Step
    requires Valid(env) && Executable(op) && |args| == Length(op) - 1
  {
    OperandCounts(op);
    match MnemonicOf(op)
    case ADD => Done(ExecuteAdd(env, Operands(op)[0]))
    case SUB => Done(ExecuteSub(env, Operands(op)[0]))
    case DCR => Done(ExecuteDcr(env, Operands(op)[0]))
    case MVI => Done(ExecuteMvi(env, Operands(op)[0], args[0]))
    case OUT => Next(env.(currentInstruction := env.currentInstruction + 1), [env.registers.a])
    case _ => Stopped(HltExit(ExecuteHlt(env)))
  }

  /** The executable instructions with a register name exactly one. */
  lemma OperandCounts(op: Opcode)
    ensures MnemonicOf(op) in {ADD, SUB, DCR, MVI} ==> |Operands(op)| == 1
  {
  }

  /**
   * The switch of `execute_instruction` agrees with the opcode table: a byte
   * that is no executable instruction stops the run as unknown, an operand
   * that would lie past the end stops it there, and otherwise the step is
   * the instruction's effect on its operand bytes.
   */
  lemma ExecuteMatchesTable(env: Env)
    requires Valid(env) && env.pc < MemorySize
    ensures
      var b := env.memory[env.pc].value;
      ExecuteInstruction(env) == Stopped(Invalid(b)) <==> !(Decode(b).Some? && Executable(Decode(b).value))
    ensures
      var b := env.memory[env.pc].value;
      Decode(b).Some? && Executable(Decode(b).value) && env.pc + Length(Decode(b).value) > MemorySize ==>
        ExecuteInstruction(env) == Stopped(PastEnd)
    ensures
      var b := env.memory[env.pc].value;
      Decode(b).Some? && Executable(Decode(b).value) && env.pc + Length(Decode(b).value) <= MemorySize ==>
        var op := Decode(b).value;
        ExecuteInstruction(env) ==
          Effect(env.(pc := env.pc + Length(op)), op, Values(env, env.pc + 1, Length(op) - 1))
  {
    var b := env.memory[env.pc].value;
    if Decode(b).Some? && Executable(Decode(b).value) {
      var op := Decode(b).value;
      if MnemonicOf(op) in {ADD, SUB, DCR} {
        RegisterOpMatches(env, op);
      } else if MnemonicOf(op) == MVI {
        MviMatches(env, op);
      } else if MnemonicOf(op) == OUT {
        OutMatches(env);
      } else {
        HltMatches(env);
      }
    } else {
      NoHandler(env);
    }
  }

  /** A byte with no handler stops the run as unknown. */
  lemma NoHandler(env: Env)
    requires Valid(env) && env.pc < MemorySize
    requires !(Decode(env.memory[env.pc].value).Some? && Executable(Decode(env.memory[env.pc].value).value))
    ensures ExecuteInstruction(env) == Stopped(Invalid(env.memory[env.pc].value))
  {
  }

  /** ADD, SUB and DCR: no operand bytes, the handler on the register the opcode names. */
  lemma RegisterOpMatches(env: Env, op: Opcode)
    requires Valid(env) && env.pc < MemorySize
    requires Decode(env.memory[env.pc].value) == Some(op) && MnemonicOf(op) in {ADD, SUB, DCR}
    ensures ExecuteInstruction(env) == Effect(env.(pc := env.pc + 1), op, [])
  {
  }

  /** MVI: one operand byte, or the end of memory. */
  lemma MviMatches(env: Env, op: Opcode)
    requires Valid(env) && env.pc < MemorySize
    requires Decode(env.memory[env.pc].value) == Some(op) && MnemonicOf(op) == MVI
    ensures env.pc + 2 > MemorySize ==> ExecuteInstruction(env) == Stopped(PastEnd)
    ensures env.pc + 2 <= MemorySize ==>
      ExecuteInstruction(env) == Effect(env.(pc := env.pc + 2), op, Values(env, env.pc + 1, 1))
  {
  }

  /** OUT: two operand bytes, or the end of memory. */
  lemma OutMatches(env: Env)
    requires Valid(env) && env.pc < MemorySize
    requires Decode(env.memory[env.pc].value) == Some(Out)
    ensures env.pc + 3 > MemorySize ==> ExecuteInstruction(env) == Stopped(PastEnd)
    ensures env.pc + 3 <= MemorySize ==>
      ExecuteInstruction(env) == Effect(env.(pc := env.pc + 3), Out, Values(env, env.pc + 1, 2))
  {
  }

  /** HLT: the memory listing, with the counter past the opcode. */
  lemma HltMatches(env: Env)
    requires Valid(env) && env.pc < MemorySize
    requires Decode(env.memory[env.pc].value) == Some(Hlt)
    ensures ExecuteInstruction(env) == Effect(env.(pc := env.pc + 1), Hlt, [])
  {
  }

  // ---------------------------------------------------------------------
  // The loop
  // ---------------------------------------------------------------------

  /**
   * `evaluate`: execute instructions while the counter is below
   * `MEMORY_SIZE`. No handler jumps or stores, so the counter only climbs,
   * memory, flags, labels and the used list stay as the assembler left them,
   * and a run that is not stopped ends with the counter exactly at the end.
   */
  function Evaluate(env: Env): (r: Run)
    requires Valid(env)
    ensures Valid(r.env)
    ensures r.stop == Ended ==> r.env.pc == MemorySize
    ensures r.env.memory == env.memory && r.env.used == env.used && r.env.labels == env.labels
    ensures r.env.flags == env.flags && r.env.firstPass == env.firstPass
    ensures r.env.currentInstruction >= env.currentInstruction
    ensures |r.output| <= r.env.currentInstruction - env.currentInstruction
    decreases MemorySize - env.pc
  {
    if env.pc >= MemorySize then Run(Ended, env, [])
    else
      match ExecuteInstruction(env)
      // the environment from before the failed step: C's counter would already be past the opcode
      case Stopped(s) => Run(s, env, [])
      case Next(e, printed) =>
        var rest := Evaluate(e);
        Run(rest.stop, rest.env, printed + rest.output)
  }

  /** MVI at the counter, with its operand before the end: the register takes the operand. */
  lemma MviStep(env: Env, r: Reg, v: Byte)
    requires Valid(env) && env.pc + 2 <= MemorySize
    requires env.memory[env.pc].value == Encode(Mvi(r)) && env.memory[env.pc + 1].value == v
    ensures ExecuteInstruction(env) == Done(ExecuteMvi(env.(pc := env.pc + 2), r, v))
  {
    DecodeEncode(Mvi(r));
    MviOpcodes();
    MviMatches(env, Mvi(r));
  }

  /** OUT at the counter, with both operand bytes before the end: A is printed. */
  lemma OutStep(env: Env)
    requires Valid(env) && env.pc + 3 <= MemorySize && env.memory[env.pc].value == Encode(Out)
    ensures ExecuteInstruction(env) ==
      Next(env.(pc := env.pc + 3, currentInstruction := env.currentInstruction + 1), [env.registers.a])
  {
    DecodeEncode(Out);
    OutMatches(env);
  }

  /** HLT at the counter stops the run with the memory listing. */
  lemma HltStep(env: Env)
    requires Valid(env) && env.pc < MemorySize && env.memory[env.pc].value == Encode(Hlt)
    ensures ExecuteInstruction(env) == Stopped(HltExit(ExecuteHlt(env.(pc := env.pc + 1))))
  {
    DecodeEncode(Hlt);
    HltMatches(env);
  }

  /** A run whose first step stops ends there, having printed nothing. */
  lemma EvaluateStops(env: Env)
    requires Valid(env) && env.pc < MemorySize && ExecuteInstruction(env).Stopped?
    ensures Evaluate(env) == Run(ExecuteInstruction(env).stop, env, [])
  {
  }

  /** A run that went on after a step is that step followed by the run from there. */
  lemma EvaluateStep(env: Env)
    requires Valid(env) && env.pc < MemorySize && ExecuteInstruction(env).Next?
    ensures
      var s := ExecuteInstruction(env);
      Evaluate(env) == Run(Evaluate(s.env).stop, Evaluate(s.env).env, s.printed + Evaluate(s.env).output)
  {
  }
}

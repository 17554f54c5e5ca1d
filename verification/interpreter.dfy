/**
 * `interpret`: tokenize the program text, assemble it in two passes into a
 * fresh environment, rewind the counter and run what was assembled.
 * Whatever the run ends with, `interpret` reports success; only a
 * tokenizer or assembler error ends it with another code.
 */
module Interpreter {
  import opened Common
  import opened CType
  import opened Instructions
  import opened Environment
  import opened Tokenizer
  import P = Parser
  import opened InstructionsFunctions
  import opened Runtime

  /**
   * The environment `interpret` builds: memory and registers zeroed by
   * `calloc`, the counter at `STARTER_MEMORY_ADDRESS`, S clear and Z set
   * because every register starts at zero, no labels, nothing used yet.
   */
  function InitialEnv(): (env: Env)
    ensures Valid(env) && env.pc == StarterMemoryAddress && env.currentInstruction == 1
    ensures forall r :: env.registers.Get(r) == 0
    ensures env.labels == [] && env.used == []
    ensures forall a :: 0 <= a < MemorySize ==> env.memory[a] == Cell(0, NoText)
  {
    Env(seq(MemorySize, _ => Cell(0, NoText)), StarterMemoryAddress, Registers(0, 0, 0),
        Flags(false, true), [], false, 1, [])
  }

  /** The initial flags are the ones a zero written to a register would set. */
  lemma InitialFlagsDescribeZero(r: Reg)
    ensures InitialEnv().flags == SetRegister(InitialEnv(), r, 0).flags
  {
    var e := SetRegister(InitialEnv(), r, 0);
    assert !e.flags.s && e.flags.z;
  }

  /** What `interpret` returns, and the run it made, if it got that far. */
  datatype Outcome = Outcome(code: ExitCode, run: Option<Run>)

  /** The assembled environment, rewound for execution. */
  function Loaded(env: Env): (e: Env)
    requires Valid(env)
    ensures Valid(e) && e.pc == StarterMemoryAddress && e.currentInstruction == 1
    ensures e.memory == env.memory && e.registers == env.registers && e.labels == env.labels
  {
    env.(pc := StarterMemoryAddress, currentInstruction := 1)
  }

  /**
   * `interpret`: a tokenizer error, or a text without statements, returns
   * at once with that code; an assembler error exits with its code; after
   * a run the result is success, whatever the run ended with.
   */
  function Interpret(text: string, cfg: Config): (r: Outcome)
    requires NoNul(text)
    ensures Tokenize(text).Err? ==> r == Outcome(Tokenize(text).code, None)
    ensures Tokenize(text).Ok? && Tokenize(text).value[0].kind == EOF ==> r == Outcome(Success, None)
    ensures r.run.Some? ==> r.code == Success
    ensures r.code != Success ==> r.run.None?
    ensures r.run.Some? ==>
      && Tokenize(text).Ok?
      && P.Parse(Tokenize(text).value, InitialEnv(), cfg).Ok?
      && var assembled := P.Parse(Tokenize(text).value, InitialEnv(), cfg).value;
      && r.run.value.env.memory == assembled.memory
      && r.run.value.env.labels == assembled.labels
      && r.run.value.env.flags == InitialEnv().flags
    ensures Tokenize(text).Ok? && Tokenize(text).value[0].kind != EOF ==>
      r == AssembleAndRun(Tokenize(text).value, cfg)
    ensures Tokenize(text).Ok? && Tokenize(text).value[0].kind != EOF && P.Parse(Tokenize(text).value, InitialEnv(), cfg).Err? ==>
      r == Outcome(P.Parse(Tokenize(text).value, InitialEnv(), cfg).code, None)
    ensures Tokenize(text).Ok? && Tokenize(text).value[0].kind != EOF && P.Parse(Tokenize(text).value, InitialEnv(), cfg).Ok? ==>
      r == Outcome(Success, Some(Evaluate(Loaded(P.Parse(Tokenize(text).value, InitialEnv(), cfg).value))))
  {
    hide *;
    match Tokenize(text)
    case Err(c) => Outcome(c, None)
    case Ok(tokens) =>
      if tokens[0].kind == EOF then Outcome(Success, None)
      else AssembleAndRun(tokens, cfg)
  }

  /**
   * The rest of `interpret` once there are statements: assemble into the
   * initial environment, then run from the start address.
   */
  function AssembleAndRun(tokens: seq<Token>, cfg: Config): (r: Outcome)
    requires forall i :: 0 <= i < |tokens| ==> NoNul(tokens[i].text)
    ensures P.Parse(tokens, InitialEnv(), cfg).Err? ==> r == Outcome(P.Parse(tokens, InitialEnv(), cfg).code, None)
    ensures r.run.Some? <==> P.Parse(tokens, InitialEnv(), cfg).Ok?
    ensures r.run.Some? ==>
      && r.code == Success
      && var assembled := P.Parse(tokens, InitialEnv(), cfg).value;
      && r.run.value.env.memory == assembled.memory
      && r.run.value.env.labels == assembled.labels
      && r.run.value.env.flags == InitialEnv().flags
    ensures r.run.Some? ==> r.run.value == Evaluate(Loaded(P.Parse(tokens, InitialEnv(), cfg).value))
  {
    match P.Parse(tokens, InitialEnv(), cfg)
    case Err(c) => Outcome(c, None)
    case Ok(env) => Outcome(Success, Some(Evaluate(Loaded(env))))
  }

  // ---------------------------------------------------------------------
  // Assembler and interpreter agree
  // ---------------------------------------------------------------------

  /** The operand shape each mnemonic reads, as the parser's families do. */
  predicate Shaped(m: Mnemonic, ops: P.Operands) {
    match m
    case HLT | NOP | RET | CMA | RAL | RAR | IN => ops.NoOperands?
    case DCR | INR | ADD | SUB | ANA | ORA | XRA => ops.OneReg?
    case MOV => ops.TwoRegs?
    case MVI => ops.RegImm?
    case ANI | ORI | XRI => ops.Imm8?
    case _ => ops.Imm16?
  }

  /** Operands the parser reads always have their mnemonic's shape. */
  lemma ReadOperandsShaped(env: Env, tokens: seq<Token>, j: nat, cfg: Config, m: Mnemonic)
    requires forall i :: 0 <= i < |tokens| ==> NoNul(tokens[i].text)
    requires P.ReadOperands(env, tokens, j, cfg, m).Some?
    ensures Shaped(m, P.ReadOperands(env, tokens, j, cfg, m).value)
  {
  }

  /** The first byte a statement assembles to is the opcode of its own mnemonic. */
  lemma AssembledOpcode(m: Mnemonic, ops: P.Operands) returns (op: Opcode)
    requires Shaped(m, ops) && P.Bytes(m, ops) != []
    ensures P.Bytes(m, ops)[0] == Encode(op) && Decode(Encode(op)) == Some(op) && MnemonicOf(op) == m
    ensures |P.Bytes(m, ops)| == 1 + (if ops.RegImm? || ops.Imm8? then 1 else if ops.Imm16? then 2 else 0)
  {
    match ops {
      case OneReg(r) => op := RegisterOpcode(m, r);
      case TwoRegs(d, s) => op := Mov(d, s).value; MovOpcodes();
      case RegImm(r, v) => op := Mvi(r); MviOpcodes();
      case _ => op := FixedOpcode(m, ops);
    }
    DecodeEncode(op);
  }

  /** DCR, INR and the register-only arithmetic: one opcode byte naming the register. */
  lemma RegisterOpcode(m: Mnemonic, r: Reg) returns (op: Opcode)
    requires m in {DCR, INR, ADD, SUB, ANA, ORA, XRA} && P.Bytes(m, P.OneReg(r)) != []
    ensures P.Bytes(m, P.OneReg(r)) == [Encode(op)] && MnemonicOf(op) == m
  {
    if m == DCR {
      op := Dcr(r);
      DcrOpcodes();
    } else if m == INR {
      op := Inr(r);
      InrOpcodes();
    } else {
      op := BCOnly(m, r).value;
      BCOnlyFinds(m, r);
    }
  }

  /** The mnemonics without a register: their one opcode, then the immediate or address bytes. */
  lemma FixedOpcode(m: Mnemonic, ops: P.Operands) returns (op: Opcode)
    requires Shaped(m, ops) && (ops.NoOperands? || ops.Imm8? || ops.Imm16?)
    ensures op == P.FixedOpcode(m) && MnemonicOf(op) == m
    ensures P.Bytes(m, ops)[0] == Encode(op)
    ensures |P.Bytes(m, ops)| == 1 + (if ops.Imm8? then 1 else if ops.Imm16? then 2 else 0)
  {
    op := P.FixedOpcode(m);
  }

  /**
   * An executable instruction takes as many bytes when the assembler lays
   * it down as the interpreter steps over when running it.
   */
  lemma AssembledLength(m: Mnemonic, ops: P.Operands)
    requires Shaped(m, ops) && P.Bytes(m, ops) != [] && Decode(P.Bytes(m, ops)[0]).Some?
    requires Executable(Decode(P.Bytes(m, ops)[0]).value)
    ensures |P.Bytes(m, ops)| == Length(Decode(P.Bytes(m, ops)[0]).value)
  {
    var op := AssembledOpcode(m, ops);
  }

  /**
   * Running what the second pass emitted for one statement: the run takes
   * the instruction's effect on the operand bytes the assembler wrote.
   */
  lemma RunsWhatWasEmitted(e0: Env, e: Env, m: Mnemonic, ops: P.Operands)
    requires Valid(e) && P.Emits(e0, e, P.Bytes(m, ops)) && Shaped(m, ops)
    requires P.Bytes(m, ops) != [] && Decode(P.Bytes(m, ops)[0]).Some?
    requires Executable(Decode(P.Bytes(m, ops)[0]).value)
    ensures
      var bytes := P.Bytes(m, ops);
      var op := Decode(bytes[0]).value;
      |bytes| == Length(op) &&
      ExecuteInstruction(e.(pc := e0.pc)) == Effect(e.(pc := e0.pc + |bytes|), op, bytes[1..])
  {
    hide ExecuteInstruction, Effect, P.Bytes, Decode, Executable, Length, Values;
    var bytes := P.Bytes(m, ops);
    AssembledLength(m, ops);
    EmittedValues(e0, e, bytes);
    ExecuteMatchesTable(e.(pc := e0.pc));
  }

  /** The bytes the second pass emitted read back as byte values from the counter on. */
  lemma EmittedValues(e0: Env, e: Env, bytes: seq<Byte>)
    requires Valid(e) && P.Emits(e0, e, bytes) && bytes != []
    ensures e0.pc < MemorySize && e.memory[e0.pc].value == bytes[0]
    ensures Values(e.(pc := e0.pc), e0.pc + 1, |bytes| - 1) == bytes[1..]
  {
  }

  // ---------------------------------------------------------------------
  // A whole run
  // ---------------------------------------------------------------------

  /** The byte values stored from `at` on are `bytes`. */
  predicate Holds(env: Env, at: nat, bytes: seq<Byte>) {
    && at + |bytes| <= |env.memory|
    && forall a :: at <= a < at + |bytes| ==> env.memory[a].value == bytes[a - at]
  }

  /**
   * `MVI A, v` / `OUT` / `HLT` at the counter: the run prints `v` once and
   * ends at HLT with A holding `v`.
   */
  lemma MviOutHlt(env: Env, v: Byte, port: Word)
    requires Valid(env) && env.pc + 6 <= MemorySize
    requires Holds(env, env.pc, [Encode(MviA), v, Encode(Out), Low(port), High(port), Encode(Hlt)])
    ensures Evaluate(env).output == [v]
    ensures Evaluate(env).stop.HltExit? && Evaluate(env).env.registers.a == v
  {
    hide Evaluate, ExecuteInstruction, Holds;
    HoldsFacts(env, v, port);
    MviStep(env, A, v);
    var e1 := ExecuteMvi(env.(pc := env.pc + 2), A, v).(currentInstruction := env.currentInstruction + 1);
    OutStep(e1);
    var e2 := e1.(pc := e1.pc + 3, currentInstruction := e1.currentInstruction + 1);
    HltStep(e2);
    EvaluateStops(e2);
    EvaluateStep(e1);
    EvaluateStep(env);
  }

  /** The six bytes of `MviOutHlt`, one by one. */
  lemma HoldsFacts(env: Env, v: Byte, port: Word)
    requires Valid(env) && env.pc + 6 <= MemorySize
    requires Holds(env, env.pc, [Encode(MviA), v, Encode(Out), Low(port), High(port), Encode(Hlt)])
    ensures env.memory[env.pc].value == Encode(Mvi(A)) && env.memory[env.pc + 1].value == v
    ensures env.memory[env.pc + 2].value == Encode(Out) && env.memory[env.pc + 5].value == Encode(Hlt)
  {
  }
}

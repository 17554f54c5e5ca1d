/**
 * The two-pass assembler: walks the token stream statement by statement,
 * recording labels in the first pass and writing opcodes and operands into
 * memory in the second.
 */
module Parser {
  import opened Common
  import opened CType
  import opened Utils
  import opened Instructions
  import opened Environment
  import opened Tokenizer

  datatype ParserState = ParserState(env: Env, tokens: seq<Token>, index: nat)

  /** The index stays within the stream; token texts are C strings. */
  predicate ValidState(st: ParserState) {
    && Valid(st.env)
    && st.index <= |st.tokens|
    && forall i :: 0 <= i < |st.tokens| ==> NoNul(st.tokens[i].text)
  }

  // ---------------------------------------------------------------------
  // The grammar, read ahead from a token position
  // ---------------------------------------------------------------------

  predicate KindAt(tokens: seq<Token>, j: nat, kind: TokenType) {
    j < |tokens| && tokens[j].kind == kind
  }

  /** The first character of a token's text, or the terminator of an empty one. */
  function FirstChar(t: Token): char {
    if |t.text| > 0 then t.text[0] else '\0'
  }

  /** The register named by a register token at `j`. */
  function RegAt(tokens: seq<Token>, j: nat): Option<Reg> {
    if KindAt(tokens, j, Register) then CharToRegister(FirstChar(tokens[j])) else None
  }

  /** The one-byte value of a hexadecimal token at `j`, when it is accepted. */
  function Hex1At(tokens: seq<Token>, j: nat, cfg: Config): Option<Byte>
    requires j < |tokens| ==> NoNul(tokens[j].text)
  {
    if !KindAt(tokens, j, Hexadecimal) then None
    else match StrToHex1(Some(tokens[j].text), cfg.maxIntToHex)
      case Ok(v) => if v <= cfg.hex1Max then Some(v) else None
      case Err(_) => None
  }

  /** The two-byte value of a hexadecimal token at `j`, when it is accepted. */
  function Hex2At(tokens: seq<Token>, j: nat, cfg: Config): Option<Word>
    requires j < |tokens| ==> NoNul(tokens[j].text)
  {
    if !KindAt(tokens, j, Hexadecimal) then None
    else match StrToHex2(Some(tokens[j].text))
      case Ok(v) => if v <= cfg.hex2Max then Some(v) else None
      case Err(_) => None
  }

  /**
   * A jump, call or memory address at `j`: a hexadecimal, or a label name,
   * which reads as 0 in the first pass and must be defined in the second.
   */
  function AddressAt(env: Env, tokens: seq<Token>, j: nat, cfg: Config): Option<Word>
    requires j < |tokens| ==> NoNul(tokens[j].text)
  {
    if KindAt(tokens, j, Hexadecimal) then Hex2At(tokens, j, cfg)
    else if KindAt(tokens, j, Identifier) then
      if env.firstPass then Some(0) else Lookup(env.labels, tokens[j].text)
    else None
  }

  /** The operands a statement carries after its mnemonic. */
  datatype Operands =
    | NoOperands
    | OneReg(r: Reg)
    | TwoRegs(dst: Reg, src: Reg)
    | RegImm(r: Reg, v: Byte)
    | Imm8(v: Byte)
    | Imm16(w: Word)

  /** How many tokens the operands of a mnemonic take. */
  function Arity(m: Mnemonic): nat {
    match m
    case HLT | NOP | RET | CMA | RAL | RAR | IN => 0
    case MOV | MVI => 3
    case _ => 1
  }

  /** The operands of `m` found at token `j`, or nothing when they do not parse. */
  function ReadOperands(env: Env, tokens: seq<Token>, j: nat, cfg: Config, m: Mnemonic): Option<Operands>
    requires forall i :: 0 <= i < |tokens| ==> NoNul(tokens[i].text)
  {
    match m
    case HLT | NOP | RET | CMA | RAL | RAR | IN => Some(NoOperands)
    case DCR | INR | ADD | SUB | ANA | ORA | XRA =>
      if RegAt(tokens, j).Some? then Some(OneReg(RegAt(tokens, j).value)) else None
    case MOV =>
      if RegAt(tokens, j).Some? && KindAt(tokens, j + 1, Comma) && RegAt(tokens, j + 2).Some?
      then Some(TwoRegs(RegAt(tokens, j).value, RegAt(tokens, j + 2).value)) else None
    case MVI =>
      if RegAt(tokens, j).Some? && KindAt(tokens, j + 1, Comma) && Hex1At(tokens, j + 2, cfg).Some?
      then Some(RegImm(RegAt(tokens, j).value, Hex1At(tokens, j + 2, cfg).value)) else None
    case ANI | ORI | XRI =>
      if Hex1At(tokens, j, cfg).Some? then Some(Imm8(Hex1At(tokens, j, cfg).value)) else None
    case CALL | JMP | JM | JNZ | JZ | LDA | STA =>
      if AddressAt(env, tokens, j, cfg).Some? then Some(Imm16(AddressAt(env, tokens, j, cfg).value)) else None
    case OUT =>
      if Hex2At(tokens, j, cfg).Some? then Some(Imm16(Hex2At(tokens, j, cfg).value)) else None
  }

  /** The opcode of a mnemonic that takes no register. */
  function FixedOpcode(m: Mnemonic): Opcode {
    match m
    case HLT => Hlt  case NOP => Nop  case RET => Ret  case CMA => Cma
    case RAL => Ral  case RAR => Rar  case ANI => Ani  case ORI => Ori  case XRI => Xri
    case CALL => Call  case JMP => Jmp  case JM => Jm  case JNZ => Jnz  case JZ => Jz
    case LDA => Lda  case STA => Sta  case OUT => Out
    case _ => In
  }

  /**
   * The bytes a statement assembles to: the opcode, then its operand, low
   * byte first. ADD, SUB, ANA, ORA and XRA on the accumulator and MOV from a
   * register to itself assemble to nothing.
   */
  function Bytes(m: Mnemonic, ops: Operands): seq<Byte> {
    match ops
    case NoOperands => [Encode(FixedOpcode(m))]
    case OneReg(r) =>
      if m == DCR then [Encode(Dcr(r))]
      else if m == INR then [Encode(Inr(r))]
      else if m in {ADD, SUB, ANA, ORA, XRA} && BCOnly(m, r).Some? then [Encode(BCOnly(m, r).value)]
      else []
    case TwoRegs(d, s) => if Mov(d, s).Some? then [Encode(Mov(d, s).value)] else []
    case RegImm(r, v) => [Encode(Mvi(r)), v]
    case Imm8(v) => [Encode(FixedOpcode(m)), v]
    case Imm16(w) => [Encode(FixedOpcode(m)), Low(w), High(w)]
  }

  /**
   * How many bytes the statement takes, from the tokens alone: the same in
   * both passes, whatever the labels hold.
   */
  function Width(m: Mnemonic, tokens: seq<Token>, j: nat): nat {
    match m
    case ADD | SUB | ANA | ORA | XRA => if RegAt(tokens, j) == Some(A) then 0 else 1
    case MOV => if RegAt(tokens, j) == RegAt(tokens, j + 2) then 0 else 1
    case MVI | ANI | ORI | XRI => 2
    case CALL | JMP | JM | JNZ | JZ | LDA | STA | OUT => 3
    case _ => 1
  }

  /** The second pass has room for `w` bytes at the counter, inside writable memory. */
  predicate Fits(env: Env, cfg: Config, w: nat) {
    env.firstPass || w == 0 || (env.pc + w <= MemorySize && cfg.startAddress <= env.pc)
  }

  /**
   * `e2` holds `bytes` from the counter of `e` on: the opcode annotated
   * with its name, the operand bytes with the empty annotation.
   */
  predicate Emits(e: Env, e2: Env, bytes: seq<Byte>) {
    && |e2.memory| == MemorySize
    && e.pc + |bytes| <= MemorySize
    && (|bytes| > 0 ==> e2.memory[e.pc] == Cell(bytes[0], Disassembly(bytes[0])))
    && forall k :: 1 <= k < |bytes| ==> e2.memory[e.pc + k] == Cell(bytes[k], Blank)
  }

  /**
   * `st2` is `st` after `k` more tokens and `w` more bytes: registers, flags,
   * labels and pass are unchanged; the first pass only moved the counter
   * (wrapping at 16 bits), the second moved it past the bytes it wrote.
   */
  predicate Moved(st: ParserState, st2: ParserState, k: nat, w: nat) {
    && ValidState(st2)
    && st2.tokens == st.tokens
    && st2.index == st.index + k
    && SameContext(st.env, st2.env)
    && (st.env.firstPass ==>
          st2.env.pc == (st.env.pc + w) % 0x1_0000 && st2.env.memory == st.env.memory && st2.env.used == st.env.used)
    && (!st.env.firstPass ==> st2.env.pc == st.env.pc + w)
  }

  /** The second pass of `addInstructionWithHex2` lays down the opcode and the word, low byte first. */
  lemma EmitsWithHex2(env: Env, cfg: Config, op: Opcode, v: Word)
    requires Valid(env) && !env.firstPass && AddInstructionWithHex2(env, cfg, op, v).Ok?
    ensures Emits(env, AddInstructionWithHex2(env, cfg, op, v).value, [Encode(op), Low(v), High(v)])
  {
    var bytes := [Encode(op), Low(v), High(v)];
    var e := AddInstructionWithHex2(env, cfg, op, v).value;
    assert e.memory[env.pc + 1] == Cell(bytes[1], Blank);
    assert e.memory[env.pc + 2] == Cell(bytes[2], Blank);
  }

  /** The second pass of `addInstruction` lays down the opcode. */
  lemma EmitsInstruction(env: Env, cfg: Config, op: Opcode)
    requires Valid(env) && !env.firstPass && AddInstruction(env, cfg, op).Ok?
    ensures Emits(env, AddInstruction(env, cfg, op).value, [Encode(op)])
  {
  }

  /** The second pass of `addInstructionWithHex1` lays down the opcode and the byte. */
  lemma EmitsWithHex1(env: Env, cfg: Config, op: Opcode, v: Byte)
    requires Valid(env) && !env.firstPass && AddInstructionWithHex1(env, cfg, op, v).Ok?
    ensures Emits(env, AddInstructionWithHex1(env, cfg, op, v).value, [Encode(op), v])
  {
    var bytes := [Encode(op), v];
    assert AddInstructionWithHex1(env, cfg, op, v).value.memory[env.pc + 1] == Cell(bytes[1], Blank);
  }

  /**
   * `addInstruction` as the last step of a statement that read the tokens
   * from `st` up to `st2`: it succeeds exactly when one byte fits, and then
   * the statement moved one byte and, in the second pass, emitted the opcode.
   */
  lemma StepInstruction(st: ParserState, st2: ParserState, cfg: Config, op: Opcode)
    requires ValidState(st) && ValidState(st2) && st2.env == st.env && st2.tokens == st.tokens
    requires st.index <= st2.index
    ensures AddInstruction(st2.env, cfg, op).Ok? <==> Fits(st.env, cfg, 1)
    ensures AddInstruction(st2.env, cfg, op).Ok? ==>
      var e := AddInstruction(st2.env, cfg, op).value;
      Moved(st, st2.(env := e), st2.index - st.index, 1) &&
      (!st.env.firstPass ==> Emits(st.env, e, [Encode(op)]))
  {
    if AddInstruction(st2.env, cfg, op).Ok? && !st.env.firstPass {
      EmitsInstruction(st.env, cfg, op);
    }
  }

  /** A statement that read the tokens from `st` up to `st2` and wrote nothing moved no bytes. */
  lemma StepNothing(st: ParserState, st2: ParserState, cfg: Config)
    requires ValidState(st) && ValidState(st2) && st2.env == st.env && st2.tokens == st.tokens
    requires st.index <= st2.index
    ensures Fits(st.env, cfg, 0) && Moved(st, st2, st2.index - st.index, 0)
  {
  }

  /** The same for `addInstructionWithHex1`: two bytes, the opcode and the value. */
  lemma StepWithHex1(st: ParserState, st2: ParserState, cfg: Config, op: Opcode, v: Byte)
    requires ValidState(st) && ValidState(st2) && st2.env == st.env && st2.tokens == st.tokens
    requires st.index <= st2.index
    ensures AddInstructionWithHex1(st2.env, cfg, op, v).Ok? <==> Fits(st.env, cfg, 2)
    ensures AddInstructionWithHex1(st2.env, cfg, op, v).Ok? ==>
      var e := AddInstructionWithHex1(st2.env, cfg, op, v).value;
      Moved(st, st2.(env := e), st2.index - st.index, 2) &&
      (!st.env.firstPass ==> Emits(st.env, e, [Encode(op), v]))
  {
    if AddInstructionWithHex1(st2.env, cfg, op, v).Ok? && !st.env.firstPass {
      EmitsWithHex1(st.env, cfg, op, v);
    }
  }

  /** The same for `addInstructionWithHex2`: three bytes, the opcode and the word, low byte first. */
  lemma StepWithHex2(st: ParserState, st2: ParserState, cfg: Config, op: Opcode, v: Word)
    requires ValidState(st) && ValidState(st2) && st2.env == st.env && st2.tokens == st.tokens
    requires st.index <= st2.index
    ensures AddInstructionWithHex2(st2.env, cfg, op, v).Ok? <==> Fits(st.env, cfg, 3)
    ensures AddInstructionWithHex2(st2.env, cfg, op, v).Ok? ==>
      var e := AddInstructionWithHex2(st2.env, cfg, op, v).value;
      Moved(st, st2.(env := e), st2.index - st.index, 3) &&
      (!st.env.firstPass ==> Emits(st.env, e, [Encode(op), Low(v), High(v)]))
  {
    if AddInstructionWithHex2(st2.env, cfg, op, v).Ok? && !st.env.firstPass {
      EmitsWithHex2(st.env, cfg, op, v);
    }
  }

  // ---------------------------------------------------------------------
  // Token access
  // ---------------------------------------------------------------------

  /** `peek`: the current token, or nothing past the end. */
  function Peek(st: ParserState): (t: Option<Token>)
    ensures t.None? <==> st.index >= |st.tokens|
    ensures t.Some? ==> t.value == st.tokens[st.index]
  {
    if st.index >= |st.tokens| then None else Some(st.tokens[st.index])
  }

  /** `consume`: one token further, never past the end. */
  function Consume(st: ParserState): (st2: ParserState)
    ensures st2.env == st.env && st2.tokens == st.tokens
    ensures st.index < |st.tokens| ==> st2.index == st.index + 1
    ensures st.index >= |st.tokens| ==> st2.index == st.index
  {
    if st.index < |st.tokens| then st.(index := st.index + 1) else st
  }

  /**
   * `expect_and_consume`: the current token when it has the expected type,
   * consuming it; a syntax error otherwise. On a mismatch at index 0 the C
   * code steps before the first token, so that case is excluded.
   */
  function ExpectAndConsume(st: ParserState, kind: TokenType): (r: Result<(Token, ParserState)>)
    requires ValidState(st)
    requires 0 < st.index || KindAt(st.tokens, st.index, kind)
    ensures r.Ok? <==> KindAt(st.tokens, st.index, kind)
    ensures r.Ok? ==> r.value.0 == st.tokens[st.index] && r.value.1 == st.(index := st.index + 1)
    ensures r.Ok? ==> ValidState(r.value.1)
    ensures r.Err? ==> r.code == InvalidArgument
  {
    match Peek(st)
    case Some(t) => if t.kind == kind then Ok((t, Consume(st))) else Err(InvalidArgument)
    case None => Err(InvalidArgument)
  }

  /** `consume_reg`: a register token naming A, B or C. */
  function ConsumeReg(st: ParserState): (r: Result<(Reg, ParserState)>)
    requires ValidState(st) && 0 < st.index
    ensures r.Ok? <==> RegAt(st.tokens, st.index).Some?
    ensures r.Ok? ==> r.value == (RegAt(st.tokens, st.index).value, st.(index := st.index + 1))
    ensures r.Ok? ==> ValidState(r.value.1)
    ensures r.Err? ==> r.code == InvalidArgument
  {
    var (t, st2) :- ExpectAndConsume(st, Register);
    match CharToRegister(FirstChar(t))
    case Some(reg) => Ok((reg, st2))
    case None => Err(InvalidArgument)
  }

  /** `consume_hex(state, 1)`: a hexadecimal token `str_to_hex1` accepts, within `HEX1_MAX`. */
  function ConsumeHex1(st: ParserState, cfg: Config): (r: Result<(Byte, ParserState)>)
    requires ValidState(st) && 0 < st.index
    ensures r.Ok? <==> Hex1At(st.tokens, st.index, cfg).Some?
    ensures r.Ok? ==> r.value == (Hex1At(st.tokens, st.index, cfg).value, st.(index := st.index + 1))
    ensures r.Ok? ==> ValidState(r.value.1)
    ensures r.Err? ==> r.code == InvalidArgument
  {
    var (t, st2) :- ExpectAndConsume(st, Hexadecimal);
    match StrToHex1(Some(t.text), cfg.maxIntToHex)
    case Err(_) => Err(InvalidArgument)
    case Ok(v) => if v > cfg.hex1Max then Err(InvalidArgument) else Ok((v, st2))
  }

  /** `consume_hex(state, 2)`: a hexadecimal token `str_to_hex2` accepts, within `HEX2_MAX`. */
  function ConsumeHex2(st: ParserState, cfg: Config): (r: Result<(Word, ParserState)>)
    requires ValidState(st) && 0 < st.index
    ensures r.Ok? <==> Hex2At(st.tokens, st.index, cfg).Some?
    ensures r.Ok? ==> r.value == (Hex2At(st.tokens, st.index, cfg).value, st.(index := st.index + 1))
    ensures r.Ok? ==> ValidState(r.value.1)
    ensures r.Err? ==> r.code == InvalidArgument
  {
    var (t, st2) :- ExpectAndConsume(st, Hexadecimal);
    match StrToHex2(Some(t.text))
    case Err(_) => Err(InvalidArgument)
    case Ok(v) => if v > cfg.hex2Max then Err(InvalidArgument) else Ok((v, st2))
  }

  /**
   * The operand of CALL, JMP, JM, JNZ, JZ, LDA and STA: a 16-bit
   * hexadecimal, or a label name resolved through the symbol table.
   */
  function ConsumeAddress(st: ParserState, cfg: Config): (r: Result<(Word, ParserState)>)
    requires ValidState(st) && 0 < st.index
    ensures r.Ok? <==> AddressAt(st.env, st.tokens, st.index, cfg).Some?
    ensures r.Ok? ==> r.value == (AddressAt(st.env, st.tokens, st.index, cfg).value, st.(index := st.index + 1))
    ensures r.Ok? ==> ValidState(r.value.1)
    ensures r.Err? ==> r.code == InvalidArgument
  {
    match Peek(st)
    case None => Err(InvalidArgument)
    case Some(t) =>
      if t.kind == Hexadecimal then ConsumeHex2(st, cfg)
      else if t.kind == Identifier then
        var a :- GetValueOfLabel(st.env, t.text);
        Ok((a, Consume(st)))
      else Err(InvalidArgument)
  }

  // ---------------------------------------------------------------------
  // Instruction families
  // ---------------------------------------------------------------------

  /** HLT, NOP, RET, CMA, RAL, RAR: the opcode alone. */
  function ParseNoOperand(st: ParserState, cfg: Config, m: Mnemonic): (r: Result<ParserState>)
    requires ValidState(st) && m in {HLT, NOP, RET, CMA, RAL, RAR}
    ensures r.Ok? <==> Fits(st.env, cfg, 1)
    ensures r.Ok? ==> Moved(st, r.value, 0, 1)
    ensures r.Ok? && !st.env.firstPass ==> Emits(st.env, r.value.env, [Encode(FixedOpcode(m))])
  {
    StepInstruction(st, st, cfg, FixedOpcode(m));
    var e :- AddInstruction(st.env, cfg, FixedOpcode(m));
    Ok(st.(env := e))
  }

  /** DCR and INR: a register, any of A, B or C. */
  function ParseAllReg(st: ParserState, cfg: Config, m: Mnemonic): (r: Result<ParserState>)
    requires ValidState(st) && 0 < st.index && m in {DCR, INR}
    ensures r.Ok? <==> RegAt(st.tokens, st.index).Some? && Fits(st.env, cfg, 1)
    ensures r.Ok? ==> Moved(st, r.value, 1, 1)
    ensures r.Ok? && !st.env.firstPass ==>
      var reg := RegAt(st.tokens, st.index).value;
      Emits(st.env, r.value.env, [Encode(if m == DCR then Dcr(reg) else Inr(reg))])
    ensures RegAt(st.tokens, st.index).None? ==> r == Err(InvalidArgument)
  {
    var (reg, st2) :- ConsumeReg(st);
    var op := if m == DCR then Dcr(reg) else Inr(reg);
    StepInstruction(st, st2, cfg, op);
    var e :- AddInstruction(st2.env, cfg, op);
    Ok(st2.(env := e))
  }

  /**
   * The end of a statement that read the tokens from `st` up to `st2`: the
   * opcode when the operands have one, nothing otherwise.
   */
  function AddOpcodeIfAny(st: ParserState, st2: ParserState, cfg: Config, op: Option<Opcode>): (r: Result<ParserState>)
    requires ValidState(st) && ValidState(st2) && st2.env == st.env && st2.tokens == st.tokens
    requires st.index <= st2.index
    ensures r.Ok? <==> Fits(st.env, cfg, if op.Some? then 1 else 0)
    ensures r.Ok? ==> Moved(st, r.value, st2.index - st.index, if op.Some? then 1 else 0)
    ensures r.Ok? && op.Some? && !st.env.firstPass ==> Emits(st.env, r.value.env, [Encode(op.value)])
    ensures r.Ok? && op.None? ==> r.value == st2
  {
    match op
    case None => StepNothing(st, st2, cfg); Ok(st2)
    case Some(o) =>
      StepInstruction(st, st2, cfg, o);
      var e :- AddInstruction(st2.env, cfg, o);
      Ok(st2.(env := e))
  }

  /** ADD, SUB, ANA, ORA, XRA: register B or C; register A is accepted and emits nothing. */
  function ParseBC(st: ParserState, cfg: Config, m: Mnemonic): (r: Result<ParserState>)
    requires ValidState(st) && 0 < st.index && m in {ADD, SUB, ANA, ORA, XRA}
    ensures r.Ok? <==> RegAt(st.tokens, st.index).Some? && Fits(st.env, cfg, Width(m, st.tokens, st.index))
    ensures r.Ok? ==> Moved(st, r.value, 1, Width(m, st.tokens, st.index))
    ensures r.Ok? && !st.env.firstPass && RegAt(st.tokens, st.index) != Some(A) ==>
      Emits(st.env, r.value.env, [Encode(BCOnly(m, RegAt(st.tokens, st.index).value).value)])
    ensures r.Ok? && RegAt(st.tokens, st.index) == Some(A) ==> r.value.env == st.env
    ensures RegAt(st.tokens, st.index).None? ==> r == Err(InvalidArgument)
  {
    var (reg, st2) :- ConsumeReg(st);
    AddOpcodeIfAny(st, st2, cfg, BCOnly(m, reg))
  }

  /** The operands of MOV: destination register, comma, source register. */
  function MovOperands(st: ParserState): (r: Result<(Reg, Reg, ParserState)>)
    requires ValidState(st) && 0 < st.index
    ensures r.Ok? <==> RegAt(st.tokens, st.index).Some? && KindAt(st.tokens, st.index + 1, Comma) &&
                       RegAt(st.tokens, st.index + 2).Some?
    ensures r.Ok? ==> r.value == (RegAt(st.tokens, st.index).value, RegAt(st.tokens, st.index + 2).value,
                                  st.(index := st.index + 3))
    ensures r.Ok? ==> ValidState(r.value.2)
    ensures r.Err? ==> r.code == InvalidArgument
  {
    var (d, st1) :- ConsumeReg(st);
    var (_, st2) :- ExpectAndConsume(st1, Comma);
    var (s, st3) :- ConsumeReg(st2);
    Ok((d, s, st3))
  }

  /** The operands of MVI: register, comma, one-byte value. */
  function MviOperands(st: ParserState, cfg: Config): (r: Result<(Reg, Byte, ParserState)>)
    requires ValidState(st) && 0 < st.index
    ensures r.Ok? <==> RegAt(st.tokens, st.index).Some? && KindAt(st.tokens, st.index + 1, Comma) &&
                       Hex1At(st.tokens, st.index + 2, cfg).Some?
    ensures r.Ok? ==> r.value == (RegAt(st.tokens, st.index).value, Hex1At(st.tokens, st.index + 2, cfg).value,
                                  st.(index := st.index + 3))
    ensures r.Ok? ==> ValidState(r.value.2)
    ensures r.Err? ==> r.code == InvalidArgument
  {
    var (reg, st1) :- ConsumeReg(st);
    var (_, st2) :- ExpectAndConsume(st1, Comma);
    var (v, st3) :- ConsumeHex1(st2, cfg);
    Ok((reg, v, st3))
  }

  /** MOV: destination, comma, source; the same register twice emits nothing. */
  function ParseMov(st: ParserState, cfg: Config): (r: Result<ParserState>)
    requires ValidState(st) && 0 < st.index
    ensures r.Ok? <==> ReadOperands(st.env, st.tokens, st.index, cfg, MOV).Some? &&
                       Fits(st.env, cfg, Width(MOV, st.tokens, st.index))
    ensures r.Ok? ==> Moved(st, r.value, 3, Width(MOV, st.tokens, st.index))
    ensures r.Ok? ==>
      var d := RegAt(st.tokens, st.index).value;
      var s := RegAt(st.tokens, st.index + 2).value;
      (d == s ==> r.value.env == st.env) &&
      (d != s && !st.env.firstPass ==> Emits(st.env, r.value.env, [Encode(Mov(d, s).value)]))
    ensures ReadOperands(st.env, st.tokens, st.index, cfg, MOV).None? ==> r == Err(InvalidArgument)
  {
    var (d, s, st3) :- MovOperands(st);
    AddOpcodeIfAny(st, st3, cfg, Mov(d, s))
  }

  /**
   * MVI: register, comma, one-byte value; the opcode then the value. The
   * source writes them with `addInstruction` and then `addToMemoryHex1`,
   * which, annotations aside, is what `addInstructionWithHex1` does.
   */
  function ParseMvi(st: ParserState, cfg: Config): (r: Result<ParserState>)
    requires ValidState(st) && 0 < st.index
    ensures r.Ok? <==> ReadOperands(st.env, st.tokens, st.index, cfg, MVI).Some? && Fits(st.env, cfg, 2)
    ensures r.Ok? ==> Moved(st, r.value, 3, 2)
    ensures r.Ok? && !st.env.firstPass ==>
      var reg := RegAt(st.tokens, st.index).value;
      var v := Hex1At(st.tokens, st.index + 2, cfg).value;
      Emits(st.env, r.value.env, [Encode(Mvi(reg)), v])
    ensures ReadOperands(st.env, st.tokens, st.index, cfg, MVI).None? ==> r == Err(InvalidArgument)
  {
    var (reg, v, st3) :- MviOperands(st, cfg);
    StepWithHex1(st, st3, cfg, Mvi(reg), v);
    var e :- AddInstructionWithHex1(st3.env, cfg, Mvi(reg), v);
    Ok(st3.(env := e))
  }

  /** ANI, ORI, XRI: a one-byte immediate after the opcode. */
  function ParseImmediate(st: ParserState, cfg: Config, m: Mnemonic): (r: Result<ParserState>)
    requires ValidState(st) && 0 < st.index && m in {ANI, ORI, XRI}
    ensures r.Ok? <==> Hex1At(st.tokens, st.index, cfg).Some? && Fits(st.env, cfg, 2)
    ensures r.Ok? ==> Moved(st, r.value, 1, 2)
    ensures r.Ok? && !st.env.firstPass ==>
      var v := Hex1At(st.tokens, st.index, cfg).value;
      Emits(st.env, r.value.env, [Encode(FixedOpcode(m)), v])
    ensures Hex1At(st.tokens, st.index, cfg).None? ==> r == Err(InvalidArgument)
  {
    var (v, st2) :- ConsumeHex1(st, cfg);
    StepWithHex1(st, st2, cfg, FixedOpcode(m), v);
    var e :- AddInstructionWithHex1(st2.env, cfg, FixedOpcode(m), v);
    Ok(st2.(env := e))
  }

  /** CALL, JMP, JM, JNZ, JZ, LDA, STA: the opcode then a 16-bit address, low byte first. */
  function ParseAddress(st: ParserState, cfg: Config, m: Mnemonic): (r: Result<ParserState>)
    requires ValidState(st) && 0 < st.index && m in {CALL, JMP, JM, JNZ, JZ, LDA, STA}
    ensures r.Ok? <==> AddressAt(st.env, st.tokens, st.index, cfg).Some? && Fits(st.env, cfg, 3)
    ensures r.Ok? ==> Moved(st, r.value, 1, 3)
    ensures r.Ok? && !st.env.firstPass ==>
      var a := AddressAt(st.env, st.tokens, st.index, cfg).value;
      Emits(st.env, r.value.env, [Encode(FixedOpcode(m)), Low(a), High(a)])
    ensures AddressAt(st.env, st.tokens, st.index, cfg).None? ==> r == Err(InvalidArgument)
  {
    var (a, st2) :- ConsumeAddress(st, cfg);
    StepWithHex2(st, st2, cfg, FixedOpcode(m), a);
    var e :- AddInstructionWithHex2(st2.env, cfg, FixedOpcode(m), a);
    Ok(st2.(env := e))
  }

  /** OUT: the opcode then a 16-bit hexadecimal operand. */
  function ParseOut(st: ParserState, cfg: Config): (r: Result<ParserState>)
    requires ValidState(st) && 0 < st.index
    ensures r.Ok? <==> Hex2At(st.tokens, st.index, cfg).Some? && Fits(st.env, cfg, 3)
    ensures r.Ok? ==> Moved(st, r.value, 1, 3)
    ensures r.Ok? && !st.env.firstPass ==>
      var v := Hex2At(st.tokens, st.index, cfg).value;
      Emits(st.env, r.value.env, [Encode(Out), Low(v), High(v)])
    ensures Hex2At(st.tokens, st.index, cfg).None? ==> r == Err(InvalidArgument)
  {
    var (v, st2) :- ConsumeHex2(st, cfg);
    StepWithHex2(st, st2, cfg, Out, v);
    var e :- AddInstructionWithHex2(st2.env, cfg, Out, v);
    Ok(st2.(env := e))
  }

  // ---------------------------------------------------------------------
  // Statements
  // ---------------------------------------------------------------------

  /**
   * The `parse_instruction` branches in the order they are tried. The
   * comparison is exact (`strcmp`), and IN has no branch.
   */
  const Branches: seq<Mnemonic> := [
    HLT, ADD, CALL, DCR, JMP, JM, JNZ, JZ, MOV, MVI, NOP, OUT, RET,
    SUB, ANA, ANI, CMA, INR, LDA, ORA, ORI, RAL, RAR, STA, XRA, XRI
  ]

  /** Every mnemonic but IN has a branch. */
  lemma BranchesCover(m: Mnemonic)
    ensures m in Branches <==> m != IN
  {
  }

  /** The branch chain of `parse_instruction` from branch `i` on, as written. */
  function DispatchFrom(text: string, i: nat): (m: Option<Mnemonic>)
    requires i <= |Branches|
    ensures m.Some? ==> Text(m.value) == text && m.value in Branches
    ensures m.None? ==> forall k :: i <= k < |Branches| ==> Text(Branches[k]) != text
    decreases |Branches| - i
  {
    if i == |Branches| then None
    else if text == Text(Branches[i]) then Some(Branches[i])
    else DispatchFrom(text, i + 1)
  }

  /**
   * The mnemonic whose branch of `parse_instruction` handles this exact
   * spelling: since no two mnemonics are spelled alike, the one mnemonic
   * other than IN spelled `text`, if there is one.
   */
  function Dispatch(text: string): (m: Option<Mnemonic>)
    ensures m.Some? ==> Text(m.value) == text && m.value != IN
    ensures m.None? ==> forall b :: b != IN ==> Text(b) != text
  {
    TextsInjective();
    if exists b :: b != IN && Text(b) == text then Some(var b :| b != IN && Text(b) == text; b)
    else None
  }

  /** Trying the branches in order picks the same mnemonic as `Dispatch`. */
  lemma DispatchIsBranchChain(text: string)
    ensures Dispatch(text) == DispatchFrom(text, 0)
  {
    match DispatchFrom(text, 0)
    case Some(m) =>
      BranchesCover(m);
      TextsInjective();
    case None =>
      if Dispatch(text).Some? {
        BranchesCover(Dispatch(text).value);
      }
  }

  /** A mnemonic spelled in upper case is dispatched to its own branch, except IN. */
  lemma DispatchComplete(m: Mnemonic)
    ensures Dispatch(Text(m)) == if m == IN then None else Some(m)
  {
    TextsInjective();
  }

  /**
   * What parsing the operands of `m` from `st` does: it succeeds exactly when
   * the operands read correctly and the bytes fit, moves past the operand
   * tokens and the bytes, lays the bytes down in the second pass, and a
   * malformed operand is a syntax error.
   */
  predicate MnemonicSpec(st: ParserState, cfg: Config, m: Mnemonic, r: Result<ParserState>)
    requires ValidState(st)
  {
    var ops := ReadOperands(st.env, st.tokens, st.index, cfg, m);
    var w := Width(m, st.tokens, st.index);
    && (r.Ok? <==> ops.Some? && Fits(st.env, cfg, w))
    && (r.Ok? ==> Moved(st, r.value, Arity(m), w))
    && (r.Ok? && !st.env.firstPass ==> Emits(st.env, r.value.env, Bytes(m, ops.value)))
    && (ops.None? ==> r == Err(InvalidArgument))
  }

  lemma NoOperandSpec(st: ParserState, cfg: Config, m: Mnemonic)
    requires ValidState(st) && m in {HLT, NOP, RET, CMA, RAL, RAR}
    ensures MnemonicSpec(st, cfg, m, ParseNoOperand(st, cfg, m))
  {
    hide ParseNoOperand;
  }

  lemma AllRegSpec(st: ParserState, cfg: Config, m: Mnemonic)
    requires ValidState(st) && 0 < st.index && m in {DCR, INR}
    ensures MnemonicSpec(st, cfg, m, ParseAllReg(st, cfg, m))
  {
    hide ParseAllReg;
  }

  lemma BCSpec(st: ParserState, cfg: Config, m: Mnemonic)
    requires ValidState(st) && 0 < st.index && m in {ADD, SUB, ANA, ORA, XRA}
    ensures MnemonicSpec(st, cfg, m, ParseBC(st, cfg, m))
  {
    hide ParseBC;
    var reg := RegAt(st.tokens, st.index);
    assert ReadOperands(st.env, st.tokens, st.index, cfg, m) == if reg.Some? then Some(OneReg(reg.value)) else None;
    assert Width(m, st.tokens, st.index) == if reg == Some(A) then 0 else 1;
    if reg.Some? {
      BCOnlyOpcodes();
      if reg.value == A {
        assert Bytes(m, OneReg(A)) == [];
      } else {
        assert Bytes(m, OneReg(reg.value)) == [Encode(BCOnly(m, reg.value).value)];
      }
    }
  }

  lemma MovSpec(st: ParserState, cfg: Config)
    requires ValidState(st) && 0 < st.index
    ensures MnemonicSpec(st, cfg, MOV, ParseMov(st, cfg))
  {
    hide ParseMov;
    MovOpcodes();
  }

  lemma MviSpec(st: ParserState, cfg: Config)
    requires ValidState(st) && 0 < st.index
    ensures MnemonicSpec(st, cfg, MVI, ParseMvi(st, cfg))
  {
    hide ParseMvi;
  }

  lemma ImmediateSpec(st: ParserState, cfg: Config, m: Mnemonic)
    requires ValidState(st) && 0 < st.index && m in {ANI, ORI, XRI}
    ensures MnemonicSpec(st, cfg, m, ParseImmediate(st, cfg, m))
  {
    hide ParseImmediate;
    var v := Hex1At(st.tokens, st.index, cfg);
    assert ReadOperands(st.env, st.tokens, st.index, cfg, m) == if v.Some? then Some(Imm8(v.value)) else None;
    assert Width(m, st.tokens, st.index) == 2;
  }

  lemma AddressSpec(st: ParserState, cfg: Config, m: Mnemonic)
    requires ValidState(st) && 0 < st.index && m in {CALL, JMP, JM, JNZ, JZ, LDA, STA}
    ensures MnemonicSpec(st, cfg, m, ParseAddress(st, cfg, m))
  {
    hide ParseAddress;
    var a := AddressAt(st.env, st.tokens, st.index, cfg);
    assert ReadOperands(st.env, st.tokens, st.index, cfg, m) == if a.Some? then Some(Imm16(a.value)) else None;
    assert Width(m, st.tokens, st.index) == 3;
    if a.Some? {
      assert Bytes(m, Imm16(a.value)) == [Encode(FixedOpcode(m)), Low(a.value), High(a.value)];
    }
  }

  lemma OutSpec(st: ParserState, cfg: Config)
    requires ValidState(st) && 0 < st.index
    ensures MnemonicSpec(st, cfg, OUT, ParseOut(st, cfg))
  {
    hide ParseOut;
    var v := Hex2At(st.tokens, st.index, cfg);
    assert ReadOperands(st.env, st.tokens, st.index, cfg, OUT) == if v.Some? then Some(Imm16(v.value)) else None;
    assert Width(OUT, st.tokens, st.index) == 3;
    if v.Some? {
      assert Bytes(OUT, Imm16(v.value)) == [Encode(Out), Low(v.value), High(v.value)];
    }
  }

  /** The operands and bytes of one mnemonic, after the mnemonic itself. */
  function ParseMnemonic(st: ParserState, cfg: Config, m: Mnemonic): (r: Result<ParserState>)
    requires ValidState(st) && 0 < st.index && m != IN
    ensures MnemonicSpec(st, cfg, m, r)
  {
    match m
    case HLT | NOP | RET | CMA | RAL | RAR => NoOperandSpec(st, cfg, m); ParseNoOperand(st, cfg, m)
    case DCR | INR => AllRegSpec(st, cfg, m); ParseAllReg(st, cfg, m)
    case ADD | SUB | ANA | ORA | XRA => BCSpec(st, cfg, m); ParseBC(st, cfg, m)
    case MOV => MovSpec(st, cfg); ParseMov(st, cfg)
    case MVI => MviSpec(st, cfg); ParseMvi(st, cfg)
    case ANI | ORI | XRI => ImmediateSpec(st, cfg, m); ParseImmediate(st, cfg, m)
    case CALL | JMP | JM | JNZ | JZ | LDA | STA => AddressSpec(st, cfg, m); ParseAddress(st, cfg, m)
    case OUT => OutSpec(st, cfg); ParseOut(st, cfg)
  }

  // ---------------------------------------------------------------------
  // Statement layout, from the tokens alone
  // ---------------------------------------------------------------------

  /**
   * How many tokens the statement at `j` takes: a label and its colon, or an
   * instruction and its operands; 0 for anything that is not a statement.
   */
  function StatementLength(tokens: seq<Token>, j: nat): nat {
    if KindAt(tokens, j, Identifier) then 2
    else if KindAt(tokens, j, Instruction) then
      match Dispatch(tokens[j].text)
      case None => 1
      case Some(m) => 1 + Arity(m)
    else 0
  }

  /** How many bytes the statement at `j` assembles to. */
  function StatementWidth(tokens: seq<Token>, j: nat): nat {
    if KindAt(tokens, j, Instruction) then
      match Dispatch(tokens[j].text)
      case None => 0
      case Some(m) => Width(m, tokens, j + 1)
    else 0
  }

  /**
   * Whether the statement at the index parses, as `parse_statement` and its
   * callees decide: an instruction whose operands read and whose bytes fit,
   * an instruction with no branch, a label followed by a colon, the end of
   * the stream, or nothing left to read.
   */
  predicate Accepts(st: ParserState, cfg: Config)
    requires ValidState(st)
  {
    var j := st.index;
    if KindAt(st.tokens, j, Instruction) then
      match Dispatch(st.tokens[j].text)
      case None => true
      case Some(m) =>
        ReadOperands(st.env, st.tokens, j + 1, cfg, m).Some? && Fits(st.env, cfg, Width(m, st.tokens, j + 1))
    else if KindAt(st.tokens, j, Identifier) then KindAt(st.tokens, j + 1, Colon)
    else j >= |st.tokens| || KindAt(st.tokens, j, EOF)
  }

  /**
   * `st2` is `st` after a statement of `k` tokens and `w` bytes: registers,
   * flags and pass are unchanged and the counter moved by `w`; the first
   * pass touched nothing else and may wrap the counter, the second never
   * wraps it.
   */
  predicate Stepped(st: ParserState, st2: ParserState, k: nat, w: nat) {
    && ValidState(st2)
    && st2.tokens == st.tokens
    && st2.index == st.index + k
    && st2.env.registers == st.env.registers
    && st2.env.flags == st.env.flags
    && st2.env.firstPass == st.env.firstPass
    && st2.env.pc == (st.env.pc + w) % 0x1_0000
    && (st.env.firstPass ==> st2.env.memory == st.env.memory && st2.env.used == st.env.used)
    && (!st.env.firstPass ==> st.env.pc + w < 0x1_0000)
  }

  /** One more instruction counted. */
  function Counted(st: ParserState): (st2: ParserState)
    ensures st2.env.currentInstruction == st.env.currentInstruction + 1
  {
    st.(env := st.env.(currentInstruction := st.env.currentInstruction + 1))
  }

  // ---------------------------------------------------------------------
  // Statements
  // ---------------------------------------------------------------------

  /**
   * `parse_instruction`: the mnemonic, then its operands when it has a
   * branch; the instruction count goes up either way. The type check of
   * `expect_and_consume` always passes here, since the caller peeked it.
   */
  function ParseInstruction(st: ParserState, cfg: Config): (r: Result<ParserState>)
    requires ValidState(st) && KindAt(st.tokens, st.index, Instruction)
    ensures r.Ok? <==> Accepts(st, cfg)
    ensures r.Ok? ==> Stepped(st, r.value, StatementLength(st.tokens, st.index), StatementWidth(st.tokens, st.index))
    ensures r.Ok? ==> r.value.env.labels == st.env.labels
    ensures r.Ok? ==> r.value.env.currentInstruction == st.env.currentInstruction + 1
    ensures Dispatch(st.tokens[st.index].text).None? ==>
      r == Ok(st.(index := st.index + 1, env := st.env.(currentInstruction := st.env.currentInstruction + 1)))
    ensures r.Ok? && !st.env.firstPass && Dispatch(st.tokens[st.index].text).Some? ==>
      var m := Dispatch(st.tokens[st.index].text).value;
      var ops := ReadOperands(st.env, st.tokens, st.index + 1, cfg, m);
      ops.Some? && Emits(st.env, r.value.env, Bytes(m, ops.value))
  {
    var st1 := st.(index := st.index + 1);
    match Dispatch(st.tokens[st.index].text)
    case None => Ok(Counted(st1))
    case Some(m) =>
      var r1 := ParseMnemonic(st1, cfg, m);
      InstructionStep(st, cfg, m, r1);
      if r1.Err? then Err(r1.code) else Ok(Counted(r1.value))
  }

  /** The operands of an instruction with a branch, seen from the start of the statement. */
  lemma InstructionStep(st: ParserState, cfg: Config, m: Mnemonic, r1: Result<ParserState>)
    requires ValidState(st) && KindAt(st.tokens, st.index, Instruction)
    requires Dispatch(st.tokens[st.index].text) == Some(m)
    requires MnemonicSpec(st.(index := st.index + 1), cfg, m, r1)
    ensures r1.Ok? <==> Accepts(st, cfg)
    ensures r1.Ok? ==>
      Stepped(st, Counted(r1.value), StatementLength(st.tokens, st.index), StatementWidth(st.tokens, st.index))
    ensures r1.Ok? ==> r1.value.env.labels == st.env.labels
    ensures r1.Ok? ==> r1.value.env.currentInstruction == st.env.currentInstruction
    ensures r1.Ok? && !st.env.firstPass ==>
      var ops := ReadOperands(st.env, st.tokens, st.index + 1, cfg, m);
      ops.Some? && Emits(st.env, r1.value.env, Bytes(m, ops.value))
  {
    InstructionAccepts(st, cfg, m, r1);
    if r1.Ok? {
      InstructionMoves(st, cfg, m, r1.value);
    }
  }

  lemma InstructionAccepts(st: ParserState, cfg: Config, m: Mnemonic, r1: Result<ParserState>)
    requires ValidState(st) && KindAt(st.tokens, st.index, Instruction)
    requires Dispatch(st.tokens[st.index].text) == Some(m)
    requires MnemonicSpec(st.(index := st.index + 1), cfg, m, r1)
    ensures r1.Ok? <==> Accepts(st, cfg)
  {
    hide ReadOperands, Width, Fits, Moved, Emits, Accepts, MnemonicSpec, Dispatch;
    AcceptsInstruction(st, cfg, m);
    SpecAccepts(st.(index := st.index + 1), cfg, m, r1);
  }

  /** What `Accepts` asks of an instruction with a branch. */
  lemma AcceptsInstruction(st: ParserState, cfg: Config, m: Mnemonic)
    requires ValidState(st) && KindAt(st.tokens, st.index, Instruction)
    requires Dispatch(st.tokens[st.index].text) == Some(m)
    ensures Accepts(st, cfg) <==>
      ReadOperands(st.env, st.tokens, st.index + 1, cfg, m).Some? && Fits(st.env, cfg, Width(m, st.tokens, st.index + 1))
  {
    hide ReadOperands, Width, Fits, Dispatch;
  }

  /** The acceptance half of `MnemonicSpec`. */
  lemma SpecAccepts(st: ParserState, cfg: Config, m: Mnemonic, r: Result<ParserState>)
    requires ValidState(st) && MnemonicSpec(st, cfg, m, r)
    ensures r.Ok? <==>
      ReadOperands(st.env, st.tokens, st.index, cfg, m).Some? && Fits(st.env, cfg, Width(m, st.tokens, st.index))
  {
    hide ReadOperands, Width, Fits, Moved, Emits;
  }

  lemma InstructionMoves(st: ParserState, cfg: Config, m: Mnemonic, st2: ParserState)
    requires ValidState(st) && KindAt(st.tokens, st.index, Instruction)
    requires Dispatch(st.tokens[st.index].text) == Some(m)
    requires Moved(st.(index := st.index + 1), st2, Arity(m), Width(m, st.tokens, st.index + 1))
    ensures Stepped(st, Counted(st2), StatementLength(st.tokens, st.index), StatementWidth(st.tokens, st.index))
  {
    assert StatementLength(st.tokens, st.index) == 1 + Arity(m);
    assert StatementWidth(st.tokens, st.index) == Width(m, st.tokens, st.index + 1);
    CountedStepped(st, st2, Arity(m), Width(m, st.tokens, st.index + 1));
  }

  /** Operands that moved by `a` tokens and `w` bytes make a statement of `1 + a` tokens. */
  lemma CountedStepped(st: ParserState, st2: ParserState, a: nat, w: nat)
    requires Moved(st.(index := st.index + 1), st2, a, w)
    ensures Stepped(st, Counted(st2), 1 + a, w)
  {
  }

  /**
   * `parse_identifier`: a label name, a colon, and the counter bound to the
   * name (in the first pass; `addLabel` ignores the second).
   */
  function ParseIdentifier(st: ParserState, cfg: Config): (r: Result<ParserState>)
    requires ValidState(st) && KindAt(st.tokens, st.index, Identifier)
    ensures r.Ok? <==> Accepts(st, cfg)
    ensures r.Err? ==> r.code == InvalidArgument
    ensures r.Ok? ==> Stepped(st, r.value, 2, 0)
    ensures r.Ok? ==> r.value.env.currentInstruction == st.env.currentInstruction
    ensures r.Ok? && st.env.firstPass ==>
      forall n :: Lookup(r.value.env.labels, n) ==
        if n == st.tokens[st.index].text then Some(st.env.pc) else Lookup(st.env.labels, n)
    ensures r.Ok? && !st.env.firstPass ==> r.value.env == st.env
  {
    var name := st.tokens[st.index].text;
    var st1 := st.(index := st.index + 1);
    var (_, st2) :- ExpectAndConsume(st1, Colon);
    Ok(st2.(env := AddLabel(st2.env, name, st2.env.pc)))
  }

  /**
   * `parse_statement`: one statement, or `true` at the end of the stream.
   * A statement that starts with anything but an instruction, a label or
   * the end is an invalid instruction.
   */
  function ParseStatement(st: ParserState, cfg: Config): (r: Result<(bool, ParserState)>)
    requires ValidState(st)
    ensures r.Ok? <==> Accepts(st, cfg)
    ensures r.Ok? ==> (r.value.0 <==> KindAt(st.tokens, st.index, EOF))
    ensures r.Ok? && r.value.0 ==> r.value.1 == st
    ensures r.Ok? && st.index < |st.tokens| && !r.value.0 ==>
      Stepped(st, r.value.1, StatementLength(st.tokens, st.index), StatementWidth(st.tokens, st.index)) &&
      st.index < r.value.1.index
    ensures r.Ok? && !st.env.firstPass ==> r.value.1.env.labels == st.env.labels
    ensures r.Ok? && st.env.firstPass ==>
      forall n :: Lookup(r.value.1.env.labels, n) ==
        if KindAt(st.tokens, st.index, Identifier) && st.tokens[st.index].text == n then Some(st.env.pc)
        else Lookup(st.env.labels, n)
    ensures st.index < |st.tokens| && !(st.tokens[st.index].kind in {Instruction, Identifier, EOF}) ==>
      r == Err(InvalidInstruction)
  {
    match Peek(st)
    case None => Ok((false, st))
    case Some(t) =>
      match t.kind
      case Instruction =>
        var st2 :- ParseInstruction(st, cfg);
        Ok((false, st2))
      case EOF => Ok((true, st))
      case Identifier =>
        var st2 :- ParseIdentifier(st, cfg);
        Ok((false, st2))
      case _ => Err(InvalidInstruction)
  }

  // ---------------------------------------------------------------------
  // The layout of the program, and each pass of it
  // ---------------------------------------------------------------------

  /**
   * Where the statements from token `j` on stop, when the first of them
   * starts at counter `pc`: the index of the first token that does not start
   * a statement, and the counter there (wrapping at 16 bits).
   */
  function LayoutEnd(tokens: seq<Token>, j: nat, pc: Word): (nat, Word)
    decreases |tokens| - j
  {
    var k := StatementLength(tokens, j);
    if k == 0 then (j, pc)
    else LayoutEnd(tokens, j + k, (pc + StatementWidth(tokens, j)) % 0x1_0000)
  }

  /** The counter at the last statement from `j` on that defines label `n`, if any. */
  function LabelAddress(tokens: seq<Token>, j: nat, pc: Word, n: string): Option<Word>
    decreases |tokens| - j
  {
    var k := StatementLength(tokens, j);
    if k == 0 then None
    else
      var later := LabelAddress(tokens, j + k, (pc + StatementWidth(tokens, j)) % 0x1_0000, n);
      if later.None? && KindAt(tokens, j, Identifier) && tokens[j].text == n then Some(pc) else later
  }

  /**
   * The counter a pass has, running from `st`, at the last statement that
   * defines label `n`; nothing when it never does or the pass fails.
   */
  function PassDefinition(st: ParserState, cfg: Config, n: string): Option<Word>
    requires ValidState(st)
    decreases |st.tokens| - st.index
  {
    if st.index >= |st.tokens| then None
    else match ParseStatement(st, cfg)
      case Err(_) => None
      case Ok((done, st2)) =>
        if done then None
        else
          var later := PassDefinition(st2, cfg, n);
          if later.None? && KindAt(st.tokens, st.index, Identifier) && st.tokens[st.index].text == n
          then Some(st.env.pc) else later
  }

  /** One statement of the layout. */
  lemma LayoutStep(tokens: seq<Token>, j: nat, pc: Word, n: string)
    requires 0 < StatementLength(tokens, j)
    ensures var k := StatementLength(tokens, j);
      var pc2 := (pc + StatementWidth(tokens, j)) % 0x1_0000;
      && LayoutEnd(tokens, j, pc) == LayoutEnd(tokens, j + k, pc2)
      && LabelAddress(tokens, j, pc, n) ==
           var later := LabelAddress(tokens, j + k, pc2, n);
           if later.None? && KindAt(tokens, j, Identifier) && tokens[j].text == n then Some(pc) else later
  {
  }

  /** One statement of the second pass, as `PassDefinition` sees it. */
  lemma DefinitionStep(st: ParserState, cfg: Config, st2: ParserState, n: string)
    requires ValidState(st) && ParseStatement(st, cfg) == Ok((false, st2)) && st.index < |st.tokens|
    ensures PassDefinition(st, cfg, n) ==
      var later := PassDefinition(st2, cfg, n);
      if later.None? && KindAt(st.tokens, st.index, Identifier) && st.tokens[st.index].text == n
      then Some(st.env.pc) else later
  {
  }

  /**
   * The binding of label `n` by the first pass follows the layout back over
   * the statement at `j`, which takes the pass to token `j2` and counter
   * `pc2`: `before`, `after` and `result` are the bindings before the
   * statement, after it, and at the end of the pass.
   */
  lemma BindingFollowsLayout(tokens: seq<Token>, j: nat, pc: Word, j2: nat, pc2: Word, n: string,
                             before: Option<Word>, after: Option<Word>, result: Option<Word>)
    requires 0 < StatementLength(tokens, j) && j2 == j + StatementLength(tokens, j)
    requires pc2 == (pc + StatementWidth(tokens, j)) % 0x1_0000
    requires after == if KindAt(tokens, j, Identifier) && tokens[j].text == n then Some(pc) else before
    requires result == var a := LabelAddress(tokens, j2, pc2, n); if a.Some? then a else after
    ensures result == var a := LabelAddress(tokens, j, pc, n); if a.Some? then a else before
  {
    LayoutStep(tokens, j, pc, n);
    Combine(LabelAddress(tokens, j, pc, n), LabelAddress(tokens, j2, pc2, n),
            KindAt(tokens, j, Identifier) && tokens[j].text == n, pc, before, after, result);
  }

  /**
   * The counter the second pass has at the last definition of label `n`
   * follows the layout back over the statement at `j`: `d` from `j` on,
   * `d2` from `j2` on.
   */
  lemma DefinitionFollowsLayout(tokens: seq<Token>, j: nat, pc: Word, j2: nat, pc2: Word, n: string,
                                d: Option<Word>, d2: Option<Word>)
    requires 0 < StatementLength(tokens, j) && j2 == j + StatementLength(tokens, j)
    requires pc2 == (pc + StatementWidth(tokens, j)) % 0x1_0000
    requires d == if d2.None? && KindAt(tokens, j, Identifier) && tokens[j].text == n then Some(pc) else d2
    requires d2 == LabelAddress(tokens, j2, pc2, n)
    ensures d == LabelAddress(tokens, j, pc, n)
  {
    LayoutStep(tokens, j, pc, n);
  }

  /** The case analysis behind one step of the label facts. */
  lemma Combine(a: Option<Word>, later: Option<Word>, here: bool, pc: Word,
                before: Option<Word>, after: Option<Word>, result: Option<Word>)
    requires a == if later.None? && here then Some(pc) else later
    requires after == if here then Some(pc) else before
    requires result == if later.Some? then later else after
    ensures result == if a.Some? then a else before
  {
  }

  /** What the pass learns from one statement it gets past without stopping. */
  lemma StatementFacts(st: ParserState, cfg: Config, st2: ParserState)
    requires ValidState(st) && st.index < |st.tokens| && ParseStatement(st, cfg) == Ok((false, st2))
    ensures 0 < StatementLength(st.tokens, st.index)
    ensures ValidState(st2) && st2.tokens == st.tokens && st2.index == st.index + StatementLength(st.tokens, st.index)
    ensures st2.env.firstPass == st.env.firstPass
    ensures st2.env.pc == (st.env.pc + StatementWidth(st.tokens, st.index)) % 0x1_0000
    ensures st.env.firstPass ==>
      forall n :: Lookup(st2.env.labels, n) ==
        if KindAt(st.tokens, st.index, Identifier) && st.tokens[st.index].text == n then Some(st.env.pc)
        else Lookup(st.env.labels, n)
  {
    hide ParseStatement;
  }

  /** The layout facts of `RunPass`, carried back over one statement. */
  lemma PassFollowsLayout(st: ParserState, cfg: Config, st2: ParserState, r: ParserState)
    requires ValidState(st) && st.index < |st.tokens| && ParseStatement(st, cfg) == Ok((false, st2))
    requires (r.index, r.env.pc) == LayoutEnd(st2.tokens, st2.index, st2.env.pc)
    requires st.env.firstPass ==>
      forall n :: Lookup(r.env.labels, n) ==
        var a := LabelAddress(st2.tokens, st2.index, st2.env.pc, n);
        if a.Some? then a else Lookup(st2.env.labels, n)
    requires !st.env.firstPass ==>
      forall n :: PassDefinition(st2, cfg, n) == LabelAddress(st2.tokens, st2.index, st2.env.pc, n)
    ensures (r.index, r.env.pc) == LayoutEnd(st.tokens, st.index, st.env.pc)
    ensures st.env.firstPass ==>
      forall n :: Lookup(r.env.labels, n) ==
        var a := LabelAddress(st.tokens, st.index, st.env.pc, n);
        if a.Some? then a else Lookup(st.env.labels, n)
    ensures !st.env.firstPass ==>
      forall n :: PassDefinition(st, cfg, n) == LabelAddress(st.tokens, st.index, st.env.pc, n)
  {
    hide *;
    StatementFacts(st, cfg, st2);
    LayoutStep(st.tokens, st.index, st.env.pc, []);
    forall n | st.env.firstPass
      ensures Lookup(r.env.labels, n) ==
        var a := LabelAddress(st.tokens, st.index, st.env.pc, n);
        if a.Some? then a else Lookup(st.env.labels, n)
    {
      BindingFollowsLayout(st.tokens, st.index, st.env.pc, st2.index, st2.env.pc, n,
                           Lookup(st.env.labels, n), Lookup(st2.env.labels, n), Lookup(r.env.labels, n));
    }
    forall n | !st.env.firstPass
      ensures PassDefinition(st, cfg, n) == LabelAddress(st.tokens, st.index, st.env.pc, n)
    {
      DefinitionStep(st, cfg, st2, n);
      DefinitionFollowsLayout(st.tokens, st.index, st.env.pc, st2.index, st2.env.pc, n,
                              PassDefinition(st, cfg, n), PassDefinition(st2, cfg, n));
    }
  }

  /**
   * One pass of `parse`: statements until the end of the stream or the
   * EOF token, whichever comes first. Either pass follows the layout: it
   * stops where the layout does; the first pass binds each label the
   * statements define to the layout's address for it; the second pass has,
   * at the last definition of each label, the layout's address for it.
   */
  function RunPass(st: ParserState, cfg: Config): (r: Result<ParserState>)
    requires ValidState(st)
    ensures r.Ok? ==> ValidState(r.value) && r.value.tokens == st.tokens
    ensures r.Ok? ==> r.value.index == |st.tokens| || KindAt(st.tokens, r.value.index, EOF)
    ensures r.Ok? ==>
      r.value.env.firstPass == st.env.firstPass &&
      r.value.env.registers == st.env.registers && r.value.env.flags == st.env.flags
    ensures r.Ok? && st.env.firstPass ==> r.value.env.memory == st.env.memory && r.value.env.used == st.env.used
    ensures r.Ok? && !st.env.firstPass ==> r.value.env.labels == st.env.labels
    ensures r.Ok? ==> (r.value.index, r.value.env.pc) == LayoutEnd(st.tokens, st.index, st.env.pc)
    ensures r.Ok? && st.env.firstPass ==>
      forall n :: Lookup(r.value.env.labels, n) ==
        var a := LabelAddress(st.tokens, st.index, st.env.pc, n);
        if a.Some? then a else Lookup(st.env.labels, n)
    ensures r.Ok? && !st.env.firstPass ==>
      forall n :: PassDefinition(st, cfg, n) == LabelAddress(st.tokens, st.index, st.env.pc, n)
    decreases |st.tokens| - st.index
  {
    if st.index >= |st.tokens| then Ok(st)
    else
      var (done, st2) :- ParseStatement(st, cfg);
      if done then Ok(st2)
      else
        var r2 := RunPass(st2, cfg);
        if r2.Err? then r2
        else
          PassFollowsLayout(st, cfg, st2, r2.value);
          r2
  }

  /**
   * `parse`: the first pass only lays out the counter and records labels;
   * then the index, the counter and the instruction count are reset and the
   * second pass writes the bytes, resolving labels against the first pass.
   */
  function Parse(tokens: seq<Token>, env: Env, cfg: Config): (r: Result<Env>)
    requires Valid(env) && forall i :: 0 <= i < |tokens| ==> NoNul(tokens[i].text)
    ensures r.Ok? ==> Valid(r.value) && !r.value.firstPass
    ensures r.Ok? ==> r.value.registers == env.registers && r.value.flags == env.flags
    ensures r.Ok? ==> RunPass(FirstPassStart(tokens, env), cfg).Ok?
    ensures r.Ok? ==> r.value.labels == RunPass(FirstPassStart(tokens, env), cfg).value.env.labels
    ensures r.Ok? ==> r.value.pc == LayoutEnd(tokens, 0, StarterMemoryAddress).1
    ensures r.Ok? ==>
      forall n :: Lookup(r.value.labels, n) ==
        var a := LabelAddress(tokens, 0, env.pc, n);
        if a.Some? then a else Lookup(env.labels, n)
  {
    var p1 :- RunPass(FirstPassStart(tokens, env), cfg);
    var p2 :- RunPass(Rewound(p1), cfg);
    Ok(p2.env)
  }

  /** The first pass starts at the first token, in dry-run mode, from the caller's counter. */
  function FirstPassStart(tokens: seq<Token>, env: Env): (st: ParserState)
    requires Valid(env) && forall i :: 0 <= i < |tokens| ==> NoNul(tokens[i].text)
    ensures ValidState(st) && st.env.firstPass && st.index == 0 && st.tokens == tokens
    ensures st.env.pc == env.pc && st.env.labels == env.labels
  {
    ParserState(env.(firstPass := true), tokens, 0)
  }

  /**
   * The second pass starts at the first token again, writing, with the
   * counter at `STARTER_MEMORY_ADDRESS` and the instruction count at 0;
   * the labels of the first pass are kept.
   */
  function Rewound(p1: ParserState): (st: ParserState)
    requires ValidState(p1)
    ensures ValidState(st) && !st.env.firstPass && st.index == 0 && st.tokens == p1.tokens
    ensures st.env.pc == StarterMemoryAddress && st.env.currentInstruction == 0
    ensures st.env.labels == p1.env.labels
  {
    ParserState(p1.env.(firstPass := false, pc := StarterMemoryAddress, currentInstruction := 0), p1.tokens, 0)
  }
}

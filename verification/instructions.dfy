/**
 * The instruction set: the mnemonic table the tokenizer recognises, the
 * opcode byte of every mnemonic/register combination, the disassembly name
 * of each opcode and its T-state count.
 */
module Instructions {
  import opened Common
  import opened CType

  /** The three registers: accumulator, B and C. */
  datatype Reg = A | B | C

  /** The mnemonics of the assembly language. */
  datatype Mnemonic =
    | ADD | ANA | ANI | CALL | CMA | DCR | HLT | INR | IN | JMP | JM | JNZ | JZ | LDA
    | MOV | MVI | NOP | ORA | ORI | OUT | RAL | RAR | RET | STA | SUB | XRA | XRI

  function Text(m: Mnemonic): string {
    match m
    case ADD => "ADD"   case ANA => "ANA"   case ANI => "ANI"   case CALL => "CALL"
    case CMA => "CMA"   case DCR => "DCR"   case HLT => "HLT"   case INR => "INR"
    case IN => "IN"     case JMP => "JMP"   case JM => "JM"     case JNZ => "JNZ"
    case JZ => "JZ"     case LDA => "LDA"   case MOV => "MOV"   case MVI => "MVI"
    case NOP => "NOP"   case ORA => "ORA"   case ORI => "ORI"   case OUT => "OUT"
    case RAL => "RAL"   case RAR => "RAR"   case RET => "RET"   case STA => "STA"
    case SUB => "SUB"   case XRA => "XRA"   case XRI => "XRI"
  }

  /** The mnemonics in table order. */
  const AllMnemonics: seq<Mnemonic> := [
    ADD, ANA, ANI, CALL, CMA, DCR, HLT, INR, IN, JMP, JM, JNZ, JZ, LDA,
    MOV, MVI, NOP, ORA, ORI, OUT, RAL, RAR, RET, STA, SUB, XRA, XRI
  ]

  /** `INSTRUCTIONS`: the 27 mnemonic spellings, in table order. */
  const Mnemonics: seq<string> := [
    "ADD", "ANA", "ANI", "CALL", "CMA", "DCR", "HLT", "INR", "IN", "JMP", "JM", "JNZ",
    "JZ", "LDA", "MOV", "MVI", "NOP", "ORA", "ORI", "OUT", "RAL", "RAR", "RET", "STA",
    "SUB", "XRA", "XRI"
  ]

  /** The position of each mnemonic in the table. */
  function Index(m: Mnemonic): (i: nat)
    ensures i < |AllMnemonics| && AllMnemonics[i] == m
  {
    match m
    case ADD => 0   case ANA => 1   case ANI => 2   case CALL => 3  case CMA => 4
    case DCR => 5   case HLT => 6   case INR => 7   case IN => 8    case JMP => 9
    case JM => 10   case JNZ => 11  case JZ => 12   case LDA => 13  case MOV => 14
    case MVI => 15  case NOP => 16  case ORA => 17  case ORI => 18  case OUT => 19
    case RAL => 20  case RAR => 21  case RET => 22  case STA => 23  case SUB => 24
    case XRA => 25  case XRI => 26
  }

  /** The table spells the mnemonics in table order, split in three to keep each proof small. */
  lemma SpellingsLow()
    ensures forall i :: 0 <= i < 9 ==> Mnemonics[i] == Text(AllMnemonics[i])
  {
  }

  lemma SpellingsMid()
    ensures forall i :: 9 <= i < 18 ==> Mnemonics[i] == Text(AllMnemonics[i])
  {
  }

  lemma SpellingsHigh()
    ensures forall i :: 18 <= i < 27 ==> Mnemonics[i] == Text(AllMnemonics[i])
  {
  }

  /** The table spells every mnemonic, and only mnemonics. */
  lemma MnemonicTable()
    ensures |Mnemonics| == |AllMnemonics| == 27
    ensures forall i :: 0 <= i < |Mnemonics| ==> Mnemonics[i] == Text(AllMnemonics[i])
    ensures forall m :: Mnemonics[Index(m)] == Text(m)
  {
    SpellingsLow();
    SpellingsMid();
    SpellingsHigh();
  }

  /** No two mnemonics are spelled alike. */
  lemma TextInjective(m1: Mnemonic, m2: Mnemonic)
    requires Text(m1) == Text(m2)
    ensures m1 == m2
  {
    assert Text(m1)[0] == Text(m2)[0] && |Text(m1)| == |Text(m2)|;
  }

  /** No two mnemonics are spelled alike, for all pairs at once. */
  lemma TextsInjective()
    ensures forall m1, m2 :: Text(m1) == Text(m2) ==> m1 == m2
  {
    forall m1, m2 | Text(m1) == Text(m2) ensures m1 == m2 {
      TextInjective(m1, m2);
    }
  }

  // ---------------------------------------------------------------------
  // Opcodes
  // ---------------------------------------------------------------------

  /** `Opcode_t`: one constructor per encoded mnemonic/operand combination. */
  datatype Opcode =
    | AddB | AddC | AnaB | AnaC | Ani | Call | Cma | DcrA | DcrB | DcrC | Hlt | In
    | InrA | InrB | InrC | Jmp | Jm | Jnz | Jz | Lda
    | MovAB | MovAC | MovBA | MovBC | MovCA | MovCB | MviA | MviB | MviC | Nop
    | OraB | OraC | Ori | Out | Ral | Rar | Ret | Sta | SubB | SubC | XraB | XraC | Xri

  /** The byte value of each opcode. */
  function Encode(op: Opcode): Byte {
    match op
    case AddB => 0x80   case AddC => 0x81
    case AnaB => 0xA0   case AnaC => 0xA1   case Ani => 0xE6
    case Call => 0xCD   case Cma => 0x2F
    case DcrA => 0x3D   case DcrB => 0x05   case DcrC => 0x0D
    case Hlt => 0x76    case In => 0xDB
    case InrA => 0x3C   case InrB => 0x04   case InrC => 0x0C
    case Jmp => 0xC3    case Jm => 0xFA     case Jnz => 0xC2    case Jz => 0xCA
    case Lda => 0x3A
    case MovAB => 0x78  case MovAC => 0x79  case MovBA => 0x47
    case MovBC => 0x41  case MovCA => 0x4F  case MovCB => 0x48
    case MviA => 0x3E   case MviB => 0x06   case MviC => 0x0E
    case Nop => 0x00
    case OraB => 0xB0   case OraC => 0xB1   case Ori => 0xF6
    case Out => 0xD3
    case Ral => 0x17    case Rar => 0x1F    case Ret => 0xC9    case Sta => 0x32
    case SubB => 0x90   case SubC => 0x91
    case XraB => 0xA8   case XraC => 0xA9   case Xri => 0xEE
  }

  /** The opcode a byte stands for, if any. */
  function Decode(b: Byte): Option<Opcode> {
    match b
    case 0x80 => Some(AddB)   case 0x81 => Some(AddC)
    case 0xA0 => Some(AnaB)   case 0xA1 => Some(AnaC)   case 0xE6 => Some(Ani)
    case 0xCD => Some(Call)   case 0x2F => Some(Cma)
    case 0x3D => Some(DcrA)   case 0x05 => Some(DcrB)   case 0x0D => Some(DcrC)
    case 0x76 => Some(Hlt)    case 0xDB => Some(In)
    case 0x3C => Some(InrA)   case 0x04 => Some(InrB)   case 0x0C => Some(InrC)
    case 0xC3 => Some(Jmp)    case 0xFA => Some(Jm)     case 0xC2 => Some(Jnz)
    case 0xCA => Some(Jz)     case 0x3A => Some(Lda)
    case 0x78 => Some(MovAB)  case 0x79 => Some(MovAC)  case 0x47 => Some(MovBA)
    case 0x41 => Some(MovBC)  case 0x4F => Some(MovCA)  case 0x48 => Some(MovCB)
    case 0x3E => Some(MviA)   case 0x06 => Some(MviB)   case 0x0E => Some(MviC)
    case 0x00 => Some(Nop)
    case 0xB0 => Some(OraB)   case 0xB1 => Some(OraC)   case 0xF6 => Some(Ori)
    case 0xD3 => Some(Out)
    case 0x17 => Some(Ral)    case 0x1F => Some(Rar)    case 0xC9 => Some(Ret)
    case 0x32 => Some(Sta)
    case 0x90 => Some(SubB)   case 0x91 => Some(SubC)
    case 0xA8 => Some(XraB)   case 0xA9 => Some(XraC)   case 0xEE => Some(Xri)
    case _ => None
  }

  /** Decoding undoes encoding, so the opcode values are pairwise distinct. */
  lemma DecodeEncode(op: Opcode)
    ensures Decode(Encode(op)) == Some(op)
  {
    match op
    case AddB => case AddC => case AnaB => case AnaC => case Ani => case Call => case Cma =>
    case DcrA => case DcrB => case DcrC => case Hlt => case In => case InrA => case InrB =>
    case InrC => case Jmp => case Jm => case Jnz => case Jz => case Lda => case MovAB =>
    case MovAC => case MovBA => case MovBC => case MovCA => case MovCB => case MviA =>
    case MviB => case MviC => case Nop => case OraB => case OraC => case Ori => case Out =>
    case Ral => case Rar => case Ret => case Sta => case SubB => case SubC => case XraB =>
    case XraC => case Xri =>
  }

  /** A byte that decodes is the encoding of what it decodes to. */
  lemma EncodeDecode(b: Byte)
    ensures Decode(b).Some? ==> Encode(Decode(b).value) == b
  {
    if Decode(b).Some? {
      match Decode(b).value
      case AddB => case AddC => case AnaB => case AnaC => case Ani => case Call => case Cma =>
      case DcrA => case DcrB => case DcrC => case Hlt => case In => case InrA => case InrB =>
      case InrC => case Jmp => case Jm => case Jnz => case Jz => case Lda => case MovAB =>
      case MovAC => case MovBA => case MovBC => case MovCA => case MovCB => case MviA =>
      case MviB => case MviC => case Nop => case OraB => case OraC => case Ori => case Out =>
      case Ral => case Rar => case Ret => case Sta => case SubB => case SubC => case XraB =>
      case XraC => case Xri =>
    }
  }

  lemma EncodeInjective(op1: Opcode, op2: Opcode)
    ensures Encode(op1) == Encode(op2) ==> op1 == op2
  {
    DecodeEncode(op1);
    DecodeEncode(op2);
  }

  // ---------------------------------------------------------------------
  // Opcode families
  // ---------------------------------------------------------------------

  function MnemonicOf(op: Opcode): Mnemonic {
    match op
    case AddB | AddC => ADD
    case AnaB | AnaC => ANA
    case Ani => ANI   case Call => CALL   case Cma => CMA
    case DcrA | DcrB | DcrC => DCR
    case Hlt => HLT   case In => IN
    case InrA | InrB | InrC => INR
    case Jmp => JMP   case Jm => JM   case Jnz => JNZ   case Jz => JZ   case Lda => LDA
    case MovAB | MovAC | MovBA | MovBC | MovCA | MovCB => MOV
    case MviA | MviB | MviC => MVI
    case Nop => NOP
    case OraB | OraC => ORA
    case Ori => ORI   case Out => OUT   case Ral => RAL   case Rar => RAR
    case Ret => RET   case Sta => STA
    case SubB | SubC => SUB
    case XraB | XraC => XRA
    case Xri => XRI
  }

  /** The registers an opcode names, destination first. */
  function Operands(op: Opcode): seq<Reg> {
    match op
    case AddB | AnaB | DcrB | InrB | MviB | OraB | SubB | XraB => [B]
    case AddC | AnaC | DcrC | InrC | MviC | OraC | SubC | XraC => [C]
    case DcrA | InrA | MviA => [A]
    case MovAB => [A, B]   case MovAC => [A, C]   case MovBA => [B, A]
    case MovBC => [B, C]   case MovCA => [C, A]   case MovCB => [C, B]
    case _ => []
  }

  function Dcr(r: Reg): Opcode {
    match r case A => DcrA case B => DcrB case C => DcrC
  }

  function Inr(r: Reg): Opcode {
    match r case A => InrA case B => InrB case C => InrC
  }

  function Mvi(r: Reg): Opcode {
    match r case A => MviA case B => MviB case C => MviC
  }

  /** `MOV dst, src`; there is no opcode when both are the same register. */
  function Mov(dst: Reg, src: Reg): Option<Opcode> {
    match (dst, src)
    case (A, B) => Some(MovAB)   case (A, C) => Some(MovAC)
    case (B, A) => Some(MovBA)   case (B, C) => Some(MovBC)
    case (C, A) => Some(MovCA)   case (C, B) => Some(MovCB)
    case _ => None
  }

  /** The B/C-only families: the accumulator has no opcode of its own. */
  function BCOnly(m: Mnemonic, r: Reg): Option<Opcode>
    requires m in {ADD, SUB, ANA, ORA, XRA}
  {
    match r
    case A => None
    case B => Some(match m case ADD => AddB case SUB => SubB case ANA => AnaB case ORA => OraB case _ => XraB)
    case C => Some(match m case ADD => AddC case SUB => SubC case ANA => AnaC case ORA => OraC case _ => XraC)
  }

  /**
   * DCR, INR and MVI have exactly one opcode per register: each family
   * function hits every opcode of its mnemonic, and names the register back.
   */
  lemma DcrOpcodes()
    ensures forall r :: MnemonicOf(Dcr(r)) == DCR && Operands(Dcr(r)) == [r]
    ensures forall op :: MnemonicOf(op) == DCR ==> |Operands(op)| == 1 && op == Dcr(Operands(op)[0])
  {
  }

  lemma InrOpcodes()
    ensures forall r :: MnemonicOf(Inr(r)) == INR && Operands(Inr(r)) == [r]
    ensures forall op :: MnemonicOf(op) == INR ==> |Operands(op)| == 1 && op == Inr(Operands(op)[0])
  {
  }

  lemma MviOpcodes()
    ensures forall r :: MnemonicOf(Mvi(r)) == MVI && Operands(Mvi(r)) == [r]
    ensures forall op :: MnemonicOf(op) == MVI ==> |Operands(op)| == 1 && op == Mvi(Operands(op)[0])
  {
  }

  /** MOV has one opcode per ordered pair of distinct registers and no other. */
  lemma MovOpcodes()
    ensures forall d, s :: Mov(d, s).Some? <==> d != s
    ensures forall d, s :: Mov(d, s).Some? ==> MnemonicOf(Mov(d, s).value) == MOV && Operands(Mov(d, s).value) == [d, s]
    ensures forall op :: MnemonicOf(op) == MOV ==>
      |Operands(op)| == 2 && Operands(op)[0] != Operands(op)[1] && Mov(Operands(op)[0], Operands(op)[1]) == Some(op)
  {
  }

  /** The opcodes of ADD, SUB, ANA, ORA and XRA name register B or C. */
  lemma BCOnlyOperands()
    ensures forall op :: MnemonicOf(op) in {ADD, SUB, ANA, ORA, XRA} ==> Operands(op) == [B] || Operands(op) == [C]
  {
  }

  /** `BCOnly` finds the opcode of its mnemonic and register, except for A. */
  lemma BCOnlyFinds(m: Mnemonic, r: Reg)
    requires m in {ADD, SUB, ANA, ORA, XRA}
    ensures BCOnly(m, r).Some? <==> r != A
    ensures BCOnly(m, r).Some? ==> MnemonicOf(BCOnly(m, r).value) == m && Operands(BCOnly(m, r).value) == [r]
  {
  }

  /** ADD, SUB, ANA, ORA and XRA exist only for registers B and C. */
  lemma BCOnlyOpcodes()
    ensures forall op :: MnemonicOf(op) in {ADD, SUB, ANA, ORA, XRA} ==> Operands(op) == [B] || Operands(op) == [C]
    ensures forall m, r :: m in {ADD, SUB, ANA, ORA, XRA} ==>
      (BCOnly(m, r).Some? <==> r != A) &&
      (BCOnly(m, r).Some? ==> MnemonicOf(BCOnly(m, r).value) == m && Operands(BCOnly(m, r).value) == [r])
  {
    BCOnlyOperands();
    forall m, r | m in {ADD, SUB, ANA, ORA, XRA}
      ensures (BCOnly(m, r).Some? <==> r != A) &&
        (BCOnly(m, r).Some? ==> MnemonicOf(BCOnly(m, r).value) == m && Operands(BCOnly(m, r).value) == [r])
    {
      BCOnlyFinds(m, r);
    }
  }

  // ---------------------------------------------------------------------
  // Mnemonic recognition (case-insensitive)
  // ---------------------------------------------------------------------

  predicate EqualIgnoringCase(a: string, b: string) {
    |a| == |b| && forall k :: 0 <= k < |a| ==> ToLower(a[k]) == ToLower(b[k])
  }

  /** Compares the lower-cased characters of two equal-length strings from `i` on. */
  function CompareFrom(a: string, b: string, i: nat): (r: int)
    requires |a| == |b| && i <= |a|
    ensures r == 0 || r == 1 || r == -1
    ensures r == 0 <==> forall k :: i <= k < |a| ==> ToLower(a[k]) == ToLower(b[k])
    ensures r != 0 ==> exists k :: (i <= k < |a| && FirstDifference(a, b, i, k) &&
                                    (r == 1 <==> ToLower(a[k]) > ToLower(b[k])))
    decreases |a| - i
  {
    if i == |a| then 0
    else if ToLower(a[i]) != ToLower(b[i]) then (if ToLower(a[i]) > ToLower(b[i]) then 1 else -1)
    else CompareFrom(a, b, i + 1)
  }

  /** Position `k` is the first at or after `i` where the lower-cased strings differ. */
  predicate FirstDifference(a: string, b: string, i: nat, k: nat)
    requires |a| == |b| && i <= k < |a|
  {
    ToLower(a[k]) != ToLower(b[k]) && forall j :: i <= j < k ==> ToLower(a[j]) == ToLower(b[j])
  }

  /**
   * `compare_str_with_instruction`: orders by length first, then by the first
   * differing lower-cased character; 0 exactly when the strings are equal
   * ignoring case.
   */
  function CompareStrWithInstruction(inst: string, str: string): (r: int)
    ensures r == 0 || r == 1 || r == -1
    ensures r == 0 <==> EqualIgnoringCase(inst, str)
    ensures |inst| != |str| ==> (r == 1 <==> |inst| > |str|)
    ensures |inst| == |str| && r != 0 ==>
      exists k :: (0 <= k < |inst| && FirstDifference(inst, str, 0, k) &&
                   (r == 1 <==> ToLower(inst[k]) > ToLower(str[k])))
  {
    if |inst| != |str| then (if |inst| > |str| then 1 else -1)
    else CompareFrom(inst, str, 0)
  }

  lemma {:induction false} CompareFromAntisymmetric(a: string, b: string, i: nat)
    requires |a| == |b| && i <= |a|
    ensures CompareFrom(b, a, i) == -CompareFrom(a, b, i)
    decreases |a| - i
  {
    if i < |a| && ToLower(a[i]) == ToLower(b[i]) {
      CompareFromAntisymmetric(a, b, i + 1);
    }
  }

  /** Swapping the two strings flips the sign of the comparison. */
  lemma CompareAntisymmetric(a: string, b: string)
    ensures CompareStrWithInstruction(b, a) == -CompareStrWithInstruction(a, b)
  {
    if |a| == |b| {
      CompareFromAntisymmetric(a, b, 0);
    }
  }

  function IsInstructionFrom(str: string, i: nat): (r: bool)
    requires i <= |Mnemonics|
    ensures r <==> exists k :: i <= k < |Mnemonics| && EqualIgnoringCase(Mnemonics[k], str)
    decreases |Mnemonics| - i
  {
    if i == |Mnemonics| then false
    else CompareStrWithInstruction(Mnemonics[i], str) == 0 || IsInstructionFrom(str, i + 1)
  }

  /** `isInstruction`: the text spells one of the 27 mnemonics, ignoring case. */
  function IsInstruction(str: string): (r: bool)
    ensures r <==> exists m :: EqualIgnoringCase(Text(m), str)
  {
    MnemonicTable();
    assert forall m :: EqualIgnoringCase(Text(m), str) ==> EqualIgnoringCase(Mnemonics[Index(m)], str);
    IsInstructionFrom(str, 0)
  }

  // ---------------------------------------------------------------------
  // Names and timing
  // ---------------------------------------------------------------------

  /** The disassembly name of an opcode. */
  function Name(op: Opcode): string {
    match op
    case AddB => "ADD B"   case AddC => "ADD C"
    case AnaB => "ANA B"   case AnaC => "ANA C"   case Ani => "ANI"
    case Call => "CALL"    case Cma => "CMA"
    case DcrA => "DCR A"   case DcrB => "DCR B"   case DcrC => "DCR C"
    case Hlt => "HLT"      case In => "IN"
    case InrA => "INR A"   case InrB => "INR B"   case InrC => "INR C"
    case Jmp => "JMP"      case Jm => "JM"        case Jnz => "JNZ"     case Jz => "JZ"
    case Lda => "LDA"
    case MovAB => "MOV A, B"   case MovAC => "MOV A, C"   case MovBA => "MOV B, A"
    case MovBC => "MOV B, C"   case MovCA => "MOV C, A"   case MovCB => "MOV C, B"
    case MviA => "MVI A"   case MviB => "MVI B"   case MviC => "MVI C"
    case Nop => "NOP"
    case OraB => "ORA B"   case OraC => "ORA C"   case Ori => "ORI"
    case Out => "OUT"
    case Ral => "RAL"      case Rar => "RAR"      case Ret => "RET"     case Sta => "STA"
    case SubB => "SUB B"   case SubC => "SUB C"
    case XraB => "XRA B"   case XraC => "XRA C"   case Xri => "XRI"
  }

  const UnnamedInstruction: string := "[Instrucao Sem Nome Definido]"

  /** `getInstructionName`: the opcode's name, or a fixed placeholder for other bytes. */
  function InstructionName(b: Byte): (r: string)
    ensures Decode(b).Some? ==> r == Name(Decode(b).value)
    ensures Decode(b).None? ==> r == UnnamedInstruction
  {
    match Decode(b)
    case Some(op) => Name(op)
    case None => UnnamedInstruction
  }

  /**
   * Reads an opcode back from its name, looking only at the characters that
   * tell the names apart; strings that are no opcode's name may read as one.
   */
  function NamedOpcode(s: string): Option<Opcode> {
    if |s| < 2 then None
    else
      var last := s[|s| - 1];
      match s[0]
      case 'A' =>
        if s[1] == 'D' then (if last == 'B' then Some(AddB) else Some(AddC))
        else if |s| == 3 then Some(Ani)
        else if last == 'B' then Some(AnaB) else Some(AnaC)
      case 'C' => if s[1] == 'A' then Some(Call) else Some(Cma)
      case 'D' => if last == 'A' then Some(DcrA) else if last == 'B' then Some(DcrB) else Some(DcrC)
      case 'H' => Some(Hlt)
      case 'I' =>
        if |s| == 2 then Some(In)
        else if last == 'A' then Some(InrA) else if last == 'B' then Some(InrB) else Some(InrC)
      case 'J' =>
        if s[1] == 'Z' then Some(Jz) else if |s| == 2 then Some(Jm)
        else if s[1] == 'M' then Some(Jmp) else Some(Jnz)
      case 'L' => Some(Lda)
      case 'M' =>
        if s[1] == 'V' then (if last == 'A' then Some(MviA) else if last == 'B' then Some(MviB) else Some(MviC))
        else if |s| <= 4 then None
        else if s[4] == 'A' then (if last == 'B' then Some(MovAB) else Some(MovAC))
        else if s[4] == 'B' then (if last == 'A' then Some(MovBA) else Some(MovBC))
        else if last == 'A' then Some(MovCA) else Some(MovCB)
      case 'N' => Some(Nop)
      case 'O' =>
        if s[1] == 'U' then Some(Out) else if |s| == 3 then Some(Ori)
        else if last == 'B' then Some(OraB) else Some(OraC)
      case 'R' => if s[1] == 'E' then Some(Ret) else if last == 'L' then Some(Ral) else Some(Rar)
      case 'S' => if s[1] == 'T' then Some(Sta) else if last == 'B' then Some(SubB) else Some(SubC)
      case 'X' => if |s| == 3 then Some(Xri) else if last == 'B' then Some(XraB) else Some(XraC)
      case _ => None
  }

  /** Every name reads back as its own opcode. */
  lemma NameReadsBack(op: Opcode)
    ensures NamedOpcode(Name(op)) == Some(op)
  {
    match op
    case AddB => case AddC => case AnaB => case AnaC => case Ani => case Call => case Cma =>
    case DcrA => case DcrB => case DcrC => case Hlt => case In => case InrA => case InrB =>
    case InrC => case Jmp => case Jm => case Jnz => case Jz => case Lda => case MovAB =>
    case MovAC => case MovBA => case MovBC => case MovCA => case MovCB => case MviA =>
    case MviB => case MviC => case Nop => case OraB => case OraC => case Ori => case Out =>
    case Ral => case Rar => case Ret => case Sta => case SubB => case SubC => case XraB =>
    case XraC => case Xri =>
  }

  /** Every known opcode has its own name, and none is the placeholder. */
  lemma NamesDistinct(op1: Opcode, op2: Opcode)
    ensures Name(op1) == Name(op2) ==> op1 == op2
    ensures Name(op1) != UnnamedInstruction
  {
    NameReadsBack(op1);
    NameReadsBack(op2);
    assert NamedOpcode(UnnamedInstruction) == None;
  }

  /** `getInstructionTStates`. */
  function InstructionTStates(b: Byte): (t: nat)
    ensures Decode(b) in {Some(Jmp), Some(Ret), Some(Out)} ==> t == 10
    ensures Decode(b) in {Some(Jm), Some(Jnz), Some(Jz), Some(MviA), Some(MviB), Some(MviC)} ==> t == 7
    ensures Decode(b) in {Some(Lda), Some(Sta)} ==> t == 13
    ensures Decode(b) == Some(Call) ==> t == 18
    ensures (Decode(b) !in {Some(Jmp), Some(Ret), Some(Out), Some(Jm), Some(Jnz), Some(Jz), Some(MviA),
                            Some(MviB), Some(MviC), Some(Lda), Some(Sta), Some(Call)}) ==> t == 4
  {
    match Decode(b)
    case Some(Jmp) => 10
    case Some(Ret) => 10
    case Some(Out) => 10
    case Some(Jm) => 7
    case Some(Jnz) => 7
    case Some(Jz) => 7
    case Some(MviA) => 7
    case Some(MviB) => 7
    case Some(MviC) => 7
    case Some(Lda) => 13
    case Some(Sta) => 13
    case Some(Call) => 18
    case _ => 4
  }
}

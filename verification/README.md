# SAP-2 assembler and interpreter, modelled in Dafny

SAP2-Compiler reads a SAP-2 (Simple-As-Possible 2) assembly program and runs it in three stages:

- **Tokenizer.** Splits the text into tokens: instructions, identifiers, registers, hexadecimal numbers ending in `H`, commas, colons and an EOF token.
- **Two-pass parser.**
  - The first pass only lays out the program counter and records labels.
  - The second pass writes each instruction's opcode and operand bytes into a 65535-cell memory image. It starts writing at `STARTER_MEMORY_ADDRESS` (0x8000).
- **Interpreter.** Rewinds the counter and executes what was assembled, for the instructions that have a run-time handler: ADD, SUB, DCR, MVI, OUT and HLT.

The model is functional:

- **Environment.** A datatype `Env` holding the memory cells with their annotations, the program counter, the registers A/B/C, the S and Z flags, the symbol table, the pass flag, the instruction counter and the sorted list of used addresses.
- **Operations.** Each C operation is a function from an environment to an environment.
- **Errors.** Every place where the C code calls `exit` with an error code becomes an `Err(code)` of a `Result`. An HLT, which prints the used memory and exits successfully, becomes a `HltExit` stop carrying that listing.
- **Configuration.** The values the C code takes from its build settings are fields of a `Config` record passed in: the start address, `MAX_INT_TO_HEX`, `HEX1_MAX` and `HEX2_MAX`.

Modules follow the source tree:

- `Common`: bytes, words and the result type.
- `CType`: the `<ctype.h>` predicates.
- `Utils`: `Utils.c`.
- `Instructions`: `Instructions.c/.h`.
- `Environment`: `environment.c`.
- `Tokenizer`: `tokenizer.c`.
- `Parser`: `parser.c`.
- `TwoPass`: why the two passes agree.
- `InstructionsFunctions`: the run-time handlers.
- `Runtime`: `evaluate.c`.
- `Interpreter`: `interpreter.c`, and how the assembler and the interpreter fit together.

The main properties proved:

- **Number literals.** Literal parsing round-trips: `str_to_hex2(HexLiteral(v)) == v`, and the same for one byte within `MAX_INT_TO_HEX`.
- **Opcode table.** The opcode encoding is a bijection onto its image, and the disassembly names are injective.
- **Used-address list.** The binary-search insertion keeps the list sorted and adds exactly one occurrence. `isAddressUsed` is exact.
- **Symbol table.** A label defined in the first pass reads back in the second.
- **Tokenizer.**
  - Classification by character counts equals classification by shape.
  - Comments and blanks before a token do not change it.
  - A word followed by a comma or colon is two tokens, and every way a word ends is stated.
- **Instruction parsers.** Each instruction family's parser accepts exactly the well-formed operands that fit in memory. It moves the counter by the instruction's width and, in the second pass, writes exactly the instruction's bytes.
- **The two passes.**
  - Both passes follow one layout computed from the tokens alone.
  - A second pass that succeeds implies a first pass that succeeds and ends at the same token and counter.
  - Every label resolves to the counter at its last definition.
- **Run-time handlers.** ADD and SUB undo each other. 256 DCRs are the identity. A second MVI overrides the first. A sorted list is its own `qsort`.
- **Execution.**
  - The `execute_instruction` switch agrees with the opcode table.
  - Running what the assembler emitted for a statement takes that instruction's effect on the bytes it wrote.
  - `MVI A,v / OUT / HLT` prints `v`.

The model follows the code as written; in particular:

- **Flags at run time.** The run-time handlers store into the register array directly, so the S and Z flags never change while a program runs. Only `setRegister`, modelled as `Environment.SetRegister`, recomputes them.
- **Lower-case mnemonics.** The tokenizer classifies mnemonics ignoring case, but the parser dispatches on the exact upper-case spelling. A lower-case mnemonic is therefore an instruction token that assembles to nothing.
- **IN.** IN is a mnemonic with an opcode but has no parser branch.
- **OUT.** OUT reads its two-byte operand and ignores it: the accumulator is what is printed.
- **Address operands.** The address operand of CALL and the jumps is resolved through `getAddressOfLabel`. That function is not part of this model. It is modelled by `getValueOfLabel`: 0 in the first pass, the bound address afterwards, an invalid-argument exit for an unknown name.

## Model

Each `Parser.*Spec` row stands for its instruction family's parser (`Parser.ParseNoOperand`, `Parser.ParseAllReg`, `Parser.ParseBC`, `Parser.ParseMov`, `Parser.ParseMvi`, `Parser.ParseImmediate`, `Parser.ParseAddress`, `Parser.ParseOut`): the lemma states what that parser accepts and writes.

| member | source | states |
|---|---|---|
| Utils.StrLen | Interpreter/Utils/Utils.c:55 | `strlen` is the position of the first NUL, and the text before it holds no NUL |
| Utils.AddCharToString | Interpreter/Utils/Utils.c:38-49 | the buffer grows by one character, keeps its old contents, holds the new character at the old size, and is NUL-terminated again |
| Utils.AddCharToStringLength | Interpreter/Utils/Utils.c:38-49 | appending a non-NUL character to a C string grows its `strlen` by exactly one, to the returned size |
| Utils.HexDigitsValue | Interpreter/Utils/Utils.c:63-65 | the upper-case digits written for a number are read back by base-16 evaluation as that number |
| Utils.HexDigitsLength | Interpreter/Utils/Utils.c:28-59 | a byte needs at most two digits and a word at most four, so every literal fits the conversion buffer |
| Utils.StrToUL16 | Interpreter/Utils/Utils.c:63-65 | `strtoul` in base 16 consumes at most the whole text and saturates at `ULONG_MAX` |
| Utils.StrToUL16Digits | Interpreter/Utils/Utils.c:63-65 | on a plain run of hex digits `strtoul` consumes every character and returns their value, or `ULONG_MAX` on overflow |
| Utils.ParseHexText | Interpreter/Utils/Utils.c:51-65 | NULL text is a null-argument error; text shorter than 2, not ending in `H`, too long for the buffer, or not fully consumed by `strtoul` is an invalid-argument error; otherwise the value is that of the digits before the `H` |
| Utils.StrToHex1 | Interpreter/Utils/Utils.c:51-70 | a parse error is passed through; a value above `MAX_INT_TO_HEX` is an illegal-hex error; otherwise the value truncated to 8 bits |
| Utils.StrToHex2 | Interpreter/Utils/Utils.c:72-91 | a parse error is passed through; a value above 0xFFFF is an illegal-hex error; otherwise the exact value |
| Utils.StrToHex2OfLiteral | Interpreter/Utils/Utils.c:72-91 | for digits followed by `H`, `str_to_hex2` is decided by the number of digits and their value alone |
| Utils.StrToHex1OfLiteral | Interpreter/Utils/Utils.c:51-70 | for digits followed by `H`, `str_to_hex1` is decided by the number of digits and their value, the result kept modulo 256 |
| Utils.StrToHex2RoundTrip | Interpreter/Utils/Utils.c:72-91 | every 16-bit value written as hex digits plus `H` converts back to itself |
| Utils.StrToHex1RoundTrip | Interpreter/Utils/Utils.c:51-70 | every byte within `MAX_INT_TO_HEX` written as a literal converts back to itself |
| Utils.CompHex2 | Interpreter/Utils/Utils.c:94-98 | the comparator returns 1, 0 or -1 exactly when the first value is above, equal to or below the second |
| Utils.CompHex2Antisymmetric | Interpreter/Utils/Utils.c:94-98 | swapping the arguments negates the comparison, as `qsort` requires |
| Instructions.MnemonicTable | Interpreter/Instructions/Instructions.c:17-49 | the mnemonic table has 27 entries, each the spelling of a distinct mnemonic, and every mnemonic is in it |
| Instructions.TextsInjective | Interpreter/Instructions/Instructions.c:17-49 | no two mnemonics share a spelling |
| Instructions.DecodeEncode | Interpreter/Instructions/Instructions.h:16-101 | decoding the byte of any opcode gives that opcode back |
| Instructions.EncodeDecode | Interpreter/Instructions/Instructions.h:16-101 | every byte that decodes is the encoding of what it decodes to |
| Instructions.EncodeInjective | Interpreter/Instructions/Instructions.h:16-101 | distinct opcodes have distinct bytes |
| Instructions.DcrOpcodes | Interpreter/Instructions/Instructions.h:34-37 | there is one DCR opcode per register, each naming its register, and no other |
| Instructions.InrOpcodes | Interpreter/Instructions/Instructions.h:45-48 | there is one INR opcode per register, each naming its register, and no other |
| Instructions.MviOpcodes | Interpreter/Instructions/Instructions.h:67-70 | there is one MVI opcode per register, each naming its register, and no other |
| Instructions.MovOpcodes | Interpreter/Instructions/Instructions.h:59-65 | MOV has an opcode exactly for each ordered pair of distinct registers |
| Instructions.BCOnlyOpcodes | Interpreter/Instructions/Instructions.h:16-101 | ADD, SUB, ANA, ORA and XRA have opcodes for B and C only, each naming its register |
| Instructions.CompareStrWithInstruction | Interpreter/Instructions/Instructions.c:51-64 | the result is 0 exactly when the texts are equal ignoring case; texts of different length compare by length; otherwise the sign is decided by the first position where the lower-cased characters differ |
| Instructions.CompareAntisymmetric | Interpreter/Instructions/Instructions.c:51-64 | swapping the texts negates the comparison |
| Instructions.IsInstruction | Interpreter/Instructions/Instructions.c:71-80 | a text is an instruction exactly when it spells some mnemonic, ignoring case |
| Instructions.InstructionName | Interpreter/Instructions/Instructions.c:87-177 | a known opcode gets its own disassembly name, any other byte the fixed placeholder |
| Instructions.NameReadsBack | Interpreter/Instructions/Instructions.c:87-177 | every opcode can be recovered from its name |
| Instructions.NamesDistinct | Interpreter/Instructions/Instructions.c:87-177 | distinct opcodes have distinct names, none of them the placeholder |
| Instructions.InstructionTStates | Interpreter/Instructions/Instructions.c:179-226 | JMP, RET and OUT take 10 T-states; the conditional jumps and MVI 7; LDA and STA 13; CALL 18; everything else 4 |
| Environment.CharToRegister | Interpreter/environment.c:68-75 | a letter names a register exactly when it is A, B or C, and the register's letter is that letter |
| Environment.CharToRegisterRoundTrip | Interpreter/environment.c:68-75 | every register is found again from its letter |
| Environment.SetRegister | Interpreter/environment.c:317-338 | the register takes the value, the others keep theirs; S is set exactly for a value with the top bit set, Z exactly for zero, never both; memory, counter, labels and used list are untouched |
| Environment.Search | Interpreter/environment.c:26-46 | the binary search returns a split point of the sorted list (at most the key before it, at least the key after it) that holds the key exactly when the key is listed |
| Environment.FindAddressInsertionPoint | Interpreter/environment.c:26-46 | the position splits the sorted list around the key, and holds the key exactly when the key is listed |
| Environment.InsertAddressIntoMemory | Interpreter/environment.c:54-66 | the list stays sorted and gains exactly one occurrence of the address |
| Environment.IsAddressUsed | Interpreter/environment.c:77-84 | an address is reported used exactly when it is in the used list |
| Environment.Write1 | Interpreter/environment.c:92-135 | the first pass only steps the counter, wrapping at 16 bits; the second pass fails with no-memory past the end and read-only below the start address, and otherwise stores the cell at the counter, records the address once more and changes nothing else |
| Environment.AddToMemoryHex1 | Interpreter/environment.c:106-135 | an operand byte is stored with the empty annotation at the counter, every other cell is kept, and it fails exactly outside writable memory in the second pass |
| Environment.AddToMemoryHex1Annotation | Interpreter/environment.c:137-166 | as for one operand byte, with the given annotation |
| Environment.AddToMemoryHex2 | Interpreter/environment.c:168-205 | a word is stored low byte first in two consecutive cells; it fails with no-memory when the second cell would be past the end, and read-only below the start address |
| Environment.WroteTwice | Interpreter/environment.c:168-205 | two single-cell stores in a row are one two-cell store |
| Environment.AddInstruction | Interpreter/environment.c:274-276 | the opcode byte is stored annotated with its disassembly, every other cell is kept, and the counter moves by one |
| Environment.AddInstructionWithHex1 | Interpreter/environment.c:278-283 | the opcode and a byte are stored in two consecutive cells, and it fails exactly when they do not both fit writable memory |
| Environment.AddInstructionWithHex2 | Interpreter/environment.c:285-309 | the opcode and a word are stored in three consecutive cells, low byte first, and it fails exactly when they do not all fit writable memory |
| Environment.LabelFromName | Interpreter/environment.c:218-226 | the index of the first entry with the name, or -1 exactly when there is none |
| Environment.Define | Interpreter/environment.c:228-257 | a name already in the table is overwritten in its own slot and the count stays the same; a new name is appended and the count grows by one; afterwards the name looks up to the address, every other name looks up as before, and names stay unique |
| Environment.AddLabel | Interpreter/environment.c:228-257 | in the first pass an existing label is overwritten in its slot and a new one appended once, so the name binds the address and every other binding stays; only the symbol table changes; the second pass changes nothing |
| Environment.GetValueOfLabel | Interpreter/environment.c:259-271 | 0 in the first pass; in the second the bound address, or an invalid-argument error for an unknown name |
| Environment.LabelRoundTrip | Interpreter/environment.c:228-271 | a label added in the first pass is read back by name in the second |
| Environment.SetMemory | Interpreter/environment.c:340-365 | a run-time store changes exactly the addressed cell, annotated as program-defined, and leaves the used list alone |
| Environment.SetMemoryHex2 | Interpreter/environment.c:367-373 | a 16-bit run-time store writes the low byte at the address and the high byte after it, nothing else |
| Environment.SetMemoryHex2ReadBack | Interpreter/environment.c:367-373 | a 16-bit store reads back little-endian as the same value |
| Tokenizer.TypeOfTokenShapes | Interpreter/Analysis/tokenizer.c:41-111 | empty text is unknown; single punctuation and registers get their type; decimal numbers are rejected; hex digits ending in `H` are hexadecimal; words are instructions when they spell a mnemonic and identifiers otherwise; anything else is unknown |
| Tokenizer.ClassCounts | Interpreter/Analysis/tokenizer.c:79-110 | the character counts the C function compares decide exactly the decimal, pointed-decimal, hexadecimal and word shapes |
| Tokenizer.Emit | Interpreter/Analysis/tokenizer.c:272-275 | the word read so far becomes a well-formed token of that text, or the classification's invalid-argument error |
| Tokenizer.Scan | Interpreter/Analysis/tokenizer.c:178-276 | the read loop yields a well-formed token and a later position, moves forward unless it returns EOF, never returns EOF with a word pending, and fails only with invalid argument |
| Tokenizer.GetNextToken | Interpreter/Analysis/tokenizer.c:178-276 | the next token is well formed and reading resumes after it; at the end of the text or at 0xFF it is EOF; a comma or colon with no word pending is its own token, consumed |
| Tokenizer.Tokenize | Interpreter/Analysis/tokenizer.c:278-309 | the result is a stream of well-formed tokens ending in its only EOF, each text a C string; the only error is a rejected number |
| Tokenizer.CommentSkipped | Interpreter/Analysis/tokenizer.c:204-219 | a comment running to a newline before a token does not change the token read |
| Tokenizer.BlanksSkipped | Interpreter/Analysis/tokenizer.c:221-230 | blanks before a token do not change the token read |
| Tokenizer.ScanRun | Interpreter/Analysis/tokenizer.c:254-264 | a run of letters and digits is appended to the word buffer whole, one character at a time |
| Tokenizer.ReadWord | Interpreter/Analysis/tokenizer.c:254-264 | reading from the start of a word at any position is reading on after the whole word, with the word in the buffer |
| Tokenizer.WordEnds | Interpreter/Analysis/tokenizer.c:190-252 | a word at any position is the next token, classified by `getTypeOfToken`: at the end of the text reading resumes there; a 0xFF or a blank ends it and is consumed; a comma or colon ends it and is pushed back |
| Tokenizer.CommentEndsWord | Interpreter/Analysis/tokenizer.c:204-219 | a comment right after a word ends the word at the comment's newline, and reading resumes after that newline |
| Tokenizer.CommentWordRest | Interpreter/Analysis/tokenizer.c:204-219 | inside a comment with a word pending, everything up to the newline is dropped and the newline emits the word |
| Tokenizer.CommentToEnd | Interpreter/Analysis/tokenizer.c:190-219 | a comment running to the end of the text, with no newline or 0xFF, adds nothing: the pending word is emitted with reading at the end, or EOF is returned when none is pending |
| Tokenizer.InvalidSkipped | Interpreter/Analysis/tokenizer.c:254-268 | a character that is no letter, digit, blank, comma, colon, comment start or 0xFF is dropped without ending the word being read |
| Tokenizer.TokenizeAtWord | Interpreter/Analysis/tokenizer.c:178-309 | the token stream from a word is that word's token followed by the stream from where reading resumes, or the classification error |
| Tokenizer.TokenizeAtPunctuation | Interpreter/Analysis/tokenizer.c:232-252 | the token stream from a comma or colon is that punctuation token followed by the stream after it |
| Tokenizer.TokenizeSkips | Interpreter/Analysis/tokenizer.c:204-230 | blanks, or a comment line, before the next token leave the rest of the token stream unchanged |
| Tokenizer.TokenizeWord | Interpreter/Analysis/tokenizer.c:178-309 | a single word tokenizes as one token classified by `getTypeOfToken` followed by EOF, or as its classification error |
| Tokenizer.PunctuationPushedBack | Interpreter/Analysis/tokenizer.c:232-252 | a comma or colon right after a word, at any position, is pushed back: the word is one token and the punctuation the next |
| Parser.Peek | Interpreter/Analysis/parser.c:60-63 | the current token, or nothing exactly at the end of the stream |
| Parser.Consume | Interpreter/Analysis/parser.c:77-81 | one token further, never past the end |
| Parser.ExpectAndConsume | Interpreter/Analysis/parser.c:84-113 | succeeds exactly when the current token has the expected type, returning it and moving one on; otherwise a syntax error |
| Parser.ConsumeReg | Interpreter/Analysis/parser.c:120-130 | succeeds exactly when the current token is a register naming A, B or C, returning that register |
| Parser.ConsumeHex1 | Interpreter/Analysis/parser.c:28-35 | succeeds exactly when the current token is hexadecimal, accepted by `str_to_hex1` and within `HEX1_MAX`, returning its value |
| Parser.ConsumeHex2 | Interpreter/Analysis/parser.c:138-149 | succeeds exactly when the current token is hexadecimal, accepted by `str_to_hex2` and within `HEX2_MAX`, returning its value |
| Parser.ConsumeAddress | Interpreter/Analysis/parser.c:158-173 | an address operand is a 16-bit hexadecimal or a label resolved through the symbol table; anything else is an invalid argument |
| Parser.NoOperandSpec | Interpreter/Analysis/parser.c:175-200 | HLT, NOP, RET, CMA, RAL and RAR accept exactly when the opcode fits, move one byte and write their opcode |
| Parser.AllRegSpec | Interpreter/Analysis/parser.c:183-187 | DCR and INR accept exactly a register operand that fits, and write the opcode for that register |
| Parser.BCSpec | Interpreter/Analysis/parser.c:151-156 | ADD, SUB, ANA, ORA and XRA accept any register, write the B or C opcode, and write nothing for A |
| Parser.MovSpec | Interpreter/Analysis/parser.c:270-301 | MOV accepts exactly destination, comma, source, and writes the pair's opcode, nothing when both are the same register |
| Parser.MviSpec | Interpreter/Analysis/parser.c:303-313 | MVI accepts exactly register, comma, byte, and writes the register's opcode and the byte |
| Parser.ImmediateSpec | Interpreter/Analysis/parser.c:335-338 | ANI, ORI and XRI accept exactly a byte operand and write opcode and byte |
| Parser.AddressSpec | Interpreter/Analysis/parser.c:158-173 | CALL, JMP, JM, JNZ, JZ, LDA and STA accept exactly an address operand and write opcode and address, low byte first |
| Parser.OutSpec | Interpreter/Analysis/parser.c:315-319 | OUT accepts exactly a 16-bit hexadecimal and writes opcode and operand, low byte first |
| Parser.BranchesCover | Interpreter/Analysis/parser.c:418-451 | every mnemonic except IN has a branch in the dispatch chain |
| Parser.DispatchIsBranchChain | Interpreter/Analysis/parser.c:418-451 | trying the branches in their written order selects the same mnemonic as the dispatch |
| Parser.DispatchComplete | Interpreter/Analysis/parser.c:418-451 | an upper-case mnemonic spelling is dispatched to its own branch, except IN |
| Parser.ParseInstruction | Interpreter/Analysis/parser.c:418-451 | an instruction statement parses exactly when its operands read and its bytes fit; it then moves by the statement's tokens and bytes and counts one more instruction |
| Parser.ParseIdentifier | Interpreter/Analysis/parser.c:454-463 | a label parses exactly when a colon follows it; the first pass binds it to the counter, and the second pass changes nothing |
| Parser.ParseStatement | Interpreter/Analysis/parser.c:466-483 | a statement parses exactly when it is accepted; EOF stops the pass without moving; anything that is not an instruction, label or EOF is an invalid instruction; a label statement changes only that label |
| Parser.RunPass | Interpreter/Analysis/parser.c:485-510 | a pass stops where the layout of the statements ends; the first pass writes nothing and binds each label to the layout's address; the second pass keeps the labels and meets each label's last definition at the layout's address |
| Parser.Parse | Interpreter/Analysis/parser.c:485-510 | after both passes, every label defined in the program is bound to its address in the layout, the registers and flags are unchanged, and the counter ends where the layout ends |
| Parser.Rewound | Interpreter/Analysis/parser.c:485-510 | the second pass restarts at the first token, writing, from `STARTER_MEMORY_ADDRESS`, keeping the first pass's labels |
| TwoPass.AcceptsPasses | Interpreter/Analysis/parser.c:485-510 | a statement the second pass accepts, the first pass accepts at the same place |
| TwoPass.PassesAgree | Interpreter/Analysis/parser.c:485-510 | when the second pass gets through the program, so does the first, stopping at the same token with the same counter |
| TwoPass.ParseResolvesLabels | Interpreter/Analysis/parser.c:485-510 | every label the program defines is bound, when the second pass resolves it, to the counter the second pass has at its last definition |
| InstructionsFunctions.ExecuteAdd | Interpreter/Instructions/InstructionsFunctions.c:21-23 | A becomes A plus the register modulo 256; nothing else changes, flags included |
| InstructionsFunctions.ExecuteSub | Interpreter/Instructions/InstructionsFunctions.c:56-58 | A becomes A minus the register modulo 256; nothing else changes, flags included |
| InstructionsFunctions.SubUndoesAdd | Interpreter/Instructions/InstructionsFunctions.c:21-58 | subtracting a register other than A after adding it restores the environment |
| InstructionsFunctions.AddUndoesSub | Interpreter/Instructions/InstructionsFunctions.c:21-58 | adding a register other than A after subtracting it restores the environment |
| InstructionsFunctions.ExecuteDcr | Interpreter/Instructions/InstructionsFunctions.c:25-27 | the register goes down by one, wrapping from 0 to 255; nothing else changes |
| InstructionsFunctions.DcrTimesValue | Interpreter/Instructions/InstructionsFunctions.c:25-27 | after `n` decrements the register is its old value minus `n` modulo 256, everything else unchanged |
| InstructionsFunctions.DcrCycle | Interpreter/Instructions/InstructionsFunctions.c:25-27 | 256 decrements of a register restore the environment |
| InstructionsFunctions.ExecuteMvi | Interpreter/Instructions/InstructionsFunctions.c:48-50 | the register takes the value; nothing else changes |
| InstructionsFunctions.MviOverrides | Interpreter/Instructions/InstructionsFunctions.c:48-50 | a second MVI to the same register overrides the first |
| InstructionsFunctions.ExecuteHlt | Interpreter/Instructions/InstructionsFunctions.c:29-46 | the listing has one line per used address, in ascending order, each with the byte stored there |
| InstructionsFunctions.SortedPermutationUnique | Interpreter/Instructions/InstructionsFunctions.c:29-46 | a sorted rearrangement of a sorted list is that list, so `qsort` leaves the used list as it is |
| Runtime.ConsumeHex1 | Interpreter/Runtime/evaluate.c:56-58 | a byte is fetched exactly when the counter is inside memory, and the counter moves past it |
| Runtime.ConsumeHex2 | Interpreter/Runtime/evaluate.c:67-71 | a word is fetched exactly when both bytes are inside memory, low byte first, and the counter moves past both |
| Runtime.Hex1ReadsBack | Interpreter/Runtime/evaluate.c:56-58 | a byte the second pass stored is what a fetch from the same address reads |
| Runtime.Hex2ReadsBack | Interpreter/Runtime/evaluate.c:67-71 | a word the second pass stored is what a two-byte fetch from the same address reads |
| Runtime.ExecuteInstruction | Interpreter/Runtime/evaluate.c:75-115 | a step that goes on moves the counter forward inside memory, counts one more instruction, and leaves memory, labels, flags and the used list alone |
| Runtime.ExecuteMatchesTable | Interpreter/Runtime/evaluate.c:75-115 | a byte stops the run as unknown exactly when it is no executable opcode; an operand past the end stops it there; otherwise the step is the instruction's effect on its operand bytes |
| Runtime.Evaluate | Interpreter/Runtime/evaluate.c:117-124 | a run keeps memory, flags, labels and the used list as assembled, ends with the counter exactly at the end when nothing stopped it, and prints at most once per executed instruction |
| Runtime.MviStep | Interpreter/Runtime/evaluate.c:94-97 | MVI at the counter loads its operand byte into the register |
| Runtime.OutStep | Interpreter/Runtime/evaluate.c:99-100 | OUT at the counter prints A and skips its two operand bytes |
| Runtime.HltStep | Interpreter/Runtime/evaluate.c:88-92 | HLT at the counter stops the run with the memory listing |
| Runtime.EvaluateStep | Interpreter/Runtime/evaluate.c:117-124 | a run is its first step followed by the run from where that step left off |
| Interpreter.InitialEnv | Interpreter/interpreter.c:34-48 | memory and registers start zeroed, the counter at `STARTER_MEMORY_ADDRESS`, the instruction count at 1, no labels and no used addresses |
| Interpreter.InitialFlagsDescribeZero | Interpreter/interpreter.c:45-48 | the initial S and Z flags are those that writing zero to a register sets |
| Interpreter.Loaded | Interpreter/interpreter.c:73-75 | the assembled environment is rewound to the start address and instruction 1, with memory, registers and labels kept |
| Interpreter.Interpret | Interpreter/interpreter.c:19-96 | a tokenizer error or an empty program returns at once with that code; otherwise an assembly error exits with its code, and a successful assembly is run as `Evaluate` of the assembled environment rewound to the start address, the result being success whatever the run ended with |
| Interpreter.AssembleAndRun | Interpreter/interpreter.c:71-96 | there is a run exactly when assembly succeeds; an assembly error is returned as the outcome's code; the run is `Evaluate` of the assembled environment with the counter and instruction count reset, keeping its memory, labels and initial flags |
| Interpreter.ReadOperandsShaped | Interpreter/Analysis/parser.c:151-413 | the operands the parser reads for a mnemonic always have that mnemonic's shape |
| Interpreter.AssembledLength | Interpreter/Runtime/evaluate.c:75-115 | an executable instruction occupies as many bytes when assembled as the interpreter steps over when running it |
| Interpreter.RunsWhatWasEmitted | Interpreter/Runtime/evaluate.c:75-115 | executing what the second pass emitted for a statement is that instruction's effect on the operand bytes it wrote |
| Interpreter.MviOutHlt | Interpreter/Runtime/evaluate.c:75-124 | the program `MVI A,v`, `OUT`, `HLT` prints `v` once and halts with A holding `v` |

## Left out

- Input and output. File reading becomes a string parameter; `WARN`, error messages and the debug and print functions (`print_memory`, `print_flags`, `print_regs`, `print_info`, `print_debug_info`, `print_binary`, `getTokenTypeString`) are not modelled. OUT and HLT return what they would print.
- Allocation failures: `realloc`, `calloc` and `strdup` are taken to succeed. The `EXIT_NO_MEMORY` paths they guard, and the `ungetc` failure in the tokenizer, are not modelled.
- Annotation text: `formatString` and the formatted disassembly annotation are abstracted to the opcode they name. `appendAnnotationToLastMemoryUnit`, `setMemoryWithAnnotation` and `getLabelFromAddress` feed only annotations and are not modelled.
- `peek_i` has no caller in the core and is not modelled.
- `getAddressOfLabel` is not part of this model; the address operand is resolved with `getValueOfLabel`.
- Timing and the console: `sleep_us`, `windows_sleep_us`, the stopwatch functions, `enter_to_continue` and `get_1hex_from_in` are not modelled. IN has no parser branch and no run-time handler.
- Parser.ExpectAndConsume: requires that a mismatch cannot happen at index 0, because the C code then steps the index below zero. Every caller passes an index above 0.
- Runtime.ConsumeHex1: an operand fetch at 0xFFFF reads one cell past the 65535-cell buffer in C. The model stops the run there with `PastEnd` instead of reading an undefined value.
- InstructionsFunctions.ExecuteHlt: `exit(EXIT_SUCCESS)` ends the process. The model stops the run with `HltExit`, and `interpret` reports success as it does after any run. The listing is returned instead of printed (`SHOW_MEMORY_ON_HLT` is 1).
- InstructionsFunctions.ExecuteOut: has no contract of its own. Its value is stated through Runtime.OutStep and Interpreter.MviOutHlt.
- Tokenizer.Tokenize: requires a text without NUL characters. In C a NUL ends the current read: with a word pending it ends that word and reading goes on after the NUL; with none pending `getTypeOfToken` is called on a NULL text and its `strlen(NULL)` is undefined behaviour. A byte 0xFF reads as end of file, as `(char)fgetc` turning it into EOF does: with no word pending it ends the text; after a word it ends that word and reading resumes after it.
- Tokenizer.Scan: its own contract states the shape of the token and where reading resumes. Which token is read is stated by Tokenizer.ScanRun, Tokenizer.ReadWord, Tokenizer.WordEnds, Tokenizer.CommentEndsWord and Tokenizer.InvalidSkipped.
- Tokenizer.GetNextToken: its own contract pins the EOF and punctuation cases. Words are pinned by Tokenizer.WordEnds and Tokenizer.CommentEndsWord, and skipped blanks and comments by Tokenizer.BlanksSkipped and Tokenizer.CommentSkipped.
- Utils.StrToHex1: the cast of the result to `hex1_t`, assumed signed (its definition is not part of this model), is modelled as the unsigned bit pattern; the sign is kept as the top bit (`Negative`).
- The field layout of `Environment` in `environment.h` is not followed field by field. The model keeps the fields the core reads and writes.

/**
 * The SAP-2 environment: memory image, program counter, registers, flags,
 * symbol table and the sorted list of used addresses, together with the
 * operations the assembler and the interpreter perform on it.
 */
module Environment {
  import opened Common
  import opened Instructions

  /** `MEMORY_SIZE`: the image has 65535 cells, addresses 0 .. 0xFFFE. */
  const MemorySize: nat := 0xFFFF

  /** `STARTER_MEMORY_ADDRESS`: where assembly starts; below it lies the monitor. */
  const StarterMemoryAddress: Word := 0x8000

  /**
   * What a memory cell's annotation holds. The formatted text of a
   * disassembly annotation is abstracted to the opcode it names.
   */
  datatype Annotation =
    | NoText                    // never written (NULL after `calloc`)
    | Blank                     // `EMPTY_ANNOTATION`: an operand byte
    | Disassembly(opcode: Byte) // the instruction's name and operand
    | EvalDefined               // written by the program while it runs

  datatype Cell = Cell(value: Byte, annotation: Annotation)

  datatype Registers = Registers(a: Byte, b: Byte, c: Byte) {
    function Get(r: Reg): Byte {
      match r case A => a case B => b case C => c
    }

    function Set(r: Reg, v: Byte): (regs: Registers)
      ensures regs.Get(r) == v
      ensures forall q :: q != r ==> regs.Get(q) == Get(q)
    {
      match r case A => this.(a := v) case B => this.(b := v) case C => this.(c := v)
    }
  }

  datatype Flags = Flags(s: bool, z: bool)

  datatype Label = Label(name: string, address: Word)

  datatype Env = Env(
    memory: seq<Cell>,
    pc: Word,
    registers: Registers,
    flags: Flags,
    labels: seq<Label>,
    firstPass: bool,
    currentInstruction: nat,
    used: seq<Word>
  )

  /** The structural facts every operation keeps: full-size memory, sorted used list. */
  predicate Valid(env: Env) {
    |env.memory| == MemorySize && Sorted(env.used)
  }

  /** Two environments agree on everything but memory, pc and the used list. */
  predicate SameContext(e1: Env, e2: Env) {
    e1.registers == e2.registers && e1.flags == e2.flags && e1.labels == e2.labels &&
    e1.firstPass == e2.firstPass && e1.currentInstruction == e2.currentInstruction
  }

  // ---------------------------------------------------------------------
  // Registers
  // ---------------------------------------------------------------------

  /** `charToRegister`: the register a letter names, if any. */
  function CharToRegister(c: char): (r: Option<Reg>)
    ensures r.Some? <==> c in "ABC"
    ensures r.Some? ==> RegisterChar(r.value) == c
  {
    match c
    case 'A' => Some(A)
    case 'B' => Some(B)
    case 'C' => Some(C)
    case _ => None
  }

  function RegisterChar(r: Reg): char {
    match r case A => 'A' case B => 'B' case C => 'C'
  }

  lemma CharToRegisterRoundTrip(r: Reg)
    ensures CharToRegister(RegisterChar(r)) == Some(r)
  {
  }

  /**
   * `setRegister`: stores the value and recomputes the flags from it, so S is
   * its sign bit and Z says it is zero; the two are never set together.
   */
  function SetRegister(env: Env, r: Reg, value: Byte): (e: Env)
    ensures e.registers.Get(r) == value
    ensures forall q :: q != r ==> e.registers.Get(q) == env.registers.Get(q)
    ensures e.flags.s <==> Negative(value)
    ensures e.flags.z <==> value == 0
    ensures !(e.flags.s && e.flags.z)
    ensures e.memory == env.memory && e.pc == env.pc && e.labels == env.labels && e.used == env.used
  {
    env.(registers := env.registers.Set(r, value),
         flags := if Negative(value) then Flags(true, false) else Flags(false, value == 0))
  }

  // ---------------------------------------------------------------------
  // The sorted list of used addresses
  // ---------------------------------------------------------------------

  predicate Sorted(s: seq<Word>) {
    forall i, j :: 0 <= i < j < |s| ==> s[i] <= s[j]
  }

  /** Binary search between `low` and `high` inclusive. */
  function Search(arr: seq<Word>, key: Word, low: int, high: int): (pos: int)
    requires Sorted(arr)
    requires 0 <= low <= high + 1 <= |arr|
    requires forall i :: 0 <= i < low ==> arr[i] < key
    requires forall i :: high < i < |arr| ==> arr[i] > key
    ensures low <= pos <= high + 1
    ensures forall i :: 0 <= i < pos ==> arr[i] <= key
    ensures forall i :: pos <= i < |arr| ==> arr[i] >= key
    ensures key in arr <==> pos < |arr| && arr[pos] == key
    decreases high - low
  {
    if low > high then low
    else
      var mid := low + (high - low) / 2;
      if arr[mid] == key then mid
      else if arr[mid] < key then Search(arr, key, mid + 1, high)
      else Search(arr, key, low, mid - 1)
  }

  /**
   * `find_address_insertion_point`: a position at which the key can be
   * inserted keeping the list sorted; it holds the key when the key is present.
   */
  function FindAddressInsertionPoint(arr: seq<Word>, key: Word): (pos: nat)
    requires Sorted(arr)
    ensures pos <= |arr|
    ensures forall i :: 0 <= i < pos ==> arr[i] <= key
    ensures forall i :: pos <= i < |arr| ==> arr[i] >= key
    ensures key in arr <==> pos < |arr| && arr[pos] == key
  {
    Search(arr, key, 0, |arr| - 1)
  }

  /** `insertAddressIntoMemory`: adds one more occurrence of the address, keeping the list sorted. */
  function InsertAddressIntoMemory(arr: seq<Word>, element: Word): (r: seq<Word>)
    requires Sorted(arr)
    ensures Sorted(r)
    ensures |r| == |arr| + 1
    ensures multiset(r) == multiset(arr) + multiset{element}
  {
    var pos := FindAddressInsertionPoint(arr, element);
    assert arr == arr[..pos] + arr[pos..];
    arr[..pos] + [element] + arr[pos..]
  }

  /** `isAddressUsed`: a binary search that finds the address exactly when it is listed. */
  function IsAddressUsed(env: Env, address: Word): (r: bool)
    requires Sorted(env.used)
    ensures r <==> address in env.used
  {
    var pos := FindAddressInsertionPoint(env.used, address);
    pos < |env.used| && env.used[pos] == address
  }

  // ---------------------------------------------------------------------
  // Writing the program into memory (assembler side)
  // ---------------------------------------------------------------------

  /**
   * One byte stored at the program counter: in the first pass only the
   * counter moves (wrapping at 16 bits); otherwise the counter must be inside
   * memory and at or above the start address.
   */
  function Write1(env: Env, cfg: Config, value: Byte, ann: Annotation): (r: Result<Env>)
    requires Valid(env)
    ensures env.firstPass ==> r == Ok(env.(pc := (env.pc + 1) % 0x1_0000))
    ensures !env.firstPass && env.pc >= MemorySize ==> r == Err(NoMemory)
    ensures !env.firstPass && env.pc < MemorySize && env.pc < cfg.startAddress ==> r == Err(ReadOnlyAddress)
    ensures !env.firstPass && cfg.startAddress <= env.pc < MemorySize ==> r.Ok? && WroteAt(env, r.value, env.pc, Cell(value, ann))
  {
    if env.firstPass then Ok(env.(pc := (env.pc + 1) % 0x1_0000))
    else if env.pc >= MemorySize then Err(NoMemory)
    else if env.pc < cfg.startAddress then Err(ReadOnlyAddress)
    else Ok(env.(memory := env.memory[env.pc := Cell(value, ann)],
                 used := InsertAddressIntoMemory(env.used, env.pc),
                 pc := env.pc + 1))
  }

  /**
   * `e` is `env` after storing `cell` at `addr` and stepping the counter past
   * it: that cell changed, the address was recorded once more, nothing else moved.
   */
  ghost predicate WroteAt(env: Env, e: Env, addr: nat, cell: Cell)
    requires Valid(env)
  {
    addr < MemorySize && Valid(e) && SameContext(env, e) && e.pc == addr + 1 &&
    e.memory[addr] == cell &&
    (forall a :: 0 <= a < MemorySize && a != addr ==> e.memory[a] == env.memory[a]) &&
    multiset(e.used) == multiset(env.used) + multiset{addr}
  }

  /** `addToMemoryHex1`: an operand byte, with the empty annotation. */
  function AddToMemoryHex1(env: Env, cfg: Config, hex: Byte): (r: Result<Env>)
    requires Valid(env)
    ensures env.firstPass ==> r == Ok(env.(pc := (env.pc + 1) % 0x1_0000))
    ensures r.Ok? ==> Valid(r.value) && SameContext(env, r.value)
    ensures r.Ok? && !env.firstPass ==> env.pc < MemorySize && r.value.memory[env.pc] == Cell(hex, Blank) && r.value.pc == env.pc + 1
    ensures r.Ok? && !env.firstPass ==> forall a :: 0 <= a < MemorySize && a != env.pc ==> r.value.memory[a] == env.memory[a]
    ensures r.Err? <==> !env.firstPass && (env.pc >= MemorySize || env.pc < cfg.startAddress)
  {
    Write1(env, cfg, hex, Blank)
  }

  /** `addToMemoryHex1Annotation`: a byte with its own annotation. */
  function AddToMemoryHex1Annotation(env: Env, cfg: Config, hex: Byte, ann: Annotation): (r: Result<Env>)
    requires Valid(env)
    ensures env.firstPass ==> r == Ok(env.(pc := (env.pc + 1) % 0x1_0000))
    ensures r.Ok? ==> Valid(r.value) && SameContext(env, r.value)
    ensures r.Ok? && !env.firstPass ==> env.pc < MemorySize && r.value.memory[env.pc] == Cell(hex, ann) && r.value.pc == env.pc + 1
    ensures r.Ok? && !env.firstPass ==> forall a :: 0 <= a < MemorySize && a != env.pc ==> r.value.memory[a] == env.memory[a]
    ensures r.Err? <==> !env.firstPass && (env.pc >= MemorySize || env.pc < cfg.startAddress)
  {
    Write1(env, cfg, hex, ann)
  }

  /**
   * `addToMemoryHex2`: a 16-bit operand, low byte first. Both cells must fit
   * below the end of memory; the first pass only advances the counter by two.
   */
  function AddToMemoryHex2(env: Env, cfg: Config, hex: Word): (r: Result<Env>)
    requires Valid(env)
    ensures env.firstPass ==> r == Ok(env.(pc := (env.pc + 2) % 0x1_0000))
    ensures !env.firstPass && env.pc + 1 >= MemorySize ==> r == Err(NoMemory)
    ensures !env.firstPass && env.pc + 1 < MemorySize && env.pc < cfg.startAddress ==> r == Err(ReadOnlyAddress)
    ensures !env.firstPass && cfg.startAddress <= env.pc && env.pc + 1 < MemorySize ==>
      r.Ok? && WroteWordAt(env, r.value, env.pc, Cell(Low(hex), Blank), Cell(High(hex), Blank))
  {
    if env.firstPass then Ok(env.(pc := (env.pc + 2) % 0x1_0000))
    else if env.pc + 1 >= MemorySize then Err(NoMemory)
    else if env.pc < cfg.startAddress then Err(ReadOnlyAddress)
    else
      var e1 := Write1(env, cfg, Low(hex), Blank).value;
      var e2 := Write1(e1, cfg, High(hex), Blank).value;
      WroteTwice(env, e1, e2, env.pc, Cell(Low(hex), Blank), Cell(High(hex), Blank));
      Ok(e2)
  }

  /** Two consecutive cells stored from `addr` on, the counter stepped past both. */
  ghost predicate WroteWordAt(env: Env, e: Env, addr: nat, lo: Cell, hi: Cell)
    requires Valid(env)
  {
    addr + 1 < MemorySize && Valid(e) && SameContext(env, e) && e.pc == addr + 2 &&
    e.memory[addr] == lo && e.memory[addr + 1] == hi &&
    (forall a :: 0 <= a < MemorySize && a != addr && a != addr + 1 ==> e.memory[a] == env.memory[a]) &&
    multiset(e.used) == multiset(env.used) + multiset{addr as Word, (addr + 1) as Word}
  }

  /** Storing two cells one after the other is storing the pair. */
  lemma WroteTwice(env: Env, e1: Env, e: Env, addr: nat, lo: Cell, hi: Cell)
    requires Valid(env) && WroteAt(env, e1, addr, lo) && WroteAt(e1, e, addr + 1, hi)
    ensures WroteWordAt(env, e, addr, lo, hi)
  {
  }

  /** `addInstruction`: the opcode byte, annotated with the instruction's name. */
  function AddInstruction(env: Env, cfg: Config, op: Opcode): (r: Result<Env>)
    requires Valid(env)
    ensures env.firstPass ==> r == Ok(env.(pc := (env.pc + 1) % 0x1_0000))
    ensures r.Ok? ==> Valid(r.value) && SameContext(env, r.value)
    ensures r.Ok? && !env.firstPass ==>
      env.pc < MemorySize && r.value.pc == env.pc + 1 &&
      r.value.memory[env.pc] == Cell(Encode(op), Disassembly(Encode(op)))
    ensures r.Ok? && !env.firstPass ==> forall a :: 0 <= a < MemorySize && a != env.pc ==> r.value.memory[a] == env.memory[a]
    ensures r.Err? <==> !env.firstPass && (env.pc >= MemorySize || env.pc < cfg.startAddress)
  {
    AddToMemoryHex1Annotation(env, cfg, Encode(op), Disassembly(Encode(op)))
  }

  /** `addInstructionWithHex1`: the opcode followed by a one-byte operand. */
  function AddInstructionWithHex1(env: Env, cfg: Config, op: Opcode, value: Byte): (r: Result<Env>)
    requires Valid(env)
    ensures env.firstPass ==> r == Ok(env.(pc := (env.pc + 2) % 0x1_0000))
    ensures r.Ok? ==> Valid(r.value) && SameContext(env, r.value)
    ensures r.Ok? && !env.firstPass ==>
      env.pc + 1 < MemorySize && r.value.pc == env.pc + 2 &&
      r.value.memory[env.pc] == Cell(Encode(op), Disassembly(Encode(op))) &&
      r.value.memory[env.pc + 1] == Cell(value, Blank)
    ensures r.Ok? && !env.firstPass ==>
      forall a :: 0 <= a < MemorySize && !(env.pc <= a < env.pc + 2) ==> r.value.memory[a] == env.memory[a]
    ensures r.Err? <==> !env.firstPass && (env.pc + 1 >= MemorySize || env.pc < cfg.startAddress)
  {
    var e1 :- AddToMemoryHex1Annotation(env, cfg, Encode(op), Disassembly(Encode(op)));
    WrapAdd(env.pc + 1, 1);
    AddToMemoryHex1(e1, cfg, value)
  }

  /** `addInstructionWithHex2`: the opcode followed by a two-byte operand, low byte first. */
  function AddInstructionWithHex2(env: Env, cfg: Config, op: Opcode, value: Word): (r: Result<Env>)
    requires Valid(env)
    ensures env.firstPass ==> r == Ok(env.(pc := (env.pc + 3) % 0x1_0000))
    ensures r.Ok? ==> Valid(r.value) && SameContext(env, r.value)
    ensures r.Ok? && !env.firstPass ==>
      env.pc + 2 < MemorySize && r.value.pc == env.pc + 3 &&
      r.value.memory[env.pc] == Cell(Encode(op), Disassembly(Encode(op))) &&
      r.value.memory[env.pc + 1] == Cell(Low(value), Blank) &&
      r.value.memory[env.pc + 2] == Cell(High(value), Blank)
    ensures r.Ok? && !env.firstPass ==>
      forall a :: 0 <= a < MemorySize && !(env.pc <= a < env.pc + 3) ==> r.value.memory[a] == env.memory[a]
    ensures r.Err? <==> !env.firstPass && (env.pc + 2 >= MemorySize || env.pc < cfg.startAddress)
  {
    var e1 :- AddToMemoryHex1Annotation(env, cfg, Encode(op), Disassembly(Encode(op)));
    WrapAdd(env.pc + 1, 2);
    var r := AddToMemoryHex2(e1, cfg, value);
    r
  }

  // ---------------------------------------------------------------------
  // Symbol table
  // ---------------------------------------------------------------------

  /** `getLabelFromName`: index of the first entry with that name, or -1. */
  function LabelFromName(labels: seq<Label>, name: string): (i: int)
    ensures -1 <= i < |labels|
    ensures i == -1 <==> forall j :: 0 <= j < |labels| ==> labels[j].name != name
    ensures i >= 0 ==> labels[i].name == name && forall j :: 0 <= j < i ==> labels[j].name != name
  {
    LabelFromNameFrom(labels, name, 0)
  }

  function LabelFromNameFrom(labels: seq<Label>, name: string, k: nat): (i: int)
    requires k <= |labels|
    requires forall j :: 0 <= j < k ==> labels[j].name != name
    ensures -1 <= i < |labels|
    ensures i == -1 <==> forall j :: 0 <= j < |labels| ==> labels[j].name != name
    ensures i >= 0 ==> labels[i].name == name && forall j :: 0 <= j < i ==> labels[j].name != name
    decreases |labels| - k
  {
    if k == |labels| then -1
    else if labels[k].name == name then k
    else LabelFromNameFrom(labels, name, k + 1)
  }

  /** The address a name is bound to in a symbol table, if any. */
  function Lookup(labels: seq<Label>, name: string): Option<Word> {
    var i := LabelFromName(labels, name);
    if i == -1 then None else Some(labels[i].address)
  }

  /** No name appears twice in the symbol table. */
  predicate UniqueNames(labels: seq<Label>) {
    forall i, j :: 0 <= i < j < |labels| ==> labels[i].name != labels[j].name
  }

  /**
   * Binding a name in a table: a name already present keeps its slot and
   * takes the new address, a new name goes at the end.
   */
  function Define(labels: seq<Label>, name: string, address: Word): (r: seq<Label>)
    ensures Lookup(r, name) == Some(address)
    ensures forall n :: n != name ==> Lookup(r, n) == Lookup(labels, n)
    ensures UniqueNames(labels) ==> UniqueNames(r)
    ensures |labels| <= |r| <= |labels| + 1
    ensures LabelFromName(labels, name) != -1 ==> r == labels[LabelFromName(labels, name) := Label(name, address)]
    ensures LabelFromName(labels, name) == -1 ==> r == labels + [Label(name, address)]
  {
    var i := LabelFromName(labels, name);
    if i != -1 then
      var r := labels[i := Label(name, address)];
      assert forall j :: 0 <= j < i ==> r[j].name != name;
      assert r[i].name == name;
      assert forall n :: n != name ==> LabelFromName(r, n) == LabelFromName(labels, n) by {
        forall n | n != name ensures LabelFromName(r, n) == LabelFromName(labels, n) {
          LabelFromNameUnchanged(labels, r, n);
        }
      }
      r
    else
      var r := labels + [Label(name, address)];
      assert forall j :: 0 <= j < |labels| ==> r[j].name != name;
      assert r[|labels|].name == name;
      assert forall n :: n != name ==> LabelFromName(r, n) == LabelFromName(labels, n) by {
        forall n | n != name ensures LabelFromName(r, n) == LabelFromName(labels, n) {
          LabelFromNameUnchanged(labels, r, n);
        }
      }
      r
  }

  /**
   * Lookup of a name depends only on which slots hold that name and their
   * addresses: a table that agrees on those slots agrees on the index.
   */
  lemma LabelFromNameUnchanged(l1: seq<Label>, l2: seq<Label>, n: string)
    requires |l1| <= |l2|
    requires forall j :: 0 <= j < |l1| ==> (l1[j].name == n <==> l2[j].name == n)
    requires forall j :: 0 <= j < |l1| && l1[j].name == n ==> l1[j] == l2[j]
    requires forall j :: |l1| <= j < |l2| ==> l2[j].name != n
    ensures LabelFromName(l1, n) == LabelFromName(l2, n)
  {
    var i1 := LabelFromName(l1, n);
    var i2 := LabelFromName(l2, n);
    if i1 == -1 {
      assert forall j :: 0 <= j < |l2| ==> l2[j].name != n by {
        forall j | 0 <= j < |l2| ensures l2[j].name != n {
          if j < |l1| { assert l1[j].name != n; }
        }
      }
    } else {
      assert l2[i1].name == n;
      assert forall j :: 0 <= j < i1 ==> l2[j].name != n by {
        forall j | 0 <= j < i1 ensures l2[j].name != n {
          assert l1[j].name != n;
        }
      }
    }
  }

  /** `addLabel`: binds the name to the address in the first pass, does nothing afterwards. */
  function AddLabel(env: Env, name: string, address: Word): (e: Env)
    ensures !env.firstPass ==> e == env
    ensures env.firstPass ==> Lookup(e.labels, name) == Some(address)
    ensures env.firstPass ==> forall n :: n != name ==> Lookup(e.labels, n) == Lookup(env.labels, n)
    ensures env.firstPass && LabelFromName(env.labels, name) != -1 ==>
      e.labels == env.labels[LabelFromName(env.labels, name) := Label(name, address)]
    ensures env.firstPass && LabelFromName(env.labels, name) == -1 ==> e.labels == env.labels + [Label(name, address)]
    ensures UniqueNames(env.labels) ==> UniqueNames(e.labels)
    ensures e == env.(labels := e.labels)
  {
    if !env.firstPass then env
    else env.(labels := Define(env.labels, name, address))
  }

  /**
   * `getValueOfLabel`: 0 during the first pass; afterwards the bound address,
   * and an invalid-argument exit for a name that was never defined.
   */
  function GetValueOfLabel(env: Env, name: string): (r: Result<Word>)
    ensures env.firstPass ==> r == Ok(0)
    ensures !env.firstPass && Lookup(env.labels, name).None? ==> r == Err(InvalidArgument)
    ensures !env.firstPass && Lookup(env.labels, name).Some? ==> r == Ok(Lookup(env.labels, name).value)
  {
    if env.firstPass then Ok(0)
    else
      var i := LabelFromName(env.labels, name);
      if i == -1 then Err(InvalidArgument) else Ok(env.labels[i].address)
  }

  /** A label defined in the first pass is read back by name in the second. */
  lemma LabelRoundTrip(env: Env, name: string, address: Word)
    requires env.firstPass
    ensures GetValueOfLabel(AddLabel(env, name, address).(firstPass := false), name) == Ok(address)
  {
  }

  // ---------------------------------------------------------------------
  // Run-time memory writes
  // ---------------------------------------------------------------------

  /** `setMemory`: a run-time store, annotated as defined by the program; the used list is not touched. */
  function SetMemory(env: Env, address: Word, value: Byte): (e: Env)
    requires Valid(env) && address < MemorySize
    ensures Valid(e) && SameContext(env, e) && e.pc == env.pc && e.used == env.used
    ensures e.memory[address] == Cell(value, EvalDefined)
    ensures forall a :: 0 <= a < MemorySize && a != address ==> e.memory[a] == env.memory[a]
  {
    env.(memory := env.memory[address := Cell(value, EvalDefined)])
  }

  /** `setMemoryHex2`: a 16-bit run-time store, low byte at the address, high byte after it. */
  function SetMemoryHex2(env: Env, address: Word, value: Word): (e: Env)
    requires Valid(env) && address + 1 < MemorySize
    ensures Valid(e) && SameContext(env, e) && e.pc == env.pc && e.used == env.used
    ensures e.memory[address] == Cell(Low(value), EvalDefined)
    ensures e.memory[address + 1] == Cell(High(value), EvalDefined)
    ensures forall a :: 0 <= a < MemorySize && a != address && a != address + 1 ==> e.memory[a] == env.memory[a]
  {
    SetMemory(SetMemory(env, address, (value % 0x100)), address + 1, (value / 0x100) % 0x100)
  }

  /** The 16-bit value stored little-endian at `address`. */
  function ReadWord(env: Env, address: nat): (w: Word)
    requires Valid(env) && address + 1 < MemorySize
  {
    env.memory[address + 1].value * 0x100 + env.memory[address].value
  }

  /** A 16-bit store reads back as the same value. */
  lemma SetMemoryHex2ReadBack(env: Env, address: Word, value: Word)
    requires Valid(env) && address + 1 < MemorySize
    ensures ReadWord(SetMemoryHex2(env, address, value), address) == value
  {
    HalvesRebuild(value);
  }
}

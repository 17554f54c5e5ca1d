/**
 * The run-time handlers of the instructions the interpreter executes:
 * `execute_add`, `execute_sub`, `execute_dcr`, `execute_mvi`, `execute_out`
 * and `execute_hlt`. Registers are unsigned 8-bit cells and wrap around;
 * the handlers store into the register array directly, so the flags are
 * never recomputed while a program runs.
 */
module InstructionsFunctions {
  import opened Common
  import opened Instructions
  import opened Environment

  /** `e` is `env` with register `r` holding `v` and nothing else changed. */
  predicate OnlyRegister(env: Env, e: Env, r: Reg, v: Byte) {
    && e.registers.Get(r) == v
    && (forall q :: q != r ==> e.registers.Get(q) == env.registers.Get(q))
    && e.flags == env.flags && e.memory == env.memory && e.pc == env.pc
    && e.labels == env.labels && e.used == env.used
    && e.firstPass == env.firstPass && e.currentInstruction == env.currentInstruction
  }

  /** Two 8-bit values that agree modulo 256 are equal. */
  lemma ByteCongruence(x: Byte, y: Byte)
    requires (x - y) % 0x100 == 0
    ensures x == y
  {
  }

  /** Multiples of 256 add up to a multiple of 256. */
  lemma ModSum(x: int, y: int)
    requires x % 0x100 == 0 && y % 0x100 == 0
    ensures (x + y) % 0x100 == 0
  {
  }

  /** `execute_add`: A becomes A plus the register, modulo 256. */
  function ExecuteAdd(env: Env, r: Reg): (e: Env)
    ensures (e.registers.a - env.registers.a - env.registers.Get(r)) % 0x100 == 0
    ensures OnlyRegister(env, e, A, e.registers.a)
  {
    env.(registers := env.registers.Set(A, (env.registers.a + env.registers.Get(r)) % 0x100))
  }

  /** `execute_sub`: A becomes A minus the register, modulo 256. */
  function ExecuteSub(env: Env, r: Reg): (e: Env)
    ensures (e.registers.a + env.registers.Get(r) - env.registers.a) % 0x100 == 0
    ensures OnlyRegister(env, e, A, e.registers.a)
  {
    env.(registers := env.registers.Set(A, (env.registers.a - env.registers.Get(r)) % 0x100))
  }

  /** Subtracting a register other than A undoes adding it. */
  lemma SubUndoesAdd(env: Env, r: Reg)
    requires r != A
    ensures ExecuteSub(ExecuteAdd(env, r), r) == env
  {
    var e1 := ExecuteAdd(env, r);
    var e2 := ExecuteSub(e1, r);
    ModSum(e1.registers.a - env.registers.a - env.registers.Get(r), e2.registers.a + e1.registers.Get(r) - e1.registers.a);
    ByteCongruence(e2.registers.a, env.registers.a);
    RegistersEqual(e2.registers, env.registers);
  }

  /** Adding a register other than A undoes subtracting it. */
  lemma AddUndoesSub(env: Env, r: Reg)
    requires r != A
    ensures ExecuteAdd(ExecuteSub(env, r), r) == env
  {
    var e1 := ExecuteSub(env, r);
    var e2 := ExecuteAdd(e1, r);
    ModSum(e1.registers.a + env.registers.Get(r) - env.registers.a, e2.registers.a - e1.registers.a - e1.registers.Get(r));
    ByteCongruence(e2.registers.a, env.registers.a);
    RegistersEqual(e2.registers, env.registers);
  }

  /** Register files that agree on every register are equal. */
  lemma RegistersEqual(x: Registers, y: Registers)
    requires forall q :: x.Get(q) == y.Get(q)
    ensures x == y
  {
    assert x.Get(A) == y.Get(A) && x.Get(B) == y.Get(B) && x.Get(C) == y.Get(C);
  }

  /** `execute_dcr`: the register goes down by one, from 0 back to 255. */
  function ExecuteDcr(env: Env, r: Reg): (e: Env)
    ensures (e.registers.Get(r) + 1) % 0x100 == env.registers.Get(r)
    ensures OnlyRegister(env, e, r, e.registers.Get(r))
  {
    env.(registers := env.registers.Set(r, (env.registers.Get(r) - 1) % 0x100))
  }

  /** `n` decrements of the same register, one after the other. */
  function DcrTimes(env: Env, r: Reg, n: nat): Env {
    if n == 0 then env else ExecuteDcr(DcrTimes(env, r, n - 1), r)
  }

  /** After `n` decrements the register is its old value minus `n`, modulo 256. */
  lemma {:induction false} DcrTimesValue(env: Env, r: Reg, n: nat)
    ensures (DcrTimes(env, r, n).registers.Get(r) + n - env.registers.Get(r)) % 0x100 == 0
    ensures OnlyRegister(env, DcrTimes(env, r, n), r, DcrTimes(env, r, n).registers.Get(r))
  {
    if n > 0 {
      var prev := DcrTimes(env, r, n - 1);
      var e := ExecuteDcr(prev, r);
      DcrTimesValue(env, r, n - 1);
      ModSum(e.registers.Get(r) + 1 - prev.registers.Get(r), prev.registers.Get(r) + (n - 1) - env.registers.Get(r));
    }
  }

  /** 256 decrements bring every register back where it started. */
  lemma DcrCycle(env: Env, r: Reg)
    ensures DcrTimes(env, r, 0x100) == env
  {
    var e := DcrTimes(env, r, 0x100);
    DcrTimesValue(env, r, 0x100);
    ByteCongruence(e.registers.Get(r), env.registers.Get(r));
    RegistersEqual(e.registers, env.registers);
  }

  /** `execute_mvi`: the register takes the immediate value. */
  function ExecuteMvi(env: Env, r: Reg, value: Byte): (e: Env)
    ensures OnlyRegister(env, e, r, value)
  {
    env.(registers := env.registers.Set(r, value))
  }

  /** A second MVI to the same register overrides the first. */
  lemma MviOverrides(env: Env, r: Reg, v1: Byte, v2: Byte)
    ensures ExecuteMvi(ExecuteMvi(env, r, v1), r, v2) == ExecuteMvi(env, r, v2)
  {
    RegistersEqual(ExecuteMvi(ExecuteMvi(env, r, v1), r, v2).registers, ExecuteMvi(env, r, v2).registers);
  }

  /**
   * `execute_out`: the accumulator is what gets printed (in hexadecimal and
   * in decimal); the two-byte operand is read but plays no part.
   */
  function ExecuteOut(env: Env, port: Word): (printed: Byte) {
    env.registers.a
  }

  /**
   * `execute_hlt`: before exiting, the used addresses are listed with their
   * contents after sorting them with `qsort`. The list is kept sorted, so
   * the listing follows it as it stands.
   */
  function ExecuteHlt(env: Env): (dump: seq<(Word, Byte)>)
    requires Valid(env)
    ensures |dump| == |env.used|
    ensures forall i :: 0 <= i < |dump| ==>
      dump[i].0 == env.used[i] && (dump[i].0 < MemorySize ==> dump[i].1 == env.memory[dump[i].0].value)
    ensures forall i, j :: 0 <= i < j < |dump| ==> dump[i].0 <= dump[j].0
  {
    seq(|env.used|, i requires 0 <= i < |env.used| =>
      (env.used[i], if env.used[i] < MemorySize then env.memory[env.used[i]].value else 0))
  }

  /**
   * Sorting an already sorted list gives it back: any sorted rearrangement
   * of a sorted list is that list, so `qsort` leaves the used list as it is.
   */
  lemma {:induction false} SortedPermutationUnique(s: seq<Word>, t: seq<Word>)
    requires Sorted(s) && Sorted(t) && multiset(s) == multiset(t)
    ensures s == t
    decreases |s|
  {
    hide *;
    if s != [] {
      SameElements(s, t);
      HeadIsLeast(s, t[0]);
      HeadIsLeast(t, s[0]);
      MultisetTail(s);
      MultisetTail(t);
      SortedTail(s);
      SortedTail(t);
      SortedPermutationUnique(s[1..], t[1..]);
      SameHeadAndTail(s, t);
    } else {
      SameElements(t, s);
    }
  }

  /** Lists with the same elements are empty together, and share their heads' membership. */
  lemma SameElements(s: seq<Word>, t: seq<Word>)
    requires multiset(s) == multiset(t)
    ensures s == [] <==> t == []
    ensures s != [] ==> s[0] in multiset(t) && t[0] in multiset(s)
  {
    if s != [] {
      assert s[0] in multiset(s);
      assert t != [];
      assert t[0] in multiset(t);
    } else {
      assert |t| == |multiset(t)| == |multiset(s)| == 0;
    }
  }

  /** Lists with the same head and the same tail are the same list. */
  lemma SameHeadAndTail(s: seq<Word>, t: seq<Word>)
    requires s != [] && t != [] && s[0] == t[0] && s[1..] == t[1..]
    ensures s == t
  {
    assert s == [s[0]] + s[1..] && t == [t[0]] + t[1..];
  }

  /** The head of a sorted list is at most anything in it. */
  lemma HeadIsLeast(s: seq<Word>, x: Word)
    requires Sorted(s) && x in multiset(s)
    ensures s[0] <= x
  {
    var i :| 0 <= i < |s| && s[i] == x;
  }

  /** The tail holds everything but one occurrence of the head. */
  lemma MultisetTail(s: seq<Word>)
    requires s != []
    ensures multiset(s[1..]) == multiset(s) - multiset{s[0]}
  {
    assert s == [s[0]] + s[1..];
  }

  lemma SortedTail(s: seq<Word>)
    requires Sorted(s) && |s| > 0
    ensures Sorted(s[1..])
  {
  }
}

/** Register identifiers of the A32 frontend: the sixteen general-purpose
    registers, the 64 extended (VFP) register names over the single and
    double banks, the bank predicates, the mapping from an identifier to its
    architectural register number, and stepping an identifier forward.

    Both C++ enumerations are `enum class` with underlying type `int`, so an
    identifier is modelled by its integer value. `ASSERT`s of the source become
    `requires` clauses; the arithmetic is done on `size_t` and `int` exactly as
    the source does it (see MachineInt).
 */
module A32Types {
  import opened MachineInt

  /** `Reg`: R0..R15 hold the values 0..15, and INVALID_REG is 99. */
  type Reg = r: Int32 | 0 <= r <= 15 || r == 99 witness 0

  const INVALID_REG: Reg := 99
  const SP: Reg := 13
  const LR: Reg := 14
  const PC: Reg := 15

  /** The first and last enumerators of the two `ExtReg` banks. */
  const S0: int := 0
  const S31: int := 31
  const D0: int := 32
  const D31: int := 63

  /** The enumerator Rn. */
  function R(n: nat): (r: Reg)
    requires n <= 15
    ensures r != INVALID_REG && r <= PC
  {
    n
  }

  /** `ExtReg`: S0..S31 hold the values 0..31, D0..D31 the values 32..63. */
  type ExtReg = r: Int32 | 0 <= r < 64 witness 0

  /** The enumerator Sn: a single register, 32 values below Dn. */
  function S(n: nat): (r: ExtReg)
    requires n < 32
    ensures IsSingleExtReg(r)
    ensures r + 32 == D(n)
  {
    n
  }

  /** The enumerator Dn: a double register. */
  function D(n: nat): (r: ExtReg)
    requires n < 32
    ensures IsDoubleExtReg(r)
  {
    32 + n
  }

  /** `RegList`: bit i set means Ri is in the list. */
  type RegList = bv16

  datatype ShiftType = LSL | LSR | ASR | ROR

  datatype SignExtendRotation = ROR_0 | ROR_8 | ROR_16 | ROR_24

  /** `IsSingleExtReg`: the value lies between S0 and S31. It takes the raw
      enumeration value, because `operator+` applies it to a value that need
      not be one of the 64 enumerators. */
  predicate IsSingleExtReg(reg: Int32): (b: bool)
    ensures b ==> 0 <= reg < 64 && !IsDoubleExtReg(reg)
  {
    S0 <= reg <= S31
  }

  /** `IsDoubleExtReg`: the value lies between D0 and D31. */
  predicate IsDoubleExtReg(reg: Int32): (b: bool)
    ensures b ==> 0 <= reg < 64
  {
    D0 <= reg <= D31
  }

  /** `RegNumber(Reg)`: the architectural number of a general-purpose
      register; INVALID_REG has none. */
  function RegNumber(reg: Reg): (n: SizeT)
    requires reg != INVALID_REG
    ensures n <= 15 && R(n) == reg
  {
    reg
  }

  /** `RegNumber(ExtReg)`: Sn and Dn are both register number n of their
      bank. The source's fall-through to `ASSERT_FALSE` cannot be reached for
      any of the 64 enumerators: every one that is not single is double,
      which the assert proves. */
  function ExtRegNumber(reg: ExtReg): (n: SizeT)
    ensures n < 32
    ensures reg == if IsSingleExtReg(reg) then S(n) else D(n)
  {
    if IsSingleExtReg(reg) then
      reg - S0
    else
      assert IsDoubleExtReg(reg);
      reg - D0
  }

  /** `reg + number` on `Reg`. The `size_t` sum wraps modulo 2^64, so the
      assertion admits an offset that steps backwards by wrapping round. */
  function AddReg(reg: Reg, number: SizeT): (r: Reg)
    requires reg != INVALID_REG
    requires AddSizeT(RegNumber(reg), number) <= 15
    ensures r != INVALID_REG
    ensures RegNumber(reg) + number <= 15 ==> RegNumber(r) == RegNumber(reg) + number
    ensures RegNumber(reg) + number > 15 ==> RegNumber(r) == RegNumber(reg) + number - SIZE_T_MODULUS
  {
    AddSizeT(RegNumber(reg), number)
  }

  /** The raw value `static_cast<ExtReg>(static_cast<size_t>(reg) + number)`:
      the `size_t` sum converted to the enumeration's underlying `int`. */
  function ExtRegSum(reg: ExtReg, number: SizeT): (v: Int32)
    ensures (reg + number - v) % INT_MODULUS == 0
    ensures reg + number <= INT_MAX ==> v == reg + number
  {
    SizeTToInt(AddSizeT(reg, number))
  }

  /** The assertion of `operator+(ExtReg, size_t)`: `reg` and the value `v`
      are both in the single bank or both in the double bank. */
  predicate SameBank(reg: ExtReg, v: Int32): (b: bool)
    ensures b ==> 0 <= v < 64 && IsSingleExtReg(v) == IsSingleExtReg(reg)
  {
    (IsSingleExtReg(reg) && IsSingleExtReg(v)) || (IsDoubleExtReg(reg) && IsDoubleExtReg(v))
  }

  /** `reg + number` on `ExtReg`: defined only when the result stays in the
      bank of `reg`; it then keeps the bank and moves the register number by
      `number` (modulo 2^32, the width of the enumeration). */
  function AddExtReg(reg: ExtReg, number: SizeT): (r: ExtReg)
    requires SameBank(reg, ExtRegSum(reg, number))
    ensures IsSingleExtReg(r) == IsSingleExtReg(reg)
    ensures IsDoubleExtReg(r) == IsDoubleExtReg(reg)
    ensures ExtRegNumber(r) == (ExtRegNumber(reg) + number) % INT_MODULUS
  {
    SizeTToIntOfSum(reg, number);
    ExtRegSum(reg, number)
  }

  // ---------------------------------------------------------------------
  // General-purpose registers

  /** SP, LR and PC are R13, R14 and R15. */
  lemma AliasNumbers()
    ensures SP == R(13) && RegNumber(SP) == 13
    ensures LR == R(14) && RegNumber(LR) == 14
    ensures PC == R(15) && RegNumber(PC) == 15
  {
  }

  /** Rn has register number n, and distinct numbers name distinct registers. */
  lemma RegNumberOfR(n: nat, m: nat)
    requires n <= 15 && m <= 15
    ensures RegNumber(R(n)) == n
    ensures R(n) == R(m) <==> n == m
  {
  }

  /** Stepping a register by zero leaves it unchanged. */
  lemma AddRegZero(reg: Reg)
    requires reg != INVALID_REG
    ensures AddReg(reg, 0) == reg
  {
  }

  /** Stepping by `a` and then by `b` is stepping by the `size_t` sum `a + b`. */
  lemma AddRegCompose(reg: Reg, a: SizeT, b: SizeT)
    requires reg != INVALID_REG
    requires AddSizeT(RegNumber(reg), a) <= 15
    requires AddSizeT(RegNumber(AddReg(reg, a)), b) <= 15
    ensures AddSizeT(RegNumber(reg), AddSizeT(a, b)) <= 15
    ensures AddReg(AddReg(reg, a), b) == AddReg(reg, AddSizeT(a, b))
  {
    AddSizeTAssociative(RegNumber(reg), a, b);
  }

  /** Stepping by the `size_t` negation of `number` undoes stepping by `number`. */
  lemma AddRegInverse(reg: Reg, number: SizeT)
    requires reg != INVALID_REG
    requires AddSizeT(RegNumber(reg), number) <= 15
    ensures AddSizeT(RegNumber(AddReg(reg, number)), NegSizeT(number)) <= 15
    ensures AddReg(AddReg(reg, number), NegSizeT(number)) == reg
  {
    AddSizeTAssociative(RegNumber(reg), number, NegSizeT(number));
  }

  /** Every valid register can be reached from every other one by `+`. */
  lemma AddRegReaches(reg: Reg, target: Reg)
    requires reg != INVALID_REG && target != INVALID_REG
    ensures var n := AddSizeT(RegNumber(target), NegSizeT(RegNumber(reg)));
            AddSizeT(RegNumber(reg), n) <= 15 && AddReg(reg, n) == target
  {
    AddSizeTAssociative(RegNumber(reg), NegSizeT(RegNumber(reg)), RegNumber(target));
  }

  // ---------------------------------------------------------------------
  // Extended registers: banks and numbers

  /** A value is in the single bank exactly when it is some Sn. */
  lemma SingleExtRegIff(reg: Int32)
    ensures IsSingleExtReg(reg) <==> exists n: nat :: n < 32 && reg == S(n)
  {
    if IsSingleExtReg(reg) {
      assert reg == S(reg);
    }
  }

  /** A value is in the double bank exactly when it is some Dn. */
  lemma DoubleExtRegIff(reg: Int32)
    ensures IsDoubleExtReg(reg) <==> exists n: nat :: n < 32 && reg == D(n)
  {
    if IsDoubleExtReg(reg) {
      assert reg == D(reg - 32);
    }
  }

  /** The two banks partition the 64 enumerators, and no other value of the
      underlying `int` lies in either bank. */
  lemma BanksPartition(v: Int32)
    ensures !(IsSingleExtReg(v) && IsDoubleExtReg(v))
    ensures IsSingleExtReg(v) || IsDoubleExtReg(v) <==> 0 <= v < 64
  {
  }

  /** Sn and Dn share register number n but are different registers. */
  lemma ExtRegNumberOfSD(n: nat)
    requires n < 32
    ensures IsSingleExtReg(S(n)) && ExtRegNumber(S(n)) == n
    ensures IsDoubleExtReg(D(n)) && ExtRegNumber(D(n)) == n
    ensures S(n) != D(n)
  {
  }

  /** An extended register is determined by its bank and its number. */
  lemma ExtRegNumberInjective(a: ExtReg, b: ExtReg)
    requires IsSingleExtReg(a) == IsSingleExtReg(b)
    requires ExtRegNumber(a) == ExtRegNumber(b)
    ensures a == b
  {
  }

  // ---------------------------------------------------------------------
  // Extended registers: stepping

  /** `reg + number` passes its assertion exactly when the register number
      moved by `number` (modulo 2^32) is still below 32. */
  lemma {:induction false} AddExtRegDefinedIff(reg: ExtReg, number: SizeT)
    ensures SameBank(reg, ExtRegSum(reg, number)) <==> (ExtRegNumber(reg) + number) % INT_MODULUS < 32
  {
    SizeTToIntOfSum(reg, number);
    var base := reg - ExtRegNumber(reg);
    assert base == 0 || base == 32;
    assert (reg + number) % INT_MODULUS == (base + (ExtRegNumber(reg) + number) % INT_MODULUS) % INT_MODULUS;
  }

  /** Within a bank, stepping moves the register number by exactly `number`. */
  lemma AddExtRegShift(reg: ExtReg, number: SizeT)
    requires ExtRegNumber(reg) + number < 32
    ensures SameBank(reg, ExtRegSum(reg, number))
    ensures ExtRegNumber(AddExtReg(reg, number)) == ExtRegNumber(reg) + number
    ensures IsSingleExtReg(AddExtReg(reg, number)) == IsSingleExtReg(reg)
  {
    AddExtRegDefinedIff(reg, number);
  }

  /** Stepping an extended register by zero leaves it unchanged. */
  lemma AddExtRegZero(reg: ExtReg)
    ensures SameBank(reg, ExtRegSum(reg, 0))
    ensures AddExtReg(reg, 0) == reg
  {
  }

  /** S31 + 1 would be D0: the assertion rejects the crossing into the double bank. */
  lemma SingleBankEndRejected()
    ensures ExtRegSum(S(31), 1) == D(0)
    ensures !SameBank(S(31), ExtRegSum(S(31), 1))
  {
  }

  /** D31 + 1 would be 64, past the last enumerator: the assertion rejects it. */
  lemma DoubleBankEndRejected()
    ensures ExtRegSum(D(31), 1) == 64
    ensures !SameBank(D(31), ExtRegSum(D(31), 1))
  {
  }

  /** Stepping by the `size_t` negation of `number` undoes stepping by `number`. */
  lemma AddExtRegInverse(reg: ExtReg, number: SizeT)
    requires SameBank(reg, ExtRegSum(reg, number))
    ensures SameBank(AddExtReg(reg, number), ExtRegSum(AddExtReg(reg, number), NegSizeT(number)))
    ensures AddExtReg(AddExtReg(reg, number), NegSizeT(number)) == reg
  {
    var r := AddExtReg(reg, number);
    var back := NegSizeT(number);
    AddNegLow(ExtRegNumber(reg), number);
    AddExtRegDefinedIff(r, back);
    ExtRegNumberInjective(AddExtReg(r, back), reg);
  }
}

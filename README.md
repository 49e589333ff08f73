# A32 register identifiers

A model of the register-identifier layer of the A32 frontend of dynarmic, a
dynamic binary translator. The layer names the guest's registers and does a
little arithmetic on those names:

- `Reg` names the sixteen general-purpose registers R0..R15. SP, LR and PC are
  aliases of R13, R14 and R15. The sentinel `INVALID_REG` has the value 99.
- `ExtReg` names the 64 extended (VFP) registers. S0..S31 hold the values
  0..31 and D0..D31 hold the values 32..63.
- `IsSingleExtReg` and `IsDoubleExtReg` say which bank a value belongs to.
- `RegNumber` maps an identifier to its architectural register number. Sn
  and Dn both map to n.
- `reg + number` steps an identifier forward. Its assertion demands that the
  result stays in the register file, or in the same bank for `ExtReg`.

Both enumerations are `enum class` with underlying type `int`. The model
represents an identifier by its integer value: `Reg` is 0..15 or 99, and
`ExtReg` is 0..63. Each `ASSERT` of the source is a `requires` clause. Dafny
has no overloading, so the two `RegNumber` overloads are `RegNumber` and
`ExtRegNumber`. The two `operator+` overloads are `AddReg` and `AddExtReg`.

The arithmetic follows the source's machine types (module `MachineInt`):

- `size_t` is 64-bit unsigned. `RegNumber(reg) + number` and
  `static_cast<size_t>(reg) + number` wrap modulo 2^64. The assertions
  therefore also admit an offset that wraps round and steps backwards, such as
  `PC + SIZE_MAX`, which gives R14. The contracts of `AddReg` and `AddExtReg`
  say so, and the inverse lemmas use exactly this.
- `static_cast<ExtReg>` of a `size_t` converts to the underlying `int`. The
  model takes the low 32 bits as two's complement. C++20 requires this, and
  earlier compilers do it in practice. The bank predicates therefore take the
  raw `int` value. `operator+` applies them to a value that need not be one of
  the 64 enumerators.

What is proved:

- The two banks partition the 64 enumerators, and no other `int` value is in
  either bank.
- `RegNumber` is in 0..15 and gives back the register. `ExtRegNumber` is in
  0..31 and, together with the bank, gives back the register. The
  `ASSERT_FALSE` branch of `RegNumber(ExtReg)` cannot be reached for any of
  the 64 enumerators.
- `AddReg` and `AddExtReg` shift the register number by the offset. Stepping
  by 0 is the identity. Stepping by the `size_t` negation undoes a step.
  `AddExtReg` keeps the bank. S31 + 1 and D31 + 1 fail the assertion.
- `AddExtReg`'s assertion holds exactly when the moved register number,
  modulo 2^32, is below 32.

## Model

| member | source | states |
|---|---|---|
| `MachineInt.AddSizeT` | frontend/A32/types.h:94 | the `size_t` sum is the exact sum, or the sum less 2^64 when it overflows |
| `MachineInt.SizeTToInt` | frontend/A32/types.h:101 | converting a `size_t` to the enumeration's `int` gives the one `int` congruent to it modulo 2^32, and leaves values up to INT_MAX alone |
| `MachineInt.SizeTToIntOfSum` | frontend/A32/types.h:101 | the `int` value of the wrapped sum depends only on the sum's low 32 bits |
| `A32Types.R` | frontend/A32/types.h:22-23 | the enumerator Rn, for n up to 15, is a valid register no later than PC |
| `A32Types.S` | frontend/A32/types.h:31-34 | the enumerator Sn, for n below 32, is a single register and lies 32 values below Dn |
| `A32Types.D` | frontend/A32/types.h:35-38 | the enumerator Dn, for n below 32, is a double register |
| `A32Types.IsSingleExtReg` | frontend/A32/types.h:68-70 | a value in the single bank is one of the 64 enumerators and is not in the double bank |
| `A32Types.IsDoubleExtReg` | frontend/A32/types.h:72-74 | a value in the double bank is one of the 64 enumerators |
| `A32Types.ExtRegSum` | frontend/A32/types.h:101 | the raw `new_reg` value is congruent to `reg + number` modulo 2^32, and equals it when the sum fits in an `int` |
| `A32Types.SameBank` | frontend/A32/types.h:103-104 | when the assertion holds, the new value is one of the 64 enumerators and is single exactly when `reg` is |
| `A32Types.RegNumber` | frontend/A32/types.h:76-79 | for every register other than INVALID_REG, the number is at most 15 and Rn of that number is the register |
| `A32Types.AliasNumbers` | frontend/A32/types.h:22-28 | SP, LR and PC are R13, R14 and R15, with register numbers 13, 14 and 15 |
| `A32Types.RegNumberOfR` | frontend/A32/types.h:22-28 | Rn has register number n, and Rn equals Rm only when n equals m |
| `A32Types.ExtRegNumber` | frontend/A32/types.h:81-91 | the number is below 32, and the register is Sn if it is single and Dn otherwise, so the `ASSERT_FALSE` fall-through cannot be reached for any of the 64 enumerators |
| `A32Types.ExtRegNumberOfSD` | frontend/A32/types.h:81-88 | Sn is single and Dn is double, both have register number n, and they are different registers |
| `A32Types.ExtRegNumberInjective` | frontend/A32/types.h:81-88 | two extended registers in the same bank with the same number are the same register |
| `A32Types.SingleExtRegIff` | frontend/A32/types.h:68-70 | a value is single exactly when it is some Sn with n below 32 |
| `A32Types.DoubleExtRegIff` | frontend/A32/types.h:72-74 | a value is double exactly when it is some Dn with n below 32 |
| `A32Types.BanksPartition` | frontend/A32/types.h:30-39 | no value is in both banks, and a value is in one of them exactly when it is one of the 64 enumerators |
| `A32Types.AddReg` | frontend/A32/types.h:93-98 | defined when the register is valid and the wrapped sum is at most 15; the result is valid and its number is the old number plus the offset, or that sum less 2^64 when the offset wraps |
| `A32Types.AddRegZero` | frontend/A32/types.h:93-98 | `reg + 0` is `reg` |
| `A32Types.AddRegCompose` | frontend/A32/types.h:93-98 | stepping by a and then by b is defined as a single step by the `size_t` sum a + b, and gives the same register |
| `A32Types.AddRegInverse` | frontend/A32/types.h:93-98 | after `reg + number`, stepping by the `size_t` negation of number passes the assertion and returns to `reg` |
| `A32Types.AddRegReaches` | frontend/A32/types.h:93-98 | from every valid register, some offset passes the assertion and reaches any chosen valid register |
| `A32Types.AddExtReg` | frontend/A32/types.h:100-107 | defined when the raw result is in the bank of `reg`; the result stays single or double as `reg` was, and its number is the old number plus the offset modulo 2^32 |
| `A32Types.AddExtRegDefinedIff` | frontend/A32/types.h:100-104 | the assertion holds exactly when the old number plus the offset, modulo 2^32, is below 32 |
| `A32Types.AddExtRegShift` | frontend/A32/types.h:100-106 | when the old number plus the offset is below 32, the step is defined, keeps the bank and moves the number by exactly the offset |
| `A32Types.AddExtRegZero` | frontend/A32/types.h:100-106 | `reg + 0` is defined and is `reg` |
| `A32Types.AddExtRegInverse` | frontend/A32/types.h:100-106 | after `reg + number`, stepping by the `size_t` negation of number passes the assertion and returns to `reg` |
| `A32Types.SingleBankEndRejected` | frontend/A32/types.h:103-104 | S31 + 1 would be D0, and the assertion rejects it |
| `A32Types.DoubleBankEndRejected` | frontend/A32/types.h:103-104 | D31 + 1 would be 64, past the last enumerator, and the assertion rejects it |

## Left out

- `CondToString`, `RegToString`, `ExtRegToString`, `CoprocRegToString`, `RegListToString` and the `operator<<` overloads (frontend/A32/types.h:57-66): they are only declared in this file and produce text and stream output.
- `Cond` and `CoprocReg` come from `cond.h` and `coprocessor_util.h`. Neither file is part of this model, and no operation modelled here uses them.
- `ShiftType`, `SignExtendRotation` and `RegList` (frontend/A32/types.h:41-55) have no operations in this file. They appear as plain datatypes and a `bv16` type, with nothing proved about them.
- A failed `ASSERT` ends the process. The model states each assertion as a precondition and does not model the abort.
- A C++ `Reg` or `ExtReg` can hold any `int` through a cast. The model keeps only the enumerators (and INVALID_REG), which is what `operator+` produces. The raw `int` appears only where the source tests it, inside the `ExtReg` `operator+`.
- The rest of the translator (decoding, IR, optimizer, register allocation, emission, block cache, exclusive monitor) is not part of this model.

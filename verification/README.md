# ESIL interpreter of radare2, modelled in Dafny

ESIL is the stack-based intermediate language radare2 uses to emulate machine
code. An ESIL expression is a comma-separated postfix string such as
`1,rax,+=` or `rax,0,==,?{,4,rip,=,}`. The interpreter in `libr/anal/esil.c`
splits the string into words. Each registered word runs its operator; every
other word is pushed on a 31-entry operand stack. The operators read and
write a register file and a memory image, and they record the inputs of the
flag checks (`%z`, `%c`, `%b`, `%o`, `%p`, `%s`). Two further controls shape
the evaluation: a one-level conditional (`?{ … }`, `}{`) and a `GOTO` to a
word index. A word budget, `esil_goto_limit`, bounds every evaluation.

The model is a functional state machine. An immutable `State` holds the
stack, the flag inputs, the control fields, the registers and the memory. It
has one pure step function per operator and a parse function that terminates
on the pair (budget, characters left). The modules follow the layers of the
C file:

- `Words`: 64-bit unsigned arithmetic as naturals below 2^64, C's shifts,
  bitwise operators bit by bit, and `int` conversion.
- `Num`: `r_num_get` on the `0x` hex and decimal forms, and the token
  `pushnum` writes.
- `Flags`: `mask` and the borrow, carry, parity, sign and overflow checks.
- `Machine`: the state, the operand stack, the register file and memory,
  and the byte order of memory accesses.
- `Parm`: token classification and operand resolution (`get_parm_type`,
  `get_parm`, `esil_internal_read`, `isnum`, `isregornum`, `popRN`).
- `MemOps`: `peek`, `poke` and the compound memory operators `op=[n]`.
- `Ops`: the operator table as a datatype, the word of each operator, the
  lookup of a word, and every register and stack operator.
- `Scan`: the parse loop (`runword`'s budget, `gotoWord`, `evalWord`,
  `r_anal_esil_parse`), generic over what a word does.
- `Eval`: the rest of `runword` (braces, skipping, operators, pushing), the
  parse, and `r_anal_esil_condition`.

The collaborators of the interpreter are parameters of a `Config`:
- `r_num_get` on other forms;
- the byte counts the memory layer reports;
- the interrupt handlers;
- the `[*]` and `=[*]` operators;
- the value C leaves undefined.

The register file is a map from name to value and size. Memory is a map
from address to byte, and a byte never written reads as 0.

## Model

| member | source | states |
|---|---|---|
| Flags.Mask | libr/anal/esil.c:14-17 | `mask(b)` is 2^b − 1: b low bits set, not the b + 1 its comment announces; for b = 63 the signed shift wraps to the same value |
| Flags.MaskSteps | libr/anal/esil.c:15-17 | the C expression `((2 << b) − 1) >> 1`, evaluated step by step on 64-bit words, equals 2^b − 1 for every b below 64 |
| Flags.Carry | libr/anal/esil.c:223-226 | the carry check is 0 or 1, and 1 exactly when the low (bit mod 64) bits of `cur` are below those of `old` |
| Flags.BorrowWidth | libr/anal/esil.c:219 | the borrow check's width is (bit − 1) mod 64, so one more than it is bit modulo 64 |
| Flags.Borrow | libr/anal/esil.c:218-221 | the borrow check is 0 or 1, and 1 exactly when the low bits of `old` at the borrow width are below those of `cur` |
| Flags.CarryOfAdd | libr/anal/esil.c:223-226 | after `cur = old + s`, the carry at k is 1 exactly when the k-bit parts of `old` and s add up to 2^k or more |
| Flags.BorrowOfSub | libr/anal/esil.c:218-221 | after `cur = old − s`, the borrow is 1 exactly when the part of `old` at the borrow width is below that of s |
| Flags.CarryBorrowExclusive | libr/anal/esil.c:218-226 | the carry at k and the borrow at k + 1 are never both 1 |
| Flags.BorrowWidthOfNext | libr/anal/esil.c:219 | the borrow at k + 1 looks at k bits, the width the carry at k uses |
| Flags.CarryAt64IsZero | libr/anal/esil.c:223-226 | `$c64` is always 0: the width is reduced modulo 64 before the mask is taken |
| Flags.Overflow | libr/anal/esil.c:242-246 | the overflow check is 0 or 1, and 0 when `lastsz` is below 2; otherwise it is 1 exactly when the carries at `lastsz` − 1 and `lastsz` − 2 differ |
| Flags.OverflowOfAdd | libr/anal/esil.c:242-246 | after `cur = old + s`, the overflow check at width w is 1 exactly when adding `old` and s as signed (w − 1)-bit numbers leaves that range |
| Flags.OverflowAsCarries | libr/anal/esil.c:242-246 | the same check is the difference of the carries out of bit w − 2 and bit w − 3 of the sum |
| Flags.CarryOfAddBelow64 | libr/anal/esil.c:223-226 | below 64, the carry at k of a sum is the carry out of its k low bits |
| Flags.OverflowAtByteWidth | libr/anal/esil.c:242-246 | `0x7f + 1` is a signed 8-bit overflow, yet the check at `lastsz` 8 reports 0 |
| Flags.SignedOverflowIsCarries | libr/anal/esil.c:242-246 | signed overflow of an n-bit addition, for n from 1 to 64, is exactly the carry out of its n low bits differing from the carry out of its n − 1 low bits |
| Flags.CarryOutOfAdd | libr/anal/esil.c:223-226 | for k up to 64, the comparison of the k low bits of `old` and `cur` after `cur = old + s` reports the carry out of the k low bits of the addition |
| Flags.CarryIsCarryOut | libr/anal/esil.c:223-226 | below 64 the carry check at k is the comparison of the k low bits the intended check uses |
| Flags.OverflowIntended | libr/anal/esil.c:242-246 | the check the comments describe, with `mask(b)` keeping b + 1 bits: 0 or 1, and 0 below width 2 or above 64 |
| Flags.OverflowIntendedOfAdd | libr/anal/esil.c:242-246 | after `cur = old + s`, the intended check at width w (2 to 64) is 1 exactly when adding `old` and s as signed w-bit numbers leaves that range |
| Flags.OverflowIsNarrower | libr/anal/esil.c:242-246 | for `lastsz` w from 3 to 64, the check as written reports what the intended check reports at width w − 1 |
| Flags.OverflowIntendedAtByteWidth | libr/anal/esil.c:242-246 | on `0x7f + 1` at width 8 the intended check reports the overflow |
| Flags.Parity | libr/anal/esil.c:228-234 | the parity check is 0 or 1 |
| Flags.ParityCheck | libr/anal/esil.c:228-234 | the loop of the parity check computes the parity of the number of set bits in the low byte of `cur` |
| Flags.ParityStep | libr/anal/esil.c:231-232 | one round of that loop extends the parity of the bits seen so far by bit i |
| Flags.SingleBit | libr/anal/esil.c:232 | `(cur & (1 << i)) >> i` is bit i of `cur` |
| Flags.Sign | libr/anal/esil.c:236-240 | the intended sign check: 0 or 1, 0 when `lastsz` is 0, else bit `lastsz` − 1 of `cur` |
| Flags.SignAsWritten | libr/anal/esil.c:236-240 | the sign check as written: defined for `lastsz` up to 32, where the `int` shift stays in range, and then 0 or 1 |
| Flags.IntShiftMask | libr/anal/esil.c:239 | the `int` `1 << k`, widened to 64 bits, is 2^k below 31 and sign-extends to `0xffffffff80000000` at 31 |
| Flags.SignAsWrittenAgrees | libr/anal/esil.c:236-240 | for `lastsz` up to 31 the check as written is the intended one |
| Flags.SignAsWrittenAt32 | libr/anal/esil.c:239 | at `lastsz` 32 the check as written reports 1 whenever any of bits 31 to 63 of `cur` is set |
| Flags.SignAsWrittenDisagrees | libr/anal/esil.c:239 | for `cur` = 2^32 at `lastsz` 32 it reports 1 while bit 31 is 0 |
| Flags.SignCheck | libr/anal/esil.c:236-240 | the sign check `%s` reads is 0 or 1: the C check wherever its `int` shift is defined (up to `lastsz` 32, where it is 1 exactly when `cur` is 2^31 or more) and bit `lastsz` − 1 above |
| Num.ToHex | libr/anal/esil.c:250 | the `%x` rendering is non-empty lowercase hex, with a leading `0` only for zero |
| Num.NumToken | libr/anal/esil.c:248-252 | the token `pushnum` writes starts with `0x` and has at least three characters |
| Num.ParseToHex | libr/anal/esil.c:250 | reading the hex digits back gives the value rendered |
| Num.NumTokenLength | libr/anal/esil.c:249-250 | a pushed number token has at most 18 characters |
| Num.NumTokenRoundTrip | libr/anal/esil.c:248-252 | `r_num_get` on a pushed number token gives back the number |
| Num.NumTokenInjective | libr/anal/esil.c:248-252 | distinct numbers are pushed as distinct tokens |
| Num.DecimalRead | libr/anal/esil.c:22 | `r_num_get` on a string of decimal digits below 2^64 gives its decimal value |
| Machine.Push | libr/anal/esil.c:254-259 | a push is refused for an empty token or when 31 entries are present; otherwise it appends the token and keeps the entries below |
| Machine.Pop | libr/anal/esil.c:261-265 | a pop fails exactly on an empty stack; otherwise it returns the top, and the rest plus the top is the stack |
| Machine.PushThenPop | libr/anal/esil.c:254-265 | pushing a non-empty token onto a stack with room and popping gives the token and the stack back |
| Machine.PopThenPush | libr/anal/esil.c:254-265 | popping a non-empty stack and pushing the top back restores it |
| Machine.PushTok | libr/anal/esil.c:254-259 | a push on the state either changes nothing or replaces only the stack by the pushed one |
| Machine.PushTokAppends | libr/anal/esil.c:254-259 | with room on the stack, a push appends the token and changes nothing else |
| Machine.PopTok | libr/anal/esil.c:261-265 | a pop on the state fails exactly on an empty stack and leaves it; otherwise it returns the top and removes only it |
| Machine.RegRead | libr/anal/esil.c:199-207 | a register read succeeds exactly for a known register and gives its value |
| Machine.RegSize | libr/anal/esil.c:139-147 | the size of a register in bits fits a `ut8` and is 0 for an unknown register |
| Machine.RegWrite | libr/anal/esil.c:209-216 | a write to a known register returns 1 and hands the value to the register file, which keeps it as `Machine.Stored` assumes; an unknown register returns 0 and nothing changes; nothing but the register file changes |
| Machine.RegWriteRead | libr/anal/esil.c:199-216 | a 64-bit register reads back what was written |
| Machine.RegWriteOthers | libr/anal/esil.c:209-216 | a write leaves every other register as it was |
| Machine.MemRead | libr/anal/esil.c:149-153 | a read of n bytes gives n bytes, byte i from address + i modulo 2^64 |
| Machine.AddressDistinct | libr/anal/esil.c:149-153 | the bytes of one access are at distinct addresses |
| Machine.MemWriteAt | libr/anal/esil.c:174-178 | after a write, byte i of the access holds byte i of the data |
| Machine.MemWriteElsewhere | libr/anal/esil.c:174-178 | a write leaves every address outside the access as it was |
| Machine.MemWriteRead | libr/anal/esil.c:149-178 | reading back what was just written gives the written bytes |
| Machine.Reverse | libr/anal/esil.c:1222 | the byte reversal of `r_mem_copyendian` keeps the length and mirrors the positions |
| Machine.LeRoundTrip | libr/anal/esil.c:1221-1229 | the little-endian bytes of a value read back as the value modulo 2^(8n) |
| Machine.LeValueBound | libr/anal/esil.c:1221-1223 | n bytes read back as a number below 2^(8n) |
| Machine.ReverseReverse | libr/anal/esil.c:1222-1228 | reversing twice restores the bytes |
| Machine.EncodeDecode | libr/anal/esil.c:1222-1229 | in either byte order, a value written as n bytes reads back as its value modulo 2^(8n) |
| Machine.DecodeBound | libr/anal/esil.c:1299 | in either byte order, n bytes read back as a number below 2^(8n) |
| Parm.TypeOf | libr/anal/esil.c:267-288 | a token is internal exactly when it is the prefix plus at least one character; a number exactly when it is not prefixed and is `0x…` or a digit or `-` followed only by digits; a register exactly when it is neither and is known; invalid otherwise |
| Parm.InternalRead | libr/anal/esil.c:290-330 | the internal read fails exactly for an unknown selector; `%%` reads the offset, `%z` 1 exactly when `cur` is 0, `%b` and `%c` the borrow and carry at the width the rest of the token gives modulo 256, `%o` the overflow, `%p` the parity, `%r` the word size in bytes, and `%s` the C sign check up to `lastsz` 32; every flag selector reads 0 or 1 |
| Parm.GetParm | libr/anal/esil.c:332-352 | resolving reads a number with `r_num_get` and a register with its value, and changes nothing; an invalid token resolves to nothing and sets `parse_stop` |
| Parm.IsNum | libr/anal/esil.c:19-28 | `isnum` succeeds exactly on a token that starts with a digit |
| Parm.IsRegOrNum | libr/anal/esil.c:30-35 | `isregornum` reads a known register's value and otherwise falls back to `isnum` |
| Parm.PopRN | libr/anal/esil.c:38-46 | `popRN` fails on an empty stack; otherwise it removes the top and reads it as a register or a number |
| Parm.PushNumResolves | libr/anal/esil.c:248-252 | every pushed number token classifies as a number and resolves to the value it was made from |
| Parm.RegisterReadsAgree | libr/anal/esil.c:30-35 | on a register token, resolution and `isregornum` agree |
| Parm.InvalidStops | libr/anal/esil.c:269-274 | the empty token and the lone prefix are invalid, and resolving them sets `parse_stop` |
| Parm.DecimalResolves | libr/anal/esil.c:278-283 | a decimal token below 2^64 classifies as a number and resolves to its decimal value |
| Parm.SignRead | libr/anal/esil.c:236-240 | `%s` reads bit `lastsz` − 1 of `cur` up to width 31, and at width 32 reads 1 exactly when `cur` is 2^31 or more |
| MemOps.Bytes | libr/anal/esil.c:1235-1238 | the access widths are 1 to 8 bytes |
| MemOps.NativeWidth | libr/anal/esil.c:1239-1247 | the bare `[]` forms have a width exactly for an analysis word size of 8, 16, 32 or 64, and then that width |
| MemOps.WidthMask | libr/anal/esil.c:1297 | the 64-bit mask of a width is 2^bits − 1 |
| MemOps.IntMask | libr/anal/esil.c:1199 | the mask `poke_n` keeps in an `int` is the width mask, except at 32 bits where the `int` −1 widens to all 64 bits |
| MemOps.Truncate | libr/anal/esil.c:1226 | truncation keeps the value modulo 2^bits |
| MemOps.Loaded | libr/anal/esil.c:1298-1299 | a load is the decoding, in the target's byte order, of the bytes read |
| MemOps.PeekN | libr/anal/esil.c:1287-1306 | a peek with nothing to pop returns 0 and changes nothing; no peek touches a register or memory or leaves the stack deeper |
| MemOps.PeekPushes | libr/anal/esil.c:1287-1306 | a peek at a number address returns the reader's byte count and replaces the address by the loaded value; it sets `lastsz` to the width and changes nothing else |
| MemOps.PokeWith | libr/anal/esil.c:1198-1233 | a poke with fewer than two stack entries returns 0; every poke consumes its two operands and never touches a register |
| MemOps.PokeNAsWritten | libr/anal/esil.c:1198-1233 | the poke the evaluator runs, with the mask in an `int`: it consumes its two operands, never touches a register, and at 1, 2 and 8 bytes is the poke with the mask kept at 64 bits |
| MemOps.PokeN | libr/anal/esil.c:1198-1233 | the poke with the mask kept at 64 bits consumes its two operands and never touches a register |
| MemOps.PokeResolves | libr/anal/esil.c:1207-1217 | a poke pops the address, then the value, and both number tokens resolve |
| MemOps.PokeAsWrittenWrites | libr/anal/esil.c:1198-1233 | on number operands the poke as written stores the low bytes of the value and records in `cur` the value under the `int` mask: all of it at 4 bytes, its low bits at the other widths |
| MemOps.PokeNumbers | libr/anal/esil.c:1198-1233 | a poke of a number stores the value masked by the width mask at the address, and stamps the flag inputs |
| MemOps.PokeWrites | libr/anal/esil.c:1198-1233 | the corrected poke stores the value truncated to the width |
| MemOps.PokedLoads | libr/anal/esil.c:1228-1229 | what a poke writes loads back as the value modulo 2^bits |
| MemOps.PokedAsWrittenLoads | libr/anal/esil.c:1224-1229 | after a poke as written, memory loads back the value modulo 2^bits, and `cur` is that too except at 4 bytes, where it is the whole value |
| MemOps.PokeThenLoad | libr/anal/esil.c:1198-1233 | after the corrected poke, the loaded value and `cur` both equal the value modulo 2^bits |
| MemOps.PokeAsWrittenAgrees | libr/anal/esil.c:1199 | at 8, 16 and 64 bits the poke as written is the corrected one |
| MemOps.PokeAsWrittenAt4 | libr/anal/esil.c:1199-1226 | at 32 bits the poke as written leaves `cur` unmasked while memory holds the low 32 bits |
| MemOps.PokeAsWrittenZeroFlag | libr/anal/esil.c:1224 | poking 2^32 at 32 bits stores 0; as written `%z` then reads 0, corrected it reads 1 |
| MemOps.ZeroFlagAsWritten | libr/anal/esil.c:1199-1226 | poking 2^32 with `=[4]` as written stores 0 and leaves `cur` at 2^32 |
| MemOps.ZeroFlagCorrected | libr/anal/esil.c:1198-1233 | the corrected poke of 2^32 at 4 bytes stores 0 and sets `cur` to 0 |
| MemOps.AndRet | libr/anal/esil.c:1371-1379 | `ret = 1; ret &= …` is 1 exactly when every step's result is odd, and always 0 or 1 |
| MemOps.Finish | libr/anal/esil.c:1374-1380 | the shared second half returns 0 or 1, returns 1 only when the peek returned an odd count, never touches a register and leaves the stack no deeper than the peek left it |
| MemOps.MemBinary | libr/anal/esil.c:1364-1388 | a binary compound memory operator with fewer than two entries returns 0 with the stack emptied; each returns 0 or 1, never touches a register and leaves the stack no deeper |
| MemOps.MemUnary | libr/anal/esil.c:1720-1743 | `++=[n]` and `--=[n]` with nothing to pop return 0 and change nothing; each returns 0 or 1, never touches a register and leaves the stack no deeper |
| MemOps.MemUpdate | libr/anal/esil.c:1364-1798 | every compound memory operator returns 0 or 1, never touches a register and leaves the stack no deeper than it found it |
| MemOps.MemDivideByZero | libr/anal/esil.c:1579-1673 | `%=[n]` and `/=[n]` with a zero operand raise the divide-by-zero trap with code 0, drop both operands and return 0 |
| MemOps.MemBinaryPeeks | libr/anal/esil.c:1364-1381 | a compound memory operator pushes the address back and peeks before computing |
| MemOps.FinishPokes | libr/anal/esil.c:1374-1380 | after the peek it pushes the combined value and the address and pokes as written, and-ing the return codes; at 4 bytes `cur` is the unmasked combination |
| MemOps.MemBinaryStores | libr/anal/esil.c:1364-1388 | with number operands it is the peek, the combination of the old memory value with the operand, and the poke as written, in sequence (at 4 bytes `cur` keeps the whole combination); the result is the conjunction of the low bits of the two collaborator results |
| MemOps.MemBinaryLoads | libr/anal/esil.c:1364-1388 | afterwards the operands are gone, `old` is the previous memory value, memory holds the combined value modulo 2^bits, and `cur` holds it too except at 4 bytes, where it is the whole 64-bit combination |
| MemOps.PeekThenFinish | libr/anal/esil.c:1372-1380 | on a number address on top, the peek and the second half together store the combination of the loaded value with the operand |
| MemOps.MemUnaryPeeks | libr/anal/esil.c:1720-1728 | `++=[n]` and `--=[n]` pop the address, push it back and peek |
| MemOps.MemUnaryStores | libr/anal/esil.c:1720-1743 | on a number address they are the peek, the step by one and the poke as written, in sequence |
| MemOps.MemUnaryLoads | libr/anal/esil.c:1720-1784 | afterwards the address is gone, `old` is the old memory value, memory holds it plus one (minus one for `--=`) modulo 2^bits, and `cur` holds that too except at 4 bytes, where it is the 64-bit step |
| MemOps.UnaryCombines | libr/anal/esil.c:1731-1732 | the unary kinds step the old value up or down by one, wrapping at 2^64 |
| Ops.KindOf | libr/anal/esil.c:2112-2219 | reading a memory operator's base back gives the base |
| Ops.WidthOf | libr/anal/esil.c:2112-2219 | reading a width suffix back gives `[1]`, `[2]`, `[4]` or `[8]` |
| Ops.LookupSound | libr/anal/esil.c:1890-1899 | a word that finds an operator is that operator's registered word |
| Ops.LookupToken | libr/anal/esil.c:2112-2219 | every operator's registered word finds that operator, so no two operators share a word |
| Ops.TokenShort | libr/anal/esil.c:2112-2219 | every registered word has 1 to 6 characters |
| Ops.LongIsNoOp | libr/anal/esil.c:1890-1899 | a word longer than 6 characters is never an operator |
| Ops.DigitIsNoOp | libr/anal/esil.c:1890-1899 | a word that starts with a digit and does not end in `]` is never an operator |
| Ops.Exec | libr/anal/esil.c:2112-2219 | registers change only under the operators that write them and memory only under the pokes and compound memory operators; no operator but the callbacks adds or removes a register or leaves the stack deeper; a memory operator whose `[]` has no width returns 0 and changes nothing |
| Ops.WidthFor | libr/anal/esil.c:1235-1247 | a sized suffix has its own width, and `[]` the width of the analysis word size, if it has one |
| Ops.ExecBinary | libr/anal/esil.c:785-840 | a binary operator returns 0 or 1, and 0 with fewer than two entries; a 0 leaves the stack with both operands popped; it always shrinks a non-empty stack and never touches registers or memory |
| Ops.ExecUpdate | libr/anal/esil.c:462-529 | `op=` returns 1 only with at least two entries and a known register on top; it pops both operands, never touches memory and never adds or removes a register |
| Ops.ExecAssign | libr/anal/esil.c:395-417 | `=` returns 1 only with at least two entries and a known register on top; it pops both operands, never touches memory and never adds or removes a register |
| Ops.ExecCmp | libr/anal/esil.c:606-628 | `==` returns 0 or 1, and 0 with fewer than two entries; it pops both operands, pushes nothing and touches neither registers nor memory |
| Ops.ExecSmaller | libr/anal/esil.c:1813-1829 | `<` returns 0 or 1, and 0 with fewer than two entries; it shrinks a non-empty stack and changes nothing but the stack |
| Ops.ExecCompare | libr/anal/esil.c:1830-1888 | `>`, `<=` and `>=` return 0 or 1, and 0 with fewer than two entries; they shrink a non-empty stack and change nothing but the stack |
| Ops.ExecNeg | libr/anal/esil.c:419-440 | `!` on an empty stack returns 0 and changes nothing; it returns 0 or 1, a 1 keeps the depth, and registers and memory stay |
| Ops.ExecNegEq | libr/anal/esil.c:442-456 | `!=` returns 1 exactly when a known register is on top; it pops one entry, changes nothing but the stack and the registers, and never adds or removes a register |
| Ops.ExecStep | libr/anal/esil.c:1088-1101 | `++` and `--` on an empty stack return 0 and change nothing; a 1 keeps the depth; nothing but the stack and `parse_stop` changes |
| Ops.ExecStepEq | libr/anal/esil.c:1103-1119 | `++=` and `--=` return 1 exactly when the top classifies as a register; they pop one entry, never touch memory and never add or remove a register |
| Ops.ExecTrap | libr/anal/esil.c:587-596 | `$$` returns 0 or 1, and a 0 leaves the trap and its code; a 1 leaves an `int` trap; it shrinks a non-empty stack and changes nothing but the stack and the trap fields |
| Ops.ExecInterrupt | libr/anal/esil.c:598-604 | `$` on an empty stack returns 0 and changes nothing; a top that reads as neither register nor number is popped, 0 is returned and no handler runs |
| Ops.ExecIf | libr/anal/esil.c:689-701 | `?{` returns 1 exactly when there is an operand; it pops it, never turns skipping off, and changes nothing but the stack, the skip flag and `parse_stop` |
| Ops.ExecGoto | libr/anal/esil.c:876-884 | `GOTO` always returns 1, pops one entry and changes nothing but the stack, `parse_goto` and `parse_stop` |
| Ops.ExecDup | libr/anal/esil.c:1800-1810 | `DUP` returns 0 or 1, and 1 only on a non-empty stack whose depth it keeps; it changes nothing but the stack and `parse_stop` |
| Ops.ExecFlow | libr/anal/esil.c:859-874 | every flow word but `$` leaves registers and memory and does not deepen the stack; `BREAK` and `TODO` return 1 and change nothing but a non-zero `parse_stop` |
| Ops.ExecTest | libr/anal/esil.c:606-628 | the comparisons return 0 or 1, and 0 with fewer than two entries, and leave registers and memory |
| Ops.ExecUnary | libr/anal/esil.c:419-456 | the unary words return 0 or 1; `!`, `++` and `--` leave the registers; none touches memory, adds or removes a register, or deepens the stack |
| Ops.ExecStack | libr/anal/esil.c:842-890 | `STACK`, `POP` and `CLEAR` change nothing but the stack; none of the stack words touches registers or memory or deepens the stack |
| Ops.PopTwo | libr/anal/esil.c:398-399 | the two pops take the top as `dst` and the entry below it as `src`; with fewer than two entries the stack ends up empty and the source is missing |
| Ops.UpdateOperands | libr/anal/esil.c:462-529 | a compound register operator proceeds only with a known register `dst` and a resolved source, and then uses `dst`'s value |
| Ops.PopNumbers | libr/anal/esil.c:785-840 | two pushed numbers pop as `dst` = top and `src` = below, and each resolves to its number |
| Ops.BinaryOnNumbers | libr/anal/esil.c:703-1160 | a binary operator on two numbers pushes its result with top as `dst` (so `a,b,-` pushes b − a); `/` and `%` by zero push nothing, raise the trap and return 1 |
| Ops.SmallerIsMirroredGreater | libr/anal/esil.c:1813-1848 | `<` and `>` compute the same predicate and push the same result |
| Ops.SmallerPops | libr/anal/esil.c:1813-1825 | `<` on two resolving entries pops both and pushes whether the top is below the entry under it |
| Ops.GreaterPops | libr/anal/esil.c:1830-1848 | `>` on two resolving entries pops both and pushes whether the entry under the top is above the top |
| Ops.CmpSetsZero | libr/anal/esil.c:606-628 | `==` on numbers pushes nothing, records `old` = top and `cur` = top − second, so `%z` is 1 exactly when they are equal |
| Ops.PopSource | libr/anal/esil.c:462-529 | a number or register source under a register pops as source and destination, and resolves to its value without changing the state |
| Ops.UpdateStampsFlags | libr/anal/esil.c:462-529 | `src,reg,op=` with `src` a number or a register reading x writes `reg op x`; `old` becomes the register's prior value, `cur` the unmasked result and `lastsz` its size; nothing else changes |
| Ops.UpdateDivideByZero | libr/anal/esil.c:916-1000 | `/=` and `%=` with a number or register source reading 0 leave the register, raise the trap with code 0 and return 1 |
| Ops.UpdateFromFlag | libr/anal/esil.c:462-529 | with an internal source the register is written but `old`, `cur` and `lastsz` stay; the shift forms stamp them anyway |
| Ops.AssignStores | libr/anal/esil.c:395-417 | `=` with a number or register source reading x stores x at the register's size and stamps `old`, `cur` and `lastsz` |
| Ops.StepEqSteps | libr/anal/esil.c:1103-1195 | `++=` and `--=` step a register by one, wrapping, and stamp the flag inputs |
| Ops.DupResolvesTop | libr/anal/esil.c:1800-1810 | `DUP` replaces the top with its value as a number token instead of duplicating it, and leaves a pushed number token in place |
| Ops.IfSkipsOnZero | libr/anal/esil.c:689-701 | `?{` pops its operand, returns 1 and turns skipping on exactly when the operand is 0 |
| Ops.TrapRaises | libr/anal/esil.c:587-596 | `$$` sets the `int` trap to the top and the `ut32` trap code to the entry below, both taken modulo 2^32, so the trap is 0 exactly when the top is a multiple of 2^32 |
| Ops.TrapTruncates | libr/anal/esil.c:587-596 | `0,0x100000000,$$` leaves the trap at 0, so no trap is raised |
| Ops.GotoTargets | libr/anal/esil.c:876-884 | `GOTO` pops a number and records it, as a C `int`, as the word to continue at |
| Ops.NegPushesNot | libr/anal/esil.c:419-440 | `!` pushes 1 for zero and 0 otherwise |
| Ops.NegEqNegates | libr/anal/esil.c:442-456 | `reg,!=` replaces the register by 1 if it was 0 and by 0 otherwise, without recording flag inputs; a token that names no register is popped and 0 returned |
| Ops.StepPushes | libr/anal/esil.c:1088-1101 | `x,++` pushes x + 1 and `x,--` pushes x − 1, wrapping at 2^64 |
| Ops.SmallerOnNumbers | libr/anal/esil.c:1813-1829 | on two numbers `x,y`, `<` pushes 1 exactly when y < x |
| Ops.CompareOnNumbers | libr/anal/esil.c:1830-1888 | on two numbers `x,y`, `>` pushes 1 exactly when x > y, `<=` when x ≤ y and `>=` when x ≥ y |
| Ops.StackWordsDrop | libr/anal/esil.c:864-890 | `POP` undoes a push; `CLEAR` empties the stack, after which a binary operator finds no operands and `STACK` returns 0; both return 1 |
| Ops.NativeSize | libr/anal/esil.c:1239-1247 | the bare `[]` forms behave exactly as the sized form of the analysis word size, so `=[]` at 32 bits is the `=[4]` as written; for any other size they return 0 and change nothing |
| Ops.PokeRunsAsWritten | libr/anal/esil.c:1235-1247 | the evaluator's `=[n]` and `=[]` are the poke as written |
| Scan.RunWord | libr/anal/esil.c:1901-1909 | every word costs one unit of the budget; with none left it returns 0 with the trap and `parse_stop` set, and a non-zero result has paid exactly one unit |
| Scan.GotoWord | libr/anal/esil.c:1969-1982 | the start of word n: none for a negative n or an empty string; position 0 for n = 0; for n > 0, found exactly when at least n commas follow position 0, and then just after the n-th |
| Scan.EvalWord | libr/anal/esil.c:1991-2013 | after a word, a second `,` repeats the separator; a pending goto jumps and clears it; `parse_stop` stops; otherwise the scan goes on |
| Scan.StopsAfter | libr/anal/esil.c:2006-2011 | a first word that sets `parse_stop` ends the parse with 0 right after it; the rest is never read |
| Scan.ScanWith | libr/anal/esil.c:2034-2079 | the parse loop always ends, with −1, 0 or 1, unless it reads past the end of the string |
| Scan.LongWordRejected | libr/anal/esil.c:2037-2040 | a string whose first 63 characters hold no separator, with more to come, fails with −1 before any word runs |
| Scan.StraightLine | libr/anal/esil.c:2036-2079 | words that each succeed without a jump or a stop run in turn, and the parse returns 1 |
| Scan.StraightParse | libr/anal/esil.c:2015-2079 | the same for a whole string of such words |
| Scan.SemicolonStops | libr/anal/esil.c:2042-2045 | `;` runs the word before it and ends the parse with 0; the rest is never read |
| Scan.SeparatorsDrain | libr/anal/esil.c:1992-1993 | at `,,` the scan hands empty words to `runword` until the budget traps |
| Scan.DoubleComma | libr/anal/esil.c:1992-1993 | any string `w,,rest` ends with 0, by trap or by the word's failure |
| Scan.TrailingSeparator | libr/anal/esil.c:2064-2067 | as written, `w,` reads past the end of the string; corrected, it ends with 1 |
| Scan.AsWrittenAgrees | libr/anal/esil.c:2064-2067 | whenever the loop as written ends, the corrected loop ends the same way; it reads past the end only on a string ending in `,` |
| Scan.LoopRound | libr/anal/esil.c:1996-2002 | a jump back to word 0 returns to the same state at two fewer budget units |
| Scan.LoopExhausts | libr/anal/esil.c:1903-1909 | with fewer than three units left such a loop traps and ends with 0 |
| Scan.LoopTraps | libr/anal/esil.c:2023-2033 | a loop back to word 0 ends with a trap, because the budget is reset only at the start |
| Eval.Dispatch | libr/anal/esil.c:1934-1943 | `}{` toggles skipping, `}` ends it, and while skipping every other word returns 1 and changes nothing |
| Eval.Parse | libr/anal/esil.c:2015-2080 | the corrected parse always ends, with −1, 0 or 1 |
| Eval.ParseAsWritten | libr/anal/esil.c:2015-2080 | the parse as written, whenever it ends, ends with −1, 0 or 1 |
| Eval.Unblank | libr/anal/esil.c:2096 | skipping blanks leaves a suffix of the string that does not start with a blank, and cuts only blanks |
| Eval.ReadTop | libr/anal/esil.c:2098-2108 | reading the top gives −1 exactly on an empty stack and 1 exactly when the top reads as a register or number other than 0, and pops it |
| Eval.Condition | libr/anal/esil.c:2091-2110 | the condition is the reading of the stack top that the parse of the string, without its leading blanks, leaves |
| Eval.DispatchPushes | libr/anal/esil.c:1955-1966 | an unregistered non-empty word is appended to the stack; on a full stack it sets the trap and the trap code to 1 and still returns 1 |
| Eval.DispatchRunsOperator | libr/anal/esil.c:1945-1954 | a registered word runs its operator |
| Eval.EmptyWordIsDropped | libr/anal/esil.c:1955-1958 | the empty word changes nothing and returns 1 |
| Eval.PushPop | libr/anal/esil.c:254-265 | pushing and popping one token restores the state |
| Eval.GotoRuns | libr/anal/esil.c:876-884 | a number followed by `GOTO` records the number as the word to continue at |
| Eval.IfRuns | libr/anal/esil.c:689-701 | a number followed by `?{` sets skipping exactly when the number is 0 |
| Eval.NumTokenPushable | libr/anal/esil.c:248-252 | a pushed number token is no operator, holds no separator and is read whole |
| Eval.PushesStraight | libr/anal/esil.c:1901-1966 | a value word with budget left is pushed and asks for no jump or stop |
| Eval.LongWordRejected | libr/anal/esil.c:2037-2040 | a 63-character word with more of the string to come fails the parse with −1, as written and corrected |
| Eval.LongWordAtEnd | libr/anal/esil.c:2036-2072 | the limit is checked only before a character, so a 63-character string is pushed whole |
| Eval.SemicolonStops | libr/anal/esil.c:2042-2063 | `w;rest` pushes w and returns 0 without reading the rest |
| Eval.StopWordStops | libr/anal/esil.c:859-874 | `BREAK,rest` and `TODO,rest` end both parses with 0, `parse_stop` set to 1 or 2 and the rest unread |
| Eval.DoubleComma | libr/anal/esil.c:1992-1993 | `w,,rest` returns 0 with the trap and `parse_stop` set, whatever follows |
| Eval.GotoZeroSpins | libr/anal/esil.c:1996-2002 | `w,GOTO` with w reading 0 loops until the budget traps, and returns 0 |
| Eval.GotoZeroTraps | libr/anal/esil.c:2023-2033 | `0,GOTO` terminates, with the trap set and 0 returned |
| Eval.ConditionalBranch | libr/anal/esil.c:689-701 | `c,?{,v,}` pushes v exactly when c is not 0, and returns 1 |
| Eval.BranchWords | libr/anal/esil.c:1934-1966 | the four words of a branch, one at a time |
| Eval.BranchStraight | libr/anal/esil.c:1934-1966 | a branch runs straight through and ends with skipping off |
| Eval.TrailingSeparator | libr/anal/esil.c:2064-2067 | as written, `w,` reads past the end; corrected, it pushes w and returns 1 |
| Eval.ParseAgrees | libr/anal/esil.c:2064-2067 | wherever the parse as written ends, the corrected parse ends the same way |
| Eval.ConditionSkipsBlanks | libr/anal/esil.c:2096 | leading blanks do not change the condition |
| Eval.ConditionOnEmpty | libr/anal/esil.c:2105-2108 | for any string not starting with a blank whose parse leaves the stack empty, the condition is −1 and the state is the parse's |
| Eval.ConditionReadsTop | libr/anal/esil.c:2098-2103 | a number left on top is true exactly when it is not 0 |
| Eval.ConditionReadsRegister | libr/anal/esil.c:2098-2103 | a known register left on top is true exactly when its value is not 0 |
| Eval.ConditionOnName | libr/anal/esil.c:2098-2103 | a name left on top that is no register and does not start with a digit reads as 0 |
| Eval.ConditionOfBranch | libr/anal/esil.c:2091-2110 | `c,?{,v,}` as a condition is −1 when c is 0, and otherwise the truth of v |

## Left out

- The Reil mode of `runword` (lines 1911-1931) is left out: it is an auxiliary translator with fixed-size buffers and a recursive re-parse.
- The `hook_command`, `hook_flag_read`, register and memory hooks are left out. They are callbacks of plugins; the model uses the defaults those hooks fall back to.
- The sdb tables of operators and interrupts (lines 59-85 and 2112-2219) are replaced by the `Op` datatype and `Ops.Lookup`. Hash collisions are not modelled.
- Setup, freeing, and the ownership of the strings popped and pushed are left out (lines 50-57, 124-137, 2082-2089, 2222-2244).
- Printing is left out: `eprintf`, `IFDBG`, and the listing `r_anal_esil_dumpstack` prints (lines 842-857). The `STACK` word is modelled by its result alone: 0 on an empty stack, otherwise 1, with nothing changed.
- The `#if 0` blocks (lines 374-380, 531-585, 630-649, 665-687) are dead code.
- `[*]` and `=[*]` (lines 1249-1350) are left out: they are `Config.peekSome` and `Config.pokeSome`. `poke_some` writes an uninitialised value.
- The byte counts `r_anal_esil_mem_read` and `mem_write` return come from the I/O layer. They are `Config.readCount` and `Config.writeCount`, so the return codes of `peek`, `poke` and the compound memory operators are stated in those terms only.
- Memory is read and written in full whatever those counts report: a short read or write of the I/O layer is not modelled.
- `r_mem_copyendian` is modelled for a little-endian host: a copy for a little-endian target and a reversal for a big-endian one (`Machine.CopyEndian`).
- `Config.unspecified` is the value of `<<` and `>>` by 64 or more and of the unset `num` of `?{` on an operand that does not resolve.
- Other undefined C behaviour gets a fixed choice. `mask(64)` of the 8-byte forms keeps all 64 bits (`MemOps.WidthMask`). The `int` shift of the sign check above `lastsz` 32 reads bit `lastsz` − 1 (`Flags.SignCheck`). `1 << 31` is the `int` minimum, as two's-complement compilers produce it (`Flags.IntShiftMask`).
- `r_num_get` is modelled only on `0x` hex and decimal tokens below 2^64; every other form is `Config.numOther`.
- `R_ANAL_TRAP_DIVBYZERO` is defined in a header that is not part of this model; the value 3 is used for it.
- The header that declares `RAnalEsil` is not part of this model; `trap` is taken to be an `int` and `trap_code` a `ut32`, as the `%d` and `0x%x` of `r_anal_esil_dumpstack` (lines 846-848) print them, so `$$` truncates the popped words.
- Machine.Stored: how a register keeps a written value is decided by r_reg's `r_reg_set_value`, which is not part of this model. The rule is an assumption: a 1-bit register keeps whether the value is non-zero, other registers below 64 bits keep its low `size` bits, and wider ones the whole word. r_reg refuses sizes it does not support, leaving the register as it was while `internal_esil_reg_write` still returns 1, and it stores 80- and 96-bit registers through a `long double`; the model does neither.
- The prefix `ESIL_INTERNAL_PREFIX` is defined in a header that is not part of this model; `%` is used for it, following the selector `%%`.
- `repeat` is never set in this file, so `evalWord`'s restart (line 1994) and the `loop` label are reached only at the start of a parse.
- A parse is assumed to have `esil->anal` set, so the budget is `esil_goto_limit`; a limit of 0 or less is modelled as a budget of 0, which traps on the first word as the C count does.
- Interrupts (`$`) call `Config.interrupt`; the handlers and `r_anal_esil_fire_interrupt` (lines 87-114) are not part of this model.
- Flags.Sign: it states the intended sign check; the C code agrees with it only up to `lastsz` 31, as the Finding below shows. The `%s` of the evaluator reads the C check, `Flags.SignCheck`.
- The evaluator runs the code as written: `Ops.Exec` and `MemOps.Finish` use the poke as written, `Parm.InternalRead` the C sign check and `Flags.Overflow` the C overflow check. The one exception is the end of the string: `Eval.Parse` and `Eval.Condition` stop after a trailing separator instead of reading past the end, and `Eval.ParseAgrees` shows that they agree with `Eval.ParseAsWritten` wherever it ends. The corrected members of the Findings are proved on their own and are not wired into the evaluator.

## Findings

| source | as written | input that shows it | evidently intended | confidence | as-written member | corrected member |
|---|---|---|---|---|---|---|
| libr/anal/esil.c:242-246 | the overflow check xors the carry checks at `lastsz` − 1 and `lastsz` − 2; as `mask(b)` has b low bits set, not the b + 1 its comment announces, that is signed overflow one bit narrower than the result | `0x7f,al,=,1,al,+=` on an 8-bit `al`: `old` = 0x7f, `cur` = 0x80, `lastsz` = 8, and `%o` reads 0 | signed overflow at width `lastsz`, here 1 | not executed | Flags.OverflowAtByteWidth | Flags.OverflowIntendedOfAdd |
| libr/anal/esil.c:239 | `0x1 << (lastsz - 1)` is an `int`; at `lastsz` 32 it becomes `0xffffffff80000000` when widened, so the sign check reads bits 31 to 63 | `cur` = `0x100000000`, `lastsz` = 32: `%s` reads 1 | bit `lastsz` − 1 of `cur`, here 0 | not executed | Flags.SignAsWrittenDisagrees | Flags.Sign |
| libr/anal/esil.c:1199 | the mask is held in an `int`; `mask(32)` becomes −1, so `=[4]` records the unmasked value in `cur` | `0x100000000,addr,=[4]`: memory gets 0, `cur` = 2^32, `%z` reads 0 | `cur` is the value written, so `%z` reads 1 | not executed | MemOps.PokeAsWrittenZeroFlag | MemOps.PokeThenLoad |
| libr/anal/esil.c:2064-2067 | after a word ended by `,`, the next character is appended and the pointer advanced without checking for the end | `1,` : the terminating NUL is copied and the loop reads past it | the parse ends after the last word and returns 1 | not executed | Eval.TrailingSeparator | Eval.Parse |

# Verification of the emulated ND-100 CPU

This project models the hard parts of the CPU core of an ND-100/ND-110 emulator in Dafny and
proves what they promise. The code it models updates buffers, registers and tables in place,
so the model does too: classes with `modifies` clauses and loops with invariants, each proved
against a specification function, and lemmas about those functions.

- **Packed decimal arithmetic** (`Words`, `Decimal`, `DigitBuffers`, `DecimalField`,
  `DecimalArith`, `DecimalCompare`, `DecimalShift`, `DecimalConvert`, `DecimalInstructions`,
  `ConvertInstructions`, `DecimalLayout`). Digit loops over nibbles in a word buffer are exact integer
  arithmetic; ADDD, SUBD, COMD, SHDE, PACK and UPACK are followed from memory to memory, and undo or
  confirm each other: SUBD after ADDD, COMD after SHDE, PACK and UPACK either way round.
- **Segment instructions** (`PhysicalMemory`, `PageLists`, `SegmentTables`, `NodeWords`, `CoreMap`,
  `WorkingSet`, `ReentrantPages`, `EntryViews`, `PageUse`). INSPL and REMPL refine prepending and
  deleting on a map from segments to page sequences; SETPT, CLEPT, CLEPU, ENPT, REPT, CLPT and CHREENT
  walk chains through physical memory and the page-table store. `CoreMap` has the lists of the first
  as the chains of the others, and `PageUse` follows pages from their entering through translations to
  the table of CLEPU and the test of CHREENT.
- **Memory management** (`MemoryBanks`, `PageTables`, `Translation`, `TestAndSet`). The registry
  of physical banks, the page-table store as an index, translation with permissions, rings and
  marks, and the test-and-set protocol shared with a second CPU, over every interleaving.
- **Arithmetic and moves** (`Divide`, `MoveBytes`). RDIV and MOVB.
- **Interrupts and watchpoints** (`Interrupts`, `Watchpoints`). The level machine over every run,
  and fast gates that agree with the exact scan.

## Reading the model

Words are integers from 0 to 65535 with wrap-around written out; bit fields are divisions and
remainders by powers of two. In `Interrupts` a register is the set of the numbers of its one
bits. A field's content is a sequence of nibbles or bytes (`Words.Nibbles`, `Words.Bytes`), and a
decimal number is the Horner value of its digits.

The formats themselves are stated by plain numbers, addresses, characters and bits, apart from the
functions that compute with them: `DecimalLayout` for descriptors, fields, strings and reports,
`NodeWords` and `CoreMap` for the words of memory, and the lemmas on entries, control registers and
status words in `Translation` and `Interrupts`.

`PhysicalMemory.Store` keeps installed memory and the page-table store as two maps; a bank 0
offset behind the window reads and writes the second. An instruction that walks a chain receives
the chain as a ghost sequence: it demands that the nodes are linked in that order, are plain
memory, and share no word. That is the acyclicity the instructions themselves rely on to stop.

In `TestAndSet` one state holds both CPUs. An action whose time has not come changes nothing, so
a run is any sequence of actions. The history (`log`, `calls`, `results`) records what the shared
memory and the lock functions saw; `mine` and `theirs` are the cells each CPU believes it owns
from the words its own instructions returned.

Where two copies of the code differ only in a constant they are one model: the virtual and the
physical watchpoint tables are one class with a granule and a number of bits, and ADDD and SUBD
one method with a sign.

Precise facts found on the way:

- MOVB's direction rule compares byte positions that do not wrap while its addresses do. The move
  is overlap-safe on every memory exactly when the distance of the two fields plus the length is at
  most 2^17 bytes (`MoveBytes.OverlapSafeIff`); a memory where it fails is given otherwise.
- MOVB leaves A and X at the word after the field only after a downward move, an
  upward one within the first word, or an empty one at word 0 (`MoveBytes.AddressAtEndIff`).
- UPACK then PACK is refused exactly for an unsigned number written in a separate-sign format, whose
  sign byte UPACK writes as the digit zero (`DecimalConvert.DecodeOfEncode`). Otherwise digits and
  plus or minus class survive, but for a target that asks for the unsigned code: it loses the minus
  class (`DecimalConvert.PackAfterUnpack`).
- UPACK with an empty destination does not skip and yet reports nothing, and PACK with an illegal
  descriptor neither; UPACK with one reports an illegal code (`ConvertInstructions.UnpackDecimal`,
  `ConvertInstructions.PackDecimal`).
- A nonempty string that starts in a right byte and has an even length is loaded and stored without its last
  byte, which reads as zero: PACK refuses every such string (`ConvertInstructions.UncoveredRefused`).
- A bank laid over local RAM and taken off again restores every word's type exactly when it was cut
  from local RAM and ends inside installed RAM, or was laid where no bank was and begins beyond it
  (`MemoryBanks.LayingOverRestoresIff`). Elsewhere words become local that were not, as in
  `MemoryBanks.TakingOffMakesLocal`, or words beyond installed RAM lose their type.
- A bank laid over local RAM is stored without its exchange accessor, so it has the one its table
  slot holds; that the slot is zeroed makes it none (`MemoryBanks.Registry.FillSlot`).
- `cpu_interrupt` asks for no level check of its own on levels other than 14; nothing calls it
  with such a level, and `Interrupts.OtherLevelSettledIff` says exactly when that would matter.
- The words loaded for a decimal field leave out its last byte exactly when the field starts in a
  right byte and fills whole words (`DecimalInstructions.CoveredIff`); the code does so on purpose.
  Such a field keeps the byte that sticks out. Memory holds the result of ADDD, SUBD or SHDE exactly
  when the field is not of that kind or that byte happens to be its units digit and sign code
  already; loaded again, the field always has the result without them
  (`DecimalInstructions.UncoveredResult`, `DecimalInstructions.UncoveredMayHold`).
- The manual calls A and D unchanged on a division by zero. That holds exactly for a dividend that
  is not negative or is -2^31; for -1 the code leaves 0 and 1 (`Divide.MagnitudeWordsSameIff`,
  `Divide.DivisionByZeroChanges`, `Divide.Cpu.Rdiv`).
- MCL, MST and TRR of STS, IRW of STS and LRB write the error indicator without asking for a level
  check, which an arithmetic error does ask for. Set that way it waits for a check that something
  else asks for (`Interrupts.StatusErrorWaits`, `Interrupts.StatusErrorReachesIff`).
- TRR PID stores all of A, though a note beside it says the manual allows only device bits; the
  invariants hold either way (`Interrupts.Cpu.TransferToRegister` follows the code).

## Model

| member | source | states |
|---|---|---|
| `Words.NibbleStore` | src/cpu/bcd.c:203-210 | Replacing a nibble of one word replaces one nibble of the field string and no other. |
| `Words.ByteStore` | src/cpu/bcd.c:224-240 | Replacing a byte of one word replaces one byte of the field string and no other. |
| `Words.NibbleWeights` | src/cpu/bcd.c:197-222 | The nibbles of a word have the weights of their places, the leftmost the highest, and so have its bytes. |
| `Words.BitIsWeight` | src/cpu/cpu_instr.c:929-945 | Bit k of a word has the weight 2^k. |
| `DigitBuffers.AddMagnitude` | src/cpu/bcd.c:401-422 | The schoolbook loop leaves digits which, under the returned carry, denote exactly the sum of the two values. |
| `DigitBuffers.SubMagnitude` | src/cpu/bcd.c:429-449 | For a at least b the borrow loop leaves digits denoting exactly a - b; no borrow is left over. |
| `DigitBuffers.CmpMagnitude` | src/cpu/bcd.c:452-464 | The digit-by-digit search returns the sign of the difference of the two values. |
| `DigitBuffers.AnyNonZero` | src/cpu/bcd.c:497-507 | The scan reports a nonzero digit exactly when there is one. |
| `DecimalField.FitValue` | src/cpu/bcd.c:510-540 | Keeping the low L-1 digits is taking the value modulo 10^(L-1), and the digits left over are all zero exactly when the value is below 10^(L-1). |
| `DecimalField.Operand.constructor` | src/cpu/bcd.c:254-276 | The descriptor fields are bit 15, bits 13-11, bit 10, bits 9-5 and bits 4-0 of D2. |
| `DecimalField.Operand.GetNibble` | src/cpu/bcd.c:197-201 | Nibble i of the field, counted from the start byte the descriptor selects. |
| `DecimalField.Operand.SetNibble` | src/cpu/bcd.c:203-210 | Exactly nibble i of the field changes in the whole buffer. |
| `DecimalField.Operand.GetByte` | src/cpu/bcd.c:216-222 | Byte i of an ASCII field. |
| `DecimalField.Operand.SetByte` | src/cpu/bcd.c:224-240 | Exactly byte i of an ASCII field changes in the whole buffer. |
| `DecimalField.Operand.DecodeSign` | src/cpu/bcd.c:338-363 | The sign code stands last in the byte-aligned field; B and D are minus, F is unsigned, an empty field is plus. |
| `DecimalField.Operand.ExtractMagnitude` | src/cpu/bcd.c:377-394 | The destination denotes the magnitude of the field, right adjusted under zeros. |
| `DecimalField.Operand.StoreDigits` | src/cpu/bcd.c:517-530 | The low L-1 digits stand right adjusted below the sign with a zero pad; the first digit left over is returned. |
| `DecimalField.Operand.PackMagnitude` | src/cpu/bcd.c:487-541 | Overflow exactly when the value is at least 10^(L-1); the field takes the low digits and the sign and the rest of the buffer is kept; an empty field holds only zero. |
| `DecimalField.Operand.PackedStores` | src/cpu/bcd.c:487-541 | A packed field denotes the magnitude modulo 10^(L-1) under its sign code, with a zero pad when L is odd, every other nibble unchanged. |
| `DecimalArith.AddSigned` | src/cpu/bcd.c:605-627 | Signed magnitude addition: the signed result is the sum of the signed operands, whichever magnitude is larger. |
| `DecimalArith.SumBuffers` | src/cpu/bcd.c:605-644 | The same, a zero result keeping the first sign. |
| `DecimalArith.LoadMagnitudes` | src/cpu/bcd.c:598-603 | Both magnitudes fit below one guard digit. |
| `DecimalArith.SignedSum` | src/cpu/bcd.c:585-644 | The buffer holds the magnitude of op1 + op2, or for a flipped sign of op1 - op2, with the sign of the exact result or, for zero, of op1. |
| `DecimalArith.AddSub` | src/cpu/bcd.c:556-654 | With n1 and n2 the numbers of the operands and r = n1 + n2 for flip 1, n1 - n2 for flip -1: success iff &#124;r&#124; < 10^(L1-1); stored are &#124;r&#124; modulo 10^(L1-1), the sign of r (or F, or for zero that of op1), a zero pad, and nothing outside the field. |
| `DecimalCompare.CompareBuffers` | src/cpu/bcd.c:765-798 | Minus zero and plus zero compare equal; otherwise the sign of the difference of the signed values. |
| `DecimalCompare.LoadScaled` | src/cpu/bcd.c:760-763 | The extracted magnitude moved left denotes the magnitude times a power of ten. |
| `DecimalCompare.Compare` | src/cpu/bcd.c:735-799 | COMD returns the sign of the difference of the two numbers brought to the larger decimal point. |
| `DecimalCompare.CompareAtScale` | src/cpu/bcd.c:755-763 | Any common scale gives the same answer. |
| `DecimalCompare.CompareCross` | src/cpu/bcd.c:735-799 | It is the comparison of n1 10^dp2 with n2 10^dp1. |
| `DecimalCompare.CompareIsTotalPreorder` | src/cpu/bcd.c:735-799 | Across lengths and points the comparison is antisymmetric, reflexive and transitive, for below-or-equal and for equality. |
| `DecimalCompare.SubtractAgreesWithCompare` | src/cpu/bcd.c:556-654 | With equal points and a signed destination the stored non-overflowing difference has the sign that COMD returns. |
| `DecimalShift.RoundOnDigit` | src/cpu/bcd.c:951-962 | Rounding half up of the whole discarded tail depends on its most significant digit alone. |
| `DecimalShift.RoundToZero` | src/cpu/bcd.c:939-953 | A shift past all digits gives zero, rounding or not. |
| `DecimalShift.ShiftedBounds` | src/cpu/bcd.c:926-974 | A left shift appends zeros to the digits; a right shift by k takes the q with q 10^k <= v < (q+1) 10^k, or with rounding the nearest, a half going up. |
| `DecimalShift.Increment` | src/cpu/bcd.c:954-962 | The carry loop adds exactly one to the digits. |
| `DecimalShift.Prepend` | src/cpu/bcd.c:963-972 | A carry out of the top becomes a new leading digit. |
| `DecimalShift.RoundUp` | src/cpu/bcd.c:952-973 | Rounding grows the buffer when needed and denotes the value plus one. |
| `DecimalShift.ShiftRight` | src/cpu/bcd.c:937-974 | Floor division by 10^count, or half-up rounding when asked. |
| `DecimalShift.ShiftLeft` | src/cpu/bcd.c:975-988 | Multiplication by 10^k; the work buffer is always long enough. |
| `DecimalShift.ShiftDigits` | src/cpu/bcd.c:926-988 | The three cases together: the work buffer denotes the source scaled by the difference of the points. |
| `DecimalShift.LoadSignificant` | src/cpu/bcd.c:913-924 | The digits read are the L-1 significant ones, the pad skipped. |
| `DecimalShift.PackWork` | src/cpu/bcd.c:990-1029 | Fails exactly when the shifted value is at least 10^(L2-1), the low digits being stored either way. |
| `DecimalShift.Shift` | src/cpu/bcd.c:883-1030 | SHDE scales by 10^-(dp1-dp2), rounding half up on request, stores modulo 10^(L2-1), and fails exactly on an empty destination or a value of at least 10^(L2-1). |
| `DecimalConvert.DecodeOfEncode` | src/cpu/bcd.c:1085-1115 | Reading back a written ASCII string gives the sign and the digits, except exactly for an unsigned number in a separate-sign format, which is refused. |
| `DecimalConvert.UnpackThenPack` | src/cpu/bcd.c:1354-1449 | UPACK then PACK keeps the value and the plus or minus class, negative zero and unsigned sources included, in all four signed formats with room, but for the unsigned source in a separate-sign format, which is refused. |
| `DecimalConvert.PackAfterUnpack` | src/cpu/bcd.c:1122-1449 | What PACK stores of a field that UPACK wrote is the source's digits below leading zeros, under the source's sign, or as plus in a target that asks for the unsigned code. |
| `DecimalConvert.ThereAndBack` | src/cpu/bcd.c:1122-1449 | Both conversions run one after the other on operands with room succeed, and the target holds the source's digits below leading zeros and its sign, or plus in an unsigned target. |
| `DecimalConvert.PackWritten` | src/cpu/bcd.c:1122-1280 | PACK of a string that holds an encoded number succeeds and leaves its digits and sign. |
| `DecimalConvert.DecodedDigits` | src/cpu/bcd.c:1167-1219 | A legal string decodes to decimal digits, as many as the format has digit bytes. |
| `DecimalConvert.StoredIsLegal` | src/cpu/bcd.c:1383-1408 | Every packed field that an instruction stores has a sign code and digits that UPACK accepts. |
| `DecimalConvert.ReadDigits` | src/cpu/bcd.c:1405-1415 | UPACK reads the significant digits and refuses a nibble above 9 anywhere among them. |
| `DecimalConvert.ReadSource` | src/cpu/bcd.c:1372-1416 | The source is refused exactly when its last nibble is at most 9 or a digit is above 9; otherwise its sign, unsigned code and digits are read. |
| `DecimalConvert.WriteDigits` | src/cpu/bcd.c:1425-1431 | Digit bytes are written right adjusted with ASCII zeros above them. |
| `DecimalConvert.WriteString` | src/cpu/bcd.c:1420-1439 | The destination bytes become the encoding of sign and digits; no byte outside the field changes. |
| `DecimalConvert.Unpack` | src/cpu/bcd.c:1354-1449 | The conversion of UPACK: illegal code iff the last nibble of a nonempty field is at most 9 or a digit is above 9 (then nothing changes); overflow iff the digits outnumber the digit bytes; the bytes are the encoding. |
| `DecimalConvert.ReadSeparateSign` | src/cpu/bcd.c:1147-1165 | A separate sign byte is plus or minus or refused. |
| `DecimalConvert.ReadString` | src/cpu/bcd.c:1167-1219 | Digit bytes and the overpunched sign decode as specified, or the string is refused. |
| `DecimalConvert.ReadNumber` | src/cpu/bcd.c:1138-1219 | The whole string decodes to its sign and digits exactly when it is legal. |
| `DecimalConvert.Pack` | src/cpu/bcd.c:1122-1280 | The conversion of PACK: illegal code iff the string does not decode (then nothing changes); overflow iff the value is at least 10^(L-1); the field denotes the decoded number. |
| `DecimalInstructions.CoveredIff` | src/cpu/bcd.c:139-185 | The loaded words miss part of a field exactly when it starts in a right byte and fills whole words. |
| `DecimalInstructions.OperandReads` | src/cpu/bcd.c:254-297 | An operand loaded for a descriptor denotes the number its field in memory denotes. |
| `DecimalInstructions.ViewOfStored` | src/cpu/bcd.c:304-319 | Storing a covered field and loading it again gives the same words. |
| `DecimalInstructions.StoredOnlyField` | src/cpu/bcd.c:304-319 | The store changes no nibble of memory outside the field, boundary words included. |
| `DecimalInstructions.TailHoldsIff` | src/cpu/bcd.c:139-185 | Words that agree with a result in all but the byte that sticks out hold it iff that byte is its units digit and sign code; with zeros there they hold it without its last digit. |
| `DecimalInstructions.CoveredResult` | src/cpu/bcd.c:304-319 | Of a covered field memory and the words loaded again both hold the result. |
| `DecimalInstructions.UncoveredResult` | src/cpu/bcd.c:304-319 | Of a field that sticks out the last word stays; memory holds the result iff the byte there is already right; loaded again the field has the other digits, zero units and no sign code. |
| `DecimalInstructions.UncoveredMayHold` | src/cpu/bcd.c:139-185 | An input on which memory holds the result of a field that sticks out: 125 with 5C already in the byte. |
| `DecimalInstructions.ResultInMemory` | src/cpu/bcd.c:304-319 | After the store memory holds a result iff the loaded words cover its field or the byte that sticks out was right before; that byte stays, the other digits are stored, and nothing outside the field changes. |
| `DecimalInstructions.Machine.GetOperand` | src/cpu/bcd.c:254-297 | Refuses exactly a nonzero point outside the field; otherwise loads the words the field spans. |
| `DecimalInstructions.Machine.MemWords` | src/cpu/bcd.c:149-185 | The number of spanned words, four nibbles to a word, rounded up. |
| `DecimalInstructions.Machine.StoreOperand` | src/cpu/bcd.c:304-319 | Exactly the spanned words are stored, addresses wrapping at 64K. |
| `DecimalInstructions.Machine.AddOrSubtract` | src/cpu/bcd.c:665-719 | ADDD for flip 1 and SUBD for -1, up to the skip: what is stored and reported is that of the sum, or of the difference, of the numbers the two fields denote. |
| `DecimalInstructions.Machine.AddDecimal` | src/cpu/bcd.c:665-686 | ADDD in memory: skip iff n1 + n2 fits the first field; memory holds it modulo 10^(L1-1) iff the loaded words cover the field or the byte that sticks out was right before, and holds its other digits in any case; no nibble outside the field changes; an illegal descriptor changes nothing. |
| `DecimalInstructions.Machine.SubtractDecimal` | src/cpu/bcd.c:697-719 | SUBD in memory: the same of n1 - n2. |
| `DecimalInstructions.SumReadsBack` | src/cpu/bcd.c:556-654 | A result that fits a covered signed field is the number the field denotes afterwards. |
| `DecimalInstructions.SubtractUndoesAdd` | src/cpu/bcd.c:665-719 | ADDD, then SUBD of the same operand from elsewhere, neither overflowing, gives back the first field's number. |
| `DecimalInstructions.Machine.CompareDecimal` | src/cpu/bcd.c:808-844 | COMD: A becomes 1, 0 or FFFF as n1 10^dp2 is greater than n2 10^dp1, equal or less; memory is unchanged. |
| `DecimalInstructions.Machine.ShiftDecimal` | src/cpu/bcd.c:1032-1058 | SHDE in memory: skip iff the scaled number fits the second field; memory holds it as for ADDD; only the field's nibbles change. |
| `DecimalInstructions.ShiftThenCompare` | src/cpu/bcd.c:883-1058 | SHDE to as many decimals or more, without loss, leaves a number that COMD finds equal to its source. |
| `DecimalInstructions.ShiftRounds` | src/cpu/bcd.c:937-974 | SHDE to fewer decimals stores the largest number not above the source scaled down, or the nearest when the second descriptor asks for rounding. |
| `ConvertInstructions.GetAscii` | src/cpu/bcd.c:254-297 | Refuses exactly a nonzero point outside the field; otherwise loads the words the bytes span. |
| `ConvertInstructions.StoreAscii` | src/cpu/bcd.c:304-319 | Exactly the words the bytes span are stored, addresses wrapping at 64K. |
| `ConvertInstructions.BufferStored` | src/cpu/bcd.c:304-319 | A string in the buffer is stored byte for byte as far as the spanned words reach, and no other byte of memory changes. |
| `ConvertInstructions.StringCoveredIff` | src/cpu/bcd.c:166-185 | The spanned words hold the whole string iff it does not start in a right byte and fill whole words. |
| `ConvertInstructions.UncoveredRefused` | src/cpu/bcd.c:1138-1219 | A string whose last byte is not loaded decodes in no format: PACK always refuses it. |
| `ConvertInstructions.ReportError` | src/cpu/bcd.c:1070-1081 | The code replaces the low five bits of D; code 2 also sets bit 15 of A and D. |
| `ConvertInstructions.UnpackLoaded` | src/cpu/bcd.c:1471-1481 | What UPACK of loaded operands stores and reports. |
| `ConvertInstructions.UnpackDecimal` | src/cpu/bcd.c:1451-1482 | UPACK in memory: a bad descriptor or source reports code 2 and stores nothing; an empty destination reports and stores nothing and does not skip; else exactly the string's bytes are stored, with code 3 iff the source's digits outnumber the digit bytes, and a skip otherwise. |
| `ConvertInstructions.PackLoaded` | src/cpu/bcd.c:1302-1310 | What PACK of loaded operands stores and reports. |
| `ConvertInstructions.PackDecimal` | src/cpu/bcd.c:1282-1310 | PACK in memory: a bad descriptor reports nothing, a string that decodes to nothing code 2, and neither stores; else the packed field takes the value and sign, with code 3 iff the value is at least 10^(L-1), and a skip otherwise. |
| `ConvertInstructions.StoredStringReads` | src/cpu/bcd.c:254-319 | A string stored in a covered field is the string read from it. |
| `ConvertInstructions.UnpackedReadsBack` | src/cpu/bcd.c:1138-1441 | What UPACK stored with a skip is read by PACK as the source's number, and refused iff an unsigned number went into a separate-sign format. |
| `ConvertInstructions.PackedAgain` | src/cpu/bcd.c:1282-1482 | UPACK, then PACK into a third field: the skip says that the source's value fits it, and the field holds that value and sign. |
| `ConvertInstructions.ResultConvertibleIff` | src/cpu/bcd.c:1383-1416 | A field that ADDD, SUBD, SHDE or PACK has stored, of whatever sign, is a source UPACK accepts iff the loaded words cover it. |
| `ConvertInstructions.PackedNeverRefused` | src/cpu/bcd.c:1282-1482 | UPACK of a covered field that PACK stored never reports an illegal code. |
| `ConvertInstructions.UnpackedAgain` | src/cpu/bcd.c:1282-1482 | PACK, then UPACK, neither overflowing: the string written is read as the number that was packed, sign and value. |
| `DecimalLayout.DescriptorFields` | src/cpu/bcd.c:254-276 | Descriptors by the weights of their fields, and which decimal points are legal. |
| `DecimalLayout.DigitsInMemory` | src/cpu/bcd.c:139-201 | The digits of a field are the nibbles of its words in order, most significant first, the right half of its last byte the sign code. |
| `DecimalLayout.OneWordReads` | src/cpu/bcd.c:338-363 | A one-word field by the number of its word: three digits, minus for a last nibble of B or D. |
| `DecimalLayout.OneWordStored` | src/cpu/bcd.c:487-541 | The word a result leaves in such a field: its last three digits, and C, D or F. |
| `DecimalLayout.OneWordSum` | src/cpu/bcd.c:556-654 | ADDD and SUBD of one-word fields by the number of the word left: success iff the exact result is from -999 to 999; its digits and C or D, a zero keeping the sign of the first field. |
| `DecimalLayout.StringInMemory` | src/cpu/bcd.c:216-222 | The characters of a string are the bytes of its words in order, the left byte first. |
| `DecimalLayout.SeparateString` | src/cpu/bcd.c:1425-1439 | UPACK in formats 1 and 3: the digits below leading zeros, with the character plus, minus or 0 last or first. |
| `DecimalLayout.PlainString` | src/cpu/bcd.c:1317-1350 | UPACK of an unsigned result in the other formats: digits alone. |
| `DecimalLayout.PunchedString` | src/cpu/bcd.c:1325-1350 | UPACK in formats 0 and 2: the sign punched over the last or first digit, { and A to I for plus, } and J to R for minus. |
| `DecimalLayout.DecodesSeparate` | src/cpu/bcd.c:1147-1219 | A string of format 1 or 3 is a number iff its sign character is plus or minus and the others are digits; its sign is that character. |
| `DecimalLayout.DecodesOther` | src/cpu/bcd.c:1167-1219 | A string of another format is a number iff its characters are digits, but for the one of formats 0 and 2 that may be punched and has the sign. |
| `DecimalLayout.ReadCharacters` | src/cpu/bcd.c:1178-1216 | The characters read as digits, their values and signs. |
| `DecimalLayout.ReportedWords` | src/cpu/bcd.c:1070-1081 | Codes 2 and 3 in the low five bits of D, bit 15 of A and D for code 2, other bits kept. |
| `DecimalLayout.PackReports` | src/cpu/bcd.c:1122-1310 | PACK reports code 2 iff the string is no number, else code 3 iff its value does not fit. |
| `DecimalLayout.UnpackReports` | src/cpu/bcd.c:1354-1482 | UPACK reports nothing iff the destination is empty or all is well, code 2 iff the source is no packed number, else code 3 iff its digits outnumber the places. |
| `PhysicalMemory.PhysMem.ReadWord` | src/cpu/cpu_mms.c:1383-1427 | A privileged word read: the page-table store behind the window in bank 0, installed memory elsewhere, zero beyond it. |
| `PhysicalMemory.PhysMem.WriteWord` | src/cpu/cpu_mms.c:1437-1526 | A privileged word write into the store that answers the address; nothing beyond installed memory. |
| `PageLists.Machine.InsertPage` | src/cpu/cpu_instr.c:5749-5801 | INSPL performs the insertion of page X into the list of segment B with tag T. |
| `PageLists.Machine.RemovePage` | src/cpu/cpu_instr.c:5818-5879 | REMPL performs the removal of page X from whichever list holds it. |
| `PageLists.MarkerLeadsBack` | src/cpu/cpu_instr.c:5780-5853 | The marker in a first page leads back to exactly the head slot of its segment, and has a nonzero low part as no page has. |
| `PageLists.InsertEffect` | src/cpu/cpu_instr.c:5765-5800 | Exactly five words can change, and what each becomes. |
| `PageLists.InsertRepresents` | src/cpu/cpu_instr.c:5749-5801 | INSPL prepends X to its list; every list stays well formed and the others are unchanged. |
| `PageLists.RemoveEffect` | src/cpu/cpu_instr.c:5837-5878 | Exactly the neighbours, the head slot and the page itself can change, and what each becomes. |
| `PageLists.RemoveRepresents` | src/cpu/cpu_instr.c:5818-5879 | REMPL deletes X, first, middle or last; every list stays well formed and the others are unchanged. |
| `PageLists.RemoveUndoesInsert` | src/cpu/cpu_instr.c:5749-5879 | Inserting and removing a page restores every word but the page's own entry. |
| `PageLists.StepRepresents` | src/cpu/cpu_instr.c:5749-5879 | Each instruction refines prepending or deleting on a map from segments to page sequences. |
| `PageLists.RunRepresents` | src/cpu/cpu_instr.c:5749-5879 | Over every run the heap is a set of disjoint doubly linked lists, those obtained by prepending and deleting. |
| `CoreMap.MarkerIs` | src/cpu/cpu_instr.c:5780-5800 | The marker of the n-th segment entry is 4 n + 3. |
| `CoreMap.InsertWords` | src/cpu/cpu_instr.c:5765-5800 | INSPL by address: X in word 7 of the segment entry, the old head, the marker and T in words 0, 1 and 3 of the page, X in word 1 of the page that was first; no status word changes. |
| `CoreMap.RemoveWords` | src/cpu/cpu_instr.c:5837-5878 | REMPL by address: words 0 and 1 of the page become zero; no status word and no tag changes. |
| `CoreMap.ListWords` | src/cpu/cpu_instr.c:5749-5879 | A list by address: word 7 of the segment entry is its first page, words 0 and 1 of a page the next page and the one before or the marker. |
| `CoreMap.ListIsChain` | src/cpu/cpu_instr.c:6115-6150 | The list of a segment is, from its head, the chain that ENPT, REPT and CLPT walk, in the same order. |
| `CoreMap.TagNamesEntry` | src/cpu/cpu_instr.c:5800 | ENPT enters a page that INSPL has put in a list at 0xF800 + 2 (T % 1024), T being that of INSPL. |
| `CoreMap.RunThenEnter` | src/cpu/cpu_instr.c:5749-6124 | Over every run of INSPL and REMPL, ENPT of the head enters exactly the pages of the list left, each at the entry of its tag: the page number, and its status without the used mark. |
| `SegmentTables.EntriesByIndex` | src/cpu/cpu_instr.c:5182-5199 | Two SETPT nodes name different entries exactly when their indexes differ modulo 256; two ENPT nodes when their third words differ modulo 1024. |
| `SegmentTables.Machine.SetNode` | src/cpu/cpu_instr.c:5182-5197 | SETPT enters one node and follows its link. |
| `SegmentTables.Machine.SetPageTables` | src/cpu/cpu_instr.c:5149-5200 | SETPT enters every node of the chain and terminates at its end. |
| `SegmentTables.Machine.ClearNode` | src/cpu/cpu_instr.c:5294-5326 | CLEPT saves and clears one node's entry if it is in use. |
| `SegmentTables.Machine.ClearPageTables` | src/cpu/cpu_instr.c:5220-5329 | CLEPT saves every used entry in its node and clears it, over the whole chain. |
| `SegmentTables.Machine.EnterDescriptor` | src/cpu/cpu_instr.c:983-1027 | ENPT and REPT enter one node, with their own masks. |
| `SegmentTables.Machine.EnterSegment` | src/cpu/cpu_instr.c:6115-6124 | ENPT enters every node of the chain and ends with X zero. |
| `SegmentTables.Machine.EnterReentrantSegment` | src/cpu/cpu_instr.c:6141-6150 | REPT enters every node of the chain with bit 15 cleared as well, and ends with X zero. |
| `SegmentTables.Machine.SaveDescriptor` | src/cpu/cpu_instr.c:5990-6098 | CLPT saves one used entry, clearing it only when A is zero. |
| `SegmentTables.Machine.EraseDescriptor` | src/cpu/cpu_instr.c:5990-6098 | CLPT with bit 15 of A set clears one entry unsaved. |
| `SegmentTables.Machine.ClearSegment` | src/cpu/cpu_instr.c:5990-6098 | CLPT over the chain: saved and cleared, saved and kept, or cleared unsaved, as A decides. |
| `SegmentTables.ItemsSeparate` | src/cpu/cpu_instr.c:5182-5199 | Nodes with distinct entries have disjoint entry pairs behind the window and disjoint slots in plain memory. |
| `SegmentTables.EnterFrame` | src/cpu/cpu_instr.c:983-1027 | Entering changes no word but the entry pairs. |
| `SegmentTables.EnterAt` | src/cpu/cpu_instr.c:983-1027 | Each entry pair holds the masked descriptor word and the page frame. |
| `SegmentTables.SaveFrame` | src/cpu/cpu_instr.c:5294-5328 | Saving changes no word but entry first words and node words 2. |
| `SegmentTables.SaveAt` | src/cpu/cpu_instr.c:5294-5328 | Each used entry reaches its node; it is cleared or kept; an unused one leaves its node alone. |
| `SegmentTables.EraseReads` | src/cpu/cpu_instr.c:5990-6098 | Clearing zeroes exactly the first words of the named entries. |
| `SegmentTables.EnterKeepsWalk` | src/cpu/cpu_instr.c:5149-5329 | A chain that was entered can be walked by the saving instruction. |
| `SegmentTables.EnterSaveRestores` | src/cpu/cpu_instr.c:5149-5329 | SETPT then CLEPT, or ENPT or REPT then CLPT: each node gets back its word 2 as entered (unchanged if that is zero), its entry is cleared or kept, the second entry word stays. |
| `SegmentTables.EnterSaveFrame` | src/cpu/cpu_instr.c:5149-5329 | The pair of walks changes nothing else, no link among it. |
| `SegmentTables.EnterSaveKeepsChain` | src/cpu/cpu_instr.c:5149-5329 | The chain survives the pair of walks. |
| `NodeWords.EnteredBits` | src/cpu/cpu_instr.c:983-1003 | Word 2 is entered without bit 11, and by REPT without bit 15; every other bit stays. |
| `NodeWords.SetptLeaves` | src/cpu/cpu_instr.c:5182-5197 | After SETPT the pair at 0xFE00 + 2 (word 1 % 256) has word 2 but bit 11, and word 3. |
| `NodeWords.EnptLeaves` | src/cpu/cpu_instr.c:983-1027 | After ENPT or REPT the pair at 0xF800 + 2 (word 3 % 1024) has word 2 but bit 11, and for REPT bit 15, and the page number X / 4. |
| `NodeWords.CleptLeaves` | src/cpu/cpu_instr.c:5294-5326 | After CLEPT word 2 is the entry's first word, unless that was zero, and the entry is zero. |
| `NodeWords.ClptLeaves` | src/cpu/cpu_instr.c:5990-6098 | After CLPT the same when A is zero; with A negative word 2 stays; otherwise the entry stays. |
| `WorkingSet.Machine.MarkWorkingSet` | src/cpu/cpu_instr.c:929-945 | One bit of the eight-word table at L is set. |
| `WorkingSet.Machine.CollectNode` | src/cpu/cpu_instr.c:5519-5562 | CLEPU saves and clears one entry and marks its page if the entry was marked used. |
| `WorkingSet.Machine.ClearAndCollect` | src/cpu/cpu_instr.c:5468-5564 | CLEPU over the whole chain. |
| `WorkingSet.CollectSaves` | src/cpu/cpu_instr.c:5519-5563 | Outside the table CLEPU leaves exactly what CLEPT leaves. |
| `WorkingSet.CollectMarks` | src/cpu/cpu_instr.c:929-945 | A bit of the table is set afterwards iff it was set before or some page of that number had its entry marked used. |
| `PageUse.FirstWordMarks` | src/cpu/cpu_instr.c:5539-5562 | Bits 11 and 12 of an entry's first word are the marks that translation sets: the bit CLEPU tests and the bit CHREENT tests. |
| `PageUse.NothingUsedAtOnce` | src/cpu/cpu_instr.c:5182-5562 | CLEPU at once after SETPT sets no bit of the table. |
| `PageUse.WorkingSetExact` | src/cpu/cpu_instr.c:929-945 | After SETPT, any run of translations, and CLEPU, a bit of the table is set iff it was set before or a page of that number was used by an access of the run that succeeded. |
| `PageUse.WrittenExact` | src/cpu/cpu_instr.c:5640-5666 | After entering, any run and saving, CHREENT finds a page written iff its status said so before or a write of the run that succeeded went to it. |
| `ReentrantPages.FirstWrittenUnique` | src/cpu/cpu_instr.c:5574-5666 | The first written page of a chain is determined. |
| `ReentrantPages.UnlinkRemoves` | src/cpu/cpu_instr.c:5574-5666 | Storing a page's link in the slot before it takes exactly that page out of an acyclic chain. |
| `ReentrantPages.Machine.UnlinkFirstWritten` | src/cpu/cpu_instr.c:5574-5666 | CHREENT unlinks the first written page, naming it in X and its predecessor slot in D:A, and the chain is the old one without it; with none it changes no memory and skips. |
| `MemoryBanks.KindByAnyBank` | src/cpu/cpu_mms.c:1193-1223 | In a sound table any bank that holds a word decides its type. |
| `MemoryBanks.LookupIgnoresOrder` | src/cpu/cpu_mms.c:1193-1205 | Lookup does not depend on the order of the table. |
| `MemoryBanks.AppendKind` | src/cpu/cpu_mms.c:963-1001 | A registration changes the type of exactly the words of its range. |
| `MemoryBanks.WithoutKind` | src/cpu/cpu_mms.c:1075-1092 | A removal leaves exactly the words of its bank without a type. |
| `MemoryBanks.SplitSound` | src/cpu/cpu_mms.c:1094-1163 | Splitting local RAM around a device keeps the banks disjoint, nonempty and at most 16. |
| `MemoryBanks.SplitKind` | src/cpu/cpu_mms.c:1094-1163 | Laying a bank over local RAM changes the type of exactly the words of its range. |
| `MemoryBanks.ReturnAccepted` | src/cpu/cpu_mms.c:1165-1191 | The registration whose result is ignored cannot fail. |
| `MemoryBanks.TakenOffKind` | src/cpu/cpu_mms.c:1165-1191 | Taking a bank off makes its words in installed RAM local, the others untyped, and no other word different. |
| `MemoryBanks.LaidOverKind` | src/cpu/cpu_mms.c:1094-1163 | Any accepted call changes the type of exactly the words of its range. |
| `MemoryBanks.OverlapsIff` | src/cpu/cpu_mms.c:1094-1135 | Two ranges overlap iff they have a word in common. |
| `MemoryBanks.AcceptedIff` | src/cpu/cpu_mms.c:1094-1160 | With room for two more banks a nonempty range that does not wrap is accepted iff no bank holds any of its words or one local bank without accessors holds all of them. |
| `MemoryBanks.PartsArePlain` | src/cpu/cpu_mms.c:1094-1191 | What is left of a split bank and what is given back is local RAM without accessors. |
| `MemoryBanks.LayingOverUndone` | src/cpu/cpu_mms.c:1094-1191 | After laying over and taking off, the words of the range are local as far as RAM is installed and untyped beyond; no other word changes. |
| `MemoryBanks.LayingOverRestoresIff` | src/cpu/cpu_mms.c:1094-1191 | Every type is restored iff the range was cut from local RAM and ends inside installed RAM, or was free and begins beyond it. |
| `MemoryBanks.InstalledRestoredIff` | src/cpu/cpu_mms.c:1094-1191 | Every type of a word of installed RAM is restored iff the range was cut from local RAM or begins beyond installed RAM. |
| `MemoryBanks.TakingOffMakesLocal` | src/cpu/cpu_mms.c:1180-1189 | An input on which a word that no bank held becomes local. |
| `MemoryBanks.AccessorAfterCall` | src/cpu/cpu_mms.c:944-1191 | One call leaves a bank an exchange accessor only if it gave it, or the bank had it and the call did not touch the bank. |
| `MemoryBanks.AccessorsGiven` | src/cpu/cpu_mms.c:944-1191 | Over every sequence of calls each exchange accessor was given to the very bank that has it: none is inherited from a slot. |
| `MemoryBanks.RunSound` | src/cpu/cpu_mms.c:944-1191 | Over every sequence of calls the banks stay nonempty, pairwise disjoint and at most 16. |
| `MemoryBanks.Registry.constructor` | src/cpu/cpu_mms.c:944-956 | The table starts with local RAM alone. |
| `MemoryBanks.Registry.RegisterBacked` | src/cpu/cpu_mms.c:963-1001 | Accepts exactly a nonempty, nonwrapping, nonoverlapping range while there is room, and appends it. |
| `MemoryBanks.Registry.SetExchange` | src/cpu/cpu_mms.c:1013-1024 | Gives the bank at a start word its exchange and keeps the table sound. |
| `MemoryBanks.Registry.UnregisterBank` | src/cpu/cpu_mms.c:1075-1092 | Removes the bank at a start word, closes the gap and clears the slot past the end. |
| `MemoryBanks.Registry.UnregisterOverLocal` | src/cpu/cpu_mms.c:1165-1191 | Removes the bank and gives its words in installed RAM back. |
| `MemoryBanks.Registry.FindLocal` | src/cpu/cpu_mms.c:1094-1163 | Finds the one plain local bank that may be split, or refuses. |
| `MemoryBanks.Registry.CutLocal` | src/cpu/cpu_mms.c:1094-1163 | The low part keeps its slot, or the slot is closed. |
| `MemoryBanks.Registry.RegisterOverLocal` | src/cpu/cpu_mms.c:1094-1163 | Splits, registers, or fails changing nothing; succeeds exactly when the range may be laid over. |
| `MemoryBanks.Registry.FillSlot` | src/cpu/cpu_mms.c:1146-1152 | A bank stored field by field, its accessor left as the slot holds it, has none. |
| `MemoryBanks.Registry.Lookup` | src/cpu/cpu_mms.c:1193-1223 | Finds a bank exactly when one holds the word, and its type. |
| `PageTables.IndexesDisjoint` | src/cpu/cpu_mms.c:134-168 | Within a mode distinct table and page pairs occupy disjoint shadow words. |
| `PageTables.IndexInside` | src/cpu/cpu_mms.c:134-168 | Every legal entry lies inside the shadow store and begins past the base. |
| `PageTables.FourAreLastOfSixteen` | src/cpu/cpu_mms.c:134-168 | On MMS2 extended table p of four is table 12 + p of sixteen. |
| `PageTables.EntryPlaces` | src/cpu/cpu_mms.c:98-160 | Entries lie from 0xFF00 a word each in normal mode, from 0xFE00 and 0xF800 two words each in the extended modes, table after table of 64 pages. |
| `PageTables.GetAfterUpdate` | src/cpu/cpu_mms.c:235-345 | An updated entry reads back, masked to FE0001FF in normal mode. |
| `PageTables.UpdateFrame` | src/cpu/cpu_mms.c:320-345 | No other entry of the mode changes. |
| `PageTables.WindowAgrees` | src/cpu/cpu_mms.c:98-232 | Writes through the memory window and updates of entries are the same change. |
| `PageTables.WindowShows` | src/cpu/cpu_mms.c:217-232 | Reads through the window show the words of the entry. |
| `PageTables.HalfWritten` | src/cpu/cpu_mms.c:171-214 | Writing one half of an extended entry through the window replaces that half and keeps the other. |
| `PageTables.PokeFrame` | src/cpu/cpu_mms.c:171-214 | A write through the window changes no entry whose words it does not hit. |
| `PageTables.PagingTables.GetEntry` | src/cpu/cpu_mms.c:235-263 | The entry of a page, zero for an illegal one. |
| `PageTables.PagingTables.UpdateEntry` | src/cpu/cpu_mms.c:320-345 | The entry of a page replaced in the shadow store; false and no change for a table number of 16 or more. |
| `PageTables.PagingTables.Peek` | src/cpu/cpu_mms.c:217-232 | A word read through the window. |
| `PageTables.PagingTables.Poke` | src/cpu/cpu_mms.c:171-214 | A word written through the window. |
| `EntryViews.PairIsEntry` | src/cpu/cpu_instr.c:5182-5199 | The pair of words a node names is one entry: page i % 64 of table i / 64, of four tables for SETPT and of sixteen for ENPT and REPT. |
| `EntryViews.EnterIsUpdate` | src/cpu/cpu_instr.c:983-1027 | Entering a node through memory is an update of the entry it names. |
| `EntryViews.SaveIsUpdate` | src/cpu/cpu_instr.c:5294-5326 | Saving a node takes the high half of a used entry to the node and, unless it is kept, leaves the entry its page frame alone; an unused entry leaves the node and the tables alone. |
| `EntryViews.PlainWriteKeeps` | src/cpu/cpu_mms.c:1437-1460 | A write to plain memory changes no page-table word. |
| `EntryViews.WriteIsPoke` | src/cpu/cpu_mms.c:1437-1460 | A memory write behind the window is a write of the page-table store. |
| `Translation.MarkedBits` | src/cpu/cpu_mms.c:348-389 | Marking sets the used bit, and the written bit exactly on a write, and keeps permissions, ring and frame. |
| `Translation.HeldMarked` | src/cpu/cpu_mms.c:348-389 | The marks survive the narrowing of normal mode. |
| `Translation.PermitsIff` | src/cpu/cpu_mms.c:741-804 | A write needs bit 31 of the entry, a read bit 30, a fetch bit 29, an indirect read one of the last two. |
| `Translation.SucceedsIff` | src/cpu/cpu_mms.c:455-680 | By the number e of the entry: a paged write succeeds iff e >= 2^31, a read iff bit 30, a fetch iff bit 29, an indirect read iff one of those two, and the ring of the level is at least bits 26-25 and a bank holds the address; which is the low 14 bits of e, or 9 in normal mode, over the displacement. |
| `Translation.FaultIs` | src/cpu/cpu_mms.c:741-830 | Otherwise a page fault iff e < 2^29, then a permit violation iff the access's bit is clear, then a ring violation iff the ring is below the page's. |
| `Translation.RingAfter` | src/cpu/cpu_mms.c:552-567 | The level's ring afterwards is the page's iff ring 3 fetched from an entry that permits it, else as before. |
| `Translation.SixteenFields` | src/cpu/cpu_mms.c:466-530 | Bits 14-11 and 10-7 of a control register with bit 2 set select one of sixteen tables. |
| `Translation.FourFields` | src/cpu/cpu_mms.c:466-530 | Else bits 10-9 and 8-7 select one of four. |
| `Translation.DirectIff` | src/cpu/cpu_mms.c:470-485 | No table is used iff paging is off or ring 3 accesses 0xFF00, 0xFE00 or 0xF800 and above, by mode. |
| `Translation.NormalEntryFields` | src/cpu/cpu_mms.c:83-95 | A 16-bit entry has permits, marks and ring 16 bits below those of a 32-bit one, and its low nine bits as frame. |
| `Translation.DegradedRing` | src/cpu/cpu_mms.c:455-680 | Only a fetch from a lower-ring page lowers ring 3, to that page's ring. |
| `Translation.MarksOnlyOwnEntry` | src/cpu/cpu_mms.c:455-680 | Success marks the page's own entry alone; failure changes no entry. |
| `Translation.SuccessLandsInBank` | src/cpu/cpu_mms.c:455-680 | The displacement is kept, a registered bank is reached, and the ring left reaches the page's. |
| `Translation.TranslateEvolves` | src/cpu/cpu_mms.c:455-680 | One translation lowers at most the current level's ring and adds at most marks. |
| `Translation.RunEvolves` | src/cpu/cpu_mms.c:455-680 | Over any run no ring rises, no mapping changes and no mark is lost. |
| `Translation.RunMarks` | src/cpu/cpu_mms.c:348-389 | After any run an entry is marked used, or written, iff it was before or a translation of the run that succeeded consulted it, for a write. |
| `Translation.UnwritableStaysClean` | src/cpu/cpu_mms.c:741-804 | No run marks an entry below 2^31 written. |
| `Translation.NoRingRises` | src/cpu/cpu_mms.c:455-680 | Over translations under any levels, paging states and modes, no level's ring rises and no other bit of a control register changes. |
| `Translation.MemoryManagement.SelectTable` | src/cpu/cpu_mms.c:455-520 | The table that the control register selects, four or sixteen. |
| `Translation.MemoryManagement.MarkEntry` | src/cpu/cpu_mms.c:348-389 | The marks are stored only where they change the entry. |
| `Translation.MemoryManagement.DegradeRing` | src/cpu/cpu_mms.c:455-680 | The ring of the running level is lowered in its control register. |
| `Translation.MemoryManagement.MapVirtualToPhysical` | src/cpu/cpu_mms.c:455-680 | The translation: its outcome, the marks and the ring, for every access. |
| `TestAndSet.LockDiscipline` | src/cpu/cpu_mms.c:1053-1073 | Lock and unlock calls alternate, and after the instruction, trapped or not, the lock is given back. |
| `TestAndSet.RunsLinearize` | src/cpu/cpu_instr.c:1942-1968 | Over every interleaving the accesses behave as indivisible events, and A is the word the instruction's own -1 replaced. |
| `TestAndSet.MutualExclusion` | src/cpu/cpu_instr.c:1942-1968 | At most one CPU believes it owns a cell, and an owned cell is marked taken. |
| `TestAndSet.NoReleaseLost` | src/cpu/cpu_mms.c:1477-1492 | A released word is still in the cell or is what the next test-and-set of the cell found. |
| `TestAndSet.PlainPairLosesRelease` | src/cpu/cpu_instr.c:1947-1967 | Without the lock functions or without the exchange some interleaving loses a release and leaves the cell taken with no owner. |
| `TestAndSet.Machine.TsetLockBegin` | src/cpu/cpu_mms.c:1053-1061 | Takes the lock if one is installed and forgets an old exchange. |
| `TestAndSet.Machine.TsetLockEnd` | src/cpu/cpu_mms.c:1063-1073 | Gives the lock back exactly when held. |
| `TestAndSet.Machine.WriteSharedWord` | src/cpu/cpu_mms.c:1473-1492 | A word write under the lock into a bank with an exchange is one swap; otherwise a plain store. |
| `TestAndSet.Machine.TakeOld` | src/cpu/cpu_mms.c:1026-1038 | Hands over the swapped-out word once. |
| `TestAndSet.Machine.LeaveByTrap` | src/cpu/cpu.c:499-517 | The trap path gives the lock back. |
| `TestAndSet.Machine.TestAndSet` | src/cpu/cpu_instr.c:1942-1968 | TSET performs its steps with the other CPU between them, and leaves the lock free. |
| `Divide.TruncatedDivides` | src/cpu/cpu_instr.c:7169-7177 | The quotient and remainder by magnitudes satisfy n = q m + r, &#124;r&#124; < &#124;m&#124;, r with the dividend's sign. |
| `Divide.OnlyOneDivides` | src/cpu/cpu_instr.c:7106-7110 | No other quotient and remainder do. |
| `Divide.OverflowsIff` | src/cpu/cpu_instr.c:7155-7183 | Overflow iff the divisor is zero or no quotient from -32768 to 32767 leaves a proper remainder. |
| `Divide.TwosComplement` | src/cpu/cpu_instr.c:7121-7128 | The signed readings of a word and of two are those of two's complement. |
| `Divide.PreCheckExact` | src/cpu/cpu_instr.c:7155-7167 | The high-word test lets through exactly the quotient magnitudes below 2^16. |
| `Divide.FittingPassesPreCheck` | src/cpu/cpu_instr.c:7155-7167 | No representable quotient is refused by the pre-check. |
| `Divide.ResultDivides` | src/cpu/cpu_instr.c:7169-7177 | Without overflow the signed A and D are that quotient and remainder. |
| `Divide.MagnitudeWordsSameIff` | src/cpu/cpu_instr.c:7123-7129 | A division by zero leaves A and D unchanged iff the dividend is not negative or is -2^31. |
| `Divide.DivisionByZeroChanges` | src/cpu/cpu_instr.c:7123-7129 | For a dividend of -1 a division by zero leaves 0 and 1. |
| `Divide.DivideMagnitudes` | src/cpu/cpu_instr.c:7150-7183 | Overflow iff the divisor is zero or the truncated quotient is outside 16 signed bits; A and D on both paths. |
| `Divide.Cpu.Rdiv` | src/cpu/cpu_instr.c:7121-7184 | RDIV: Z is set iff overflow and never cleared; A the quotient modulo 2^16 and D the exact remainder on the loop path; C, O and Q follow the low word of a negative dividend only. |
| `MoveBytes.UpExact` | src/cpu/cpu_instr.c:3681-3697 | An ascending copy is exact while it does not read what it wrote. |
| `MoveBytes.DownExact` | src/cpu/cpu_instr.c:3660-3680 | A descending copy is exact while it does not read what it wrote. |
| `MoveBytes.CopiedIsMoved` | src/cpu/cpu_instr.c:3620-3729 | In the chosen direction every destination byte is the original source byte and no other byte changes. |
| `MoveBytes.MovedBytes` | src/cpu/cpu_instr.c:3655-3697 | Byte i of the destination is byte i of the source as it was, addresses wrapping, and a byte outside the destination stays. |
| `MoveBytes.PositionByte` | src/cpu/cpu_instr.c:3641-3654 | A field begins at the left byte of its word for a clear bit 15 of its control word and at the right one for a set one. |
| `MoveBytes.OverlapSafeIff` | src/cpu/cpu_instr.c:3641-3697 | The direction rule is overlap-safe for all memories iff the two fields do not meet again around the end of the address space. |
| `MoveBytes.AddressAtEndIff` | src/cpu/cpu_instr.c:3726-3727 | The address left in A or X is the word after the field iff the last access was in its first word, or nothing was moved in a field at word 0. |
| `MoveBytes.Cpu.MoveByte` | src/cpu/cpu_instr.c:3664-3673 | One byte, the word and half of each field position, addresses wrapping. |
| `MoveBytes.Cpu.CopyField` | src/cpu/cpu_instr.c:3655-3697 | The loop in the chosen direction is the move meant. |
| `MoveBytes.Cpu.SetEnd` | src/cpu/cpu_instr.c:3718-3724 | D and T point at the half after the field, T keeps the length, bits 12-14 are kept. |
| `MoveBytes.Cpu.Movb` | src/cpu/cpu_instr.c:3620-3730 | MOVB: the shorter length is moved, memory, D and T are as promised, A and X as computed from the words accessed last, and the return skips. |
| `Interrupts.DueIs` | src/cpu/cpu.c:435-455 | The level due is the highest one both pending and enabled, or 0. |
| `Interrupts.CodeIs` | src/cpu/cpu.c:392-409 | The priority code is the highest enabled internal interrupt among 0 to 10. |
| `Interrupts.RecalcKeeps` | src/cpu/cpu.c:416-432 | An enabled internal interrupt makes level 14 pending and asks for a check. |
| `Interrupts.StepKeeps` | src/cpu/cpu.c:416-541 | Every interrupt and every instruction of the set keeps the invariant. |
| `Interrupts.RunSettled` | src/cpu/cpu.c:638-672 | Over every run, with interrupts on and no check outstanding, the running level is the one due. |
| `Interrupts.RunKeeps` | src/cpu/cpu.c:416-541 | Over every run both invariants hold: the level is settled, and a pending internal interrupt keeps a check outstanding. |
| `Interrupts.CheckDelivers` | src/cpu/cpu.c:638-672 | After a check with interrupts on the running level is the one due, whether or not another check is outstanding, and the level left is remembered. |
| `Interrupts.InternalReachesLevel14` | src/cpu/cpu.c:416-432 | No enabled internal interrupt is missed by a check. |
| `Interrupts.ErrorReachesLevel14` | src/cpu/cpu_regs.c:151-176 | Setting the error indicator reaches level 14 at the next check. |
| `Interrupts.DeviceLines` | src/cpu/cpu.c:520-539 | Of the sixteen device lines only 10 to 13 and 15 become pending. |
| `Interrupts.DeviceReachesLevel` | src/cpu/cpu.c:520-539 | An enabled one of these reaches its level, or one above, at the next check. |
| `Interrupts.RefusedReachesLevel14` | src/cpu/cpu_instr.c:73-93 | A privileged instruction outside rings 2 and 3 with paging on raises internal interrupt 6, does nothing else, and if enabled reaches level 14 at the next check. |
| `Interrupts.RegisterBits` | src/cpu/cpu_instr.c:1195-1514 | MCL, MST and TRR of PID, PIE and IIE, bit by bit. |
| `Interrupts.StatusBits` | src/cpu/cpu_instr.c:1204-1481 | MCL, MST and TRR of STS change the running level's error indicator by bit 3 of A, and no other level's. |
| `Interrupts.IndicatorBits` | src/cpu/cpu_instr.c:4857-4869 | IRW of STS does that of its level; an arithmetic instruction of the running one. |
| `Interrupts.RingWritten` | src/cpu/cpu_instr.c:1485-1501 | TRR PCR gives the level in bits 3 to 6 of A a system ring iff bit 1 is set, and no other level one. |
| `Interrupts.SwitchesOn` | src/cpu/cpu_instr.c:4783-5129 | ION, PION and PON: what is turned on, and whether a check is asked for. |
| `Interrupts.SwitchesOff` | src/cpu/cpu_instr.c:4754-5025 | IOF, PIOF and POF turn off exactly what they name, and ask for no check. |
| `Interrupts.WaitStops` | src/cpu/cpu_instr.c:1411-1446 | WAIT stops the processor iff interrupts are off, and does nothing on level 0. |
| `Interrupts.WaitDescends` | src/cpu/cpu_instr.c:1411-1446 | A level that waits gives way to the highest lower level pending and enabled. |
| `Interrupts.TraIicClears` | src/cpu/cpu_instr.c:1304-1316 | Reading the code clears the internal interrupts. |
| `Interrupts.OtherLevelSettledIff` | src/cpu/cpu.c:492-497 | Raised on a level other than 14, an interrupt keeps a settled machine settled exactly when something internal asks for the check, the level is not enabled, or it is not above the running one. |
| `Interrupts.StatusErrorWaits` | src/cpu/cpu_instr.c:1204-1206 | A write of a status word asks for no check: the level check that follows raises the error interrupt iff it was raised before, or a check is outstanding and the running level's indicator is set. |
| `Interrupts.StatusErrorReachesIff` | src/cpu/cpu.c:416-432 | So an enabled error indicator set by such a write reaches level 14 at the next level check iff a check is outstanding or such a level runs already. |
| `Interrupts.Cpu.CalcIic` | src/cpu/cpu.c:392-409 | The downward search finds the code. |
| `Interrupts.Cpu.CalcPk` | src/cpu/cpu.c:435-455 | The downward search finds the level due. |
| `Interrupts.Cpu.RecalcInternalInterruptBits` | src/cpu/cpu.c:416-432 | The effect on IID, PID, IIC and CHKIT. |
| `Interrupts.Cpu.Interrupt` | src/cpu/cpu.c:462-518 | The effect of an interrupt on a level. |
| `Interrupts.Cpu.DeviceInterrupts` | src/cpu/cpu.c:520-539 | Only lines 10-13 and 15 reach PID, and a change asks for a check. |
| `Interrupts.Cpu.SetLevel` | src/cpu/cpu_regs.c:38-54 | The new level, the old one remembered. |
| `Interrupts.Cpu.CheckAndSwitch` | src/cpu/cpu.c:638-672 | The level check, keeping the invariant and leaving the level due running. |
| `Interrupts.Cpu.CheckPriv` | src/cpu/cpu_instr.c:73-93 | A privileged instruction outside rings 2 and 3 with paging on raises an internal interrupt. |
| `Interrupts.Cpu.MaskedClear` | src/cpu/cpu_instr.c:1195-1223 | MCL of STS, PID or PIE; the first asks for no check. |
| `Interrupts.Cpu.MaskedSet` | src/cpu/cpu_instr.c:1234-1262 | MST of STS, PID or PIE; the first asks for no check. |
| `Interrupts.Cpu.TransferToRegister` | src/cpu/cpu_instr.c:1460-1515 | TRR of IIE, PID or PIE, which ask for a check, and of STS or PCR, which do not; bits 3-6 of A select the level whose ring PCR gives. |
| `Interrupts.Cpu.WriteLevelStatus` | src/cpu/cpu_instr.c:4857-4869 | The status word of any level written by IRW, or by LRB; it asks for no check. |
| `Interrupts.Cpu.TransferIic` | src/cpu/cpu_instr.c:1304-1316 | TRA IIC returns the code. |
| `Interrupts.Cpu.GiveUp` | src/cpu/cpu_instr.c:1411-1446 | WAIT clears the running level's pending bit, or stops the processor with interrupts off. |
| `Interrupts.Cpu.InterruptsOn` | src/cpu/cpu_instr.c:4783-5129 | ION and PION ask for a check. |
| `Interrupts.Cpu.InterruptsOff` | src/cpu/cpu_instr.c:4754-5025 | IOF and PIOF. |
| `Interrupts.Cpu.SetPaging` | src/cpu/cpu_instr.c:4811-5103 | PON and POF, the second under the privilege test; neither touches the interrupt system. |
| `Interrupts.Cpu.SetErrorIndicator` | src/cpu/cpu_regs.c:151-176 | Setting Z asks for a check, clearing it does not. |
| `Watchpoints.SwapRemoveIsRemoval` | src/cpu/cpu_bkpt.c:529-542 | Removal by swapping takes out one entry and loses or repeats no other. |
| `Watchpoints.RemovedHits` | src/cpu/cpu_bkpt.c:529-542 | An access hits after a removal iff an entry other than the removed one matches it. |
| `Watchpoints.AddedHits` | src/cpu/cpu_bkpt.c:501-526 | An access hits after an add iff the new watchpoint matches or an entry of another key does. |
| `Watchpoints.NoFalseNegative` | src/cpu/cpu_types.h:868-877 | A clear bit never hides a watchpoint, pages taken around included. |
| `Watchpoints.VirtualBitmapExact` | src/cpu/cpu_bkpt.c:482-493 | With a bit for each address the bitmap says exactly which addresses are watched. |
| `Watchpoints.MatchesIff` | src/cpu/cpu_bkpt.c:549-590 | Reads and writes, instruction and data accesses, and levels are told apart; a watchpoint on both, any or every is one for each. |
| `Watchpoints.SlotIsPage` | src/cpu/cpu_bkpt.c:482-493 | The bit of an address is the number of its page as long as there are bits enough. |
| `Watchpoints.Table.Add` | src/cpu/cpu_bkpt.c:501-526 | Adds, or replaces the kind of the same key, or refuses when full; the bitmap stays exact. |
| `Watchpoints.Table.Remove` | src/cpu/cpu_bkpt.c:529-542 | Removes the first entry at an address; the bitmap stays exact. |
| `Watchpoints.Table.Clear` | src/cpu/cpu_bkpt.c:599-607 | No entry is left and no bit. |
| `Watchpoints.Table.RebuildBitmap` | src/cpu/cpu_bkpt.c:482-493 | The bitmap becomes exact. |
| `Watchpoints.Table.CheckSlow` | src/cpu/cpu_bkpt.c:549-590 | Hits iff an entry matches and no hit is left to skip. |
| `Watchpoints.Table.CheckPhysical` | src/cpu/cpu_bkpt.c:696-728 | Hits iff an entry matches. |
| `Watchpoints.Table.Gate` | src/cpu/cpu.c:599-629 | The count, bitmap and value gates answer exactly as the scan would. |
| `Watchpoints.Table.GatePhysical` | src/cpu/cpu_mms.c:1390-1395 | The count and page-map gates answer exactly as the scan would. |

## Left out

- DecimalConvert.Pack: operands longer than 20 bytes are not covered, as the buffer ends there; an empty separate-trailing operand is covered only when it starts in a right byte, for else the code reads a byte before its buffer.
- DecimalConvert.ReadNumber: the same two limits.
- DecimalConvert.ReadSeparateSign: the same two limits.
- DecimalConvert.Unpack: destinations longer than 20 bytes are not covered, as the buffer ends there.
- DecimalInstructions.Machine.AddOrSubtract: digits above 9 are not covered, because the loops give them no integer meaning; of a field the loaded words do not cover the number read is the one loaded, with its last byte zero.
- DecimalInstructions.Machine.AddDecimal: the same two limits.
- DecimalInstructions.Machine.SubtractDecimal: the same two limits.
- DecimalInstructions.Machine.CompareDecimal: the same two limits.
- DecimalInstructions.Machine.ShiftDecimal: the same two limits.
- ConvertInstructions.UnpackDecimal: destinations that end beyond 20 bytes are not covered, as the buffer ends there.
- ConvertInstructions.PackDecimal: the limits of DecimalConvert.Pack; the low bits of A and D that the manual makes point at the illegal byte are not set by the code and so not here.
- MoveBytes.Cpu.Movb: both fields are in one address space, so the two page-table selection bits must agree.
- SegmentTables.Machine.SetNode: page-table words are accessed for ring 3 or paging off, where the access by virtual address needs no translation; the same holds of the nine members below.
- SegmentTables.Machine.SetPageTables: ring 3 or paging off.
- SegmentTables.Machine.ClearNode: ring 3 or paging off.
- SegmentTables.Machine.ClearPageTables: ring 3 or paging off.
- SegmentTables.Machine.EnterDescriptor: ring 3 or paging off.
- SegmentTables.Machine.EnterSegment: ring 3 or paging off.
- SegmentTables.Machine.EnterReentrantSegment: ring 3 or paging off.
- SegmentTables.Machine.SaveDescriptor: ring 3 or paging off.
- SegmentTables.Machine.EraseDescriptor: ring 3 or paging off.
- SegmentTables.Machine.ClearSegment: ring 3 or paging off.
- WorkingSet.Machine.CollectNode: ring 3 or paging off, as above.
- WorkingSet.Machine.ClearAndCollect: ring 3 or paging off, as above.
- PageUse.WorkingSetExact: between SETPT and CLEPU translations alone act; what programs store in plain memory meanwhile is not part of it.
- PageUse.WrittenExact: the same.
- PhysicalMemory.PhysMem.ReadWord: banks backed by a device's own store and the out-of-range interrupt are not part of it; memory beyond the installed words reads as zero.
- PhysicalMemory.PhysMem.WriteWord: the same limits; the exchange of a shared bank is modelled in `TestAndSet`.
- PageTables.PagingTables.GetEntry: a table from 4 to 15 in extended four-table mode is not covered, because the code then reads past the end of its store.
- PageTables.PagingTables.UpdateEntry: a table from 4 to 15 outside the sixteen-table mode is not covered, because the code then writes past the end of its store.
- Translation.MemoryManagement.MapVirtualToPhysical: the status words PGS and PEA that a fault leaves behind, and the trap itself, are outside it; a fault is an outcome.
- TestAndSet.Machine.TestAndSet: the translation of its address is outside it; a trap in either access is a choice of the caller.
- Interrupts.Cpu.GiveUp: the exit code of the stop that WAIT causes with interrupts off is not modelled.
- Privilege checks of the segment instructions, which come before anything they do; they are modelled for the interrupt instructions only.
- The error-correction latch, the locks on PGS and PES, and the debugger-only memory accessors.
- Writes of the high status byte by bit instructions, which bypass the interrupt machine.
- Floating point, device input and output, the panel, the real-time clock and the ND-5000 itself; the second CPU appears only as steps on shared cells.
- Breakpoints with conditions, the debugger thread, tracing, throttling and idle sleep.
- The disassembler, the opcode table, CPU identity and model names, which are finite tables.

# oboromi: verified model

A Dafny model of five connected parts of the emulator, with proofs of what they do.

* **Shader translation** (`Sass`, `Sm86`, `SpirvText`, `SpirvLiteral`, `SpirvStream`, `SpirvEmitter`, `SpirvMachine`,
  `Simulation`, `Translation`). The SPIR-V emitter is an append-only word stream with an ID counter; the decoder turns 128-bit SM86
  words into emitter calls. The stream is proved to be uniquely readable, `validate` to be exact, and the translation of
  every program of AL2P, NOP and KILL to mean the same as the program: a strict interpreter of the emitted module ends
  with the register file of the source shader. Framing and strings follow sections 2.2.1 and 2.3 of the Khronos SPIR-V
  Specification.
* **Kernel** (`Processes`, `Scheduler`, `CpuManager`, `CodeLoader`, `Kernel`, `KernelRun`). Processes are objects in a
  map. A core is its registers and arbitrary hidden state; executing an instruction is an arbitrary function of a core
  and the shared memory; hash maps are enumerated in any order. The invariants of IDs, handles and core slots are kept by every
  operation and in every run, the batched timeslice refines a sequential one, and the code loader is a byte copy.
* **NCA header decryption** (`GaloisField`, `Xts`). The tweak chain is multiplication by alpha in GF(2^128) as in section
  5.2 of IEEE Std 1619-2007, and decryption inverts the encryption of section 5.4, for every block cipher with an inverse.
* **NAND storage** (`Storage`, `Partition`, `Nand`). Five partitions of one device behave as five independent byte arrays
  in every run.
* **Decoder generator** (`Numerals`, `Slices`, `StableSort`, `DecoderGenerator`, `Dispatch`) and **key files** (`Keys`).
  Bit ranges are parsed, split fields are emitted as expressions, and instructions are dispatched by opcode in order of
  name; key files are folded line by line into tables.

`Bits` has the machine-word operations on natural numbers, `Bytes` and `Wrappers` what several parts share. Every
integer width that matters is written out. Where the program panics, a result type says so; arithmetic overflow counts
as a panic, as it does with overflow checks on. The counters `next_id`, `next_pid`, `next_thread_id` and `next_handle`,
and offsets added to lengths, are required not to overflow.

Two places where the repository disagrees with itself, and the model follows what the code does: the table in
`core/src/fs/partition.rs:81` puts the USER partition at block 1069058, the code at 1069090; and
`core/src/gpu/sm86.rs:278` admits register 254, which line 246 then rejects. One place where it disagrees with the
standard: negative 8-bit and 16-bit literals (`core/src/gpu/spirv.rs:32-43`) are zero-extended to a word, where section
2.2.1 of the SPIR-V Specification asks for sign extension.

The dispatch chain of the decoder has 1271 branches on 643 opcodes. `translate` is modelled for any set of opcodes with
a branch that includes AL2P, NOP and KILL; `Dispatch` shows that a chain written for a list of instructions passes over
exactly the words whose opcode none of them has.

## Model

| member | source | states |
|---|---|---|
| `SpirvText.EncodeString` | core/src/gpu/spirv.rs:75-86 | A string of n bytes takes n / 4 + 1 words. |
| `SpirvText.AppendString` | core/src/gpu/spirv.rs:75-86 | The byte loop with its partial word appends exactly the encoding of the string and leaves what was in the buffer. |
| `SpirvText.StringRoundTrip` | core/src/gpu/spirv.rs:75-86 | Decoding the encoding followed by any words gives back the string and exactly those words if and only if the string has no NUL. |
| `SpirvText.StringLayout` | core/src/gpu/spirv.rs:75-86 | Byte 4w + j of the string is byte j, from the lowest, of word w, and the bytes left over are zero. |
| `SpirvStream.WalkInvertsEncode` | core/src/gpu/spirv.rs:211-215 | Walking by word counts recovers an encoded instruction list if and only if every instruction has at most 65534 operand words. |
| `SpirvStream.EncodeOfWalk` | core/src/gpu/spirv.rs:1098-1114 | Whatever the walk accepts is the encoding of the instructions it found: no word is dropped or invented. |
| `SpirvStream.FaultExcludesEncoding` | core/src/gpu/spirv.rs:1103-1112 | A stream with a faulty instruction behind a well-formed prefix is not the encoding of any instruction list. |
| `SpirvStream.FaultUnique` | core/src/gpu/spirv.rs:1098-1114 | The place and the kind of the first fault are determined by the words. |
| `SpirvStream.WellFormedWalk` | core/src/gpu/spirv.rs:1090-1119 | A module is well formed if and only if 0x07230203 comes first and following the word counts from word 5 on ends at the end of the words and meets no no-op with operands. |
| `SpirvStream.Faults` | core/src/gpu/spirv.rs:1102-1112 | The faults of an instruction by the halves of its first word: word count zero, more words than there are, or a no-op with a word count other than one. |
| `SpirvEmitter.EmissionInverse` | core/src/gpu/spirv.rs:211-258 | For every sequence of emit calls after the header whose instructions fit their 16-bit word counts, walking from word 5 recovers the emitted instructions in order, before and after `finalize`, and the module is well formed. |
| `SpirvEmitter.EmissionRecovered` | core/src/gpu/spirv.rs:211-258 | For every sequence of emit calls, without a bound on their operands: walking from word 5 recovers the emitted instructions if and only if every one has at most 65534 operand words. |
| `SpirvEmitter.ResultIdsBelowBound` | core/src/gpu/spirv.rs:193-258 | Result IDs read back out of the finished words are 1, 2, ..., next_id - 1 without repetition; the patched bound word exceeds them all and every other word is unchanged. |
| `SpirvEmitter.ResultIdsOfCalls` | core/src/gpu/spirv.rs:193-236 | The result IDs found by opcode in the emitted instructions are consecutive from the counter on. |
| `SpirvEmitter.EntryPointRecovered` | core/src/gpu/spirv.rs:286-291 | Execution model, function, name and interface list are recovered from the operands of an entry point if and only if the name has no NUL. |
| `SpirvEmitter.BytesRoundTrip` | core/src/gpu/spirv.rs:1121-1128 | The byte form of a module determines its words. |
| `SpirvLiteral.LiteralRecovered` | core/src/gpu/spirv.rs:24-70 | A literal of any of the ten number types is recovered from its words and its type: one word up to 32 bits, two for 64, low word first. |
| `SpirvLiteral.LiteralWords` | core/src/gpu/spirv.rs:24-70 | The words themselves: the value, or its two's complement in the width of its type with zeros above; for 64 bits the low word, then the high word. |
| `SpirvLiteral.NarrowSigned` | core/src/gpu/spirv.rs:32-43 | The one word of a literal below 64 bits is the one the SPIR-V Specification asks for if and only if it is not a negative 8-bit or 16-bit literal: those are zero-extended where sign extension is asked for. |
| `SpirvEmitter.Emitter.AllocId` | core/src/gpu/spirv.rs:193-197 | Returns the counter and advances it; the stream is untouched. |
| `SpirvEmitter.Emitter.EmitInst` | core/src/gpu/spirv.rs:211-215 | Appends exactly the encoding of the instruction: the word count modulo 2^16 in the upper half of the first word, the opcode in the lower, then the operands. |
| `SpirvEmitter.Emitter.TypedUn` | core/src/gpu/spirv.rs:218-222 | Appends the words: header, type, fresh result ID, operand. |
| `SpirvEmitter.Emitter.TypedBin` | core/src/gpu/spirv.rs:225-229 | Appends the words: header, type, fresh result ID, two operands. |
| `SpirvEmitter.Emitter.TypedTri` | core/src/gpu/spirv.rs:232-236 | Appends the words: header, type, fresh result ID, three operands. |
| `SpirvEmitter.Emitter.EmitHeader` | core/src/gpu/spirv.rs:244-251 | Appends the words 0x07230203, 0x00010500, 0, 0, 0 and remembers where the bound goes. |
| `SpirvEmitter.Emitter.Finalize` | core/src/gpu/spirv.rs:254-258 | Replaces the bound word by the counter, if there is one. |
| `SpirvEmitter.Emitter.EmitExtension` | core/src/gpu/spirv.rs:268-272 | Appends a header with opcode 10, then the encoded name. |
| `SpirvEmitter.Emitter.EmitExtInstImport` | core/src/gpu/spirv.rs:274-280 | Appends a header with opcode 11, a fresh result ID, then the encoded name. |
| `SpirvEmitter.Emitter.EmitEntryPoint` | core/src/gpu/spirv.rs:286-291 | Appends a header with opcode 15, then model, function, encoded name and interfaces, in this order. |
| `SpirvEmitter.Emitter.EmitTypeVoid` | core/src/gpu/spirv.rs:347-351 | Appends the words 0x20013, fresh result ID. |
| `SpirvEmitter.Emitter.EmitTypeBool` | core/src/gpu/spirv.rs:353-357 | Appends the words 0x20014, fresh result ID. |
| `SpirvEmitter.Emitter.EmitTypeInt` | core/src/gpu/spirv.rs:359-365 | Appends the words 0x40015, fresh result ID, width, sign. |
| `SpirvEmitter.Emitter.EmitTypeFloat` | core/src/gpu/spirv.rs:367-372 | Appends the words 0x30016, fresh result ID, width. |
| `SpirvEmitter.Emitter.EmitTypeVector` | core/src/gpu/spirv.rs:374-379 | Appends the words 0x40017, fresh result ID, component type, count. |
| `SpirvEmitter.Emitter.EmitTypePointer` | core/src/gpu/spirv.rs:429-433 | Appends the words 0x40020, fresh result ID, storage class, pointee. |
| `SpirvEmitter.Emitter.EmitConstantTyped` | core/src/gpu/spirv.rs:467-473 | Appends a header with opcode 43, type, fresh result ID, then the words of the literal. |
| `SpirvEmitter.Emitter.EmitVariable` | core/src/gpu/spirv.rs:505-509 | Appends the words 0x4003B, type, fresh result ID, storage class. |
| `SpirvEmitter.Emitter.EmitLoad` | core/src/gpu/spirv.rs:517-521 | Appends the words 0x4003D, type, fresh result ID, pointer. |
| `SpirvEmitter.Emitter.EmitStore` | core/src/gpu/spirv.rs:523-525 | Appends the words 0x3003E, pointer, value. |
| `SpirvEmitter.Emitter.EmitIAdd` | core/src/gpu/spirv.rs:642 | Appends the words 0x50080, type, fresh result ID, two operands. |
| `SpirvEmitter.Emitter.EmitNop` | core/src/gpu/spirv.rs:1071-1073 | Appends the word 0x10000. |
| `SpirvEmitter.Emitter.EmitKill` | core/src/gpu/spirv.rs:1081-1083 | Appends the word 0x100FC. |
| `SpirvEmitter.Emitter.Validate` | core/src/gpu/spirv.rs:1090-1119 | Total and exact: accepts if and only if there is a header with the magic and the words from 5 on encode instructions with one-word no-ops; every error names the first fault, and the trailing-data error never occurs. |
| `SpirvEmitter.Emitter.ToBytes` | core/src/gpu/spirv.rs:1122-1128 | The words, each little-endian, in order. |
| `Sass.Decode` | core/src/gpu/sm86.rs:265-283 | What a word stands for, if it translates: opcode 0x918 is a no-op, 0x95b a kill, and 0x920 an AL2P, if its size is 32 bits and its registers are 0 to 253 or 255; nothing else translates. |
| `Sass.StepMeaning` | core/src/gpu/sm86.rs:265-284 | AL2P writes the sum of a register and its offset, modulo 2^32, and nothing else; register 255 reads as zero and is never written; a no-op does nothing; a kill keeps the registers and stops the shader for good. |
| `SpirvMachine.AddMeaning` | core/src/gpu/spirv.rs:642 | In the reference the translation is compared with, opcode 128 defines the sum of two words modulo 2^32. |
| `Sm86.OpcodeBits` | core/src/gpu/sm86_decoder_generated.rs:8 | The expression the dispatch chain compares is bit 91 followed by bits 11 to 0. |
| `Sm86.Al2pDecode` | core/src/gpu/sm86.rs:266-271 | The shift-and-mask expressions of AL2P are the bit fields of the instruction, and opcode 0x920 decodes to them unless a register is 254 or the size field is not zero. |
| `Sm86.Al2pRun` | core/src/gpu/sm86.rs:278-284 | Load, constant, add and store, run on the emitter, are the planned calls of the instruction. |
| `Sm86.ScalarPlan` | core/src/gpu/sm86.rs:207-218 | The first thirteen declarations of the prologue: void, unsigned and signed integers of 8, 16, 32 and 64 bits, floats of 16, 32 and 64 bits, bool. |
| `Sm86.OtherPlan` | core/src/gpu/sm86.rs:219-239 | Behind the scalar types: the vectors of 2, 3 and 4 components of the twelve types, the pointer to unsigned 32-bit words, and 254 variables of that pointer type. |
| `Sm86.Decoder.Init` | core/src/gpu/sm86.rs:207-239 | The prologue emits 13 scalar types, 36 vector types, one pointer type and 254 variables, and leaves the unsigned word type and the register variables at their fixed offsets from the first ID. |
| `Sm86.Decoder.LoadReg` | core/src/gpu/sm86.rs:241-249 | Register 255 is the constant zero, a register below 254 a load of its variable, anything else panics. |
| `Sm86.Decoder.StoreReg` | core/src/gpu/sm86.rs:251-259 | Register 255 drops the write, a register below 254 stores to its variable, anything else panics. |
| `Sm86.Decoder.EmitAl2p` | core/src/gpu/sm86.rs:278-284 | Panics exactly for register 254 or a size that is not 32 bits, and otherwise emits the code of the instruction. |
| `Sm86.Decoder.Al2p` | core/src/gpu/sm86.rs:265-284 | Panics exactly when the word does not decode, and otherwise emits the code of the decoded instruction. |
| `Sm86.Decoder.Nop` | core/src/gpu/sm86.rs:2385-2394 | Emits one no-op. |
| `Sm86.Decoder.Kill` | core/src/gpu/sm86.rs:2011-2022 | Emits one kill. |
| `Sm86.Decoder.Translate` | core/src/gpu/sm86_decoder_generated.rs:5-2551 | Three outcomes, each exactly: a word that decodes is translated to the code of its instruction, opcode 0x918 to OpNop, 0x95b to OpKill, 0x920 to the code of AL2P; a word whose opcode has no branch falls through and leaves the emitter as it was; any other word panics, in an assertion of AL2P or in the body of an instruction that is not implemented. |
| `Simulation.InitSimulates` | core/src/gpu/sm86.rs:207-239 | Executing the prologue succeeds and leaves the 254 register variables distinct, fresh and holding the initial register file. |
| `Simulation.StepSimulates` | core/src/gpu/sm86.rs:241-284 | One translated instruction keeps the machine and the register file related: rd := ra + offset modulo 2^32, 255 reads zero and drops writes, a kill stops both. |
| `Simulation.ProgramSimulates` | core/src/gpu/sm86.rs:265-284 | The same for every list of instructions. |
| `Simulation.TranslationCorrect` | core/src/gpu/sm86.rs:207-284 | A module started, annotated, given the prologue and the code of any instruction list, and finalized, is well formed, executes without getting stuck, and ends with every register variable equal to the register of the source shader and killed exactly when the shader is. |
| `Translation.ProgramSnoc` | core/src/gpu/sm86.rs:265-284 | The code of a program grown by one instruction is the old code followed by the code of the new instruction. |
| `Translation.TranslateWord` | core/src/gpu/sm86_decoder_generated.rs:5-2551 | One more word: it goes on if and only if the word decodes or has no branch, and the emitter then holds the code of the program grown by the word. |
| `Translation.TranslateWords` | core/src/gpu/sm86_decoder_generated.rs:5-2551 | Calling `translate` word by word goes through if and only if every word decodes or has no branch, and then the emitter holds the code of the words that decode, in order. |
| `Translation.TranslateProgram` | core/src/gpu/sm86.rs:207-284 | End to end on the emitter and decoder objects: a module comes out if and only if every word decodes or has no branch, and for every initial register file it computes what the words that decode compute; words without a branch leave no trace. |
| `GaloisField.MulXLinear` | core/src/fs/nca.rs:320-332 | Doubling in the field distributes over XOR. |
| `GaloisField.ModulusVanishes` | core/src/fs/nca.rs:320-332 | The field polynomial times anything is zero, so products are products modulo it. |
| `GaloisField.MulXFirst` | core/src/fs/nca.rs:320-332 | Multiplying by x commutes with products, in either factor. |
| `GaloisField.MulXBijective` | core/src/fs/nca.rs:320-332 | Multiplying by x has an inverse, on both sides. |
| `GaloisField.AlphaAdvances` | core/src/fs/nca.rs:315-316 | Multiplying the j-th tweak by alpha gives the tweak for j + 1. |
| `Xts.ShiftIsMulX` | core/src/fs/nca.rs:321-331 | The byte-wise shift with carry, reduced by the low byte of the polynomial, is multiplication by x on the little-endian value, for every length. |
| `Xts.MulXBytes` | core/src/fs/nca.rs:321-331 | Multiplication by x of a block doubles every byte, takes in the top bit of the byte below, and XORs 0x87 into the first if the top bit of the last was set; no other block is the product. |
| `Xts.GfMulAlpha` | core/src/fs/nca.rs:321-332 | The loop from the top byte down computes multiplication by alpha modulo x^128 + x^7 + x^2 + x + 1, as a value, on the bytes, and as `TimesAlpha`. |
| `Xts.TimesAlphaLinear` | core/src/fs/nca.rs:321-332 | The function the loop computes is linear over XOR on all 16-byte blocks. |
| `Xts.TimesAlphaBijective` | core/src/fs/nca.rs:321-332 | The function the loop computes is a bijection on all 16-byte blocks. |
| `Xts.NextTweak` | core/src/fs/nca.rs:315-316 | Each turn of the loop advances the tweak from alpha^j to alpha^(j+1) times the first. |
| `Xts.SectorRestored` | core/src/fs/nca.rs:290-318 | For every block cipher and its inverse, decrypting an encrypted sector restores it, whatever its length and keys. |
| `Xts.CryptSectorUnits` | core/src/fs/nca.rs:290-318 | For any cipher: there are tweaks, the first the encrypted little-endian sector number under the second key, each next one the product of the last by x, and each whole block, XORed with its tweak, is what the cipher makes of the old block XORed with its tweak. |
| `Xts.XtsDecryptSector` | core/src/fs/nca.rs:290-318 | In place: there are tweaks T_0 = enc(key2, sector number in 8 bytes and 8 zeros), T_(j+1) = x T_j, and every byte of the new block j XOR T_j is the byte of dec(key1, old block XOR T_j); a short last chunk and everything outside the range stay. |
| `Xts.HeaderRestored` | core/src/fs/nca.rs:277-287 | Decrypting an encrypted header restores it. |
| `Xts.XtsDecryptHeader` | core/src/fs/nca.rs:277-287 | In place: each of the first six sectors of 512 bytes that is there is decrypted like that with its number, the first half of the header key for the blocks and the second for the tweaks; the rest of the buffer stays. |
| `Storage.EmulatedStorage.Open` | core/src/fs/storage.rs:32-60 | The backing file keeps the image and is at least as long as the device. |
| `Storage.EmulatedStorage.ReadBlock` | core/src/fs/storage.rs:126-148 | Exactly the addressed block, or the error for the first failing check and an untouched buffer. |
| `Storage.EmulatedStorage.WriteBlock` | core/src/fs/storage.rs:153-181 | Exactly the addressed block changes, or nothing and the error for the first failing check. |
| `Storage.EmulatedStorage.ReadBlocks` | core/src/fs/storage.rs:184-203 | As for one block; bytes of the buffer past the blocks stay. |
| `Storage.EmulatedStorage.WriteBlocks` | core/src/fs/storage.rs:206-231 | As for one block; bytes of the buffer past the blocks are not written. |
| `Storage.EmulatedStorage.ReadBytes` | core/src/fs/storage.rs:236-247 | Exactly the addressed bytes, or an error past the capacity and an untouched buffer. |
| `Storage.EmulatedStorage.WriteBytes` | core/src/fs/storage.rs:250-267 | Exactly the addressed bytes change; write protection is checked before the bounds. |
| `Storage.WriteThenReadBlock` | core/src/fs/storage.rs:126-231 | Blocks written at once by `write_blocks` come back one by one from `read_block`, whichever block is read; the write is accepted if and only if the device is not protected and the range ends inside it, and then the read is, too. |
| `Partition.DefaultTableTiles` | core/src/fs/partition.rs:84-147 | The five partitions are non-empty, adjacent, and fill the space between the GPT areas if and only if the device has room for a last block. |
| `Partition.FindOwnEntry` | core/src/fs/partition.rs:163-166 | Every partition ID finds its own entry. |
| `Partition.Extents` | core/src/fs/partition.rs:84-147 | Looking a partition up on the 32 GB device gives its extent, inside the device. |
| `Partition.EntryNumbers` | core/src/fs/partition.rs:84-147 | First and last block of the entry that each of the five names finds: 34-2081, 2082-4129, 4130-20513, 20514-1069089, 1069090-8388574. |
| `Partition.Geometry` | core/src/fs/partition.rs:84-147 | First byte and size of each partition in numbers, for blocks of 4096 bytes on a device of 32 GB. |
| `Partition.ExtentsDisjoint` | core/src/fs/partition.rs:84-147 | Extents of different partitions do not overlap. |
| `Partition.PartitionTable.ReadPartition` | core/src/fs/partition.rs:175-194 | Reads the partition's bytes if and only if the range ends inside the partition; otherwise the buffer stays. |
| `Partition.PartitionTable.WritePartition` | core/src/fs/partition.rs:197-216 | Writes the partition's bytes if and only if the range ends inside the partition and writing is allowed; otherwise nothing changes. |
| `Nand.ReadLands` | core/src/fs/partition.rs:175-194 | The device bounds check never rejects a read the partition check accepted. |
| `Nand.ReadRefines` | core/src/fs/mod.rs:51-53 | A read is a read of the partition's own byte array. |
| `Nand.WriteOwn` | core/src/fs/mod.rs:56-58 | A write is a write to the partition's own byte array; the device bounds check never rejects what the partition check accepted. |
| `Nand.WriteOther` | core/src/fs/mod.rs:56-58 | A write leaves every other partition as it was. |
| `Nand.WriteOutside` | core/src/fs/mod.rs:56-58 | A write leaves the first 34 blocks, the last 33 and the rest of the file as they were. |
| `Nand.RunRefines` | core/src/fs/mod.rs:41-64 | Every run of reads, writes and write-protect changes gives the replies, and leaves the contents, of five independent byte arrays. |
| `Nand.Nand.Read` | core/src/fs/mod.rs:51-53 | The reply and the buffer are those of the device value; a failed read leaves the buffer. |
| `Nand.Nand.Write` | core/src/fs/mod.rs:56-58 | The reply and the new contents are those of the device value. |
| `Processes.Process.CreateMainThread` | core/src/sys/process.rs:157-166 | A ready thread under a new ID, named after the process, with the program counter at the entry, the stack pointer at the stack top, all registers zero, and priority 44; the process invariant is kept. |
| `Processes.Process.CreateThread` | core/src/sys/process.rs:168-176 | A ready thread under a new ID with the given priority, the program counter at the entry, the stack pointer at the stack top and all registers zero; the process invariant is kept. |
| `Processes.Process.MapMemory` | core/src/sys/process.rs:179-186 | Appends the region. |
| `Scheduler.BatchIsSequential` | core/src/sys/kernel.rs:134-173 | Loading all contexts, stepping all cores in order on shared memory, then saving all contexts leaves the same memory, cores and threads as doing the three for one core after the other. |
| `Scheduler.SequentialFrame` | core/src/sys/kernel.rs:134-173 | Threads that were not chosen and cores without a thread are untouched; chosen threads change nothing but context and state. |
| `Scheduler.SequentialStep` | core/src/sys/kernel.rs:134-173 | A chosen thread runs from its own program counter, stack pointer and registers, on the memory the cores before it left, and is left running with those its core then has. |
| `Scheduler.SequentialStays` | core/src/sys/kernel.rs:134-173 | The cores after it leave a thread and the core it ran on as they are. |
| `Scheduler.SequentialIsTimeslice` | core/src/sys/kernel.rs:134-173 | The sequential timeslice in whole: there are memories, from the first to the last, between which the chosen threads take their turns on the first cores; every other thread and core stays. |
| `CpuManager.CpuManager.Step` | core/src/cpu/unicorn_interface.rs:94-102 | One instruction of one core on the shared memory; the other cores stay. |
| `CpuManager.CpuManager.LoadContext` | core/src/sys/kernel.rs:140-146 | The register-by-register copy leaves the core with the program counter, the stack pointer and the registers of the context, and otherwise as it was. |
| `CpuManager.CpuManager.SaveContext` | core/src/sys/kernel.rs:163-168 | The register-by-register copy saves exactly the core's registers, stack pointer and program counter, and keeps the rest of the context. |
| `Kernel.Kernel.CreateProcess` | core/src/sys/kernel.rs:52-59 | A process under the next ID with the given name and code range, without threads and with its thread counter at 1; the process counter advances by one, everything else stays and the kernel invariant is kept. |
| `Kernel.Kernel.CreateMainThread` | core/src/sys/kernel.rs:62-77 | Nothing for an unknown process; otherwise one new thread of the machine under the process counter and one new handle for it under the handle counter, both of which advance by one while the other counters stay, with all invariants kept: keys agree with IDs, IDs are below their counters, every handle names an existing thread and no two the same. |
| `Kernel.Kernel.CreateThread` | core/src/sys/process.rs:168-176 | One new thread of the machine under the process counter, which advances by one, without a handle, with all invariants kept. |
| `Kernel.Kernel.AllocHandle` | core/src/sys/kernel.rs:95-100 | A new handle for a thread that has none. |
| `Kernel.Kernel.MapProcessMemory` | core/src/sys/kernel.rs:80-91 | Appends the region to the process, if it exists, and changes nothing else. |
| `Kernel.Kernel.CollectReady` | core/src/sys/kernel.rs:124-131 | Every thread exactly once, whatever order the maps are enumerated in. |
| `Kernel.Kernel.AssignToCores` | core/src/sys/kernel.rs:133-149 | Exactly the first cores are filled, with the first ready threads, and hold their contexts. |
| `Kernel.Kernel.ExecuteCores` | core/src/sys/kernel.rs:151-156 | Exactly the filled cores step, in order. |
| `Kernel.Kernel.SaveContexts` | core/src/sys/kernel.rs:158-173 | Every filled core is saved to its own thread. |
| `Kernel.Kernel.Step` | core/src/sys/kernel.rs:122-174 | From any state the invariants allow: exactly the first min(8, number of threads) core slots are filled, by different existing threads, none stale; each of those threads executes one instruction on its core from its own program counter, stack pointer and registers, in the order of the cores on the shared memory, and is saved with those the core then has; every other thread and core stays, and the invariants are kept. |
| `Kernel.Kernel.AllReady` | core/src/sys/kernel.rs:123-131 | The schedulable threads are all the threads there are. |
| `Kernel.Kernel.NoStaleSlot` | core/src/sys/kernel.rs:133-149 | The new assignment covers every slot the last one filled. |
| `Kernel.TakenFills` | core/src/sys/kernel.rs:133-149 | With at most eight threads the slots taken are all threads, with more they are eight: what `step` promises of its core slots. |
| `KernelRun.ServeNext` | core/src/sys/kernel.rs:52-174 | One more request of any kind (create a process, a main thread or a thread, map, register, connect, timeslice), in any state a run can reach, is answered as plain bookkeeping answers it, keeps the kernel invariant, and a timeslice fills the core slots. |
| `KernelRun.Run` | core/src/sys/kernel.rs:34-174 | Every run of a new kernel: all invariants hold after every request, all replies, counters, handles, ports and threads are those of the bookkeeping, and a timeslice leaves exactly the first min(8, number of threads) slots filled. |
| `KernelRun.RunNumbered` | core/src/sys/kernel.rs:52-100 | In every run process IDs, thread IDs and handles are consecutive from 1, 1 and the first handle on; the threads are exactly those ever created, every handle names one of them and no two handles the same. |
| `KernelRun.ConnectGivesLast` | core/src/sys/kernel.rs:105-113 | In every run, connecting to a port gives the handle registered last under its name, whatever happened in between, and nothing if there was none. |
| `CodeLoader.LoadedIsCopy` | core/src/sys/kernel.rs:203-225 | Code that fits leaves the old memory with exactly the code bytes spliced in; all of the code lands if and only if it fits. |
| `CodeLoader.CopiedIfFits` | core/src/sys/kernel.rs:203-225 | Code that fits: byte k of it is byte vaddr + k of the memory, and every other byte is as it was. |
| `CodeLoader.WithByte` | core/src/sys/kernel.rs:216-219 | Clearing and setting a shifted byte changes one byte of the word and no other. |
| `CodeLoader.Align` | core/src/sys/kernel.rs:214-215 | The masks give the aligned address and the place in the word. |
| `CodeLoader.ByteByWord` | core/src/sys/kernel.rs:212-220 | Reading, changing and writing the aligned word writes one byte. |
| `CodeLoader.LoadWord` | core/src/sys/kernel.rs:207-209 | Writing one more whole word extends the copy by its four bytes. |
| `CodeLoader.LoadByte` | core/src/sys/kernel.rs:210-220 | Writing one more trailing byte extends the copy by it. |
| `CpuManager.CpuManager.LoadChunks` | core/src/sys/kernel.rs:203-224 | The loop over words and trailing bytes leaves the loaded memory, for any address, alignment and length. |
| `Kernel.Kernel.LoadCode` | core/src/sys/kernel.rs:203-225 | Code that ends within the 12 GB of memory is copied byte for byte, and every other byte stays; in any case memory is the loaded memory, nothing else changes, and the whole length is reported. |
| `Slices.PutExtract` | scripts/decoder_generator.rs:111-122 | A slice written is read back, and no slice apart from it is touched. |
| `Slices.ExtractIsDivision` | scripts/decoder_generator.rs:111-122 | Bits start to end of a word are the word divided by 2^start, modulo 2^(end - start + 1). |
| `Slices.MergedBound` | scripts/decoder_generator.rs:124-135 | The merged slices are below two to the total width. |
| `Slices.MergedDeposit` | scripts/decoder_generator.rs:124-135 | Whatever is deposited in disjoint slices is what the merge returns. |
| `Slices.MergedIgnores` | scripts/decoder_generator.rs:124-135 | Bits outside the slices do not matter. |
| `DecoderGenerator.ParseSlices` | scripts/decoder_generator.rs:62-74 | Succeeds if and only if the tokens describe slices that fill the field exactly, and then returns that field, those slices and the tokens behind them. |
| `DecoderGenerator.WrittenDescribes` | scripts/decoder_generator.rs:62-74 | The text of a field, the numerals in decimal with any leading zeros, first its width and for each slice the last bit and then the first, describes that field. |
| `Numerals.TextParsed` | scripts/decoder_generator.rs:62-68 | A numeral in any radix up to 16, leading zeros and a plus sign allowed, is parsed to its number, if that is below the limit of the type, and to nothing otherwise. |
| `DecoderGenerator.StmtMaskExtracts` | scripts/decoder_generator.rs:111-122 | The shift-and-mask expression is the slice, with or without a shift. |
| `DecoderGenerator.GetMultiMergeStmt` | scripts/decoder_generator.rs:124-135 | Panics exactly when a slice has 64 bits or more or the slices are wider than the field; the emitted OR of shifts is the most-significant-first concatenation of the slices, moved up by the bits left over, in a word of 128 bits; no bound on the width of the field. |
| `DecoderGenerator.GetMultiCmpStmt` | scripts/decoder_generator.rs:137-148 | The emitted comparison holds exactly for the words whose slices carry the value. |
| `DecoderGenerator.FieldStatement` | scripts/decoder_generator.rs:62-135 | A statement is emitted if and only if the tokens describe a field and its slices are below 64 bits, and then it ends at shift 0. |
| `DecoderGenerator.SplitFieldCorrect` | scripts/decoder_generator.rs:124-135 | The emitted expression of a field with disjoint slices is below two to its width, returns a value deposited in the slices if and only if it fits in 128 bits, its low 128 bits otherwise. |
| `DecoderGenerator.SplitFieldIgnores` | scripts/decoder_generator.rs:124-135 | The emitted expression of a field does not depend on any bits outside its slices. |
| `DecoderGenerator.RemoveEmpty` | scripts/decoder_generator.rs:161-171 | The swap-remove loop terminates and keeps exactly the fields with slices, each as often as it occurred. |
| `DecoderGenerator.CleanFields` | scripts/decoder_generator.rs:161-174 | The sort never meets a field without slices, and the first slices of the remaining fields start in ascending order. |
| `StableSort.SortStable` | scripts/decoder_generator.rs:172-175 | Elements that tie keep their order. |
| `StableSort.StableSortUnique` | scripts/decoder_generator.rs:172-175 | Order and stability leave one possible result, so any stable sort returns this one. |
| `Dispatch.LexLeIsBefore` | scripts/decoder_generator.rs:175 | A name sorts before another if and only if it is a prefix of it or has the smaller character where they first differ. |
| `Dispatch.FirstIsLeast` | scripts/decoder_generator.rs:175-199 | The first match in order of name is the least matching name: a prefix of every other, or smaller where they first differ. |
| `Dispatch.OpcodeBranch` | scripts/decoder_generator.rs:188-197 | The branch test holds exactly for the words with the instruction's opcode. |
| `Dispatch.WriteChain` | scripts/decoder_generator.rs:175-199 | For every instruction list whose entries have the opcode as their only fixed field, the chain picks for each word the name, among the instructions with its opcode, that is for each other one a prefix of it or smaller where they first differ; and nothing when there is none. |
| `Dispatch.OpcodeIsMerged` | core/src/gpu/sm86_decoder_generated.rs:8 | The opcode slices of the generated chain are the 13-bit opcode. |
| `Dispatch.PassedOver` | core/src/gpu/sm86_decoder_generated.rs:5-2551 | A chain over instructions with these opcode slices calls no handler for exactly the words whose opcode none of the instructions has. |
| `Keys.HexRoundTrip` | core/src/fs/keys.rs:144-152 | Bytes written in hexadecimal are decoded to themselves. |
| `Keys.LinesJoined` | core/src/fs/keys.rs:49 | The lines of a text, with line feeds between, are the text. |
| `Keys.WrittenEntry` | core/src/fs/keys.rs:49-61 | A line with a name, an equals sign and bytes in hexadecimal, with white space around either and blanks between the digits, gives the name in lower case and those bytes. |
| `Keys.SaysNothing` | core/src/fs/keys.rs:50-55 | Blank lines, comments that start with ; or #, and lines without an equals sign say nothing. |
| `Keys.EnsureLen` | core/src/fs/keys.rs:160-164 | Pads with zero keys up to the length and keeps what is there. |
| `Keys.StoreKey` | core/src/fs/keys.rs:73-104 | After a line with this prefix, the table still holds what the lines so far say. |
| `Keys.ParseLine` | core/src/fs/keys.rs:49-107 | After each line the key set holds what the lines so far say. |
| `Keys.Parse` | core/src/fs/keys.rs:46-110 | The tables of the prefixes key_area_key_application_, key_area_key_system_, key_area_key_ocean_ and title_kek_ each have a key for a generation if and only if some line has the prefix and names that generation or a later one; the key is the last one given for it, or zeros; header key and raw map are the last ones given, too. |
| `Keys.LastDecides` | core/src/fs/keys.rs:63-106 | The last line that gives a value decides it, and without any there is none. |
| `Keys.WrittenKeyFound` | core/src/fs/keys.rs:46-110 | A line of one of the four prefixes, in either case, an index in hexadecimal digits, an equals sign and the 32 digits of a key: if no later line gives that index behind that prefix, the key is in the table of the prefix under that index. |
| `Keys.WrittenHeaderKey` | core/src/fs/keys.rs:63-69 | The header key is the one on the last header_key line with 32 bytes. |
| `Keys.AreaKey` | core/src/fs/keys.rs:113-141 | The key an NCA asks for by index and generation: index 1 asks for key_area_key_ocean_, 2 for key_area_key_system_, any other for key_area_key_application_. |
| `Keys.KeyLookup` | core/src/fs/keys.rs:113-120 | Looking up an application, system or ocean key gives the last key written behind that prefix for the generation, zeros when only a later generation is named, and nothing otherwise. |

## Left out

- The other instructions: all handlers but AL2P, NOP and KILL stop at `todo!()`, which the model counts as a panic like that of a failed assertion.
- The predicate and scheduling fields of an instruction: the program extracts and ignores them.
- The other emit methods: they have the shapes of those modelled (result first, type then result, no result).
- Typing of vector components: the prologue passes slots it never assigned and drops the results, so nothing is claimed about those operands, and the interpreter does not check them.
- Order and typing rules of SPIR-V modules: `validate` does not check them; the interpreter only demands what the translated code needs.
- Function structure of a shader: the program emits no function around the code it translates.
- Sm86.Decoder.Translate: of the generated chain only the branches of the three implemented instructions are written out; the set of the other opcodes that have one is a parameter.
- Printing of the generated expressions: they are trees with an evaluator, not text; names of fields and handlers are text only.
- Reading the OPCODES and CLASS sections, and the HTML output: text handling without properties of its own.
- Instructions with several fixed fields: the generator joins their comparisons without an operator, so there is no expression to speak of.
- DecoderGenerator.GetMultiMergeStmt: a shift by 128 or more, which only a field of more than 128 bits gives and which a compiler rejects in the generated code, is evaluated to 0.
- KernelRun.Run: at most 0xFFFEF000 requests, so that the handle counter cannot overflow; what a request does to contexts, memory and memory maps is stated for the request (`Kernel.Step`, `MapProcessMemory`, `LoadCode`), not again for the run.
- Fairness of the scheduler: with more than eight threads nothing rotates them, so none is claimed.
- Removal of threads, and states other than ready and running: nothing in the modelled code produces them.
- `handle_svc`, the service stubs, `boot` and the `booted` flag: constant results, or a straight-line script.
- The emulator library and its errors: instruction execution is an arbitrary function that keeps the size of memory.
- AES itself: any family of block functions with an inverse.
- Host file errors, flushing, and the seek position of the backing file: the file is a byte array of at least the device's capacity.
- `find_by_name`, read-only opening, and GUID contents: lookups by name with case folding and data without further use.
- `NcaHeader` field copying and section reading: long and easy.
- Keys.Parse: text is ASCII, and an index of 2^64 - 1, whose successor overflows, or one too large for the host's memory, is counted like any other.
- Lines that end in a carriage return alone: they are one line here as in the program; trimming removes the character at the ends.

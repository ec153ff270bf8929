# Extemory core in Dafny

Extemory is a C# library for working with process memory on Windows:
- it reads and writes typed values, arrays and strings in the current process (`IntPtrExtensions`) and in another process (`ProcessExtensions`);
- it hooks functions with two inline detour engines;
- it walks machine code through a disassembler;
- it tracks per-process state in registries, and injects and ejects libraries.

This project models that core as pure Dafny functions over an explicit memory, `map<int, byte>`. Every operating-system call becomes a parameter carrying its report:
- the success flag and byte count of `ReadProcessMemory`/`WriteProcessMemory` (`Memory.Transfer`);
- the address `VirtualAlloc` returns;
- the handle `OpenProcess` returns;
- the outcome of a remote thread (`Injection.ThreadRun`);
- the results of `LoadLibraryEx`/`GetProcAddress`.

Exceptions become `Wrappers.Result` errors. An error kind is named after what the source throws:
- `Win32` for a `Win32Exception`;
- `ShortTransfer` for a byte-count mismatch;
- `AccessViolation` for a fault from raw pointer access;
- `BadArgument` for an `ArgumentException`, and so on.

The modules follow the program:

| module | models |
|---|---|
| `Bytes` | Little-endian integer layout, as `BitConverter` produces it, with 32/64-bit wrap-around. |
| `Memory` | The address space, with loads, stores, allocation and release. |
| `Codec` | The per-type-code encode and decode shared by both accessors. It includes the `sizeof(T)` versus `Marshal.SizeOf(T)` distinction. |
| `Text` | The string terminators and the two null-terminator scanners. |
| `LocalAccess` | `IntPtrExtensions`. |
| `RemoteAccess` | `ProcessExtensions`. |
| `Disassembly` | `Disassembler.Disassemble`. |
| `JumpDetour` | `MemoryEdits.Detour<T>`, the `JMP rel32` hook with a trampoline. |
| `PushDetour` | `Detours.Detour<T>`, the `PUSH imm32; RET` hook. |
| `EditRegistry` | `MemoryEditManager`. |
| `Hooking` | `IntPtrExtensions.DetourWith`. |
| `ProcessRegistry` | `ProcessMemoryManager`. |
| `Injection` | `InjectedModule` and `ProcessExtensions.InjectLibrary`. |

`Wrappers` and `Seqs` are support modules: results and options, and small sequence facts.

## Model

| member | source | states |
|---|---|---|
| Codec.DecodeEncodeValue | src/Extemory/ProcessExtensions.cs:41-82 | Decoding the bytes a value is encoded to gives the value back, for every type code. Bytes after the value are ignored. |
| Codec.EncodeDecodeValue | src/Extemory/ProcessExtensions.cs:97-134 | For every type code except `bool`, encoding what was decoded from `sizeof(T)` bytes gives those bytes back. |
| Codec.UnpackPack | src/Extemory/IntPtrExtensions.cs:197-247 | An array laid out element after element unpacks to the same elements, whatever follows it. |
| Codec.UnpackAt | src/Extemory/IntPtrExtensions.cs:154-189 | Element i of an unpacked array is the value decoded at byte offset i × element size. |
| Memory.ReadProcessMemory | src/Extemory/ProcessExtensions.cs:26-31 | A read transfer succeeds exactly when the call reports success with the full count over mapped memory. It then yields the bytes there; otherwise it is a `Win32` error or a short-transfer error. |
| Memory.WriteProcessMemory | src/Extemory/ProcessExtensions.cs:139-140 | A write transfer succeeds exactly when the call reports success with the full count over mapped memory. It then stores the bytes; otherwise it is a `Win32` error. |
| LocalAccess.Read | src/Extemory/IntPtrExtensions.cs:25-82 | A local read succeeds exactly when `sizeof(T)` bytes are mapped. The value re-encodes to those bytes; a `bool` is true exactly when its byte is non-zero. |
| LocalAccess.Write | src/Extemory/IntPtrExtensions.cs:90-145 | A local write stores exactly the value's `sizeof(T)` encoded bytes and changes no other address. |
| LocalAccess.ReadAfterWrite | src/Extemory/IntPtrExtensions.cs:25-145 | Writing a value and reading it back at the same address returns the value, for every type tag. |
| LocalAccess.ReadArray | src/Extemory/IntPtrExtensions.cs:154-189 | Only byte, char, short, int, long, float and double arrays are accepted; any other type is an argument error before anything else happens. A negative count is the overflow error of `new T[count]`. Then a null address is refused by `Marshal.Copy`, even for a count of zero. Otherwise the read succeeds exactly when count × size bytes are mapped, and faults when they are not. |
| LocalAccess.ReadArrayElements | src/Extemory/IntPtrExtensions.cs:154-189 | Element i read from an array re-encodes to the bytes stored at addr + i × size. |
| LocalAccess.WriteArray | src/Extemory/IntPtrExtensions.cs:197-247 | (corrected, see Findings) Only the seven element types are accepted, and a refused type writes nothing. A write needs length × `sizeof(T)` mapped bytes and changes nothing outside them. |
| LocalAccess.WriteArrayAsWritten | src/Extemory/IntPtrExtensions.cs:197-247 | (as written, see Findings) Only the seven element types are accepted. The transfer covers length × `Marshal.SizeOf(T)` bytes and succeeds exactly when they are mapped; a failure is a `Win32` error. |
| LocalAccess.WriteArrayAsWrittenAgrees | src/Extemory/IntPtrExtensions.cs:197-247 | For every element type but char, the array write as written and the corrected one leave the same memory. |
| LocalAccess.ReadArrayAfterWriteArray | src/Extemory/IntPtrExtensions.cs:154-247 | Writing an array and reading the same number of elements back returns the array; at the null address the read is refused instead. |
| LocalAccess.BytesAreByteArrays | src/Extemory/IntPtrExtensions.cs:154-247 | The byte-array helpers used by the detours are exactly `ReadArray`/`WriteArray` with element type byte. |
| LocalAccess.ReadBytesAtUint | src/Extemory/IntegerExtensions.cs:97-100 | A byte-array read through a `uint` address succeeds exactly below 2^31, for a non-negative count, away from the null address, over mapped bytes, and then returns those bytes. At or above 2^31 it is the overflow error of `new IntPtr(long)` in a 32-bit process, as is a negative count. |
| LocalAccess.ReadStringBoundedAsWritten | src/Extemory/IntPtrExtensions.cs:275-322 | (as written, see Findings) An encoding other than UTF-8, Unicode and ASCII is refused before any read, and a negative `maxSize` is the overflow error of `new byte[maxSize]`. A null address is then refused by the byte-array read, and unmapped bytes fault. With a one-byte terminator the string is the decoding of the bytes before the first zero of the `maxSize` bytes read. For UTF-16 it is the decoding of the bytes before the first `00 00` at any offset, aligned or not; when there is none and the last byte is zero, the scan indexes past the end. |
| LocalAccess.ReadStringBounded | src/Extemory/IntPtrExtensions.cs:275-322 | (corrected, see Findings) The same read with the terminator searched at terminator-width strides. The same encodings, negative sizes and null address are refused, and exactly `maxSize` bytes are read. For UTF-16 the string is the decoding of the bytes before the first `00 00` at an even offset. Without one, an even-length buffer is kept whole and an odd-length one makes the scan index past the end. |
| LocalAccess.BoundedReadsAgreeOffUnicode | src/Extemory/IntPtrExtensions.cs:284-302 | For every encoding but UTF-16 the compared-count scan and the stride scan read the same string. |
| LocalAccess.ReadString | src/Extemory/IntPtrExtensions.cs:255-266 | ASCII and Unicode go to the unbounded marshal readers, which return the null string (`None`) for the null address. Otherwise they scan memory in units of the one- or two-byte terminator. The read succeeds exactly when memory holds whole non-terminator units followed by the terminator, and it faults exactly when the scan steps past such units onto an unmapped one. UTF-8 goes to the bounded read with 1024 bytes, which refuses the null address; every other encoding is refused. |
| LocalAccess.WriteString | src/Extemory/IntPtrExtensions.cs:331-344 | The encoded string, followed by the encoded NUL when asked, is stored byte for byte at addr. No encoding is refused and nothing else changes. |
| LocalAccess.BoundedReadAfterWrite | src/Extemory/IntPtrExtensions.cs:275-344 | A string whose encoding holds no terminator chunk reads back through the bounded read as the decoding of its own bytes. This holds when written with its NUL into `maxSize` mapped bytes away from the null address, which the read refuses. |
| LocalAccess.ReadStringAfterWrite | src/Extemory/IntPtrExtensions.cs:255-266 | The same round trip through the unbounded ASCII and Unicode readers; at the null address they return the null string. |
| LocalAccess.ScanMemoryOfWritten | src/Extemory/IntPtrExtensions.cs:257-264 | Scanning memory that holds a body followed by the terminator yields exactly the body, when no terminator-width chunk of the body is the terminator. |
| LocalAccess.ScanMemoryOk | src/Extemory/IntPtrExtensions.cs:257-264 | The unbounded scan returns `body` exactly when memory at the address holds `body` and then the terminator, with `body` made of whole terminator-width units none of which is the terminator. |
| LocalAccess.ScanMemoryFound | src/Extemory/IntPtrExtensions.cs:257-264 | The unbounded scan succeeds exactly when memory holds some such body followed by the terminator. |
| LocalAccess.ScanMemoryFails | src/Extemory/IntPtrExtensions.cs:257-264 | The unbounded scan faults exactly when, for some k, units 0 to k-1 are mapped and are not the terminator while unit k is not mapped. |
| RemoteAccess.Read | src/Extemory/ProcessExtensions.cs:22-85 | The read transfers `SystemDefaultCharSize` bytes for char and `Marshal.SizeOf(T)` otherwise. A failed call is a `Win32` error and a short count another error. A custom struct is refused only after the transfer; otherwise the value re-encodes to the bytes read. |
| RemoteAccess.Write | src/Extemory/ProcessExtensions.cs:87-141 | A custom struct is refused before anything is written. Otherwise the value's `sizeof(T)` bytes, with `IntPtr` at pointer width, are written in one checked transfer that changes nothing else. |
| RemoteAccess.ReadAfterWrite | src/Extemory/ProcessExtensions.cs:22-141 | A value written and read back with complete transfers is the value, including a `bool`, which is written as 1 byte and read as 4. |
| RemoteAccess.ReadMatchesLocal | src/Extemory/ProcessExtensions.cs:22-85 | With a complete transfer, a cross-process read returns what a local read of the same memory returns. |
| RemoteAccess.ReadArray | src/Extemory/ProcessExtensions.cs:143-196 | (corrected, see Findings) A negative count is the out-of-memory error of `AllocHGlobal`. Otherwise the read transfers count × `sizeof(T)` bytes and checks the call and the count; the element type is checked only afterwards. A read succeeds exactly when all three checks pass, with count elements. |
| RemoteAccess.ReadArrayAsWritten | src/Extemory/ProcessExtensions.cs:143-196 | (as written, see Findings) The same checks, with count × `Marshal.SizeOf(T)` bytes transferred; a successful read yields count elements of the element type. |
| RemoteAccess.WriteArray | src/Extemory/ProcessExtensions.cs:198-252 | (corrected, see Findings) The element type is checked before anything is written; then one checked transfer of length × `sizeof(T)` bytes follows. |
| RemoteAccess.WriteArrayAsWritten | src/Extemory/ProcessExtensions.cs:198-252 | (as written, see Findings) The element type is checked before anything is written. The transfer covers length × `Marshal.SizeOf(T)` bytes and succeeds exactly when it is complete over mapped memory; a failure is a `Win32` error. |
| RemoteAccess.ReadArrayAfterWriteArray | src/Extemory/ProcessExtensions.cs:143-252 | An array written and read back with complete transfers is the array. |
| RemoteAccess.ArraysAsWrittenAgree | src/Extemory/ProcessExtensions.cs:145-252 | For every element type but char, the array code as written and the corrected code coincide. |
| RemoteAccess.ReadString | src/Extemory/ProcessExtensions.cs:254-312 | Other encodings are refused before reading, and a negative `maxSize` is the out-of-memory error of `AllocHGlobal`. Success needs a complete transfer of exactly `maxSize` bytes. With a one-byte terminator the string is the decoding of the bytes before the first zero. For UTF-16 it is the decoding of the bytes before the first `00 00` at an even offset; without one, an odd-length buffer is an index error. |
| RemoteAccess.WriteString | src/Extemory/ProcessExtensions.cs:314-323 | The encoded string, plus the encoded NUL when asked, is written in one checked transfer. No encoding is refused. |
| RemoteAccess.ReadStringAfterWrite | src/Extemory/ProcessExtensions.cs:254-323 | A string without terminator chunks, written with its NUL, reads back through the bounded read as the decoding of its bytes. |
| RemoteAccess.ReadStringMatchesLocal | src/Extemory/ProcessExtensions.cs:254-312 | With a complete transfer from a non-null address, the cross-process string read equals the corrected local bounded read. |
| Text.StrideScanStopsAt | src/Extemory/ProcessExtensions.cs:288-307 | The stride scan stops at the first terminator-aligned match and keeps every byte before it. |
| Text.StrideScanWhole | src/Extemory/ProcessExtensions.cs:288-307 | A buffer that is a whole number of strides without an aligned match is kept entirely. |
| Text.StrideScanRagged | src/Extemory/ProcessExtensions.cs:288-307 | A buffer that is not a whole number of strides and has no aligned match makes the scan index past the end. |
| Text.ComparedScanStopsAt | src/Extemory/IntPtrExtensions.cs:284-302 | The compared-count scan stops at the first offset, aligned or not, where the terminator matches, and keeps the bytes before it. |
| Text.ComparedScanWhole | src/Extemory/IntPtrExtensions.cs:284-302 | Without a match, and with a non-zero last byte, the compared-count scan keeps the whole buffer. |
| Text.ComparedScanRagged | src/Extemory/IntPtrExtensions.cs:284-302 | When no offset from the current one on matches the terminator and the last byte is zero, the compared-count scan indexes past the end. |
| Text.ComparedScanFirst | src/Extemory/IntPtrExtensions.cs:284-302 | The compared-count scan keeps exactly the bytes before the first offset where the terminator matches. Without a match it keeps the whole buffer, unless the last byte is zero, when it indexes past the end. |
| Text.StrideScanFirst | src/Extemory/ProcessExtensions.cs:288-307 | The stride scan keeps exactly the bytes before the first aligned match. Without one it keeps a buffer that is a whole number of strides and fails on any other. |
| Text.ScannersAgreeOnOneByte | src/Extemory/IntPtrExtensions.cs:284-302 | With a one-byte terminator both scanners keep exactly the bytes before the first zero. |
| Text.TerminatedPrefixUtf16 | src/Extemory/ProcessExtensions.cs:288-307 | For UTF-16 the kept byte count is even. The kept bytes are a prefix, ending at the buffer's end or at an aligned `00 00`. The scan fails exactly when the buffer length is odd and holds no aligned `00 00`. |
| Text.TerminatedPrefixOfWritten | src/Extemory/ProcessExtensions.cs:261-307 | A body followed by its terminator and anything else scans to exactly the body, when no aligned chunk of the body is the terminator. |
| Text.BeforeFirstZeroSpec | src/Extemory/IntPtrExtensions.cs:284-302 | The bytes before the first zero are a zero-free prefix, ending at a zero or at the end. |
| Disassembly.BufferSize | src/Extemory/Disassembly/Disassembler.cs:16-23 | (corrected, see Findings) The buffer size is `min((maxCount == 0 ? 100 : maxCount) × 15, 4096)` in unbounded arithmetic. It is at least one maximum-length instruction for a non-negative count and negative otherwise. |
| Disassembly.BufferSizeAsWritten | src/Extemory/Disassembly/Disassembler.cs:16-23 | (as written, see Findings) The size as computed in 32-bit `int`: a signed 32-bit value, never more than 4096. |
| Disassembly.BufferSizeWraps | src/Extemory/Disassembly/Disassembler.cs:16-23 | (as written, see Findings) maxCount 0x7777_7778 wraps to an 8-byte buffer, 0x1000_0000 to a negative size, and −0x1000_0000 to 4096 bytes. The unbounded sizing gives 4096, 4096 and a negative size. |
| Disassembly.BufferSizesAgree | src/Extemory/Disassembly/Disassembler.cs:16-23 | Whenever the product fits in 32 bits, the 32-bit computation as written equals the unbounded one. |
| Disassembly.ChainedExtend | src/Extemory/Disassembly/Disassembler.cs:45-51 | Each next address is the previous instruction's address plus its length, modulo 2^32. |
| Disassembly.Disassemble | src/Extemory/Disassembly/Disassembler.cs:11-76 | (corrected, see Findings) Nothing runs until an instruction is asked for. A null start is an argument error. With the corrected sizing a negative count gives a negative buffer size, which is the overflow error of `new byte[size]`. At most `maxCount` instructions are yielded when it is positive. Each yielded instruction is decoded from a 15-byte window of the bytes at its address, and the next address follows it. Iteration ends exactly at an `UNKNOWN_OPCODE` decode. The instruction bytes and every refill are read through the `uint` address overload, which overflows from 2^31 up, so every yielded instruction lies below 2^31. A mapped start at or above 2^31 yields nothing and ends either at `UNKNOWN_OPCODE` or with the overflow error. For a non-null start and a non-negative count, any other exception is one of two things. It is either an access violation of the first buffer read, or exactly the exception of that `uint` read at the next address: overflow, null address or access violation. |
| JumpDetour.New | src/Extemory/MemoryEdits/Detour.cs:23-39 | A type that is not a delegate with the attribute is refused by the static constructor, which surfaces as a type-initialisation error. A null target is then refused when it is turned into a delegate. Otherwise the detour is created exactly when the 5 target bytes are mapped, and reading unmapped bytes faults. A new detour saves exactly the 5 bytes at the target, is not applied and has no trampoline. |
| JumpDetour.JumpRoundTrip | src/Extemory/MemoryEdits/Detour.cs:140-151 | The 5 bytes `E9` + le32(t − a − 5) written at a transfer control to t, modulo 2^32. |
| JumpDetour.TakenIsShortest | src/Extemory/MemoryEdits/Detour.cs:61-72 | The instructions copied are the shortest run of whole instructions reaching 5 bytes, or all of them when the decoder stops first. |
| JumpDetour.CopyOutCopied | src/Extemory/MemoryEdits/Detour.cs:61-72 | The copied byte count is the summed length of exactly those whole instructions. |
| JumpDetour.CopyOutLays | src/Extemory/MemoryEdits/Detour.cs:61-72 | The trampoline receives those instructions' bytes in order, and nothing outside that range changes. |
| JumpDetour.Apply | src/Extemory/MemoryEdits/Detour.cs:45-81 | Apply is a no-op when already applied. With a leftover trampoline it raises an invalid-operation error and changes nothing. Otherwise it records the trampoline, and when it finishes the target holds a jump to the hook and the detour is applied. |
| JumpDetour.ApplyLayout | src/Extemory/MemoryEdits/Detour.cs:55-80 | Given a fresh page and the disassembler's records of the target's code, Apply installs the detour. The trampoline starts with a copy of the target's first copied bytes, followed by a jump back to target + copied count. The target holds the jump to the hook, and only the committed page and the target's 5 bytes change. |
| JumpDetour.FlattenFromTarget | src/Extemory/MemoryEdits/Detour.cs:62-67 | Records read back to back from the target, below 2^32, hold exactly the target's bytes. |
| JumpDetour.TrampolineOverrun | src/Extemory/MemoryEdits/Detour.cs:55-75 | (as written, see Findings) A 4-byte instruction followed by a 15-byte one is copied whole: 19 bytes, so the jump back ends 24 bytes in, past the 15 requested. |
| JumpDetour.TrampolineRequestCovers | src/Extemory/MemoryEdits/Detour.cs:55-75 | (corrected, see Findings) With instructions of at most 15 bytes, the copied bytes plus the jump back never exceed 24. A 24-byte request commits the same page as the 15-byte one. |
| JumpDetour.ApplyJumpsLand | src/Extemory/MemoryEdits/Detour.cs:74-78 | After Apply, the target's jump lands on the hook and the trampoline's jump lands on target + copied count. |
| JumpDetour.ApplyAfterEarlyStop | src/Extemory/MemoryEdits/Detour.cs:62-78 | When the decoder stops before 5 bytes are copied, Apply still patches the target. The jump back then lands inside the overwritten 5 bytes. |
| JumpDetour.Remove | src/Extemory/MemoryEdits/Detour.cs:83-93 | Remove is a no-op when not applied. Otherwise it restores the saved bytes and frees the trampoline, but neither `IsApplied` nor the trampoline field is reset. |
| JumpDetour.RemoveAfterApply | src/Extemory/MemoryEdits/Detour.cs:45-93 | Apply then Remove gives the target its original 5 bytes and unmaps the trampoline, while the detour still says applied. |
| JumpDetour.ReapplyAfterRemove | src/Extemory/MemoryEdits/Detour.cs:48-49 | Because Remove leaves `IsApplied` set, a later Apply does nothing and the hook stays off. |
| JumpDetour.Dispose | src/Extemory/MemoryEdits/Detour.cs:120-131 | Dispose removes, then frees a non-null trampoline again. A failed restore is the Remove error. |
| JumpDetour.DisposeApplied | src/Extemory/MemoryEdits/Detour.cs:120-131 | Disposing an applied detour puts the saved bytes back at the target. |
| PushDetour.New | src/Extemory/Detours/Detour.cs:17-35 | A delegate type without the attribute is refused. A null target is then refused when it is turned into a delegate, and unmapped target bytes fault. Otherwise the 6 target bytes are saved, the hook address is narrowed to 32 bits (overflowing on 64-bit), and the patch is `68`, the hook address, `C3`. |
| PushDetour.PatchRoundTrip | src/Extemory/Detours/Detour.cs:32-34 | The patch is 6 bytes framed by the two opcodes, and the address it pushes is the hook. |
| PushDetour.Apply | src/Extemory/Detours/Detour.cs:39-52 | Apply writes the patch and sets `IsApplied`. A failed write returns false with nothing changed. |
| PushDetour.Remove | src/Extemory/Detours/Detour.cs:54-67 | Remove writes the saved bytes back and clears `IsApplied`. A failed write returns false with nothing changed. |
| PushDetour.ApplyThenRemove | src/Extemory/Detours/Detour.cs:30-58 | Apply then Remove leaves memory exactly as it was. |
| PushDetour.ApplyIdempotent | src/Extemory/Detours/Detour.cs:39-52 | Applying twice is applying once. |
| PushDetour.CallOriginal | src/Extemory/Detours/Detour.cs:69-75 | CallOriginal removes, calls, then applies. The detour is applied afterwards even if it was not before; a throwing call skips the re-apply. |
| PushDetour.CallOriginalIsApply | src/Extemory/Detours/Detour.cs:69-75 | When nothing throws, CallOriginal ends exactly as Apply does. |
| PushDetour.Dispose | src/Extemory/Detours/Detour.cs:79-86 | Dispose removes only when applied. |
| PushDetour.DisposeAfterApply | src/Extemory/Detours/Detour.cs:79-86 | Disposing a fresh detour, or an applied one, leaves memory as it was before the apply. |
| EditRegistry.Get | src/Extemory/MemoryEdits/MemoryEditManager.cs:20-24 | The getter returns the edit stored at the address, or null. |
| EditRegistry.Set | src/Extemory/MemoryEdits/MemoryEditManager.cs:25-32 | An edit already at the address is disposed first, even when it is the new edit itself. Then the new edit is stored and no other address changes. A throwing disposal leaves the table as it was. |
| EditRegistry.GetAfterSet | src/Extemory/MemoryEdits/MemoryEditManager.cs:25-32 | After a set, the getter returns the new edit there and the old answer everywhere else. |
| EditRegistry.Dispose | src/Extemory/MemoryEdits/MemoryEditManager.cs:42-49 | Every stored edit is disposed in enumeration order and the table is then emptied. An exception stops the loop with the table intact. The state is then the one left by the disposals before the throwing one, which keep their effect. |
| EditRegistry.DisposeNeverThrowing | src/Extemory/MemoryEdits/MemoryEditManager.cs:42-49 | When no disposal throws, disposing the manager always succeeds. |
| EditRegistry.ForProcess | src/Extemory/MemoryEdits/MemoryEditManager.cs:62-70 | The call returns the process's manager, creating an empty one on first use. Each call subscribes the exit handler once more. |
| EditRegistry.ForProcessStable | src/Extemory/MemoryEdits/MemoryEditManager.cs:62-70 | Asking twice gives the same manager and creates nothing the second time. |
| EditRegistry.ProcessExited | src/Extemory/MemoryEdits/MemoryEditManager.cs:72-79 | On exit, the process's manager is disposed and its id removed. Other processes' managers are unchanged. A throwing disposal keeps the entry, leaves the table as `ForProcess` left it, and keeps the effect of the disposals before it. |
| Hooking.DetourWith | src/Extemory/IntPtrExtensions.cs:380-387 | With the previous edit at the address disposed before the new detour saves its bytes, a successful hook is registered at the target, applied, and jumps to the hook. |
| Hooking.DetourWithAsWritten | src/Extemory/IntPtrExtensions.cs:380-387 | The same for the code as written, where the new detour is built before the manager disposes the old edit. |
| ProcessRegistry.NewManager | src/Extemory/Processes/ProcessMemoryManager.cs:24-28 | A new manager has handle 0 and no injected modules. |
| ProcessRegistry.ForProcess | src/Extemory/Processes/ProcessMemoryManager.cs:82-96 | The call returns the process's manager, creating it on first use. |
| ProcessRegistry.ForProcessStable | src/Extemory/Processes/ProcessMemoryManager.cs:82-96 | Asking twice gives the same manager and creates nothing. |
| ProcessRegistry.Handle | src/Extemory/Processes/ProcessMemoryManager.cs:30-42 | A cached handle is returned as is. Otherwise the process is opened with QueryInformation, CreateThread, VMOperation, VMWrite and VMRead; a failed open is a `Win32` error and caches nothing. |
| ProcessRegistry.HandleCached | src/Extemory/Processes/ProcessMemoryManager.cs:30-42 | After one successful open, every later access returns the same handle without opening again. |
| ProcessRegistry.HandleRetries | src/Extemory/Processes/ProcessMemoryManager.cs:36-38 | After a failed open, the next access tries again. |
| ProcessRegistry.Dispose | src/Extemory/Processes/ProcessMemoryManager.cs:54-68 | A non-zero handle is closed and reset to 0; the module table is kept. |
| ProcessRegistry.DisposeIdempotent | src/Extemory/Processes/ProcessMemoryManager.cs:54-61 | Disposing twice closes nothing the second time. |
| ProcessRegistry.HandleAfterDispose | src/Extemory/Processes/ProcessMemoryManager.cs:30-68 | After Dispose, the next handle access opens the process again. |
| Injection.NewModule | src/Extemory/Injection/InjectedModule.cs:20-26 | A new module stores its name, base and process, with an empty export cache. |
| Injection.RebaseKeepsOffset | src/Extemory/Injection/InjectedModule.cs:168-172 | The rebased export lies at the same pointer-width offset from the remote base as the local export lies from the local module. |
| Injection.RebaseExact | src/Extemory/Injection/InjectedModule.cs:168-172 | Without overflow, the rebased export is exactly base + (pFunc − hModule). |
| Injection.FindExport | src/Extemory/Injection/InjectedModule.cs:146-183 | A cached name is returned without loading anything. An uncached lookup fails with `Win32` when the load or lookup returns 0, leaving the cache unchanged; otherwise it caches the rebased address. A loaded module is always freed. |
| Injection.FindExportCaches | src/Extemory/Injection/InjectedModule.cs:148-151 | A second lookup of a resolved name is answered from the cache, whatever the loader would return. |
| Injection.CallExport | src/Extemory/Injection/InjectedModule.cs:55-107 | An unregistered module is refused before the export is resolved. The thread argument is a fresh copy of the data exactly when data, size and type are all given, and 0 otherwise. Signalled and timed-out waits both return the exit code; anything else is a `Win32` error. The argument and the thread handle are released. |
| Injection.CallExportReusesExport | src/Extemory/Injection/InjectedModule.cs:146-173 | A second call on the updated module starts the thread at the same export. |
| Injection.Eject | src/Extemory/Injection/InjectedModule.cs:109-144 | An unregistered module is refused. The remote `FreeLibrary(base)` runs, and a zero exit code is its own error; the module stays registered. |
| Injection.FileName | src/Extemory/ProcessExtensions.cs:368-372 | The file name is the longest separator-free suffix of the path. |
| Injection.ModuleName | src/Extemory/ProcessExtensions.cs:368-372 | A given non-empty name is used; otherwise the file name of the path. |
| Injection.LoadRemote | src/Extemory/ProcessExtensions.cs:397-420 | The path is written to the allocation, and a thread runs `LoadLibraryW` on it only after a complete write. The non-zero exit code is the module base; a zero exit code is its own error. |
| Injection.InjectLibrary | src/Extemory/ProcessExtensions.cs:362-434 | A missing file is refused before any call, and a duplicate name leaves the registry unchanged. An injection succeeds exactly when the name is new and every step succeeds: both loader addresses are non-zero, the handle opens, the allocation is non-zero, the whole path is written, and the thread starts, is signalled and returns a readable non-zero exit code. A zero exit code is the no-module-base error, and every other failure is a Win32 error. Success registers name to module; a failure registers nothing, and other processes are untouched. |
| Injection.InjectRefusesDuplicate | src/Extemory/ProcessExtensions.cs:374-376 | Injecting again under a name already injected is refused and changes nothing. |
| Injection.InjectedModuleRegistered | src/Extemory/Injection/InjectedModule.cs:57-59 | A module returned by a successful injection passes the registration guards of `CallExport` and `Eject`. |

## Left out

- **Win32 calls** are parameters, not code:
  - `OpenProcess`, `VirtualAlloc(Ex)`, `VirtualFree(Ex)`, `ReadProcessMemory`, `WriteProcessMemory`;
  - `CreateRemoteThread`, `WaitForSingleObject`, `GetExitCodeThread`, `CloseHandle`;
  - `LoadLibraryEx`, `GetProcAddress`, `FreeLibrary`, `GetModuleHandle`.
  Their effect is the reported success, count, handle or address.
- Concurrency of the remote threads and the meaning of a timeout are not modelled. Only the return-code checks are.
- BeaEngine's decoder is an uninterpreted function `decode: seq<byte> -> int`. Instructions are `(address, length, bytes)` records. Relocation of relative operands copied to the trampoline is not modelled, as the source does not do it either.
- `float` and `double` are opaque 4- and 8-byte patterns; no floating-point value is interpreted.
- `Encoding.GetBytes`/`GetString` and the ANSI decoding of `Marshal.PtrToStringAnsi` are uninterpreted functions of a `TextCodec` (`getBytes`, `getString`, `ansiString`). The memory scans of both marshal readers are concrete (`LocalAccess.ScanMemory`). `Marshal.PtrToStringUni` is that scan up to `00 00`, followed by `getString(Unicode, ·)`. Only the terminators are concrete: one zero byte for ASCII and UTF-8, `00 00` for UTF-16LE, as in section 3.9 of the Unicode Standard.
- The cross-process accessors refuse a custom struct, as their default branches do.
- LocalAccess.Read: the struct fallback `Marshal.PtrToStructure` is approximated. A `Struct(size)` value is read as its `size` raw bytes, which is what the marshaller does for a blittable struct; field conversion of other structs is not modelled.
- LocalAccess.Write: likewise, `Marshal.StructureToPtr` of a `Struct(size)` value stores its raw bytes.
- LocalAccess.Write: the source's `IntPtr` case also falls through to `StructureToPtr` of the same pointer; that second store is of the same bytes and is not modelled separately.
- `CallOriginal` of both detours: the call itself (`DynamicInvoke`, `ToDelegate`, `Debugger.Break`) is not modelled. For `Detours.Detour<T>` only its effect on the patch state is modelled; `MemoryEdits.Detour<T>.CallOriginal` changes no state and is left out.
- Finalizers and `GC.SuppressFinalize` are not modelled, because they depend on garbage-collector timing.
- The `Exited` event subscription is a count of handlers per process. Whether `EnableRaisingEvents` lets it fire is not modelled.
- Raw pointer access to an unmapped address faults in the source; the model returns an `AccessViolation` error instead of crashing.
- Memory.WriteProcessMemory: a failed write is assumed to leave memory unchanged. The OS does not promise this, since a partial copy can happen before the failure is reported. PushDetour.Apply and PushDetour.Remove rely on this assumption when they report `false` with memory as it was.
- Injection.CallExport: the byte count reported by the data copy's `WriteProcessMemory` is not checked by the source, so the model checks only the call's success flag, as the source does.
- Injection.InjectLibrary returns the registered module value; object identity between the returned and the registered instance is not modelled.
- The `GetExitCodeThread` code is taken as an integer already narrowed to 32 bits, so a module base above 4 GiB is not modelled.
- JumpDetour.Apply: `code` is what the disassembler yielded before it stopped. If the disassembler throws instead (for example when its 1500-byte staging read faults), the source's exception leaves `_trampoline` set and the detour unapplied. The model treats that stop like the end of the code.
- JumpDetour.Apply: records are at most 15 bytes long, as x86 instructions are. The trampoline is the page `VirtualAlloc` commits, 4096 bytes, of which Apply uses at most 24.
- Disassembly.Disassemble: the staging allocation `Allocate(IntPtr.Zero, (uint)bufferSize)` is not modelled, because the walk only reads the staged copy of the bytes.
- RemoteAccess.ReadArray: `Marshal.SizeOf(T) * count` is computed in 32-bit `int` in the source; the model multiplies without wrap-around, so byte sizes of 2^31 and more are not modelled. The same holds for RemoteAccess.ReadArrayAsWritten, RemoteAccess.WriteArray, RemoteAccess.WriteArrayAsWritten, LocalAccess.WriteArray and LocalAccess.WriteArrayAsWritten.
- RemoteAccess.ReadString: the source's default `maxSize` of 1024 is the caller's choice in the model.
- x64 support for the jump detour (14-byte jumps) is not modelled. The source has no x64 path; `JumpDetour` addresses are 32-bit.
- `ProcessStartInfoExtensions`, `ProcessExtensions.Resume` and `DelegateExtensions` are not modelled. They cover process creation, thread plumbing and one-line wrappers.
- `IntegerExtensions` is modelled only for the byte-array read the disassembler uses (`LocalAccess.ReadBytesAtUint`). Its other `uint` overloads forward through the same `new IntPtr(addr)`, so they also overflow from 2^31 up, but no modelled operation calls them.
- The library targets 32-bit processes. In a 64-bit process `new IntPtr(long)` does not overflow, so `uint` addresses from 2^31 up would be read; that case is not modelled.
- `IMemoryEdit` is an interface without behaviour. The edit registry takes the element type and its disposal as parameters instead.

## Findings

| source | as written | input that shows it | evidently intended | confidence | as-written member | corrected member |
|---|---|---|---|---|---|---|
| src/Extemory/IntPtrExtensions.cs:199,210-213 | A `char[]` write sizes the staging buffer and the transfer with `Length × Marshal.SizeOf(char)` = 1 byte per char, but chars are 2 bytes. `Marshal.Copy(chars, 0, temp, data.Length)` copies 2n bytes into the n-byte `AllocHGlobal` buffer, a heap overrun, and only the first n bytes of the array reach memory. | Writing `['䉁']` to zeroed memory and reading one char back gives `'A'` (0x41). | Transfer 2 bytes per char, so a char array reads back unchanged. | not executed | LocalAccess.WriteArrayAsWritten, LocalAccess.CharArrayLosesHighByte | LocalAccess.WriteArray, LocalAccess.ReadArrayAfterWriteArray |
| src/Extemory/ProcessExtensions.cs:145,161-164,201,213-216 | Cross-process char arrays transfer 1 byte per char but copy 2 bytes per char through the staging buffer. The high half is lost on write and read from beyond the transferred bytes. | Writing `['䉁']` and reading it back with complete transfers gives `'A'` when the stale staging byte is 0. | Size the transfer with the 2-byte char, so char arrays round-trip. | not executed | RemoteAccess.WriteArrayAsWritten, RemoteAccess.ReadArrayAsWritten, RemoteAccess.CharArrayRoundTripFails | RemoteAccess.WriteArray, RemoteAccess.ReadArray, RemoteAccess.ReadArrayAfterWriteArray |
| src/Extemory/IntPtrExtensions.cs:284-302 | The bounded local string scan advances by the count of bytes compared, so the UTF-16 terminator `00 00` can match at an odd offset. | "AB" written as UTF-16 with its NUL (`41 00 42 00 00 00`) reads back as the decoding of `41 00 42`. | Step by terminator width, as the cross-process reader does, so the string reads back as the decoding of `41 00 42 00`. | not executed | LocalAccess.ReadStringBoundedAsWritten, LocalAccess.Utf16ReadBackTruncated | LocalAccess.ReadStringBounded, LocalAccess.BoundedReadAfterWrite |
| src/Extemory/Disassembly/Disassembler.cs:16-23 | `maxCount × 15` is computed in 32-bit `int`, so a large count wraps. The product can land below 15 bytes, or go negative and make the buffer allocation throw. A negative count can also wrap to a positive size, and the walk then has no count cap. | maxCount = 0x7777_7778 gives a buffer of 8 bytes; maxCount = 0x1000_0000 gives a negative size; maxCount = −0x1000_0000 gives 4096 bytes. | Cap at 4096 without wrap-around, so every decode sees at least 15 bytes. | not executed | Disassembly.BufferSizeAsWritten, Disassembly.BufferSizeWraps | Disassembly.BufferSize, Disassembly.Disassemble |
| src/Extemory/IntPtrExtensions.cs:380-387 | `DetourWith` constructs the new detour, which saves the target's bytes, before the manager disposes the detour already at that address. The bytes saved are therefore the old detour's jump. | Hooking an already hooked function: the new detour's saved bytes are the old `E9` jump to the old hook. | Dispose the old edit first, so the saved bytes are the function's own. | not executed | Hooking.DetourWithAsWritten, Hooking.ReHookAsWrittenSavesOldJump | Hooking.DetourWith, Hooking.ReHookSavesRestoredBytes |
| src/Extemory/MemoryEdits/Detour.cs:55-56,62-75 | The trampoline request is `JumpSize * 3` = 15 bytes, but the copied instructions plus the jump back can take 24. The bytes past the 15th land in the rest of the page `VirtualAlloc` commits, so nothing faults. | A 4-byte instruction followed by a 15-byte one: 19 bytes are copied and the jump back takes bytes 19 to 23. | Request room for the longest trampoline, 4 + 15 + 5 = 24 bytes, which commits the same page. | not executed; the overrun stays inside the committed page | JumpDetour.TrampolineOverrun | JumpDetour.TrampolineRequestCovers |

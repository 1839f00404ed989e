# mmap objects of the Skybison runtime, in Dafny

This project models the native half of Python's `mmap` module in the Skybison
runtime: the constructor `_mmap_new`, which validates a request and builds an
`mmap` object, and the method `mmap.close`, which releases it.

- `words.dfy` (module `Words`): the runtime's `word`, a signed 64-bit
  integer, with its two's-complement bit pattern and the C operators `|` and
  `&` defined bit by bit. Lemmas say what each bit of a result is, that a word
  is zero exactly when no bit is set, and that a mask test `(x & m) != 0` with
  a single-bit mask reads that bit.
- `mmap_types.dfy` (module `MmapTypes`): the object's hidden fields (`access`,
  `data`, `fd`), the raised exceptions, the system-call outcomes, the calls
  the code performs (a trace used to state what happened before an error),
  the platform constants, and the object invariant `Valid`.
- `mmap_new.dfy` (module `MmapNew`): the size and offset check for regular
  files (`CheckSize`), the MAP_ANONYMOUS adjustment (`AdjustFlags`), the access
  flags (`DeriveAccess`) and the whole constructor (`New`), with lemmas about
  the mapping it makes.
- `mmap_close.dfy` (module `MmapClose`): `close` and the invariant it keeps.

The system calls are not executed; their outcomes are inputs. `fstat`
becomes `Fstat` (failed, or succeeded with a regular-file flag and a size);
`fcntl(F_DUPFD_CLOEXEC)` and `mmap` become `Syscall` (returned a value, or
failed with an errno); `File::close` becomes the integer it returns (negative
means minus the errno). What the code does with those outcomes is modelled
exactly: the order of the checks, the three `ValueError` messages, which call
runs before which error, and which fields change. The arguments are read as
64-bit words, but `fstat`, `fcntl` and `mmap` take the descriptor, `prot` and
`flags` as C `int`s; the recorded calls carry those narrowed values
(`Words.CInt`).

## Model

| member | source | states |
|---|---|---|
| MmapNew.CheckSize | runtime/mmap-module.cpp:63-79 | No check runs unless `fstat` says the descriptor is a regular file. For a regular file and length 0: rejected as an empty file when the size is 0, as an offset past the end when `offset >= size`, otherwise accepted with length `size - offset`, so `offset + length == size` and the length is positive. For a non-zero length: accepted, unchanged, exactly when the range does not start past the end and ends inside the file; otherwise "mmap length is greater than file size". Every accepted length for a regular file is non-zero and ends within the file. |
| MmapNew.AdjustFlags | runtime/mmap-module.cpp:85-87 | With descriptor -1 the flags gain the MAP_ANONYMOUS bit and keep every other of their 64 bits; with any other descriptor they are unchanged. |
| MmapNew.AdjustFlagsKeepsAnonymous | runtime/mmap-module.cpp:86 | Flags that already hold MAP_ANONYMOUS are returned unchanged by the adjustment. |
| MmapNew.DeriveAccess | runtime/mmap-module.cpp:97-106 | Access starts clear; readable iff `prot` holds the PROT_READ bit, writable iff it holds the PROT_WRITE bit, copy-on-write iff the final flags equal MAP_PRIVATE exactly, which implies the MAP_PRIVATE bit is set and MAP_ANONYMOUS is not. |
| MmapNew.AnonymousNeverCopyOnWrite | runtime/mmap-module.cpp:85-106 | A mapping made with descriptor -1 is never copy-on-write, even when it was requested with exactly MAP_PRIVATE. |
| MmapNew.New | runtime/mmap-module.cpp:53-110 | A length or offset rejected by `CheckSize` makes the constructor raise exactly that ValueError after only `fstat`, with no duplication and no `mmap`. Conversely, every ValueError comes from such a rejection. An anonymous request calls only `mmap`, with the request's length and offset, the C `int` of its `prot` and of its flags with MAP_ANONYMOUS added, and descriptor -1. A file-backed request calls `fstat` first. A failed duplication raises its OSError before `mmap`. Otherwise it duplicates its own descriptor and calls `mmap` on the duplicate with the checked length, the request's offset and the C `int` of its `prot` and flags. A failed `mmap` raises OSError with that call's errno. `mmap` runs exactly when the checks and the duplication passed, and the constructor succeeds exactly when `mmap` then succeeds. The new object satisfies `Valid`, holds the mapped address with the mapped length, and holds descriptor -1 for an anonymous mapping and the duplicated descriptor otherwise. |
| MmapNew.MapFailureKeepsDuplicate | runtime/mmap-module.cpp:81-91 | When `mmap` fails after a successful duplication, the constructor raises OSError with the `mmap` errno and closes nothing, so the duplicated descriptor stays open. |
| MmapNew.NewMapsWithinRegularFile | runtime/mmap-module.cpp:63-89 | For a regular file, the `mmap` call gets the requested offset and a non-zero length that ends within the file. A zero request maps exactly to the end of the file, and a non-zero request keeps its length. |
| MmapNew.NewPassesThroughNonRegular | runtime/mmap-module.cpp:63-89 | When `fstat` fails or the file is not regular, no ValueError is possible. After a successful duplication, the calls are exactly `fstat`, `fcntl` and `mmap`. `mmap` receives the length and offset unchanged and the C `int` narrowing of `prot` and `flags`. |
| MmapNew.NewFlags | runtime/mmap-module.cpp:81-89 | Only a file-backed request duplicates its descriptor. Its `mmap` flags are the C `int` of its flags. An anonymous request reaches `mmap` with descriptor -1 and its length and offset unchanged. Its flags fit a C `int`, have the MAP_ANONYMOUS bit set, and keep every other of the low 32 request bits. |
| MmapNew.WideFlagsPrivateNotCopyOnWrite | runtime/mmap-module.cpp:89-106 | Copy-on-write is decided on the 64-bit flags, but `mmap` sees only the low 32 bits. Flags of MAP_PRIVATE plus bit 32 reach `mmap` as exactly MAP_PRIVATE, yet the object is not copy-on-write. |
| Words.CInt | runtime/mmap-module.cpp:89 | Passing a word where C takes an `int` yields a value in the signed 32-bit range with the same low 32 bits. A word already in that range is unchanged. |
| MmapNew.NewAccess | runtime/mmap-module.cpp:97-106 | On a new object, readable and writable follow the PROT_READ and PROT_WRITE bits of `prot`. Copy-on-write holds exactly for a file-backed request whose flags are MAP_PRIVATE. |
| MmapClose.Close | runtime/mmap-module.cpp:112-134 | A receiver that is not an mmap object raises TypeError. The descriptor is closed exactly when the object holds one (`fd >= 0`). When the object holds a descriptor (`fd >= 0`) and closing it fails, close raises OSError(errno) and leaves `fd` and `data` as they were. Otherwise `fd` becomes -1 and `access` is kept. A non-null mapping is freed last and `data` becomes `None`. A null pointer is left in place. Memory is released only after a successful close. Only the object's own pointer and length are ever released. A successful close makes exactly the descriptor close (when `fd >= 0`) and the release (when the pointer is non-null), in that order. |
| MmapClose.CloseKeepsValid | runtime/mmap-module.cpp:121-132 | `close` preserves `Valid`: the descriptor is -1 or non-negative, and an object without data holds no descriptor. |
| MmapClose.CloseAfterNew | runtime/mmap-module.cpp:107-132 | An object fresh from the constructor can be closed. When the descriptor closes cleanly, the object is left with descriptor -1 and, for a non-null mapping, no data. |
| Words.WordBitwise | runtime/mmap-module.cpp:86 | Each of the 64 bits of the bitwise OR or AND of two words is that operator applied to the same bit of each operand, on the two's-complement encoding. |
| Words.MaskTest | runtime/mmap-module.cpp:98-103 | For a mask holding the single bit `k`, `(x & mask) != 0` holds exactly when bit `k` of `x` is set. |

## Left out

- The system calls themselves: `fstat`, `fcntl(F_DUPFD_CLOEXEC)`, `mmap`, `File::close` and `OS::freeMemory`. Their outcomes are inputs. `FreeCall` records the release. The conversion of errno into the right `OSError` subclass is not modelled.
- `fcntl` return convention: the code tests the returned descriptor for `< 0`. The model folds that test into `Syscall.Failed`. The same holds for the `MAP_FAILED` test on `mmap`.
- MmapNew.CheckSize: does not model 64-bit wrap-around of `st_size - offset`. Lengths, offsets and sizes are unbounded integers. The C subtraction can overflow only for offsets near -2^63. The Python-level wrapper that calls `_mmap_new`, and whatever range checks it makes, is not part of this model.
- The conversion of a negative `word` length to the `size_t` that `mmap` receives is not modelled: the model hands `mmap` the signed length as an input, since `mmap` itself is an input.
- Argument unpacking (`Arguments`, `intUnderlying(...).asWord()`), handle scopes, the `type` argument and instance allocation, and the `Pointer`/`Int` heap objects are runtime plumbing. The object is modelled as its three fields.
- `MmapModule::initialize`, `kBuiltinTypes` and `kAttributes` only register constants and the object layout. The constants the two functions test take their Linux values: PROT_READ 1, PROT_WRITE 2, MAP_PRIVATE 2, MAP_ANONYMOUS 0x20. PROT_EXEC and MAP_SHARED are only registered, so they are not modelled.
- MmapClose.Close: requires the `data` field to hold a pointer object. The code reads that field as a pointer without a check, and a successful close of a non-null mapping leaves `None` there. A second close of such an object is therefore outside the model, and no idempotence is claimed.
- The TODO about buffer exporters in `close`: the code does not act on it.
- MmapClose.Close: `CloseCall` records the descriptor as stored in the object, with no narrowing. The signature of `File::close` is not part of this model. The constructor only stores -1 or a descriptor returned by `fcntl`.

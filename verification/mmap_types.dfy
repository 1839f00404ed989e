/** The values the mmap module's native functions work on: the `mmap` object's
    three hidden fields, the errors they raise, the outcomes of the system
    calls they make (which the model takes as inputs), and the platform
    constants they test. */
module MmapTypes {
  import opened Words

  // Platform constants, with their Linux values. Each is a single bit.
  const PROT_READ: Word := 0x1
  const PROT_WRITE: Word := 0x2
  const MAP_PRIVATE: Word := 0x2
  const MAP_ANONYMOUS: Word := 0x20

  /** Bit positions of the single-bit constants above. */
  const PROT_READ_BIT: nat := 0
  const PROT_WRITE_BIT: nat := 1
  const MAP_PRIVATE_BIT: nat := 1
  const MAP_ANONYMOUS_BIT: nat := 5

  /** The Python exceptions raised by the mmap functions. */
  datatype Error =
    | ValueError(message: string)
    | OSError(errno: int)
      /** A method called on a receiver that is not of the named type. */
    | TypeError(expected: string)

  const EMPTY_FILE := "cannot mmap an empty file"
  const OFFSET_TOO_LARGE := "mmap offset is greater than file size"
  const LENGTH_TOO_LARGE := "mmap length is greater than file size"

  datatype Result<+T> = Ok(value: T) | Err(error: Error)

  /** What `fstat` reports about a descriptor: the call failed, or it
      succeeded with the file's type (regular or not) and its size. */
  datatype Fstat = FstatFailed | FstatOk(isRegular: bool, size: int)

  /** The outcome of a system call that either returns a value or fails
      with an errno. */
  datatype Syscall = Returned(value: nat) | Failed(errno: int)

  /** Access flags of a mapping, all clear until the constructor sets them. */
  datatype Access = Access(readable: bool, writable: bool, copyOnWrite: bool)

  const NO_ACCESS := Access(false, false, false)

  /** The `data` field: `None`, or a pointer object holding the mapped
      address (0 is the null pointer) and the mapped length. */
  datatype Data = NoData | Pointer(address: nat, length: int)

  /** The hidden fields of an `mmap` instance. */
  datatype Mmap = Mmap(access: Access, data: Data, fd: int)

  /** The receiver of `close`: an mmap instance or any other object. */
  datatype Object = MmapInstance(mmap: Mmap) | OtherInstance

  /** A system call or release the native code performs, in the order it
      performs them, with the arguments it receives (descriptors, `prot` and
      `flags` as C `int`s). */
  datatype Call =
    | FstatCall(fd: int)
    | DupCall(fd: int)
    | MapCall(length: int, prot: Word, flags: Word, fd: int, offset: int)
    | CloseCall(fd: int)
    | FreeCall(address: nat, length: int)

  /** Every object the mmap functions build or leave behind keeps these: the
      descriptor is -1 or non-negative, and an object whose mapping has
      been released holds no descriptor either. */
  predicate Valid(m: Mmap)
  {
    && m.fd >= -1
    && (m.data.NoData? ==> m.fd == -1)
  }

  /** The platform constants used as masks hold exactly the bit their
      position names. */
  lemma MaskBits()
    ensures ToBits(PROT_READ) == Pow2(PROT_READ_BIT)
    ensures ToBits(PROT_WRITE) == Pow2(PROT_WRITE_BIT)
    ensures ToBits(MAP_PRIVATE) == Pow2(MAP_PRIVATE_BIT)
    ensures ToBits(MAP_ANONYMOUS) == Pow2(MAP_ANONYMOUS_BIT)
  {
  }
}

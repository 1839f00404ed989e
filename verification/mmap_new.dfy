/** The constructor of `mmap` objects (`_mmap_new`): checks the requested
    length and offset against the size of a regular file, duplicates the
    descriptor or marks the mapping anonymous, maps the memory, and derives
    the object's access flags from `prot` and the final `flags`. */
module MmapNew {
  import opened Words
  import opened MmapTypes

  /** The five word arguments of `_mmap_new`, in the order it reads them. */
  datatype Request = Request(fd: Word, length: Word, flags: Word, prot: Word, offset: Word)

  /** What the system calls the constructor may make would report: `fstat`
      of the descriptor, `fcntl(F_DUPFD_CLOEXEC)` and `mmap`. */
  datatype Os = Os(fstat: Fstat, fcntl: Syscall, mmap: Syscall)

  /** The new object or the raised error, and the calls made on the way. */
  datatype NewOutcome = NewOutcome(result: Result<Mmap>, calls: seq<Call>)

  /** The range `[offset, offset + length)` ends inside a file of `size`
      bytes and does not start past its end. */
  predicate EndsWithinFile(offset: int, length: int, size: int)
  {
    offset <= size && offset + length <= size
  }

  /** The descriptor names a regular file whose size `fstat` could read. */
  predicate IsRegularFile(stat: Fstat)
  {
    stat.FstatOk? && stat.isRegular
  }

  /** The length and offset check made for a descriptor other than -1: for a
      regular file a zero length means "up to the end of the file", and a
      non-zero length must fit; for anything else the request passes through. */
  function CheckSize(stat: Fstat, length: int, offset: int): (r: Result<int>)
    ensures !IsRegularFile(stat) ==> r == Ok(length)
    ensures r.Err? ==> IsRegularFile(stat) && r.error.ValueError?
    ensures IsRegularFile(stat) && length == 0 ==>
      (r.Ok? <==> stat.size != 0 && offset < stat.size)
    ensures IsRegularFile(stat) && length == 0 && stat.size == 0 ==>
      r == Err(ValueError(EMPTY_FILE))
    ensures IsRegularFile(stat) && length == 0 && stat.size != 0 && offset >= stat.size ==>
      r == Err(ValueError(OFFSET_TOO_LARGE))
    ensures IsRegularFile(stat) && length != 0 ==>
      (r.Ok? <==> EndsWithinFile(offset, length, stat.size))
    ensures IsRegularFile(stat) && length != 0 && r.Err? ==>
      r.error == ValueError(LENGTH_TOO_LARGE)
    ensures IsRegularFile(stat) && r.Ok? ==>
      && r.value != 0
      && EndsWithinFile(offset, r.value, stat.size)
      && (length != 0 ==> r.value == length)
      && (length == 0 ==> offset + r.value == stat.size && r.value > 0)
  {
    if IsRegularFile(stat) then
      if length == 0 then
        if stat.size == 0 then Err(ValueError(EMPTY_FILE))
        else if offset >= stat.size then Err(ValueError(OFFSET_TOO_LARGE))
        else Ok(stat.size - offset)
      else if offset > stat.size || stat.size - offset < length then
        Err(ValueError(LENGTH_TOO_LARGE))
      else Ok(length)
    else Ok(length)
  }

  /** The flags passed to `mmap`: an anonymous request (descriptor -1) gains
      MAP_ANONYMOUS and keeps every other bit; any other request keeps its
      flags as they are. */
  function AdjustFlags(fd: int, flags: Word): (r: Word)
    ensures fd != -1 ==> r == flags
    ensures fd == -1 ==> WordBit(r, MAP_ANONYMOUS_BIT)
    ensures fd == -1 ==> forall i :: 0 <= i < WORD_BITS && i != MAP_ANONYMOUS_BIT ==>
      WordBit(r, i) == WordBit(flags, i)
  {
    if fd == -1 then
      MaskBits();
      assert forall i :: 0 <= i < WORD_BITS ==> (WordBit(MAP_ANONYMOUS, i) <==> i == MAP_ANONYMOUS_BIT) by {
        forall i | 0 <= i < WORD_BITS
          ensures WordBit(MAP_ANONYMOUS, i) <==> i == MAP_ANONYMOUS_BIT
        {
          SingleBitMask(MAP_ANONYMOUS, MAP_ANONYMOUS_BIT, i);
        }
      }
      WordOr(flags, MAP_ANONYMOUS)
    else
      flags
  }

  /** Flags that already ask for an anonymous mapping are not changed by the
      adjustment, so it is the identity on them. */
  lemma AdjustFlagsKeepsAnonymous(fd: int, flags: Word)
    requires WordBit(flags, MAP_ANONYMOUS_BIT)
    ensures AdjustFlags(fd, flags) == flags
  {
    var r := AdjustFlags(fd, flags);
    forall i | 0 <= i < WORD_BITS
      ensures WordBit(r, i) == WordBit(flags, i)
    {
    }
    WordBitsDetermine(r, flags);
  }

  /** The access flags of a new object: they start clear; the object is
      readable or writable when `prot` holds the PROT_READ or PROT_WRITE bit,
      and copy-on-write when the final flags are exactly MAP_PRIVATE. */
  function DeriveAccess(prot: Word, flags: Word): (a: Access)
    ensures a.readable <==> WordBit(prot, PROT_READ_BIT)
    ensures a.writable <==> WordBit(prot, PROT_WRITE_BIT)
    ensures a.copyOnWrite ==> WordBit(flags, MAP_PRIVATE_BIT) && !WordBit(flags, MAP_ANONYMOUS_BIT)
    ensures a.copyOnWrite <==> flags == MAP_PRIVATE
  {
    MaskBits();
    MaskTest(prot, PROT_READ, PROT_READ_BIT);
    MaskTest(prot, PROT_WRITE, PROT_WRITE_BIT);
    SingleBitMask(MAP_PRIVATE, MAP_PRIVATE_BIT, MAP_PRIVATE_BIT);
    SingleBitMask(MAP_PRIVATE, MAP_PRIVATE_BIT, MAP_ANONYMOUS_BIT);
    var a := NO_ACCESS;
    var a := if WordAnd(prot, PROT_READ) != 0 then a.(readable := true) else a;
    var a := if WordAnd(prot, PROT_WRITE) != 0 then a.(writable := true) else a;
    if flags == MAP_PRIVATE then a.(copyOnWrite := true) else a
  }

  /** An anonymous mapping is never copy-on-write, not even one requested
      with exactly MAP_PRIVATE: the added MAP_ANONYMOUS bit makes the final
      flags differ from MAP_PRIVATE. */
  lemma AnonymousNeverCopyOnWrite(prot: Word, flags: Word)
    ensures !DeriveAccess(prot, AdjustFlags(-1, flags)).copyOnWrite
  {
  }

  /** The `mmap` call and the object built from its result. `mmap` takes
      `prot` and `flags` as C `int`s; the access flags are derived from the
      full words. */
  function MapAndBuild(req: Request, length: int, fd: int, mmap: Syscall, calls: seq<Call>): (r: NewOutcome)
  {
    var flags := AdjustFlags(req.fd, req.flags);
    var calls := calls + [MapCall(length, CInt(req.prot), CInt(flags), fd, req.offset)];
    match mmap
    case Failed(errno) => NewOutcome(Err(OSError(errno)), calls)
    case Returned(address) =>
      NewOutcome(Ok(Mmap(DeriveAccess(req.prot, flags), Pointer(address, length), fd)), calls)
  }

  /** `_mmap_new`. */
  function New(req: Request, os: Os): (r: NewOutcome)
    // a rejected length or offset is reported before anything but fstat ran
    ensures r.result.Err? && r.result.error.ValueError? ==>
      req.fd != -1 && r.calls == [FstatCall(CInt(req.fd))]
    ensures req.fd != -1 && CheckSize(os.fstat, req.length, req.offset).Err? ==>
      r == NewOutcome(Err(CheckSize(os.fstat, req.length, req.offset).error), [FstatCall(CInt(req.fd))])
    ensures req.fd != -1 ==> |r.calls| >= 1 && r.calls[0] == FstatCall(CInt(req.fd))
    ensures req.fd == -1 ==>
      r.calls == [MapCall(req.length, CInt(req.prot), CInt(AdjustFlags(-1, req.flags)), -1, req.offset)]
    // a file-backed request duplicates its own descriptor, then maps the checked length
    ensures req.fd != -1 && CheckSize(os.fstat, req.length, req.offset).Ok? && os.fcntl.Returned? ==>
      r.calls == [FstatCall(CInt(req.fd)), DupCall(CInt(req.fd)),
                  MapCall(CheckSize(os.fstat, req.length, req.offset).value, CInt(req.prot), CInt(req.flags),
                          os.fcntl.value, req.offset)]
    // a failed duplication stops before mmap
    ensures req.fd != -1 && CheckSize(os.fstat, req.length, req.offset).Ok? && os.fcntl.Failed? ==>
      r == NewOutcome(Err(OSError(os.fcntl.errno)), [FstatCall(CInt(req.fd)), DupCall(CInt(req.fd))])
    // mmap ran exactly when the checks and the duplication passed, and last
    ensures (exists c :: c in r.calls && c.MapCall?) <==>
      req.fd == -1 || (CheckSize(os.fstat, req.length, req.offset).Ok? && os.fcntl.Returned?)
    ensures r.result.Ok? ==> r.calls[|r.calls| - 1].MapCall?
    ensures os.mmap.Failed? && (exists c :: c in r.calls && c.MapCall?) ==>
      r.result == Err(OSError(os.mmap.errno))
    ensures r.result.Err? && r.result.error.OSError? && os.mmap.Returned? ==> req.fd != -1 && os.fcntl.Failed?
    ensures r.result.Ok? <==> os.mmap.Returned? && (exists c :: c in r.calls && c.MapCall?)
    // the object holds the mapping made and the descriptor it was made with
    ensures r.result.Ok? ==>
      var m := r.result.value;
      var c := r.calls[|r.calls| - 1];
      && Valid(m)
      && m.data == Pointer(os.mmap.value, c.length)
      && m.fd == c.fd
      && m.fd == (if req.fd == -1 then -1 else os.fcntl.value)
  {
    if req.fd != -1 then
      var checked := CheckSize(os.fstat, req.length, req.offset);
      if checked.Err? then
        NewOutcome(Err(checked.error), [FstatCall(CInt(req.fd))])
      else
        match os.fcntl
        case Failed(errno) => NewOutcome(Err(OSError(errno)), [FstatCall(CInt(req.fd)), DupCall(CInt(req.fd))])
        case Returned(dupFd) =>
          var r := MapAndBuild(req, checked.value, dupFd, os.mmap, [FstatCall(CInt(req.fd)), DupCall(CInt(req.fd))]);
          assert r.calls[2] in r.calls;
          r
    else
      var r := MapAndBuild(req, req.length, -1, os.mmap, []);
      assert r.calls[0] in r.calls;
      r
  }

  /** For a regular file the mapping the constructor makes has a non-zero
      length and ends at or before the end of the file; a
      zero length maps exactly up to the end. */
  lemma NewMapsWithinRegularFile(req: Request, os: Os)
    requires req.fd != -1 && IsRegularFile(os.fstat)
    ensures forall c :: c in New(req, os).calls && c.MapCall? ==>
      && c.offset == req.offset
      && c.length != 0
      && EndsWithinFile(c.offset, c.length, os.fstat.size)
      && (req.length == 0 ==> c.length > 0 && c.offset + c.length == os.fstat.size)
      && (req.length != 0 ==> c.length == req.length)
  {
  }

  /** When `fstat` fails or the descriptor is not a regular file, no size
      check runs: the length and offset reach `mmap` unchanged, and only the
      system calls can make the constructor fail. */
  lemma NewPassesThroughNonRegular(req: Request, os: Os)
    requires req.fd != -1 && !IsRegularFile(os.fstat)
    ensures !(New(req, os).result.Err? && New(req, os).result.error.ValueError?)
    ensures os.fcntl.Returned? ==>
      New(req, os).calls == [FstatCall(CInt(req.fd)), DupCall(CInt(req.fd)),
                             MapCall(req.length, CInt(req.prot), CInt(req.flags), os.fcntl.value, req.offset)]
  {
  }

  /** An anonymous request (descriptor -1) makes no fstat and no
      duplication: `mmap` is called directly, with the length and offset as
      given, descriptor -1, and as flags the C `int` of the word with
      MAP_ANONYMOUS added, which keeps every other of the low 32 bits. A
      request on a descriptor passes the C `int` of its flags. */
  lemma NewFlags(req: Request, os: Os)
    ensures forall c :: c in New(req, os).calls ==> !c.DupCall? || req.fd != -1
    ensures forall c :: c in New(req, os).calls && c.MapCall? ==>
      && (req.fd != -1 ==> c.flags == CInt(req.flags))
      && (req.fd == -1 ==> c.fd == -1 && c.length == req.length && c.offset == req.offset)
      && INT_MIN <= c.flags <= INT_MAX
      && (req.fd == -1 ==> WordBit(c.flags, MAP_ANONYMOUS_BIT))
      && (req.fd == -1 ==> forall i :: 0 <= i < INT_BITS && i != MAP_ANONYMOUS_BIT ==>
            WordBit(c.flags, i) == WordBit(req.flags, i))
  {
  }

  /** The access flags of a new object: readable and writable follow the
      PROT_READ and PROT_WRITE bits of `prot`, and copy-on-write holds exactly
      for a file-backed request whose flags are MAP_PRIVATE. */
  lemma NewAccess(req: Request, os: Os)
    requires New(req, os).result.Ok?
    ensures New(req, os).result.value.access.readable <==> WordBit(req.prot, PROT_READ_BIT)
    ensures New(req, os).result.value.access.writable <==> WordBit(req.prot, PROT_WRITE_BIT)
    ensures New(req, os).result.value.access.copyOnWrite <==> req.fd != -1 && req.flags == MAP_PRIVATE
  {
  }

  /** Copy-on-write is decided on the full 64-bit flags, while `mmap` sees
      only their low 32 bits: flags of MAP_PRIVATE plus bit 32 make a private
      mapping, yet the object is not marked copy-on-write. */
  lemma WideFlagsPrivateNotCopyOnWrite(req: Request, os: Os)
    requires req.fd != -1 && req.flags == MAP_PRIVATE + 0x1_0000_0000
    requires New(req, os).result.Ok?
    ensures forall c :: c in New(req, os).calls && c.MapCall? ==> c.flags == MAP_PRIVATE
    ensures !New(req, os).result.value.access.copyOnWrite
  {
  }

  /** When `mmap` fails after the descriptor was duplicated, the constructor
      raises without closing the duplicate: nothing in the calls it makes
      releases it. */
  lemma MapFailureKeepsDuplicate(req: Request, os: Os)
    requires req.fd != -1 && CheckSize(os.fstat, req.length, req.offset).Ok?
    requires os.fcntl.Returned? && os.mmap.Failed?
    ensures New(req, os).result == Err(OSError(os.mmap.errno))
    ensures DupCall(CInt(req.fd)) in New(req, os).calls
    ensures forall c :: c in New(req, os).calls ==> !c.CloseCall?
  {
  }
}

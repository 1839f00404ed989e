/** `mmap.close`: closes the object's descriptor, if it holds one, and
    releases its mapping, if it holds one. */
module MmapClose {
  import opened MmapTypes
  import MmapNew

  /** The result of `close`, the receiver afterwards, and the calls made. */
  datatype CloseOutcome = CloseOutcome(result: Result<()>, self: Object, calls: seq<Call>)

  /** `close` reads the `data` field of an mmap receiver as a pointer object
      without checking it, so the field must hold one. */
  predicate CloseSupported(self: Object)
  {
    self.MmapInstance? ==> self.mmap.data.Pointer?
  }

  /** `close`, where `closeResult` is what closing the descriptor returns
      (negative: minus the errno). */
  function Close(self: Object, closeResult: int): (r: CloseOutcome)
    requires CloseSupported(self)
    ensures r.result.Ok? <==> self.MmapInstance? && (self.mmap.fd < 0 || closeResult >= 0)
    // a failing close leaves the receiver as it was
    ensures r.result.Err? ==> r.self == self
    ensures !self.MmapInstance? ==> r.result == Err(TypeError("mmap")) && r.calls == []
    ensures self.MmapInstance? && self.mmap.fd >= 0 && closeResult < 0 ==>
      r.result == Err(OSError(-closeResult)) && r.calls == [CloseCall(self.mmap.fd)]
    // the descriptor is closed exactly when the receiver holds one
    ensures forall c :: c in r.calls && c.CloseCall? ==> self.MmapInstance? && c.fd == self.mmap.fd
    ensures self.MmapInstance? && self.mmap.fd >= 0 ==> |r.calls| >= 1 && r.calls[0] == CloseCall(self.mmap.fd)
    ensures self.MmapInstance? && self.mmap.fd < 0 ==> forall c :: c in r.calls ==> !c.CloseCall?
    // success: no descriptor, the mapping released, the access flags kept
    ensures r.result.Ok? ==>
      && r.self.MmapInstance?
      && r.self.mmap.fd == -1
      && r.self.mmap.access == self.mmap.access
    ensures r.result.Ok? && self.mmap.data.address != 0 ==>
      && r.self.mmap.data == NoData
      && |r.calls| >= 1
      && r.calls[|r.calls| - 1] == FreeCall(self.mmap.data.address, self.mmap.data.length)
    ensures r.result.Ok? && self.mmap.data.address == 0 ==> r.self.mmap.data == self.mmap.data
    // only the object's own non-null mapping is released, after a successful close
    ensures forall c :: c in r.calls && c.FreeCall? ==>
      && r.result.Ok?
      && self.mmap.data.address != 0
      && c == FreeCall(self.mmap.data.address, self.mmap.data.length)
    // a successful close makes exactly these calls and no others
    ensures r.result.Ok? ==>
      r.calls == (if self.mmap.fd >= 0 then [CloseCall(self.mmap.fd)] else [])
                 + (if self.mmap.data.address != 0
                    then [FreeCall(self.mmap.data.address, self.mmap.data.length)] else [])
  {
    match self
    case OtherInstance => CloseOutcome(Err(TypeError("mmap")), self, [])
    case MmapInstance(m) =>
      var closing := if m.fd >= 0 then [CloseCall(m.fd)] else [];
      if m.fd >= 0 && closeResult < 0 then
        CloseOutcome(Err(OSError(-closeResult)), self, closing)
      else
        var m := m.(fd := -1);
        if m.data.address != 0 then
          CloseOutcome(Ok(()), MmapInstance(m.(data := NoData)),
                       closing + [FreeCall(m.data.address, m.data.length)])
        else
          CloseOutcome(Ok(()), MmapInstance(m), closing)
  }

  /** `close` keeps the object invariant: whatever it leaves behind holds no
      descriptor once its mapping has been released. */
  lemma CloseKeepsValid(self: Object, closeResult: int)
    requires CloseSupported(self) && self.MmapInstance? && Valid(self.mmap)
    ensures Close(self, closeResult).self.MmapInstance?
    ensures Valid(Close(self, closeResult).self.mmap)
  {
  }

  /** Closing an object fresh from the constructor, with the descriptor
      closing cleanly, leaves nothing behind: no descriptor and, when the
      mapping was at a non-null address, no data. */
  lemma CloseAfterNew(req: MmapNew.Request, os: MmapNew.Os, closeResult: int)
    requires MmapNew.New(req, os).result.Ok?
    requires closeResult >= 0
    ensures var m := MmapNew.New(req, os).result.value;
      && CloseSupported(MmapInstance(m))
      && var r := Close(MmapInstance(m), closeResult);
      && r.result.Ok?
      && r.self.mmap.fd == -1
      && (os.mmap.value != 0 ==> r.self.mmap.data == NoData)
  {
  }
}

/**
 * The dispatch layer of src/H5FDint.c: relative/absolute address translation,
 * the EOA/EOF accessors, and bounds-checked read and write, on an open file
 * (`H5FD_t`).  Also the driver query that needs no open file and the two
 * end-of-tick hooks.
 */
module Vfd {
  import opened Addresses
  import opened Driver

  /** `H5F_ACC_SWMR_READ`: the file is open for single-writer/multiple-reader reading. */
  const H5F_ACC_SWMR_READ: bv32 := 0x0040

  /** What the checks ahead of a transfer decide. */
  datatype Gate =
    | Done                      // zero-size no-op: succeed without calling the driver
    | Reject(kind: ErrKind)     // fail before the driver is called
    | Dispatch(abs: U64)        // call the driver at this absolute address

  /** Result of `H5FD_read`: no-op, the bytes the driver returned, or an error. */
  datatype ReadOutcome = ReadNoOp | ReadData(bytes: seq<Byte>) | ReadFailed(kind: ErrKind)

  /** Result of `H5FD_write`: no-op, the driver's new state, or an error. */
  datatype WriteOutcome = WriteNoOp | Written(drv: DriverState) | WriteFailed(kind: ErrKind)

  /** An open file (`H5FD_t`) and the private state of its driver. */
  class File {
    const cls: DriverClass
    const baseAddr: U64          // absolute address of relative address 0 (after a user block)
    const maxAddr: U64           // largest address the file may use
    const accessFlags: bv32
    const parallelBuild: bool    // the build option H5_HAVE_PARALLEL
    var drv: DriverState

    constructor (cls: DriverClass, baseAddr: U64, maxAddr: U64, accessFlags: bv32,
                 parallelBuild: bool, drv: DriverState)
      ensures this.cls == cls && this.baseAddr == baseAddr && this.maxAddr == maxAddr
      ensures this.accessFlags == accessFlags && this.parallelBuild == parallelBuild
      ensures this.drv == drv
    {
      this.cls := cls;
      this.baseAddr := baseAddr;
      this.maxAddr := maxAddr;
      this.accessFlags := accessFlags;
      this.parallelBuild := parallelBuild;
      this.drv := drv;
    }

    predicate SwmrRead()
    {
      (accessFlags & H5F_ACC_SWMR_READ) != 0
    }

    /**
     * `H5FD_get_eoa`: the driver's EOA for `t` as a relative address, or
     * HADDR_UNDEF when the driver cannot report it.
     */
    function GetEoa(t: MemType): (r: U64)
      reads this
      ensures GetEoaCb(drv, t) == HADDR_UNDEF ==> r == HADDR_UNDEF
      ensures GetEoaCb(drv, t) != HADDR_UNDEF ==> Add(r, baseAddr) == GetEoaCb(drv, t)
    {
      var e := GetEoaCb(drv, t);
      if e == HADDR_UNDEF then HADDR_UNDEF else Sub(e, baseAddr)
    }

    /**
     * `H5FD_get_eof`: the driver's EOF as a relative address; `maxAddr` stands
     * in when the driver has no `get_eof`; HADDR_UNDEF when `get_eof` fails.
     */
    function GetEof(t: MemType): (r: U64)
      reads this
      ensures cls.hasGetEof && GetEofCb(drv, t) == HADDR_UNDEF ==> r == HADDR_UNDEF
      ensures cls.hasGetEof && GetEofCb(drv, t) != HADDR_UNDEF ==> Add(r, baseAddr) == GetEofCb(drv, t)
      ensures !cls.hasGetEof ==> Add(r, baseAddr) == maxAddr
    {
      if cls.hasGetEof then
        var e := GetEofCb(drv, t);
        if e == HADDR_UNDEF then HADDR_UNDEF else Sub(e, baseAddr)
      else
        Sub(maxAddr, baseAddr)
    }

    /**
     * What `H5FD_set_eoa(file, t, addr)` leaves in the driver when started from
     * `d`: `None` when the driver refuses the absolute address.  On success the
     * relative address read back through `H5FD_get_eoa` is `addr` again.
     */
    function SetEoaResult(d: DriverState, t: MemType, addr: U64): (r: Option<DriverState>)
      ensures r.Some? <==> Add(addr, baseAddr) <= cls.addrLimit
      ensures r.Some? ==> GetEoaCb(r.value, t) != HADDR_UNDEF && Sub(GetEoaCb(r.value, t), baseAddr) == addr
      ensures r.Some? ==> forall u :: u != t ==> GetEoaCb(r.value, u) == GetEoaCb(d, u)
      ensures r.Some? ==> r.value.data == d.data && r.value.eof == d.eof && r.value.ioError == d.ioError
    {
      RelativeAbsoluteRoundTrip(addr, baseAddr);
      SetEoaCb(cls, d, t, Add(addr, baseAddr))
    }

    /** `H5FD_set_eoa`: `addr` is relative; the driver is handed `addr + base_addr`. */
    method SetEoa(t: MemType, addr: U64) returns (status: Status)
      requires addr != HADDR_UNDEF && addr <= maxAddr
      modifies this
      ensures SetEoaResult(old(drv), t, addr).None? ==> status == Fail(CantInit) && drv == old(drv)
      ensures SetEoaResult(old(drv), t, addr).Some? ==>
                status == Succeed && drv == SetEoaResult(old(drv), t, addr).value
      ensures status == Succeed ==> GetEoa(t) == addr
    {
      var r := SetEoaResult(drv, t, addr);
      if r.None? {
        status := Fail(CantInit);
      } else {
        drv := r.value;
        status := Succeed;
      }
    }

    /**
     * The checks `H5FD_read` and `H5FD_write` make before calling the driver.
     * `bounded` says whether the request is checked against the driver's EOA
     * (always for a write; for a read unless the file is open for SWMR read).
     */
    function Admit(d: DriverState, t: MemType, addr: U64, size: U64, bounded: bool): (g: Gate)
      ensures g == Done <==> !parallelBuild && size == 0
      ensures g == Reject(CantInit) <==>
                (parallelBuild || size > 0) && bounded && GetEoaCb(d, t) == HADDR_UNDEF
      ensures g == Reject(Overflow) <==>
                (parallelBuild || size > 0) && bounded && GetEoaCb(d, t) != HADDR_UNDEF &&
                Add(Add(addr, baseAddr), size) > GetEoaCb(d, t)
      ensures g.Reject? ==> g.kind == CantInit || g.kind == Overflow
      ensures g.Dispatch? ==> g.abs == Add(addr, baseAddr)
    {
      if !parallelBuild && size == 0 then Done
      else if bounded && GetEoaCb(d, t) == HADDR_UNDEF then Reject(CantInit)
      else if bounded && Add(Add(addr, baseAddr), size) > GetEoaCb(d, t) then Reject(Overflow)
      else Dispatch(Add(addr, baseAddr))
    }

    /**
     * `H5FD_read` from driver state `d`.  The driver is asked for the bytes
     * at `addr + base_addr` taken modulo 2^64, so an `addr` whose sum with
     * `base_addr` wraps reaches the driver at the reduced address, below
     * `base_addr`, and is checked there.  Data the driver returns with the
     * bound in force lies wholly below the driver's EOA: the check of this
     * layer catches every end past the EOA unless adding `size` wraps the
     * sum, and the driver refuses such a request, whose true end is past
     * its limit.
     */
    function ReadResult(d: DriverState, t: MemType, addr: U64, size: U64): (r: ReadOutcome)
      ensures r == ReadNoOp <==> !parallelBuild && size == 0
      ensures r.ReadData? ==> r.bytes == Fetch(d.data, Add(addr, baseAddr), size)
      ensures r.ReadData? && !SwmrRead() ==> Add(addr, baseAddr) + size <= GetEoaCb(d, t)
      ensures r.ReadFailed? ==> r.kind in {CantInit, Overflow, ReadError}
    {
      match Admit(d, t, addr, size, !SwmrRead())
      case Done => ReadNoOp
      case Reject(k) => ReadFailed(k)
      case Dispatch(a) =>
        match ReadCb(cls, d, a, size)
        case None => ReadFailed(ReadError)
        case Some(bytes) => ReadData(bytes)
    }

    /** `H5FD_read`: fills `buf[..size]` from relative address `addr`. */
    method Read(t: MemType, addr: U64, size: U64, buf: array<Byte>) returns (status: Status)
      requires size <= buf.Length
      modifies buf
      ensures ReadResult(drv, t, addr, size) == ReadNoOp ==>
                status == Succeed && buf[..] == old(buf[..])
      ensures ReadResult(drv, t, addr, size).ReadFailed? ==>
                status == Fail(ReadResult(drv, t, addr, size).kind) && buf[..] == old(buf[..])
      ensures ReadResult(drv, t, addr, size).ReadData? ==>
                status == Succeed && buf[..size] == ReadResult(drv, t, addr, size).bytes &&
                buf[size..] == old(buf[size..])
    {
      var r := ReadResult(drv, t, addr, size);
      match r
      case ReadNoOp =>
        status := Succeed;
      case ReadFailed(k) =>
        status := Fail(k);
      case ReadData(bytes) =>
        forall i | 0 <= i < size {
          buf[i] := bytes[i];
        }
        status := Succeed;
    }

    /**
     * `H5FD_write` of `bytes` (the first `size` bytes of the caller's buffer)
     * from driver state `d`.  A write the driver completes lies wholly below
     * the driver's EOA, stores `bytes` at `addr + base_addr` (taken modulo
     * 2^64), and keeps every EOA, the error flag and every other byte of the
     * file; the EOF either stays or moves to the end of the write.  The check
     * of this layer bounds the end; when adding `size` wraps, the driver's
     * own limit refuses the request.
     */
    function WriteResult(d: DriverState, t: MemType, addr: U64, size: U64, bytes: seq<Byte>): (r: WriteOutcome)
      requires |bytes| == size
      ensures r == WriteNoOp <==> !parallelBuild && size == 0
      ensures r.Written? ==> Add(addr, baseAddr) + size <= GetEoaCb(d, t)
      ensures r.Written? ==> r.drv.eoa == d.eoa && Fetch(r.drv.data, Add(addr, baseAddr), size) == bytes
      ensures r.Written? ==> r.drv.ioError == d.ioError && |r.drv.data| >= |d.data|
      ensures r.Written? ==>
                forall j :: 0 <= j < |d.data| && !(Add(addr, baseAddr) <= j < Add(addr, baseAddr) + size) ==>
                  r.drv.data[j] == d.data[j]
      ensures r.Written? ==> r.drv.eof == d.eof || r.drv.eof == Add(addr, baseAddr) + size
      ensures r.WriteFailed? ==> r.kind in {CantInit, Overflow, WriteError}
    {
      match Admit(d, t, addr, size, true)
      case Done => WriteNoOp
      case Reject(k) => WriteFailed(k)
      case Dispatch(a) =>
        match WriteCb(cls, d, a, bytes)
        case None => WriteFailed(WriteError)
        case Some(d') =>
          FetchOverwrite(d.data, a, bytes);
          Written(d')
    }

    /** `H5FD_write`: stores `buf[..size]` at relative address `addr`. */
    method Write(t: MemType, addr: U64, size: U64, buf: array<Byte>) returns (status: Status)
      requires size <= buf.Length
      modifies this
      ensures WriteResult(old(drv), t, addr, size, buf[..size]) == WriteNoOp ==>
                status == Succeed && drv == old(drv)
      ensures WriteResult(old(drv), t, addr, size, buf[..size]).WriteFailed? ==>
                status == Fail(WriteResult(old(drv), t, addr, size, buf[..size]).kind) && drv == old(drv)
      ensures WriteResult(old(drv), t, addr, size, buf[..size]).Written? ==>
                status == Succeed && drv == WriteResult(old(drv), t, addr, size, buf[..size]).drv
    {
      var r := WriteResult(drv, t, addr, size, buf[..size]);
      match r
      case WriteNoOp =>
        status := Succeed;
      case WriteFailed(k) =>
        status := Fail(k);
      case Written(d') =>
        drv := d';
        status := Succeed;
    }

    /** A read of a region just written returns what was written. */
    lemma ReadAfterWrite(d: DriverState, t: MemType, addr: U64, size: U64, bytes: seq<Byte>)
      requires |bytes| == size && (parallelBuild || size > 0)
      requires WriteResult(d, t, addr, size, bytes).Written?
      ensures ReadResult(WriteResult(d, t, addr, size, bytes).drv, t, addr, size) == ReadData(bytes)
    {
      var d' := WriteResult(d, t, addr, size, bytes).drv;
      assert Admit(d, t, addr, size, true) == Dispatch(Add(addr, baseAddr));
      assert GetEoaCb(d', t) == GetEoaCb(d, t);
      assert Admit(d', t, addr, size, !SwmrRead()) == Dispatch(Add(addr, baseAddr));
      assert !d'.ioError;
    }

    /**
     * The bound is exact: a request ending exactly at the EOA is let through
     * and one ending a byte beyond it fails with OVERFLOW (no wrap-around).
     */
    lemma ExactEoaBoundary(d: DriverState, t: MemType, addr: U64, size: U64)
      requires size > 0 && GetEoaCb(d, t) != HADDR_UNDEF
      requires addr + baseAddr + size < TWO_TO_THE_64
      ensures addr + baseAddr + size == GetEoaCb(d, t) ==> Admit(d, t, addr, size, true).Dispatch?
      ensures addr + baseAddr + size == GetEoaCb(d, t) + 1 ==> Admit(d, t, addr, size, true) == Reject(Overflow)
    {
    }

    /**
     * With the file open for SWMR read, a read past the EOA still reaches the
     * driver and returns the file's bytes.
     */
    lemma SwmrReadIgnoresEoa(d: DriverState, t: MemType, addr: U64, size: U64)
      requires SwmrRead() && (parallelBuild || size > 0)
      requires !d.ioError && Add(addr, baseAddr) + size <= cls.addrLimit
      ensures ReadResult(d, t, addr, size) == ReadData(Fetch(d.data, Add(addr, baseAddr), size))
    {
    }

    /**
     * What the check of this layer guarantees by itself: when the sum
     * `addr + base_addr + size` does not wrap, a bounded request it lets
     * through ends at or below the EOA.
     */
    lemma DispatchedEndsBelowEoa(d: DriverState, t: MemType, addr: U64, size: U64)
      requires addr + baseAddr + size < TWO_TO_THE_64
      requires Admit(d, t, addr, size, true).Dispatch?
      ensures GetEoaCb(d, t) != HADDR_UNDEF && addr + baseAddr + size <= GetEoaCb(d, t)
    {
    }

    /**
     * An address whose sum with `base_addr` wraps is not refused: the driver
     * receives the reduced absolute address, inside the user block, and the
     * read returns the bytes stored there.
     */
    lemma WrappedAddressReadsUserBlock(d: DriverState, t: MemType)
      requires baseAddr == 20 && GetEoaCb(d, t) == 100
      requires !d.ioError && cls.addrLimit >= 18
      ensures ReadResult(d, t, TWO_TO_THE_64 - 10, 8) == ReadData(Fetch(d.data, 10, 8))
    {
    }

    /**
     * The sum `addr + base_addr + size` is taken modulo 2^64: a request whose
     * true end is far past the EOA passes the check when the sum wraps.
     */
    lemma WrappedSumPassesCheck(d: DriverState)
      requires baseAddr == 0 && GetEoaCb(d, Super) == 100
      ensures Admit(d, Super, TWO_TO_THE_64 - 4, 8, true) == Dispatch(TWO_TO_THE_64 - 4)
    {
    }
  }

  /**
   * `H5FD_driver_query`: the driver's flags without an open file.  A driver
   * without `query` reports no flags and never fails; otherwise its own reply
   * to `query(NULL, flags)` is passed on.
   */
  function DriverQuery(c: DriverClass): (r: QueryReply)
    ensures c.query.None? ==> r.status == Succeed && r.flags == 0
    ensures c.query.Some? ==> r == c.query.value
  {
    match c.query
    case None => QueryReply(Succeed, 0)
    case Some(reply) => reply
  }

  /** `H5FD_writer_end_of_tick`: a reserved hook that always succeeds. */
  function WriterEndOfTick(): (r: Status)
    ensures r == Succeed
  {
    Succeed
  }

  /** `H5FD_reader_end_of_tick`: a reserved hook that always succeeds. */
  function ReaderEndOfTick(): (r: Status)
    ensures r == Succeed
  {
    Succeed
  }
}

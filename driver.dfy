/**
 * The abstract virtual file driver that the dispatch layer calls through its
 * class table (`file->cls->get_eoa`, `set_eoa`, `get_eof`, `read`, `write`,
 * `query`).  Concrete drivers are foreign code; here a driver is a value of
 * `DriverState` together with a `DriverClass`, and each callback is a pure
 * function with the behaviour that a conforming driver is assumed to have.
 */
module Driver {
  import opened Addresses

  datatype Option<T> = None | Some(value: T)

  type Byte = b: int | 0 <= b < 256

  /** `H5FD_mem_t`: the address-space categories a driver keeps an EOA for. */
  datatype MemType = Default | Super | BTree | Draw | GHeap | LHeap | OHdr

  /** The error tags the dispatch layer reports (`H5E_CANTINIT`, `H5E_OVERFLOW`, ...). */
  datatype ErrKind = CantInit | Overflow | ReadError | WriteError

  /** `herr_t`: SUCCEED, or FAIL with the tag pushed on the error stack. */
  datatype Status = Succeed | Fail(kind: ErrKind)

  /** What a driver's `query(NULL, flags)` callback reports. */
  datatype QueryReply = QueryReply(status: Status, flags: U64)

  /** Largest absolute address a driver accepts; never HADDR_UNDEF itself. */
  type Limit = a: U64 | a < HADDR_UNDEF

  /**
   * The class table of a driver, reduced to what this layer looks at:
   * whether `get_eof` is present, what `query` replies (if present), and the
   * address limit the driver's own `set_eoa`, `read` and `write` enforce.
   */
  datatype DriverClass = DriverClass(hasGetEof: bool, query: Option<QueryReply>, addrLimit: Limit)

  /**
   * A driver's private state: the absolute EOA per memory type (a type that is
   * missing has none, so `get_eoa` reports HADDR_UNDEF), the absolute physical
   * EOF (HADDR_UNDEF when the driver cannot tell), the bytes of the file, and
   * whether the underlying device currently fails every transfer.
   */
  datatype DriverState = DriverState(eoa: map<MemType, U64>, eof: U64, data: seq<Byte>, ioError: bool)

  function Zeros(n: nat): (z: seq<Byte>)
    ensures |z| == n
    ensures forall i :: 0 <= i < n ==> z[i] == 0
  {
    if n == 0 then [] else Zeros(n - 1) + [0]
  }

  /** The `n` bytes at absolute address `a`; a file reads as zeros past its end. */
  function Fetch(data: seq<Byte>, a: nat, n: nat): (r: seq<Byte>)
    ensures |r| == n
    ensures forall i :: 0 <= i < n ==> r[i] == (if a + i < |data| then data[a + i] else 0)
  {
    var padded := if a + n <= |data| then data else data + Zeros(a + n - |data|);
    padded[a..a + n]
  }

  /** `data` with `bytes` stored at absolute address `a`, a gap before it filled with zeros. */
  function Overwrite(data: seq<Byte>, a: nat, bytes: seq<Byte>): (r: seq<Byte>)
    ensures |r| == if a + |bytes| > |data| then a + |bytes| else |data|
    ensures forall i :: 0 <= i < |bytes| ==> r[a + i] == bytes[i]
    ensures forall j :: 0 <= j < |r| && !(a <= j < a + |bytes|) ==> r[j] == (if j < |data| then data[j] else 0)
  {
    var padded := if a <= |data| then data else data + Zeros(a - |data|);
    padded[..a] + bytes + (if a + |bytes| < |padded| then padded[a + |bytes|..] else [])
  }

  /** Reading back a region just written gives the bytes written. */
  lemma FetchOverwrite(data: seq<Byte>, a: nat, bytes: seq<Byte>)
    ensures Fetch(Overwrite(data, a, bytes), a, |bytes|) == bytes
  {
    var r := Fetch(Overwrite(data, a, bytes), a, |bytes|);
    forall i | 0 <= i < |bytes| ensures r[i] == bytes[i] {
      assert Overwrite(data, a, bytes)[a + i] == bytes[i];
    }
  }

  /** Callback `get_eoa(file, type)`. */
  function GetEoaCb(d: DriverState, t: MemType): U64
  {
    if t in d.eoa then d.eoa[t] else HADDR_UNDEF
  }

  /** Callback `set_eoa(file, type, a)`: refused past the driver's address limit. */
  function SetEoaCb(c: DriverClass, d: DriverState, t: MemType, a: U64): Option<DriverState>
  {
    if a > c.addrLimit then None else Some(d.(eoa := d.eoa[t := a]))
  }

  /** Callback `get_eof(file, type)`, meaningful only when `c.hasGetEof`. */
  function GetEofCb(d: DriverState, t: MemType): U64
  {
    d.eof
  }

  /** Callback `read(file, type, dxpl, a, size, buf)`. */
  function ReadCb(c: DriverClass, d: DriverState, a: U64, size: U64): Option<seq<Byte>>
  {
    if d.ioError || a + size > c.addrLimit then None else Some(Fetch(d.data, a, size))
  }

  /** Callback `write(file, type, dxpl, a, size, buf)`; a write past the EOF moves the EOF. */
  function WriteCb(c: DriverClass, d: DriverState, a: U64, bytes: seq<Byte>): Option<DriverState>
  {
    if d.ioError || a + |bytes| > c.addrLimit then None
    else
      var end := a + |bytes|;
      Some(d.(data := Overwrite(d.data, a, bytes),
              eof := if d.eof == HADDR_UNDEF || end <= d.eof then d.eof else end))
  }
}

/**
 * `H5FD_locate_signature`: find the 8-byte format signature at relative
 * address 0 or at a power of two from 512 upwards, probing no further than
 * the larger of the file's EOF and EOA.
 */
module Signature {
  import opened Addresses
  import opened Driver
  import opened Vfd

  /** `H5F_SIGNATURE_LEN`. */
  const SIGNATURE_LEN: U64 := 8

  /**
   * `H5F_SIGNATURE`, "\211HDF\r\n\032\n", as given in the HDF5 File Format
   * Specification, section "Format Signature and Superblock".  The lemmas below
   * use only its length.
   */
  const SIGNATURE: seq<Byte> := [0x89, 0x48, 0x44, 0x46, 0x0d, 0x0a, 0x1a, 0x0a]

  /** The least N >= 9 such that 2^N > x: one past the last power of two probed. */
  function MaxPow(x: U64): (r: nat)
    ensures 9 <= r <= 64
    ensures x < Pow2(r)
    ensures r == 9 || Pow2(r - 1) <= x
  {
    BitLengthBounds(x);
    BitLengthIsLeast(x, 9);
    Pow2TopValues();
    BitLengthIsLeast(x, 64);
    var b := BitLength(x);
    if b > 9 then b else 9
  }

  /** The loop of lines 113-115: shift `x` right until it is 0, then raise to 9. */
  method ComputeMaxPow(x: U64) returns (maxpow: nat)
    ensures maxpow == MaxPow(x)
  {
    var a: nat := x;
    maxpow := 0;
    while a != 0
      invariant maxpow + BitLength(a) == BitLength(x)
      decreases a
    {
      a := a / 2;
      maxpow := maxpow + 1;
    }
    maxpow := if maxpow > 9 then maxpow else 9;
  }

  lemma Pow2Below64(n: nat)
    requires n < 64
    ensures Pow2(n) <= 0x8000_0000_0000_0000
  {
    Pow2TopValues();
    if n < 63 {
      Pow2StrictlyIncreasing(n, 63);
    }
  }

  /** The address probed in round `n`: 0 when n is 8, else 2^n. */
  function Probe(n: nat): (r: U64)
    requires 8 <= n < 64
    ensures n == 8 ==> r == 0
    ensures n > 8 ==> r == Pow2(n) && 512 <= r
    ensures r + SIGNATURE_LEN < TWO_TO_THE_64
  {
    if n == 8 then 0
    else
      Pow2Below64(n);
      if n > 9 then Pow2StrictlyIncreasing(9, n); Pow2(n) else Pow2(n)
  }

  lemma ProbeStrictlyIncreasing(i: nat, j: nat)
    requires 8 <= i < j < 64
    ensures Probe(i) < Probe(j)
  {
    if i > 8 {
      Pow2StrictlyIncreasing(i, j);
    }
  }

  /** The probes of rounds n, n+1, ..., m-1, in order. */
  function Probes(n: nat, m: nat): (r: seq<U64>)
    requires 8 <= n && m <= 64
    ensures |r| == if n <= m then m - n else 0
    decreases m - n
  {
    if n >= m then [] else [Probe(n)] + Probes(n + 1, m)
  }

  /** The whole probe schedule for a search with the given `maxpow`. */
  function Schedule(maxpow: nat): seq<U64>
    requires maxpow <= 64
  {
    Probes(8, maxpow)
  }

  /** Round `n + i` probes the i-th element of Probes(n, m). */
  lemma {:induction false} ProbesAt(n: nat, m: nat)
    requires 8 <= n <= m <= 64
    ensures |Probes(n, m)| == m - n
    ensures forall i :: 0 <= i < m - n ==> Probes(n, m)[i] == Probe(n + i)
    decreases m - n
  {
    if n < m {
      ProbesAt(n + 1, m);
    }
  }

  /** The i-th entry of the schedule is the probe of round 8 + i. */
  lemma ScheduleHas(maxpow: nat, i: nat)
    requires 8 + i < maxpow <= 64
    ensures Schedule(maxpow)[i] == Probe(8 + i) && Probe(8 + i) in Schedule(maxpow)
  {
    ProbesAt(8, maxpow);
  }

  /**
   * The schedule: offset 0 first, then 2^n for 9 <= n < maxpow, in strictly
   * increasing order; 256 is never probed.
   */
  lemma ScheduleShape(maxpow: nat)
    requires 9 <= maxpow <= 64
    ensures |Schedule(maxpow)| == maxpow - 8 && Schedule(maxpow)[0] == 0
    ensures forall i :: 1 <= i < maxpow - 8 ==> Schedule(maxpow)[i] == Pow2(i + 8)
    ensures forall i, j :: 0 <= i < j < maxpow - 8 ==> Schedule(maxpow)[i] < Schedule(maxpow)[j]
    ensures 256 !in Schedule(maxpow)
  {
    ProbesAt(8, maxpow);
    forall i, j | 0 <= i < j < maxpow - 8
      ensures Schedule(maxpow)[i] < Schedule(maxpow)[j]
    {
      ProbeStrictlyIncreasing(i + 8, j + 8);
    }
  }

  /**
   * The search range for a file whose larger extent is `x`: offset 0 and every
   * power of two from 512 up to `x` are probed, and nothing else.
   */
  lemma ScheduleCoversFile(x: U64)
    ensures 0 in Schedule(MaxPow(x))
    ensures forall q :: q in Schedule(MaxPow(x)) && q != 0 ==> 512 <= q <= x
    ensures forall n :: 9 <= n < 64 && Pow2(n) <= x ==> Pow2(n) in Schedule(MaxPow(x))
  {
    var m := MaxPow(x);
    ProbesAt(8, m);
    assert Schedule(m)[0] == 0;
    forall q | q in Schedule(m) && q != 0
      ensures 512 <= q <= x
    {
      var i :| 0 <= i < m - 8 && Schedule(m)[i] == q;
      if i + 8 < m - 1 {
        Pow2StrictlyIncreasing(i + 8, m - 1);
      }
    }
    forall n | 9 <= n < 64 && Pow2(n) <= x
      ensures Pow2(n) in Schedule(m)
    {
      if m <= n {
        if m < n {
          Pow2StrictlyIncreasing(m, n);
        }
        assert false;
      }
      assert Schedule(m)[n - 8] == Probe(n);
    }
  }

  /** An empty file (EOF = EOA = 0) is searched at offset 0 only. */
  lemma EmptyFileProbesOnlyZero()
    ensures MaxPow(0) == 9 && Schedule(MaxPow(0)) == [0]
  {
  }

  /** A file of 2050 bytes is searched at 0, 512, 1024 and 2048. */
  lemma Schedule2050()
    ensures MaxPow(2050) == 12 && Schedule(MaxPow(2050)) == [0, 512, 1024, 2048]
  {
    assert BitLength(2050) == 12;
    assert Probe(9) == 512 && Probe(10) == 1024 && Probe(11) == 2048;
  }

  /**
   * `memcmp(a, b, |b|) == 0` from index `i` on: the bytes of `a` agree with
   * those of `b`, compared one by one.
   */
  predicate MemEqualFrom(a: seq<Byte>, b: seq<Byte>, i: nat)
    decreases |b| - i
  {
    i >= |b| || (i < |a| && a[i] == b[i] && MemEqualFrom(a, b, i + 1))
  }

  /** The byte-by-byte comparison agrees with equality of the compared ranges. */
  lemma {:induction false} MemEqualFromIff(a: seq<Byte>, b: seq<Byte>, i: nat)
    requires i <= |b| <= |a|
    ensures MemEqualFrom(a, b, i) <==> a[i..|b|] == b[i..]
    decreases |b| - i
  {
    if i < |b| {
      MemEqualFromIff(a, b, i + 1);
      assert a[i..|b|] == [a[i]] + a[i + 1..|b|];
      assert b[i..] == [b[i]] + b[i + 1..];
    }
  }

  /** How one round of the search ends. */
  datatype Step = Hit | Miss | StepFailed

  /** How the search ends: `*sig_addr` set to a probe, or to HADDR_UNDEF, or FAIL. */
  datatype SearchEnd = Found(addr: U64) | NotFound | Failed(kind: ErrKind)

  /**
   * One round at relative address `p` (lines 122-128): move the superblock EOA
   * to `p + H5F_SIGNATURE_LEN`, read that many bytes at `p`, compare them with
   * the signature.  Also the driver state the round leaves behind.
   */
  function ProbeStep(f: File, d: DriverState, p: U64): (Step, DriverState)
  {
    match f.SetEoaResult(d, Super, Add(p, SIGNATURE_LEN))
    case None => (StepFailed, d)
    case Some(d1) =>
      var r := f.ReadResult(d1, Super, p, SIGNATURE_LEN);
      if r.ReadData? then (if MemEqualFrom(r.bytes, SIGNATURE, 0) then Hit else Miss, d1)
      else (StepFailed, d1)
  }

  /** The round at `p` finds the signature. */
  predicate Hits(f: File, d: DriverState, p: U64)
  {
    ProbeStep(f, d, p).0 == Hit
  }

  /** `d2` differs from `d` at most in the superblock EOA. */
  ghost predicate EqualBesideSuper(d: DriverState, d2: DriverState)
  {
    d2.eof == d.eof && d2.data == d.data && d2.ioError == d.ioError &&
    d2.eoa - {Super} == d.eoa - {Super}
  }

  lemma BesideSuperIsUpdate(d: DriverState, d2: DriverState)
    requires EqualBesideSuper(d, d2) && Super in d2.eoa
    ensures d2 == d.(eoa := d.eoa[Super := d2.eoa[Super]])
  {
    var m := d.eoa[Super := d2.eoa[Super]];
    assert m.Keys == d2.eoa.Keys by {
      forall t ensures t in m <==> t in d2.eoa {
        if t != Super {
          assert t in m <==> t in d.eoa - {Super};
          assert t in d2.eoa <==> t in d2.eoa - {Super};
        }
      }
    }
    forall t | t in m ensures m[t] == d2.eoa[t] {
      if t != Super {
        assert m[t] == (d.eoa - {Super})[t];
        assert d2.eoa[t] == (d2.eoa - {Super})[t];
      }
    }
  }

  /** A round depends on the driver state only beside the superblock EOA, which it overwrites. */
  lemma ProbeStepBesideSuper(f: File, d: DriverState, d2: DriverState, p: U64)
    requires EqualBesideSuper(d, d2)
    ensures ProbeStep(f, d2, p).0 == ProbeStep(f, d, p).0
    ensures EqualBesideSuper(d, ProbeStep(f, d2, p).1)
    ensures Add(Add(p, SIGNATURE_LEN), f.baseAddr) <= f.cls.addrLimit ==>
              ProbeStep(f, d2, p).1 == d.(eoa := d.eoa[Super := Add(Add(p, SIGNATURE_LEN), f.baseAddr)])
    ensures Add(Add(p, SIGNATURE_LEN), f.baseAddr) > f.cls.addrLimit ==> ProbeStep(f, d2, p) == (StepFailed, d2)
  {
    var a := Add(Add(p, SIGNATURE_LEN), f.baseAddr);
    if a <= f.cls.addrLimit {
      var d1 := d.(eoa := d.eoa[Super := a]);
      var d21 := d2.(eoa := d2.eoa[Super := a]);
      assert f.SetEoaResult(d, Super, Add(p, SIGNATURE_LEN)) == Some(d1);
      assert f.SetEoaResult(d2, Super, Add(p, SIGNATURE_LEN)) == Some(d21);
      assert GetEoaCb(d1, Super) == GetEoaCb(d21, Super);
      assert f.ReadResult(d1, Super, p, SIGNATURE_LEN) == f.ReadResult(d21, Super, p, SIGNATURE_LEN);
      assert d21.eoa - {Super} == d2.eoa - {Super};
      BesideSuperIsUpdate(d, d21);
    }
  }

  /** The outcome of the round at each relative address, judged on driver state `d`. */
  function RoundOutcome(f: File, d: DriverState): U64 -> Step
  {
    (p: U64) => ProbeStep(f, d, p).0
  }

  /**
   * The driver state on entry to round `n`: as on entry to the search, but with
   * the superblock EOA just past the previous probe.
   */
  function Entering(f: File, d: DriverState, n: nat): DriverState
    requires 8 <= n <= 64
  {
    if n == 8 then d
    else d.(eoa := d.eoa[Super := Add(Add(Probe(n - 1), SIGNATURE_LEN), f.baseAddr)])
  }

  /**
   * The driver state after round `n`: the superblock EOA moved past the probe,
   * unless the driver refused that move.
   */
  function After(f: File, d: DriverState, n: nat): DriverState
    requires 8 <= n < 64
  {
    if Add(Add(Probe(n), SIGNATURE_LEN), f.baseAddr) <= f.cls.addrLimit then Entering(f, d, n + 1)
    else Entering(f, d, n)
  }

  lemma EnteringBesideSuper(f: File, d: DriverState, n: nat)
    requires 8 <= n <= 64
    ensures EqualBesideSuper(d, Entering(f, d, n))
  {
    if n > 8 {
      assert Entering(f, d, n).eoa - {Super} == d.eoa - {Super};
    }
  }

  /**
   * The loop of `H5FD_locate_signature` from round `n` on, and what follows it,
   * where `round` gives the outcome of each round as judged on the state `d`
   * the search started from: a hit ends the loop with the probe found, a failed
   * round ends the search with the EOA where that round left it, and when
   * rounds up to `m` all miss the superblock EOA is set back to `eoa`.  The
   * search only ever fails with CANTINIT.
   */
  function SearchFrom(f: File, d: DriverState, round: U64 -> Step, n: nat, m: nat, eoa: U64): (r: (SearchEnd, DriverState))
    requires 8 <= n <= m <= 64
    ensures r.0.Failed? ==> r.0.kind == CantInit
    decreases m - n
  {
    if n == m then
      var e := Entering(f, d, m);
      match f.SetEoaResult(e, Super, eoa)
      case None => (Failed(CantInit), e)
      case Some(d') => (NotFound, d')
    else if round(Probe(n)) == Miss then SearchFrom(f, d, round, n + 1, m, eoa)
    else (if round(Probe(n)) == Hit then Found(Probe(n)) else Failed(CantInit), After(f, d, n))
  }

  /**
   * `H5FD_locate_signature` on driver state `d`, given the relative EOF and EOA
   * that `H5FD_get_eof` and `H5FD_get_eoa` report for the superblock: fail
   * when neither is known, else run the rounds 8, 9, ..., MaxPow - 1.
   */
  function Locate(f: File, d: DriverState, eof: U64, eoa: U64): (r: (SearchEnd, DriverState))
    ensures Max(eof, eoa) == HADDR_UNDEF ==> r == (Failed(CantInit), d)
    ensures r.0.Failed? ==> r.0.kind == CantInit
  {
    var top := Max(eof, eoa);
    if top == HADDR_UNDEF then (Failed(CantInit), d)
    else SearchFrom(f, d, RoundOutcome(f, d), 8, MaxPow(top), eoa)
  }

  /**
   * Where the loop stops: every round from `n` up to `k` misses, and either
   * round `k` does not miss and ends the search there, or `k` is `m` and the
   * EOA is set back.
   */
  lemma {:induction false} FirstNonMiss(f: File, d: DriverState, round: U64 -> Step, n: nat, m: nat, eoa: U64)
    returns (k: nat)
    requires 8 <= n <= m <= 64
    ensures n <= k <= m
    ensures forall j :: n <= j < k ==> round(Probe(j)) == Miss
    ensures k < m ==> round(Probe(k)) != Miss
    ensures k < m ==> SearchFrom(f, d, round, n, m, eoa) ==
                        (if round(Probe(k)) == Hit then Found(Probe(k)) else Failed(CantInit), After(f, d, k))
    ensures k == m ==> SearchFrom(f, d, round, n, m, eoa) == SearchFrom(f, d, round, m, m, eoa)
    decreases m - n
  {
    if n == m || round(Probe(n)) != Miss {
      k := n;
    } else {
      k := FirstNonMiss(f, d, round, n + 1, m, eoa);
    }
  }

  /** The two outputs of the C function: its return value and `*sig_addr`. */
  function Report(e: SearchEnd): (Status, U64)
  {
    match e
    case Found(p) => (Succeed, p)
    case NotFound => (Succeed, HADDR_UNDEF)
    case Failed(k) => (Fail(k), HADDR_UNDEF)
  }

  /**
   * The assertion of `H5FD_set_eoa` holds for every call the search makes:
   * each probe end and the restored EOA are at most `maxaddr`.
   */
  predicate SearchFits(f: File, eof: U64, eoa: U64)
  {
    var top := Max(eof, eoa);
    top != HADDR_UNDEF ==> Probe(MaxPow(top) - 1) + SIGNATURE_LEN <= f.maxAddr && eoa <= f.maxAddr
  }

  lemma ProbeMonotone(i: nat, j: nat)
    requires 8 <= i <= j < 64
    ensures Probe(i) <= Probe(j)
  {
    if i < j {
      ProbeStrictlyIncreasing(i, j);
    }
  }

  /**
   * Round `n` run on the state the loop has reached when it starts that round:
   * its outcome is the one judged on the entry state, and it leaves `After`.
   */
  lemma RoundOnEntering(f: File, d0: DriverState, n: nat)
    requires 8 <= n < 64
    ensures ProbeStep(f, Entering(f, d0, n), Probe(n)) == (RoundOutcome(f, d0)(Probe(n)), After(f, d0, n))
    ensures RoundOutcome(f, d0)(Probe(n)) != StepFailed ==> After(f, d0, n) == Entering(f, d0, n + 1)
  {
    EnteringBesideSuper(f, d0, n);
    ProbeStepBesideSuper(f, d0, Entering(f, d0, n), Probe(n));
  }

  /**
   * Round `n` of the loop of `H5FD_locate_signature` (lines 122-128), started
   * from the state the search has reached, reading into `buf`: its outcome is
   * the one judged on the entry state `d0`, and it leaves `After(file, d0, n)`.
   */
  method SearchRound(file: File, ghost d0: DriverState, n: nat, buf: array<Byte>) returns (step: Step)
    requires 8 <= n < 64 && file.drv == Entering(file, d0, n)
    requires buf.Length == SIGNATURE_LEN && Probe(n) + SIGNATURE_LEN <= file.maxAddr
    modifies file, buf
    ensures step == RoundOutcome(file, d0)(Probe(n))
    ensures file.drv == After(file, d0, n)
    ensures step != StepFailed ==> file.drv == Entering(file, d0, n + 1)
  {
    RoundOnEntering(file, d0, n);
    var addr := Probe(n);
    ghost var d := file.drv;
    var st := file.SetEoa(Super, Add(addr, SIGNATURE_LEN));
    if st.Fail? {
      assert ProbeStep(file, d, addr) == (StepFailed, d);
      return StepFailed;
    }
    ghost var d1 := file.drv;
    ghost var r := file.ReadResult(d1, Super, addr, SIGNATURE_LEN);
    st := file.Read(Super, addr, SIGNATURE_LEN, buf);
    if st.Fail? {
      assert ProbeStep(file, d, addr) == (StepFailed, d1);
      return StepFailed;
    }
    MemEqualFromIff(r.bytes, SIGNATURE, 0);
    step := if buf[..] == SIGNATURE then Hit else Miss;
    assert ProbeStep(file, d, addr) == (step, d1);
  }

  /**
   * The loop of `H5FD_locate_signature` (lines 121-129) on the file, with
   * `maxpow` rounds: it ends either at round `n` that does not miss, with the
   * state after that round, or, every round missing, with `n == maxpow`.
   */
  method SearchLoop(file: File, ghost d0: DriverState, maxpow: nat, ghost eoa: U64, buf: array<Byte>)
    returns (n: nat, step: Step, addr: U64)
    requires 9 <= maxpow <= 64 && file.drv == d0
    requires buf.Length == SIGNATURE_LEN && Probe(maxpow - 1) + SIGNATURE_LEN <= file.maxAddr
    modifies file, buf
    ensures 8 <= n <= maxpow && (n == maxpow <==> step == Miss)
    ensures n < maxpow ==> addr == Probe(n) && file.drv == After(file, d0, n)
    ensures n < maxpow ==> SearchFrom(file, d0, RoundOutcome(file, d0), 8, maxpow, eoa) ==
                             (if step == Hit then Found(addr) else Failed(CantInit), file.drv)
    ensures n == maxpow ==> file.drv == Entering(file, d0, maxpow)
    ensures n == maxpow ==> SearchFrom(file, d0, RoundOutcome(file, d0), 8, maxpow, eoa) ==
                              SearchFrom(file, d0, RoundOutcome(file, d0), maxpow, maxpow, eoa)
  {
    ghost var round := RoundOutcome(file, d0);
    n := 8;
    step := Miss;
    addr := 0;
    while n < maxpow
      invariant 8 <= n <= maxpow && step == Miss
      invariant file.drv == Entering(file, d0, n)
      invariant SearchFrom(file, d0, round, n, maxpow, eoa) == SearchFrom(file, d0, round, 8, maxpow, eoa)
      decreases maxpow - n
    {
      addr := Probe(n);
      ProbeMonotone(n, maxpow - 1);
      step := SearchRound(file, d0, n, buf);
      if step != Miss {
        return;
      }
      n := n + 1;
    }
  }

  /** `H5FD_locate_signature`. */
  method LocateSignature(file: File) returns (status: Status, sigAddr: U64)
    requires SearchFits(file, file.GetEof(Super), file.GetEoa(Super))
    modifies file
    ensures (status, sigAddr) ==
              Report(Locate(file, old(file.drv), old(file.GetEof(Super)), old(file.GetEoa(Super))).0)
    ensures file.drv == Locate(file, old(file.drv), old(file.GetEof(Super)), old(file.GetEoa(Super))).1
  {
    var eof := file.GetEof(Super);
    var eoa := file.GetEoa(Super);
    var top := Max(eof, eoa);
    if top == HADDR_UNDEF {
      return Fail(CantInit), HADDR_UNDEF;
    }
    var maxpow := ComputeMaxPow(top);

    var buf := new Byte[SIGNATURE_LEN];
    var n, step, addr := SearchLoop(file, file.drv, maxpow, eoa, buf);
    if step == StepFailed {
      return Fail(CantInit), HADDR_UNDEF;
    }

    if n >= maxpow {
      var st := file.SetEoa(Super, eoa);
      if st.Fail? {
        return Fail(CantInit), HADDR_UNDEF;
      }
      sigAddr := HADDR_UNDEF;
    } else {
      sigAddr := addr;
    }
    status := Succeed;
  }

  /** The search changes nothing of the driver but its superblock EOA. */
  lemma SearchFromBesideSuper(f: File, d: DriverState, round: U64 -> Step, n: nat, m: nat, eoa: U64)
    requires 8 <= n <= m <= 64
    ensures EqualBesideSuper(d, SearchFrom(f, d, round, n, m, eoa).1)
  {
    var k := FirstNonMiss(f, d, round, n, m, eoa);
    if k < m {
      EnteringBesideSuper(f, d, k);
      EnteringBesideSuper(f, d, k + 1);
    } else {
      var e := Entering(f, d, m);
      EnteringBesideSuper(f, d, m);
      if Add(eoa, f.baseAddr) <= f.cls.addrLimit {
        assert e.eoa[Super := Add(eoa, f.baseAddr)] - {Super} == e.eoa - {Super};
      }
    }
  }

  /** Only the superblock EOA of the driver is ever changed by `H5FD_locate_signature`. */
  lemma LocateFrame(f: File, d: DriverState, eof: U64, eoa: U64)
    ensures EqualBesideSuper(d, Locate(f, d, eof, eoa).1)
  {
    var top := Max(eof, eoa);
    if top != HADDR_UNDEF {
      SearchFromBesideSuper(f, d, RoundOutcome(f, d), 8, MaxPow(top), eoa);
    }
  }

  /**
   * Found: the address is a scheduled probe at which the signature is read
   * back, the signature is in the file there, and the superblock EOA is left
   * just past it.
   */
  lemma FoundIsHit(f: File, d: DriverState, eof: U64, eoa: U64)
    requires Locate(f, d, eof, eoa).0.Found?
    ensures var p := Locate(f, d, eof, eoa).0.addr;
            && p in Schedule(MaxPow(Max(eof, eoa)))
            && Hits(f, d, p)
            && Fetch(d.data, Add(p, f.baseAddr), SIGNATURE_LEN) == SIGNATURE
            && Locate(f, d, eof, eoa).1 == d.(eoa := d.eoa[Super := Add(Add(p, SIGNATURE_LEN), f.baseAddr)])
  {
    var m := MaxPow(Max(eof, eoa));
    var k := SearchFound(f, d, RoundOutcome(f, d), m, eoa);
    HitLeavesEoaPastProbe(f, d, k);
  }

  /**
   * A round that matches had its EOA move accepted, finds the signature in the
   * file at the probe's absolute address, and leaves the superblock EOA just
   * past the probe.
   */
  lemma HitLeavesEoaPastProbe(f: File, d: DriverState, k: nat)
    requires 8 <= k < 64 && RoundOutcome(f, d)(Probe(k)) == Hit
    ensures Hits(f, d, Probe(k))
    ensures Add(Add(Probe(k), SIGNATURE_LEN), f.baseAddr) <= f.cls.addrLimit
    ensures Fetch(d.data, Add(Probe(k), f.baseAddr), SIGNATURE_LEN) == SIGNATURE
    ensures After(f, d, k) == d.(eoa := d.eoa[Super := Add(Add(Probe(k), SIGNATURE_LEN), f.baseAddr)])
  {
    var d1 := f.SetEoaResult(d, Super, Add(Probe(k), SIGNATURE_LEN)).value;
    var r := f.ReadResult(d1, Super, Probe(k), SIGNATURE_LEN);
    MemEqualFromIff(r.bytes, SIGNATURE, 0);
  }

  /** A found address is the probe of a round that matched, and the state is the one after it. */
  lemma SearchFound(f: File, d: DriverState, round: U64 -> Step, m: nat, eoa: U64) returns (k: nat)
    requires 8 <= m <= 64
    requires SearchFrom(f, d, round, 8, m, eoa).0.Found?
    ensures 8 <= k < m && SearchFrom(f, d, round, 8, m, eoa).0.addr == Probe(k)
    ensures Probe(k) in Schedule(m)
    ensures round(Probe(k)) == Hit
    ensures SearchFrom(f, d, round, 8, m, eoa).1 == After(f, d, k)
  {
    k := FirstNonMiss(f, d, round, 8, m, eoa);
    ScheduleHas(m, k - 8);
  }

  /** Found: no scheduled probe below the address found reads back the signature. */
  lemma FoundIsFirstHit(f: File, d: DriverState, eof: U64, eoa: U64)
    requires Locate(f, d, eof, eoa).0.Found?
    ensures forall q :: q in Schedule(MaxPow(Max(eof, eoa))) && q < Locate(f, d, eof, eoa).0.addr ==> !Hits(f, d, q)
  {
    var m := MaxPow(Max(eof, eoa));
    var k := FirstNonMiss(f, d, RoundOutcome(f, d), 8, m, eoa);
    EarlierProbesMiss(f, d, m, k);
  }

  /** When every round before `k` misses, no scheduled probe below the k-th hits. */
  lemma EarlierProbesMiss(f: File, d: DriverState, m: nat, k: nat)
    requires 8 <= k < m <= 64
    requires forall j :: 8 <= j < k ==> RoundOutcome(f, d)(Probe(j)) == Miss
    ensures forall q :: q in Schedule(m) && q < Probe(k) ==> ProbeStep(f, d, q).0 == Miss
  {
    forall q | q in Schedule(m) && q < Probe(k)
      ensures ProbeStep(f, d, q).0 == Miss
    {
      var j := ScheduleIndex(m, q);
      if j + 8 >= k {
        ProbeMonotone(k, 8 + j);
      }
      assert RoundOutcome(f, d)(Probe(8 + j)) == Miss;
    }
  }

  /** A member of the schedule is the probe of some round. */
  lemma ScheduleIndex(maxpow: nat, q: U64) returns (j: nat)
    requires 9 <= maxpow <= 64 && q in Schedule(maxpow)
    ensures 8 + j < maxpow && q == Probe(8 + j)
  {
    ProbesAt(8, maxpow);
    j :| 0 <= j < maxpow - 8 && Schedule(maxpow)[j] == q;
  }

  /**
   * Not found: no scheduled probe read back the signature, and the driver is
   * left exactly as it was on entry (the superblock EOA is restored).
   */
  lemma NotFoundRestoresDriver(f: File, d: DriverState, eof: U64, eoa: U64)
    requires GetEoaCb(d, Super) != HADDR_UNDEF && Add(eoa, f.baseAddr) == GetEoaCb(d, Super)
    requires Locate(f, d, eof, eoa).0 == NotFound
    ensures forall q :: q in Schedule(MaxPow(Max(eof, eoa))) ==> ProbeStep(f, d, q).0 == Miss
    ensures Locate(f, d, eof, eoa).1 == d
  {
    var m := MaxPow(Max(eof, eoa));
    SearchNotFound(f, d, RoundOutcome(f, d), m, eoa);
    forall q | q in Schedule(m)
      ensures ProbeStep(f, d, q).0 == Miss
    {
      var j := ScheduleIndex(m, q);
      assert RoundOutcome(f, d)(Probe(8 + j)) == Miss;
    }
  }

  /**
   * The search ends in not found only when every round missed, and then the
   * superblock EOA is set back to the relative `eoa`, which restores the
   * driver when `eoa` was its EOA.
   */
  lemma SearchNotFound(f: File, d: DriverState, round: U64 -> Step, m: nat, eoa: U64)
    requires 8 <= m <= 64
    requires SearchFrom(f, d, round, 8, m, eoa).0 == NotFound
    ensures forall j :: 8 <= j < m ==> round(Probe(j)) == Miss
    ensures SearchFrom(f, d, round, 8, m, eoa).1 ==
              Entering(f, d, m).(eoa := d.eoa[Super := Add(eoa, f.baseAddr)])
    ensures GetEoaCb(d, Super) != HADDR_UNDEF && Add(eoa, f.baseAddr) == GetEoaCb(d, Super) ==>
              SearchFrom(f, d, round, 8, m, eoa).1 == d
  {
    var k := FirstNonMiss(f, d, round, 8, m, eoa);
    var e := Entering(f, d, m);
    if GetEoaCb(d, Super) != HADDR_UNDEF && Add(eoa, f.baseAddr) == GetEoaCb(d, Super) {
      assert e.eoa[Super := d.eoa[Super]] == d.eoa;
    }
  }

  /**
   * Conversely, when no scheduled probe reads back the signature and the
   * driver accepts its original EOA again, the search reports not found and
   * leaves the driver as it was.
   */
  lemma NoHitMeansNotFound(f: File, d: DriverState, eof: U64, eoa: U64)
    requires Max(eof, eoa) != HADDR_UNDEF
    requires GetEoaCb(d, Super) <= f.cls.addrLimit && Add(eoa, f.baseAddr) == GetEoaCb(d, Super)
    requires forall q :: q in Schedule(MaxPow(Max(eof, eoa))) ==> ProbeStep(f, d, q).0 == Miss
    ensures Locate(f, d, eof, eoa) == (NotFound, d)
  {
    var m := MaxPow(Max(eof, eoa));
    var k := FirstNonMiss(f, d, RoundOutcome(f, d), 8, m, eoa);
    if k < m {
      ScheduleHas(m, k - 8);
      assert false;
    }
    NotFoundRestoresDriver(f, d, eof, eoa);
  }

  /** A file that starts with the signature right after its user block is found at 0. */
  lemma SignatureAtStartFound(f: File, d: DriverState, eof: U64, eoa: U64)
    requires Max(eof, eoa) != HADDR_UNDEF
    requires !d.ioError && f.baseAddr + SIGNATURE_LEN <= f.cls.addrLimit
    requires Fetch(d.data, f.baseAddr, SIGNATURE_LEN) == SIGNATURE
    ensures Locate(f, d, eof, eoa) == (Found(0), d.(eoa := d.eoa[Super := f.baseAddr + SIGNATURE_LEN]))
  {
    var d1 := d.(eoa := d.eoa[Super := f.baseAddr + SIGNATURE_LEN]);
    assert f.SetEoaResult(d, Super, Add(0, SIGNATURE_LEN)) == Some(d1);
    assert f.Admit(d1, Super, 0, SIGNATURE_LEN, !f.SwmrRead()) == Dispatch(f.baseAddr);
    MemEqualFromIff(Fetch(d.data, f.baseAddr, SIGNATURE_LEN), SIGNATURE, 0);
    assert ProbeStep(f, d, 0) == (Hit, d1);
    assert RoundOutcome(f, d)(Probe(8)) == Hit;
  }

  /**
   * A read failure inside the loop ends the search at once with CANTINIT and
   * leaves the superblock EOA at the probe's end: it is not restored.
   */
  lemma ReadFailureKeepsProbeEoa(f: File, d: DriverState, eof: U64, eoa: U64)
    requires Max(eof, eoa) != HADDR_UNDEF
    requires d.ioError && f.baseAddr + SIGNATURE_LEN <= f.cls.addrLimit
    ensures Locate(f, d, eof, eoa) == (Failed(CantInit), d.(eoa := d.eoa[Super := f.baseAddr + SIGNATURE_LEN]))
  {
    var d1 := d.(eoa := d.eoa[Super := f.baseAddr + SIGNATURE_LEN]);
    assert f.SetEoaResult(d, Super, Add(0, SIGNATURE_LEN)) == Some(d1);
    assert f.Admit(d1, Super, 0, SIGNATURE_LEN, !f.SwmrRead()) == Dispatch(f.baseAddr);
    assert ProbeStep(f, d, 0).0 == StepFailed;
    assert RoundOutcome(f, d)(Probe(8)) == StepFailed;
  }

  /** A refused EOA change ends the search at once with CANTINIT, the driver untouched. */
  lemma SetEoaFailureStopsSearch(f: File, d: DriverState, eof: U64, eoa: U64)
    requires Max(eof, eoa) != HADDR_UNDEF
    requires Add(SIGNATURE_LEN, f.baseAddr) > f.cls.addrLimit
    ensures Locate(f, d, eof, eoa) == (Failed(CantInit), d)
  {
    assert ProbeStep(f, d, 0).0 == StepFailed;
    assert RoundOutcome(f, d)(Probe(8)) == StepFailed;
  }
}

# HDF5 virtual file driver dispatch layer, in Dafny

This project models the dispatch layer that HDF5 places between the library
and a virtual file driver (VFD): `src/H5FDint.c`. Every call on an open file
(`H5FD_t`) goes through this layer before it reaches the driver's class table.

- **Address translation.** Addresses above this layer are relative to the end
  of the user block (`base_addr`). The layer adds `base_addr` on the way to the
  driver and subtracts it on the way back, in `H5FD_set_eoa`, `H5FD_get_eoa`
  and `H5FD_get_eof`. `H5FD_get_eof` falls back to `maxaddr` when the driver
  has no `get_eof`.
- **Bounds-checked I/O.** `H5FD_read` and `H5FD_write` compare
  `addr + base_addr + size` with the driver's end of allocation (EOA) before
  dispatching. Reads skip this check when the file is open for SWMR read. In a
  non-parallel build a zero-size request succeeds without calling the driver.
- **Signature search.** `H5FD_locate_signature` probes relative offset 0, then
  2^9, 2^10, … up to the larger of EOF and EOA, for the 8-byte HDF5 format
  signature. Before each probe it moves the superblock EOA past the probe.
  When no probe matches, it sets the EOA back.
- **The rest.** `H5FD_driver_query`, and the two end-of-tick hooks, which do
  nothing.

Files:

- `addresses.dfy` (module `Addresses`): `haddr_t`/`size_t` as unsigned 64-bit
  values, `HADDR_UNDEF`, C's wrap-around `+` and `-`, `MAX`, powers of two and
  bit length.
- `driver.dfy` (module `Driver`): the driver as an abstract value
  (`DriverState`: an absolute EOA per memory type, an EOF, the file's bytes, an
  I/O-error flag) and a class table (`DriverClass`). Each callback is a pure
  function with the behaviour a conforming driver is assumed to have.
- `vfd.dfy` (module `Vfd`): `H5FD_t` as `class File`.
  - `const` fields: the class, `base_addr`, `maxaddr`, `access_flags`, and the
    build option `H5_HAVE_PARALLEL`.
  - A mutable field holds the driver state.
  - The read/write checks are a function (`Admit`). Each operation is a pure
    function that specifies it (`ReadResult`, `WriteResult`, `SetEoaResult`),
    plus a method that changes the file or fills the caller's array.
- `signature.dfy` (module `Signature`): the probe schedule and the search.
  - `SearchRound`, `SearchLoop` and `LocateSignature` are the imperative code.
  - `Locate` and `SearchFrom` are its specification: each round's outcome is
    judged on the driver state at entry, which is valid because a round reads
    nothing the earlier rounds changed (`ProbeStepBesideSuper`).
  - Lemmas state what a found, not-found or failed search means about the file.

## Model

| member | source | states |
|---|---|---|
| Addresses.Add | src/H5FDint.c:199 | `addr + base_addr` as C computes it: the true sum, or the sum less 2^64 when it does not fit; a result below `a` means the sum wrapped |
| Addresses.Sub | src/H5FDint.c:334 | `ret_value -= base_addr` undoes adding `base_addr`, and is plain subtraction when there is no borrow |
| Addresses.Max | src/H5FDint.c:110 | `MAX(eof, eoa)` is an upper bound equal to one of them, and is HADDR_UNDEF exactly when either input is |
| Addresses.RelativeAbsoluteRoundTrip | src/H5FDint.c:330-334 | converting a relative address to absolute (`+ base_addr`) and back (`- base_addr`) returns it, for every address and base, wrap-around included |
| Addresses.BitLengthIsLeast | src/H5FDint.c:113-114 | the number of right shifts that take `addr` to 0 is the least N with 2^N > addr |
| Signature.MaxPow | src/H5FDint.c:110-115 | `maxpow` lies between 9 and 64, 2^maxpow exceeds `max(eof, eoa)`, and it is the least such N unless raised to 9 |
| Signature.ComputeMaxPow | src/H5FDint.c:113-115 | the shift loop followed by `MAX(maxpow, 9)` computes `MaxPow` |
| Signature.Probe | src/H5FDint.c:122 | round 8 probes offset 0 and round n > 8 probes 2^n (at least 512); the probe plus the signature length does not wrap |
| Signature.ProbeStrictlyIncreasing | src/H5FDint.c:121-122 | later rounds probe strictly higher addresses |
| Signature.ScheduleShape | src/H5FDint.c:121-122 | the schedule has maxpow - 8 entries: 0 first, then 2^(i+8), strictly increasing; 256 is never probed |
| Signature.ScheduleCoversFile | src/H5FDint.c:107-122 | offset 0 and every power of two from 512 up to `max(eof, eoa)` are probed, and every other probe lies in [512, max(eof, eoa)] (that those are powers of two is `ScheduleShape`) |
| Signature.EmptyFileProbesOnlyZero | src/H5FDint.c:107-122 | with eof = eoa = 0, maxpow is 9 and only offset 0 is probed |
| Signature.Schedule2050 | src/H5FDint.c:107-122 | with max(eof, eoa) = 2050, maxpow is 12 and the probes are 0, 512, 1024, 2048 |
| Signature.MemEqualFromIff | src/H5FDint.c:127 | the byte-by-byte `memcmp` over the signature's length is 0 exactly when the compared ranges are equal |
| Signature.ProbeStep | src/H5FDint.c:122-128 | one round by definition (no contract of its own): set the superblock EOA to probe + 8, on refusal fail; read 8 bytes at the probe, on failure fail; otherwise hit when `memcmp` is 0 and miss when it is not; its properties are the lemmas in the rows below |
| Signature.ProbeStepBesideSuper | src/H5FDint.c:122-128 | a round's outcome does not depend on anything earlier rounds changed; it changes only the superblock EOA, leaving it at probe + 8 + base_addr when the driver accepts that, and changes nothing otherwise |
| Signature.SearchFrom | src/H5FDint.c:121-138 | the loop and the restore that follows it fail, if at all, only with CANTINIT |
| Signature.Locate | src/H5FDint.c:107-146 | an undefined EOF or EOA fails the search with CANTINIT before any probe and leaves the driver untouched; no other error kind escapes |
| Signature.FirstNonMiss | src/H5FDint.c:121-138 | the loop stops at the first round that does not miss: a match there is reported with the state after that round, and a failure there is CANTINIT with the EOA where that round left it; if every round misses, the EOA is set back |
| Signature.SearchRound | src/H5FDint.c:122-128 | one loop iteration on the real file gives the round's outcome judged on the entry state, and leaves the driver in the state after that round |
| Signature.SearchLoop | src/H5FDint.c:121-129 | the loop stops at the first round that does not miss: a match is reported at that probe, a failure as CANTINIT, both with the state after that round; when every round misses, the EOA is left past the last probe, ready to be set back |
| Signature.LocateSignature | src/H5FDint.c:94-146 | the return status, `*sig_addr` and the driver state afterwards are those `Locate` gives for the entry state and the EOF/EOA read at entry |
| Signature.Report | src/H5FDint.c:135-142 | the C outputs by definition (no contract of its own): SUCCEED with `*sig_addr` the probe when found, SUCCEED with HADDR_UNDEF when not found, FAIL with the error kind otherwise; `LocateSignature`'s ensures is stated through it |
| Signature.SearchFromBesideSuper | src/H5FDint.c:121-138 | the loop and the restore change nothing in the driver but the superblock EOA |
| Signature.LocateFrame | src/H5FDint.c:107-146 | the search changes nothing in the driver but the superblock EOA: not the data, the EOF, or the EOA of any other memory type |
| Signature.FoundIsHit | src/H5FDint.c:121-142 | a found address is a scheduled probe at which the round matches, the file holds the signature there, and the superblock EOA is left at that probe + 8 (not restored) |
| Signature.SearchFound | src/H5FDint.c:121-142 | a found address is the scheduled probe of a round that matched, and the state is the one after that round |
| Signature.HitLeavesEoaPastProbe | src/H5FDint.c:122-128 | a round that matches had its EOA move accepted, finds the signature in the file at the probe's absolute address, and leaves the superblock EOA just past the probe |
| Signature.FoundIsFirstHit | src/H5FDint.c:121-128 | no scheduled probe below the found address matches: the first match stops the search |
| Signature.EarlierProbesMiss | src/H5FDint.c:121-128 | when every round before round k missed, every scheduled probe below round k's probe misses |
| Signature.SearchNotFound | src/H5FDint.c:135-138 | not found only when every round missed; the superblock EOA is then set to `eoa + base_addr`, which restores the driver when `eoa` is its EOA read at entry |
| Signature.NotFoundRestoresDriver | src/H5FDint.c:135-138 | not found: every scheduled probe misses, and the driver is left exactly as it was on entry |
| Signature.NoHitMeansNotFound | src/H5FDint.c:121-138 | conversely, when every scheduled probe misses and the driver accepts its original EOA, the search reports not found and leaves the driver unchanged |
| Signature.SignatureAtStartFound | src/H5FDint.c:121-142 | a file whose first 8 bytes after the user block are the signature is found at 0, with the superblock EOA at base_addr + 8 |
| Signature.ReadFailureKeepsProbeEoa | src/H5FDint.c:125-126 | a read that fails in the loop ends the search with CANTINIT at once, and the EOA is left at the probe's end, not restored |
| Signature.SetEoaFailureStopsSearch | src/H5FDint.c:123-124 | a refused first EOA move (round 8) ends the search with CANTINIT at once, the driver untouched |
| Vfd.File.SwmrRead | src/H5FDint.c:193 | the flag test by definition (no contract of its own): the `H5F_ACC_SWMR_READ` bit of `access_flags` is set; `ReadResult` skips the EOA check exactly then, and `SwmrReadIgnoresEoa` states the consequence |
| Vfd.File.GetEoa | src/H5FDint.c:320-338 | HADDR_UNDEF when the driver has no EOA for the type; otherwise the relative address whose absolute form is the driver's EOA |
| Vfd.File.GetEof | src/H5FDint.c:362-384 | with `get_eof`: HADDR_UNDEF when it fails, else the relative form of the driver's EOF; without it: the relative form of `maxaddr` |
| Vfd.File.SetEoaResult | src/H5FDint.c:283-299 | the driver accepts the EOA exactly when `addr + base_addr` is within its limit; then `H5FD_get_eoa` reads back `addr`, and no other type's EOA, data, EOF or error flag changes |
| Vfd.File.SetEoa | src/H5FDint.c:283-299 | requires a defined `addr <= maxaddr`; a refusal fails with CANTINIT and no side effect; on success the driver holds the new EOA and `GetEoa` returns `addr` |
| Vfd.File.Admit | src/H5FDint.c:178-201 | no-op exactly for size 0 in a non-parallel build; otherwise, when bounded, CANTINIT exactly when the EOA is undefined and OVERFLOW exactly when the wrapped sum `addr + base_addr + size` exceeds it; otherwise dispatch at `addr + base_addr` |
| Vfd.File.ReadResult | src/H5FDint.c:162-209 | no-op exactly for size 0 in a non-parallel build; data the driver returns is the file's bytes at `addr + base_addr` taken modulo 2^64, and, unless SWMR read, wholly below the EOA from that address (the layer's check, and the driver's limit when adding `size` wraps); errors are only CANTINIT, OVERFLOW or READERROR |
| Vfd.File.Read | src/H5FDint.c:162-209 | fills `buf[..size]` with the bytes read on success; leaves `buf` untouched on a no-op or a failure, and returns the error kind |
| Vfd.File.WriteResult | src/H5FDint.c:225-262 | no-op exactly for size 0 in a non-parallel build; a write the driver completes lies below the EOA from `addr + base_addr` taken modulo 2^64 (the layer's check, and the driver's limit when adding `size` wraps); the bytes read back there are those written; every EOA, the error flag and every other byte of the file are kept, and the EOF stays or moves to the end of the write; errors are only CANTINIT, OVERFLOW or WRITEERROR |
| Vfd.File.Write | src/H5FDint.c:225-262 | on success the driver holds the state the write produces; on a no-op or a failure the driver is unchanged and the error kind is returned |
| Vfd.File.ReadAfterWrite | src/H5FDint.c:193-258 | reading back a region just written (not a no-op) returns the bytes written |
| Vfd.File.ExactEoaBoundary | src/H5FDint.c:199-200 | without wrap-around the check is exact: a request ending at the EOA is dispatched, one ending a byte beyond fails with OVERFLOW |
| Vfd.File.SwmrReadIgnoresEoa | src/H5FDint.c:186-204 | with SWMR read set, a read past the EOA still reaches the driver and returns the file's bytes |
| Vfd.File.DispatchedEndsBelowEoa | src/H5FDint.c:250-257 | the layer's own guarantee: when `addr + base_addr + size` does not wrap, a checked request that is dispatched has a defined EOA and ends at or below it |
| Vfd.File.WrappedAddressReadsUserBlock | src/H5FDint.c:199-204 | when `addr + base_addr` itself wraps, the driver receives the reduced address, below `base_addr`, and the read succeeds with the bytes of the user block stored there |
| Vfd.File.WrappedSumPassesCheck | src/H5FDint.c:252-254 | the 64-bit sum in the check can wrap: a request near 2^64 passes an EOA of 100 |
| Vfd.DriverQuery | src/H5FDint.c:402-419 | without `query` the flags are 0 and the call succeeds; otherwise the driver's own reply is returned |
| Vfd.WriterEndOfTick | src/H5FDint.c:433-441 | always SUCCEED |
| Vfd.ReaderEndOfTick | src/H5FDint.c:455-463 | always SUCCEED |

## Left out

- The `#ifdef OUT` block of `src/H5FDint.c` (lines 465-543) is never compiled, so it is not modelled.
- `test/beam_macsio2_mongo.py` is a data pipeline around external services, so it is not part of this model.
- The concrete drivers (`sec2`, `core`, MPI-IO, …) are foreign code reached through the class table. They are modelled as one abstract driver: pure callbacks over `DriverState`. `set_eoa`, `read` and `write` fail when the absolute address (for `read` and `write`, the true, unwrapped end of the transfer) is past a fixed address limit; only `read` and `write` also fail on a device error (`set_eoa` never does); reads past the data return zeros, and a write past the EOF moves the EOF.
- `H5CX_get_dxpl()`, the error stack and the `FUNC_ENTER`/`FUNC_LEAVE` macros carry no logic here. Results are a `Status` datatype that carries the error kind instead.
- SWMR coordination and parallel collective I/O are reduced to the `H5F_ACC_SWMR_READ` bit of `access_flags` and the build option `H5_HAVE_PARALLEL` (a `const` field of `File`, so both builds are covered).
- `HDassert` checks become preconditions:
  - on `SetEoa`: a defined address no greater than `maxaddr`;
  - on `LocateSignature`: every scheduled probe end and the restored EOA are at most `maxaddr`. This is sufficient for every `H5FD_set_eoa` call to meet its assertion, but it also covers rounds C never runs. For example, with EOF = `maxaddr` = 516 and the signature at 0, C stops after one round, yet the precondition (512 + 8 <= 516) rules the call out;
  - on `Read`/`Write`: the caller's buffer holds at least `size` bytes.
- Vfd.File.ReadResult: the "below the EOA" clause is stated from the absolute address `addr + base_addr` as C computes it, modulo 2^64, and holds partly because of the abstract driver. Two wraps are possible in the check of `H5FD_read` (line 199):
  - when `addr + base_addr` wraps, the driver receives the reduced address, below `base_addr`, and the check applies to that address; the read then returns bytes of the user block (`WrappedAddressReadsUserBlock`);
  - when only adding `size` wraps, the check lets the request through (`WrappedSumPassesCheck`), and the request fails only because the driver refuses an end past its address limit.
  The layer's own guarantee, without either wrap, is `DispatchedEndsBelowEoa`.
- Vfd.File.WriteResult: the same holds for `H5FD_write` (line 252): a wrapped `addr + base_addr` writes into the user block at the reduced address.
- Vfd.File.Read copies the driver's bytes into `buf`. The abstract driver writes only those bytes and never reads the caller's buffer, so aliasing between buffers is not modelled.
- Signature.LocateSignature: on failure C leaves `*sig_addr` untouched. The model returns HADDR_UNDEF there instead, because a method must give its out-parameter a value.
- `H5F_SIGNATURE` is defined outside `src/H5FDint.c`. Its bytes are taken from the HDF5 File Format Specification, section "Format Signature and Superblock".
- Three behaviours follow the code, although one might expect otherwise:
  - When a round fails inside the loop, the code does not set the superblock EOA back; the error goes straight to `done:` (`ReadFailureKeepsProbeEoa`).
  - On success the EOA is left at the probe's end.
  - `*sig_addr` is the relative probe address, not the absolute one.
- Signature.LocateSignature: each round's outcome is judged on the driver state at entry, not on the state the loop has reached. `SearchRound` proves the two agree, because a round overwrites the only part of the state that earlier rounds changed.

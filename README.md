# nRF5 multi-programmer: a Dafny model

`nrf5_multi_prog` flashes one Intel HEX image onto several nRF5 targets, one debug probe
per target. The `nRF5MultiFlash` object does the work:

- it derives its configuration from the `program` command line: the family, the serial
  numbers and the flash page size;
- for each serial number it opens a `MultiAPI` handle and connects to the target;
- it runs an optional recover and an optional UICR erase;
- then, segment by segment, it erases the segment's flash pages, writes the segment,
  reads it back and compares, and resets the target;
- last, it disconnects and closes the handle.

The model covers that logic in four modules:

- `ErasePlan` (erase_plan.dfy): the page-erase loop as pure arithmetic. Page indices run
  from `start / PAGE_SIZE` to `end / PAGE_SIZE` inclusive, with Python 2 integer division.
  Lemmas cover the plan's shape, membership, coverage and its trailing-page behaviour.
- `Probe` (probe.dfy): the probe handle as a class whose methods append one `Op` to an
  operation log (`ops`). The hardware (`Host`) is an input: it fixes the serial numbers
  attached and what each target's memory reads back as.
- `Trace` (trace.dfy): the operations a device receives, as functions of the settings,
  the segments and the target's memory: `SegmentOps`, `Programmed`, `DeviceRun`. Lemmas
  state what that sequence guarantees:
  - ordering and presence of each operation per flag;
  - the early stop on a failed verification;
  - the skipped cleanup;
  - write and reset counts;
  - erase-before-write coverage.
- `MultiProg` (multi_prog.dfy): the configuration functions, `_byte_lists_equal` as a loop,
  and the class `MultiFlash`. Its methods drive a `MultiApi` handle. Each method's
  postcondition equates the handle's new log with the `Trace` function for the same
  inputs, so every `Trace` lemma holds of what the methods do.

Three behaviours of the code that a reader might not expect. The model keeps each:

- `sys_reset` is issued once per segment, inside the segment loop (lines 130-131), not
  once after all segments.
- A failed verification raises (line 128). Nothing in `perform_command` catches it, so
  the cleanup is skipped. The handle stays connected and is never closed
  (`PerformCommand`, `CleanupOnlyOnSuccess`).
- The three erase flags are not mutually exclusive in the object. Recover and the UICR
  erase can both be issued, in that order (`PreambleFirst`). Enumeration always uses an
  NRF51 handle, whatever the family.

The page plan erases one page more than the segment occupies when the segment ends on a
page boundary. `PageAddressesQuirk` states this exactly, and the model keeps the
behaviour as the code has it.

## Model

| member | source | states |
|---|---|---|
| ErasePlan.PageAddressesShape | nrf5_multi_prog/nrf5_multi_prog.py:118-121 | the plan has end/p - start/p + 1 entries; entry i is (start/p + i) * p, so every entry is page-aligned; entries strictly ascend by at least one page, so no page is erased twice |
| ErasePlan.PageAddressesMember | nrf5_multi_prog/nrf5_multi_prog.py:118-121 | an address is in the plan iff it is page-aligned and its page [x, x+p) meets the closed range [start, end] |
| ErasePlan.DataPagesMember | nrf5_multi_prog/nrf5_multi_prog.py:114-121 | reference plan: an address is in it iff it is page-aligned and its page meets the half-open range [start, end) that holds the segment's bytes |
| ErasePlan.PageAddressesCover | nrf5_multi_prog/nrf5_multi_prog.py:118-121 | every address of the segment lies in exactly one planned page |
| ErasePlan.SharedPageErasedTwice | nrf5_multi_prog/nrf5_multi_prog.py:117-121 | plans are made per segment: segments [0x1000, 0x1200) and [0x1300, 0x1400) with 0x400-byte pages both erase the page at 0x1000 |
| ErasePlan.PageAddressesQuirk | nrf5_multi_prog/nrf5_multi_prog.py:119-120 | the plan equals the reference plan, plus the page starting at end exactly when end is page-aligned |
| Trace.ProgrammedStep | nrf5_multi_prog/nrf5_multi_prog.py:113-131 | after a prefix of segments that verified, the next segment appends exactly its own operations; its outcome is a failure at its index iff its verification fails |
| Trace.ProgrammedPrefix | nrf5_multi_prog/nrf5_multi_prog.py:113-128 | a prefix of the segments issues a prefix of the log; once a verification has failed, later segments add nothing |
| Trace.CompletedIffAllMatch | nrf5_multi_prog/nrf5_multi_prog.py:126-128 | the segment loop completes iff no segment fails its read-back comparison |
| Trace.FailureAt | nrf5_multi_prog/nrf5_multi_prog.py:126-128 | a failure names the first failing segment; all earlier segments verified; the log is exactly the earlier segments' operations followed by the failing segment's |
| Trace.CompletedOps | nrf5_multi_prog/nrf5_multi_prog.py:113-131 | a completed loop's log is every segment's operations concatenated in the reader's order |
| Trace.SegmentOps | nrf5_multi_prog/nrf5_multi_prog.py:117-131 | one segment's operations: its page erases, exactly those of the segment's page plan (`SegmentErases` over `PageAddresses`), then the write at its start, then the read-back of as many bytes when verifying, then the reset when resets are on and the read-back matched; nothing else |
| Trace.FailedSegmentEnds | nrf5_multi_prog/nrf5_multi_prog.py:126-131 | a segment that fails verification ends with its read-back: no reset follows |
| Trace.Preamble | nrf5_multi_prog/nrf5_multi_prog.py:108-111 | one operation per set flag, each a recover or a UICR erase; recover occurs iff erase_all and comes first; the UICR erase occurs iff sectors_and_uicr_erase and comes last |
| Trace.Head | nrf5_multi_prog/nrf5_multi_prog.py:102-111 | two operations plus one per set erase flag: open(family) then connect(snr); recover iff erase_all, always third; the UICR erase iff sectors_and_uicr_erase, always last, and after recover when both are set; nothing else is issued before the segment loop |
| Trace.CleanupOps | nrf5_multi_prog/nrf5_multi_prog.py:133-135 | disconnect and close are issued iff the segment loop completed, and close comes last |
| Trace.DeviceRun | nrf5_multi_prog/nrf5_multi_prog.py:139-142 | every device's log starts with open(family), connect(snr); a completed run ends with close |
| Trace.ErasesIff | nrf5_multi_prog/nrf5_multi_prog.py:117 | the device's log contains a page erase iff sectors_erase or sectors_and_uicr_erase is set and there is a segment |
| Trace.PreambleFirst | nrf5_multi_prog/nrf5_multi_prog.py:102-111 | the log starts with open(family) and connect(snr); recover occurs iff erase_all and the UICR erase iff sectors_and_uicr_erase; recover precedes the UICR erase, and both precede every segment operation |
| Trace.CleanupOnlyOnSuccess | nrf5_multi_prog/nrf5_multi_prog.py:128-142 | on success the log ends with disconnect, close, and neither occurs earlier; after a failed verification neither occurs at all and the log ends with the failing segment's read-back |
| Trace.WritesAndResets | nrf5_multi_prog/nrf5_multi_prog.py:113-131 | on success the writes are one per segment, in order, at each segment's start with its bytes, and there is one reset per segment when resets are on, else none; after a failure at segment k, the writes are those of segments 0..k and the resets number k (or none) |
| Trace.WrittenBytesErased | nrf5_multi_prog/nrf5_multi_prog.py:117-124 | with a sector-erase flag, a segment's operations start with its aligned page erases, then its write; every byte the write covers lies in a page erased before it |
| MultiProg.FamilyOf | nrf5_multi_prog/nrf5_multi_prog.py:80-81 | an absent or empty family becomes "NRF51"; a given one is kept; the result is never empty |
| MultiProg.PageSizeOf | nrf5_multi_prog/nrf5_multi_prog.py:89-92 | the page size is 0x400 or 0x1000, and it is 0x400 iff the family is "NRF51" |
| MultiProg.SnrsOf | nrf5_multi_prog/nrf5_multi_prog.py:83-87 | a non-empty serial-number list is kept as given; an absent or empty one becomes the probes attached |
| MultiProg.EnumerationOps | nrf5_multi_prog/nrf5_multi_prog.py:83-87 | a scratch handle is used iff no serial number is given; it is opened as NRF51 and ends closed |
| MultiProg.ByteListsEqual | nrf5_multi_prog/nrf5_multi_prog.py:96-100 | true iff data[i] == readData[i] for every i < len(data); bytes of readData past len(data) are ignored |
| MultiProg.MultiFlash.constructor | nrf5_multi_prog/nrf5_multi_prog.py:69-92 | the flags are copied from the command line; the family, serial numbers, page size and scratch-handle calls are those of FamilyOf, SnrsOf, PageSizeOf and EnumerationOps |
| MultiProg.MultiFlash.ListProbes | nrf5_multi_prog/nrf5_multi_prog.py:84-87 | returns the attached serial numbers; the scratch handle's log is open("NRF51"), enumerate, close |
| MultiProg.MultiFlash.ConnectToDevice | nrf5_multi_prog/nrf5_multi_prog.py:102-105 | a fresh handle for the family, connected to the device, whose log is open(family), connect(device) |
| MultiProg.MultiFlash.EraseSegment | nrf5_multi_prog/nrf5_multi_prog.py:117-121 | the page loop appends to the log exactly one erase per page of the plan, in plan order, when a sector-erase flag is set, and nothing otherwise |
| MultiProg.MultiFlash.ProgramSegment | nrf5_multi_prog/nrf5_multi_prog.py:114-131 | one iteration of the segment loop appends that segment's operations; it reports a failure iff the read-back differs from the segment's bytes |
| MultiProg.MultiFlash.ProgramSegments | nrf5_multi_prog/nrf5_multi_prog.py:113-131 | the segment loop appends exactly the log of Programmed for the segments and the target's memory, and returns its outcome |
| MultiProg.MultiFlash.ProgramDevice | nrf5_multi_prog/nrf5_multi_prog.py:107-131 | `_program_device` appends the preamble (recover, UICR erase) and then the segment loop's log |
| MultiProg.MultiFlash.Cleanup | nrf5_multi_prog/nrf5_multi_prog.py:133-135 | appends disconnect, close and leaves the handle disconnected |
| MultiProg.MultiFlash.PerformCommand | nrf5_multi_prog/nrf5_multi_prog.py:139-142 | the new handle's log and the outcome are those of DeviceRun for the device; the handle is left connected iff the verification failed |
| Probe.MultiApi.Read | nrf5_multi_prog/nrf5_multi_prog.py:127 | logs the read and returns `length` bytes of the connected target's memory from `addr` |

## Left out

- The `CLI` class (lines 8-65) is argument parsing only. `Args` stands for its result,
  and the mutual exclusion of the erase flags, which only the parser enforces, is not
  assumed.
- Loading the HEX file and `tobinarray` (lines 94, 123) belong to the IntelHex library.
  The segments and their bytes are inputs (`segments`). Lemmas that need the reader's
  guarantee, a non-empty range with one byte per address, require `WellFormed`.
- The `pynrfjprog` calls are foreign I/O. Each is modelled as one `Op` appended to the
  handle's log. What a read returns comes from `Host`, an input. Writes do not change it,
  so whether a verification fails is decided by that input.
- The model assumes Python assertions are enabled. The stop on a failed verification comes
  from the `assert` at line 128, which `python -O` removes. Under `-O` a mismatch is
  ignored, resets go on and the cleanup runs.
- The third argument of `write` (line 124, always `True`) is not recorded in the `Write` op.
- Errors raised by the probe library itself (a failed connect, an unreachable probe) are
  not modelled. The only failure modelled is the verification assertion.
- `main` and its `ThreadPool` (lines 144-151) run `perform_command` once per serial
  number, concurrently. The concurrency is not modelled. `PerformCommand` models one
  device's run, and runs on different devices share nothing but the immutable settings
  and segments.
- The `nRF5_instances` dictionary (lines 70, 103) is shared by the worker threads. It is
  replaced by the handle that `ConnectToDevice` and `PerformCommand` return.
- MultiProg.PageSizeOf: `self.family is 'NRF51'` (line 89) is an identity test whose
  result depends on string interning. The model uses string equality, so a family given
  as "NRF51" on the command line gets 0x400 here, where CPython may give 0x1000.
- MultiProg.ByteListsEqual: requires `len(readData) >= len(data)`. On a shorter list the
  Python loop (lines 97-99) returns False at the first mismatch, and raises an IndexError
  only when all of the first `len(read_data)` bytes match. The read at line 127 always
  asks for `len(data)` bytes, so every caller meets the requirement.
- Target memory is an input that writes and erases do not change. So the model does not
  show that a later segment's page erase can wipe an earlier segment that shares the page
  and has already been written and verified. For example, with 0x400-byte pages, the
  segments [0x1000, 0x1200) and [0x1300, 0x1400) both erase the page at 0x1000
  (`SharedPageErasedTwice`), although the `-se` help text promises erasing before
  programming (line 53).

/** The `nRF5MultiFlash` object (nrf5_multi_prog.py, lines 68-142): the configuration
    `__init__` derives from the command line, the read-back comparison, and the calls
    `perform_command` makes on one device's probe handle. */
module MultiProg {
  import opened ErasePlan
  import opened Probe
  import opened Trace

  datatype Option<T> = None | Some(value: T)

  /** The parsed `program` command line; `None` is an option left out. */
  datatype Args = Args(
    eraseAll: bool,
    family: Option<string>,
    sectorsErase: bool,
    sectorsAndUicrErase: bool,
    snrs: Option<seq<int>>,
    systemReset: bool,
    verify: bool)

  /** Python's `not x` for an optional string or list: absent or empty. */
  predicate Missing<T>(x: Option<seq<T>>)
  {
    x.None? || x.value == []
  }

  /** The family `__init__` settles on: the one given, else "NRF51". */
  function FamilyOf(family: Option<string>): (r: string)
    ensures r != []
    ensures Missing(family) ==> r == "NRF51"
    ensures !Missing(family) ==> r == family.value
  {
    if Missing(family) then "NRF51" else family.value
  }

  /** The flash page size: 1 KB for NRF51, 4 KB for any other family. */
  function PageSizeOf(family: string): (r: PageSize)
    ensures r == 0x400 || r == 0x1000
    ensures r == 0x400 <==> family == "NRF51"
  {
    if family == "NRF51" then 0x400 else 0x1000
  }

  /** The devices to program: the serial numbers given, used as they are, else every
      probe attached. */
  function SnrsOf(snrs: Option<seq<int>>, attached: seq<int>): (r: seq<int>)
    ensures !Missing(snrs) ==> r == snrs.value && |r| > 0
    ensures Missing(snrs) ==> r == attached
  {
    if Missing(snrs) then attached else snrs.value
  }

  /** The calls on the scratch handle that `__init__` opens to list the probes; it is
      always an NRF51 handle, whatever the family. */
  function EnumerationOps(snrs: Option<seq<int>>): (r: seq<Op>)
    ensures r != [] <==> Missing(snrs)
    ensures r != [] ==> r[0] == Open("NRF51") && r[|r| - 1] == Close
  {
    if Missing(snrs) then [Open("NRF51"), EnumEmuSnr, Close] else []
  }

  /** `_byte_lists_equal`: compares `data` with the first |data| bytes read back, stopping
      at the first difference. */
  method ByteListsEqual(data: seq<Byte>, readData: seq<Byte>) returns (equal: bool)
    requires |readData| >= |data|
    ensures equal <==> forall i :: 0 <= i < |data| ==> data[i] == readData[i]
  {
    for i := 0 to |data|
      invariant forall j :: 0 <= j < i ==> data[j] == readData[j]
    {
      if data[i] != readData[i] {
        return false;
      }
    }
    return true;
  }

  class MultiFlash {
    const eraseAll: bool
    const family: string
    const sectorsErase: bool
    const sectorsAndUicrErase: bool
    const snrs: seq<int>
    const systemReset: bool
    const verify: bool
    const pageSize: PageSize
    /** The image's segments with their bytes, as the hex-file reader delivers them. */
    const segments: seq<Segment>
    /** The hardware behind the probes. */
    const host: Host
    /** The calls made on the scratch handle that lists the probes, if one was needed. */
    const enumerationOps: seq<Op>

    /** The fields that decide what each device receives. */
    function Config(): Settings
    {
      Settings(family, eraseAll, sectorsErase, sectorsAndUicrErase, verify, systemReset, pageSize)
    }

    /** `__init__`: copy the options, default the family, list the probes when no serial
        number is given, and pick the page size. */
    constructor (args: Args, image: seq<Segment>, host: Host)
      ensures eraseAll == args.eraseAll && sectorsErase == args.sectorsErase
      ensures sectorsAndUicrErase == args.sectorsAndUicrErase
      ensures systemReset == args.systemReset && verify == args.verify
      ensures family == FamilyOf(args.family)
      ensures snrs == SnrsOf(args.snrs, host.attached)
      ensures pageSize == PageSizeOf(family)
      ensures enumerationOps == EnumerationOps(args.snrs)
      ensures segments == image && this.host == host
    {
      eraseAll := args.eraseAll;
      sectorsErase := args.sectorsErase;
      sectorsAndUicrErase := args.sectorsAndUicrErase;
      systemReset := args.systemReset;
      verify := args.verify;
      segments := image;
      this.host := host;

      var chosen := if Missing(args.family) then "NRF51" else args.family.value;
      family := chosen;
      pageSize := if chosen == "NRF51" then 0x400 else 0x1000;

      if Missing(args.snrs) {
        var found, listing := ListProbes(host);
        snrs, enumerationOps := found, listing;
      } else {
        snrs, enumerationOps := args.snrs.value, [];
      }
    }

    /** The probe listing in `__init__`: a scratch NRF51 handle is opened, asked for the
        attached serial numbers, and closed again. */
    static method ListProbes(host: Host) returns (snrs: seq<int>, ops: seq<Op>)
      ensures snrs == host.attached
      ensures ops == [Open("NRF51"), EnumEmuSnr, Close]
    {
      var scratch := new MultiApi("NRF51", host);
      scratch.Open();
      snrs := scratch.EnumEmuSnr();
      scratch.Close();
      ops := scratch.ops;
    }

    /** `_connect_to_device`: a new handle for the family, opened and connected. */
    method ConnectToDevice(device: int) returns (probe: MultiApi)
      ensures fresh(probe)
      ensures probe.family == family && probe.host == host
      ensures probe.connected && probe.snr == device
      ensures probe.ops == [Open(family), ConnectToEmuWithSnr(device)]
    {
      probe := new MultiApi(family, host);
      probe.Open();
      probe.ConnectToEmuWithSnr(device);
    }

    /** `_program_device`: the preamble, then per segment its page erases, the write, the
        read-back check and the reset; a failed check ends the method there. */
    method ProgramDevice(probe: MultiApi) returns (outcome: Outcome)
      requires probe.connected
      modifies probe`ops
      ensures probe.ops == old(probe.ops) + Preamble(Config())
                           + Programmed(Config(), segments, probe.host.memory(probe.snr)).ops
      ensures outcome == Programmed(Config(), segments, probe.host.memory(probe.snr)).outcome
    {
      if eraseAll {
        probe.Recover();
      }
      if sectorsAndUicrErase {
        AppendAssoc(old(probe.ops), if eraseAll then [Recover] else [], [EraseUicr]);
        probe.EraseUicr();
      }
      ghost var afterPreamble := probe.ops;
      assert afterPreamble == old(probe.ops) + Preamble(Config());
      outcome := ProgramSegments(probe);
    }

    /** The segment loop of `_program_device`: segments in the image's order, each
        checked before the next is touched. */
    method ProgramSegments(probe: MultiApi) returns (outcome: Outcome)
      requires probe.connected
      modifies probe`ops
      ensures probe.ops == old(probe.ops) + Programmed(Config(), segments, probe.host.memory(probe.snr)).ops
      ensures outcome == Programmed(Config(), segments, probe.host.memory(probe.snr)).outcome
    {
      ghost var base := probe.ops;
      ghost var s := Config();
      ghost var mem := probe.host.memory(probe.snr);
      var segs := segments;
      ghost var run := Run([], Completed);
      var i := 0;
      while i < |segs|
        invariant 0 <= i <= |segs|
        invariant run == Programmed(s, segs[..i], mem)
        invariant probe.ops == base + run.ops && run.outcome == Completed
      {
        var failed := ProgramSegment(probe, segs[i]);
        LoopStep(s, segs, i, mem, run);
        AppendAssoc(base, run.ops, SegmentOps(s, segs[i], mem));
        run := Run(run.ops + SegmentOps(s, segs[i], mem), if failed then VerifyFailed(i) else Completed);
        if failed {
          return VerifyFailed(i);
        }
        i := i + 1;
      }
      assert segs[..i] == segs;
      outcome := Completed;
    }

    /** The body of the segment loop of `_program_device` for one segment: erase its
        pages, write it, read it back and compare, and reset the target. A mismatch
        raises, which here is `failed` with the reset left out. */
    method ProgramSegment(probe: MultiApi, seg: Segment) returns (failed: bool)
      requires probe.connected
      modifies probe`ops
      ensures probe.ops == old(probe.ops) + SegmentOps(Config(), seg, probe.host.memory(probe.snr))
      ensures failed == VerifyFails(Config(), seg, probe.host.memory(probe.snr))
    {
      ghost var start := probe.ops;
      EraseSegment(probe, seg);
      ghost var done := SegmentErases(Config(), seg);
      AppendAssoc(start, done, [Write(seg.start, seg.data)]);
      probe.Write(seg.start, seg.data);
      done := done + [Write(seg.start, seg.data)];

      failed := false;
      if verify {
        AppendAssoc(start, done, [Read(seg.start, |seg.data|)]);
        var readData := probe.Read(seg.start, |seg.data|);
        done := done + [Read(seg.start, |seg.data|)];
        var equal := ByteListsEqual(seg.data, readData);
        failed := !equal;
      }
      if systemReset && !failed {
        AppendAssoc(start, done, [SysReset]);
        probe.SysReset();
        done := done + [SysReset];
      }
    }

    /** The page loop of `_program_device`: with sector erasing on, erase every page
        from `start / pageSize` to `end / pageSize`, the last one included. */
    method EraseSegment(probe: MultiApi, seg: Segment)
      modifies probe`ops
      ensures probe.ops == old(probe.ops) + SegmentErases(Config(), seg)
    {
      if sectorsErase || sectorsAndUicrErase {
        var startPage := seg.start / pageSize;
        var endPage := seg.end / pageSize;
        var page := startPage;
        while page < endPage + 1
          invariant startPage <= page && (page <= endPage + 1 || page == startPage)
          invariant probe.ops == old(probe.ops) + EraseOps(PagesFrom(startPage, page, pageSize))
        {
          EraseOpsSnoc(PagesFrom(startPage, page, pageSize), page * pageSize);
          probe.ErasePage(page * pageSize);
          page := page + 1;
        }
      }
    }

    /** `_cleanup`: disconnect, then close the handle. */
    method Cleanup(probe: MultiApi)
      modifies probe`ops, probe`connected
      ensures probe.ops == old(probe.ops) + CleanupOps(Completed)
      ensures !probe.connected
    {
      probe.DisconnectFromEmu();
      probe.Close();
    }

    /** `perform_command(device)`: connect, program, clean up. A failed verification
        raises out of `_program_device`, so the cleanup is skipped and the handle stays
        connected. */
    method PerformCommand(device: int) returns (outcome: Outcome, probe: MultiApi)
      ensures fresh(probe)
      ensures probe.ops == DeviceRun(Config(), segments, device, host.memory(device)).ops
      ensures outcome == DeviceRun(Config(), segments, device, host.memory(device)).outcome
      ensures probe.connected <==> outcome.VerifyFailed?
    {
      probe := ConnectToDevice(device);
      outcome := ProgramDevice(probe);
      if outcome.VerifyFailed? {
        return;
      }
      Cleanup(probe);
    }
  }
}

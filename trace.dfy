/** The operations one device receives from `perform_command` (nrf5_multi_prog.py,
    lines 102-142), as functions of the settings, the image's segments and what the
    target's memory reads back as; then what that sequence guarantees. */
module Trace {
  import opened ErasePlan
  import opened Probe

  /** One occupied address range [start, end) of the image, with the bytes the image
      reader returns for it. */
  datatype Segment = Segment(start: nat, end: nat, data: seq<Byte>)

  /** What the image reader delivers: a non-empty range and one byte per address. */
  predicate WellFormed(seg: Segment)
  {
    seg.start < seg.end && |seg.data| == seg.end - seg.start
  }

  /** The fields of `nRF5MultiFlash` that decide what is sent to a device. */
  datatype Settings = Settings(
    family: string,
    eraseAll: bool,
    sectorsErase: bool,
    sectorsAndUicrErase: bool,
    verify: bool,
    systemReset: bool,
    pageSize: PageSize)

  /** How `_program_device` ends: normally, or with the verify assertion failing on the
      segment with this index. */
  datatype Outcome = Completed | VerifyFailed(segment: nat)

  datatype Run = Run(ops: seq<Op>, outcome: Outcome)

  predicate ErasesSectors(s: Settings)
  {
    s.sectorsErase || s.sectorsAndUicrErase
  }

  /** Issued before the first segment: recover, then the UICR erase. */
  function Preamble(s: Settings): (r: seq<Op>)
    ensures |r| == (if s.eraseAll then 1 else 0) + (if s.sectorsAndUicrErase then 1 else 0)
    ensures forall k :: 0 <= k < |r| ==> r[k] == Recover || r[k] == EraseUicr
    ensures Recover in r <==> s.eraseAll
    ensures EraseUicr in r <==> s.sectorsAndUicrErase
    ensures s.eraseAll ==> r[0] == Recover
    ensures s.sectorsAndUicrErase ==> r[|r| - 1] == EraseUicr
  {
    (if s.eraseAll then [Recover] else []) + (if s.sectorsAndUicrErase then [EraseUicr] else [])
  }

  function EraseOps(pages: seq<nat>): seq<Op>
  {
    seq(|pages|, i requires 0 <= i < |pages| => ErasePage(pages[i]))
  }

  lemma EraseOpsSnoc(pages: seq<nat>, x: nat)
    ensures EraseOps(pages + [x]) == EraseOps(pages) + [ErasePage(x)]
  {
  }

  function SegmentErases(s: Settings, seg: Segment): seq<Op>
  {
    if ErasesSectors(s) then EraseOps(PageAddresses(seg.start, seg.end, s.pageSize)) else []
  }

  /** The target reads back exactly the segment's bytes. */
  predicate Matches(seg: Segment, mem: Memory)
  {
    forall i :: 0 <= i < |seg.data| ==> mem(seg.start + i) == seg.data[i]
  }

  predicate VerifyFails(s: Settings, seg: Segment, mem: Memory)
  {
    s.verify && !Matches(seg, mem)
  }

  /** The operations for one segment: its page erases, the write, the read-back, and the
      reset -- which a failed verification pre-empts. */
  function SegmentOps(s: Settings, seg: Segment, mem: Memory): (r: seq<Op>)
    ensures var w := |SegmentErases(s, seg)|;
      && |r| == w + 1 + (if s.verify then 1 else 0)
                  + (if s.systemReset && !VerifyFails(s, seg, mem) then 1 else 0)
      && (forall k :: 0 <= k < w ==> r[k] == SegmentErases(s, seg)[k])
      && r[w] == Write(seg.start, seg.data)
      && (s.verify ==> r[w + 1] == Read(seg.start, |seg.data|))
      && (s.systemReset && !VerifyFails(s, seg, mem) ==> r[|r| - 1] == SysReset)
  {
    SegmentErases(s, seg)
    + [Write(seg.start, seg.data)]
    + (if s.verify then [Read(seg.start, |seg.data|)] else [])
    + (if s.systemReset && !VerifyFails(s, seg, mem) then [SysReset] else [])
  }

  /** The segment loop of `_program_device`: segments in the reader's order, stopping
      after the first failed verification. */
  function Programmed(s: Settings, segs: seq<Segment>, mem: Memory): Run
    decreases |segs|
  {
    if segs == [] then Run([], Completed)
    else
      var prev := Programmed(s, segs[..|segs| - 1], mem);
      var seg := segs[|segs| - 1];
      if prev.outcome.VerifyFailed? then prev
      else Run(prev.ops + SegmentOps(s, seg, mem),
               if VerifyFails(s, seg, mem) then VerifyFailed(|segs| - 1) else Completed)
  }

  /** Issued before the segment loop: open the handle, connect, then the preamble. */
  function Head(s: Settings, device: int): (h: seq<Op>)
    ensures |h| == 2 + (if s.eraseAll then 1 else 0) + (if s.sectorsAndUicrErase then 1 else 0)
    ensures h[..2] == [Open(s.family), ConnectToEmuWithSnr(device)]
    ensures Recover in h <==> s.eraseAll
    ensures EraseUicr in h <==> s.sectorsAndUicrErase
    ensures forall a :: 0 <= a < |h| && h[a] == Recover ==> a == 2
    ensures forall b :: 0 <= b < |h| && h[b] == EraseUicr ==> b == |h| - 1 && (b > 2 <==> s.eraseAll)
    ensures forall k :: 0 <= k < |h| ==>
      h[k].Open? || h[k].ConnectToEmuWithSnr? || h[k] == Recover || h[k] == EraseUicr
  {
    [Open(s.family), ConnectToEmuWithSnr(device)] + Preamble(s)
  }

  /** `_cleanup`, reached only when `_program_device` returned normally. */
  function CleanupOps(outcome: Outcome): (r: seq<Op>)
    ensures DisconnectFromEmu in r <==> outcome == Completed
    ensures Close in r <==> outcome == Completed
    ensures r != [] ==> r[|r| - 1] == Close
  {
    if outcome == Completed then [DisconnectFromEmu, Close] else []
  }

  /** `perform_command(device)`: connect, program, then disconnect and close -- unless
      the verification failed, which skips the cleanup. */
  function DeviceRun(s: Settings, segs: seq<Segment>, device: int, mem: Memory): (r: Run)
    ensures |r.ops| >= 2 && r.ops[0] == Open(s.family) && r.ops[1] == ConnectToEmuWithSnr(device)
    ensures r.outcome == Completed ==> r.ops[|r.ops| - 1] == Close
  {
    var p := Programmed(s, segs, mem);
    Run(Head(s, device) + p.ops + CleanupOps(p.outcome), p.outcome)
  }

  /** Reference: the segments' operation lists concatenated in order. */
  function AllSegmentOps(s: Settings, segs: seq<Segment>, mem: Memory): seq<Op>
  {
    if segs == [] then [] else SegmentOps(s, segs[0], mem) + AllSegmentOps(s, segs[1..], mem)
  }

  /** The writes in a log, in order. */
  function Writes(ops: seq<Op>): seq<Op>
  {
    if ops == [] then [] else (if ops[0].Write? then [ops[0]] else []) + Writes(ops[1..])
  }

  /** How many times `x` occurs in a log. */
  function Count(ops: seq<Op>, x: Op): nat
  {
    if ops == [] then 0 else (if ops[0] == x then 1 else 0) + Count(ops[1..], x)
  }

  /** One write per segment, at its start address, in segment order. */
  function WritesOf(segs: seq<Segment>): seq<Op>
  {
    seq(|segs|, j requires 0 <= j < |segs| => Write(segs[j].start, segs[j].data))
  }

  predicate IsSegmentOp(op: Op)
  {
    op.ErasePage? || op.Write? || op.Read? || op.SysReset?
  }

  // ---------------------------------------------------------------------------
  // The segment loop.

  /** One more segment after a prefix that verified. */
  lemma ProgrammedStep(s: Settings, segs: seq<Segment>, i: nat, mem: Memory)
    requires i < |segs|
    requires Programmed(s, segs[..i], mem).outcome == Completed
    ensures Programmed(s, segs[..i + 1], mem)
         == Run(Programmed(s, segs[..i], mem).ops + SegmentOps(s, segs[i], mem),
                if VerifyFails(s, segs[i], mem) then VerifyFailed(i) else Completed)
  {
    assert segs[..i + 1][..i] == segs[..i];
  }

  /** A prefix of the segments issues a prefix of the operations, and once a
      verification has failed nothing more is issued. */
  lemma {:induction false} ProgrammedPrefix(s: Settings, segs: seq<Segment>, j: nat, mem: Memory)
    requires j <= |segs|
    ensures Programmed(s, segs[..j], mem).ops <= Programmed(s, segs, mem).ops
    ensures Programmed(s, segs[..j], mem).outcome.VerifyFailed?
        ==> Programmed(s, segs, mem) == Programmed(s, segs[..j], mem)
  {
    if j == |segs| {
      assert segs[..j] == segs;
    } else {
      var init := segs[..|segs| - 1];
      assert init[..j] == segs[..j];
      ProgrammedPrefix(s, init, j, mem);
    }
  }

  lemma AppendAssoc(a: seq<Op>, b: seq<Op>, c: seq<Op>)
    ensures (a + b) + c == a + (b + c)
  {
  }

  /** One turn of the segment loop, from a prefix that verified: the run grows by the
      segment's operations, and a failed verification is where the whole loop ends. */
  lemma LoopStep(s: Settings, segs: seq<Segment>, i: nat, mem: Memory, run: Run)
    requires i < |segs| && run == Programmed(s, segs[..i], mem) && run.outcome == Completed
    ensures var next := Run(run.ops + SegmentOps(s, segs[i], mem),
                            if VerifyFails(s, segs[i], mem) then VerifyFailed(i) else Completed);
            && Programmed(s, segs[..i + 1], mem) == next
            && (next.outcome.VerifyFailed? ==> Programmed(s, segs, mem) == next)
  {
    ProgrammedStep(s, segs, i, mem);
    ProgrammedPrefix(s, segs, i + 1, mem);
  }

  /** The loop runs to completion exactly when no segment fails its verification. */
  lemma {:induction false} CompletedIffAllMatch(s: Settings, segs: seq<Segment>, mem: Memory)
    ensures Programmed(s, segs, mem).outcome == Completed
        <==> forall j :: 0 <= j < |segs| ==> !VerifyFails(s, segs[j], mem)
  {
    if segs != [] {
      var init := segs[..|segs| - 1];
      CompletedIffAllMatch(s, init, mem);
      AllMatchSplit(s, segs, init, mem);
    }
  }

  lemma AllMatchSplit(s: Settings, segs: seq<Segment>, init: seq<Segment>, mem: Memory)
    requires segs != [] && init == segs[..|segs| - 1]
    ensures (forall j :: 0 <= j < |segs| ==> !VerifyFails(s, segs[j], mem))
        <==> (forall j :: 0 <= j < |init| ==> !VerifyFails(s, init[j], mem))
             && !VerifyFails(s, segs[|segs| - 1], mem)
  {
    assert forall j :: 0 <= j < |init| ==> init[j] == segs[j];
  }

  /** A failure names the first mismatching segment; the log ends with that segment's
      operations, so no later segment is erased, written or reset. */
  lemma {:induction false} FailureAt(s: Settings, segs: seq<Segment>, mem: Memory)
    requires Programmed(s, segs, mem).outcome.VerifyFailed?
    ensures var k := Programmed(s, segs, mem).outcome.segment;
      && k < |segs|
      && VerifyFails(s, segs[k], mem)
      && (forall j :: 0 <= j < k ==> !VerifyFails(s, segs[j], mem))
      && Programmed(s, segs[..k], mem).outcome == Completed
      && Programmed(s, segs, mem).ops == Programmed(s, segs[..k], mem).ops + SegmentOps(s, segs[k], mem)
  {
    var init := segs[..|segs| - 1];
    var prev := Programmed(s, init, mem);
    var k := Programmed(s, segs, mem).outcome.segment;
    if prev.outcome.VerifyFailed? {
      FailureAt(s, init, mem);
      assert init[..k] == segs[..k];
      assert init[k] == segs[k];
    } else {
      assert segs[..k] == init;
    }
    CompletedIffAllMatch(s, segs[..k], mem);
    assert forall j :: 0 <= j < k ==> segs[..k][j] == segs[j];
  }

  lemma {:induction false} AllSegmentOpsSnoc(s: Settings, segs: seq<Segment>, seg: Segment, mem: Memory)
    ensures AllSegmentOps(s, segs + [seg], mem) == AllSegmentOps(s, segs, mem) + SegmentOps(s, seg, mem)
  {
    if segs != [] {
      assert (segs + [seg])[1..] == segs[1..] + [seg];
      AllSegmentOpsSnoc(s, segs[1..], seg, mem);
    }
  }

  /** A completed run issues every segment's operations, in the reader's order. */
  lemma {:induction false} CompletedOps(s: Settings, segs: seq<Segment>, mem: Memory)
    requires Programmed(s, segs, mem).outcome == Completed
    ensures Programmed(s, segs, mem).ops == AllSegmentOps(s, segs, mem)
  {
    if segs != [] {
      var init, last := segs[..|segs| - 1], segs[|segs| - 1];
      var prev := Programmed(s, init, mem);
      assert prev.outcome == Completed;
      assert Programmed(s, segs, mem).ops == prev.ops + SegmentOps(s, last, mem);
      CompletedOps(s, init, mem);
      AllSegmentOpsSnoc(s, init, last, mem);
      SplitLast(segs);
    }
  }

  lemma SplitLast(segs: seq<Segment>)
    requires segs != []
    ensures segs[..|segs| - 1] + [segs[|segs| - 1]] == segs
  {
  }

  // ---------------------------------------------------------------------------
  // Which operations appear.

  /** Every operation of the loop comes from some segment. */
  lemma {:induction false} ProgrammedOpsFromSegments(s: Settings, segs: seq<Segment>, mem: Memory, op: Op)
    requires op in Programmed(s, segs, mem).ops
    ensures exists j :: 0 <= j < |segs| && op in SegmentOps(s, segs[j], mem)
  {
    var init := segs[..|segs| - 1];
    var prev := Programmed(s, init, mem);
    if op in prev.ops {
      ProgrammedOpsFromSegments(s, init, mem, op);
      var j :| 0 <= j < |init| && op in SegmentOps(s, init[j], mem);
      assert init[j] == segs[j];
    } else {
      assert op in SegmentOps(s, segs[|segs| - 1], mem);
    }
  }

  /** A segment issues only erase, write, read and reset, and erases only with a sector flag. */
  lemma SegmentOpKinds(s: Settings, seg: Segment, mem: Memory, op: Op)
    requires op in SegmentOps(s, seg, mem)
    ensures IsSegmentOp(op)
    ensures op.ErasePage? ==> ErasesSectors(s)
  {
    var e := SegmentErases(s, seg);
    if op in e {
      var i :| 0 <= i < |e| && e[i] == op;
    }
  }

  lemma ProgrammedOpKinds(s: Settings, segs: seq<Segment>, mem: Memory, op: Op)
    requires op in Programmed(s, segs, mem).ops
    ensures IsSegmentOp(op)
    ensures op.ErasePage? ==> ErasesSectors(s)
  {
    ProgrammedOpsFromSegments(s, segs, mem, op);
    var j :| 0 <= j < |segs| && op in SegmentOps(s, segs[j], mem);
    SegmentOpKinds(s, segs[j], mem, op);
  }

  /** The loop issues only segment operations, and erases only with a sector flag. */
  lemma ProgrammedOnlySegmentOps(s: Settings, segs: seq<Segment>, mem: Memory)
    ensures forall k :: 0 <= k < |Programmed(s, segs, mem).ops| ==>
      && IsSegmentOp(Programmed(s, segs, mem).ops[k])
      && (Programmed(s, segs, mem).ops[k].ErasePage? ==> ErasesSectors(s))
  {
    var p := Programmed(s, segs, mem).ops;
    forall k | 0 <= k < |p|
      ensures IsSegmentOp(p[k]) && (p[k].ErasePage? ==> ErasesSectors(s))
    {
      ProgrammedOpKinds(s, segs, mem, p[k]);
    }
  }

  /** The first segment's operations open the loop's log. */
  lemma ProgrammedFirst(s: Settings, segs: seq<Segment>, mem: Memory)
    requires |segs| > 0
    ensures SegmentOps(s, segs[0], mem) <= Programmed(s, segs, mem).ops
  {
    ProgrammedPrefix(s, segs, 1, mem);
    assert segs[..1][..0] == [];
  }

  lemma FirstEraseIsPage(s: Settings, seg: Segment, mem: Memory)
    requires ErasesSectors(s) && seg.start <= seg.end
    ensures |SegmentOps(s, seg, mem)| > 0 && SegmentOps(s, seg, mem)[0].ErasePage?
  {
    DivMonotone(seg.start, seg.end, s.pageSize);
  }

  /** Pages are erased exactly when a sector-erase flag is set (and there is a segment). */
  lemma ErasesIff(s: Settings, segs: seq<Segment>, device: int, mem: Memory)
    requires forall j :: 0 <= j < |segs| ==> WellFormed(segs[j])
    ensures var ops := DeviceRun(s, segs, device, mem).ops;
      (exists k :: 0 <= k < |ops| && ops[k].ErasePage?) <==> ErasesSectors(s) && |segs| > 0
  {
    var pr := Programmed(s, segs, mem);
    var h, p, t := Head(s, device), pr.ops, CleanupOps(pr.outcome);
    assert DeviceRun(s, segs, device, mem).ops == h + p + t;
    ErasesFraming(h, p, t);
    ProgrammedOnlySegmentOps(s, segs, mem);
    if ErasesSectors(s) && |segs| > 0 {
      FirstEraseIsPage(s, segs[0], mem);
      ProgrammedFirst(s, segs, mem);
      assert p[0] == SegmentOps(s, segs[0], mem)[0];
      assert p[0].ErasePage?;
    } else {
      assert segs == [] ==> p == [];
    }
  }

  /** Page erases in a framed log are exactly those of its middle part. */
  lemma ErasesFraming(h: seq<Op>, p: seq<Op>, t: seq<Op>)
    requires forall k :: 0 <= k < |h| ==> !h[k].ErasePage?
    requires forall k :: 0 <= k < |t| ==> !t[k].ErasePage?
    ensures (exists k :: 0 <= k < |h + p + t| && (h + p + t)[k].ErasePage?)
        <==> (exists k :: 0 <= k < |p| && p[k].ErasePage?)
  {
    var ops := h + p + t;
    if k :| 0 <= k < |ops| && ops[k].ErasePage? {
      assert k >= |h| && k < |h| + |p| && ops[k] == p[k - |h|];
    }
    if k :| 0 <= k < |p| && p[k].ErasePage? {
      assert ops[|h| + k] == p[k];
    }
  }

  /** Recover (with erase-all) and then the UICR erase (with sectors-and-UICR) are issued
      right after connecting and before any segment operation; the code does not make the
      two flags exclusive. */
  lemma PreambleFirst(s: Settings, segs: seq<Segment>, device: int, mem: Memory)
    ensures var ops := DeviceRun(s, segs, device, mem).ops;
      && ops[..2] == [Open(s.family), ConnectToEmuWithSnr(device)]
      && (Recover in ops <==> s.eraseAll)
      && (EraseUicr in ops <==> s.sectorsAndUicrErase)
      && (forall a, b :: 0 <= a < |ops| && 0 <= b < |ops| && ops[a] == Recover && ops[b] == EraseUicr ==> a < b)
      && (forall a, b ::
            (0 <= a < |ops| && 0 <= b < |ops| && (ops[a] == Recover || ops[a] == EraseUicr) && IsSegmentOp(ops[b]))
            ==> a < b)
  {
    var pr := Programmed(s, segs, mem);
    ProgrammedOnlySegmentOps(s, segs, mem);
    assert forall k :: 0 <= k < |pr.ops| ==> IsSegmentOp(pr.ops[k]);
    HeadFirst(s, device, pr.ops, CleanupOps(pr.outcome));
  }

  /** The ordering argument of PreambleFirst, over any loop log made of segment operations. */
  lemma HeadFirst(s: Settings, device: int, p: seq<Op>, t: seq<Op>)
    requires forall k :: 0 <= k < |p| ==> IsSegmentOp(p[k])
    requires t == [] || t == [DisconnectFromEmu, Close]
    ensures var ops := Head(s, device) + p + t;
      && ops[..2] == [Open(s.family), ConnectToEmuWithSnr(device)]
      && (Recover in ops <==> s.eraseAll)
      && (EraseUicr in ops <==> s.sectorsAndUicrErase)
      && (forall a, b :: 0 <= a < |ops| && 0 <= b < |ops| && ops[a] == Recover && ops[b] == EraseUicr ==> a < b)
      && (forall a, b ::
            (0 <= a < |ops| && 0 <= b < |ops| && (ops[a] == Recover || ops[a] == EraseUicr) && IsSegmentOp(ops[b]))
            ==> a < b)
  {
    var h := Head(s, device);
    var ops := h + p + t;
    HeadTail(h, p, t);
    assert ops[..2] == h[..2];
  }

  /** Past the head, a log of segment operations and cleanup holds no preamble operation. */
  lemma HeadTail(h: seq<Op>, p: seq<Op>, t: seq<Op>)
    requires forall k :: 0 <= k < |p| ==> IsSegmentOp(p[k])
    requires t == [] || t == [DisconnectFromEmu, Close]
    ensures var ops := h + p + t;
      && (forall k :: 0 <= k < |h| ==> ops[k] == h[k])
      && (forall k :: |h| <= k < |ops| ==> ops[k] != Recover && ops[k] != EraseUicr)
  {
    var ops := h + p + t;
    assert forall k :: |h| <= k < |h| + |p| ==> ops[k] == p[k - |h|];
    assert forall k :: |h| + |p| <= k < |ops| ==> ops[k] == t[k - |h| - |p|];
  }

  /** Disconnect and close are issued, once each and last, only when every segment
      verified; after a failed verification the log ends with that segment's read-back. */
  lemma CleanupOnlyOnSuccess(s: Settings, segs: seq<Segment>, device: int, mem: Memory)
    ensures var r := DeviceRun(s, segs, device, mem);
      && (r.outcome == Completed ==>
            && |r.ops| >= 2 && r.ops[|r.ops| - 2..] == [DisconnectFromEmu, Close]
            && DisconnectFromEmu !in r.ops[..|r.ops| - 2] && Close !in r.ops[..|r.ops| - 2])
      && (r.outcome.VerifyFailed? ==>
            && r.outcome.segment < |segs|
            && DisconnectFromEmu !in r.ops && Close !in r.ops
            && r.ops[|r.ops| - 1] == Read(segs[r.outcome.segment].start, |segs[r.outcome.segment].data|))
  {
    var pr := Programmed(s, segs, mem);
    var h := Head(s, device);
    NoCleanupWhileProgramming(s, segs, mem);
    if pr.outcome.VerifyFailed? {
      FailedRunEnds(s, segs, mem);
      var k := pr.outcome.segment;
      CleanupOutcome(h, pr.ops, pr.outcome, Read(segs[k].start, |segs[k].data|));
    } else {
      CleanupOutcome(h, pr.ops, pr.outcome, Close);
    }
  }

  /** The cleanup argument over any head without disconnect or close: `last` is the
      loop's final operation when the loop failed. */
  lemma CleanupOutcome(h: seq<Op>, p: seq<Op>, outcome: Outcome, last: Op)
    requires forall k :: 0 <= k < |h| ==> h[k].Open? || h[k].ConnectToEmuWithSnr? || h[k] == Recover || h[k] == EraseUicr
    requires DisconnectFromEmu !in p && Close !in p
    requires outcome.VerifyFailed? ==> |p| > 0 && p[|p| - 1] == last
    ensures var ops := h + p + CleanupOps(outcome);
      && (outcome == Completed ==>
            && |ops| >= 2 && ops[|ops| - 2..] == [DisconnectFromEmu, Close]
            && DisconnectFromEmu !in ops[..|ops| - 2] && Close !in ops[..|ops| - 2])
      && (outcome.VerifyFailed? ==>
            && DisconnectFromEmu !in ops && Close !in ops && ops[|ops| - 1] == last)
  {
    CleanupFraming(h, p, CleanupOps(outcome));
    if outcome.VerifyFailed? {
      LastOfAppend(h, p);
    }
  }

  lemma NoCleanupWhileProgramming(s: Settings, segs: seq<Segment>, mem: Memory)
    ensures DisconnectFromEmu !in Programmed(s, segs, mem).ops
    ensures Close !in Programmed(s, segs, mem).ops
  {
    var p := Programmed(s, segs, mem).ops;
    if DisconnectFromEmu in p { ProgrammedOpKinds(s, segs, mem, DisconnectFromEmu); }
    if Close in p { ProgrammedOpKinds(s, segs, mem, Close); }
  }

  /** After a failed verification the loop's log ends with the failing read-back. */
  lemma FailedRunEnds(s: Settings, segs: seq<Segment>, mem: Memory)
    requires Programmed(s, segs, mem).outcome.VerifyFailed?
    ensures var r := Programmed(s, segs, mem); var k := r.outcome.segment;
      k < |segs| && |r.ops| > 0 && r.ops[|r.ops| - 1] == Read(segs[k].start, |segs[k].data|)
  {
    FailureAt(s, segs, mem);
    var k := Programmed(s, segs, mem).outcome.segment;
    FailedSegmentEnds(s, segs[k], mem);
    LastOfAppend(Programmed(s, segs[..k], mem).ops, SegmentOps(s, segs[k], mem));
  }

  /** A segment whose verification fails ends with its read-back: no reset follows. */
  lemma FailedSegmentEnds(s: Settings, seg: Segment, mem: Memory)
    requires VerifyFails(s, seg, mem)
    ensures SegmentOps(s, seg, mem)[|SegmentOps(s, seg, mem)| - 1] == Read(seg.start, |seg.data|)
  {
  }

  lemma LastOfAppend(a: seq<Op>, b: seq<Op>)
    requires b != []
    ensures (a + b)[|a + b| - 1] == b[|b| - 1]
  {
  }

  /** The cleanup argument over any head without disconnect or close. */
  lemma CleanupFraming(h: seq<Op>, p: seq<Op>, t: seq<Op>)
    requires forall k :: 0 <= k < |h| ==> h[k].Open? || h[k].ConnectToEmuWithSnr? || h[k] == Recover || h[k] == EraseUicr
    requires DisconnectFromEmu !in p && Close !in p
    requires t == [] || t == [DisconnectFromEmu, Close]
    ensures var ops := h + p + t;
      && (t != [] ==>
            && |ops| >= 2 && ops[|ops| - 2..] == [DisconnectFromEmu, Close]
            && DisconnectFromEmu !in ops[..|ops| - 2] && Close !in ops[..|ops| - 2])
      && (t == [] ==> ops == h + p && DisconnectFromEmu !in ops && Close !in ops)
  {
    var ops := h + p + t;
    assert DisconnectFromEmu !in h && Close !in h;
    assert ops[..|h + p|] == h + p;
  }

  // ---------------------------------------------------------------------------
  // Counting writes and resets.

  lemma {:induction false} WritesAppend(a: seq<Op>, b: seq<Op>)
    ensures Writes(a + b) == Writes(a) + Writes(b)
  {
    if a != [] {
      var hd: seq<Op> := if a[0].Write? then [a[0]] else [];
      assert (a + b)[0] == a[0];
      assert (a + b)[1..] == a[1..] + b;
      WritesAppend(a[1..], b);
      calc {
        Writes(a + b);
        hd + Writes(a[1..] + b);
        hd + (Writes(a[1..]) + Writes(b));
        (hd + Writes(a[1..])) + Writes(b);
      }
    } else {
      assert a + b == b;
    }
  }

  lemma {:induction false} WritesNone(ops: seq<Op>)
    requires forall k :: 0 <= k < |ops| ==> !ops[k].Write?
    ensures Writes(ops) == []
  {
    if ops != [] {
      WritesNone(ops[1..]);
    }
  }

  lemma {:induction false} CountAppend(a: seq<Op>, b: seq<Op>, x: Op)
    ensures Count(a + b, x) == Count(a, x) + Count(b, x)
  {
    if a != [] {
      assert (a + b)[0] == a[0];
      assert (a + b)[1..] == a[1..] + b;
      CountAppend(a[1..], b, x);
    } else {
      assert a + b == b;
    }
  }

  lemma {:induction false} CountNone(ops: seq<Op>, x: Op)
    requires x !in ops
    ensures Count(ops, x) == 0
  {
    if ops != [] {
      CountNone(ops[1..], x);
    }
  }

  /** The parts of a segment's operations after its erases. */
  function AfterErases(s: Settings, seg: Segment, mem: Memory): seq<Op>
  {
    (if s.verify then [Read(seg.start, |seg.data|)] else [])
    + (if s.systemReset && !VerifyFails(s, seg, mem) then [SysReset] else [])
  }

  lemma SegmentOpsParts(s: Settings, seg: Segment, mem: Memory)
    ensures SegmentOps(s, seg, mem)
         == SegmentErases(s, seg) + ([Write(seg.start, seg.data)] + AfterErases(s, seg, mem))
    ensures forall k :: 0 <= k < |SegmentErases(s, seg)| ==> SegmentErases(s, seg)[k].ErasePage?
  {
  }

  /** One segment writes once. */
  lemma SegmentWrites(s: Settings, seg: Segment, mem: Memory)
    ensures Writes(SegmentOps(s, seg, mem)) == [Write(seg.start, seg.data)]
  {
    var e := SegmentErases(s, seg);
    var z := AfterErases(s, seg, mem);
    SegmentOpsParts(s, seg, mem);
    WritesNone(e);
    WritesNone(z);
    WritesAppend(e, [Write(seg.start, seg.data)] + z);
    WritesAppend([Write(seg.start, seg.data)], z);
  }

  lemma CountSingle(y: Op, x: Op)
    ensures Count([y], x) == if y == x then 1 else 0
  {
    assert [y][1..] == [];
  }

  /** One segment resets once, unless resets are off or its verification failed. */
  lemma SegmentResets(s: Settings, seg: Segment, mem: Memory)
    ensures Count(SegmentOps(s, seg, mem), SysReset)
         == if s.systemReset && !VerifyFails(s, seg, mem) then 1 else 0
  {
    var e := SegmentErases(s, seg);
    var w := [Write(seg.start, seg.data)];
    var v: seq<Op> := if s.verify then [Read(seg.start, |seg.data|)] else [];
    var z: seq<Op> := if s.systemReset && !VerifyFails(s, seg, mem) then [SysReset] else [];
    SegmentOpsParts(s, seg, mem);
    assert AfterErases(s, seg, mem) == v + z;
    assert SysReset !in e && SysReset !in w && SysReset !in v;
    CountNone(e, SysReset);
    CountNone(w, SysReset);
    CountNone(v, SysReset);
    if z != [] { CountSingle(SysReset, SysReset); }
    CountAppend(e, w + (v + z), SysReset);
    CountAppend(w, v + z, SysReset);
    CountAppend(v, z, SysReset);
  }

  lemma AllSegmentCounts(s: Settings, segs: seq<Segment>, mem: Memory)
    requires forall j :: 0 <= j < |segs| ==> !VerifyFails(s, segs[j], mem)
    ensures Writes(AllSegmentOps(s, segs, mem)) == WritesOf(segs)
    ensures Count(AllSegmentOps(s, segs, mem), SysReset) == if s.systemReset then |segs| else 0
  {
    AllSegmentWrites(s, segs, mem);
    AllSegmentResets(s, segs, mem);
  }

  lemma {:induction false} AllSegmentWrites(s: Settings, segs: seq<Segment>, mem: Memory)
    ensures Writes(AllSegmentOps(s, segs, mem)) == WritesOf(segs)
  {
    if segs != [] {
      AllSegmentWrites(s, segs[1..], mem);
      SegmentWrites(s, segs[0], mem);
      WritesAppend(SegmentOps(s, segs[0], mem), AllSegmentOps(s, segs[1..], mem));
      WritesOfCons(segs);
    }
  }

  lemma WritesOfCons(segs: seq<Segment>)
    requires segs != []
    ensures WritesOf(segs) == [Write(segs[0].start, segs[0].data)] + WritesOf(segs[1..])
  {
  }

  lemma {:induction false} AllSegmentResets(s: Settings, segs: seq<Segment>, mem: Memory)
    requires forall j :: 0 <= j < |segs| ==> !VerifyFails(s, segs[j], mem)
    ensures Count(AllSegmentOps(s, segs, mem), SysReset) == if s.systemReset then |segs| else 0
  {
    if segs != [] {
      AllSegmentResets(s, segs[1..], mem);
      SegmentResets(s, segs[0], mem);
      CountAppend(SegmentOps(s, segs[0], mem), AllSegmentOps(s, segs[1..], mem), SysReset);
    }
  }

  lemma CompletedCounts(s: Settings, segs: seq<Segment>, mem: Memory)
    requires Programmed(s, segs, mem).outcome == Completed
    ensures Writes(Programmed(s, segs, mem).ops) == WritesOf(segs)
    ensures Count(Programmed(s, segs, mem).ops, SysReset) == if s.systemReset then |segs| else 0
  {
    CompletedIffAllMatch(s, segs, mem);
    CompletedOps(s, segs, mem);
    AllSegmentCounts(s, segs, mem);
  }

  lemma FailedCounts(s: Settings, segs: seq<Segment>, mem: Memory)
    requires Programmed(s, segs, mem).outcome.VerifyFailed?
    ensures var k := Programmed(s, segs, mem).outcome.segment;
      && k < |segs|
      && Writes(Programmed(s, segs, mem).ops) == WritesOf(segs[..k + 1])
      && Count(Programmed(s, segs, mem).ops, SysReset) == if s.systemReset then k else 0
  {
    var ops := Programmed(s, segs, mem).ops;
    var k := Programmed(s, segs, mem).outcome.segment;
    var pre := Programmed(s, segs[..k], mem).ops;
    var last := SegmentOps(s, segs[k], mem);
    assert ops == pre + last && VerifyFails(s, segs[k], mem)
        && Writes(pre) == WritesOf(segs[..k])
        && Count(pre, SysReset) == if s.systemReset then k else 0 by {
      FailureAt(s, segs, mem);
      CompletedCounts(s, segs[..k], mem);
    }
    assert Writes(last) == [Write(segs[k].start, segs[k].data)] && Count(last, SysReset) == 0 by {
      SegmentWrites(s, segs[k], mem);
      SegmentResets(s, segs[k], mem);
    }
    WritesOfSnoc(segs, k);
    AppendCounts(ops, pre, last);
  }

  lemma AppendCounts(ops: seq<Op>, a: seq<Op>, b: seq<Op>)
    requires ops == a + b
    ensures Writes(ops) == Writes(a) + Writes(b)
    ensures Count(ops, SysReset) == Count(a, SysReset) + Count(b, SysReset)
  {
    WritesAppend(a, b);
    CountAppend(a, b, SysReset);
  }

  lemma WritesOfSnoc(segs: seq<Segment>, k: nat)
    requires k < |segs|
    ensures WritesOf(segs[..k + 1]) == WritesOf(segs[..k]) + [Write(segs[k].start, segs[k].data)]
  {
  }

  /** Every processed segment is written once, in order, and followed by one reset when
      resets are requested: as many resets as segments on success, and no write of any
      segment after the one that failed verification. Connecting, the preamble and the
      cleanup neither write nor reset. */
  lemma WritesAndResets(s: Settings, segs: seq<Segment>, device: int, mem: Memory)
    ensures var r := DeviceRun(s, segs, device, mem);
      && (r.outcome == Completed ==>
            && Writes(r.ops) == WritesOf(segs)
            && Count(r.ops, SysReset) == if s.systemReset then |segs| else 0)
      && (r.outcome.VerifyFailed? ==>
            && r.outcome.segment < |segs|
            && Writes(r.ops) == WritesOf(segs[..r.outcome.segment + 1])
            && Count(r.ops, SysReset) == if s.systemReset then r.outcome.segment else 0)
  {
    var pr := Programmed(s, segs, mem);
    var h, t := Head(s, device), CleanupOps(pr.outcome);
    assert DeviceRun(s, segs, device, mem) == Run(h + pr.ops + t, pr.outcome);
    FramingCounts(h, pr.ops, t);
    if pr.outcome == Completed {
      CompletedCounts(s, segs, mem);
    } else {
      FailedCounts(s, segs, mem);
    }
  }

  lemma FramingCounts(h: seq<Op>, p: seq<Op>, t: seq<Op>)
    requires forall k :: 0 <= k < |h| ==> !h[k].Write? && h[k] != SysReset
    requires t == [] || t == [DisconnectFromEmu, Close]
    ensures Writes(h + p + t) == Writes(p)
    ensures Count(h + p + t, SysReset) == Count(p, SysReset)
  {
    assert h + p + t == h + (p + t);
    assert SysReset !in h && SysReset !in t;
    WritesNone(h);
    WritesNone(t);
    CountNone(h, SysReset);
    CountNone(t, SysReset);
    WritesAppend(h, p + t);
    WritesAppend(p, t);
    CountAppend(h, p + t, SysReset);
    CountAppend(p, t, SysReset);
  }

  // ---------------------------------------------------------------------------
  // Erasing before writing.

  /** Some erase among the first `w` operations covers address `a`. */
  predicate ErasedBefore(ops: seq<Op>, w: nat, a: nat, p: PageSize)
  {
    exists k :: 0 <= k < w && k < |ops| && ops[k].ErasePage? && ops[k].addr <= a < ops[k].addr + p
  }

  /** With a sector-erase flag, the page erases come first in a segment's operations,
      then the write, and every byte the write covers lies in an erased page. */
  lemma WrittenBytesErased(s: Settings, seg: Segment, mem: Memory)
    requires ErasesSectors(s) && WellFormed(seg)
    ensures var ops := SegmentOps(s, seg, mem);
      var w := |PageAddresses(seg.start, seg.end, s.pageSize)|;
      && w < |ops| && ops[w] == Write(seg.start, seg.data)
      && (forall k :: 0 <= k < w ==> ops[k].ErasePage? && ops[k].addr % s.pageSize == 0)
      && (forall a: nat :: seg.start <= a < seg.end ==> ErasedBefore(ops, w, a, s.pageSize))
  {
    var ops := SegmentOps(s, seg, mem);
    var r := PageAddresses(seg.start, seg.end, s.pageSize);
    var w := |r|;
    PageAddressesShape(seg.start, seg.end, s.pageSize);
    assert forall k :: 0 <= k < w ==> ops[k] == ErasePage(r[k]);
    forall a: nat | seg.start <= a < seg.end
      ensures ErasedBefore(ops, w, a, s.pageSize)
    {
      PageAddressesCover(seg.start, seg.end, s.pageSize, a);
      var i :| 0 <= i < w && r[i] <= a < r[i] + s.pageSize;
      assert ops[i] == ErasePage(r[i]);
    }
  }
}

/**
 * The rest of `main`: run every worker of the plan over the same source and
 * destination, report the total in a readable unit, and the top-level flow
 * from the scanned settings to the copied device.
 *
 * The workers are threads in pdd; here they run one after the other, in
 * index order, and the first one that fails ends the run (a failing worker
 * makes the process exit). Because the plan gives the workers disjoint
 * destination ranges, the order does not matter for a successful run.
 */
module Transfer {
  import opened PddTypes
  import Args
  import Planner
  import Worker

  /** Every assignment has a non-zero buffer, as the planner guarantees once the block size is set. */
  predicate BuffersSet(ws: seq<ThInfo>) {
    forall k :: 0 <= k < |ws| ==> ws[k].sizeBuff > 0
  }

  /** Run the workers in order; the first failure is the result of the whole run. */
  function RunWorkers(src: seq<byte>, dst: seq<byte>, ws: seq<ThInfo>): (r: Worker.CopyResult)
    requires BuffersSet(ws)
    ensures |r.dst| == |dst|
    decreases |ws|
  {
    if ws == [] then Worker.CopyResult(Done, dst)
    else
      var first := Worker.Run(src, dst, ws[0]);
      if first.status != Done then first
      else RunWorkers(src, first.dst, ws[1..])
  }

  /** Worker `w` completes against files of these lengths: it has no block to move, or both its ranges fit. */
  predicate Fits(w: ThInfo, srcLen: nat, dstLen: nat)
    requires w.sizeBuff > 0
  {
    Worker.Iterations(w) == 0 ||
    (w.skip + Worker.CopyLen(w) <= srcLen && w.seek + Worker.CopyLen(w) <= dstLen)
  }

  /** Destination byte `i` is one that worker `w` writes. */
  predicate Covers(w: ThInfo, i: nat)
    requires w.sizeBuff > 0
  {
    w.seek <= i < w.seek + Worker.CopyLen(w)
  }

  /** Different workers write different destination bytes. */
  predicate DisjointDest(ws: seq<ThInfo>)
    requires BuffersSet(ws)
  {
    forall v, w :: v in ws && w in ws && v != w ==>
      v.seek + Worker.CopyLen(v) <= w.seek || w.seek + Worker.CopyLen(w) <= v.seek
  }

  /**
   * Byte `i` of `out` is what the workers of `ws` leave there: the source byte
   * a covering worker copies, or the old byte when no worker covers it.
   */
  ghost predicate ByteRule(src: seq<byte>, dst: seq<byte>, out: seq<byte>, ws: seq<ThInfo>, i: nat)
    requires BuffersSet(ws) && i < |dst| && |out| == |dst|
  {
    && (forall w :: w in ws && Covers(w, i) ==>
          w.skip + (i - w.seek) < |src| && out[i] == src[w.skip + (i - w.seek)])
    && ((forall w :: w in ws ==> !Covers(w, i)) ==> out[i] == dst[i])
  }

  ghost predicate Placed(src: seq<byte>, dst: seq<byte>, out: seq<byte>, ws: seq<ThInfo>)
    requires BuffersSet(ws)
  {
    |out| == |dst| && forall i :: 0 <= i < |dst| ==> ByteRule(src, dst, out, ws, i)
  }

  /** A whole run succeeds iff every worker fits its ranges. */
  lemma {:induction false} RunWorkersDone(src: seq<byte>, dst: seq<byte>, ws: seq<ThInfo>)
    requires BuffersSet(ws)
    ensures RunWorkers(src, dst, ws).status == Done <==> forall w :: w in ws ==> Fits(w, |src|, |dst|)
    decreases |ws|
  {
    if ws != [] {
      var first := Worker.Run(src, dst, ws[0]);
      Worker.RunDone(src, dst, ws[0]);
      assert ws[0] in ws;
      assert forall w :: w in ws <==> w == ws[0] || w in ws[1..];
      if first.status == Done {
        assert |first.dst| == |dst|;
        RunWorkersDone(src, first.dst, ws[1..]);
      } else {
        assert !Fits(ws[0], |src|, |dst|);
      }
    }
  }

  /** Per byte, a worker that completes copies its range and leaves everything else alone. */
  lemma RunBytes(src: seq<byte>, dst: seq<byte>, w: ThInfo, i: nat)
    requires w.sizeBuff > 0 && Worker.Run(src, dst, w).status == Done && i < |dst|
    ensures Covers(w, i) ==> w.skip + (i - w.seek) < |src| &&
                             Worker.Run(src, dst, w).dst[i] == src[w.skip + (i - w.seek)]
    ensures !Covers(w, i) ==> Worker.Run(src, dst, w).dst[i] == dst[i]
  {
    Worker.RunOverlay(src, dst, w);
  }

  /**
   * The bytes of a successful run: with disjoint destination ranges, each
   * destination byte is the source byte its worker copies, or untouched.
   */
  lemma {:induction false} RunWorkersBytes(src: seq<byte>, dst: seq<byte>, ws: seq<ThInfo>)
    requires BuffersSet(ws) && DisjointDest(ws)
    requires RunWorkers(src, dst, ws).status == Done
    ensures Placed(src, dst, RunWorkers(src, dst, ws).dst, ws)
    decreases |ws|
  {
    var out := RunWorkers(src, dst, ws).dst;
    if ws != [] {
      var w0, rest := ws[0], ws[1..];
      var mid := Worker.Run(src, dst, w0).dst;
      assert forall w :: w in ws <==> w == w0 || w in rest;
      assert DisjointDest(rest);
      RunWorkersBytes(src, mid, rest);
      forall i | 0 <= i < |dst|
        ensures ByteRule(src, dst, out, ws, i)
      {
        RunBytes(src, dst, w0, i);
        ByteStep(src, dst, mid, out, ws, i);
      }
    }
  }

  /** One byte of RunWorkersBytes: the first worker's effect on it, then the rule for the others. */
  lemma ByteStep(src: seq<byte>, dst: seq<byte>, mid: seq<byte>, out: seq<byte>, ws: seq<ThInfo>, i: nat)
    requires BuffersSet(ws) && DisjointDest(ws) && ws != [] && i < |dst| && |mid| == |dst| == |out|
    requires Covers(ws[0], i) ==> ws[0].skip + (i - ws[0].seek) < |src| && mid[i] == src[ws[0].skip + (i - ws[0].seek)]
    requires !Covers(ws[0], i) ==> mid[i] == dst[i]
    requires ByteRule(src, mid, out, ws[1..], i)
    ensures ByteRule(src, dst, out, ws, i)
  {
    var w0, rest := ws[0], ws[1..];
    assert forall w :: w in ws <==> w == w0 || w in rest;
    if Covers(w0, i) {
      forall w | w in rest && Covers(w, i)
        ensures w == w0
      {
        assert w in ws && w0 in ws;
      }
    }
  }

  /** Two runs that place bytes by the same rule over the same workers agree byte for byte. */
  lemma PlacedUnique(src: seq<byte>, dst: seq<byte>, o1: seq<byte>, o2: seq<byte>, ws1: seq<ThInfo>, ws2: seq<ThInfo>)
    requires BuffersSet(ws1) && BuffersSet(ws2)
    requires forall w :: w in ws1 <==> w in ws2
    requires Placed(src, dst, o1, ws1) && Placed(src, dst, o2, ws2)
    ensures o1 == o2
  {
    forall i | 0 <= i < |dst|
      ensures o1[i] == o2[i]
    {
      assert ByteRule(src, dst, o1, ws1, i) && ByteRule(src, dst, o2, ws2, i);
      if w :| w in ws1 && Covers(w, i) {
        assert w in ws2;
      }
    }
  }

  /**
   * Order does not matter: the same workers in any order (or repeated) reach
   * the same verdict, and when that is success, the same destination.
   */
  lemma RunWorkersOrder(src: seq<byte>, dst: seq<byte>, ws1: seq<ThInfo>, ws2: seq<ThInfo>)
    requires BuffersSet(ws1) && BuffersSet(ws2) && DisjointDest(ws1)
    requires forall w :: w in ws1 <==> w in ws2
    ensures (RunWorkers(src, dst, ws1).status == Done) == (RunWorkers(src, dst, ws2).status == Done)
    ensures RunWorkers(src, dst, ws1).status == Done ==> RunWorkers(src, dst, ws1) == RunWorkers(src, dst, ws2)
  {
    RunWorkersDone(src, dst, ws1);
    RunWorkersDone(src, dst, ws2);
    if RunWorkers(src, dst, ws1).status == Done {
      assert DisjointDest(ws2);
      RunWorkersBytes(src, dst, ws1);
      RunWorkersBytes(src, dst, ws2);
      PlacedUnique(src, dst, RunWorkers(src, dst, ws1).dst, RunWorkers(src, dst, ws2).dst, ws1, ws2);
    }
  }

  /** Running the same transfer a second time over its own result changes nothing. */
  lemma {:induction false} RunWorkersIdempotent(src: seq<byte>, dst: seq<byte>, ws: seq<ThInfo>)
    requires BuffersSet(ws) && DisjointDest(ws)
    requires RunWorkers(src, dst, ws).status == Done
    ensures RunWorkers(src, RunWorkers(src, dst, ws).dst, ws) == RunWorkers(src, dst, ws)
  {
    var out := RunWorkers(src, dst, ws).dst;
    RunWorkersDone(src, dst, ws);
    RunWorkersDone(src, out, ws);
    RunWorkersBytes(src, dst, ws);
    RunWorkersBytes(src, out, ws);
    var again := RunWorkers(src, out, ws).dst;
    forall i | 0 <= i < |dst|
      ensures again[i] == out[i]
    {
      assert ByteRule(src, dst, out, ws, i) && ByteRule(src, out, again, ws, i);
      if w :| w in ws && Covers(w, i) {
      }
    }
  }

  /** The planner's records all have the block size as buffer size. */
  lemma PlanBuffers(cfg: Config)
    requires cfg.threads >= 1 && cfg.block > 0
    ensures BuffersSet(Planner.Plan(cfg))
  {
  }

  /** A worker has no whole buffer to move iff it moves no bytes. */
  lemma IterationsZero(w: ThInfo)
    requires w.sizeBuff > 0
    ensures Worker.Iterations(w) == 0 <==> Worker.CopyLen(w) == 0
  {
    if Worker.Iterations(w) > 0 {
      Planner.MulMonotone(1, Worker.Iterations(w), w.sizeBuff);
    }
  }

  /**
   * The shape of a plan as the worker runs see it: worker `t` starts `t`
   * shares of `c` bytes after the bases `sb` and `db`, and moves `l` bytes.
   */
  ghost predicate Uniform(ws: seq<ThInfo>, sb: nat, db: nat, c: nat, l: nat) {
    && BuffersSet(ws)
    && forall t :: 0 <= t < |ws| ==>
         ws[t].skip == sb + t * c && ws[t].seek == db + t * c && Worker.CopyLen(ws[t]) == l
  }

  /** Bytes each worker of the plan moves: what the first worker moves, since all shares are equal. */
  function PlanCopyLen(cfg: Config): nat
    requires cfg.threads >= 1 && cfg.block > 0
  {
    Worker.CopyLen(Planner.Assignment(cfg, 0))
  }

  /** The plan has that shape, with the scaled bases, the share and PlanCopyLen. */
  lemma PlanUniform(cfg: Config)
    requires cfg.threads >= 1 && cfg.block > 0
    ensures Uniform(Planner.Plan(cfg), Planner.SourceBase(cfg), Planner.DestBase(cfg),
                    Planner.ChunkBytes(cfg), PlanCopyLen(cfg))
  {
  }

  /** Byte `i` lies in the first `l` bytes of one of `n` shares of `c` bytes from `db`. */
  ghost predicate InShare(db: nat, c: nat, l: nat, n: nat, i: nat) {
    exists t :: 0 <= t < n && db + t * c <= i < db + t * c + l
  }

  /** Destination byte `i` lies in the copied part of one worker's share. */
  ghost predicate Covered(cfg: Config, i: nat)
    requires cfg.threads >= 1 && cfg.block > 0
  {
    InShare(Planner.DestBase(cfg), Planner.ChunkBytes(cfg), PlanCopyLen(cfg), cfg.threads, i)
  }

  /** In a uniform plan the last worker's offsets are the largest, so it decides the verdict. */
  lemma UniformDone(src: seq<byte>, dst: seq<byte>, ws: seq<ThInfo>, sb: nat, db: nat, c: nat, l: nat)
    requires Uniform(ws, sb, db, c, l) && |ws| >= 1
    ensures RunWorkers(src, dst, ws).status == Done <==>
      (l == 0 || (sb + (|ws| - 1) * c + l <= |src| && db + (|ws| - 1) * c + l <= |dst|))
  {
    RunWorkersDone(src, dst, ws);
    LastFits(|src|, |dst|, ws, sb, db, c, l);
    assert ws[|ws| - 1] in ws;
    if Fits(ws[|ws| - 1], |src|, |dst|) {
      AllFitFromLast(|src|, |dst|, ws, sb, db, c, l);
    }
  }

  lemma LastFits(srcLen: nat, dstLen: nat, ws: seq<ThInfo>, sb: nat, db: nat, c: nat, l: nat)
    requires Uniform(ws, sb, db, c, l) && |ws| >= 1
    ensures Fits(ws[|ws| - 1], srcLen, dstLen) <==>
      (l == 0 || (sb + (|ws| - 1) * c + l <= srcLen && db + (|ws| - 1) * c + l <= dstLen))
  {
    IterationsZero(ws[|ws| - 1]);
  }

  lemma AllFitFromLast(srcLen: nat, dstLen: nat, ws: seq<ThInfo>, sb: nat, db: nat, c: nat, l: nat)
    requires Uniform(ws, sb, db, c, l) && |ws| >= 1
    requires Fits(ws[|ws| - 1], srcLen, dstLen)
    ensures forall w :: w in ws ==> Fits(w, srcLen, dstLen)
  {
    var n := |ws|;
    LastFits(srcLen, dstLen, ws, sb, db, c, l);
    forall w | w in ws
      ensures Fits(w, srcLen, dstLen)
    {
      var t :| 0 <= t < n && ws[t] == w;
      IterationsZero(w);
      Planner.MulMonotone(t, n - 1, c);
    }
  }

  /** The verdict of the plan's run: it succeeds iff the last worker's ranges fit, or no one moves a byte. */
  lemma PlanRunDone(src: seq<byte>, dst: seq<byte>, cfg: Config)
    requires cfg.threads >= 1 && cfg.block > 0
    ensures BuffersSet(Planner.Plan(cfg))
    ensures var n, c, l := cfg.threads, Planner.ChunkBytes(cfg), PlanCopyLen(cfg);
      RunWorkers(src, dst, Planner.Plan(cfg)).status == Done <==>
        (l == 0 ||
         (Planner.SourceBase(cfg) + (n - 1) * c + l <= |src| &&
          Planner.DestBase(cfg) + (n - 1) * c + l <= |dst|))
  {
    PlanUniform(cfg);
    UniformDone(src, dst, Planner.Plan(cfg), Planner.SourceBase(cfg), Planner.DestBase(cfg),
                Planner.ChunkBytes(cfg), PlanCopyLen(cfg));
  }

  /** In a uniform plan a worker covers byte `i` iff `i` is in the copied part of its share. */
  lemma UniformCovers(ws: seq<ThInfo>, sb: nat, db: nat, c: nat, l: nat, i: nat)
    requires Uniform(ws, sb, db, c, l)
    ensures (exists w :: w in ws && Covers(w, i)) <==> InShare(db, c, l, |ws|, i)
  {
    if w :| w in ws && Covers(w, i) {
      var t :| 0 <= t < |ws| && ws[t] == w;
      assert db + t * c <= i < db + t * c + l;
    }
    if InShare(db, c, l, |ws|, i) {
      var t :| 0 <= t < |ws| && db + t * c <= i < db + t * c + l;
      assert ws[t] in ws && Covers(ws[t], i);
    }
  }

  /** The bytes of a successful uniform run, in terms of the two bases alone. */
  lemma UniformResult(src: seq<byte>, dst: seq<byte>, ws: seq<ThInfo>, sb: nat, db: nat, c: nat, l: nat)
    requires Uniform(ws, sb, db, c, l) && DisjointDest(ws)
    requires RunWorkers(src, dst, ws).status == Done
    ensures var out := RunWorkers(src, dst, ws).dst;
      forall i :: 0 <= i < |dst| ==>
        if InShare(db, c, l, |ws|, i) then db <= i && sb + (i - db) < |src| && out[i] == src[sb + (i - db)]
        else out[i] == dst[i]
  {
    var out := RunWorkers(src, dst, ws).dst;
    RunWorkersBytes(src, dst, ws);
    forall i | 0 <= i < |dst|
      ensures if InShare(db, c, l, |ws|, i) then db <= i && sb + (i - db) < |src| && out[i] == src[sb + (i - db)]
              else out[i] == dst[i]
    {
      UniformByte(src, dst, out, ws, sb, db, c, l, i);
    }
  }

  /** UniformResult for one byte placed by ByteRule. */
  lemma UniformByte(src: seq<byte>, dst: seq<byte>, out: seq<byte>, ws: seq<ThInfo>, sb: nat, db: nat, c: nat, l: nat, i: nat)
    requires Uniform(ws, sb, db, c, l) && i < |dst| && |out| == |dst|
    requires ByteRule(src, dst, out, ws, i)
    ensures if InShare(db, c, l, |ws|, i) then db <= i && sb + (i - db) < |src| && out[i] == src[sb + (i - db)]
            else out[i] == dst[i]
  {
    UniformCovers(ws, sb, db, c, l, i);
    if InShare(db, c, l, |ws|, i) {
      var w :| w in ws && Covers(w, i);
      var t :| 0 <= t < |ws| && ws[t] == w;
      var k := w.skip + (i - w.seek);
      assert k < |src| && out[i] == src[k];
      Planner.MulMonotone(0, t, c);
      ShiftIndex(sb, db, t * c, i, w.skip, w.seek);
      assert db <= i;
      assert k == sb + (i - db);
      assert sb + (i - db) < |src|;
      assert out[i] == src[sb + (i - db)];
    } else {
      assert forall w :: w in ws ==> !Covers(w, i);
      assert out[i] == dst[i];
    }
  }

  /** The same distance from the start of a share is the same distance from the base. */
  lemma ShiftIndex(sb: nat, db: nat, tc: nat, i: nat, skip: nat, seek: nat)
    requires skip == sb + tc && seek == db + tc && seek <= i
    ensures db <= i && skip + (i - seek) == sb + (i - db)
  {
  }

  /** Each worker of the plan writes at most its share, so the plan's destination ranges are disjoint. */
  lemma PlanDisjointDest(cfg: Config)
    requires cfg.threads >= 1 && cfg.block > 0
    ensures BuffersSet(Planner.Plan(cfg)) && DisjointDest(Planner.Plan(cfg))
  {
    var p := Planner.Plan(cfg);
    Planner.PlanDisjoint(cfg);
    forall v, w | v in p && w in p && v != w
      ensures v.seek + Worker.CopyLen(v) <= w.seek || w.seek + Worker.CopyLen(w) <= v.seek
    {
      var i :| 0 <= i < |p| && p[i] == v;
      var j :| 0 <= j < |p| && p[j] == w;
      assert Worker.CopyLen(v) <= v.sizeData && Worker.CopyLen(w) <= w.sizeData;
      if i < j {
        assert v.seek + v.sizeData <= w.seek;
      } else {
        assert i != j;
        assert w.seek + w.sizeData <= v.seek;
      }
    }
  }

  /**
   * End to end: a successful run copies, for each worker `t`, the first
   * PlanCopyLen bytes of share `t` of the source range to share `t` of the
   * destination range, at the same distance from the bases, and leaves every
   * other destination byte as it was.
   */
  lemma TransferResult(src: seq<byte>, dst: seq<byte>, cfg: Config)
    requires cfg.threads >= 1 && cfg.block > 0
    ensures BuffersSet(Planner.Plan(cfg))
    ensures var r := RunWorkers(src, dst, Planner.Plan(cfg));
      r.status == Done ==>
        forall i :: 0 <= i < |dst| ==>
          if Covered(cfg, i) then
            Planner.DestBase(cfg) <= i &&
            Planner.SourceBase(cfg) + (i - Planner.DestBase(cfg)) < |src| &&
            r.dst[i] == src[Planner.SourceBase(cfg) + (i - Planner.DestBase(cfg))]
          else r.dst[i] == dst[i]
  {
    PlanUniform(cfg);
    PlanDisjointDest(cfg);
    if RunWorkers(src, dst, Planner.Plan(cfg)).status == Done {
      UniformResult(src, dst, Planner.Plan(cfg), Planner.SourceBase(cfg), Planner.DestBase(cfg),
                    Planner.ChunkBytes(cfg), PlanCopyLen(cfg));
    }
  }

  /** TransferResult for one destination byte. */
  lemma TransferByte(src: seq<byte>, dst: seq<byte>, cfg: Config, i: nat)
    requires cfg.threads >= 1 && cfg.block > 0
    requires BuffersSet(Planner.Plan(cfg)) && RunWorkers(src, dst, Planner.Plan(cfg)).status == Done
    requires i < |dst|
    ensures var r := RunWorkers(src, dst, Planner.Plan(cfg));
      if Covered(cfg, i) then
        Planner.DestBase(cfg) <= i &&
        Planner.SourceBase(cfg) + (i - Planner.DestBase(cfg)) < |src| &&
        r.dst[i] == src[Planner.SourceBase(cfg) + (i - Planner.DestBase(cfg))]
      else r.dst[i] == dst[i]
  {
    TransferResult(src, dst, cfg);
  }

  /**
   * When the share is a whole number of blocks, the covered bytes are the
   * whole range of `threads` shares from the destination base.
   */
  lemma CoveredWholeBlocks(cfg: Config, i: nat)
    requires cfg.threads >= 1 && cfg.block > 0
    requires Planner.ChunkBytes(cfg) % cfg.block == 0
    ensures Covered(cfg, i) <==>
      Planner.DestBase(cfg) <= i < Planner.DestBase(cfg) + cfg.threads * Planner.ChunkBytes(cfg)
  {
    WholeBlocksCopyLen(cfg);
    Planner.Tiling(Planner.DestBase(cfg), Planner.ChunkBytes(cfg), cfg.threads, i);
  }

  /** A share of whole buffers is moved entirely. */
  lemma WholeBlocksCopyLen(cfg: Config)
    requires cfg.threads >= 1 && cfg.block > 0
    requires Planner.ChunkBytes(cfg) % cfg.block == 0
    ensures PlanCopyLen(cfg) == Planner.ChunkBytes(cfg)
  {
    var c := Planner.ChunkBytes(cfg);
    assert c == (c / cfg.block) * cfg.block + c % cfg.block;
  }

  /**
   * The common case: when each share is a whole number of buffers and both
   * devices hold the `threads` shares from their bases, the run succeeds and
   * the destination range of `threads` shares is the source range, with
   * every other byte as it was.
   */
  lemma EvenTransfer(src: seq<byte>, dst: seq<byte>, cfg: Config)
    requires cfg.threads >= 1 && cfg.block > 0
    requires Planner.ChunkBytes(cfg) % cfg.block == 0
    requires Planner.SourceBase(cfg) + cfg.threads * Planner.ChunkBytes(cfg) <= |src|
    requires Planner.DestBase(cfg) + cfg.threads * Planner.ChunkBytes(cfg) <= |dst|
    ensures BuffersSet(Planner.Plan(cfg))
    ensures var r := RunWorkers(src, dst, Planner.Plan(cfg));
      && r.status == Done
      && CopiedRange(src, dst, r.dst, Planner.SourceBase(cfg), Planner.DestBase(cfg),
                     cfg.threads * Planner.ChunkBytes(cfg))
  {
    EvenDone(src, dst, cfg);
    EvenBytes(src, dst, cfg);
  }

  /** The bytes half of EvenTransfer, for a run known to succeed. */
  lemma EvenBytes(src: seq<byte>, dst: seq<byte>, cfg: Config)
    requires cfg.threads >= 1 && cfg.block > 0
    requires Planner.ChunkBytes(cfg) % cfg.block == 0
    requires Planner.SourceBase(cfg) + cfg.threads * Planner.ChunkBytes(cfg) <= |src|
    requires BuffersSet(Planner.Plan(cfg)) && RunWorkers(src, dst, Planner.Plan(cfg)).status == Done
    ensures CopiedRange(src, dst, RunWorkers(src, dst, Planner.Plan(cfg)).dst, Planner.SourceBase(cfg),
                        Planner.DestBase(cfg), cfg.threads * Planner.ChunkBytes(cfg))
  {
    forall i | 0 <= i < |dst|
      ensures RunWorkers(src, dst, Planner.Plan(cfg)).dst[i] ==
        if Planner.DestBase(cfg) <= i < Planner.DestBase(cfg) + cfg.threads * Planner.ChunkBytes(cfg)
        then src[Planner.SourceBase(cfg) + (i - Planner.DestBase(cfg))] else dst[i]
    {
      EvenByte(src, dst, cfg, i);
    }
  }

  /**
   * `out` is `dst` with the `len` bytes from `db` replaced by the `len`
   * source bytes from `sb`.
   */
  ghost predicate CopiedRange(src: seq<byte>, dst: seq<byte>, out: seq<byte>, sb: nat, db: nat, len: nat)
    requires sb + len <= |src|
  {
    |out| == |dst| &&
    forall i :: 0 <= i < |dst| ==> out[i] == if db <= i < db + len then src[sb + (i - db)] else dst[i]
  }

  /** EvenTransfer for one destination byte. */
  lemma EvenByte(src: seq<byte>, dst: seq<byte>, cfg: Config, i: nat)
    requires cfg.threads >= 1 && cfg.block > 0
    requires Planner.ChunkBytes(cfg) % cfg.block == 0
    requires BuffersSet(Planner.Plan(cfg)) && RunWorkers(src, dst, Planner.Plan(cfg)).status == Done
    requires i < |dst|
    ensures var db := Planner.DestBase(cfg);
      Planner.SourceBase(cfg) + (i - db) < |src| || !(db <= i < db + cfg.threads * Planner.ChunkBytes(cfg))
    ensures var db := Planner.DestBase(cfg);
      RunWorkers(src, dst, Planner.Plan(cfg)).dst[i] ==
        if db <= i < db + cfg.threads * Planner.ChunkBytes(cfg)
        then src[Planner.SourceBase(cfg) + (i - db)] else dst[i]
  {
    TransferByte(src, dst, cfg, i);
    CoveredWholeBlocks(cfg, i);
  }

  /** EvenTransfer's verdict: the last worker's whole share fits both devices. */
  lemma EvenDone(src: seq<byte>, dst: seq<byte>, cfg: Config)
    requires cfg.threads >= 1 && cfg.block > 0
    requires Planner.ChunkBytes(cfg) % cfg.block == 0
    requires Planner.SourceBase(cfg) + cfg.threads * Planner.ChunkBytes(cfg) <= |src|
    requires Planner.DestBase(cfg) + cfg.threads * Planner.ChunkBytes(cfg) <= |dst|
    ensures BuffersSet(Planner.Plan(cfg))
    ensures RunWorkers(src, dst, Planner.Plan(cfg)).status == Done
  {
    var n, c := cfg.threads, Planner.ChunkBytes(cfg);
    WholeBlocksCopyLen(cfg);
    MulStep(n - 1, c);
    PlanRunDone(src, dst, cfg);
  }

  /**
   * Cloning a device: with no offsets, shares of whole buffers and a total of
   * exactly the size of both devices, the destination becomes the source.
   */
  lemma FullCopy(src: seq<byte>, dst: seq<byte>, cfg: Config)
    requires cfg.threads >= 1 && cfg.block > 0 && cfg.skip == 0 && cfg.seek == 0
    requires Planner.ChunkBytes(cfg) % cfg.block == 0
    requires cfg.threads * Planner.ChunkBytes(cfg) == |src| == |dst|
    ensures BuffersSet(Planner.Plan(cfg))
    ensures RunWorkers(src, dst, Planner.Plan(cfg)) == Worker.CopyResult(Done, src)
  {
    assert Planner.SourceBase(cfg) == 0 && Planner.DestBase(cfg) == 0;
    EvenTransfer(src, dst, cfg);
    var r := RunWorkers(src, dst, Planner.Plan(cfg));
    assert forall i :: 0 <= i < |src| ==> r.dst[i] == src[i];
  }

  /** Bytes per display unit: G, M and K the parser's multipliers, B single bytes. */
  function UnitSize(u: char): nat {
    if Args.IsUnit(u) then Args.UnitMultiplier(u).value else 1
  }

  /**
   * The unit the report prints the total in: the largest of G, M and K that
   * is not above the total, or B (bytes) when the total is under 1 KiB.
   */
  function DisplayUnit(sizeData: nat): (u: char)
    ensures u == 'B' || u == 'K' || u == 'M' || u == 'G'
    ensures u != 'B' ==> UnitSize(u) <= sizeData
    ensures u != 'G' ==> sizeData < ONE_KB * UnitSize(u)
  {
    if sizeData >= ONE_GB then 'G'
    else if sizeData >= ONE_MB then 'M'
    else if sizeData >= ONE_KB then 'K'
    else 'B'
  }

  /** The unit is determined by the two bounds: the total is at least one unit and under the next. */
  lemma DisplayUnitUnique(sizeData: nat, u: char)
    requires u == 'B' || u == 'K' || u == 'M' || u == 'G'
    requires u != 'B' ==> UnitSize(u) <= sizeData
    requires u != 'G' ==> sizeData < ONE_KB * UnitSize(u)
    ensures DisplayUnit(sizeData) == u
  {
  }

  /**
   * The as-written thread rule lets zero workers through: `--threads 0`
   * passes the thread check and verify_global_var, and the plan then
   * divides the total by a thread count of zero. The corrected rule stops
   * it with a configuration error.
   */
  lemma ZeroThreadsReachPlanning(count: nat, block: nat)
    requires count > 0
    ensures Args.ScanThreads(0) == Ok(0)
    ensures Args.VerifyGlobals(Config(0, 0, count, block, 0)).Ok?
    ensures Args.VerifyGlobals(Config(0, 0, count, block, 0)).value.threads == 0
    ensures Args.Prepare(Config(0, 0, count, block, 0)) == Err(ThreadsZero)
  {
  }

  /**
   * The transfer part of `main`: fill in the plan, then run the workers one
   * after another over the destination device, stopping at the first failure.
   */
  method RunTransfer(src: seq<byte>, dst: array<byte>, cfg: Config) returns (status: Status, sizeData: nat)
    requires cfg.threads >= 1 && cfg.block > 0
    modifies dst
    ensures BuffersSet(Planner.Plan(cfg))
    ensures sizeData == Planner.TotalBytes(cfg)
    ensures Worker.CopyResult(status, dst[..]) == RunWorkers(src, old(dst[..]), Planner.Plan(cfg))
  {
    var tinfo;
    sizeData, tinfo := Planner.FillPlan(cfg);
    ghost var p := Planner.Plan(cfg);
    PlanBuffers(cfg);
    assert p[0..] == p;
    var i := 0;
    while i < tinfo.Length
      invariant 0 <= i <= tinfo.Length == |p|
      invariant tinfo[..] == p
      invariant RunWorkers(src, dst[..], p[i..]) == RunWorkers(src, old(dst[..]), p)
    {
      assert p[i..][1..] == p[i + 1..];
      var st := Worker.TransData(src, dst, tinfo[i]);
      if st != Done {
        return st, sizeData;
      }
      i := i + 1;
    }
    status := Done;
  }

  /** How a run of pdd ends. */
  datatype Outcome =
    | Rejected(error: ConfigError)        // the settings make the process exit before any copy
    | TransferFailed(reason: IoError)     // a worker failed part-way
    | Copied(total: nat, unit: char)      // every worker finished; the report's total and its unit

  /**
   * `main` from the scanned settings on: validate them, copy, and choose the
   * report's unit. A rejected configuration leaves the destination alone.
   */
  method Pdd(src: seq<byte>, dst: array<byte>, raw: Config) returns (outcome: Outcome)
    modifies dst
    ensures outcome.Rejected? <==> Args.Prepare(raw).Err?
    ensures outcome.Rejected? ==> outcome.error == Args.Prepare(raw).error && dst[..] == old(dst[..])
    ensures Args.Prepare(raw).Ok? ==>
      var cfg := Args.Prepare(raw).value;
      && cfg.threads >= 1 && cfg.block > 0
      && var r := RunWorkers(src, old(dst[..]), Planner.Plan(cfg));
      && dst[..] == r.dst
      && (outcome.Copied? <==> r.status == Done)
      && (outcome.TransferFailed? ==> r.status == Failed(outcome.reason))
      && (outcome.Copied? ==> outcome.total == Planner.TotalBytes(cfg) &&
                              outcome.unit == DisplayUnit(outcome.total))
  {
    var prepared := Args.Prepare(raw);
    if prepared.Err? {
      return Rejected(prepared.error);
    }
    var cfg := prepared.value;
    var status, sizeData := RunTransfer(src, dst, cfg);
    if status.Failed? {
      return TransferFailed(status.reason);
    }
    outcome := Copied(sizeData, DisplayUnit(sizeData));
  }
}

/**
 * The partition planner in `main`: scale the block-unit settings to bytes
 * and give each of the `threads` workers an equal, truncated share of the
 * total, at consecutive offsets from the two base offsets.
 */
module Planner {
  import opened PddTypes

  /** `size_data = size_count * size_block`: the total is `count` whole blocks. */
  function TotalBytes(cfg: Config): (n: nat)
    ensures cfg.block > 0 ==> n % cfg.block == 0 && n / cfg.block == cfg.count
  {
    WholeBlocks(cfg.count, cfg.block);
    cfg.count * cfg.block
  }

  /** `off_src *= size_block`: the source base is `skip` whole blocks in. */
  function SourceBase(cfg: Config): (n: nat)
    ensures cfg.block > 0 ==> n % cfg.block == 0 && n / cfg.block == cfg.skip
  {
    WholeBlocks(cfg.skip, cfg.block);
    cfg.skip * cfg.block
  }

  /** `off_dst *= size_block`: the destination base is `seek` whole blocks in. */
  function DestBase(cfg: Config): (n: nat)
    ensures cfg.block > 0 ==> n % cfg.block == 0 && n / cfg.block == cfg.seek
  {
    WholeBlocks(cfg.seek, cfg.block);
    cfg.seek * cfg.block
  }

  lemma WholeBlocks(k: nat, b: nat)
    ensures b > 0 ==> (k * b) % b == 0 && (k * b) / b == k
  {
    if b > 0 {
      var q, r := (k * b) / b, (k * b) % b;
      assert k * b == q * b + r;
      if q < k {
        MulMonotone(q + 1, k, b);
        MulStep(q, b);
      } else if q > k {
        MulMonotone(k + 1, q, b);
        MulStep(k, b);
      }
    }
  }

  /**
   * `size_th_data = size_data / cnt_thread`: every worker's share, truncated;
   * all of the total for a single worker.
   * ShareBound says it is the largest share all workers can take.
   */
  function ChunkBytes(cfg: Config): (c: nat)
    requires cfg.threads >= 1
    ensures cfg.threads == 1 ==> c == TotalBytes(cfg)
  {
    TotalBytes(cfg) / cfg.threads
  }

  /**
   * The record the loop fills in for worker `i`: its thread number, one share
   * and the block size as buffer. The first worker starts at the two bases,
   * and any worker of the plan lies within the total on both sides.
   */
  function Assignment(cfg: Config, i: nat): (w: ThInfo)
    requires cfg.threads >= 1
    ensures w.threadNum == i && w.sizeData == ChunkBytes(cfg) && w.sizeBuff == cfg.block
    ensures i == 0 ==> w.skip == SourceBase(cfg) && w.seek == DestBase(cfg)
    ensures w.skip >= SourceBase(cfg) && w.seek >= DestBase(cfg)
    ensures i < cfg.threads ==>
      w.skip + w.sizeData <= SourceBase(cfg) + TotalBytes(cfg) &&
      w.seek + w.sizeData <= DestBase(cfg) + TotalBytes(cfg)
  {
    var chunk := ChunkBytes(cfg);
    MulMonotone(0, i, chunk);
    if i < cfg.threads then
      MulStep(i, chunk);
      MulMonotone(i + 1, cfg.threads, chunk);
      ThInfo(i, SourceBase(cfg) + i * chunk, DestBase(cfg) + i * chunk, chunk, cfg.block)
    else
      ThInfo(i, SourceBase(cfg) + i * chunk, DestBase(cfg) + i * chunk, chunk, cfg.block)
  }

  /** The whole plan: one assignment per worker, in index order. */
  function Plan(cfg: Config): (p: seq<ThInfo>)
    requires cfg.threads >= 1
    ensures |p| == cfg.threads
    ensures forall i :: 0 <= i < |p| ==> p[i] == Assignment(cfg, i)
  {
    seq(cfg.threads, i requires 0 <= i < cfg.threads => Assignment(cfg, i))
  }

  lemma {:induction false} MulMonotone(i: nat, j: nat, c: nat)
    requires i <= j
    ensures i * c <= j * c
  {
    if i < j {
      MulMonotone(i, j - 1, c);
      MulStep(j - 1, c);
    }
  }

  /**
   * Shape of the plan: `threads` records, record `i` for worker `i`, all with
   * the same share `total / threads` (so together at most the total, short of
   * it by exactly the remainder) and the block size as buffer size.
   */
  lemma PlanShape(cfg: Config)
    requires cfg.threads >= 1
    ensures var p := Plan(cfg);
      && |p| == cfg.threads
      && (forall i :: 0 <= i < |p| ==> p[i].threadNum == i && p[i].sizeBuff == cfg.block)
      && (forall i :: 0 <= i < |p| ==> p[i].sizeData * cfg.threads <= cfg.count * cfg.block)
      && (forall i :: 0 <= i < |p| ==>
            cfg.count * cfg.block - p[i].sizeData * cfg.threads == (cfg.count * cfg.block) % cfg.threads)
      && (forall i, j :: 0 <= i < |p| && 0 <= j < |p| ==> p[i].sizeData == p[j].sizeData)
  {
    var total, n := TotalBytes(cfg), cfg.threads;
    assert total == (total / n) * n + total % n;
  }

  /**
   * Offsets: record `i` starts `i` shares after each base, so the range of
   * each record ends exactly where the next one's begins, on both sides.
   */
  lemma PlanAdjacent(cfg: Config)
    requires cfg.threads >= 1
    ensures var p := Plan(cfg);
      forall i :: 0 <= i < |p| - 1 ==>
        && p[i].skip + p[i].sizeData == p[i + 1].skip
        && p[i].seek + p[i].sizeData == p[i + 1].seek
  {
    var p := Plan(cfg);
    forall i | 0 <= i < |p| - 1
      ensures p[i].skip + p[i].sizeData == p[i + 1].skip
      ensures p[i].seek + p[i].sizeData == p[i + 1].seek
    {
      MulStep(i, ChunkBytes(cfg));
    }
  }

  /** Source ranges of different records never overlap, nor do destination ranges. */
  lemma PlanDisjoint(cfg: Config)
    requires cfg.threads >= 1
    ensures var p := Plan(cfg);
      forall i, j :: 0 <= i < j < |p| ==>
        && p[i].skip + p[i].sizeData <= p[j].skip
        && p[i].seek + p[i].sizeData <= p[j].seek
  {
    var p := Plan(cfg);
    var c := ChunkBytes(cfg);
    forall i, j | 0 <= i < j < |p|
      ensures p[i].skip + p[i].sizeData <= p[j].skip
      ensures p[i].seek + p[i].sizeData <= p[j].seek
    {
      MulStep(i, c);
      MulMonotone(i + 1, j, c);
    }
  }

  /** When the share is not empty the offsets strictly increase with the worker index. */
  lemma PlanIncreasing(cfg: Config)
    requires cfg.threads >= 1 && ChunkBytes(cfg) > 0
    ensures var p := Plan(cfg);
      forall i, j :: 0 <= i < j < |p| ==> p[i].skip < p[j].skip && p[i].seek < p[j].seek
  {
    PlanDisjoint(cfg);
  }

  /**
   * Ten one-byte blocks over three workers: three bytes each, at offsets 0, 3
   * and 6, and the last byte belongs to no worker.
   */
  lemma PlanTenBytesThreeWorkers()
    ensures Plan(Config(0, 0, 10, 1, 3)) ==
      [ThInfo(0, 0, 0, 3, 1), ThInfo(1, 3, 3, 3, 1), ThInfo(2, 6, 6, 3, 1)]
  {
  }

  /**
   * Coverage: the records tile `[base, base + threads * share)` on each side,
   * and the remainder `[base + threads * share, base + total)` lies in no
   * record's range.
   */
  lemma PlanCoverage(cfg: Config, x: nat)
    requires cfg.threads >= 1
    ensures cfg.threads * ChunkBytes(cfg) <= TotalBytes(cfg)
    ensures SourceBase(cfg) <= x < SourceBase(cfg) + cfg.threads * ChunkBytes(cfg) <==>
            exists i :: 0 <= i < cfg.threads && Plan(cfg)[i].skip <= x < Plan(cfg)[i].skip + Plan(cfg)[i].sizeData
    ensures DestBase(cfg) <= x < DestBase(cfg) + cfg.threads * ChunkBytes(cfg) <==>
            exists i :: 0 <= i < cfg.threads && Plan(cfg)[i].seek <= x < Plan(cfg)[i].seek + Plan(cfg)[i].sizeData
  {
    ShareBound(TotalBytes(cfg), cfg.threads);
    SideCoverage(cfg, SourceBase(cfg), x, true);
    SideCoverage(cfg, DestBase(cfg), x, false);
  }

  /** The truncated share is the largest that `n` workers can each take from `total`. */
  lemma ShareBound(total: nat, n: nat)
    requires n >= 1
    ensures n * (total / n) <= total < n * (total / n) + n
  {
    assert total == (total / n) * n + total % n;
  }

  /** The share is empty exactly when there are fewer bytes than workers. */
  lemma ShareEmpty(cfg: Config)
    requires cfg.threads >= 1
    ensures ChunkBytes(cfg) == 0 <==> TotalBytes(cfg) < cfg.threads
  {
    ShareBound(TotalBytes(cfg), cfg.threads);
    if ChunkBytes(cfg) > 0 {
      MulMonotone(1, ChunkBytes(cfg), cfg.threads);
    }
  }

  /** PlanCoverage for one side: the source offsets when `source` holds, else the destination offsets. */
  lemma SideCoverage(cfg: Config, base: nat, x: nat, source: bool)
    requires cfg.threads >= 1
    requires base == if source then SourceBase(cfg) else DestBase(cfg)
    ensures base <= x < base + cfg.threads * ChunkBytes(cfg) <==>
            exists i :: 0 <= i < cfg.threads && Start(Plan(cfg)[i], source) <= x < Start(Plan(cfg)[i], source) + Plan(cfg)[i].sizeData
  {
    var n, c, p := cfg.threads, ChunkBytes(cfg), Plan(cfg);
    Tiling(base, c, n, x);
    if base <= x < base + n * c {
      var i :| 0 <= i < n && base + i * c <= x < base + i * c + c;
      assert Start(p[i], source) == base + i * c;
    }
    if exists i :: 0 <= i < n && Start(p[i], source) <= x < Start(p[i], source) + p[i].sizeData {
      var i :| 0 <= i < n && Start(p[i], source) <= x < Start(p[i], source) + p[i].sizeData;
      assert Start(p[i], source) == base + i * c;
    }
  }

  function Start(w: ThInfo, source: bool): nat { if source then w.skip else w.seek }

  /** `n` consecutive ranges of `c` bytes from `base` cover exactly `[base, base + n * c)`. */
  lemma Tiling(base: nat, c: nat, n: nat, x: nat)
    ensures base <= x < base + n * c <==> exists i :: 0 <= i < n && base + i * c <= x < base + i * c + c
  {
    if exists i :: 0 <= i < n && base + i * c <= x < base + i * c + c {
      var i :| 0 <= i < n && base + i * c <= x < base + i * c + c;
      TileInside(base, c, n, x, i);
    }
    if base <= x < base + n * c {
      var i := TileIndex(base, c, n, x);
    }
  }

  /** A byte of range `i < n` lies in the whole span. */
  lemma TileInside(base: nat, c: nat, n: nat, x: nat, i: nat)
    requires i < n && base + i * c <= x < base + i * c + c
    ensures base <= x < base + n * c
  {
    MulMonotone(0, i, c);
    MulStep(i, c);
    MulMonotone(i + 1, n, c);
  }

  /** A byte of the whole span lies in range `(x - base) / c`. */
  lemma TileIndex(base: nat, c: nat, n: nat, x: nat) returns (i: nat)
    requires base <= x < base + n * c
    ensures i < n && base + i * c <= x < base + i * c + c
  {
    var d := x - base;
    i := d / c;
    assert d == i * c + d % c;
    MulStep(i, c);
    if i >= n {
      MulMonotone(n, i, c);
    }
  }

  /**
   * The planning loop of `main`: scale the settings, then fill the records
   * of a freshly allocated array one index at a time.
   */
  method FillPlan(cfg: Config) returns (sizeData: nat, tinfo: array<ThInfo>)
    requires cfg.threads >= 1
    ensures fresh(tinfo)
    ensures sizeData == cfg.count * cfg.block
    ensures tinfo[..] == Plan(cfg)
  {
    sizeData := cfg.count * cfg.block;
    var offSrc := cfg.skip * cfg.block;
    var offDst := cfg.seek * cfg.block;
    tinfo := new ThInfo[cfg.threads];
    var sizeThData := sizeData / cfg.threads;
    assert sizeThData == ChunkBytes(cfg) && offSrc == SourceBase(cfg) && offDst == DestBase(cfg);
    var i := 0;
    while i < cfg.threads
      invariant 0 <= i <= cfg.threads
      invariant forall k :: 0 <= k < i ==> tinfo[k] == Assignment(cfg, k)
    {
      tinfo[i] := ThInfo(i, offSrc + i * sizeThData, offDst + i * sizeThData, sizeThData, cfg.block);
      assert tinfo[i] == Assignment(cfg, i);
      i := i + 1;
    }
    assert tinfo[..] == Plan(cfg);
  }
}

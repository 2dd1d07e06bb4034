/**
 * One worker of pdd (`trans_data`): starting at its two offsets it reads
 * `size_buff` bytes from the source and writes them to the destination,
 * `size_data / size_buff` times, and gives up on the first short read or
 * short write. The files are byte sequences; the destination is an array
 * whose length is fixed (a device or a file that is not extended).
 */
module Worker {
  import opened PddTypes

  /**
   * read(2) of `n` bytes at position `pos` of a file holding `file`: all
   * `n` bytes when they are there, fewer at the end of the file.
   */
  function ReadAt(file: seq<byte>, pos: nat, n: nat): (r: seq<byte>)
    ensures pos + n <= |file| ==> r == file[pos..pos + n]
    ensures 0 < n && |file| < pos + n ==> |r| < n
  {
    if pos + n <= |file| then file[pos..pos + n]
    else if pos < |file| then file[pos..]
    else []
  }

  /** How many of `n` bytes a write(2) at `pos` accepts from a destination of `len` bytes. */
  function Accepted(len: nat, pos: nat, n: nat): (w: nat)
    ensures w <= n
    ensures w == n <==> pos + n <= len || n == 0
    ensures pos + w <= len || w == 0
  {
    if pos + n <= len then n else if pos < len then len - pos else 0
  }

  /** The destination after a write(2) of `data` at `pos`: the accepted prefix lands there. */
  function WriteAt(dst: seq<byte>, pos: nat, data: seq<byte>): (r: seq<byte>)
    ensures |r| == |dst|
    ensures forall k :: 0 <= k < |dst| ==>
      r[k] == if pos <= k < pos + Accepted(|dst|, pos, |data|) then data[k - pos] else dst[k]
  {
    var w := Accepted(|dst|, pos, |data|);
    if w == 0 then dst else dst[..pos] + data[..w] + dst[pos + w..]
  }

  /** What a worker leaves behind: its status and the destination's contents. */
  datatype CopyResult = CopyResult(status: Status, dst: seq<byte>)

  /**
   * The copy loop, `iters` more iterations from positions `posSrc` and
   * `posDst`: read a block, stop on a short read, write it, stop on a short
   * write (after the accepted part has landed), else go on.
   */
  function Copy(src: seq<byte>, dst: seq<byte>, posSrc: nat, posDst: nat, buff: nat, iters: nat): (r: CopyResult)
    ensures |r.dst| == |dst|
    decreases iters
  {
    if iters == 0 then CopyResult(Done, dst)
    else
      var block := ReadAt(src, posSrc, buff);
      if |block| != buff then CopyResult(Failed(ShortRead), dst)
      else
        var written := WriteAt(dst, posDst, block);
        if Accepted(|dst|, posDst, buff) != buff then CopyResult(Failed(ShortWrite), written)
        else Copy(src, written, posSrc + buff, posDst + buff, buff, iters - 1)
  }

  /** `cnt = size_data / size_buff`: the number of whole buffers in the share. */
  function Iterations(w: ThInfo): (k: nat)
    requires w.sizeBuff > 0
    ensures k == 0 <==> w.sizeData < w.sizeBuff
  {
    w.sizeData / w.sizeBuff
  }

  /**
   * Bytes a worker moves when it succeeds: whole buffers only, so its share
   * minus a remainder smaller than one buffer.
   */
  function CopyLen(w: ThInfo): (n: nat)
    requires w.sizeBuff > 0
    ensures n <= w.sizeData && w.sizeData - n < w.sizeBuff
  {
    assert w.sizeData == Iterations(w) * w.sizeBuff + w.sizeData % w.sizeBuff;
    Iterations(w) * w.sizeBuff
  }

  /** The whole of `trans_data` for one assignment; with no whole buffer to move it changes nothing. */
  function Run(src: seq<byte>, dst: seq<byte>, w: ThInfo): (r: CopyResult)
    requires w.sizeBuff > 0
    ensures |r.dst| == |dst|
    ensures Iterations(w) == 0 ==> r == CopyResult(Done, dst)
  {
    Copy(src, dst, w.skip, w.seek, w.sizeBuff, Iterations(w))
  }

  /** Whole blocks of `buff` bytes that fit between `pos` and `len`. */
  function FullBlocks(len: nat, pos: nat, buff: nat): nat
    requires buff > 0
    decreases len - pos
  {
    if pos + buff <= len then 1 + FullBlocks(len, pos + buff, buff) else 0
  }

  /** FullBlocks is the largest `k` with `k` blocks fitting. */
  lemma {:induction false} FullBlocksMeaning(len: nat, pos: nat, buff: nat, k: nat)
    requires buff > 0 && k >= 1
    ensures k <= FullBlocks(len, pos, buff) <==> pos + k * buff <= len
    decreases k
  {
    if k > 1 && pos + buff <= len {
      FullBlocksMeaning(len, pos + buff, buff, k - 1);
      MulStep(k - 1, buff);
    } else if k > 1 {
      assert k * buff >= buff by { MulStep(k - 1, buff); }
    }
  }

  /** Iterations that complete before the loop ends or fails. */
  function Completed(srcLen: nat, dstLen: nat, posSrc: nat, posDst: nat, buff: nat, iters: nat): nat
    requires buff > 0
  {
    Min(iters, Min(FullBlocks(srcLen, posSrc, buff), FullBlocks(dstLen, posDst, buff)))
  }

  /** The status the loop ends with, decided by which file runs out first. */
  function ExpectedStatus(srcLen: nat, dstLen: nat, posSrc: nat, posDst: nat, buff: nat, iters: nat): Status
    requires buff > 0
  {
    var k := Completed(srcLen, dstLen, posSrc, posDst, buff, iters);
    if k == iters then Done
    else if k == FullBlocks(srcLen, posSrc, buff) then Failed(ShortRead)
    else Failed(ShortWrite)
  }

  /** Bytes written: the completed blocks, plus the accepted part of a block whose write came up short. */
  function WrittenBytes(srcLen: nat, dstLen: nat, posSrc: nat, posDst: nat, buff: nat, iters: nat): nat
    requires buff > 0
  {
    var k := Completed(srcLen, dstLen, posSrc, posDst, buff, iters);
    if ExpectedStatus(srcLen, dstLen, posSrc, posDst, buff, iters) == Failed(ShortWrite)
    then k * buff + Accepted(dstLen, posDst + k * buff, buff)
    else k * buff
  }

  /** The first read is short: nothing completes and nothing is written. */
  lemma FirstReadShort(srcLen: nat, dstLen: nat, posSrc: nat, posDst: nat, buff: nat, iters: nat)
    requires buff > 0 && iters > 0 && srcLen < posSrc + buff
    ensures Completed(srcLen, dstLen, posSrc, posDst, buff, iters) == 0
    ensures ExpectedStatus(srcLen, dstLen, posSrc, posDst, buff, iters) == Failed(ShortRead)
    ensures WrittenBytes(srcLen, dstLen, posSrc, posDst, buff, iters) == 0
  {
  }

  /** The first read succeeds and the first write is short: only its accepted part is written. */
  lemma FirstWriteShort(srcLen: nat, dstLen: nat, posSrc: nat, posDst: nat, buff: nat, iters: nat)
    requires buff > 0 && iters > 0 && posSrc + buff <= srcLen && dstLen < posDst + buff
    ensures Completed(srcLen, dstLen, posSrc, posDst, buff, iters) == 0
    ensures ExpectedStatus(srcLen, dstLen, posSrc, posDst, buff, iters) == Failed(ShortWrite)
    ensures WrittenBytes(srcLen, dstLen, posSrc, posDst, buff, iters) == Accepted(dstLen, posDst, buff)
  {
  }

  /** A completed first iteration shifts the counts by one block. */
  lemma FirstBlockDone(srcLen: nat, dstLen: nat, posSrc: nat, posDst: nat, buff: nat, iters: nat)
    requires buff > 0 && iters > 0 && posSrc + buff <= srcLen && posDst + buff <= dstLen
    ensures Completed(srcLen, dstLen, posSrc, posDst, buff, iters) ==
            Completed(srcLen, dstLen, posSrc + buff, posDst + buff, buff, iters - 1) + 1
    ensures ExpectedStatus(srcLen, dstLen, posSrc, posDst, buff, iters) ==
            ExpectedStatus(srcLen, dstLen, posSrc + buff, posDst + buff, buff, iters - 1)
    ensures WrittenBytes(srcLen, dstLen, posSrc, posDst, buff, iters) ==
            buff + WrittenBytes(srcLen, dstLen, posSrc + buff, posDst + buff, buff, iters - 1)
  {
    var k' := Completed(srcLen, dstLen, posSrc + buff, posDst + buff, buff, iters - 1);
    MulStep(k', buff);
    assert posDst + buff + k' * buff == posDst + (k' + 1) * buff;
  }

  /**
   * `out` is `dst` with its `w` bytes from `posDst` on replaced by the `w`
   * source bytes from `posSrc` on.
   */
  ghost predicate Overlay(src: seq<byte>, dst: seq<byte>, out: seq<byte>, posSrc: nat, posDst: nat, w: nat) {
    && |out| == |dst|
    && (w > 0 ==> posSrc + w <= |src| && posDst + w <= |dst|)
    && forall i :: 0 <= i < |dst| ==>
         out[i] == if posDst <= i < posDst + w then src[posSrc + (i - posDst)] else dst[i]
  }

  /** Writing one block and then overlaying the rest is overlaying both. */
  lemma OverlayStep(src: seq<byte>, dst: seq<byte>, out: seq<byte>, posSrc: nat, posDst: nat, buff: nat, w: nat)
    requires buff > 0 && posSrc + buff <= |src| && posDst + buff <= |dst|
    requires Overlay(src, WriteAt(dst, posDst, src[posSrc..posSrc + buff]), out, posSrc + buff, posDst + buff, w)
    ensures Overlay(src, dst, out, posSrc, posDst, buff + w)
  {
    var written := WriteAt(dst, posDst, src[posSrc..posSrc + buff]);
    forall i | 0 <= i < |dst|
      ensures out[i] == if posDst <= i < posDst + buff + w then src[posSrc + (i - posDst)] else dst[i]
    {
      if posDst <= i < posDst + buff {
        assert written[i] == src[posSrc..posSrc + buff][i - posDst];
      }
    }
  }

  /**
   * The effect of the copy loop: its status is decided by the first block
   * that does not fit (the read is tried first), and the destination is the
   * old one with WrittenBytes bytes from the source laid over it.
   */
  lemma {:induction false} CopyEffect(src: seq<byte>, dst: seq<byte>, posSrc: nat, posDst: nat, buff: nat, iters: nat)
    requires buff > 0
    ensures Copy(src, dst, posSrc, posDst, buff, iters).status ==
            ExpectedStatus(|src|, |dst|, posSrc, posDst, buff, iters)
    ensures Overlay(src, dst, Copy(src, dst, posSrc, posDst, buff, iters).dst, posSrc, posDst,
                    WrittenBytes(|src|, |dst|, posSrc, posDst, buff, iters))
    decreases iters, 1
  {
    var r := Copy(src, dst, posSrc, posDst, buff, iters);
    if iters == 0 {
    } else if posSrc + buff > |src| {
      FirstReadShort(|src|, |dst|, posSrc, posDst, buff, iters);
    } else if posDst + buff > |dst| {
      FirstWriteShort(|src|, |dst|, posSrc, posDst, buff, iters);
      var block := src[posSrc..posSrc + buff];
      assert r.dst == WriteAt(dst, posDst, block);
    } else {
      CopyEffectStep(src, dst, posSrc, posDst, buff, iters);
      assert r == Copy(src, WriteAt(dst, posDst, src[posSrc..posSrc + buff]), posSrc + buff, posDst + buff, buff, iters - 1);
    }
  }

  /** CopyEffect for a completed first block: the rest of the loop runs on the written destination. */
  lemma {:induction false} CopyEffectStep(src: seq<byte>, dst: seq<byte>, posSrc: nat, posDst: nat, buff: nat, iters: nat)
    requires buff > 0 && iters > 0 && posSrc + buff <= |src| && posDst + buff <= |dst|
    ensures var rest := Copy(src, WriteAt(dst, posDst, src[posSrc..posSrc + buff]), posSrc + buff, posDst + buff, buff, iters - 1);
      && rest.status == ExpectedStatus(|src|, |dst|, posSrc, posDst, buff, iters)
      && Overlay(src, dst, rest.dst, posSrc, posDst, WrittenBytes(|src|, |dst|, posSrc, posDst, buff, iters))
    decreases iters, 0
  {
    var written := WriteAt(dst, posDst, src[posSrc..posSrc + buff]);
    CopyEffect(src, written, posSrc + buff, posDst + buff, buff, iters - 1);
    FirstBlockDone(|src|, |written|, posSrc, posDst, buff, iters);
    OverlayStep(src, dst, Copy(src, written, posSrc + buff, posDst + buff, buff, iters - 1).dst, posSrc, posDst, buff,
                WrittenBytes(|src|, |written|, posSrc + buff, posDst + buff, buff, iters - 1));
  }

  /**
   * Success: the loop completes iff it has nothing to do or both ranges of
   * `iters` whole blocks fit, and then the destination range is the source
   * range and nothing else changed.
   */
  lemma CopyDone(src: seq<byte>, dst: seq<byte>, posSrc: nat, posDst: nat, buff: nat, iters: nat)
    requires buff > 0
    ensures Copy(src, dst, posSrc, posDst, buff, iters).status == Done <==>
            iters == 0 || (posSrc + iters * buff <= |src| && posDst + iters * buff <= |dst|)
    ensures Copy(src, dst, posSrc, posDst, buff, iters).status == Done && iters > 0 ==>
            Copy(src, dst, posSrc, posDst, buff, iters).dst ==
              dst[..posDst] + src[posSrc..posSrc + iters * buff] + dst[posDst + iters * buff..]
  {
    CopyEffect(src, dst, posSrc, posDst, buff, iters);
    if iters > 0 {
      FullBlocksMeaning(|src|, posSrc, buff, iters);
      FullBlocksMeaning(|dst|, posDst, buff, iters);
      var r := Copy(src, dst, posSrc, posDst, buff, iters);
      if r.status == Done {
        OverlayContents(src, dst, r.dst, posSrc, posDst, iters * buff);
      }
    }
  }

  /** An overlay of `n > 0` bytes, written out as slices. */
  lemma OverlayContents(src: seq<byte>, dst: seq<byte>, out: seq<byte>, posSrc: nat, posDst: nat, n: nat)
    requires n > 0 && Overlay(src, dst, out, posSrc, posDst, n)
    ensures out == dst[..posDst] + src[posSrc..posSrc + n] + dst[posDst + n..]
  {
    var expected := dst[..posDst] + src[posSrc..posSrc + n] + dst[posDst + n..];
    assert |expected| == |dst|;
    forall i | 0 <= i < |dst| ensures out[i] == expected[i] {
      if i < posDst {
      } else if i < posDst + n {
        assert expected[i] == src[posSrc + (i - posDst)];
      } else {
        assert expected[i] == dst[i];
      }
    }
  }

  /**
   * Failure: when the loop stops at iteration `k`, the `k` earlier blocks
   * fitted and are in place, the failing block's source range (short read)
   * or destination range (short write) does not fit, and besides the earlier
   * blocks only the accepted part of a short write has landed.
   */
  lemma CopyFailed(src: seq<byte>, dst: seq<byte>, posSrc: nat, posDst: nat, buff: nat, iters: nat)
    requires buff > 0
    requires Copy(src, dst, posSrc, posDst, buff, iters).status.Failed?
    ensures var k := Completed(|src|, |dst|, posSrc, posDst, buff, iters);
      var r := Copy(src, dst, posSrc, posDst, buff, iters);
      && k < iters
      && (k > 0 ==> posSrc + k * buff <= |src| && posDst + k * buff <= |dst|)
      && (r.status == Failed(ShortRead) ==>
            |src| < posSrc + (k + 1) * buff && Overlay(src, dst, r.dst, posSrc, posDst, k * buff))
      && (r.status == Failed(ShortWrite) ==>
            && posSrc + (k + 1) * buff <= |src| && |dst| < posDst + (k + 1) * buff
            && Accepted(|dst|, posDst + k * buff, buff) < buff
            && Overlay(src, dst, r.dst, posSrc, posDst, k * buff + Accepted(|dst|, posDst + k * buff, buff)))
  {
    CopyEffect(src, dst, posSrc, posDst, buff, iters);
    FailedOverlay(src, dst, posSrc, posDst, buff, iters, Copy(src, dst, posSrc, posDst, buff, iters));
  }

  /** CopyFailed for any result that has the status and bytes CopyEffect gives. */
  lemma FailedOverlay(src: seq<byte>, dst: seq<byte>, posSrc: nat, posDst: nat, buff: nat, iters: nat, r: CopyResult)
    requires buff > 0 && r.status.Failed?
    requires r.status == ExpectedStatus(|src|, |dst|, posSrc, posDst, buff, iters)
    requires Overlay(src, dst, r.dst, posSrc, posDst, WrittenBytes(|src|, |dst|, posSrc, posDst, buff, iters))
    ensures var k := Completed(|src|, |dst|, posSrc, posDst, buff, iters);
      && k < iters
      && (k > 0 ==> posSrc + k * buff <= |src| && posDst + k * buff <= |dst|)
      && (r.status == Failed(ShortRead) ==>
            |src| < posSrc + (k + 1) * buff && Overlay(src, dst, r.dst, posSrc, posDst, k * buff))
      && (r.status == Failed(ShortWrite) ==>
            && posSrc + (k + 1) * buff <= |src| && |dst| < posDst + (k + 1) * buff
            && Accepted(|dst|, posDst + k * buff, buff) < buff
            && Overlay(src, dst, r.dst, posSrc, posDst, k * buff + Accepted(|dst|, posDst + k * buff, buff)))
  {
    var k := Completed(|src|, |dst|, posSrc, posDst, buff, iters);
    FailedCounts(|src|, |dst|, posSrc, posDst, buff, iters, k, r.status);
  }

  /** The arithmetic of CopyFailed: where a failing loop stands when it stops. */
  lemma FailedCounts(srcLen: nat, dstLen: nat, posSrc: nat, posDst: nat, buff: nat, iters: nat, k: nat, st: Status)
    requires buff > 0
    requires k == Completed(srcLen, dstLen, posSrc, posDst, buff, iters)
    requires st == ExpectedStatus(srcLen, dstLen, posSrc, posDst, buff, iters) && st.Failed?
    ensures k < iters
    ensures k > 0 ==> posSrc + k * buff <= srcLen && posDst + k * buff <= dstLen
    ensures st == Failed(ShortRead) ==> srcLen < posSrc + (k + 1) * buff
    ensures st == Failed(ShortWrite) ==>
      posSrc + (k + 1) * buff <= srcLen && dstLen < posDst + (k + 1) * buff &&
      Accepted(dstLen, posDst + k * buff, buff) < buff
  {
    MulStep(k, buff);
    FullBlocksMeaning(srcLen, posSrc, buff, k + 1);
    FullBlocksMeaning(dstLen, posDst, buff, k + 1);
    if k > 0 {
      FullBlocksMeaning(srcLen, posSrc, buff, k);
      FullBlocksMeaning(dstLen, posDst, buff, k);
    }
  }

  /**
   * Re-running a worker over its own result changes nothing: the copy is a
   * pure overwrite, and where it stops depends only on the file sizes.
   */
  lemma CopyIdempotent(src: seq<byte>, dst: seq<byte>, posSrc: nat, posDst: nat, buff: nat, iters: nat)
    requires buff > 0
    ensures var r := Copy(src, dst, posSrc, posDst, buff, iters);
      Copy(src, r.dst, posSrc, posDst, buff, iters) == r
  {
    var r := Copy(src, dst, posSrc, posDst, buff, iters);
    CopyEffect(src, dst, posSrc, posDst, buff, iters);
    CopyEffect(src, r.dst, posSrc, posDst, buff, iters);
    assert Copy(src, r.dst, posSrc, posDst, buff, iters).dst == r.dst;
  }

  /** write(2) on the destination array: the accepted prefix of `data` lands at `pos`. */
  method Write(dst: array<byte>, pos: nat, data: seq<byte>) returns (n: nat)
    modifies dst
    ensures n == Accepted(dst.Length, pos, |data|)
    ensures dst[..] == WriteAt(old(dst[..]), pos, data)
  {
    n := Accepted(dst.Length, pos, |data|);
    forall k | pos <= k < pos + n {
      dst[k] := data[k - pos];
    }
    assert dst[..] == WriteAt(old(dst[..]), pos, data);
  }

  /**
   * `trans_data`'s copy loop: the two file positions advance by what each
   * call moved; a short read or write ends the worker with status 1.
   */
  method TransData(src: seq<byte>, dst: array<byte>, info: ThInfo) returns (status: Status)
    requires info.sizeBuff > 0
    modifies dst
    ensures CopyResult(status, dst[..]) == Run(src, old(dst[..]), info)
    ensures status == Done <==>
      (Iterations(info) == 0 || (info.skip + CopyLen(info) <= |src| && info.seek + CopyLen(info) <= dst.Length))
    ensures status == Done && Iterations(info) > 0 ==>
      dst[..] == old(dst[..])[..info.seek] + src[info.skip..info.skip + CopyLen(info)] +
                 old(dst[..])[info.seek + CopyLen(info)..]
  {
    RunDone(src, dst[..], info);
    var cnt := info.sizeData / info.sizeBuff;
    var posSrc: nat, posDst: nat := info.skip, info.seek;
    var ind := 0;
    while ind < cnt
      invariant ind <= cnt
      invariant Copy(src, dst[..], posSrc, posDst, info.sizeBuff, cnt - ind) == Run(src, old(dst[..]), info)
    {
      var buffer := ReadAt(src, posSrc, info.sizeBuff);
      if |buffer| != info.sizeBuff {
        return Failed(ShortRead);
      }
      posSrc := posSrc + |buffer|;
      var n := Write(dst, posDst, buffer);
      posDst := posDst + n;
      if n != info.sizeBuff {
        return Failed(ShortWrite);
      }
      ind := ind + 1;
    }
    status := Done;
  }

  /** CopyDone for one assignment, in the terms TransData states its result in. */
  lemma RunDone(src: seq<byte>, dst: seq<byte>, info: ThInfo)
    requires info.sizeBuff > 0
    ensures Run(src, dst, info).status == Done <==>
      (Iterations(info) == 0 || (info.skip + CopyLen(info) <= |src| && info.seek + CopyLen(info) <= |dst|))
    ensures Run(src, dst, info).status == Done && Iterations(info) > 0 ==>
      Run(src, dst, info).dst == dst[..info.seek] + src[info.skip..info.skip + CopyLen(info)] +
                                 dst[info.seek + CopyLen(info)..]
  {
    CopyDone(src, dst, info.skip, info.seek, info.sizeBuff, Iterations(info));
  }

  /** A worker that completes has laid its CopyLen source bytes over the destination, and nothing else. */
  lemma RunOverlay(src: seq<byte>, dst: seq<byte>, info: ThInfo)
    requires info.sizeBuff > 0 && Run(src, dst, info).status == Done
    ensures Overlay(src, dst, Run(src, dst, info).dst, info.skip, info.seek, CopyLen(info))
  {
    CopyEffect(src, dst, info.skip, info.seek, info.sizeBuff, Iterations(info));
  }
}

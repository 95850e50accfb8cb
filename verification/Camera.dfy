/** Camera frame memory: the layout tables of init_device, and the group copies of the mipi interrupt handlers. */
module Camera {
  import opened Hardware

  const NR_CAMS: nat := 12
  const NR_BUFS: nat := 4
  const INFO_BYTES: int := 0x20
  const FPGA_START: nat := 0x50_0000_0020

  datatype Image = Image(base: nat, info: nat, start: nat, length: nat, width: nat, height: nat, bytesPerPixel: nat)

  datatype Reg = Reg(addrStart: int, bufSize: int, bufNumber: int, frameInfoOffset: int, kpCurBuf: nat)

  /** The sizes the C code computes in int. */
  predicate Fits(length: nat) {
    48 * length + 4096 < 0x8000_0000
  }

  /** Where frame n of the memory starts; buffer j of camera i is frame 12 j + i. */
  function FrameAt(length: nat, n: nat): nat {
    n * length
  }

  function Placed(shape: Image, base: nat, n: nat): Image {
    var at := base + FrameAt(shape.length, n);
    shape.(base := at, info := at, start := at + INFO_BYTES)
  }

  predicate RegPlaced(reg: Reg, length: nat, i: nat) {
    && reg.addrStart == FPGA_START + FrameAt(length, i) && reg.bufSize == 12 * length
    && reg.bufNumber == NR_BUFS && reg.frameInfoOffset == -INFO_BYTES
  }

  lemma {:induction false} FrameOn(length: nat, n: nat, m: nat)
    ensures FrameAt(length, n + m) == FrameAt(length, n) + m * length
  {
  }

  /** A pread of `n` bytes from the FPGA. */
  function CopyIn(host: Mem, fpga: Mem, dest: int, src: int, n: nat): Mem {
    a => if dest <= a < dest + n then fpga(src + (a - dest)) else host(a)
  }

  const FPGA_BASE: int := 0x50_0000_0000

  predicate InGroup(group: nat, i: nat) {
    group <= i < group + 4
  }

  /** The buffer before the one the FPGA writes. */
  function Finished(vcWrIndex: nat): (r: nat)
    ensures r < 4 && (r + 1) % 4 == vcWrIndex % 4 && r != vcWrIndex % 4
  {
    (vcWrIndex + 3) % 4
  }

  /** The first `got` bytes of the group's images of buffer idx come from the FPGA, nothing else changes. */
  ghost predicate GroupCopied(length: nat, base: nat, was: Mem, host: Mem, fpga: Mem, group: nat, idx: nat, got: nat) {
    host == CopyIn(was, fpga, base + FrameAt(length, 12 * idx + group), FPGA_BASE + FrameAt(length, 12 * idx + group), got)
  }

  class Cams {
    const images: array2<Image>
    const regs: array<Reg>
    const index: array<nat>
    var base: nat
    var bufSize: int
    var width: nat
    var height: nat
    var bytesPerPixel: nat
    var vcEn: seq<bool>
    var vcWrIndex: seq<nat>
    var host: Mem

    predicate Shaped()
      reads this
    {
      && images.Length0 == NR_CAMS && images.Length1 == NR_BUFS && regs.Length == index.Length == NR_CAMS
      && (images as object) != regs && (images as object) != index && (regs as object) != index
      && |vcEn| == |vcWrIndex| == NR_CAMS && forall i :: 0 <= i < NR_CAMS ==> vcWrIndex[i] < 8
    }

    /** An image of the configured format; zero means the default. */
    function Shape(): Image
      reads this
    {
      var w, h := if width == 0 then 1920 else width, if height == 0 then 1080 else height;
      var b := if bytesPerPixel == 0 then 2 else bytesPerPixel;
      Image(0, 0, 0, INFO_BYTES + w * h * b, w, h, b)
    }

    predicate RowPlaced(shape: Image, from: nat, i: nat, n: nat)
      requires images.Length0 == NR_CAMS && images.Length1 == NR_BUFS && i < NR_CAMS && n <= NR_BUFS
      reads images
    {
      forall j :: 0 <= j < n ==> images[i, j] == Placed(shape, from, 12 * j + i)
    }

    predicate LaidOut()
      reads this, images, regs
    {
      && Shaped() && Fits(Shape().length) && bufSize == 12 * Shape().length
      && CamsPlaced(Shape(), NR_CAMS)
    }

    /** The inner loop of init_device. */
    method PlaceBuffers(i: nat, ghost shape: Image)
      requires images.Length0 == NR_CAMS && images.Length1 == NR_BUFS && i < NR_CAMS
      requires bufSize == 12 * shape.length && images[i, 0] == Placed(shape, base, i)
      modifies images
      ensures RowPlaced(shape, base, i, NR_BUFS)
      ensures forall k, j :: 0 <= k < NR_CAMS && 0 <= j < NR_BUFS && k != i ==> images[k, j] == old(images[k, j])
    {
      for j := 1 to NR_BUFS
        invariant RowPlaced(shape, base, i, j)
        invariant forall k, j :: 0 <= k < NR_CAMS && 0 <= j < NR_BUFS && k != i ==> images[k, j] == old(images[k, j])
      {
        FrameOn(shape.length, 12 * (j - 1) + i, 12);
        assert images[i, j - 1] == Placed(shape, base, 12 * (j - 1) + i) && images[i, 0] == Placed(shape, base, 12 * 0 + i);
        var at := images[i, j - 1].base + bufSize;
        images[i, j] := images[i, 0].(base := at, info := at, start := at + 0x20);
      }
    }

    predicate CamsPlaced(shape: Image, n: nat)
      requires images.Length0 == regs.Length == NR_CAMS && images.Length1 == NR_BUFS && n <= NR_CAMS
      reads this`base, images, regs
    {
      && (forall i, j :: 0 <= i < n && 0 <= j < NR_BUFS ==> images[i, j] == Placed(shape, base, 12 * j + i))
      && (forall i :: 0 <= i < n ==> RegPlaced(regs[i], shape.length, i))
    }

    /** The outer loop's body: camera i after the cameras before it. */
    method PlaceCamera(i: nat, ghost shape: Image)
      requires images.Length0 == regs.Length == NR_CAMS && images.Length1 == NR_BUFS && i < NR_CAMS
      requires (images as object) != regs
      requires bufSize == 12 * shape.length && CamsPlaced(shape, i) && (i == 0 ==> images[0, 0] == shape)
      modifies images, regs
      ensures CamsPlaced(shape, i + 1)
    {
      if i == 0 {
        images[0, 0] := images[0, 0].(base := base);
        regs[0] := Reg(0x50_0000_0020, bufSize, NR_BUFS, -0x20, regs[0].kpCurBuf);
      } else {
        assert RegPlaced(regs[i - 1], shape.length, i - 1) && images[0, 0] == Placed(shape, base, 12 * 0 + 0);
        FrameOn(shape.length, i - 1, 1);
        var before := images[i - 1, 0];
        images[i, 0] := images[0, 0].(base := before.base + before.length);
        regs[i] := regs[i - 1].(addrStart := regs[i - 1].addrStart + before.length);
      }
      images[i, 0] := images[i, 0].(info := images[i, 0].base, start := images[i, 0].base + 0x20);
      assert RegPlaced(regs[i], shape.length, i);
      PlaceBuffers(i, shape);
    }

    /** init_device; `mem` is what posix_memalign finds. */
    method InitDevice(isOpen: bool, isMapped: bool, mem: Option<nat>) returns (rc: int)
      requires Shaped() && Fits(Shape().length)
      modifies this`base, this`bufSize, this`vcEn, images, regs
      ensures rc == if isOpen && isMapped && mem.Some? then 0 else -1
      ensures rc == 0 ==> LaidOut() && base == mem.value && forall i :: 0 <= i < NR_CAMS ==> vcEn[i]
    {
      if !isOpen || !isMapped {
        return -1;
      }
      ghost var shape := Shape();
      images[0, 0] := Shape();
      bufSize := images[0, 0].length * NR_CAMS;
      if mem.None? {
        return -1;
      }
      base := mem.value;
      for i := 0 to NR_CAMS
        modifies images, regs
        invariant i == 0 ==> images[0, 0] == shape
        invariant CamsPlaced(shape, i)
      {
        PlaceCamera(i, shape);
      }
      vcEn := seq(NR_CAMS, _ => true);
      return 0;
    }

    /** chk_cam: the buffer the FPGA finished before the one it writes. */
    method ChkCam(camId: nat)
      requires Shaped() && camId < NR_CAMS
      modifies index
      ensures index[..] == old(index[..])[camId := Finished(vcWrIndex[camId])]
      ensures index[camId] < 4 && (index[camId] + 1) % 4 == vcWrIndex[camId] % 4
    {
      var idx := vcWrIndex[camId];
      index[camId] := (idx + NR_BUFS + (-1)) % NR_BUFS;
    }

    /** idx_of_cam. */
    function IdxOfCam(i: nat): nat
      requires Shaped() && i < NR_CAMS
      reads this, index
    {
      (index[i] + NR_BUFS - 1) % NR_BUFS
    }

    method ChkGroup(group: nat)
      requires Shaped() && group <= 8
      modifies index
      ensures forall i :: 0 <= i < NR_CAMS ==> index[i] == if InGroup(group, i) then Finished(vcWrIndex[i]) else old(index[i])
    {
      ChkCam(group);
      ChkCam(group + 1);
      ChkCam(group + 2);
      ChkCam(group + 3);
    }

    /** The loop over the group that keeps the current buffer of every enabled camera out of step with the first. */
    method KeepCurrent(group: nat)
      requires Shaped() && group <= 8 && forall i :: group <= i < group + 4 ==> index[i] < NR_BUFS
      modifies regs
      ensures forall i :: 0 <= i < NR_CAMS ==>
        regs[i] == if InGroup(group, i) && vcEn[i] && index[i] != index[group] then old(regs[i]).(kpCurBuf := 1) else old(regs[i])
    {
      for i := group to group + 4
        invariant forall k :: i <= k < NR_CAMS || 0 <= k < group ==> regs[k] == old(regs[k])
        invariant forall k :: group <= k < i ==>
          regs[k] == if vcEn[k] && index[k] != index[group] then old(regs[k]).(kpCurBuf := 1) else old(regs[k])
      {
        if !vcEn[i] {
          continue;
        }
        IndexDiffers(index[group], index[i]);
        if IdxOfCam(group) != IdxOfCam(i) {
          regs[i] := regs[i].(kpCurBuf := 1);
        }
      }
    }

    /** The copy of four images of the buffer the first camera of the group finished. */
    method CopyGroup(group: nat, fpga: Mem, got: nat)
      requires LaidOut() && group <= 8 && got <= 4 * Shape().length
      modifies this`host
      ensures GroupCopied(Shape().length, base, old(host), host, fpga, group, index[group], got)
    {
      var idx, length := index[group], images[0, 0].length;
      var off := idx * bufSize + length * group;
      FrameOff(length, idx, group);
      host := CopyIn(host, fpga, base + off, regs[0].addrStart - 0x20 + off, got);
    }

    /** mipi0_isr, mipi1_isr and mipi2_isr up to the callbacks, with base camera 0, 4 and 8. The read of the FPGA
        delivers `got` bytes. */
    method MipiIsr(group: nat, fpga: Mem, got: nat) returns (copied: bool)
      requires LaidOut() && group in {0, 4, 8} && got <= 4 * Shape().length
      modifies this`host, index, regs
      ensures LaidOut() && copied == (vcEn[group] || vcEn[group + 1] || vcEn[group + 2] || vcEn[group + 3])
      ensures !copied ==> host == old(host) && index[..] == old(index[..]) && regs[..] == old(regs[..])
      ensures copied ==> forall i :: 0 <= i < NR_CAMS ==>
        && index[i] == (if InGroup(group, i) then Finished(vcWrIndex[i]) else old(index[i]))
        && var keep := InGroup(group, i) && vcEn[i] && index[i] != index[group];
          regs[i] == if keep then old(regs[i]).(kpCurBuf := 1) else old(regs[i])
      ensures copied ==> forall i :: group <= i < group + 4 ==>
        index[i] < NR_BUFS && index[i] != vcWrIndex[i] % 4 && (index[i] + 1) % 4 == vcWrIndex[i] % 4
      ensures copied ==> GroupCopied(Shape().length, base, old(host), host, fpga, group, index[group], got)
    {
      copied := vcEn[group] || vcEn[group + 1] || vcEn[group + 2] || vcEn[group + 3];
      if !copied {
        return;
      }
      ChkGroup(group);
      KeepCurrent(group);
      CopyGroup(group, fpga, got);
    }
  }

  /** Whether the frame that is copied of camera i is being written by the FPGA: never for the first camera of the group,
      whose finished buffer is the one copied of all four; for another one exactly when it is one buffer behind. */
  lemma {:induction false} CopyTearsIff(cams: Cams, group: nat, i: nat)
    requires cams.Shaped() && group in {0, 4, 8} && InGroup(group, i)
    requires (cams.index[group] + 1) % 4 == cams.vcWrIndex[group] % 4 && cams.index[group] < 4
    ensures cams.index[group] == cams.vcWrIndex[i] % 4 <==> (cams.vcWrIndex[i] + 1) % 4 == cams.vcWrIndex[group] % 4
    ensures cams.index[group] != cams.vcWrIndex[group] % 4
  {
  }

  /** The size of an image: 32 bytes of frame information and its pixels; 1920 by 1080 of 2 bytes unless set. */
  lemma {:induction false} ShapeSizes(cams: Cams)
    ensures var s := cams.Shape();
      && s.length == 32 + s.width * s.height * s.bytesPerPixel
      && s.width == (if cams.width == 0 then 1920 else cams.width)
      && s.height == (if cams.height == 0 then 1080 else cams.height)
      && s.bytesPerPixel == (if cams.bytesPerPixel == 0 then 2 else cams.bytesPerPixel)
  {
  }

  lemma {:induction false} IndexDiffers(a: nat, b: nat)
    requires a < NR_BUFS && b < NR_BUFS
    ensures (a + NR_BUFS - 1) % NR_BUFS != (b + NR_BUFS - 1) % NR_BUFS <==> a != b
  {
    assert (a + 3) % 4 == if a == 0 then 3 else a - 1;
    assert (b + 3) % 4 == if b == 0 then 3 else b - 1;
  }

  lemma {:induction false} FrameOff(length: nat, idx: nat, group: nat)
    ensures idx * (12 * length) + length * group == FrameAt(length, 12 * idx + group)
  {
    assert idx * (12 * length) == 12 * idx * length;
  }

  // ---- What the layout and the copies mean ----

  /** Address a lies in image (i, j). */
  predicate Holds(length: nat, base: nat, i: nat, j: nat, a: int) {
    base + FrameAt(length, 12 * j + i) <= a < base + FrameAt(length, 12 * j + i) + length
  }

  lemma {:induction false} FramesOrdered(length: nat, n: int, m: int)
    requires n >= m
    ensures n * length - m * length == (n - m) * length >= 0
    ensures n > m ==> (n - m) * length >= length
  {
    var d: nat := n - m;
    assert (m + d) * length == m * length + d * length;
    if d > 0 {
      var e: nat := d - 1;
      assert (e + 1) * length == e * length + length;
    }
  }

  /** Byte p of frame n lies in the four frames from m on exactly when n is one of them. */
  lemma {:induction false} InFrames(length: nat, n: nat, m: nat, p: nat)
    requires p < length
    ensures FrameAt(length, m) <= FrameAt(length, n) + p < FrameAt(length, m) + 4 * length <==> m <= n < m + 4
  {
    FrameOn(length, m, 4);
    if n < m {
      FramesOrdered(length, m, n);
    } else if n < m + 4 {
      FramesOrdered(length, n, m);
      FramesOrdered(length, m + 4, n);
    } else {
      FramesOrdered(length, n, m + 4);
    }
  }

  lemma {:induction false} SameFrame(length: nat, n: nat, m: nat, q: nat)
    requires FrameAt(length, n) <= q < FrameAt(length, n) + length && FrameAt(length, m) <= q < FrameAt(length, m) + length
    ensures n == m
  {
    if n > m {
      FramesOrdered(length, n, m);
    } else if n < m {
      FramesOrdered(length, m, n);
    }
  }

  /** The 48 images tile the host buffer: every address of it lies in exactly one image, and no image leaves it. */
  lemma {:induction false} ImagesTile(length: nat, base: nat, a: int)
    requires length > 0
    ensures base <= a < base + 48 * length <==>
      exists i: nat, j: nat :: i < NR_CAMS && j < NR_BUFS && Holds(length, base, i, j, a)
    ensures forall i: nat, j: nat, k: nat, l: nat :: i < NR_CAMS && k < NR_CAMS ==>
      Holds(length, base, i, j, a) && Holds(length, base, k, l, a) ==> i == k && j == l
  {
    if base <= a < base + 48 * length {
      var n := (a - base) / length;
      assert n < 48 by { assert n >= 48 ==> n * length >= 48 * length; }
      var i, j := n % 12, n / 12;
      assert 12 * j + i == n && Holds(length, base, i, j, a);
    }
    forall i: nat, j: nat | i < NR_CAMS && j < NR_BUFS && Holds(length, base, i, j, a)
      ensures base <= a < base + 48 * length
    {
      FramesOrdered(length, 47, 12 * j + i);
    }
    forall i: nat, j: nat, k: nat, l: nat |
      i < NR_CAMS && k < NR_CAMS && Holds(length, base, i, j, a) && Holds(length, base, k, l, a)
      ensures i == k && j == l
    {
      SameFrame(length, 12 * j + i, 12 * l + k, a - base);
    }
  }

  /** The address of frame j of camera i in FPGA memory: its buffers are bufSize apart, the frame info goes before the image. */
  function FpgaFrame(reg: Reg, j: nat): int {
    reg.addrStart + reg.frameInfoOffset + j * reg.bufSize
  }

  /** Layout isomorphism: an image is as far from the host base as the camera's FPGA frame is from FPGA_BASE. */
  lemma {:induction false} LayoutsAgree(cams: Cams, i: nat, j: nat)
    requires cams.LaidOut() && i < NR_CAMS && j < NR_BUFS
    ensures cams.images[i, j].base - cams.base == FpgaFrame(cams.regs[i], j) - FPGA_BASE
    ensures cams.images[i, j].info == cams.images[i, j].base && cams.images[i, j].start == cams.images[i, j].base + 32
  {
    var length := cams.Shape().length;
    FrameOn(length, i, 12 * j);
    assert j * (12 * length) == 12 * j * length;
  }

  /** A complete group copy makes the group's four images of buffer idx equal to the FPGA's, and leaves every byte of the
      other 44 images as it was. */
  lemma {:induction false} GroupIsExact(length: nat, base: nat, was: Mem, host: Mem, fpga: Mem,
                                        group: nat, idx: nat, i: nat, j: nat, p: nat)
    requires group in {0, 4, 8} && i < NR_CAMS && p < length
    requires GroupCopied(length, base, was, host, fpga, group, idx, 4 * length)
    ensures var at := FrameAt(length, 12 * j + i) + p;
      host(base + at) == if InGroup(group, i) && j == idx then fpga(FPGA_BASE + at) else was(base + at)
  {
    InFrames(length, 12 * j + i, 12 * idx + group, p);
  }

  /** For the interrupt handlers: after a complete read image (i, j) holds the FPGA's frame (i, j) if its camera is of the
      group and j is the buffer chosen by the first camera of the group; otherwise it is what it was. */
  lemma {:induction false} IsrIsExact(cams: Cams, was: Mem, fpga: Mem, group: nat, i: nat, j: nat, p: nat)
    requires cams.LaidOut() && group in {0, 4, 8} && i < NR_CAMS && j < NR_BUFS && p < cams.Shape().length
    requires var length := cams.Shape().length;
      GroupCopied(length, cams.base, was, cams.host, fpga, group, cams.index[group], 4 * length)
    ensures var a := cams.images[i, j].base + p;
      cams.host(a) == if InGroup(group, i) && j == cams.index[group] then fpga(FpgaFrame(cams.regs[i], j) + p) else was(a)
  {
    LayoutsAgree(cams, i, j);
    GroupIsExact(cams.Shape().length, cams.base, was, cams.host, fpga, group, cams.index[group], i, j, p);
  }
}

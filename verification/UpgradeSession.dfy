/**
 The upgrade session itself: a context updated packet by packet, driving the flash through the
 partition layer.  Its ghost state `spec` is that of the reference model.
 */
module UpgradeSession {
  import opened Bytes
  import opened NorFlash
  import opened Descriptor
  import opened SlotSelection
  import opened UpgradeMem
  import opened UpgradeSpec
  import opened PacketBoundaries
  import opened SessionInvariant
  import opened ImageInvariant
  import opened Completion
  import opened ChunkOperations
  import opened ConfigPieces

  datatype FwState =
    | NotStart
    | GetTrialInfo
    | EraseFwd
    | EraseSecondFs
    | PrepareFs
    | PrepareConnect
    | Connect
    | ReceiveData
    | ProcessConfigFile
    | ProcessImage
    | DuplicateFs
    | Finish

  class Session {
    const mem: Mem
    const sha: seq<byte> -> seq<byte>
    const sbl: Option<Extent>

    /** Whether a session context exists. */
    var active: bool
    var state: FwState
    var isFirst: bool
    var bufLen: nat
    var bufOffset: nat
    var imageIndex: nat
    var imageWrtCount: nat
    var imageWrtLength: nat
    var totalImages: nat
    var hiddenImagesCount: nat
    var trialMemStart: nat
    var trialMemSize: nat
    var trialFwdIdx: nat
    var trialSblStart: nat
    var partitionHdl: int
    /** The bytes fed to the digest since it was last reset. */
    var digest: seq<byte>
    /** The part of the configuration collected so far. */
    var configBuf: seq<byte>
    var imageHdr: seq<Header>

    ghost var spec: State
    ghost var geo: Geometry

    /** No session yet. */
    constructor (mem: Mem, sha: seq<byte> -> seq<byte>, sbl: Option<Extent>)
      ensures this.mem == mem && this.sha == sha && this.sbl == sbl && !active
    {
      this.mem, this.sha, this.sbl := mem, sha, sbl;
      active, state, isFirst := false, NotStart, true;
      bufLen, bufOffset := 0, 0;
      imageIndex, imageWrtCount, imageWrtLength, totalImages, hiddenImagesCount := 0, 0, 0, 0, 0;
      trialMemStart, trialMemSize, trialFwdIdx, trialSblStart := 0, 0, 0, 0;
      partitionHdl := -1;
      digest, configBuf, imageHdr := [], [], [];
    }

    /** Whether the session holds a partition handle. */
    ghost function Held(): nat
      reads this`partitionHdl
    {
      if partitionHdl == -1 then 0 else 1
    }

    /** The handles that are free, or that the session will give back. */
    ghost function Spare(): nat
      reads this`partitionHdl, mem.handles
    {
      FreeCount(mem.handles[..]) + Held()
    }

    /** A finished session does not give the handle on the SBL entry back. */
    ghost function Lost(rc: Code): nat
      reads this`spec, mem.flash`cells
    {
      if rc == Ok && spec.phase == Finished && Find(mem.flash.cells, spec.trial, SBL_IMG_ID).Some? then 1 else 0
    }

    /** A session that has failed keeps a handle only after a flash fault, or over an empty scratch partition. */
    ghost predicate LetGo()
      reads this`partitionHdl, this`geo, mem.flash
    {
      mem.flash.faulted || partitionHdl == -1 || EmptyScratch(Environment(), Origin())
    }

    ghost function Environment(): Env {
      Env(sha, mem.mode, mem.active, sbl)
    }

    /** The flash is the one of the reference model, and guarded for this session. */
    ghost predicate Guarded()
      reads this`spec, this`geo, mem.flash
    {
      GuardedAt(spec.flash, spec.trial)
    }

    ghost predicate GuardedAt(f: seq<byte>, trial: nat)
      reads this`geo, mem.flash
    {
      mem.Valid() && mem.flash.cells == f && SessionGuard(trial)
    }

    /** The session's own areas may change; nothing counts as committed before the very end. */
    ghost predicate SessionGuard(trial: nat)
      reads this`geo, mem.flash`guard
    {
      && mem.flash.guard.Some? && GeometryKnown(Environment(), geo)
      && var g := mem.flash.guard.value;
         && g.base == geo.base && g.trial == geo.trial == trial && g.armed
         && g.fs2 == geo.fs2 && g.ramdump == geo.ramdump && g.region == geo.region
         && (forall x :: !g.commit(x))
    }

    /** The context agrees with the reference model while images are received. */
    ghost predicate Tracking()
      reads this`active, this`isFirst, this`trialFwdIdx, this`trialMemStart, this`hiddenImagesCount, this`imageHdr, this`totalImages, this`imageIndex,
        this`trialSblStart, this`spec
    {
      && active && !isFirst
      && trialFwdIdx == spec.trial && trialMemStart == spec.cursor && hiddenImagesCount == spec.hidden
      && imageHdr == spec.hdrs && totalImages == |spec.hdrs| && imageIndex == spec.index
      && (sbl.Some? ==> trialSblStart == sbl.value.start)
    }

    /** The partition handle is taken exactly while an image is open, and another handle is free. */
    ghost predicate Holding()
      reads this`imageWrtLength, this`imageWrtCount, this`partitionHdl, this`digest, this`spec, mem.handles
      requires mem.handles.Length == MAX_HANDLES
    {
      match spec.open
      case None => imageWrtLength == 0 && partitionHdl == -1 && FreeCount(mem.handles[..]) >= 2
      case Some(e) =>
        && mem.HandleValid(partitionHdl) && mem.handles[partitionHdl].image == e
        && FreeCount(mem.handles[..]) >= 1
        && spec.index < |spec.hdrs| && imageWrtLength == spec.hdrs[spec.index].length
        && imageWrtCount == |spec.fed| && digest == spec.fed
    }

    ghost predicate Receiving()
      reads this`active, this`isFirst, this`trialFwdIdx, this`trialMemStart, this`hiddenImagesCount, this`imageHdr, this`totalImages, this`imageIndex,
        this`trialSblStart, this`spec
      reads this`imageWrtLength, this`imageWrtCount, this`partitionHdl, this`digest, this`geo, mem.flash, mem.handles
    {
      && Guarded() && mem.handles.Length == MAX_HANDLES && Tracking() && Holding()
      && ReceiveInv(Environment(), geo, spec) && !mem.flash.faulted
    }

    /** Data operations in the session's own areas are allowed by the guard. */
    lemma MayTouchData(a: nat, n: nat)
      requires Guarded() && DescriptorInv(spec) && MAX_FWD * BLOCK_SIZE <= a
      requires forall i :: a <= i < a + n ==> geo.Writable(i)
      ensures mem.flash.MayTouch(a, n) && mem.flash.MayErase(a, n)
    {
      hide GeometryKnown, HoldsTable;
      var g := mem.flash.guard.value;
      assert Cell(spec.flash, InfoAddr(spec.trial, Status)) == 0xFF;
      assert forall i :: a <= i < a + n ==> geo.Writable(i) ==> g.Writable(i);
    }

    /** So are the operations on the trial descriptor, apart from its status byte. */
    lemma MayTouchDescriptor(a: nat, n: nat)
      requires Guarded() && DescriptorInv(spec)
      requires spec.trial * BLOCK_SIZE <= a && a + n <= spec.trial * BLOCK_SIZE + BLOCK_SIZE
      requires !(a <= InfoAddr(spec.trial, Status) < a + n)
      ensures mem.flash.MayTouch(a, n)
    {
      hide GeometryKnown, HoldsTable;
      var g := mem.flash.guard.value;
      assert Cell(spec.flash, InfoAddr(spec.trial, Status)) == 0xFF;
    }

    // Receiving images

    /** Where the next image goes. */
    method PlaceImage(h: Header) returns (rc: Code, e: Entry)
      requires Guarded() && mem.handles.Length == MAX_HANDLES && FreeCount(mem.handles[..]) >= 1
      requires trialMemStart == spec.cursor && (sbl.Some? ==> trialSblStart == sbl.value.start)
      requires h.id == SBL_IMG_ID ==> sbl.Some?
      modifies mem.handles
      ensures FreeCount(mem.handles[..]) == old(FreeCount(mem.handles[..]))
      ensures rc == PlaceError(Environment(), spec, h)
      ensures rc == Ok ==> e == Place(Environment(), spec, h)
    {
      hide EntryAt, FindFrom;
      e := Entry(h.id, 0, h.disk, h.version);
      if h.id == FS1_IMG_ID {
        var hdl;
        rc, hdl := mem.FindPartition(mem.active, FS2_IMG_ID);
        if rc != Ok {
          rc := FlashImageNotFound;
          return;
        }
        var start, size := mem.handles[hdl].image.start, mem.handles[hdl].image.size;
        mem.Release(hdl);
        SamePoolSameCount(old(mem.handles[..]), mem.handles[..]);
        if h.disk > size {
          rc := IncorrectImageLength;
          return;
        }
        e := Entry(FS1_IMG_ID, start, size, h.version);
      } else if h.id == SBL_IMG_ID {
        e := Entry(SBL_IMG_ID, U32(trialSblStart), h.disk, h.version);
      } else {
        e := Entry(h.id, U32(trialMemStart), h.disk, h.version);
      }
      rc := Ok;
    }

    /** Creates the entry and the partition of the next image. */
    method CreateImage(e: Entry) returns (rc: Code)
      requires Guarded() && DescriptorInv(spec) && mem.handles.Length == MAX_HANDLES && FreeCount(mem.handles[..]) >= 2
      requires e.id != IMAGE_UNUSED && trialFwdIdx == spec.trial && !mem.flash.faulted && partitionHdl == -1
      modifies this`partitionHdl, this`spec, mem.handles, mem.flash`cells, mem.flash`faulted, mem.flash`history
      ensures Guarded() && Spare() == old(Spare()) && (rc != Ok ==> partitionHdl == -1)
      ensures rc == Ok ==>
                && CanCreate(old(spec).flash, old(spec).trial, e) && spec == AddEntry(old(spec), e)
                && |spec.flash| == |old(spec).flash|
                && DescriptorInv(spec) && !mem.flash.faulted
                && mem.HandleValid(partitionHdl) && mem.handles[partitionHdl].image == e
                && FreeCount(mem.handles[..]) >= 1
      ensures rc != Ok ==>
                && rc == FlashCreatePartition && spec.phase == Failed(rc)
                && (mem.flash.faulted || (!CanCreate(old(spec).flash, old(spec).trial, e) && spec == AddEntry(old(spec), e)))
    {
      hide GeometryKnown, CanCreate, Created, EntryBytes, FindIndex, HoldsTable, FreeCount, OnlyClears;
      AddEntryKeepsDescriptor(spec, e);
      if CanCreate(spec.flash, spec.trial, e) {
        MayTouchDescriptor(EntryAddr(spec.trial, |spec.table|), 16);
      }
      var hdl;
      rc, hdl := mem.CreatePartition(trialFwdIdx, e);
      if rc != Ok {
        rc := FlashCreatePartition;
        spec := spec.WithFlash(mem.flash.cells).Fail(rc);
        return;
      }
      partitionHdl := hdl;
      spec := AddEntry(spec, e);
      FreeCountUpdate(old(mem.handles[..]), hdl, mem.handles[hdl]);
    }

    /** Erases the first block of the partition just created. */
    method EraseFirst(e: Entry) returns (rc: Code)
      requires Guarded() && DescriptorInv(spec) && mem.handles.Length == MAX_HANDLES && !mem.flash.faulted
      requires mem.HandleValid(partitionHdl) && mem.handles[partitionHdl].image == e && OwnPlace(geo, |spec.flash|, e)
      modifies this`spec, mem.flash`cells, mem.flash`faulted, mem.flash`history
      ensures Guarded()
      ensures rc == Ok ==> !mem.flash.faulted && spec == EraseFirstBlock(old(spec), e)
      ensures rc != Ok ==> rc == FlashErasePartition && mem.flash.faulted && spec.phase == Failed(rc)
    {
      hide HoldsTable, CanErase, Erasable, Erased, SessionGuard, Flash.Valid, Flash.MayTouch, Flash.MayErase;
      rc := Ok;
      if e.id != FS1_IMG_ID {
        if e.id != SBL_IMG_ID {
          MayTouchData(e.start, BLOCK_SIZE);
          OwnPlaceErasable(spec.flash, e);
        }
        rc := mem.ErasePartition(partitionHdl, 0, BLOCK_SIZE);
        if rc != Ok {
          rc := FlashErasePartition;
          spec := spec.WithFlash(mem.flash.cells).Fail(rc);
          return;
        }
        spec := EraseFirstBlock(spec, e);
      }
    }

    /** The new partition is that of the open image, which is complete at once if it is empty. */
    method EnterImage(ghost e: Entry, ghost s0: State)
      requires Guarded() && mem.handles.Length == MAX_HANDLES && Tracking() && !mem.flash.faulted
      requires mem.HandleValid(partitionHdl) && mem.handles[partitionHdl].image == e && FreeCount(mem.handles[..]) >= 1
      requires spec == s0.(flash := spec.flash, table := s0.table + [e]) && s0.index < |s0.hdrs|
      requires imageWrtCount == 0 && imageWrtLength == s0.hdrs[s0.index].length
      requires ReceiveInv(Environment(), geo, Opened(s0, e, spec.flash))
      modifies this, mem.handles
      ensures geo == old(geo) && bufLen == old(bufLen) && bufOffset == old(bufOffset) && Spare() == old(Spare())
      ensures Guarded() && Receiving() && spec.hdrs == s0.hdrs
      ensures
        var t := Opened(s0, e, old(spec).flash);
        if s0.hdrs[s0.index].length == 0
        then t.Receiving() && spec == Advanced(t) && spec.open == None && spec.index == s0.index + 1
        else spec == t == Due(Environment(), spec) && spec.open.Some? && spec.fed == [] && imageWrtLength > 0 && spec.index == s0.index
      ensures state == if spec.index == |spec.hdrs| then DuplicateFs else old(state)
    {
      hide ReceiveInv, FreeCount, GuardedAt, Advanced, CopyFileSystem;
      digest := [];
      spec := Opened(s0, e, spec.flash);
      IndexOfReceiving(Environment(), geo, spec);
      if imageWrtLength == 0 {
        AdvancedFields(spec);
        AdvanceImage();
      }
    }

    /** Creates the entry and the partition of the next image, its first block erased. */
    method CreateErased(e: Entry) returns (rc: Code)
      requires Guarded() && DescriptorInv(spec) && mem.handles.Length == MAX_HANDLES && FreeCount(mem.handles[..]) >= 2
      requires e.id != IMAGE_UNUSED && trialFwdIdx == spec.trial && !mem.flash.faulted && partitionHdl == -1 && OwnPlace(geo, |spec.flash|, e)
      modifies this`partitionHdl, this`spec, mem.handles, mem.flash`cells, mem.flash`faulted, mem.flash`history
      ensures Guarded() && Spare() == old(Spare())
      ensures rc == Ok ==>
                && CanCreate(old(spec).flash, old(spec).trial, e) && spec == EraseFirstBlock(AddEntry(old(spec), e), e)
                && !mem.flash.faulted && mem.HandleValid(partitionHdl) && mem.handles[partitionHdl].image == e
                && FreeCount(mem.handles[..]) >= 1
      ensures rc != Ok ==>
                && spec.phase == Failed(rc)
                && (mem.flash.faulted
                    || (partitionHdl == -1 && !CanCreate(old(spec).flash, old(spec).trial, e) && spec == AddEntry(old(spec), e)))
    {
      hide GuardedAt, CanCreate, AddEntry, EraseFirstBlock, OwnPlace, DescriptorInv, FreeCount;
      rc := CreateImage(e);
      if rc == Ok {
        rc := EraseFirst(e);
      }
    }

    /** Gives the session's partition handle back. */
    method ReleasePartition()
      requires mem.handles.Length == MAX_HANDLES && mem.HandleValid(partitionHdl)
      modifies this`partitionHdl, mem.handles
      ensures partitionHdl == -1 && FreeCount(mem.handles[..]) == old(FreeCount(mem.handles[..])) + 1 && Spare() == old(Spare())
    {
      FreeCountUpdate(mem.handles[..], partitionHdl, Freed(mem.handles[partitionHdl]));
      mem.Release(partitionHdl);
      partitionHdl := -1;
    }

    /** The open image is complete: its handle is given back and the next image is due. */
    method AdvanceImage()
      requires Receiving() && spec.open.Some? && |spec.fed| == spec.hdrs[spec.index].length
      requires spec.fed != [] ==> sha(spec.fed) == spec.hdrs[spec.index].hash
      modifies this, mem.handles
      ensures geo == old(geo) && Spare() == old(Spare())
      ensures Receiving() && spec == Advanced(old(spec))
      ensures state == if spec.index == |spec.hdrs| then DuplicateFs else old(state)
      ensures bufLen == old(bufLen) && bufOffset == old(bufOffset)
    {
      hide ReceiveInv, FreeCount, GuardedAt, Advanced;
      IndexOfReceiving(Environment(), geo, spec);
      AdvanceKeeps(Environment(), geo, spec);
      AdvancedFields(spec);
      ReleasePartition();
      AdvanceContext();
    }

    /** The bookkeeping of `AdvanceImage`. */
    method AdvanceContext()
      requires Tracking() && spec.Receiving()
      modifies this`trialMemStart, this`imageIndex, this`imageWrtLength, this`state, this`spec
      ensures Tracking() && spec == Advanced(old(spec)) && imageWrtLength == 0
      ensures state == if spec.index == |spec.hdrs| then DuplicateFs else old(state)
    {
      var h := imageHdr[imageIndex];
      if h.id != FS1_IMG_ID && h.id != SBL_IMG_ID {
        trialMemStart := U32(trialMemStart + h.disk);
      }
      imageIndex := imageIndex + 1;
      imageWrtLength := 0;
      if imageIndex >= totalImages {
        state := DuplicateFs;
      }
      spec := Advanced(spec);
    }

    /** Creates the partition of the next image; an empty image is complete at once. */
    method OpenNextImage() returns (rc: Code)
      requires Receiving() && spec.open == None && spec.index < |spec.hdrs|
      modifies this, mem.handles, mem.flash`cells, mem.flash`faulted, mem.flash`history
      ensures geo == old(geo) && Spare() == old(Spare()) && (rc != Ok ==> mem.flash.faulted || partitionHdl == -1)
      ensures Guarded() && bufLen == old(bufLen) && bufOffset == old(bufOffset)
      ensures rc == Ok ==>
                && Receiving() && OpenImage(Environment(), old(spec)) == Due(Environment(), spec)
                && state == (if spec.index == |spec.hdrs| then DuplicateFs else old(state))
                && spec.hdrs == old(spec).hdrs
                && (spec.open.Some? ==> spec.fed == [] && imageWrtLength > 0 && spec.index == old(spec).index)
                && (spec.open == None ==> spec.index == old(spec).index + 1)
      ensures rc != Ok ==> spec.phase == Failed(rc) && (mem.flash.faulted || spec == OpenImage(Environment(), old(spec)))
    {
      hide ReceiveInv, FreeCount, Place, PlaceError, CanCreate, AddEntry, EraseFirstBlock, OwnPlace, DescriptorInv, Advanced,
        OpenImage, CopyFileSystem, GuardedAt;
      OpenFacts(Environment(), geo, spec);
      var h := imageHdr[imageIndex];
      imageWrtCount := 0;
      imageWrtLength := h.length;
      var e;
      rc, e := PlaceImage(h);
      if rc != Ok {
        spec := spec.Fail(rc);
      } else {
        rc := OpenAt(h, e);
      }
    }

    /** The rest of `OpenNextImage`, once the place of the image is known. */
    method OpenAt(h: Header, e: Entry) returns (rc: Code)
      requires Guarded() && mem.handles.Length == MAX_HANDLES && Tracking() && FreeCount(mem.handles[..]) >= 2
      requires !mem.flash.faulted && imageWrtCount == 0 && partitionHdl == -1
      requires ReceiveInv(Environment(), geo, spec) && spec.open == None && spec.Receiving() && h == spec.hdrs[spec.index]
      requires PlaceError(Environment(), spec, h) == Ok && e == Place(Environment(), spec, h) && imageWrtLength == h.length
      modifies this, mem.handles, mem.flash`cells, mem.flash`faulted, mem.flash`history
      ensures geo == old(geo) && Spare() == old(Spare()) && (rc != Ok ==> mem.flash.faulted || partitionHdl == -1)
      ensures Guarded() && bufLen == old(bufLen) && bufOffset == old(bufOffset)
      ensures rc == Ok ==>
                && Receiving() && OpenImage(Environment(), old(spec)) == Due(Environment(), spec)
                && state == (if spec.index == |spec.hdrs| then DuplicateFs else old(state))
                && spec.hdrs == old(spec).hdrs
                && (spec.open.Some? ==> spec.fed == [] && imageWrtLength > 0 && spec.index == old(spec).index)
                && (spec.open == None ==> spec.index == old(spec).index + 1)
      ensures rc != Ok ==> spec.phase == Failed(rc) && (mem.flash.faulted || spec == OpenImage(Environment(), old(spec)))
    {
      hide ReceiveInv, FreeCount, Place, PlaceError, CanCreate, AddEntry, EraseFirstBlock, OwnPlace, DescriptorInv, Advanced,
        OpenImage, Due, GuardedAt, Opened, Receiving, Spare;
      ghost var s0 := spec;
      OpenFacts(Environment(), geo, s0);
      rc := CreateErased(e);
      if rc != Ok {
        return;
      }
      OpenKeeps(Environment(), geo, s0);
      EnterImage(e, s0);
    }

    // Programming image bytes

    /** Handle `h` is for partition `e`, which is the session's own. */
    ghost predicate HandleOn(h: int, e: Entry)
      reads this`spec, this`geo, mem.handles
    {
      && mem.handles.Length == MAX_HANDLES && mem.HandleValid(h) && mem.handles[h].image == e
      && OwnPartition(geo, |spec.flash|, e)
    }

    /** Erases whole blocks of one of the session's partitions. */
    method EraseBlocks(h: int, offset: nat, n: nat, ghost e: Entry) returns (rc: Code)
      requires Guarded() && DescriptorInv(spec) && HandleOn(h, e) && !mem.flash.faulted
      requires e.id != SBL_IMG_ID ==> offset % BLOCK_SIZE == 0 && n % BLOCK_SIZE == 0 && offset + n < TWO_TO_THE_32
      modifies this`spec, mem.flash`cells, mem.flash`faulted, mem.flash`history
      ensures Guarded()
      ensures rc == Ok ==>
                && !mem.flash.faulted && DescriptorInv(spec) && HandleOn(h, e) && (e.id != SBL_IMG_ID ==> 0 < n && offset + n <= e.size)
                && spec == old(spec).WithFlash(if e.id == SBL_IMG_ID then old(spec).flash else Erased(old(spec).flash, e.start + offset, n))
      ensures rc != Ok ==>
                && rc == FlashErasePartition && spec.phase == Failed(rc) && e.id != SBL_IMG_ID
                && (mem.flash.faulted || ((n == 0 || offset + n > e.size) && spec == old(spec).Fail(rc)))
    {
      hide HoldsTable, OwnPartition, Erased, SessionGuard, Flash.Valid, Flash.MayTouch, Flash.MayErase, Erasable;
      if e.id != SBL_IMG_ID {
        OwnBlocks(geo, |spec.flash|, e, offset, n);
        if 0 < n && offset + n <= e.size {
          MayTouchData(e.start + offset, n);
        }
      }
      rc := mem.ErasePartition(h, offset, n);
      if rc != Ok {
        rc := FlashErasePartition;
        spec := spec.WithFlash(mem.flash.cells).Fail(rc);
        return;
      }
      if e.id != SBL_IMG_ID {
        DataKeepsDescriptor(spec, mem.flash.cells, e.start + offset, n);
      }
      spec := spec.WithFlash(mem.flash.cells);
    }

    /** Programs bytes of one of the session's partitions. */
    method WriteBytes(h: int, offset: nat, data: seq<byte>, ghost e: Entry) returns (rc: Code)
      requires Guarded() && DescriptorInv(spec) && HandleOn(h, e) && !mem.flash.faulted
      requires data != [] && offset + |data| <= e.size
      requires e.id != SBL_IMG_ID ==> OnlyClears(spec.flash, e.start + offset, data)
      modifies this`spec, mem.flash`cells, mem.flash`faulted, mem.flash`history
      ensures Guarded()
      ensures rc == Ok ==>
                && !mem.flash.faulted && DescriptorInv(spec) && HandleOn(h, e)
                && spec == old(spec).WithFlash(
                     if e.id == SBL_IMG_ID then old(spec).flash else Programmed(old(spec).flash, e.start + offset, data))
      ensures rc != Ok ==> rc == FlashWritePartition && mem.flash.faulted && spec.phase == Failed(rc)
    {
      hide HoldsTable, InBounds, OwnPartition, OnlyClears, Programmed, SessionGuard, Flash.Valid, Flash.MayTouch, Flash.MayCommit;
      OwnBytes(geo, |spec.flash|, e, offset, |data|);
      if e.id != SBL_IMG_ID {
        MayTouchData(e.start + offset, |data|);
      }
      rc := mem.WritePartition(h, offset, data);
      if rc != Ok {
        rc := FlashWritePartition;
        spec := spec.WithFlash(mem.flash.cells).Fail(rc);
        return;
      }
      if e.id != SBL_IMG_ID {
        DataKeepsDescriptor(spec, mem.flash.cells, e.start + offset, |data|);
      }
      spec := spec.WithFlash(mem.flash.cells);
    }

    /** Erases the blocks a chunk of `n` bytes reaches into, beyond the one being filled. */
    method EraseReached(n: nat, ghost e: Entry) returns (rc: Code)
      requires Guarded() && DescriptorInv(spec) && HandleOn(partitionHdl, e) && !mem.flash.faulted
      requires 0 < n && imageWrtCount + n <= e.size
      modifies this`spec, mem.flash`cells, mem.flash`faulted, mem.flash`history
      ensures Guarded()
      ensures rc == Ok ==>
                && !mem.flash.faulted && DescriptorInv(spec) && HandleOn(partitionHdl, e)
                && spec == old(spec).WithFlash(
                     if e.id == SBL_IMG_ID then old(spec).flash else ChunkErased(old(spec).flash, e.start, imageWrtCount, n))
      ensures rc != Ok ==> rc == FlashErasePartition && mem.flash.faulted && spec.phase == Failed(rc)
    {
      hide DescriptorInv, GuardedAt, Erased, NextBlock, OwnPartition;
      BlockNumbers(imageWrtCount, n);
      rc := Ok;
      if imageWrtCount / BLOCK_SIZE != (imageWrtCount + n - 1) / BLOCK_SIZE {
        var first := imageWrtCount / BLOCK_SIZE + 1;
        var last := (imageWrtCount + n) / BLOCK_SIZE;
        if (imageWrtCount + n) % BLOCK_SIZE != 0 {
          last := last + 1;
        }
        if e.id != SBL_IMG_ID {
          PartitionBounds(geo, |spec.flash|, e);
          BoundaryFits(imageWrtCount + n - 1, e.size);
        }
        rc := EraseBlocks(partitionHdl, first * BLOCK_SIZE, (last - first) * BLOCK_SIZE, e);
      } else {
        NothingErased(spec.flash, e.start + NextBlock(imageWrtCount));
        assert spec == spec.WithFlash(spec.flash);
      }
    }

    /** Feeds a chunk to the digest and stores it in the open partition. */
    method StoreChunk(data: seq<byte>) returns (rc: Code)
      requires Receiving() && spec.open.Some? && data != []
      requires spec.index < |spec.hdrs| && |spec.fed| + |data| <= spec.hdrs[spec.index].length
      modifies this`spec, this`digest, this`imageWrtCount, mem.flash`cells, mem.flash`faulted, mem.flash`history
      ensures Guarded()
      ensures rc == Ok ==>
                && old(spec).Receiving() && spec == ChunkStored(old(spec), data)
                && Tracking() && Holding() && !mem.flash.faulted && DescriptorInv(spec) && HandleOn(partitionHdl, old(spec).open.value)
      ensures rc != Ok ==> mem.flash.faulted && spec.phase == Failed(rc)
    {
      hide DescriptorInv, GuardedAt, ReceiveInv, ChunkErased, OnlyClears, FreeCount, Programmed, HandleOn;
      ghost var e := spec.open.value;
      OpenPartitionOwned(Environment(), geo, spec);
      OnOpenHandle(e);
      digest := digest + data;
      if e.id != SBL_IMG_ID {
        ChunkClears(Environment(), geo, spec, data);
      }
      rc := WriteChunk(data, e);
      if rc == Ok {
        RecordChunk(data, e);
      }
    }

    /** Erases the blocks a chunk reaches into and programs it. */
    method WriteChunk(data: seq<byte>, ghost e: Entry) returns (rc: Code)
      requires Guarded() && DescriptorInv(spec) && HandleOn(partitionHdl, e) && !mem.flash.faulted
      requires data != [] && imageWrtCount + |data| <= e.size
      requires e.id != SBL_IMG_ID ==> OnlyClears(ChunkErased(spec.flash, e.start, imageWrtCount, |data|), e.start + imageWrtCount, data)
      modifies this`spec, mem.flash`cells, mem.flash`faulted, mem.flash`history
      ensures Guarded()
      ensures rc == Ok ==>
                && !mem.flash.faulted && DescriptorInv(spec) && HandleOn(partitionHdl, e)
                && spec == old(spec).WithFlash(
                     if e.id == SBL_IMG_ID then old(spec).flash
                     else Programmed(ChunkErased(old(spec).flash, e.start, imageWrtCount, |data|), e.start + imageWrtCount, data))
      ensures rc != Ok ==> mem.flash.faulted && spec.phase == Failed(rc)
    {
      hide DescriptorInv, GuardedAt, ChunkErased, OnlyClears, Programmed, HandleOn;
      rc := EraseReached(|data|, e);
      if rc == Ok {
        rc := WriteBytes(partitionHdl, imageWrtCount, data, e);
      }
    }

    lemma OnOpenHandle(e: Entry)
      requires mem.handles.Length == MAX_HANDLES && Holding() && spec.open == Some(e) && OwnPartition(geo, |spec.flash|, e)
      ensures HandleOn(partitionHdl, e)
    {
      hide OwnPartition, FreeCount;
    }

    /** Counts a chunk that has been stored. */
    method RecordChunk(data: seq<byte>, ghost e: Entry)
      requires Guarded() && DescriptorInv(spec) && HandleOn(partitionHdl, e) && Tracking() && spec.open == Some(e)
      requires FreeCount(mem.handles[..]) >= 1 && spec.index < |spec.hdrs| && imageWrtLength == spec.hdrs[spec.index].length
      requires imageWrtCount == |spec.fed| && digest == spec.fed + data
      modifies this`spec, this`imageWrtCount
      ensures Guarded() && DescriptorInv(spec) && HandleOn(partitionHdl, e) && Tracking() && Holding()
      ensures spec == old(spec).(fed := old(spec).fed + data)
    {
      hide DescriptorInv, GuardedAt, OwnPartition, FreeCount;
      imageWrtCount := imageWrtCount + |data|;
      spec := spec.(fed := spec.fed + data);
      DescriptorIgnoresPosition(spec.(fed := old(spec).fed), spec);
    }

    /** After a chunk: a complete image is checked and left behind, a full block gets its successor erased. */
    method FinishChunk(ghost s0: State, ghost w: seq<byte>) returns (rc: Code)
      requires Guarded() && Tracking() && mem.handles.Length == MAX_HANDLES && Holding() && !mem.flash.faulted
      requires s0.Receiving() && s0.open.Some? && ReceiveInv(Environment(), geo, s0) && w != []
      requires |s0.fed| + |w| <= s0.hdrs[s0.index].length
      requires spec == ChunkStored(s0, w) && DescriptorInv(spec) && HandleOn(partitionHdl, s0.open.value)
      modifies this, mem.handles, mem.flash`cells, mem.flash`faulted, mem.flash`history
      ensures geo == old(geo) && Spare() == old(Spare()) && (rc != Ok ==> mem.flash.faulted || partitionHdl == -1)
      ensures Guarded() && bufLen == old(bufLen) && bufOffset == old(bufOffset)
      ensures rc == Ok ==>
                && Receiving() && Unfinished() && Consume(Environment(), s0, w) == Due(Environment(), spec)
                && state == (if spec.index == |spec.hdrs| then DuplicateFs else old(state)) && spec.hdrs == s0.hdrs
      ensures rc != Ok ==> spec.phase == Failed(rc) && (mem.flash.faulted || spec == Consume(Environment(), s0, w))
    {
      hide ReceiveInv, DescriptorInv, GuardedAt, ChunkStored, ChunkReceived, FreeCount, Due, HandleOn, Consume, CloseImage, Erased, Spare;
      FinishFacts(Environment(), geo, s0, w);
      if imageWrtCount >= imageWrtLength {
        rc := CompleteImage();
      } else {
        rc := EraseAhead(s0, w);
      }
    }

    /** Inside an image, a full block gets its successor erased. */
    method EraseAhead(ghost s0: State, ghost w: seq<byte>) returns (rc: Code)
      requires Guarded() && Tracking() && mem.handles.Length == MAX_HANDLES && Holding() && !mem.flash.faulted
      requires s0.Receiving() && s0.open.Some? && ReceiveInv(Environment(), geo, s0) && w != []
      requires |s0.fed| + |w| < s0.hdrs[s0.index].length
      requires spec == ChunkStored(s0, w) && DescriptorInv(spec) && HandleOn(partitionHdl, s0.open.value)
      modifies this`spec, mem.flash`cells, mem.flash`faulted, mem.flash`history
      ensures Guarded() && (rc != Ok ==> mem.flash.faulted && spec.phase == Failed(rc))
      ensures rc == Ok ==>
                && Receiving() && Unfinished() && Consume(Environment(), s0, w) == Due(Environment(), spec)
                && spec.index == s0.index && spec.hdrs == s0.hdrs
    {
      hide ReceiveInv, DescriptorInv, GuardedAt, ChunkStored, ChunkReceived, FreeCount, Due, HandleOn, Consume, CloseImage, Erased;
      FinishFacts(Environment(), geo, s0, w);
      rc := Ok;
      if imageWrtCount % BLOCK_SIZE == 0 {
        rc := EraseBlocks(partitionHdl, imageWrtCount, BLOCK_SIZE, s0.open.value);
      }
    }

    /** All bytes of the open image have arrived: its digest decides. */
    method CompleteImage() returns (rc: Code)
      requires Receiving() && spec.open.Some? && spec.index < |spec.hdrs| && |spec.fed| == spec.hdrs[spec.index].length
      modifies this, mem.handles
      ensures geo == old(geo) && Spare() == old(Spare()) && (rc != Ok ==> partitionHdl == -1)
      ensures Guarded() && bufLen == old(bufLen) && bufOffset == old(bufOffset) && !mem.flash.faulted
      ensures rc == Ok ==>
                && Receiving() && CloseImage(Environment(), old(spec)) == Due(Environment(), spec)
                && spec.open == None && spec.hdrs == old(spec).hdrs
                && state == (if spec.index == |spec.hdrs| then DuplicateFs else old(state))
      ensures rc != Ok ==> spec.phase == Failed(rc) && spec == CloseImage(Environment(), old(spec))
    {
      hide ReceiveInv, GuardedAt, FreeCount, Advanced, CopyFileSystem;
      IndexOfReceiving(Environment(), geo, spec);
      AdvancedFields(spec);
      ClosingAdvances(Environment(), spec);
      var h := imageHdr[imageIndex];
      if sha(digest) != h.hash {
        ReleasePartition();
        rc := IncorrectImageChecksum;
        spec := spec.Fail(rc);
      } else {
        rc := Ok;
        AdvanceImage();
      }
    }

    lemma ReceivingFacts()
      requires Receiving()
      ensures Guarded() && mem.handles.Length == MAX_HANDLES && !mem.flash.faulted && active && !isFirst
      ensures spec.phase == Images && spec.index <= |spec.hdrs| && (spec.open.Some? ==> spec.index < |spec.hdrs|)
    {
      hide ReceiveInv, FreeCount, GuardedAt;
      IndexOfReceiving(Environment(), geo, spec);
    }

    /** Every open image still lacks bytes. */
    ghost predicate Unfinished()
      reads this`spec
    {
      spec.open.Some? ==> spec.index < |spec.hdrs| && |spec.fed| < spec.hdrs[spec.index].length
    }

    /** The length field says whether an image is open. */
    lemma LengthOfReceiving()
      requires Receiving()
      ensures spec.open == None ==> imageWrtLength == 0 && Unfinished()
      ensures spec.open.Some? && imageWrtLength > 0 && spec.fed == [] ==> Unfinished()
      ensures spec.open.Some? && Unfinished() ==> imageWrtLength > 0
    {
      hide ReceiveInv, FreeCount, GuardedAt;
    }

    /** One round over the packet: opens an image if none is open, then stores what fits into it. */
    method ReceiveRound(data: seq<byte>, at: nat) returns (rc: Code, next: nat)
      requires Receiving() && spec.Receiving() && Unfinished() && at < |data|
      modifies this, mem.handles, mem.flash`cells, mem.flash`faulted, mem.flash`history
      ensures geo == old(geo) && Spare() == old(Spare()) && (rc != Ok ==> mem.flash.faulted || partitionHdl == -1)
      ensures Guarded() && bufLen == old(bufLen) && bufOffset == old(bufOffset) && at <= next <= |data|
      ensures rc == Ok ==>
                && Receiving() && Unfinished() && spec.hdrs == old(spec).hdrs
                && (at < next || spec.index > old(spec).index)
                && Consume(Environment(), old(spec), data[at..]) == Consume(Environment(), Due(Environment(), spec), data[next..])
                && state == (if spec.index == |spec.hdrs| then DuplicateFs else old(state))
      ensures rc != Ok ==>
                spec.phase == Failed(rc) && (mem.flash.faulted || spec == Consume(Environment(), old(spec), data[at..]))
    {
      hide Receiving, Unfinished, GuardedAt, Due, Consume, OpenImage, OpenImages, ChunkStored, Spare;
      ghost var env, s0 := Environment(), spec;
      next := at;
      LengthOfReceiving();
      ReceivingFacts();
      if imageWrtLength == 0 {
        OneOpeningIsPartOfTheNextByte(env, s0, data[at..]);
        rc := OpenNextImage();
        if rc != Ok {
          ConsumeWhenOver(env, spec, data[at..]);
          return;
        }
        LengthOfReceiving();
        ReceivingFacts();
        if imageWrtLength == 0 {
          return;
        }
        DueWhileReceiving(env, spec);
      }
      rc, next := ReceiveChunk(data, at);
    }

    /** Stores as much of the packet as the open image still needs. */
    method ReceiveChunk(data: seq<byte>, at: nat) returns (rc: Code, next: nat)
      requires Receiving() && spec.Receiving() && spec.open.Some? && Unfinished() && at < |data|
      modifies this, mem.handles, mem.flash`cells, mem.flash`faulted, mem.flash`history
      ensures geo == old(geo) && Spare() == old(Spare()) && (rc != Ok ==> mem.flash.faulted || partitionHdl == -1)
      ensures Guarded() && bufLen == old(bufLen) && bufOffset == old(bufOffset) && at <= next <= |data|
      ensures rc == Ok ==>
                && Receiving() && Unfinished() && spec.hdrs == old(spec).hdrs && at < next
                && Consume(Environment(), old(spec), data[at..]) == Consume(Environment(), Due(Environment(), spec), data[next..])
                && state == (if spec.index == |spec.hdrs| then DuplicateFs else old(state))
      ensures rc != Ok ==>
                spec.phase == Failed(rc) && (mem.flash.faulted || spec == Consume(Environment(), old(spec), data[at..]))
    {
      hide ReceiveInv, GuardedAt, FreeCount, Due, Consume, ChunkStored;
      ghost var env, s1 := Environment(), spec;
      next := at;
      var n := if |data| - at < imageWrtLength - imageWrtCount then |data| - at else imageWrtLength - imageWrtCount;
      ghost var w := data[at..at + n];
      assert data[at..] == w + data[at + n..];
      ConsumeAppend(env, s1, w, data[at + n..]);
      rc := StoreChunk(data[at..at + n]);
      if rc != Ok {
        return;
      }
      next := at + n;
      rc := FinishChunk(s1, w);
      if rc != Ok {
        ConsumeWhenOver(env, spec, data[at + n..]);
      }
    }

    /** Receives the images in the packet, from `bufOffset` on. */
    method ProcessReceiveImage(data: seq<byte>) returns (rc: Code)
      requires Receiving() && spec.Receiving() && Unfinished()
      requires state == ProcessImage && bufLen == |data| && bufOffset <= |data|
      modifies this, mem.handles, mem.flash`cells, mem.flash`faulted, mem.flash`history
      ensures geo == old(geo) && Spare() == old(Spare()) && (rc != Ok ==> mem.flash.faulted || partitionHdl == -1)
      ensures Guarded() && bufLen == |data| && old(bufOffset) <= bufOffset <= |data|
      ensures rc == Ok ==>
                && Receiving() && Unfinished()
                && Consume(Environment(), old(spec), data[old(bufOffset)..]) == Due(Environment(), spec)
                && (if spec.index == |spec.hdrs| then state == DuplicateFs else state == ProcessImage && bufOffset == |data|)
      ensures rc != Ok ==>
                && spec.phase == Failed(rc)
                && (mem.flash.faulted || spec == Consume(Environment(), old(spec), data[old(bufOffset)..]))
    {
      hide Receiving, Unfinished, GuardedAt, Due, Consume, Spare;
      ghost var env := Environment();
      ghost var goal := Consume(env, spec, data[bufOffset..]);
      var at := bufOffset;
      rc := Ok;
      ReceivingFacts();
      DueWhileReceiving(env, spec);
      while at < bufLen && state != DuplicateFs
        invariant geo == old(geo) && rc == Ok && bufLen == |data| && bufOffset == old(bufOffset) <= at <= |data|
        invariant Spare() == old(Spare())
        invariant Receiving() && Unfinished() && spec.index <= |spec.hdrs|
        invariant state == if spec.index == |spec.hdrs| then DuplicateFs else ProcessImage
        invariant goal == Consume(env, Due(env, spec), data[at..])
        decreases |data| - at, |spec.hdrs| - spec.index
      {
        ReceivingFacts();
        LengthOfReceiving();
        DueWhileReceiving(env, spec);
        rc, at := ReceiveRound(data, at);
        if rc != Ok {
          break;
        }
        ReceivingFacts();
      }
      bufOffset := at;
      if rc == Ok {
        ReceivingFacts();
        NoBytesLeft(env, spec, data[at..]);
      }
    }

    // Receiving the configuration

    /** The context agrees with the reference model while the configuration is collected. */
    ghost predicate Collecting()
      reads this`active, this`isFirst, this`trialFwdIdx, this`trialMemStart, this`trialMemSize, this`hiddenImagesCount, this`imageIndex,
        this`imageWrtLength, this`imageWrtCount, this`partitionHdl, this`configBuf, this`spec, this`geo, mem.flash, mem.handles
    {
      && Guarded() && mem.handles.Length == MAX_HANDLES && !mem.flash.faulted
      && spec.phase == Config && SessionInv(Environment(), geo, spec) && Prepared()
      && configBuf == spec.cfg && (configBuf != [] ==> |configBuf| >= CONFIG_HEAD_LEN && imageWrtCount == |configBuf|)
    }

    /** The context once the slot and its region are chosen. */
    ghost predicate Prepared()
      reads this`active, this`isFirst, this`trialFwdIdx, this`trialMemStart, this`trialMemSize, this`hiddenImagesCount, this`imageIndex,
        this`imageWrtLength, this`partitionHdl, this`spec, mem.handles
      requires mem.handles.Length == MAX_HANDLES
    {
      TrialKnown() && partitionHdl == -1 && FreeCount(mem.handles[..]) >= 2
    }

    ghost predicate TrialKnown()
      reads this`active, this`isFirst, this`trialFwdIdx, this`trialMemStart, this`trialMemSize, this`hiddenImagesCount, this`imageIndex,
        this`imageWrtLength, this`spec
    {
      && active && isFirst && trialFwdIdx == spec.trial && trialMemStart == spec.cursor && trialMemSize == spec.space
      && hiddenImagesCount == spec.hidden && imageIndex == 0 && imageWrtLength == 0
    }

    /** Takes what belongs to the configuration out of the packet. */
    method CollectConfig(data: seq<byte>) returns (rc: Code, complete: bool)
      requires Collecting() && data != [] && bufLen == |data| && SaneStream(Environment(), spec.cfg + data)
      modifies this`configBuf, this`bufOffset, this`imageWrtCount, this`state, this`spec
      ensures Guarded()
      ensures rc != Ok ==> rc == IncorrectImageHdr && spec.phase == Failed(rc) && spec == Fed(Environment(), old(spec), data)
      ensures rc == Ok ==> |old(spec).cfg + data| >= CONFIG_HEAD_LEN
      ensures rc == Ok ==>
                && bufOffset <= |data| && PieceTaken(Environment(), geo, old(spec), data, bufOffset)
                && configBuf == old(spec).cfg + data[..bufOffset] && spec == old(spec).(cfg := configBuf)
                && complete == (|old(spec).cfg + data| >= ConfigLength(old(spec).cfg + data))
                && (!complete ==> state == ReceiveData && imageWrtCount == |configBuf|)
    {
      hide GuardedAt, SessionInv, ConfigInv, SaneConfig, SaneStream, Consume, PieceTaken, ConfigLength, FreeCount;
      ghost var env, s0 := Environment(), spec;
      rc, complete := Ok, false;
      if configBuf == [] {
        assert s0.cfg + data == data;
        if bufLen >= CONFIG_HEAD_LEN {
          PieceFacts(env, geo, s0, data);
        }
        if bufLen < CONFIG_HEAD_LEN || !HeadOk(data) {
          rc := IncorrectImageHdr;
          spec := Fed(env, spec, data);
          return;
        }
        var len := ConfigLength(data);
        bufOffset := PieceLength(0, bufLen, len);
        configBuf := data[..bufOffset];
        complete := bufLen >= len;
        if !complete {
          imageWrtCount := bufLen;
        }
      } else {
        PieceFacts(env, geo, s0, data);
        assert HeadOk(s0.cfg + data);
        var len := PieceLength(imageWrtCount, bufLen, ConfigLength(configBuf));
        complete := imageWrtCount + len >= ConfigLength(configBuf);
        configBuf := configBuf + data[..len];
        imageWrtCount := imageWrtCount + len;
        bufOffset := len;
      }
      if !complete {
        state := ReceiveData;
      }
      spec := spec.(cfg := configBuf);
    }

    /** Copies the image headers, rounds their disk sizes up and adds up what the checks need. */
    method TallyHeaders() returns (rc: Code, disk: uint32, len: uint32, sblDisk: uint32, sblExists: bool, appExists: bool)
      requires |configBuf| >= CONFIG_HEAD_LEN
      modifies this`imageHdr
      ensures rc == if forall k :: 0 <= k < ConfigCount(configBuf) ==> HeaderOk(RawHeader(configBuf, k)) then Ok else IncorrectImageHdr
      ensures rc == Ok ==>
                && imageHdr == Headers(configBuf)
                && Tally(disk, len, sblDisk, sblExists, appExists) == TallyUpTo(imageHdr, |imageHdr|)
    {
      hide RawHeader, RoundedDisk, ConfigCount, U32, HeaderOk;
      ghost var hs := Headers(configBuf);
      var n := ConfigCount(configBuf);
      var cfg := configBuf;
      imageHdr := seq(n, k requires 0 <= k => RawHeader(cfg, k));
      rc, disk, len, sblDisk, sblExists, appExists := Ok, 0, 0, 0, false, false;
      var i := 0;
      while i < n
        invariant 0 <= i <= n == |hs| == |imageHdr|
        invariant forall k :: 0 <= k < i ==> imageHdr[k] == hs[k] && HeaderOk(RawHeader(configBuf, k))
        invariant forall k :: i <= k < n ==> imageHdr[k] == RawHeader(configBuf, k)
        invariant Tally(disk, len, sblDisk, sblExists, appExists) == TallyUpTo(hs, i)
      {
        var h := imageHdr[i];
        if !HeaderOk(h) {
          rc := IncorrectImageHdr;
          return;
        }
        h := h.(disk := RoundedDisk(h));
        imageHdr := imageHdr[i := h];
        if Counted(h) {
          disk := U32(disk as int + h.disk as int);
          len := U32(len as int + h.length as int);
        }
        if h.id == SBL_IMG_ID {
          sblExists, sblDisk := true, h.disk;
        }
        if h.id == APP_IMG_ID {
          appExists := true;
        }
        i := i + 1;
      }
      assert imageHdr == hs;
    }

    /** The checks of the image headers. */
    method CheckImageHeaders() returns (rc: Code)
      requires |configBuf| >= CONFIG_HEAD_LEN
      modifies this`imageHdr, this`trialSblStart
      ensures rc == CheckImages(Environment(), configBuf, trialMemSize)
      ensures rc == Ok ==> imageHdr == Headers(configBuf) && sbl.Some? && trialSblStart == sbl.value.start
    {
      hide RawHeader, RoundedDisk, ConfigCount, U32, DiskSum, LengthSum, SblDisk, HeaderOk, TallyUpTo;
      var disk, len, sblDisk, sblExists, appExists;
      rc, disk, len, sblDisk, sblExists, appExists := TallyHeaders();
      if rc != Ok {
        return;
      }
      VerdictFromTally(Environment(), configBuf, trialMemSize);
      if sblExists && !appExists {
        return SblOnlyNotSupport;
      }
      if disk > trialMemSize {
        return FlashNotEnoughSpace;
      }
      if len > disk {
        return IncorrectImageHdr;
      }
      if sbl == None {
        return SblNotSupportUpgrade;
      }
      trialSblStart := sbl.value.start;
      rc := if sblDisk > sbl.value.size then SblNotEnoughSpace else Ok;
    }

    /** Programs one header field of the trial slot. */
    method SetField(info: Info, value: seq<byte>) returns (rc: Code)
      requires Guarded() && |value| == InfoSize(info) && trialFwdIdx == spec.trial < MAX_FWD && !mem.flash.faulted
      requires !info.Status? && Cell(spec.flash, InfoAddr(spec.trial, Status)) == 0xFF
      requires OnlyClears(spec.flash, InfoAddr(spec.trial, info), value)
      modifies this`spec, mem.flash`cells, mem.flash`faulted, mem.flash`history
      ensures Guarded()
      ensures rc == Ok ==>
                && !mem.flash.faulted
                && spec == old(spec).WithFlash(Programmed(old(spec).flash, InfoAddr(old(spec).trial, info), value))
      ensures rc != Ok ==> rc == FlashWriteFail && mem.flash.faulted && spec.phase == Failed(rc)
    {
      hide GeometryKnown, OnlyClears, Flash.Valid, Programmed, Cell;
      MayTouchField(InfoAddr(spec.trial, info), |value|);
      rc := mem.SetFwdInfo(trialFwdIdx, info, value);
      spec := spec.WithFlash(mem.flash.cells);
      if rc != Ok {
        rc := FlashWriteFail;
        spec := spec.Fail(rc);
      }
    }

    /** Describes the trial slot: magic, version and number of images. */
    method DescribeSlot() returns (rc: Code)
      requires Guarded() && DescriptorInv(spec) && spec.phase == Config && !mem.flash.faulted
      requires configBuf == spec.cfg && trialFwdIdx == spec.trial && hiddenImagesCount == spec.hidden
      modifies this`spec, mem.flash`cells, mem.flash`faulted, mem.flash`history
      ensures Guarded()
      ensures rc == Ok ==> !mem.flash.faulted && spec == old(spec).WithFlash(Described(old(spec)))
      ensures rc != Ok ==> mem.flash.faulted && spec.phase == Failed(rc)
    {
      hide GuardedAt, DescriptorInv, OnlyClears, Programmed, Le32, ConfigMagic, ConfigVersion, TotalImagesByte, SameOutside, Cell;
      StatusErased(spec);
      DescribedKeeps(spec);
      rc := SetField(Magic, Le32(ConfigMagic(configBuf)));
      if rc != Ok {
        return;
      }
      rc := SetField(Version, Le32(ConfigVersion(configBuf)));
      if rc != Ok {
        return;
      }
      rc := SetField(TotalImages, [TotalImagesByte(configBuf, hiddenImagesCount)]);
    }

    lemma MayTouchField(a: nat, n: nat)
      requires Guarded() && Cell(spec.flash, InfoAddr(spec.trial, Status)) == 0xFF
      requires spec.trial * BLOCK_SIZE <= a && a + n <= spec.trial * BLOCK_SIZE + BLOCK_SIZE
      requires !(a <= InfoAddr(spec.trial, Status) < a + n)
      ensures mem.flash.MayTouch(a, n)
    {
      hide GeometryKnown;
    }

    /** The whole configuration has arrived: its digest and its headers are checked and the slot is described. */
    method FinishConfig() returns (rc: Code)
      requires ConfigComplete()
      modifies this`spec, this`totalImages, this`imageHdr, this`trialSblStart, this`configBuf, this`isFirst, this`state
      modifies mem.flash`cells, mem.flash`faulted, mem.flash`history
      ensures Guarded()
      ensures rc == Ok ==>
                && Receiving() && spec.Receiving() && Unfinished() && !isFirst && spec == ConfigDone(Environment(), old(spec))
                && state == if bufOffset >= bufLen then ReceiveData else ProcessImage
      ensures rc != Ok ==> spec.phase == Failed(rc) && (mem.flash.faulted || spec == ConfigDone(Environment(), old(spec)))
    {
      hide GuardedAt, ConfigInv, SaneConfig, ReceiveInv, ConfigLength, FreeCount, CheckImages, Described, Headers, HashOffset, ConfigDone,
        HeadOk, Slice, Receiving, Unfinished;
      ConfigDoneFacts(Environment(), geo, spec);
      if sha(Slice(configBuf, 0, HashOffset(configBuf))) != Slice(configBuf, HashOffset(configBuf), HASH_LEN) {
        rc := IncorrectImageChecksum;
        spec := spec.Fail(rc);
      } else {
        rc := FinishIntact();
      }
    }

    ghost predicate ConfigComplete()
      reads this, mem.flash, mem.handles
    {
      && Guarded() && mem.handles.Length == MAX_HANDLES && Prepared() && !mem.flash.faulted
      && spec.phase == Config && ConfigInv(Environment(), geo, spec) && configBuf == spec.cfg
      && |configBuf| >= CONFIG_HEAD_LEN && HeadOk(configBuf) && |configBuf| == ConfigLength(configBuf)
      && SaneConfig(Environment(), configBuf)
    }

    /** The rest of `FinishConfig`, once the digest is found to be right. */
    method FinishIntact() returns (rc: Code)
      requires ConfigComplete() && ConfigIntact(Environment(), configBuf)
      modifies this`spec, this`totalImages, this`imageHdr, this`trialSblStart, this`configBuf, this`isFirst, this`state
      modifies mem.flash`cells, mem.flash`faulted, mem.flash`history
      ensures Guarded()
      ensures rc == Ok ==>
                && Receiving() && spec.Receiving() && Unfinished() && !isFirst && spec == ConfigDone(Environment(), old(spec))
                && state == if bufOffset >= bufLen then ReceiveData else ProcessImage
      ensures rc != Ok ==> spec.phase == Failed(rc) && (mem.flash.faulted || spec == ConfigDone(Environment(), old(spec)))
    {
      hide GuardedAt, ConfigInv, SaneConfig, ReceiveInv, ConfigLength, FreeCount, CheckImages, Described, Headers, DescriptorInv,
        ConfigCount, HashOffset, ConfigDone, HeadOk, Slice, Receiving, Unfinished;
      ConfigDoneFacts(Environment(), geo, spec);
      rc := DescribeSlot();
      if rc != Ok {
        return;
      }
      totalImages := ConfigCount(configBuf);
      rc := CheckImageHeaders();
      if rc != Ok {
        spec := spec.(hdrs := Headers(configBuf), phase := Failed(rc));
        return;
      }
      spec := spec.(hdrs := imageHdr, phase := Images);
      HeadersCount(configBuf);
      EnterImages();
    }

    /** The configuration is accepted: images are next. */
    method EnterImages()
      requires Guarded() && mem.handles.Length == MAX_HANDLES && Prepared() && !mem.flash.faulted
      requires imageHdr == spec.hdrs && totalImages == |spec.hdrs| && sbl.Some? && trialSblStart == sbl.value.start
      requires spec.Receiving() && spec.index == 0 && spec.open == None && ReceiveInv(Environment(), geo, spec)
      modifies this`configBuf, this`isFirst, this`state
      ensures Receiving() && Unfinished() && !isFirst && configBuf == []
      ensures state == if bufOffset >= bufLen then ReceiveData else ProcessImage
    {
      hide GuardedAt, ReceiveInv, FreeCount;
      configBuf := [];
      isFirst := false;
      state := if bufOffset >= bufLen then ReceiveData else ProcessImage;
    }

    /** One packet, or the head of one, of configuration. */
    method ProcessConfigFile(data: seq<byte>) returns (rc: Code)
      requires Collecting() && data != [] && bufLen == |data| && SaneStream(Environment(), spec.cfg + data)
      modifies this, mem.flash`cells, mem.flash`faulted, mem.flash`history
      ensures geo == old(geo) && partitionHdl == old(partitionHdl) == -1
      ensures Guarded() && bufLen == |data| && (rc == Ok ==> bufOffset <= |data|)
      ensures rc == Ok && isFirst ==>
                && Collecting() && configBuf != [] && state == ReceiveData && bufOffset == |data|
                && spec == Fed(Environment(), old(spec), data)
      ensures rc == Ok && !isFirst ==>
                && 0 < bufOffset <= |data| && Receiving() && spec.Receiving() && Unfinished()
                && Fed(Environment(), old(spec), data) == Consume(Environment(), spec, data[bufOffset..])
                && state == if bufOffset == |data| then ReceiveData else ProcessImage
      ensures rc != Ok ==> spec.phase == Failed(rc) && (mem.flash.faulted || spec == Fed(Environment(), old(spec), data))
    {
      hide GuardedAt, SessionInv, ConfigInv, SaneConfig, SaneStream, Receiving, Unfinished, ConfigLength, FreeCount, ConfigDone,
        Consume, HeadOk;
      ghost var env, s0 := Environment(), spec;
      var complete;
      rc, complete := CollectConfig(data);
      if rc == Ok && complete {
        rc := FinishConfig();
        if rc != Ok {
          ConsumeWhenOver(env, spec, data[bufOffset..]);
        }
      }
    }

    // The end of the session

    /** Takes handles for the running slot's two file systems: both or none, and two must be free. */
    method OpenFileSystems() returns (rc: Code, h1: int, h2: int)
      requires mem.Valid()
      modifies mem.handles
      ensures
        var from, to := Find(mem.flash.cells, mem.active, FS1_IMG_ID), Find(mem.flash.cells, mem.active, FS2_IMG_ID);
        && (rc == Ok <==> from.Some? && to.Some? && FreeCount(old(mem.handles[..])) >= 2)
        && (rc == Ok ==>
              && mem.HandleValid(h1) && mem.HandleValid(h2) && h1 != h2
              && mem.handles[h1].image == from.value && mem.handles[h2].image == to.value
              && FreeCount(mem.handles[..]) == FreeCount(old(mem.handles[..])) - 2)
        && (rc != Ok ==> rc == FlashImageNotFound && FreeCount(mem.handles[..]) == FreeCount(old(mem.handles[..])))
    {
      hide EntryAt, FindIndex, FreeCount;
      ghost var p0 := mem.handles[..];
      rc, h1 := mem.FindPartition(mem.active, FS1_IMG_ID);
      h2 := -1;
      if rc != Ok {
        return FlashImageNotFound, h1, h2;
      }
      FreeCountUpdate(p0, h1, mem.handles[h1]);
      ghost var p1 := mem.handles[..];
      rc, h2 := mem.FindPartition(mem.active, FS2_IMG_ID);
      if rc != Ok {
        FreeCountUpdate(p1, h1, Freed(mem.handles[h1]));
        mem.Release(h1);
        return FlashImageNotFound, h1, h2;
      }
      FreeCountUpdate(p1, h2, mem.handles[h2]);
    }

    /** The two file systems as the copy finds them. */
    ghost predicate Copying(h1: int, h2: int, from: Entry, to: Entry)
      reads this`spec, this`geo, mem.handles
    {
      && HandleOn(h2, to) && h1 != h2 && mem.HandleValid(h1) && mem.handles[h1].image == from
      && from.id == FS1_IMG_ID && to.id == FS2_IMG_ID && from.size % BLOCK_SIZE == 0
      && |spec.flash| < TWO_TO_THE_32 && from.size < TWO_TO_THE_32 - BLOCK_SIZE && (from.size > 0 ==> from.End() <= |spec.flash|)
    }

    lemma GuardPresent()
      requires Guarded()
      ensures mem.flash.guard.Some?
    {
      hide GeometryKnown, Flash.Valid;
    }

    lemma CellsOfSpec()
      requires Guarded()
      ensures mem.Valid() && mem.flash.cells == spec.flash
    {
      hide GeometryKnown;
    }

    /** Reads one block of a partition. */
    method ReadBlock(h: int, offset: nat, ghost e: Entry) returns (data: seq<byte>)
      requires Guarded() && mem.handles.Length == MAX_HANDLES && mem.HandleValid(h) && mem.handles[h].image == e && e.id != SBL_IMG_ID
      requires e.End() <= |spec.flash| < TWO_TO_THE_32 && e.size % BLOCK_SIZE == 0 && offset % BLOCK_SIZE == 0 && offset < e.size
      ensures data == Slice(spec.flash, e.start + offset, BLOCK_SIZE) && |data| == BLOCK_SIZE
    {
      hide GuardedAt, InBounds;
      CellsOfSpec();
      SourceBlock(e, |spec.flash|, offset);
      var _, read := mem.ReadPartition(h, offset, BLOCK_SIZE);
      data := read;
    }

    /** Copies one block. */
    method CopyOne(h1: int, h2: int, offset: nat, ghost from: Entry, ghost to: Entry) returns (rc: Code)
      requires Guarded() && DescriptorInv(spec) && Copying(h1, h2, from, to) && !mem.flash.faulted
      requires offset % BLOCK_SIZE == 0 && offset < from.size
      modifies this`spec, mem.flash`cells, mem.flash`faulted, mem.flash`history
      ensures Guarded()
      ensures rc == Ok ==>
                && !mem.flash.faulted && DescriptorInv(spec) && Copying(h1, h2, from, to)
                && spec == old(spec).WithFlash(CopyBlock(old(spec).flash, from, to, offset))
                && CanErase(old(spec).flash, to, offset, BLOCK_SIZE)
      ensures rc != Ok ==>
                && spec.phase == Failed(rc)
                && (mem.flash.faulted || (offset + BLOCK_SIZE > to.size && rc == FlashErasePartition && spec == old(spec).Fail(rc)))
    {
      hide HoldsTable, OwnPartition, Erased, Programmed, GuardedAt, DescriptorInv, OnlyClears, Erasable, InBounds, CanErase;
      ghost var f := spec.flash;
      var data := ReadBlock(h1, offset, from);
      SourceBlock(from, |spec.flash|, offset);
      rc := EraseBlocks(h2, offset, BLOCK_SIZE, to);
      if rc != Ok {
        return;
      }
      OwnBlocks(geo, |f|, to, offset, BLOCK_SIZE);
      assert CanErase(f, to, offset, BLOCK_SIZE) by { InsideErasable(f, to, offset); }
      ErasedIsBlank(f, to.start + offset, BLOCK_SIZE);
      BlankOnlyClears(spec.flash, to.start + offset, data);
      rc := WriteBytes(h2, offset, data, to);
    }

    /** The loop over the blocks. */
    method CopyAll(h1: int, h2: int, ghost from: Entry, ghost to: Entry) returns (rc: Code)
      requires Guarded() && DescriptorInv(spec) && Copying(h1, h2, from, to) && !mem.flash.faulted
      modifies this`spec, mem.flash`cells, mem.flash`faulted, mem.flash`history
      ensures Guarded()
      ensures rc == Ok ==>
                && !mem.flash.faulted && DescriptorInv(spec) && from.size <= to.size
                && spec == old(spec).WithFlash(CopyBlocks(old(spec).flash, from, to, 0))
      ensures rc != Ok ==>
                && spec.phase == Failed(rc)
                && (mem.flash.faulted
                    || (from.size > to.size && rc == FlashErasePartition
                        && spec == old(spec).WithFlash(CopyBlocks(old(spec).flash, from, to, 0)).Fail(rc)))
    {
      hide GuardedAt, DescriptorInv, CopyBlock, OwnPartition, Erasable;
      ghost var s0 := spec;
      var size, offset := mem.handles[h1].image.size, 0;
      rc := Ok;
      while offset < size
        invariant rc == Ok && size == from.size && offset % BLOCK_SIZE == 0 && 0 <= offset <= size && offset <= to.size
        invariant Guarded() && DescriptorInv(spec) && Copying(h1, h2, from, to) && !mem.flash.faulted
        invariant spec == s0.WithFlash(spec.flash)
        invariant CopyBlocks(spec.flash, from, to, offset) == CopyBlocks(s0.flash, from, to, 0)
      {
        ghost var f := spec.flash;
        rc := CopyOne(h1, h2, offset, from, to);
        if rc != Ok {
          NoRoomToErase(f, to, offset);
          break;
        }
        ErasableWithin(f, to, offset);
        offset := offset + BLOCK_SIZE;
      }
    }

    /** Everything is in place for the slot to become valid. */
    ghost predicate Sealed()
      reads this`partitionHdl, this`active, this`trialFwdIdx, this`spec, this`geo, mem.flash, mem.handles
    {
      && partitionHdl == -1 && FreeCount(mem.handles[..]) > 0
      && Guarded() && !mem.flash.faulted && active && trialFwdIdx == spec.trial && spec.phase == Images
      && DescriptorInv(spec) && Installed(Environment(), geo, Commit(spec))
    }

    /** All images have been received; whatever else is using the pool. */
    ghost predicate AllReceived()
      reads this`active, this`isFirst, this`trialFwdIdx, this`trialMemStart, this`hiddenImagesCount, this`imageHdr, this`totalImages, this`imageIndex,
        this`trialSblStart, this`spec
      reads this`partitionHdl, this`geo, mem.flash
    {
      && Guarded() && mem.Valid() && Tracking() && partitionHdl == -1
      && ReceiveInv(Environment(), geo, spec) && !mem.flash.faulted && spec.index == |spec.hdrs|
    }

    /** Copies the running slot's first file system over its second, block by block.  With fewer than two free handles it
        fails before touching the flash, so that the new slot does not become valid. */
    method ProcessDuplicateFs() returns (rc: Code)
      requires AllReceived()
      modifies this`spec, mem.handles, mem.flash`cells, mem.flash`faulted, mem.flash`history
      ensures Guarded() && Spare() == old(Spare()) && partitionHdl == -1
      ensures rc == Ok ==> Sealed() && spec.phase == Images && !mem.flash.faulted && CopyFileSystem(Environment(), old(spec)) == Commit(spec)
      ensures rc != Ok ==> spec.phase == Failed(rc)
      ensures rc != Ok && old(FreeCount(mem.handles[..])) >= 2 ==> mem.flash.faulted || spec == CopyFileSystem(Environment(), old(spec))
      ensures old(FreeCount(mem.handles[..])) < 2 ==>
                rc == FlashImageNotFound && mem.flash.cells == old(mem.flash.cells) && mem.flash.history == old(mem.flash.history)
    {
      hide GuardedAt, ReceiveInv, DescriptorInv, Installed, Find, CopyBlocks, FreeCount, Commit, OwnPartition;
      ghost var env, s0 := Environment(), spec;
      CellsOfSpec();
      IndexOfReceiving(env, geo, s0);
      CopyFacts(env, geo, s0);
      var h1, h2;
      rc, h1, h2 := OpenFileSystems();
      if rc != Ok {
        spec := spec.Fail(rc);
        return;
      }
      rc := CopyAll(h1, h2, mem.handles[h1].image, mem.handles[h2].image);
      FreeCountUpdate(mem.handles[..], h1, Freed(mem.handles[h1]));
      mem.Release(h1);
      FreeCountUpdate(mem.handles[..], h2, Freed(mem.handles[h2]));
      mem.Release(h2);
    }

    /** No image is open once all are complete. */
    lemma NothingOpen()
      requires Receiving() && spec.index == |spec.hdrs|
      ensures FreeCount(mem.handles[..]) >= 2 && AllReceived()
    {
      hide ReceiveInv, FreeCount;
    }

    /**
     Makes the trial slot valid and ends the session.  The result of the status write is not looked at, and
     the handle on the SBL entry, if there is one, is not given back.
     */
    method SessionFinalize()
      requires Sealed() && mem.handles.Length == MAX_HANDLES
      modifies this`spec, this`active, mem.handles, mem.flash
      ensures mem.Valid() && !active && mem.flash.cells == spec.flash && spec.phase == Finished
      ensures !mem.flash.faulted ==> spec == Commit(old(spec))
      ensures mem.flash.history == old(mem.flash.history) + [mem.flash.cells] && Protected() && mem.flash.guard.Some?
      ensures partitionHdl == -1 && Spare() == old(Spare()) - Lost(Ok)
    {
      hide Protected, Sealed, Commit, FreeCount, Find;
      SealedFields();
      WriteStatus();
      LookUpSbl();
      active := false;
    }

    lemma SealedFields()
      requires Sealed()
      ensures partitionHdl == -1 && FreeCount(mem.handles[..]) > 0 && trialFwdIdx == spec.trial && !mem.flash.faulted
    {
      hide GuardedAt, DescriptorInv, Installed, FreeCount;
    }

    /** The last write. */
    method WriteStatus()
      requires Sealed()
      modifies this`spec, mem.flash
      ensures mem.Valid() && mem.flash.cells == spec.flash && spec.phase == Finished && spec.trial == old(spec).trial
      ensures !mem.flash.faulted ==> spec == Commit(old(spec))
      ensures mem.flash.history == old(mem.flash.history) + [mem.flash.cells] && Protected() && mem.flash.guard.Some?
    {
      hide GuardedAt, DescriptorInv, Installed, FreeCount, Flash.MayTouch, Flash.MayCommit, OnlyClears, Commit, Guard.CrashSafe;
      ghost var end := Commit(spec);
      CommitClears(spec);
      SealGuard(end);
      var _ := mem.SetFwdInfo(trialFwdIdx, Status, [STATUS_VALID]);
      spec := spec.(flash := mem.flash.cells, phase := Finished);
      assert Protected() by { SafelyCommitted(end); }
    }

    /** Looks the SBL entry up for its version, and keeps the handle. */
    method LookUpSbl()
      requires mem.Valid() && FreeCount(mem.handles[..]) > 0
      modifies mem.handles
      ensures
        FreeCount(mem.handles[..])
        == old(FreeCount(mem.handles[..])) - if Find(mem.flash.cells, trialFwdIdx, SBL_IMG_ID).Some? then 1 else 0
    {
      hide FreeCount, Find, EntryAt;
      ghost var pool := mem.handles[..];
      var rc, hdl := mem.FindPartition(trialFwdIdx, SBL_IMG_ID);
      if rc == Ok {
        FreeCountUpdate(pool, hdl, mem.handles[hdl]);
      }
    }

    /** What the guard says once it is sealed. */
    lemma SafelyCommitted(end: State)
      requires mem.Valid() && SealedFor(end) && mem.flash.cells == spec.flash
      requires spec == end.(flash := spec.flash) && spec.phase == Finished
      ensures Protected()
    {
      hide GeometryKnown, Installed;
      forall f
        ensures end.WithFlash(f) == spec.WithFlash(f)
      {
      }
    }

    /**
     After every flash operation of the session only its own areas have changed, and the slot has read as valid only if
     it was completely installed.  The one exception is an erase of the descriptor of a slot that was valid before: as
     long as it has not gone through, the old status may still be there.
     */
    ghost predicate Protected()
      reads this`spec, this`geo, mem.flash
    {
      && mem.Valid() && mem.flash.cells == spec.flash
      && (mem.flash.guard.Some? ==>
            && GeometryKnown(Environment(), geo)
            && (!mem.flash.guard.value.armed ==> OnlyDescriptorErase())
            && forall k :: 0 <= k < |mem.flash.history| ==>
              var f := mem.flash.history[k];
              && Frame(geo, f)
              && (mem.flash.guard.value.armed && Cell(f, InfoAddr(geo.trial, Status)) == STATUS_VALID ==>
                    spec.phase == Finished && Installed(Environment(), geo, spec.WithFlash(f))))
    }

    /** Nothing but an erase of the descriptor of a valid slot has been attempted. */
    ghost predicate OnlyDescriptorErase()
      reads this`geo, mem.flash`history
    {
      && Cell(geo.base, InfoAddr(geo.trial, Status)) == STATUS_VALID
      && forall k :: 0 <= k < |mem.flash.history| ==>
           PartlyErased(geo.base, mem.flash.history[k], geo.trial * BLOCK_SIZE, BLOCK_SIZE)
    }

    lemma GuardedIsProtected()
      requires Guarded()
      ensures Protected()
    {
      hide GeometryKnown;
    }

    ghost predicate SealedFor(end: State)
      reads this`geo, mem.flash`guard
    {
      && mem.flash.guard.Some? && GeometryKnown(Environment(), geo)
      && var g := mem.flash.guard.value;
         && g.base == geo.base && g.trial == geo.trial && g.armed
         && g.fs2 == geo.fs2 && g.ramdump == geo.ramdump && g.region == geo.region
         && forall f :: g.commit(f) <==> Installed(Environment(), geo, end.WithFlash(f))
    }

    /** From here on the slot may be valid, provided it is completely installed. */
    ghost method SealGuard(end: State)
      requires Sealed() && end == Commit(spec)
      modifies mem.flash`guard
      ensures mem.Valid() && SealedFor(end) && mem.flash.cells == spec.flash
      ensures mem.flash.MayCommit(InfoAddr(spec.trial, Status), [STATUS_VALID])
    {
      hide GeometryKnown, Installed, HoldsTable, FreeCount, Word, And;
      var env, where, fin := Environment(), geo, end;
      mem.flash.guard := Some(mem.flash.guard.value.(commit := f => Installed(env, where, fin.WithFlash(f))));
      assert end.WithFlash(end.flash) == end;
    }

    // The start of a session

    /** A new context; the handle the old one held, if any, stays taken. */
    method SessionInit()
      requires mem.Valid()
      modifies this, mem.flash`faulted, mem.flash`guard
      ensures Blank() && state == NotStart && !mem.flash.faulted && spec == Fresh(mem.flash.cells)
      ensures Spare() == old(Spare()) - old(Held())
      ensures mem.Valid() && mem.flash.guard == None
    {
      ClearCounters();
      ClearTrial();
      active, isFirst, state := true, true, NotStart;
      digest, configBuf, imageHdr := [], [], [];
      mem.flash.faulted, mem.flash.guard := false, None;
      spec := Fresh(mem.flash.cells);
    }

    method ClearCounters()
      modifies this`bufLen, this`bufOffset, this`imageIndex, this`imageWrtCount, this`imageWrtLength, this`totalImages,
        this`hiddenImagesCount
      ensures imageIndex == imageWrtLength == hiddenImagesCount == bufOffset == 0
    {
      bufLen, bufOffset, imageIndex, imageWrtCount, imageWrtLength, totalImages, hiddenImagesCount := 0, 0, 0, 0, 0, 0, 0;
    }

    method ClearTrial()
      modifies this`trialMemStart, this`trialMemSize, this`trialFwdIdx, this`trialSblStart, this`partitionHdl
      ensures partitionHdl == -1
    {
      trialMemStart, trialMemSize, trialFwdIdx, trialSblStart, partitionHdl := 0, 0, 0, 0, -1;
    }

    /** A context that has not been used. */
    ghost predicate Blank()
      reads this
    {
      active && isFirst && imageIndex == 0 && imageWrtLength == 0 && hiddenImagesCount == 0 && partitionHdl == -1 && configBuf == []
    }

    /** The slot and the region are chosen, and nothing has been touched. */
    ghost predicate Chosen()
      reads this, mem.flash, mem.handles
    {
      && mem.Valid() && !mem.flash.faulted && Blank() && Prepared() && mem.flash.guard == None
      && Ready(Environment(), mem.flash.cells)
      && var sel := Select(mem.mode, mem.flash.cells, mem.active);
         && sel.Some? && sel.value.fwd != mem.active
         && spec == Fresh(mem.flash.cells).(trial := sel.value.fwd, cursor := sel.value.region.start, space := sel.value.region.size)
    }

    /** The selection, with the pool as it was found. */
    method ChooseSlot() returns (sel: Option<Selection>)
      requires mem.Valid() && FreeCount(mem.handles[..]) >= 2
      modifies mem.handles
      ensures sel == Select(mem.mode, mem.flash.cells, mem.active)
      ensures FreeCount(mem.handles[..]) == old(FreeCount(mem.handles[..]))
    {
      hide Select, FreeCount;
      sel := mem.SelectTrialFwd();
      SamePoolSameCount(old(mem.handles[..]), mem.handles[..]);
    }

    /** Locates the slot and the region for the upgrade. */
    method GetTrialInfo() returns (rc: Code)
      requires mem.Valid() && !mem.flash.faulted && FreeCount(mem.handles[..]) >= 2 && Blank() && mem.flash.guard == None
      requires spec == Fresh(mem.flash.cells) && Ready(Environment(), mem.flash.cells)
      modifies this`spec, this`state, this`trialFwdIdx, this`trialMemStart, this`trialMemSize, mem.handles
      ensures Spare() == old(Spare())
      ensures rc == Ok ==>
                && Chosen() && state == EraseFwd
                && Begin(Environment(), mem.flash.cells) == BeginErase(Environment(), spec)
      ensures rc != Ok ==>
                mem.Valid() && spec.phase == Failed(rc) && spec == Begin(Environment(), mem.flash.cells) && spec.flash == mem.flash.cells
    {
      hide Select, Begin, BeginErase, Ready, FreeCount, Flash.Valid, Chosen, Blank;
      BeginCases(Environment(), mem.flash.cells, spec);
      var sel := ChooseSlot();
      if sel == None {
        rc := FlashNotSupportFwUpgrade;
        spec := spec.Fail(rc);
      } else {
        rc := Adopt(sel.value);
      }
    }

    method SetTrial(sel: Selection)
      modifies this`spec, this`trialFwdIdx, this`trialMemStart, this`trialMemSize
      ensures trialFwdIdx == sel.fwd && trialMemStart == sel.region.start && trialMemSize == sel.region.size
      ensures spec == old(spec).(trial := sel.fwd, cursor := sel.region.start, space := sel.region.size)
    {
      trialFwdIdx, trialMemStart, trialMemSize := sel.fwd, sel.region.start, sel.region.size;
      spec := spec.(trial := trialFwdIdx, cursor := trialMemStart, space := trialMemSize);
    }

    /** Takes the selection over, unless it is the running slot. */
    method Adopt(sel: Selection) returns (rc: Code)
      requires mem.Valid() && mem.handles.Length == MAX_HANDLES && !mem.flash.faulted && FreeCount(mem.handles[..]) >= 2 && Blank() && mem.flash.guard == None
      requires spec == Fresh(mem.flash.cells) && Ready(Environment(), mem.flash.cells)
      requires Select(mem.mode, mem.flash.cells, mem.active) == Some(sel)
      modifies this`spec, this`state, this`trialFwdIdx, this`trialMemStart, this`trialMemSize
      ensures rc == Ok ==>
                && Chosen() && state == EraseFwd
                && Begin(Environment(), mem.flash.cells) == BeginErase(Environment(), spec)
      ensures rc != Ok ==> spec.phase == Failed(rc) && spec == Begin(Environment(), mem.flash.cells) && spec.flash == mem.flash.cells
    {
      hide Select, Begin, BeginErase, Ready, FreeCount, Mem.Valid, Flash.Valid;
      SetTrial(sel);
      BeginCases(Environment(), mem.flash.cells, spec);
      if mem.active == trialFwdIdx {
        rc := TrialIsRunning;
        spec := spec.Fail(rc);
      } else {
        rc := Ok;
        state := EraseFwd;
      }
    }

    /** The descriptor is erased, and from now on the session is guarded. */
    ghost predicate Erasing()
      reads this, mem.flash, mem.handles
    {
      && Guarded() && !mem.flash.faulted && mem.handles.Length == MAX_HANDLES && Prepared() && configBuf == []
      && Erased1(Environment(), geo, spec) && spec.cfg == []
    }

    /** Erases the descriptor of the slot. */
    method EraseDescriptor() returns (rc: Code)
      requires Chosen() && state == EraseFwd
      modifies this`spec, this`geo, this`state, mem.flash
      ensures geo.base == old(mem.flash.cells) && mem.flash.guard.Some?
      ensures Protected()
      ensures rc == Ok ==>
                && Erasing() && spec.table == [] && state == EraseSecondFs
                && BeginErase(Environment(), old(spec)) == BeginSecondFs(Environment(), spec)
      ensures rc != Ok ==> rc == FlashEraseFail && mem.flash.faulted && spec.phase == Failed(rc)
    {
      hide Select, BeginSecondFs, DescriptorInv, Find, FreeCount, GeometryKnown, Starting, Ready, Protected, GuardedAt, StartGuard,
        PartlyErased;
      FixGeometry();
      ErasedDescriptor(Environment(), geo, spec);
      rc := mem.EraseFwd(trialFwdIdx);
      if rc != Ok {
        rc := FlashEraseFail;
        spec := spec.WithFlash(mem.flash.cells).Fail(rc);
        TornEraseIsProtected();
        return;
      }
      spec := spec.WithFlash(mem.flash.cells);
      ArmGuard();
      GuardedIsProtected();
      state := EraseSecondFs;
    }

    /** The areas of the session, from the flash as it is now. */
    ghost method FixGeometry()
      requires Chosen()
      modifies this`geo, mem.flash`guard, mem.flash`history
      ensures geo.base == mem.flash.cells && geo.trial == spec.trial < MAX_FWD && GeometryKnown(Environment(), geo)
      ensures mem.Valid() && mem.flash.history == []
      ensures mem.flash.guard == Some(StartGuard())
      ensures mem.flash.MayErase(geo.trial * BLOCK_SIZE, BLOCK_SIZE)
      ensures Starting(Environment(), geo, spec) && MAX_FWD * BLOCK_SIZE <= |geo.base|
    {
      hide Select, Find, FreeCount, Disjoint, Flash.Valid, Flash.MayErase, StartGuard;
      geo := GeometryOf(Environment(), mem.flash.cells, Select(mem.mode, mem.flash.cells, mem.active).value);
      GuardSession();
    }

    lemma TornEraseIsProtected()
      requires mem.Valid() && mem.flash.cells == spec.flash && GeometryKnown(Environment(), geo)
      requires mem.flash.guard == Some(StartGuard()) && mem.flash.history == [mem.flash.cells]
      requires PartlyErased(geo.base, mem.flash.cells, geo.trial * BLOCK_SIZE, BLOCK_SIZE)
      ensures Protected()
    {
      hide GeometryKnown;
    }

    /** The guard of a new session: the status of a slot that is valid does not count until its descriptor is erased. */
    ghost function StartGuard(): Guard
      reads this`geo
    {
      var valid := Cell(geo.base, InfoAddr(geo.trial, Status)) == STATUS_VALID;
      Guard(geo.base, geo.trial, !valid, geo.fs2, geo.ramdump, geo.region, NeverCommitted)
    }

    ghost method GuardSession()
      requires mem.Valid() && geo.trial < MAX_FWD && geo.base == mem.flash.cells
      modifies mem.flash`guard, mem.flash`history
      ensures mem.Valid() && mem.flash.history == []
      ensures mem.flash.guard == Some(StartGuard())
      ensures mem.flash.MayErase(geo.trial * BLOCK_SIZE, BLOCK_SIZE)
    {
      mem.flash.guard := Some(StartGuard());
      mem.flash.history := [];
    }

    /** With the status erased, it counts. */
    ghost method ArmGuard()
      requires mem.Valid() && mem.flash.history == [mem.flash.cells] && mem.flash.cells == spec.flash
      requires mem.flash.guard == Some(StartGuard())
      requires geo.trial == spec.trial && DescriptorInv(spec) && GeometryKnown(Environment(), geo)
      modifies mem.flash`guard
      ensures Guarded() && mem.flash.guard.Some?
    {
      hide GeometryKnown, HoldsTable;
      mem.flash.guard := Some(mem.flash.guard.value.(armed := true));
      assert Cell(spec.flash, InfoAddr(spec.trial, Status)) == 0xFF;
    }

    /** Opens one of the running slot's reserved partitions. */
    method OpenReserved(id: uint32) returns (rc: Code, e: Entry)
      requires mem.Valid() && FreeCount(mem.handles[..]) >= 1 && partitionHdl == -1
      modifies this`partitionHdl, mem.handles
      ensures Spare() == old(Spare())
      ensures rc == Ok <==> Find(mem.flash.cells, mem.active, id).Some?
      ensures rc == Ok ==>
                && Some(e) == Find(mem.flash.cells, mem.active, id) && e.id == id
                && mem.HandleValid(partitionHdl) && mem.handles[partitionHdl].image == e
                && FreeCount(mem.handles[..]) == old(FreeCount(mem.handles[..])) - 1
      ensures rc != Ok ==> partitionHdl == old(partitionHdl) && mem.handles[..] == old(mem.handles[..])
    {
      hide FreeCount, FindFrom, Scaled;
      ghost var p0 := mem.handles[..];
      var hdl;
      rc, hdl := mem.FindPartition(mem.active, id);
      e := Entry(id, 0, 0, 0);
      if rc == Ok {
        FreeCountUpdate(p0, hdl, mem.handles[hdl]);
        partitionHdl := hdl;
        e := mem.handles[hdl].image;
      }
    }

    /** Erases the running slot's second file system, where the new one will go. */
    method EraseSecond() returns (rc: Code)
      requires Erasing() && spec.table == [] && state == EraseSecondFs
      modifies this`spec, this`state, this`partitionHdl, mem.handles, mem.flash`cells, mem.flash`faulted, mem.flash`history
      ensures Guarded() && mem.handles.Length == MAX_HANDLES && Spare() == old(Spare())
      ensures rc != Ok ==> mem.flash.faulted || partitionHdl == -1 || EmptyScratch(Environment(), geo.base)
      ensures rc == Ok ==>
                && Erasing() && spec.table == [] && state == PrepareFs
                && NorFlash.Blank(spec.flash, geo.fs2.start, geo.fs2.size) && Find(geo.base, mem.active, FS2_IMG_ID).Some?
                && BeginSecondFs(Environment(), old(spec)) == BeginFirstFs(Environment(), spec)
      ensures rc != Ok ==> spec.phase == Failed(rc) && (mem.flash.faulted || spec == BeginSecondFs(Environment(), old(spec)))
    {
      hide GuardedAt, Find, FreeCount, Erased1, BeginFirstFs, BeginSecondFs, NorFlash.Blank, Spare, EmptyScratch;
      CellsOfSpec();
      SecondFsFacts(Environment(), geo, spec);
      var e;
      rc, e := OpenReserved(FS2_IMG_ID);
      if rc != Ok {
        rc := FlashImageNotFound;
        spec := spec.Fail(rc);
        return;
      }
      rc := EraseOpened(e);
    }

    /** The rest of `EraseSecond`, once the partition is open. */
    method EraseOpened(e: Entry) returns (rc: Code)
      requires Guarded() && !mem.flash.faulted && mem.handles.Length == MAX_HANDLES && TrialKnown() && configBuf == []
      requires Erased1(Environment(), geo, spec) && spec.cfg == [] && spec.table == [] && Find(spec.flash, mem.active, FS2_IMG_ID) == Some(e)
      requires mem.HandleValid(partitionHdl) && mem.handles[partitionHdl].image == e && FreeCount(mem.handles[..]) >= 1
      modifies this`spec, this`state, this`partitionHdl, mem.handles, mem.flash`cells, mem.flash`faulted, mem.flash`history
      ensures Guarded() && mem.handles.Length == MAX_HANDLES && Spare() == old(Spare())
      ensures rc != Ok ==> mem.flash.faulted || EmptyScratch(Environment(), geo.base)
      ensures rc == Ok ==>
                && Erasing() && spec.table == [] && state == PrepareFs
                && NorFlash.Blank(spec.flash, geo.fs2.start, geo.fs2.size) && Find(geo.base, mem.active, FS2_IMG_ID).Some?
                && BeginSecondFs(Environment(), old(spec)) == BeginFirstFs(Environment(), spec)
      ensures rc != Ok ==> spec.phase == Failed(rc) && (mem.flash.faulted || spec == BeginSecondFs(Environment(), old(spec)))
    {
      hide GuardedAt, DescriptorInv, Find, FreeCount, Erased1, BeginFirstFs, BeginSecondFs, OwnPartition, Erased, NorFlash.Blank, Spare;
      SecondFsFacts(Environment(), geo, spec);
      rc := EraseBlocks(partitionHdl, 0, e.size, e);
      if rc == Ok {
        ReleasePartition();
        state := PrepareFs;
      }
    }

    /** Adds an entry for a partition the upgrade does not download. */
    method CreateHidden(e: Entry) returns (rc: Code)
      requires Erasing() && e.id != IMAGE_UNUSED
      modifies this`spec, this`partitionHdl, this`hiddenImagesCount, mem.handles, mem.flash`cells, mem.flash`faulted, mem.flash`history
      ensures Guarded() && mem.handles.Length == MAX_HANDLES && Spare() == old(Spare()) && (rc != Ok ==> partitionHdl == -1)
      ensures rc == Ok ==>
                && Erasing() && AddEntry(old(spec), e).phase == Config
                && spec == AddEntry(old(spec), e).(hidden := old(spec).hidden + 1)
      ensures rc != Ok ==> spec.phase == Failed(rc) && (mem.flash.faulted || spec == AddEntry(old(spec), e))
    {
      hide GuardedAt, DescriptorInv, CanCreate, Created, FreeCount, HoldsTable, AddEntry, Starting, NorFlash.Blank;
      ghost var s0 := spec;
      HiddenAdded(Environment(), geo, spec, e);
      StartingFields(Environment(), geo, spec);
      rc := CreateImage(e);
      if rc != Ok {
        return;
      }
      hiddenImagesCount := hiddenImagesCount + 1;
      spec := spec.(hidden := spec.hidden + 1);
      ReleasePartition();
    }

    /** The running slot's first file system is what the trial slot will have as its second. */
    method PrepareFirstFs() returns (rc: Code)
      requires Erasing()
      modifies this`spec, this`partitionHdl, this`hiddenImagesCount, mem.handles, mem.flash`cells, mem.flash`faulted, mem.flash`history
      ensures Guarded() && mem.handles.Length == MAX_HANDLES && Spare() == old(Spare()) && (rc != Ok ==> partitionHdl == -1)
      ensures rc == Ok ==> Erasing() && BeginFirstFs(Environment(), old(spec)) == BeginRamdump(Environment(), spec)
      ensures rc != Ok ==> spec.phase == Failed(rc) && (mem.flash.faulted || spec == BeginFirstFs(Environment(), old(spec)))
    {
      hide GuardedAt, DescriptorInv, Find, FreeCount, Erased1, BeginRamdump, AddEntry;
      CellsOfSpec();
      StartingFields(Environment(), geo, spec);
      var e;
      rc, e := OpenReserved(FS1_IMG_ID);
      if rc != Ok {
        rc := FlashImageNotFound;
        spec := spec.Fail(rc);
        return;
      }
      ReleasePartition();
      AddEntryHidden(spec, e.(id := FS2_IMG_ID));
      rc := CreateHidden(e.(id := FS2_IMG_ID));
    }

    /** The RAM dump partition is erased if in use, and listed. */
    method PrepareRamdump() returns (rc: Code)
      requires Erasing()
      modifies this`spec, this`partitionHdl, this`hiddenImagesCount, mem.handles, mem.flash`cells, mem.flash`faulted, mem.flash`history
      ensures Guarded() && mem.handles.Length == MAX_HANDLES && Spare() == old(Spare())
      ensures rc != Ok ==> mem.flash.faulted || partitionHdl == -1 || EmptyScratch(Environment(), geo.base)
      ensures rc == Ok ==> Erasing() && BeginRamdump(Environment(), old(spec)) == BeginUserdata(Environment(), spec)
      ensures rc != Ok ==> spec.phase == Failed(rc) && (mem.flash.faulted || spec == BeginRamdump(Environment(), old(spec)))
    {
      hide GuardedAt, DescriptorInv, Find, FreeCount, Erased1, BeginRamdump, BeginUserdata, AddEntry, OwnPartition, Word, InBounds, Erased;
      CellsOfSpec();
      StartingFields(Environment(), geo, spec);
      RamdumpFacts(Environment(), geo, spec);
      var e;
      rc, e := OpenReserved(RAMDUMP_IMG_ID);
      if rc != Ok {
        return Ok;
      }
      ghost var s0 := spec;
      rc := EraseIfUsed(partitionHdl, e);
      if rc != Ok {
        if !mem.flash.faulted {
          ShortIsEmpty(Environment(), geo, s0, e);
        }
        return;
      }
      ReleasePartition();
      rc := CreateHidden(e);
    }

    /** Erases a partition unless its first word reads as erased. */
    method EraseIfUsed(h: int, e: Entry) returns (rc: Code)
      requires Guarded() && DescriptorInv(spec) && HandleOn(h, e) && !mem.flash.faulted && e.id != SBL_IMG_ID
      modifies this`spec, mem.flash`cells, mem.flash`faulted, mem.flash`history
      ensures Guarded()
      ensures rc == Ok ==>
                && !mem.flash.faulted && HandleOn(h, e) && InBounds(e, 0, 4) && e.start + 4 <= |old(spec).flash|
                && (if Word(old(spec).flash, e.start) != 0xFFFF_FFFF
                    then e.size > 0 && spec == old(spec).WithFlash(Erased(old(spec).flash, e.start, e.size)) else spec == old(spec))
      ensures rc != Ok ==>
                && spec.phase == Failed(rc) && rc == FlashErasePartition
                && (mem.flash.faulted
                    || (spec == old(spec).Fail(rc)
                        && (!(InBounds(e, 0, 4) && e.start + 4 <= |old(spec).flash|)
                            || (Word(old(spec).flash, e.start) != 0xFFFF_FFFF && e.size == 0))))
    {
      hide GeometryKnown, GuardedAt, DescriptorInv, OwnPartition, FromLe32, InBounds, Erased;
      CellsOfSpec();
      SizeAligned(geo, |spec.flash|, e);
      var data;
      rc, data := mem.ReadPartition(h, 0, 4);
      if rc != Ok {
        rc := FlashErasePartition;
        spec := spec.Fail(rc);
        return;
      }
      FirstWord(spec.flash, e.start, data);
      if Word(data, 0) != 0xFFFF_FFFF {
        rc := EraseBlocks(h, 0, e.size, e);
      }
    }

    /** The user data partition is listed. */
    method PrepareUserdata() returns (rc: Code)
      requires Erasing()
      modifies this`spec, this`partitionHdl, this`hiddenImagesCount, mem.handles, mem.flash`cells, mem.flash`faulted, mem.flash`history
      ensures Guarded() && mem.handles.Length == MAX_HANDLES && Spare() == old(Spare()) && (rc != Ok ==> partitionHdl == -1)
      ensures rc == Ok ==> Erasing() && BeginUserdata(Environment(), old(spec)) == spec
      ensures rc != Ok ==> spec.phase == Failed(rc) && (mem.flash.faulted || spec == BeginUserdata(Environment(), old(spec)))
    {
      hide GuardedAt, DescriptorInv, Find, FreeCount, Erased1, AddEntry;
      CellsOfSpec();
      StartingFields(Environment(), geo, spec);
      var e;
      rc, e := OpenReserved(USERDATA_IMG_ID);
      if rc != Ok {
        return Ok;
      }
      ReleasePartition();
      AddEntryHidden(spec, e);
      rc := CreateHidden(e);
    }

    /** Lists the partitions the trial slot takes over. */
    method Prepare() returns (rc: Code)
      requires Erasing() && spec.table == [] && NorFlash.Blank(spec.flash, geo.fs2.start, geo.fs2.size)
      requires Find(geo.base, mem.active, FS2_IMG_ID).Some? && state == PrepareFs
      modifies this`spec, this`state, this`partitionHdl, this`hiddenImagesCount, mem.handles
      modifies mem.flash`cells, mem.flash`faulted, mem.flash`history
      ensures Guarded() && mem.handles.Length == MAX_HANDLES && Spare() == old(Spare())
      ensures rc != Ok ==> mem.flash.faulted || partitionHdl == -1 || EmptyScratch(Environment(), geo.base)
      ensures rc == Ok ==> Collecting() && configBuf == [] && state == PrepareConnect && spec == BeginFirstFs(Environment(), old(spec))
      ensures rc != Ok ==> spec.phase == Failed(rc) && (mem.flash.faulted || spec == BeginFirstFs(Environment(), old(spec)))
    {
      hide GuardedAt, DescriptorInv, FreeCount, BeginFirstFs, BeginRamdump, BeginUserdata, Find, Starting, NorFlash.Blank, HiddenTable;
      BeginFirstFsKeeps(Environment(), geo, spec);
      rc := PrepareFirstFs();
      if rc != Ok {
        return;
      }
      rc := PrepareRamdump();
      if rc != Ok {
        return;
      }
      rc := PrepareUserdata();
      if rc != Ok {
        return;
      }
      StartingFields(Environment(), geo, spec);
      state := PrepareConnect;
    }

    // The state machine

    /** What each state takes for granted while packet `data` is handled. */
    ghost predicate At(data: seq<byte>)
      reads this, mem.flash, mem.handles
    {
      && mem.handles.Length == MAX_HANDLES && !mem.flash.faulted && bufOffset <= |data|
      && (Before(state) ==> bufOffset == 0)
      && (spec.phase == Config && bufOffset == 0 ==> SaneStream(Environment(), spec.cfg + data))
      && match state
         case NotStart => Untouched()
         case GetTrialInfo => Untouched()
         case EraseFwd => Chosen()
         case EraseSecondFs => Erasing() && spec.table == []
         case PrepareFs =>
           && Erasing() && spec.table == [] && NorFlash.Blank(spec.flash, geo.fs2.start, geo.fs2.size)
           && Find(geo.base, mem.active, FS2_IMG_ID).Some?
         case PrepareConnect => Collecting() && isFirst
         case Connect => Collecting() && isFirst
         case ReceiveData =>
           (bufOffset == 0 || bufOffset == |data|) && (if isFirst then Collecting() else Receiving() && spec.Receiving() && Unfinished())
         case ProcessConfigFile => Collecting() && isFirst && bufOffset == 0 && bufLen == |data|
         case ProcessImage => !isFirst && Receiving() && spec.Receiving() && Unfinished() && bufLen == |data| && bufOffset < |data|
         case DuplicateFs => Receiving() && spec.index == |spec.hdrs|
         case Finish => Sealed()
    }

    /** The states before the packet's bytes are looked at. */
    predicate Before(state: FwState) {
      state in {NotStart, FwState.GetTrialInfo, EraseFwd, EraseSecondFs, PrepareFs, PrepareConnect, Connect}
    }

    ghost predicate Untouched()
      reads this, mem.flash, mem.handles
    {
      && mem.Valid() && Blank() && FreeCount(mem.handles[..]) >= 2 && mem.flash.guard == None
      && spec == Fresh(mem.flash.cells) && Ready(Environment(), mem.flash.cells)
    }

    /** What the reference model makes of the rest of the packet. */
    ghost function Pending(data: seq<byte>): State
      reads this
      requires bufOffset <= |data|
    {
      match state
      case NotStart => Fed(Environment(), Begin(Environment(), spec.flash), data)
      case GetTrialInfo => Fed(Environment(), Begin(Environment(), spec.flash), data)
      case EraseFwd => Fed(Environment(), BeginErase(Environment(), spec), data)
      case EraseSecondFs => Fed(Environment(), BeginSecondFs(Environment(), spec), data)
      case PrepareFs => Fed(Environment(), BeginFirstFs(Environment(), spec), data)
      case PrepareConnect => Fed(Environment(), spec, data)
      case Connect => Fed(Environment(), spec, data)
      case ReceiveData => if bufOffset == 0 then Fed(Environment(), spec, data) else spec
      case ProcessConfigFile => Fed(Environment(), spec, data)
      case ProcessImage => Consume(Environment(), spec, data[bufOffset..])
      case DuplicateFs => Due(Environment(), spec)
      case Finish => Commit(spec)
    }

    /** Either the session goes on as the reference model says, or it has failed as the reference model has. */
    ghost predicate Outcome(rc: Code, data: seq<byte>, goal: State)
      reads this, mem.flash, mem.handles
    {
      if rc == Ok then At(data) && Pending(data) == goal
      else Protected() && spec.phase == Failed(rc) && (mem.flash.faulted || spec == goal) && LetGo()
    }

    /** The flash as the session found it. */
    ghost function Origin(): seq<byte>
      reads this`geo, mem.flash
    {
      if mem.flash.guard == None then mem.flash.cells else geo.base
    }

    method StepGetTrialInfo(ghost data: seq<byte>) returns (rc: Code)
      requires At(data) && state == FwState.GetTrialInfo && data != []
      modifies this, mem.handles
      ensures Origin() == old(Origin()) && Spare() == old(Spare())
      ensures Outcome(rc, data, old(Pending(data))) && (rc == Ok ==> state == EraseFwd && bufOffset == 0)
    {
      hide Select, BeginErase, Ready, FreeCount, Begin, SaneStream, Consume;
      rc := GetTrialInfo();
      if rc != Ok {
        ConsumeWhenOver(Environment(), spec, data);
      }
    }

    method StepEraseFwd(ghost data: seq<byte>) returns (rc: Code)
      requires At(data) && state == EraseFwd && data != []
      modifies this`spec, this`geo, this`state, mem.flash
      ensures Origin() == old(Origin())
      ensures Outcome(rc, data, old(Pending(data))) && (rc == Ok ==> state == EraseSecondFs && bufOffset == 0)
    {
      hide Select, BeginErase, BeginSecondFs, Ready, FreeCount, SaneStream, Consume, Erased1, GuardedAt, Protected;
      rc := EraseDescriptor();
    }

    method StepEraseSecondFs(ghost data: seq<byte>) returns (rc: Code)
      requires At(data) && state == EraseSecondFs && data != []
      modifies this`spec, this`state, this`partitionHdl, mem.handles, mem.flash`cells, mem.flash`faulted, mem.flash`history
      ensures Origin() == old(Origin()) && Spare() == old(Spare())
      ensures Outcome(rc, data, old(Pending(data))) && (rc == Ok ==> state == PrepareFs && bufOffset == 0)
    {
      hide BeginSecondFs, BeginFirstFs, FreeCount, SaneStream, Consume, Erased1, GuardedAt, Protected, Find, NorFlash.Blank;
      GuardPresent();
      StartingFields(Environment(), geo, spec);
      rc := EraseSecond();
      if rc != Ok {
        GuardedIsProtected();
        ConsumeWhenOver(Environment(), spec, data);
      }
    }

    method StepPrepareFs(ghost data: seq<byte>) returns (rc: Code)
      requires At(data) && state == PrepareFs && data != []
      modifies this`spec, this`state, this`partitionHdl, this`hiddenImagesCount, mem.handles
      modifies mem.flash`cells, mem.flash`faulted, mem.flash`history
      ensures Origin() == old(Origin()) && Spare() == old(Spare())
      ensures Outcome(rc, data, old(Pending(data))) && (rc == Ok ==> state == PrepareConnect && bufOffset == 0)
    {
      hide BeginFirstFs, FreeCount, SaneStream, Consume, Erased1, GuardedAt, Protected, Find, NorFlash.Blank, SessionInv;
      GuardPresent();
      StartingFields(Environment(), geo, spec);
      rc := Prepare();
      if rc != Ok {
        GuardedIsProtected();
        ConsumeWhenOver(Environment(), spec, data);
      }
    }

    lemma ReceivingFields(data: seq<byte>)
      requires At(data) && state == ReceiveData
      ensures (Collecting() ==> spec.phase == Config) && (Receiving() ==> spec.phase != Config && !isFirst)
    {
      hide FreeCount, SaneStream, GuardedAt, SessionInv, Unfinished;
      if Receiving() {
        IndexOfReceiving(Environment(), geo, spec);
      }
    }

    /** Looks whether the packet has bytes left. */
    method StepReceiveData(data: seq<byte>) returns (more: bool)
      requires At(data) && state == ReceiveData && data != []
      modifies this`bufLen, this`bufOffset, this`state
      ensures Origin() == old(Origin())
      ensures At(data) && Pending(data) == old(Pending(data)) && bufOffset == old(bufOffset)
      ensures more == (bufOffset == 0) && state == if !more then ReceiveData else if isFirst then FwState.ProcessConfigFile else ProcessImage
    {
      hide Collecting, Receiving, SaneStream, Consume, Unfinished;
      ReceivingFields(data);
      var received := |data| - bufOffset;
      more := received > 0;
      if more {
        bufLen := received;
        bufOffset := 0;
        state := if isFirst then FwState.ProcessConfigFile else ProcessImage;
        assert data[0..] == data;
      }
    }

    method StepProcessConfigFile(data: seq<byte>) returns (rc: Code)
      requires At(data) && state == FwState.ProcessConfigFile && data != []
      modifies this, mem.flash`cells, mem.flash`faulted, mem.flash`history
      ensures Origin() == old(Origin()) && Spare() == old(Spare())
      ensures Outcome(rc, data, old(Pending(data))) && (rc == Ok ==> state in {ReceiveData, ProcessImage} && bufOffset > 0)
    {
      hide FreeCount, SaneStream, Consume, GuardedAt, SessionInv, ReceiveInv, Protected;
      GuardPresent();
      rc := ProcessConfigFile(data);
      if rc != Ok {
        GuardedIsProtected();
      } else if !isFirst && bufOffset == |data| {
        NothingLeft(Environment(), spec, data[bufOffset..]);
      }
    }

    method StepProcessImage(data: seq<byte>) returns (rc: Code)
      requires At(data) && state == ProcessImage && data != []
      modifies this, mem.handles, mem.flash`cells, mem.flash`faulted, mem.flash`history
      ensures Origin() == old(Origin()) && Spare() == old(Spare())
      ensures Outcome(rc, data, old(Pending(data)))
      ensures rc == Ok ==> bufOffset >= old(bufOffset) && (if state == ReceiveData then bufOffset == |data| else state == DuplicateFs)
    {
      hide SaneStream, Consume, GuardedAt, Receiving, Collecting, Unfinished, Protected, Due, Spare;
      ReceivingFacts();
      GuardPresent();
      rc := ProcessReceiveImage(data);
      if rc != Ok {
        GuardedIsProtected();
      } else {
        ReceivingFacts();
        if state == ProcessImage {
          DueWhileReceiving(Environment(), spec);
          state := ReceiveData;
        }
      }
    }

    method StepDuplicateFs(ghost data: seq<byte>) returns (rc: Code)
      requires At(data) && state == DuplicateFs
      ensures Origin() == old(Origin()) && Spare() == old(Spare())
      ensures bufOffset == old(bufOffset)
      modifies this`spec, this`state, mem.handles, mem.flash`cells, mem.flash`faulted, mem.flash`history
      ensures Outcome(rc, data, old(Pending(data))) && (rc == Ok ==> state == Finish)
    {
      hide SaneStream, GuardedAt, Receiving, Collecting, Unfinished, Protected, CopyFileSystem, Sealed, Commit, AllReceived, FreeCount;
      ReceivingFacts();
      GuardPresent();
      NothingOpen();
      rc := ProcessDuplicateFs();
      if rc != Ok {
        GuardedIsProtected();
      } else {
        state := Finish;
      }
    }

    /** The states that only lead on to the next one. */
    method StepOn(ghost data: seq<byte>)
      requires At(data) && (state == NotStart || state == PrepareConnect || state == Connect)
      modifies this`state
      ensures Origin() == old(Origin())
      ensures At(data) && Pending(data) == old(Pending(data)) && bufOffset == old(bufOffset) == 0
      ensures state == match old(state) case NotStart => FwState.GetTrialInfo case PrepareConnect => Connect case _ => ReceiveData
    {
      hide FreeCount, SaneStream, Consume, GuardedAt, SessionInv, ReceiveInv, Begin, Ready;
      state := match state case NotStart => FwState.GetTrialInfo case PrepareConnect => Connect case _ => ReceiveData;
    }

    method StepFinish(ghost data: seq<byte>)
      requires At(data) && state == Finish
      modifies this`spec, this`active, mem.handles, mem.flash
      ensures Origin() == old(Origin()) && partitionHdl == -1 && Spare() == old(Spare()) - Lost(Ok)
      ensures Protected() && !active && spec.phase == Finished && (mem.flash.faulted || spec == old(Pending(data)))
      ensures bufOffset == old(bufOffset)
    {
      hide FreeCount, SaneStream, GuardedAt, Protected, Installed, DescriptorInv;
      GuardPresent();
      SessionFinalize();
    }

    /** A session between two packets. */
    ghost predicate Resting()
      reads this, mem.flash, mem.handles
    {
      && mem.handles.Length == MAX_HANDLES && !mem.flash.faulted && active && state == ReceiveData
      && if isFirst then Collecting() else Receiving() && spec.Receiving() && Unfinished()
    }

    /** The packet is dealt with: the session waits for the next one, is complete, or has failed. */
    ghost predicate Settled(rc: Code, goal: State)
      reads this, mem.flash, mem.handles
    {
      && Protected() && (mem.flash.faulted || spec == goal)
      && if rc != Ok then spec.phase == Failed(rc) && LetGo()
         else if spec.phase == Finished then !active && partitionHdl == -1
         else Resting()
    }

    lemma SettledIsValid(rc: Code)
      requires exists goal: State :: Settled(rc, goal)
      ensures mem.Valid()
    {
      hide Installed, Frame, Resting, GeometryKnown;
    }

    lemma RestingIsSettled(data: seq<byte>)
      requires At(data) && state == ReceiveData && bufOffset == |data| > 0
      ensures Settled(Ok, Pending(data)) && Lost(Ok) == 0
    {
      hide FreeCount, SaneStream, Consume, SessionInv, ReceiveInv, GuardedAt, Protected;
      GuardedIsProtected();
    }

    /** Between packets the session holds a handle exactly while an image is open. */
    lemma RestingHolds()
      requires Resting()
      ensures Held() == (if spec.open.Some? then 1 else 0) && FreeCount(mem.handles[..]) >= 1
      ensures spec.phase == Config || spec.phase == Images
    {
      hide FreeCount, SaneStream, Consume, GuardedAt, ReceiveInv;
      if !isFirst {
        IndexOfReceiving(Environment(), geo, spec);
      } else {
        CollectingFields(Environment(), geo, spec);
      }
    }

    /** How far the states are from the end. */
    function Rank(state: FwState): nat {
      match state
      case NotStart => 10
      case GetTrialInfo => 9
      case EraseFwd => 8
      case EraseSecondFs => 7
      case PrepareFs => 6
      case PrepareConnect => 5
      case Connect => 4
      case ReceiveData => 3
      case ProcessConfigFile => 2
      case ProcessImage => 2
      case DuplicateFs => 1
      case Finish => 0
    }

    /** One round of the state machine. */
    method Dispatch(data: seq<byte>) returns (rc: Code, run: bool)
      requires At(data) && data != []
      modifies this, mem.handles, mem.flash
      ensures Origin() == old(Origin()) && Spare() == old(Spare()) - (if run then 0 else Lost(rc))
      ensures run ==>
                && rc == Ok && At(data) && Pending(data) == old(Pending(data))
                && (bufOffset > old(bufOffset) || (bufOffset == old(bufOffset) && Rank(state) < Rank(old(state))))
      ensures !run ==> Settled(rc, old(Pending(data)))
    {
      hide At, Pending, Protected, Resting, Blank, Spare, Find, LetGo;
      OffsetWithin(data);
      rc, run := Ok, true;
      match state {
        case NotStart => StepOn(data);
        case GetTrialInfo => rc := StepGetTrialInfo(data);
        case EraseFwd => rc := StepEraseFwd(data);
        case EraseSecondFs => rc := StepEraseSecondFs(data);
        case PrepareFs => rc := StepPrepareFs(data);
        case PrepareConnect => StepOn(data);
        case Connect => StepOn(data);
        case ReceiveData =>
          run := StepReceiveData(data);
          if !run {
            OffsetAtEnds(data);
            RestingIsSettled(data);
          }
        case ProcessConfigFile => rc := StepProcessConfigFile(data);
        case ProcessImage => rc := StepProcessImage(data);
        case DuplicateFs => rc := StepDuplicateFs(data);
        case Finish =>
          StepFinish(data);
          run := false;
      }
      run := run && rc == Ok;
    }

    lemma OffsetWithin(data: seq<byte>)
      requires At(data)
      ensures bufOffset <= |data| && mem.handles.Length == MAX_HANDLES
      ensures state == ProcessImage ==> bufOffset < |data|
      ensures Before(state) || state == FwState.ProcessConfigFile ==> bufOffset == 0
    {
      hide FreeCount, SaneStream, Consume, SessionInv, ReceiveInv, GuardedAt;
    }

    lemma OffsetAtEnds(data: seq<byte>)
      requires At(data) && state == ReceiveData
      ensures bufOffset == 0 || bufOffset == |data|
    {
      hide FreeCount, SaneStream, Consume, SessionInv, ReceiveInv, GuardedAt;
    }

    /** Whether the packet may be handed in: an upload starts at offset 0 on a usable flash, with two handles
        to spare, and goes on only while it has not failed. */
    ghost predicate MayProcess(offset: nat, data: seq<byte>)
      reads this, mem.flash, mem.handles
    {
      && mem.Valid() && data != []
      && (offset == 0 ==>
            FreeCount(mem.handles[..]) >= 2 && Ready(Environment(), mem.flash.cells) && SaneStream(Environment(), data))
      && (offset != 0 && active ==>
            Resting() && (spec.phase == Config ==> SaneStream(Environment(), spec.cfg + data)))
    }

    /** Handles one packet of the upload. */
    method SessionProcess(offset: nat, data: seq<byte>) returns (rc: Code)
      requires MayProcess(offset, data)
      modifies this, mem.handles, mem.flash
      ensures mem.Valid()
      ensures offset != 0 && !old(active) ==>
                && rc == SessionNotStart && mem.flash.cells == old(mem.flash.cells) && spec == old(spec) && !active
                && Origin() == old(Origin()) && mem.flash.faulted == old(mem.flash.faulted)
                && partitionHdl == old(partitionHdl) && mem.handles[..] == old(mem.handles[..])
      ensures offset == 0 || old(active) ==>
                var start := if offset == 0 then Begin(Environment(), old(mem.flash.cells)) else old(spec);
                Settled(rc, Fed(Environment(), start, data)) && Origin() == if offset == 0 then old(mem.flash.cells) else old(Origin())
      ensures offset == 0 || old(active) ==> Spare() == old(Spare()) - (if offset == 0 then old(Held()) else 0) - Lost(rc)
    {
      hide At, Pending, Settled, Begin, Fed, Ready, SaneStream, FreeCount, Resting, Flash.Valid;
      if offset == 0 {
        SessionInit();
        FirstPacket(data);
      } else if active {
        NextPacket(data);
      } else {
        return SessionNotStart;
      }
      rc := RunPacket(data);
      SettledIsValid(rc);
    }

    /** A new session has all of its first packet before it. */
    method FirstPacket(ghost data: seq<byte>)
      requires mem.Valid() && Blank() && !mem.flash.faulted && FreeCount(mem.handles[..]) >= 2 && mem.flash.guard == None
      requires spec == Fresh(mem.flash.cells) && Ready(Environment(), mem.flash.cells) && state == NotStart
      requires SaneStream(Environment(), data)
      modifies this`bufOffset
      ensures At(data) && Pending(data) == Fed(Environment(), Begin(Environment(), mem.flash.cells), data)
    {
      hide Begin, Fed, Ready, SaneStream, FreeCount, Flash.Valid;
      assert [] + data == data;
      bufOffset := 0;
    }

    method NextPacket(ghost data: seq<byte>)
      requires Resting() && (spec.phase == Config ==> SaneStream(Environment(), spec.cfg + data))
      modifies this`bufOffset
      ensures At(data) && Pending(data) == Fed(Environment(), spec, data)
    {
      hide Fed, SaneStream, FreeCount, GuardedAt, SessionInv, ReceiveInv;
      bufOffset := 0;
    }

    /** The loop over the states. */
    method RunPacket(data: seq<byte>) returns (rc: Code)
      requires At(data) && data != []
      modifies this, mem.handles, mem.flash
      ensures Origin() == old(Origin()) && Spare() == old(Spare()) - Lost(rc)
      ensures Settled(rc, old(Pending(data)))
    {
      hide At, Pending, Settled;
      OffsetWithin(data);
      var run := true;
      rc := Ok;
      ghost var goal := Pending(data);
      while run && (bufOffset <= |data| || state == DuplicateFs || state == Finish)
        invariant Origin() == old(Origin()) && Spare() == old(Spare()) - (if run then 0 else Lost(rc))
        invariant run ==> At(data) && bufOffset <= |data| && Pending(data) == goal
        invariant !run ==> Settled(rc, goal)
        decreases if run then 1 else 0, |data| - bufOffset, Rank(state)
      {
        rc, run := Dispatch(data);
        if run {
          OffsetWithin(data);
        }
      }
    }
  }

  /** The place of a flash image other than the file system is the session's to erase. */
  ghost predicate OwnPlace(g: Geometry, n: nat, e: Entry) {
    e.id != FS1_IMG_ID && e.id != SBL_IMG_ID ==>
      && MAX_FWD * BLOCK_SIZE <= e.start && e.start % BLOCK_SIZE == 0
      && BLOCK_SIZE <= e.size && e.End() <= n < TWO_TO_THE_32
      && forall i :: e.start <= i < e.start + BLOCK_SIZE ==> g.Writable(i)
  }

  /** What opening the next image relies on, and what it amounts to. */
  lemma OpenFacts(env: Env, g: Geometry, s: State)
    requires ReceiveInv(env, g, s) && s.open == None && s.index < |s.hdrs|
    ensures s.phase == Images && DescriptorInv(s) && s.trial == g.trial
    ensures s.hdrs[s.index].id == SBL_IMG_ID ==> env.sbl.Some?
    ensures
      var h, e := s.hdrs[s.index], Place(env, s, s.hdrs[s.index]);
      var s1 := AddEntry(s, e);
      PlaceError(env, s, h) == Ok ==>
        && e.id != IMAGE_UNUSED && OwnPlace(g, |s.flash|, e)
        && (!CanCreate(s.flash, s.trial, e) ==> OpenImage(env, s) == s1)
        && (CanCreate(s.flash, s.trial, e) ==>
              var t := Opened(s, e, EraseFirstBlock(s1, e).flash);
              OpenImage(env, s) == if h.length == 0 then Due(env, Advanced(t)) else t)
    ensures PlaceError(env, s, s.hdrs[s.index]) != Ok ==> OpenImage(env, s) == s.Fail(PlaceError(env, s, s.hdrs[s.index]))
  {
    hide HoldsTable, HiddenTable, Find, FsPending, Ordered, AllDone, InfoInv, Located, HasFileSystems, CopyFileSystem, Created,
      EraseFirstBlock, CanCreate, Place, PlaceError, Rest, ConfigChecked, SblDisk;
    var h, e := s.hdrs[s.index], Place(env, s, s.hdrs[s.index]);
    assert SaneHeader(env, h);
    if PlaceError(env, s, h) == Ok {
      PlaceFits(env, g, s);
      if CanCreate(s.flash, s.trial, e) {
        OpenKeeps(env, g, s);
      }
    }
  }

  /** The reference model's state once the end of the session, if it is due, has been carried out. */
  function Due(env: Env, s: State): State {
    if s.phase == Images && s.index == |s.hdrs| then CopyFileSystem(env, s) else s
  }

  lemma IndexOfReceiving(env: Env, g: Geometry, s: State)
    requires ReceiveInv(env, g, s)
    ensures s.phase == Images && s.index <= |s.hdrs| && (s.open.Some? ==> s.index < |s.hdrs|)
  {
    hide HoldsTable, HiddenTable, Find, FsPending, Ordered, Rest, AllDone, InfoInv, SaneHeaders, Located, HasFileSystems;
  }

  lemma AdvancedFields(s: State)
    requires s.Receiving()
    ensures
      var t := Advanced(s);
      && t.flash == s.flash && t.phase == Images && t.trial == s.trial && t.hidden == s.hidden && t.hdrs == s.hdrs
      && t.index == s.index + 1 && t.open == None
      && t.cursor == if Advances(s.hdrs[s.index]) then U32(s.cursor + s.hdrs[s.index].disk) else s.cursor
  {
  }

  lemma OwnPlaceErasable(f: seq<byte>, e: Entry)
    requires e.start % BLOCK_SIZE == 0 && BLOCK_SIZE <= e.size && e.End() <= |f| < TWO_TO_THE_32
    ensures CanErase(f, e, 0, BLOCK_SIZE) && Erasable(e, 0, BLOCK_SIZE)
    ensures U32(e.start + 0) / BLOCK_SIZE * BLOCK_SIZE == e.start
  {
  }

  lemma NothingErased(f: seq<byte>, a: nat)
    ensures Erased(f, a, 0) == f
  {
  }

  lemma DescriptorIgnoresPosition(s: State, t: State)
    requires DescriptorInv(s) && t == s.(fed := t.fed)
    ensures DescriptorInv(t)
  {
    hide HoldsTable;
  }

  /** A chunk goes onto erased cells. */
  lemma ChunkClears(env: Env, g: Geometry, s: State, w: seq<byte>)
    requires ReceiveInv(env, g, s) && s.Receiving() && s.open.Some? && s.open.value.id != SBL_IMG_ID
    requires w != [] && |s.fed| + |w| <= s.hdrs[s.index].length
    ensures OnlyClears(ChunkErased(s.flash, s.open.value.start, |s.fed|, |w|), s.open.value.start + |s.fed|, w)
  {
    hide HiddenTable, Find, Rest, Ordered, Core, Located, HasFileSystems, FsPending, SaneHeaders, PartitionInv, ChunkErased,
      OnlyClears, ConfigChecked, SblDisk;
    ChunkOntoBlank(g, s.flash, s.open.value, s.fed, w, s.hdrs[s.index].length);
  }

  lemma ClosingAdvances(env: Env, s: State)
    requires s.Receiving()
    ensures CloseImage(env, s) == if env.sha(s.fed) != s.hdrs[s.index].hash then s.Fail(IncorrectImageChecksum) else Due(env, Advanced(s))
  {
    hide CopyFileSystem;
  }

  /** What is left to do after a chunk is stored. */
  lemma FinishFacts(env: Env, g: Geometry, s: State, w: seq<byte>)
    requires ReceiveInv(env, g, s) && s.Receiving() && s.open.Some?
    requires w != [] && |s.fed| + |w| <= s.hdrs[s.index].length
    ensures
      var t, e, m, len := ChunkStored(s, w), s.open.value, |s.fed| + |w|, s.hdrs[s.index].length;
      && t.fed == s.fed + w && t.open == s.open && t.Receiving() && t.index == s.index && t.hdrs == s.hdrs
      && len <= e.size && ChunkReceived(s, w) == t.(flash := ChunkReceived(s, w).flash)
      && ReceiveInv(env, g, ChunkReceived(s, w))
      && (m < len ==> Consume(env, s, w) == ChunkReceived(s, w) == Due(env, ChunkReceived(s, w)))
      && (m < len && m % BLOCK_SIZE == 0 && e.id != SBL_IMG_ID ==>
            m + BLOCK_SIZE <= e.size && ChunkReceived(s, w) == t.WithFlash(Erased(t.flash, e.start + m, BLOCK_SIZE)))
      && (m < len && (m % BLOCK_SIZE != 0 || e.id == SBL_IMG_ID) ==> ChunkReceived(s, w) == t)
      && (m == len ==> t == ChunkReceived(s, w) && Consume(env, s, w) == CloseImage(env, t))
  {
    hide ReceiveInv, ChunkWritten, ChunkErased, CloseImage, Consume, Erased, Programmed, OwnPartition, CopyFileSystem;
    OpenPartitionOwned(env, g, s);
    var e, m, len := s.open.value, |s.fed| + |w|, s.hdrs[s.index].length;
    if m < len && m % BLOCK_SIZE == 0 && e.id != SBL_IMG_ID {
      NextBlockWithin(g, |s.flash|, e, m);
    }
    ChunkKeeps(env, g, s, w);
    StoredIsReceived(s, w);
    ChunkIsItsBytes(env, s, w);
  }

  lemma DueWhileReceiving(env: Env, s: State)
    requires s.Receiving()
    ensures Due(env, s) == s
  {
  }

  lemma NoBytesLeft(env: Env, s: State, w: seq<byte>)
    requires s.phase == Images && s.index <= |s.hdrs| && (s.index == |s.hdrs| || w == [])
    ensures Consume(env, Due(env, s), w) == Due(env, s)
  {
    hide CopyBlocks, Find;
    if s.index == |s.hdrs| {
      ConsumeWhenOver(env, Due(env, s), w);
    }
  }

  lemma StatusErased(s: State)
    requires DescriptorInv(s)
    ensures s.trial < MAX_FWD && Cell(s.flash, InfoAddr(s.trial, Status)) == 0xFF
  {
    hide HoldsTable;
  }

  lemma NextBlockWithin(g: Geometry, flash: nat, e: Entry, m: nat)
    requires OwnPartition(g, flash, e) && e.id != SBL_IMG_ID && m < e.size && m % BLOCK_SIZE == 0
    ensures m + BLOCK_SIZE <= e.size
  {
  }

  /** The cases at the end of the configuration. */
  lemma ConfigDoneFacts(env: Env, g: Geometry, s: State)
    requires s.phase == Config && ConfigInv(env, g, s) && HeadOk(s.cfg) && SaneConfig(env, s.cfg) && |s.cfg| == ConfigLength(s.cfg)
    ensures DescriptorInv(s) && s.trial == g.trial && s.index == 0 && s.open == None
    ensures
      var t, verdict := s.(flash := Described(s), hdrs := Headers(s.cfg)), CheckImages(env, s.cfg, s.space);
      ConfigDone(env, s) ==
      if env.sha(Slice(s.cfg, 0, HashOffset(s.cfg))) != Slice(s.cfg, HashOffset(s.cfg), HASH_LEN) then s.Fail(IncorrectImageChecksum)
      else if verdict != Ok then t.Fail(verdict)
      else t.(phase := Images)
    ensures ConfigDone(env, s).phase == Images ==> ReceiveInv(env, g, ConfigDone(env, s)) && ConfigDone(env, s).Receiving()
  {
    hide HoldsTable, HiddenTable, ReceiveInv, CheckImages, HeadOk, SaneConfig, Slice, Described;
    ConfigDoneKeeps(env, g, s);
  }

  lemma SourceBlock(e: Entry, flash: nat, offset: nat)
    requires e.End() <= flash < TWO_TO_THE_32 && e.size % BLOCK_SIZE == 0 && offset % BLOCK_SIZE == 0 && offset < e.size
    ensures InBounds(e, offset, BLOCK_SIZE) && U32(e.start + offset) == e.start + offset
    ensures e.start + offset + BLOCK_SIZE <= flash && offset + BLOCK_SIZE < TWO_TO_THE_32
  {
  }

  lemma InsideErasable(f: seq<byte>, e: Entry, offset: nat)
    requires Erasable(e, offset, BLOCK_SIZE) && e.start + offset + BLOCK_SIZE <= |f|
    ensures CanErase(f, e, offset, BLOCK_SIZE)
  {
  }

  lemma NoRoomToErase(f: seq<byte>, e: Entry, offset: nat)
    requires offset < TWO_TO_THE_32 - BLOCK_SIZE
    ensures offset + BLOCK_SIZE > e.size ==> !CanErase(f, e, offset, BLOCK_SIZE)
  {
  }

  lemma ErasableWithin(f: seq<byte>, e: Entry, offset: nat)
    requires offset < TWO_TO_THE_32 - BLOCK_SIZE
    ensures CanErase(f, e, offset, BLOCK_SIZE) ==> offset + BLOCK_SIZE <= e.size
  {
  }

  lemma CommitClears(s: State)
    requires DescriptorInv(s)
    ensures OnlyClears(s.flash, InfoAddr(s.trial, Status), [STATUS_VALID]) && s.trial < MAX_FWD
    ensures Commit(s) == s.(flash := Programmed(s.flash, InfoAddr(s.trial, Status), [STATUS_VALID]), phase := Finished)
  {
    hide HoldsTable, And;
    BlankOnlyClears(s.flash, InfoAddr(s.trial, Status), [STATUS_VALID]);
  }

  /** What the copy relies on, and what it amounts to. */
  lemma CopyFacts(env: Env, g: Geometry, s: State)
    requires ReceiveInv(env, g, s) && s.index == |s.hdrs|
    ensures DescriptorInv(s) && s.trial == g.trial
    ensures Find(s.flash, env.active, FS1_IMG_ID).Some? && Find(s.flash, env.active, FS2_IMG_ID).Some?
    ensures
      var from, to := Find(s.flash, env.active, FS1_IMG_ID).value, Find(s.flash, env.active, FS2_IMG_ID).value;
      var t := s.WithFlash(CopyBlocks(s.flash, from, to, 0));
      && OwnPartition(g, |s.flash|, to) && from.id == FS1_IMG_ID && to.id == FS2_IMG_ID
      && from.size % BLOCK_SIZE == 0 && |s.flash| < TWO_TO_THE_32
      && from.size < TWO_TO_THE_32 - BLOCK_SIZE && (from.size > 0 ==> from.End() <= |s.flash|)
      && CopyFileSystem(env, s) == (if from.size <= to.size then Commit(t) else t.Fail(FlashErasePartition))
      && (from.size <= to.size ==> Installed(env, g, Commit(t)))
  {
    hide HoldsTable, HiddenTable, Find, FsPending, Ordered, Rest, AllDone, InfoInv, SaneHeaders, Installed, CopyBlocks;
    FsPlace(env, g, s);
    FinishInstalls(env, g, s);
    FoundId(s.flash, env.active, FS1_IMG_ID);
    FoundId(s.flash, env.active, FS2_IMG_ID);
  }

  /** The areas are those of the selection made on the flash the session found. */
  ghost predicate GeometryKnown(env: Env, g: Geometry) {
    var sel := Select(env.mode, g.base, env.active);
    sel.Some? && sel.value.fwd != env.active && g == GeometryOf(env, g.base, sel.value)
  }

  /** Before the end no flash contents count as a committed slot. */
  ghost predicate NeverCommitted(f: seq<byte>) {
    false
  }

  lemma BeginCases(env: Env, f: seq<byte>, s: State)
    ensures Select(env.mode, f, env.active) == None ==> Begin(env, f) == Fresh(f).Fail(FlashNotSupportFwUpgrade)
    ensures
      Select(env.mode, f, env.active).Some? ==>
        var sel := Select(env.mode, f, env.active).value;
        s == Fresh(f).(trial := sel.fwd, cursor := sel.region.start, space := sel.region.size) ==>
          Begin(env, f) == if env.active == sel.fwd then s.Fail(TrialIsRunning) else BeginErase(env, s)
  {
    hide Select, BeginErase;
  }

  lemma CollectingFields(env: Env, g: Geometry, s: State)
    requires s.phase == Config && SessionInv(env, g, s)
    ensures s.open == None
  {
    hide HoldsTable, HiddenTable, HasFileSystems, HeadOk;
  }

  lemma StartingFields(env: Env, g: Geometry, s: State)
    requires Erased1(env, g, s)
    ensures DescriptorInv(s) && s.trial == g.trial < MAX_FWD && s.phase == Config && |s.flash| < TWO_TO_THE_32
  {
    hide HoldsTable;
  }

  /** The scratch areas are the session's own partitions. */
  lemma ScratchOwned(env: Env, g: Geometry, s: State, e: Entry)
    requires Erased1(env, g, s) && e.id != SBL_IMG_ID && (e.Extent() == g.fs2 || e.Extent() == g.ramdump)
    ensures OwnPartition(g, |s.flash|, e) && e.size % BLOCK_SIZE == 0
  {
    hide HoldsTable, Find, DescriptorInv;
  }

  lemma SizeAligned(g: Geometry, flash: nat, e: Entry)
    requires OwnPartition(g, flash, e) && e.id != SBL_IMG_ID
    ensures e.size % BLOCK_SIZE == 0
  {
  }

  /** What erasing the scratch file system amounts to. */
  lemma SecondFsFacts(env: Env, g: Geometry, s: State)
    requires Erased1(env, g, s)
    ensures Find(g.base, env.active, FS2_IMG_ID) == Find(s.flash, env.active, FS2_IMG_ID) && DescriptorInv(s)
    ensures
      match Find(s.flash, env.active, FS2_IMG_ID)
      case None => BeginSecondFs(env, s) == s.Fail(FlashImageNotFound)
      case Some(e) =>
        var t := s.WithFlash(Erased(s.flash, e.start, e.size));
        && e.id == FS2_IMG_ID && OwnPartition(g, |s.flash|, e) && e.size % BLOCK_SIZE == 0
        && (e.size == 0 ==> BeginSecondFs(env, s) == s.Fail(FlashErasePartition))
        && (e.size > 0 ==>
              && BeginSecondFs(env, s) == BeginFirstFs(env, t)
              && Erased1(env, g, t) && Blank(t.flash, g.fs2.start, g.fs2.size))
  {
    hide HoldsTable, Find, DescriptorInv, BeginFirstFs;
    ActiveFindsSame(g, env.active, s.flash, FS2_IMG_ID);
    FoundId(s.flash, env.active, FS2_IMG_ID);
    match Find(s.flash, env.active, FS2_IMG_ID)
    case None =>
    case Some(e) =>
      ScratchOwned(env, g, s, e);
      ScratchErased(env, g, s, g.fs2);
  }

  lemma FirstWord(f: seq<byte>, a: nat, data: seq<byte>)
    requires a + 4 <= |f| && data == f[a..a + 4]
    ensures Word(data, 0) == Word(f, a)
  {
    hide FromLe32;
    assert [Cell(data, 0), Cell(data, 1), Cell(data, 2), Cell(data, 3)] == [Cell(f, a), Cell(f, a + 1), Cell(f, a + 2), Cell(f, a + 3)];
  }

  /** One of the partitions erased at the start has no block at all. */
  ghost predicate EmptyScratch(env: Env, f: seq<byte>) {
    var fs2, ramdump := Find(f, env.active, FS2_IMG_ID), Find(f, env.active, RAMDUMP_IMG_ID);
    (fs2.Some? && fs2.value.size == 0) || (ramdump.Some? && ramdump.value.size == 0)
  }

  /** A RAM dump partition too short for its first word is empty. */
  lemma ShortIsEmpty(env: Env, g: Geometry, s: State, e: Entry)
    requires Erased1(env, g, s) && Find(s.flash, env.active, RAMDUMP_IMG_ID) == Some(e)
    requires !(InBounds(e, 0, 4) && e.start + 4 <= |s.flash|) || e.size == 0
    ensures EmptyScratch(env, g.base)
  {
    hide Find, HoldsTable, DescriptorInv;
    ActiveFindsSame(g, env.active, s.flash, RAMDUMP_IMG_ID);
  }

  /** What preparing the RAM dump partition amounts to. */
  lemma RamdumpFacts(env: Env, g: Geometry, s: State)
    requires Erased1(env, g, s)
    ensures DescriptorInv(s)
    ensures
      match Find(s.flash, env.active, RAMDUMP_IMG_ID)
      case None => BeginRamdump(env, s) == BeginUserdata(env, s)
      case Some(e) =>
        var used := Word(s.flash, e.start) != 0xFFFF_FFFF;
        var t := if used then s.WithFlash(Erased(s.flash, e.start, e.size)) else s;
        && e.id == RAMDUMP_IMG_ID && OwnPartition(g, |s.flash|, e)
        && (!(InBounds(e, 0, 4) && e.start + 4 <= |s.flash|) || (used && e.size == 0) ==> BeginRamdump(env, s) == s.Fail(FlashErasePartition))
        && (InBounds(e, 0, 4) && e.start + 4 <= |s.flash| && (used ==> e.size > 0) ==>
              && Erased1(env, g, t)
              && BeginRamdump(env, s)
                 == if AddEntry(t, e).phase.Failed? then AddEntry(t, e) else BeginUserdata(env, AddEntry(t, e).(hidden := s.hidden + 1)))
  {
    hide HoldsTable, Find, DescriptorInv, BeginUserdata, AddEntry, Word, InBounds;
    ActiveFindsSame(g, env.active, s.flash, RAMDUMP_IMG_ID);
    FoundId(s.flash, env.active, RAMDUMP_IMG_ID);
    match Find(s.flash, env.active, RAMDUMP_IMG_ID)
    case None =>
    case Some(e) =>
      ScratchOwned(env, g, s, e);
      ScratchErased(env, g, s, g.ramdump);
      var t := if Word(s.flash, e.start) != 0xFFFF_FFFF then s.WithFlash(Erased(s.flash, e.start, e.size)) else s;
      AddEntryHidden(t, e);
  }

  lemma AddEntryHidden(s: State, e: Entry)
    ensures AddEntry(s, e).hidden == s.hidden
  {
    hide CanCreate, Created;
  }

  lemma NothingLeft(env: Env, s: State, w: seq<byte>)
    requires w == []
    ensures Consume(env, s, w) == s
  {
  }
}

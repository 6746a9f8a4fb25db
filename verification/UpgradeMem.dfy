/** The partition layer: the pool of partition handles over the descriptors, and slot bookkeeping. */
module UpgradeMem {
  import opened Bytes
  import opened NorFlash
  import opened Descriptor
  import opened SlotSelection

  const MAX_HANDLES: nat := 10

  datatype Code =
    | Ok
    | Error
    | InvalidParam
    | GetPartitionNull
    | ReachMaxImageEntry
    | ImageUnused
    | FlashNotSupportFwUpgrade
    | TrialIsRunning
    | FlashEraseFail
    | FlashWriteFail
    | FlashReadFail
    | FlashImageNotFound
    | FlashErasePartition
    | FlashWritePartition
    | FlashCreatePartition
    | FlashNotEnoughSpace
    | IncorrectImageHdr
    | IncorrectImageChecksum
    | IncorrectImageLength
    | SblOnlyNotSupport
    | SblNotSupportUpgrade
    | SblNotEnoughSpace
    | SessionNotStart
    | InvalidFdt

  /** How the boot loader started the running slot. */
  datatype BootType = BootGolden | BootCurrent | BootTrial

  /** A handle: free when `refCount` is 0. */
  datatype Client = Client(refCount: nat, fwdIdx: nat, imgIdx: nat, image: Entry)

  /** The handle contents for entry `k` of a slot. */
  function ClientFor(f: seq<byte>, fwd: nat, k: nat): Client {
    Client(1, fwd, k, EntryAt(f, fwd, k))
  }

  /** Index of the first free handle, or the pool size. */
  function FirstFree(hs: seq<Client>): (h: nat)
    ensures h <= |hs|
    ensures h < |hs| ==> hs[h].refCount == 0
    ensures forall i :: 0 <= i < h ==> hs[i].refCount > 0
  {
    if hs == [] || hs[0].refCount == 0 then 0 else 1 + FirstFree(hs[1..])
  }

  function FreeCount(hs: seq<Client>): nat {
    if hs == [] then 0 else (if hs[0].refCount == 0 then 1 else 0) + FreeCount(hs[1..])
  }

  lemma {:induction false} FreeCountUpdate(hs: seq<Client>, h: nat, c: Client)
    requires h < |hs|
    ensures FreeCount(hs[h := c]) == FreeCount(hs)
              - (if hs[h].refCount == 0 then 1 else 0) + (if c.refCount == 0 then 1 else 0)
  {
    if h == 0 {
      assert hs[0 := c][1..] == hs[1..];
    } else {
      assert hs[h := c][1..] == hs[1..][h - 1 := c];
      FreeCountUpdate(hs[1..], h - 1, c);
    }
  }

  lemma {:induction false} FreeCountPositive(hs: seq<Client>)
    ensures FreeCount(hs) > 0 <==> FirstFree(hs) < |hs|
  {
    if hs != [] {
      FreeCountPositive(hs[1..]);
    }
  }

  /** The same handles are taken, for the same partitions. */
  ghost predicate SamePool(hs: seq<Client>, hs': seq<Client>) {
    && |hs| == |hs'|
    && forall i :: 0 <= i < |hs| && (hs[i].refCount > 0 || hs'[i].refCount > 0) ==> hs[i] == hs'[i]
  }

  lemma {:induction false} SamePoolSameCount(hs: seq<Client>, hs': seq<Client>)
    requires SamePool(hs, hs')
    ensures FreeCount(hs) == FreeCount(hs')
  {
    if hs != [] {
      assert forall i :: 0 <= i < |hs[1..]| ==> hs[1..][i] == hs[i + 1] && hs'[1..][i] == hs'[i + 1];
      SamePoolSameCount(hs[1..], hs'[1..]);
    }
  }

  function Freed(c: Client): Client {
    c.(refCount := 0)
  }

  /** Handle `h` has been taken since the pool looked like `start`; nothing else has changed. */
  ghost predicate Outstanding(start: seq<Client>, hs: seq<Client>, h: int) {
    && |start| == |hs|
    && 0 <= h < |hs| && start[h].refCount == 0 && hs[h].refCount > 0
    && forall i :: 0 <= i < |hs| && i != h && (start[i].refCount > 0 || hs[i].refCount > 0) ==> start[i] == hs[i]
  }

  lemma OutstandingCount(start: seq<Client>, hs: seq<Client>, h: int)
    requires Outstanding(start, hs, h)
    ensures FreeCount(hs) == FreeCount(start) - 1
    ensures SamePool(start, hs[h := Freed(hs[h])])
  {
    FreeCountUpdate(hs, h, Freed(hs[h]));
    SamePoolSameCount(start, hs[h := Freed(hs[h])]);
  }

  /** How many handles are free after something that does not give one of them back. */
  predicate LosesAtMostOne(free: nat, free': nat) {
    free' == free || free' + 1 == free
  }

  /** `f` with entry `e` programmed into the first unused place of slot `fwd`. */
  function Created(f: seq<byte>, fwd: nat, e: Entry): seq<byte> {
    Programmed(f, EntryAddr(fwd, FindIndex(f, fwd, IMAGE_UNUSED)), EntryBytes(e))
  }

  /** Whether slot `fwd` can take another entry like `e`. */
  predicate CanCreate(f: seq<byte>, fwd: nat, e: Entry) {
    fwd < MAX_FWD && Aligned(e) && FindIndex(f, fwd, IMAGE_UNUSED) < MAX_IMAGE_ENTRIES
  }

  /** The bounds check on reads and writes, in 32-bit arithmetic. */
  predicate InBounds(e: Entry, offset: nat, n: nat) {
    n != 0 && U32(e.start + offset + n) <= U32(e.End())
  }

  /** The bounds check on erases, in 32-bit arithmetic. */
  predicate Erasable(e: Entry, offset: nat, n: nat) {
    n != 0 && n % BLOCK_SIZE == 0 && offset % BLOCK_SIZE == 0 && U32(offset + n) <= e.size
  }

  /** The checks, in numbers. */
  lemma BoundsChecks(e: Entry, offset: nat, n: nat)
    ensures InBounds(e, offset, n) <==> n != 0 && (e.start + offset + n) % TWO_TO_THE_32 <= (e.start + e.size) % TWO_TO_THE_32
    ensures
      Erasable(e, offset, n) <==> n != 0 && n % BLOCK_SIZE == 0 && offset % BLOCK_SIZE == 0 && (offset + n) % TWO_TO_THE_32 <= e.size
  {
  }

  // Accepting and rejecting the trial slot

  predicate CanReject(mode: Mode, f: seq<byte>) {
    ScanSlots(mode, Slots(f)).trial != TRIAL_UNUSED
  }

  predicate CanAccept(mode: Mode, boot: BootType, f: seq<byte>) {
    CanReject(mode, f) && boot == BootTrial
  }

  /** Whether accepting retires a slot: everything but the golden one. */
  predicate Retires(mode: Mode, f: seq<byte>) {
    mode == TwoSlots || ScanSlots(mode, Slots(f)).current != 0
  }

  /** The trial slot has received its rank. */
  function Promoted(mode: Mode, f: seq<byte>): seq<byte> {
    var r := ScanSlots(mode, Slots(f));
    Programmed(f, InfoAddr(r.trial, Rank), Le32(U32(r.rank + 1)))
  }

  function Accepted(mode: Mode, f: seq<byte>): seq<byte> {
    if Retires(mode, f)
    then Programmed(Promoted(mode, f), InfoAddr(ScanSlots(mode, Slots(f)).current, Status), [STATUS_INVALID])
    else Promoted(mode, f)
  }

  /** The trial slot has lost its status. */
  function Dismissed(mode: Mode, f: seq<byte>): seq<byte> {
    Programmed(f, InfoAddr(ScanSlots(mode, Slots(f)).trial, Status), [STATUS_INVALID])
  }

  function Rejected(mode: Mode, f: seq<byte>): seq<byte> {
    Programmed(Dismissed(mode, f), InfoAddr(ScanSlots(mode, Slots(f)).trial, Rank), Le32(1))
  }

  /** What a power cut or a failing write may leave of an acceptance: any part of the rank, or all of it. */
  ghost predicate AcceptLeaves(mode: Mode, f: seq<byte>, g: seq<byte>) {
    var r := ScanSlots(mode, Slots(f));
    PartlyWritten(f, g, InfoAddr(r.trial, Rank), Le32(U32(r.rank + 1))) || g == Accepted(mode, f)
  }

  /** What they may leave of a rejection: nothing, or the status and any part of the rank. */
  ghost predicate RejectLeaves(mode: Mode, f: seq<byte>, g: seq<byte>) {
    g == f || PartlyWritten(Dismissed(mode, f), g, InfoAddr(ScanSlots(mode, Slots(f)).trial, Rank), Le32(1))
  }

  /** The slot on trial in `before` lists an SBL in `after`. */
  predicate TrialSbl(mode: Mode, before: seq<byte>, after: seq<byte>) {
    Find(after, ScanSlots(mode, Slots(before)).trial, SBL_IMG_ID).Some?
  }

  lemma ScanInRange(mode: Mode, f: seq<byte>)
    ensures
      var r := ScanSlots(mode, Slots(f));
      && r.current < MAX_FWD
      && (CanReject(mode, f) ==> r.trial < MAX_FWD && Word(f, InfoAddr(r.trial, Rank)) == RANK_TRIAL)
  {
    hide Word;
    CurrentHasHighestRank(mode, Slots(f));
  }

  /** The rank cells of a trial slot are erased, so any rank can be programmed, even after its status. */
  lemma TrialTakesRank(mode: Mode, f: seq<byte>, w: uint32)
    requires CanReject(mode, f)
    ensures
      var trial := ScanSlots(mode, Slots(f)).trial;
      var g := Programmed(f, InfoAddr(trial, Status), [STATUS_INVALID]);
      && OnlyClears(f, InfoAddr(trial, Rank), Le32(w))
      && OnlyClears(g, InfoAddr(trial, Rank), Le32(w))
  {
    hide ScanSlots, SlotAt, Word, And, Le32;
    var trial := ScanSlots(mode, Slots(f)).trial;
    ScanInRange(mode, f);
    var a := InfoAddr(trial, Rank);
    AllOnes(f, a);
    BlankOnlyClears(f, a, Le32(w));
    var g := Programmed(f, InfoAddr(trial, Status), [STATUS_INVALID]);
    assert SameCells(f, g, a, 4);
    BlankOnlyClears(g, a, Le32(w));
  }

  lemma AllOnes(f: seq<byte>, a: nat)
    requires Word(f, a) == 0xFFFF_FFFF
    ensures Blank(f, a, 4)
  {
  }

  lemma AnythingOnlyClearsToZero(f: seq<byte>, a: nat)
    ensures OnlyClears(f, a, [STATUS_INVALID])
  {
    AnythingTakesZero(Cell(f, a));
  }

  class Mem {
    const flash: Flash
    const handles: array<Client>
    const mode: Mode
    /** Number of the running slot and how it was started, as left by the boot loader. */
    const active: nat
    const bootType: BootType

    constructor (flash: Flash, mode: Mode, active: nat, bootType: BootType)
      ensures this.flash == flash && this.mode == mode && this.active == active && this.bootType == bootType
      ensures handles.Length == MAX_HANDLES && fresh(handles)
      ensures forall i :: 0 <= i < MAX_HANDLES ==> handles[i].refCount == 0
    {
      this.flash, this.mode, this.active, this.bootType := flash, mode, active, bootType;
      handles := new Client[MAX_HANDLES](_ => Client(0, 0, 0, Entry(0, 0, 0, 0)));
    }

    ghost predicate Valid()
      reads flash
    {
      flash.Valid() && handles.Length == MAX_HANDLES && MAX_FWD * BLOCK_SIZE <= |flash.cells| < TWO_TO_THE_32
    }

    /** Number of the first free handle, or -1. */
    method GetPartitionClientEntry() returns (h: int)
      requires handles.Length == MAX_HANDLES
      ensures h == -1 <==> FirstFree(handles[..]) == MAX_HANDLES
      ensures h != -1 ==> h == FirstFree(handles[..])
    {
      var i := 0;
      while i < MAX_HANDLES
        invariant 0 <= i <= MAX_HANDLES
        invariant forall j :: 0 <= j < i ==> handles[j].refCount > 0
      {
        if handles[i].refCount == 0 {
          return i;
        }
        i := i + 1;
      }
      h := -1;
    }

    predicate HandleValid(h: int)
      reads handles
      requires handles.Length == MAX_HANDLES
    {
      0 <= h < MAX_HANDLES && handles[h].refCount > 0
    }

    /** Gives a handle back. */
    method Release(h: nat)
      requires h < handles.Length
      modifies handles
      ensures handles[..] == old(handles[..])[h := Freed(old(handles[h]))]
    {
      handles[h] := Freed(handles[h]);
    }

    /** Takes the first free handle for the first entry of slot `fwd` with id `id`. */
    method FindPartition(fwd: nat, id: uint32) returns (rc: Code, hdl: int)
      requires Valid()
      modifies handles
      ensures rc == Ok <==> Find(flash.cells, fwd, id).Some? && FreeCount(old(handles[..])) > 0
      ensures rc == Ok ==>
                && hdl == FirstFree(old(handles[..])) && 0 <= hdl < MAX_HANDLES
                && handles[..] == old(handles[..])[hdl := ClientFor(flash.cells, fwd, FindIndex(flash.cells, fwd, id))]
      ensures rc != Ok ==>
                && handles[..] == old(handles[..])
                && rc == if fwd < MAX_FWD && FreeCount(old(handles[..])) == 0 then GetPartitionNull else ReachMaxImageEntry
    {
      FreeCountPositive(handles[..]);
      hdl := -1;
      if fwd >= MAX_FWD {
        return ReachMaxImageEntry, hdl;
      }
      var h := GetPartitionClientEntry();
      if h == -1 {
        return GetPartitionNull, hdl;
      }
      var i := SearchEntry(fwd, id);
      if i >= MAX_IMAGE_ENTRIES {
        return ReachMaxImageEntry, hdl;
      }
      handles[h] := ClientFor(flash.cells, fwd, i);
      rc, hdl := Ok, h;
    }

    /** The search loop over the entries of a slot. */
    method SearchEntry(fwd: nat, id: uint32) returns (i: nat)
      ensures i == FindIndex(flash.cells, fwd, id)
    {
      i := 0;
      while i < MAX_IMAGE_ENTRIES
        invariant i <= MAX_IMAGE_ENTRIES
        invariant FindIndex(flash.cells, fwd, id) == FindFrom(flash.cells, fwd, id, i)
      {
        if EntryId(flash.cells, fwd, i) == id {
          return;
        }
        i := i + 1;
      }
    }

    /** Takes a handle for the first entry of the slot. */
    method FirstPartition(fwd: nat) returns (rc: Code, hdl: int)
      requires Valid()
      modifies handles
      ensures rc == Ok <==> fwd < MAX_FWD && FreeCount(old(handles[..])) > 0 && SlotAt(flash.cells, fwd).total != 0
      ensures rc == Ok ==>
                && hdl == FirstFree(old(handles[..])) && 0 <= hdl < MAX_HANDLES
                && handles[..] == old(handles[..])[hdl := ClientFor(flash.cells, fwd, 0)]
      ensures rc != Ok ==> handles[..] == old(handles[..]) && rc == if fwd >= MAX_FWD then InvalidParam else Error
    {
      FreeCountPositive(handles[..]);
      hdl := -1;
      if fwd >= MAX_FWD {
        return InvalidParam, hdl;
      }
      var h := GetPartitionClientEntry();
      if h == -1 || Cell(flash.cells, InfoAddr(fwd, TotalImages)) == 0 {
        return Error, hdl;
      }
      handles[h] := ClientFor(flash.cells, fwd, 0);
      rc, hdl := Ok, h;
    }

    /** Takes a handle for the entry after the one of `curr`. */
    method NextPartition(curr: int) returns (rc: Code, hdl: int)
      requires Valid()
      modifies handles
      ensures !old(HandleValid(curr)) ==> rc == InvalidParam
      ensures old(HandleValid(curr)) ==>
        var c := old(handles[curr]);
        var more := c.imgIdx + 1 < MAX_IMAGE_ENTRIES && EntryId(flash.cells, c.fwdIdx, c.imgIdx + 1) != IMAGE_UNUSED;
        && rc == (if FreeCount(old(handles[..])) == 0 then GetPartitionNull else if more then Ok
                  else if c.imgIdx + 1 >= MAX_IMAGE_ENTRIES then ReachMaxImageEntry else ImageUnused)
        && (rc == Ok ==>
              && hdl == FirstFree(old(handles[..])) && 0 <= hdl < MAX_HANDLES
              && handles[..] == old(handles[..])[hdl := ClientFor(flash.cells, c.fwdIdx, c.imgIdx + 1)])
      ensures rc != Ok ==> handles[..] == old(handles[..])
    {
      FreeCountPositive(handles[..]);
      hdl := -1;
      if !HandleValid(curr) {
        return InvalidParam, hdl;
      }
      var h := GetPartitionClientEntry();
      if h == -1 {
        return GetPartitionNull, hdl;
      }
      var c := handles[curr];
      var idx := c.imgIdx + 1;
      if idx >= MAX_IMAGE_ENTRIES {
        return ReachMaxImageEntry, hdl;
      }
      if EntryId(flash.cells, c.fwdIdx, idx) == IMAGE_UNUSED {
        return ImageUnused, hdl;
      }
      handles[h] := ClientFor(flash.cells, c.fwdIdx, idx);
      rc, hdl := Ok, h;
    }

    /** Appends an entry to slot `fwd` and takes a handle for it. */
    method CreatePartition(fwd: nat, e: Entry) returns (rc: Code, hdl: int)
      requires Valid()
      requires CanCreate(flash.cells, fwd, e) ==>
                 var a := EntryAddr(fwd, FindIndex(flash.cells, fwd, IMAGE_UNUSED));
                 OnlyClears(flash.cells, a, EntryBytes(e)) && flash.MayTouch(a, 16)
      modifies handles, flash`cells, flash`faulted, flash`history
      ensures Valid()
      ensures rc == Ok ==>
                && CanCreate(old(flash.cells), fwd, e) && FreeCount(old(handles[..])) > 0
                && hdl == FirstFree(old(handles[..])) && 0 <= hdl < MAX_HANDLES
                && flash.cells == Created(old(flash.cells), fwd, e) && flash.faulted == old(flash.faulted)
                && handles[..] == old(handles[..])[hdl := Client(1, fwd, FindIndex(old(flash.cells), fwd, IMAGE_UNUSED), e)]
      ensures rc != Ok ==> handles[..] == old(handles[..])
      ensures
        rc == InvalidParam <==>
          fwd >= MAX_FWD || (e.id != SBL_IMG_ID && (e.start % BLOCK_SIZE != 0 || e.size % BLOCK_SIZE != 0))
      ensures rc != Ok && CanCreate(old(flash.cells), fwd, e) && FreeCount(old(handles[..])) > 0 ==> flash.faulted
      ensures rc != Ok && !flash.faulted ==> flash.cells == old(flash.cells)
    {
      FreeCountPositive(handles[..]);
      hdl := -1;
      if fwd >= MAX_FWD || !Aligned(e) {
        return InvalidParam, hdl;
      }
      var h := GetPartitionClientEntry();
      if h == -1 {
        return Error, hdl;
      }
      var i := SearchEntry(fwd, IMAGE_UNUSED);
      if i >= MAX_IMAGE_ENTRIES {
        return Error, hdl;
      }
      var ok := flash.Write(EntryAddr(fwd, i), EntryBytes(e));
      if !ok {
        return Error, hdl;
      }
      handles[h] := Client(1, fwd, i, e);
      rc, hdl := Ok, h;
    }

    /** Erases whole blocks of a partition. */
    method ErasePartition(h: int, offset: nat, n: nat) returns (rc: Code)
      requires Valid()
      requires HandleValid(h) && handles[h].image.id != SBL_IMG_ID && Erasable(handles[h].image, offset, n) ==>
                 flash.MayErase(U32(handles[h].image.start + offset) / BLOCK_SIZE * BLOCK_SIZE, n)
      modifies flash`cells, flash`faulted, flash`history
      ensures Valid() && (HandleValid(h) ==> handles[h] == old(handles[h])) && (!HandleValid(h) ==> rc == InvalidParam)
      ensures HandleValid(h) && handles[h].image.id == SBL_IMG_ID ==> rc == Ok && flash.cells == old(flash.cells)
      ensures rc == Ok ==> HandleValid(h) && flash.faulted == old(flash.faulted)
      ensures rc == Ok && handles[h].image.id != SBL_IMG_ID ==>
                var e := handles[h].image;
                && Erasable(e, offset, n)
                && flash.cells == Erased(old(flash.cells), U32(e.start + offset) / BLOCK_SIZE * BLOCK_SIZE, n)
      ensures
        HandleValid(h) && rc != Ok && Erasable(handles[h].image, offset, n) ==>
          flash.faulted || U32(handles[h].image.start + offset) / BLOCK_SIZE * BLOCK_SIZE + n > |flash.cells|
      ensures rc != Ok && !flash.faulted ==> flash.cells == old(flash.cells)
      ensures
        HandleValid(h) && handles[h].image.id != SBL_IMG_ID ==>
          (rc == InvalidParam <==>
           n == 0 || n % BLOCK_SIZE != 0 || offset % BLOCK_SIZE != 0 || (offset + n) % TWO_TO_THE_32 > handles[h].image.size)
    {
      if !HandleValid(h) {
        return InvalidParam;
      }
      var e := handles[h].image;
      if e.id == SBL_IMG_ID {
        return Ok;
      }
      if !Erasable(e, offset, n) {
        return InvalidParam;
      }
      assert n / BLOCK_SIZE * BLOCK_SIZE == n;
      var ok := flash.Erase(U32(e.start + offset) / BLOCK_SIZE, n / BLOCK_SIZE);
      rc := if ok then Ok else Error;
    }

    /** Programs bytes of a partition.  SBL partitions live in a memory that is not modelled. */
    method WritePartition(h: int, offset: nat, data: seq<byte>) returns (rc: Code)
      requires Valid()
      requires HandleValid(h) && handles[h].image.id != SBL_IMG_ID && InBounds(handles[h].image, offset, |data|) ==>
                 var a := U32(handles[h].image.start + offset);
                 OnlyClears(flash.cells, a, data) && flash.MayTouch(a, |data|)
      modifies flash`cells, flash`faulted, flash`history
      ensures Valid() && (HandleValid(h) ==> handles[h] == old(handles[h])) && (!HandleValid(h) ==> rc == InvalidParam)
      ensures rc == Ok ==>
                && HandleValid(h) && InBounds(handles[h].image, offset, |data|) && flash.faulted == old(flash.faulted)
                && flash.cells == if handles[h].image.id == SBL_IMG_ID then old(flash.cells)
                                  else Programmed(old(flash.cells), U32(handles[h].image.start + offset), data)
      ensures
        HandleValid(h) && rc != Ok && InBounds(handles[h].image, offset, |data|) ==>
          flash.faulted || U32(handles[h].image.start + offset) + |data| > |flash.cells|
      ensures HandleValid(h) && handles[h].image.id == SBL_IMG_ID && InBounds(handles[h].image, offset, |data|) ==> rc == Ok
      ensures rc != Ok && !flash.faulted ==> flash.cells == old(flash.cells)
      ensures
        HandleValid(h) ==>
          (rc == InvalidParam <==>
           data == [] || (handles[h].image.start + offset + |data|) % TWO_TO_THE_32
                         > (handles[h].image.start + handles[h].image.size) % TWO_TO_THE_32)
    {
      hide InBounds, U32, Programmed, OnlyClears;
      if HandleValid(h) {
        BoundsChecks(handles[h].image, offset, |data|);
      }
      if !HandleValid(h) || !InBounds(handles[h].image, offset, |data|) {
        return InvalidParam;
      }
      var e := handles[h].image;
      if e.id == SBL_IMG_ID {
        return Ok;
      }
      var ok := flash.Write(U32(e.start + offset), data);
      rc := if ok then Ok else Error;
    }

    /** Reads bytes of a partition.  What an SBL partition holds, and whether it can be read, is not known here. */
    method ReadPartition(h: int, offset: nat, n: nat) returns (rc: Code, data: seq<byte>)
      requires Valid()
      ensures
        HandleValid(h) ==>
          (rc == InvalidParam <==>
           n == 0 || (handles[h].image.start + offset + n) % TWO_TO_THE_32
                     > (handles[h].image.start + handles[h].image.size) % TWO_TO_THE_32)
      ensures !HandleValid(h) ==> rc == InvalidParam
      ensures rc == Ok ==> |data| == n
      ensures HandleValid(h) && handles[h].image.id != SBL_IMG_ID ==>
                var a := U32(handles[h].image.start + offset);
                && (rc == Ok <==> InBounds(handles[h].image, offset, n) && a + n <= |flash.cells|)
                && (rc == Ok ==> data == flash.cells[a..a + n])
    {
      hide InBounds, U32;
      if HandleValid(h) {
        BoundsChecks(handles[h].image, offset, n);
      }
      if !HandleValid(h) || !InBounds(handles[h].image, offset, n) {
        return InvalidParam, [];
      }
      if handles[h].image.id == SBL_IMG_ID {
        var contents: seq<byte> := *;
        return if |contents| == n then Ok else Error, contents;
      }
      var a := U32(handles[h].image.start + offset);
      if a + n > |flash.cells| {
        return Error, [];
      }
      rc, data := Ok, flash.cells[a..a + n];
    }

    /** Programs one header field of a slot. */
    method SetFwdInfo(fwd: nat, info: Info, value: seq<byte>) returns (rc: Code)
      requires Valid() && |value| == InfoSize(info)
      requires fwd < MAX_FWD ==>
                 var a := InfoAddr(fwd, info);
                 OnlyClears(flash.cells, a, value) && (flash.MayTouch(a, |value|) || flash.MayCommit(a, value))
      modifies flash`cells, flash`faulted, flash`history
      ensures Valid()
      ensures fwd >= MAX_FWD ==> rc == InvalidParam && flash.cells == old(flash.cells)
      ensures rc == Ok ==>
                && flash.cells == Programmed(old(flash.cells), InfoAddr(fwd, info), value)
                && flash.faulted == old(flash.faulted)
      ensures fwd < MAX_FWD ==> flash.history == old(flash.history) + [flash.cells]
      ensures rc != Ok && fwd < MAX_FWD ==> flash.faulted
      ensures PartlyWritten(old(flash.cells), flash.cells, InfoAddr(fwd, info), value)
      ensures SameOutside(old(flash.cells), flash.cells, InfoAddr(fwd, info), |value|)
    {
      if fwd >= MAX_FWD {
        return InvalidParam;
      }
      var ok := flash.Write(InfoAddr(fwd, info), value);
      rc := if ok then Ok else Error;
    }

    /** Erases the descriptor block of a slot; a failing erase leaves each cell as it was or erased. */
    method EraseFwd(fwd: nat) returns (rc: Code)
      requires Valid() && (fwd < MAX_FWD ==> flash.MayErase(fwd * BLOCK_SIZE, BLOCK_SIZE))
      modifies flash`cells, flash`faulted, flash`history
      ensures Valid()
      ensures fwd >= MAX_FWD ==> rc == InvalidParam && flash.cells == old(flash.cells)
      ensures PartlyErased(old(flash.cells), flash.cells, fwd * BLOCK_SIZE, BLOCK_SIZE)
      ensures rc == Ok ==> fwd < MAX_FWD && flash.cells == Erased(old(flash.cells), fwd * BLOCK_SIZE, BLOCK_SIZE)
      ensures fwd < MAX_FWD ==> flash.history == old(flash.history) + [flash.cells]
      ensures rc == Ok ==> flash.faulted == old(flash.faulted)
      ensures rc != Ok && fwd < MAX_FWD ==> flash.faulted
    {
      if fwd >= MAX_FWD {
        return InvalidParam;
      }
      var ok := flash.Erase(fwd, 1);
      rc := if ok then Ok else Error;
    }

    /** Scans the slots for the trial and the current one. */
    method GetTrialActiveFwdIndex() returns (rc: Code, r: Scan)
      requires Valid()
      ensures r == ScanSlots(mode, Slots(flash.cells))
      ensures rc == if r.trial == TRIAL_UNUSED then Error else Ok
    {
      hide Word;
      var slots := Slots(flash.cells);
      r := ScanInit(mode, slots);
      var i, end := ScanStart(mode), ScanStart(mode) + 2;
      while i < end
        invariant ScanStart(mode) <= i <= end
        invariant
          r == if i == ScanStart(mode) then ScanInit(mode, slots)
               else if i < end then ScanSlot(slots[ScanStart(mode)], ScanStart(mode), ScanInit(mode, slots))
               else ScanSlots(mode, slots)
      {
        var s := SlotAt(flash.cells, i);
        if s.Bootable() {
          if s.rank == RANK_TRIAL {
            r := r.(trial := i);
          } else if s.rank > r.rank {
            r := r.(rank := s.rank, current := i);
          }
        }
        i := i + 1;
      }
      rc := if r.trial == TRIAL_UNUSED then Error else Ok;
    }

    /** End of one reserved partition of the running slot, if it is found and later than `atLeast`. */
    method ReservedPartitionEnd(id: uint32, atLeast: uint32) returns (end: uint32)
      requires Valid()
      modifies handles
      ensures end == if old(FreeCount(handles[..])) == 0 then atLeast else EndOf(flash.cells, active, id, atLeast)
      ensures SamePool(old(handles[..]), handles[..])
    {
      hide EntryAt;
      var rc, h := FindPartition(active, id);
      end := atLeast;
      if rc == Ok {
        var e := handles[h].image;
        Release(h);
        if U32(e.End()) > end {
          end := U32(e.End());
        }
      }
    }

    /** Flash address of the first image after the reserved partitions; an empty pool hides them all. */
    method GetFirstProgrammingImageStartAddress() returns (start: uint32)
      requires Valid()
      modifies handles
      ensures start == ReservedEndWith(flash.cells, active, old(FreeCount(handles[..])))
      ensures SamePool(old(handles[..]), handles[..])
    {
      hide EndOf, FreeCount;
      ghost var p0 := handles[..];
      start := ReservedPartitionEnd(FS1_IMG_ID, 0);
      SamePoolSameCount(p0, handles[..]);
      start := ReservedPartitionEnd(FS2_IMG_ID, start);
      SamePoolSameCount(p0, handles[..]);
      start := ReservedPartitionEnd(RAMDUMP_IMG_ID, start);
      SamePoolSameCount(p0, handles[..]);
      start := ReservedPartitionEnd(USERDATA_IMG_ID, start);
      if MAX_FWD * BLOCK_SIZE > start {
        start := MAX_FWD * BLOCK_SIZE;
      }
    }

    /** Chooses the slot and the region for the next upgrade.  With fewer than two free handles the region may be wrong. */
    method SelectTrialFwd() returns (sel: Option<Selection>)
      requires Valid()
      modifies handles
      ensures sel == SelectWith(mode, flash.cells, active, old(FreeCount(handles[..])))
      ensures old(FreeCount(handles[..])) >= 2 ==> sel == Select(mode, flash.cells, active)
      ensures SamePool(old(handles[..]), handles[..])
    {
      hide ImageSetEndWith, ReservedEndWith, ScanSlots, Slots, FreeCount, HalfRegion, PushBack, Select;
      if FreeCount(handles[..]) >= 2 {
        TwoHandlesSelect(mode, flash.cells, active, FreeCount(handles[..]));
      }
      ghost var p0 := handles[..];
      var start := GetFirstProgrammingImageStartAddress();
      SamePoolSameCount(p0, handles[..]);
      var _, scan := GetTrialActiveFwdIndex();
      if mode == TwoSlots {
        var fwd := if scan.current == 0 then 1 else 0;
        var size := HalfRegion(|flash.cells|, start);
        var region := Extent(if fwd == 1 then U32(start as int + size as int) else start, size);
        if fwd == 1 {
          var end := GetImageSetEndAddr(0);
          if end == None {
            return None;
          }
          region := PushBack(region, end.value);
        }
        sel := Some(Selection(fwd, region));
      } else {
        var fwd := if scan.current == 0 then 1 else if scan.current == 1 then 2 else 1;
        var end := GetImageSetEndAddr(0);
        if end == None {
          return None;
        }
        var size := HalfRegion(|flash.cells|, end.value);
        sel := Some(Selection(fwd, Extent(U32(end.value + (fwd - 1) * size), size)));
      }
    }

    /**
     Accepts the trial slot: it gets the highest rank, then the slot that was current is retired.
     The contents after each write, complete or torn, are recorded in the history.
     */
    method AcceptTrialFwd() returns (rc: Code)
      requires Valid() && flash.guard == None
      modifies flash`cells, flash`faulted, flash`history
      ensures Valid()
      ensures rc == Ok ==>
                && CanAccept(mode, bootType, old(flash.cells))
                && flash.cells == Accepted(mode, old(flash.cells))
                && flash.history == old(flash.history) + [Promoted(mode, old(flash.cells))]
                   + if Retires(mode, old(flash.cells)) then [flash.cells] else []
      ensures !CanAccept(mode, bootType, old(flash.cells)) ==> rc == Error && flash.cells == old(flash.cells)
      ensures rc != Ok && CanAccept(mode, bootType, old(flash.cells)) ==> flash.faulted
      ensures
        bootType != BootTrial || ScanSlots(mode, Slots(old(flash.cells))).trial == 0xFF ==>
          rc == Error && flash.cells == old(flash.cells) && flash.history == old(flash.history)
      ensures bootType == BootTrial && ScanSlots(mode, Slots(old(flash.cells))).trial != 0xFF ==> rc == Ok || flash.faulted
      ensures CanAccept(mode, bootType, old(flash.cells)) ==>
                && AcceptLeaves(mode, old(flash.cells), flash.cells) && old(flash.history) <= flash.history
                && forall k :: |old(flash.history)| <= k < |flash.history| ==> AcceptLeaves(mode, old(flash.cells), flash.history[k])
    {
      hide ScanSlots, Slots, Word, Programmed, OnlyClears, Le32, Flash.Valid, SameOutside, PartlyWritten;
      ghost var f := flash.cells;
      var scan;
      rc, scan := GetTrialActiveFwdIndex();
      if rc != Ok {
        return;
      }
      if bootType != BootTrial {
        return Error;
      }
      ScanInRange(mode, flash.cells);
      TrialTakesRank(mode, flash.cells, U32(scan.rank + 1));
      rc := SetFwdInfo(scan.trial, Rank, Le32(U32(scan.rank + 1)));
      WholeOrNothing(f, InfoAddr(scan.trial, Rank), Le32(U32(scan.rank + 1)));
      if rc == Ok && (mode == TwoSlots || scan.current != 0) {
        AnythingOnlyClearsToZero(flash.cells, InfoAddr(scan.current, Status));
        rc := SetFwdInfo(scan.current, Status, [STATUS_INVALID]);
        OneByteWritten(Promoted(mode, f), flash.cells, InfoAddr(scan.current, Status), STATUS_INVALID);
      }
    }

    /**
     Rejects the trial slot: it is retired and loses its trial rank.  If it has an SBL, the boot loader's own table is
     updated as well, which may fail; the handle on the SBL entry is not given back.
     */
    method RejectTrialFwd() returns (rc: Code)
      requires Valid() && flash.guard == None
      modifies handles, flash`cells, flash`faulted, flash`history
      ensures Valid()
      ensures rc == Ok ==> CanReject(mode, old(flash.cells)) && flash.cells == Rejected(mode, old(flash.cells))
      ensures !CanReject(mode, old(flash.cells)) ==> rc == Error && flash.cells == old(flash.cells)
      ensures
        ScanSlots(mode, Slots(old(flash.cells))).trial == 0xFF ==>
          rc == Error && flash.cells == old(flash.cells) && flash.history == old(flash.history) && handles[..] == old(handles[..])
      ensures ScanSlots(mode, Slots(old(flash.cells))).trial != 0xFF ==> flash.faulted || flash.cells == Rejected(mode, old(flash.cells))
      ensures rc != Ok && CanReject(mode, old(flash.cells)) && !flash.faulted ==>
                && flash.cells == Rejected(mode, old(flash.cells))
                && (if rc == GetPartitionNull then old(FreeCount(handles[..])) == 0
                    else (rc == InvalidFdt || rc == Error) && TrialSbl(mode, old(flash.cells), flash.cells))
      ensures FreeCount(handles[..]) == old(FreeCount(handles[..]))
              || (TrialSbl(mode, old(flash.cells), flash.cells) && FreeCount(handles[..]) == old(FreeCount(handles[..])) - 1)
      ensures !flash.faulted && CanReject(mode, old(flash.cells)) && TrialSbl(mode, old(flash.cells), flash.cells)
              && old(FreeCount(handles[..])) > 0 ==>
                FreeCount(handles[..]) == old(FreeCount(handles[..])) - 1
      ensures CanReject(mode, old(flash.cells)) ==>
                && RejectLeaves(mode, old(flash.cells), flash.cells) && old(flash.history) <= flash.history
                && forall k :: |old(flash.history)| <= k < |flash.history| ==> RejectLeaves(mode, old(flash.cells), flash.history[k])
    {
      hide ScanSlots, Slots, EntryAt, Word, FindFrom, FreeCount, Programmed, OnlyClears, Le32, Flash.Valid, SameOutside, PartlyWritten;
      ghost var f := flash.cells;
      var scan;
      rc, scan := GetTrialActiveFwdIndex();
      if rc != Ok {
        return;
      }
      ScanInRange(mode, flash.cells);
      TrialTakesRank(mode, flash.cells, 1);
      AnythingOnlyClearsToZero(flash.cells, InfoAddr(scan.trial, Status));
      rc := SetFwdInfo(scan.trial, Status, [STATUS_INVALID]);
      OneByteWritten(f, flash.cells, InfoAddr(scan.trial, Status), STATUS_INVALID);
      WholeOrNothing(Dismissed(mode, f), InfoAddr(scan.trial, Rank), Le32(1));
      if rc == Ok {
        rc := SetFwdInfo(scan.trial, Rank, Le32(1));
        if rc == Ok {
          var hdl;
          ghost var pool := handles[..];
          rc, hdl := FindPartition(scan.trial, SBL_IMG_ID);
          if rc == Ok {
            FreeCountUpdate(pool, hdl, handles[hdl]);
            rc := RejectSblTrialFde();
          } else if rc == ReachMaxImageEntry {
            rc := Ok;
          }
        }
      }
    }

    /** Marks the trial SBL as aged in the boot loader's table, which is not modelled. */
    method RejectSblTrialFde() returns (rc: Code)
      ensures rc == Ok || rc == InvalidFdt || rc == Error
    {
      var found, written: bool := *, *;
      rc := if !found then InvalidFdt else if !written then Error else Ok;
    }

    /** Moves the walk started on pool `start` from handle `hdl` to the next entry; false at its end. */
    method Step(hdl: nat, ghost start: seq<Client>) returns (more: bool, next: int)
      requires Valid() && Outstanding(start, handles[..], hdl)
      modifies handles
      ensures
        var c := old(handles[hdl]);
        && (more <==>
              && c.imgIdx + 1 < MAX_IMAGE_ENTRIES && EntryId(flash.cells, c.fwdIdx, c.imgIdx + 1) != IMAGE_UNUSED
              && FreeCount(start) >= 2)
        && (more ==> Outstanding(start, handles[..], next) && handles[next] == ClientFor(flash.cells, c.fwdIdx, c.imgIdx + 1))
      ensures !more ==> handles[..] == old(handles[..])
    {
      OutstandingCount(start, handles[..], hdl);
      var rc;
      rc, next := NextPartition(hdl);
      more := rc == Ok;
      if more {
        Release(hdl);
      }
    }

    /**
     Walks the image set of a slot for its end.  With two free handles the answer is the true end;
     with a single one the walk stops after the first entry.  The pool is left as found.
     */
    method GetImageSetEndAddr(fwd: nat) returns (end: Option<uint32>)
      requires Valid() && fwd < MAX_FWD
      modifies handles
      ensures SamePool(old(handles[..]), handles[..])
      ensures end == ImageSetEndWith(flash.cells, fwd, old(FreeCount(handles[..])))
    {
      if Word(flash.cells, InfoAddr(fwd, Magic)) != MAGIC_V1 {
        return None;
      }
      ghost var start := handles[..];
      var rc, hdl := FirstPartition(fwd);
      if rc != Ok {
        return None;
      }
      var acc := Walk(fwd, hdl, start);
      end := Some(acc);
    }

    /** The loop of `GetImageSetEndAddr`, from the handle of the first entry. */
    method Walk(fwd: nat, first: nat, ghost start: seq<Client>) returns (acc: uint32)
      requires Valid() && fwd < MAX_FWD && Outstanding(start, handles[..], first)
      requires handles[first] == ClientFor(flash.cells, fwd, 0)
      modifies handles
      ensures SamePool(start, handles[..])
      ensures
        var init := EndWith(EntryAt(flash.cells, fwd, 0), 0);
        acc == if FreeCount(start) >= 2 then WalkEnd(flash.cells, fwd, 1, init) else init
    {
      hide EntryAt, EndWith, SlotAt, Word;
      var hdl: nat := first;
      acc := EndWith(handles[hdl].image, 0);
      ghost var f, init, k := flash.cells, acc, 0;
      while true
        invariant Outstanding(start, handles[..], hdl) && k < MAX_IMAGE_ENTRIES
        invariant handles[hdl].fwdIdx == fwd && handles[hdl].imgIdx == k
        invariant WalkEnd(f, fwd, k + 1, acc) == WalkEnd(f, fwd, 1, init)
        invariant FreeCount(start) < 2 ==> acc == init
        decreases MAX_IMAGE_ENTRIES - k
      {
        var more, next := Step(hdl, start);
        if !more {
          break;
        }
        hdl, k := next, k + 1;
        acc := EndWith(handles[hdl].image, acc);
      }
      OutstandingCount(start, handles[..], hdl);
      Release(hdl);
    }
  }
}

/** The stored formats, written out field by field: what the code reads from them, and what it accepts. */
module Formats {
  import opened Bytes
  import opened NorFlash
  import opened Descriptor
  import opened SlotSelection
  import opened UpgradeMem
  import opened UpgradeSpec
  import opened PacketBoundaries

  const FILE_NAME_LEN: nat := 128

  // Fields one after the other

  lemma SliceStored(m: seq<byte>, a: nat, d: seq<byte>)
    requires Stored(m, a, d) && a + |d| <= |m|
    ensures Slice(m, a, |d|) == d
  {
    forall i | 0 <= i < |d|
      ensures m[a..a + |d|][i] == d[i]
    {
      assert Cell(m, a + i) == d[a + i - a];
    }
  }

  lemma ItselfStored(m: seq<byte>)
    ensures Stored(m, 0, m)
  {
  }

  // The configuration

  datatype ConfigHead = ConfigHead(magic: uint32, version: uint32, format: uint32, length: uint32, count: byte)

  /** An image header with the file name, which nobody reads. */
  datatype NamedHeader = NamedHeader(header: Header, file: seq<byte>) {
    predicate Sized() {
      |file| == FILE_NAME_LEN && |header.hash| == HASH_LEN
    }
  }

  function HeadBytes(h: ConfigHead): (s: seq<byte>)
    ensures |s| == CONFIG_HEAD_LEN
  {
    Le32(h.magic) + (Le32(h.version) + (Le32(h.format) + (Le32(h.length) + [h.count])))
  }

  function HeaderBytes(n: NamedHeader): (s: seq<byte>)
    requires n.Sized()
    ensures |s| == IMAGE_HDR_LEN
  {
    var h := n.header;
    Le32(h.magic) + (Le32(h.id) + (Le32(h.version) + (n.file + (Le32(h.disk) + (Le32(h.length) + (Le32(h.hashType) + h.hash))))))
  }

  predicate AllSized(ns: seq<NamedHeader>) {
    forall k :: 0 <= k < |ns| ==> ns[k].Sized()
  }

  function HeadersBytes(ns: seq<NamedHeader>): (s: seq<byte>)
    requires AllSized(ns)
    ensures |s| == |ns| * IMAGE_HDR_LEN
  {
    if ns == [] then [] else HeaderBytes(ns[0]) + HeadersBytes(ns[1..])
  }

  /** What the digest of a configuration is taken over. */
  function SignedBytes(h: ConfigHead, ns: seq<NamedHeader>): (s: seq<byte>)
    requires AllSized(ns)
    ensures |s| == CONFIG_HEAD_LEN + |ns| * IMAGE_HDR_LEN
  {
    HeadBytes(h) + HeadersBytes(ns)
  }

  function ConfigBytes(h: ConfigHead, ns: seq<NamedHeader>, hash: seq<byte>): seq<byte>
    requires AllSized(ns)
  {
    SignedBytes(h, ns) + hash
  }

  lemma HeadReadsBack(m: seq<byte>, h: ConfigHead)
    requires Stored(m, 0, HeadBytes(h))
    ensures ConfigMagic(m) == h.magic && ConfigVersion(m) == h.version && ConfigFormat(m) == h.format
    ensures ConfigLength(m) == h.length && ConfigCount(m) == h.count
  {
    hide Word, Le32, Stored;
    WordStored(m, 0, h.magic, Le32(h.version) + (Le32(h.format) + (Le32(h.length) + [h.count])));
    WordStored(m, 4, h.version, Le32(h.format) + (Le32(h.length) + [h.count]));
    WordStored(m, 8, h.format, Le32(h.length) + [h.count]);
    WordStored(m, 12, h.length, [h.count]);
    assert [h.count] + [] == [h.count];
    ByteStored(m, 16, h.count, []);
  }

  lemma HeaderReadsBack(m: seq<byte>, k: nat, n: NamedHeader)
    requires n.Sized() && Stored(m, CONFIG_HEAD_LEN + k * IMAGE_HDR_LEN, HeaderBytes(n))
    requires CONFIG_HEAD_LEN + k * IMAGE_HDR_LEN + IMAGE_HDR_LEN <= |m|
    ensures RawHeader(m, k) == n.header
  {
    hide Word, Le32, Stored, Slice;
    var a, h := CONFIG_HEAD_LEN + k * IMAGE_HDR_LEN, n.header;
    var sizes := Le32(h.disk) + (Le32(h.length) + (Le32(h.hashType) + h.hash));
    WordStored(m, a, h.magic, Le32(h.id) + (Le32(h.version) + (n.file + sizes)));
    WordStored(m, a + 4, h.id, Le32(h.version) + (n.file + sizes));
    WordStored(m, a + 8, h.version, n.file + sizes);
    TwoStored(m, a + 12, n.file, sizes);
    WordStored(m, a + 140, h.disk, Le32(h.length) + (Le32(h.hashType) + h.hash));
    WordStored(m, a + 144, h.length, Le32(h.hashType) + h.hash);
    WordStored(m, a + 148, h.hashType, h.hash);
    SliceStored(m, a + 152, h.hash);
  }

  lemma {:induction false} HeaderStored(m: seq<byte>, a: nat, ns: seq<NamedHeader>, k: nat)
    requires AllSized(ns) && k < |ns| && Stored(m, a, HeadersBytes(ns))
    ensures Stored(m, a + k * IMAGE_HDR_LEN, HeaderBytes(ns[k]))
    decreases k
  {
    hide Stored, HeaderBytes;
    TwoStored(m, a, HeaderBytes(ns[0]), HeadersBytes(ns[1..]));
    if k > 0 {
      HeaderStored(m, a + IMAGE_HDR_LEN, ns[1..], k - 1);
      assert a + IMAGE_HDR_LEN + (k - 1) * IMAGE_HDR_LEN == a + k * IMAGE_HDR_LEN;
    }
  }

  /** Every field of a configuration is read back. */
  lemma ConfigReadsBack(h: ConfigHead, ns: seq<NamedHeader>, hash: seq<byte>)
    requires AllSized(ns) && |hash| == HASH_LEN
    ensures
      var cfg := ConfigBytes(h, ns, hash);
      && ConfigMagic(cfg) == h.magic && ConfigVersion(cfg) == h.version && ConfigFormat(cfg) == h.format
      && ConfigLength(cfg) == h.length && ConfigCount(cfg) == h.count
      && (forall k :: 0 <= k < |ns| ==> RawHeader(cfg, k) == ns[k].header)
      && Slice(cfg, 0, |SignedBytes(h, ns)|) == SignedBytes(h, ns) && Slice(cfg, |SignedBytes(h, ns)|, HASH_LEN) == hash
  {
    hide HeadBytes, HeaderBytes, HeadersBytes, Stored, RawHeader, Slice;
    var cfg, signed := ConfigBytes(h, ns, hash), SignedBytes(h, ns);
    ItselfStored(cfg);
    TwoStored(cfg, 0, signed, hash);
    SliceStored(cfg, 0, signed);
    SliceStored(cfg, |signed|, hash);
    TwoStored(cfg, 0, HeadBytes(h), HeadersBytes(ns));
    HeadReadsBack(cfg, h);
    forall k | 0 <= k < |ns|
      ensures RawHeader(cfg, k) == ns[k].header
    {
      HeaderStored(cfg, CONFIG_HEAD_LEN, ns, k);
      HeaderReadsBack(cfg, k, ns[k]);
    }
  }

  // The verdict on a configuration

  /** Whole blocks for `n` bytes, in thirty-two bits. */
  function WholeBlocks(n: uint32): uint32 {
    (n + 4095) / 4096 * 4096 % 0x1_0000_0000
  }

  /** The space the images in the region take, file systems and SBL not being in it. */
  function RegionSpace(ns: seq<NamedHeader>): nat {
    if ns == [] then 0
    else (if ns[0].header.id == 1 || ns[0].header.id == 5 || ns[0].header.id == 128 then 0 else WholeBlocks(ns[0].header.disk)) + RegionSpace(ns[1..])
  }

  function RegionBytes(ns: seq<NamedHeader>): nat {
    if ns == [] then 0
    else (if ns[0].header.id == 1 || ns[0].header.id == 5 || ns[0].header.id == 128 then 0 else ns[0].header.length) + RegionBytes(ns[1..])
  }

  predicate ListsId(ns: seq<NamedHeader>, id: uint32) {
    exists k :: 0 <= k < |ns| && ns[k].header.id == id
  }

  /** The last SBL image does not fit. */
  predicate SblTooLarge(ns: seq<NamedHeader>, size: nat) {
    exists k ::
      && 0 <= k < |ns| && ns[k].header.id == 1 && ns[k].header.disk > size
      && forall j :: k < j < |ns| ==> ns[j].header.id != 1
  }

  lemma RoundsToBlocks(h: Header)
    ensures RoundedDisk(h) == if h.id == 1 then h.disk else WholeBlocks(h.disk)
  {
    var q, r := h.disk / 4096, h.disk % 4096;
    if r == 0 {
      assert (h.disk + 4095) / 4096 == q;
    } else {
      assert (h.disk + 4095) / 4096 == q + 1;
      assert (h.disk + 4096) / 4096 == q + 1;
      if q == 0xF_FFFF {
        assert U32(h.disk as int + BLOCK_SIZE) == r;
      } else {
        assert U32(h.disk as int + BLOCK_SIZE) == h.disk + 4096;
      }
    }
  }

  /** The headers that the session works with. */
  function Rounded(ns: seq<NamedHeader>): (hs: seq<Header>)
    ensures |hs| == |ns|
  {
    seq(|ns|, k requires 0 <= k < |ns| => ns[k].header.(disk := RoundedDisk(ns[k].header)))
  }

  /** Sums in thirty-two bits, whether or not they are cut to size in between. */
  lemma SumWraps(x: nat, y: nat)
    ensures U32(x + y % 0x1_0000_0000) == (x + y) % 0x1_0000_0000
  {
  }

  lemma {:induction false} SumsAreTotals(ns: seq<NamedHeader>)
    ensures DiskSum(Rounded(ns)) == RegionSpace(ns) % 0x1_0000_0000
    ensures LengthSum(Rounded(ns)) == RegionBytes(ns) % 0x1_0000_0000
  {
    hide RoundedDisk, WholeBlocks, U32;
    if ns != [] {
      var hs, h := Rounded(ns), ns[0].header;
      assert hs[1..] == Rounded(ns[1..]);
      assert hs[0] == h.(disk := RoundedDisk(h));
      RoundsToBlocks(h);
      SumsAreTotals(ns[1..]);
      SumWraps(if Counted(h) then RoundedDisk(h) else 0, RegionSpace(ns[1..]));
      SumWraps(if Counted(h) then h.length else 0, RegionBytes(ns[1..]));
    }
  }

  lemma SblAtTheEnd(ns: seq<NamedHeader>, size: nat)
    requires ns != [] && ns[|ns| - 1].header.id == 1
    ensures SblTooLarge(ns, size) <==> ns[|ns| - 1].header.disk > size
  {
  }

  lemma SblBefore(ns: seq<NamedHeader>, size: nat)
    requires ns != [] && ns[|ns| - 1].header.id != 1
    ensures SblTooLarge(ns, size) <==> SblTooLarge(ns[..|ns| - 1], size)
  {
    var before := ns[..|ns| - 1];
    if SblTooLarge(before, size) {
      var k :| 0 <= k < |before| && before[k].header.id == 1 && before[k].header.disk > size
               && forall j :: k < j < |before| ==> before[j].header.id != 1;
      assert ns[k].header.id == 1 && ns[k].header.disk > size;
      assert forall j :: k < j < |ns| ==> ns[j].header.id != 1;
    }
    if SblTooLarge(ns, size) {
      var k :| 0 <= k < |ns| && ns[k].header.id == 1 && ns[k].header.disk > size && forall j :: k < j < |ns| ==> ns[j].header.id != 1;
      assert before[k].header.id == 1 && before[k].header.disk > size;
      assert forall j :: k < j < |before| ==> before[j].header.id != 1;
    }
  }

  lemma {:induction false} LastSbl(ns: seq<NamedHeader>, size: nat)
    ensures SblDisk(Rounded(ns)) > size <==> SblTooLarge(ns, size)
  {
    hide RoundedDisk, SblTooLarge;
    if ns == [] {
      assert !SblTooLarge(ns, size) by { NoSbl(ns, size); }
    } else {
      var n, hs := |ns| - 1, Rounded(ns);
      assert hs[..n] == Rounded(ns[..n]);
      assert hs[n].id == ns[n].header.id && hs[n].disk == RoundedDisk(ns[n].header);
      if ns[n].header.id == 1 {
        RoundsToBlocks(ns[n].header);
        SblAtTheEnd(ns, size);
      } else {
        LastSbl(ns[..n], size);
        SblBefore(ns, size);
      }
    }
  }

  lemma NoSbl(ns: seq<NamedHeader>, size: nat)
    requires ns == []
    ensures !SblTooLarge(ns, size)
  {
  }

  lemma HeadersAreRounded(cfg: seq<byte>, ns: seq<NamedHeader>)
    requires ConfigCount(cfg) as int == |ns| && forall k :: 0 <= k < |ns| ==> RawHeader(cfg, k) == ns[k].header
    ensures Headers(cfg) == Rounded(ns)
  {
    hide RawHeader, RoundedDisk, ConfigCount;
  }

  lemma ListsSame(ns: seq<NamedHeader>, id: uint32)
    ensures HasImage(Rounded(ns), id) <==> ListsId(ns, id)
  {
    if ListsId(ns, id) {
      var k :| 0 <= k < |ns| && ns[k].header.id == id;
      assert Rounded(ns)[k].id == id;
    }
  }

  /** An image header that is refused. */
  predicate HasBadHeader(ns: seq<NamedHeader>) {
    exists k ::
      0 <= k < |ns| &&
      var h := ns[k].header; h.id == 0 || h.magic == 0 || h.hashType == 0 || h.disk == 0 || h.disk < h.length
  }

  lemma BadHeaders(cfg: seq<byte>, ns: seq<NamedHeader>)
    requires ConfigCount(cfg) as int == |ns| && forall k :: 0 <= k < |ns| ==> RawHeader(cfg, k) == ns[k].header
    ensures HasBadHeader(ns) <==> exists k :: 0 <= k < |Headers(cfg)| && !HeaderOk(RawHeader(cfg, k))
  {
    hide RawHeader, RoundedDisk, ConfigCount;
    if HasBadHeader(ns) {
      var k :| 0 <= k < |ns| && !HeaderOk(ns[k].header);
      assert !HeaderOk(RawHeader(cfg, k));
    }
  }

  /** What becomes of a session that is handed a whole configuration, in terms of its fields. */
  lemma ConfigVerdict(env: Env, s: State, h: ConfigHead, ns: seq<NamedHeader>, hash: seq<byte>)
    requires s.phase == Config && s.cfg == [] && AllSized(ns) && |hash| == HASH_LEN && h.count as int == |ns|
    ensures
      Consume(env, s, ConfigBytes(h, ns, hash)).phase ==
      if |ns| == 0 || |ns| > 30 || h.magic == 0 || h.length == 0 || h.format == 0 || h.length as int != 17 + 184 * |ns| + 32
        then Failed(IncorrectImageHdr)
      else if env.sha(SignedBytes(h, ns)) != hash then Failed(IncorrectImageChecksum)
      else if HasBadHeader(ns) then Failed(IncorrectImageHdr)
      else if ListsId(ns, 1) && !ListsId(ns, 10) then Failed(SblOnlyNotSupport)
      else if RegionSpace(ns) % 0x1_0000_0000 > s.space then Failed(FlashNotEnoughSpace)
      else if RegionBytes(ns) % 0x1_0000_0000 > RegionSpace(ns) % 0x1_0000_0000 then Failed(IncorrectImageHdr)
      else if env.sbl == None then Failed(SblNotSupportUpgrade)
      else if SblTooLarge(ns, env.sbl.value.size) then Failed(SblNotEnoughSpace)
      else Images
  {
    hide Consume, RawHeader, Word, Slice, HeadersBytes, HeadBytes, Rounded, SblTooLarge, ListsId, HasBadHeader, RegionSpace, RegionBytes, DiskSum,
      LengthSum, SblDisk, HasImage, Headers, Described, ConfigMagic, ConfigFormat, ConfigLength, ConfigCount;
    var cfg := ConfigBytes(h, ns, hash);
    ConfigReadsBack(h, ns, hash);
    if !HeadOk(cfg) {
      BadHeadFails(env, s, cfg);
    } else {
      assert s.cfg + cfg == cfg;
      ConfigPieceIsItsBytes(env, s, cfg);
      HeadersAreRounded(cfg, ns);
      BadHeaders(cfg, ns);
      ListsSame(ns, 1);
      ListsSame(ns, 10);
      SumsAreTotals(ns);
      if env.sbl.Some? {
        LastSbl(ns, env.sbl.value.size);
      }
    }
  }

  // The descriptor of a slot

  /** An image entry as stored, in blocks. */
  datatype StoredEntry = StoredEntry(id: uint32, start: uint32, blocks: uint32, version: uint32)

  function StoredEntryBytes(e: StoredEntry): (s: seq<byte>)
    ensures |s| == 16
  {
    Le32(e.id) + (Le32(e.start) + (Le32(e.blocks) + Le32(e.version)))
  }

  function EntriesBytes(es: seq<StoredEntry>): (s: seq<byte>)
    ensures |s| == 16 * |es|
  {
    if es == [] then [] else StoredEntryBytes(es[0]) + EntriesBytes(es[1..])
  }

  function DescriptorBytes(s: Slot, version: uint32, reserved: seq<byte>, es: seq<StoredEntry>): seq<byte> {
    Le32(s.magic) + (Le32(version) + (Le32(s.rank) + ([s.status] + ([s.total] + (reserved + EntriesBytes(es))))))
  }

  lemma StoredEntryReadsBack(f: seq<byte>, fwd: nat, k: nat, e: StoredEntry)
    requires Stored(f, fwd * 4096 + 32 + 16 * k, StoredEntryBytes(e))
    ensures
      EntryAt(f, fwd, k) ==
      if e.id == 1 then Entry(e.id, e.start, e.blocks, e.version)
      else Entry(e.id, e.start * 4096 % 0x1_0000_0000, e.blocks * 4096 % 0x1_0000_0000, e.version)
  {
    hide Word, Le32, Stored;
    var a := fwd * 4096 + 32 + 16 * k;
    WordStored(f, a, e.id, Le32(e.start) + (Le32(e.blocks) + Le32(e.version)));
    WordStored(f, a + 4, e.start, Le32(e.blocks) + Le32(e.version));
    WordStored(f, a + 8, e.blocks, Le32(e.version));
    assert Le32(e.version) + [] == Le32(e.version);
    WordStored(f, a + 12, e.version, []);
  }

  lemma {:induction false} EntryStored(f: seq<byte>, a: nat, es: seq<StoredEntry>, k: nat)
    requires k < |es| && Stored(f, a, EntriesBytes(es))
    ensures Stored(f, a + 16 * k, StoredEntryBytes(es[k]))
    decreases k
  {
    hide Stored, StoredEntryBytes;
    TwoStored(f, a, StoredEntryBytes(es[0]), EntriesBytes(es[1..]));
    if k > 0 {
      EntryStored(f, a + 16, es[1..], k - 1);
    }
  }

  /** Header fields and entries of a slot are read from where the descriptor has them. */
  lemma DescriptorReadsBack(f: seq<byte>, fwd: nat, s: Slot, version: uint32, reserved: seq<byte>, es: seq<StoredEntry>)
    requires Stored(f, fwd * 4096, DescriptorBytes(s, version, reserved, es)) && |reserved| == 18
    ensures SlotAt(f, fwd) == s && Word(f, InfoAddr(fwd, Version)) == version
    ensures
      forall k :: 0 <= k < |es| ==>
        EntryAt(f, fwd, k) ==
        if es[k].id == 1 then Entry(es[k].id, es[k].start, es[k].blocks, es[k].version)
        else Entry(es[k].id, es[k].start * 4096 % 0x1_0000_0000, es[k].blocks * 4096 % 0x1_0000_0000, es[k].version)
  {
    hide Word, Le32, Stored, EntriesBytes, EntryAt;
    var a, tail := fwd * 4096, reserved + EntriesBytes(es);
    WordStored(f, a, s.magic, Le32(version) + (Le32(s.rank) + ([s.status] + ([s.total] + tail))));
    WordStored(f, a + 4, version, Le32(s.rank) + ([s.status] + ([s.total] + tail)));
    WordStored(f, a + 8, s.rank, [s.status] + ([s.total] + tail));
    ByteStored(f, a + 12, s.status, [s.total] + tail);
    ByteStored(f, a + 13, s.total, tail);
    TwoStored(f, a + 14, reserved, EntriesBytes(es));
    forall k | 0 <= k < |es|
      ensures
        EntryAt(f, fwd, k) ==
        if es[k].id == 1 then Entry(es[k].id, es[k].start, es[k].blocks, es[k].version)
        else Entry(es[k].id, es[k].start * 4096 % 0x1_0000_0000, es[k].blocks * 4096 % 0x1_0000_0000, es[k].version)
    {
      EntryStored(f, a + 32, es, k);
      StoredEntryReadsBack(f, fwd, k, es[k]);
    }
  }

  lemma MagicBytes(f: seq<byte>, a: nat)
    ensures Word(f, a) == MAGIC_V1 <==> Cell(f, a) == 0x46 && Cell(f, a + 1) == 0x57 && Cell(f, a + 2) == 0x44 && Cell(f, a + 3) == 0x54
  {
    var bytes := [Cell(f, a), Cell(f, a + 1), Cell(f, a + 2), Cell(f, a + 3)];
    Le32OfFromLe32(bytes);
    assert Word(f, a) == FromLe32(bytes);
    assert Le32(MAGIC_V1) == [0x46, 0x57, 0x44, 0x54];
    assert FromLe32([0x46, 0x57, 0x44, 0x54]) == MAGIC_V1;
  }

  /** The end of a slot's images is known exactly if its first bytes are FWDT and it has images; its status does not matter. */
  lemma ImageSetKnownExactlyWhen(f: seq<byte>, fwd: nat)
    ensures
      ImageSetEnd(f, fwd).Some? <==>
        && Cell(f, fwd * 4096) == 0x46 && Cell(f, fwd * 4096 + 1) == 0x57 && Cell(f, fwd * 4096 + 2) == 0x44 && Cell(f, fwd * 4096 + 3) == 0x54
        && Cell(f, fwd * 4096 + 13) != 0
  {
    hide Word;
    MagicBytes(f, fwd * 4096);
  }

  /** A slot can be booted exactly if its first bytes are FWDT, its status is 1, and it has images. */
  lemma BootableExactlyWhen(f: seq<byte>, fwd: nat)
    ensures
      SlotAt(f, fwd).Bootable() <==>
        && Cell(f, fwd * 4096) == 0x46 && Cell(f, fwd * 4096 + 1) == 0x57 && Cell(f, fwd * 4096 + 2) == 0x44 && Cell(f, fwd * 4096 + 3) == 0x54
        && Cell(f, fwd * 4096 + 12) == 1 && 0 < Cell(f, fwd * 4096 + 13) < 0xFF
  {
    hide Word;
    MagicBytes(f, fwd * 4096);
  }
}

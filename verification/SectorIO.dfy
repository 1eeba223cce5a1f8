/** Reading logical disc sectors out of an image that lies in up to nine slices on a USB device. */
module SectorIO {
  import opened Common

  type Byte = b: int | 0 <= b < 256

  /** The bytes of the device, by byte address. */
  type Media = int -> Byte

  /** `struct ext_dev_conf`. */
  datatype Config = Config(partLBA: seq<nat>, sectorSz: nat, xferBlkSz: nat, sectorsPerSlice: nat)

  /** What the loader and the device set up: 4096-byte transfers and a usual device sector size. */
  predicate Configured(cfg: Config) {
    && |cfg.partLBA| == 9
    && (forall i :: 0 <= i < 9 ==> cfg.partLBA[i] < TWO_32)
    && cfg.sectorSz in {512, 1024, 2048, 4096}
    && cfg.xferBlkSz == 4096
    && 0 < cfg.sectorsPerSlice < TWO_32
  }

  /** Where logical sector `s` really is: in slice s / sectorsPerSlice, at byte address ... */
  function Place(cfg: Config, s: nat): nat
    requires Configured(cfg) && s / cfg.sectorsPerSlice < 9
  {
    cfg.partLBA[s / cfg.sectorsPerSlice] * cfg.sectorSz + (s % cfg.sectorsPerSlice) * 2048
  }

  /** A request for sectors of the image: the buffer fits a 32-bit address space, the slices exist,
      and the image lies on the device. */
  predicate Request(cfg: Config, lbn: nat, n: nat) {
    && Configured(cfg) && n * 2048 < TWO_32
    && lbn + n < TWO_32
    && forall s :: lbn <= s < lbn + n ==>
         s / cfg.sectorsPerSlice < 9 && Place(cfg, s) + 2048 <= TWO_32 * cfg.sectorSz
  }

  /* ---- One turn of the loop ---- */

  function BytesToRead(cfg: Config, left: nat): nat {
    if U32(left * 2048) > cfg.xferBlkSz then cfg.xferBlkSz else U32(left * 2048)
  }

  function SectorsToRead(cfg: Config, left: nat): nat { U8(BytesToRead(cfg, left) / 2048) }

  function Slice(cfg: Config, lbn: nat): nat
    requires cfg.sectorsPerSlice > 0
  {
    U8(lbn / cfg.sectorsPerSlice)
  }

  /** The device sector asked for, in 32-bit arithmetic. */
  function DeviceLBA(cfg: Config, lbn: nat): nat
    requires Configured(cfg) && Slice(cfg, lbn) < 9
  {
    var slice := Slice(cfg, lbn);
    U32(cfg.partLBA[slice] + U32(U32(lbn - slice * cfg.sectorsPerSlice) * 2048) / cfg.sectorSz)
  }

  /** How many device sectors are asked for; a read across the end of a slice is cut short. */
  function DiskSectors(cfg: Config, lbn: nat, left: nat): nat
    requires Configured(cfg)
  {
    var bytes := BytesToRead(cfg, left);
    if bytes < cfg.sectorSz then 1
    else
      var whole := U8(bytes / cfg.sectorSz);
      var temp := (lbn % cfg.sectorsPerSlice + SectorsToRead(cfg, left)) - cfg.sectorsPerSlice;
      if temp > 0 then U8(whole - temp) else whole
  }

  /** `count` bytes of the device from sector `lba` on. */
  function DeviceBytes(media: Media, sz: nat, lba: nat, count: nat): (d: seq<Byte>)
    ensures |d| == count
  {
    seq(count, t requires 0 <= t < count => media(lba * sz + t))
  }

  /** The bytes one turn puts into the buffer. */
  function TurnBytes(cfg: Config, media: Media, lbn: nat, left: nat): seq<Byte>
    requires Configured(cfg) && Slice(cfg, lbn) < 9
  {
    var bytes := BytesToRead(cfg, left);
    DeviceBytes(media, cfg.sectorSz, DeviceLBA(cfg, lbn),
                if bytes < cfg.sectorSz then bytes else DiskSectors(cfg, lbn, left) * cfg.sectorSz)
  }

  function Overwrite(buf: seq<Byte>, at: nat, d: seq<Byte>): (r: seq<Byte>)
    requires at + |d| <= |buf|
    ensures |r| == |buf|
    ensures forall x :: 0 <= x < |r| ==> r[x] == if at <= x < at + |d| then d[x - at] else buf[x]
  {
    buf[..at] + d + buf[at + |d|..]
  }

  /** `read_sector` as it leaves the buffer. */
  function ReadSector(cfg: Config, media: Media, lbn: nat, left: nat, buf: seq<Byte>, at: nat): (r: seq<Byte>)
    requires Request(cfg, lbn, left) && at + left * 2048 <= |buf|
    ensures |r| == |buf|
    decreases left
  {
    if left == 0 then buf
    else
      TurnFits(cfg, media, lbn, left);
      var n := SectorsToRead(cfg, left);
      ReadSector(cfg, media, U32(lbn + n), left - n,
                 Overwrite(buf, at, TurnBytes(cfg, media, lbn, left)), at + n * 2048)
  }

  /** A turn reads one or two sectors, none outside its part of the buffer. */
  lemma TurnFits(cfg: Config, media: Media, lbn: nat, left: nat)
    requires Request(cfg, lbn, left) && left > 0
    ensures SectorsToRead(cfg, left) == if left > 1 then 2 else 1
    ensures BytesToRead(cfg, left) == SectorsToRead(cfg, left) * 2048
    ensures Slice(cfg, lbn) == lbn / cfg.sectorsPerSlice < 9
    ensures |TurnBytes(cfg, media, lbn, left)| <= SectorsToRead(cfg, left) * 2048
    ensures U32(lbn + SectorsToRead(cfg, left)) == lbn + SectorsToRead(cfg, left)
    ensures Request(cfg, lbn + SectorsToRead(cfg, left), left - SectorsToRead(cfg, left))
  {
    TurnSize(cfg, left);
    TurnLength(cfg, lbn, left);
    TurnSlice(cfg, lbn, left);
    hide Place, DeviceLBA, DiskSectors, BytesToRead, SectorsToRead, Slice;
    TurnRest(cfg, lbn, left, SectorsToRead(cfg, left));
    hide Request, U32, DeviceBytes;
  }

  lemma TurnSlice(cfg: Config, lbn: nat, left: nat)
    requires Request(cfg, lbn, left) && left > 0
    ensures Slice(cfg, lbn) == lbn / cfg.sectorsPerSlice < 9
  {
    PrefixRequest(cfg, lbn, left, 1);
    hide Request, Slice, Place;
    AddressForms(cfg, lbn);
  }

  lemma TurnRest(cfg: Config, lbn: nat, left: nat, n: nat)
    requires Request(cfg, lbn, left) && n <= left
    ensures U32(lbn + n) == lbn + n && Request(cfg, lbn + n, left - n)
  {
    hide Place;
  }

  lemma TurnSize(cfg: Config, left: nat)
    requires Configured(cfg) && 0 < left && left * 2048 < TWO_32
    ensures SectorsToRead(cfg, left) == if left > 1 then 2 else 1
    ensures BytesToRead(cfg, left) == SectorsToRead(cfg, left) * 2048
  {
  }

  /** The length of what a turn copies, by device sector size and distance to the slice end. */
  lemma TurnLength(cfg: Config, lbn: nat, left: nat)
    requires Configured(cfg) && 0 < left && left * 2048 < TWO_32
    ensures var bytes := BytesToRead(cfg, left);
            var cut := lbn % cfg.sectorsPerSlice + SectorsToRead(cfg, left) > cfg.sectorsPerSlice;
            bytes >= cfg.sectorSz ==>
              DiskSectors(cfg, lbn, left) * cfg.sectorSz == if cut then bytes - cfg.sectorSz else bytes
  {
    TurnSize(cfg, left);
    var bytes, rel := BytesToRead(cfg, left), lbn % cfg.sectorsPerSlice;
    hide SectorsToRead, BytesToRead;
    if bytes >= cfg.sectorSz {
      WholeSectors(bytes, cfg.sectorSz);
      var temp := rel + SectorsToRead(cfg, left) - cfg.sectorsPerSlice;
      assert rel < cfg.sectorsPerSlice && temp <= 1;
      assert DiskSectors(cfg, lbn, left) == bytes / cfg.sectorSz - if temp > 0 then 1 else 0;
    }
  }

  lemma WholeSectors(bytes: nat, sz: nat)
    requires bytes in {2048, 4096} && sz in {512, 1024, 2048, 4096} && sz <= bytes
    ensures 0 < bytes / sz == U8(bytes / sz) && U8(bytes / sz - 1) == bytes / sz - 1
    ensures bytes / sz * sz == bytes && (bytes / sz - 1) * sz == bytes - sz
  {
    if sz == 512 {
    } else if sz == 1024 {
    } else if sz == 2048 {
    } else {
    }
  }

  /* ---- When a read is faithful ---- */

  /** The bytes of sectors lbn..lbn+n-1 of the image, each from its own place. */
  function ImageBytes(cfg: Config, media: Media, lbn: nat, n: nat): (d: seq<Byte>)
    requires Request(cfg, lbn, n)
    ensures |d| == n * 2048
    decreases n
  {
    if n == 0 then [] else
      DeviceBytes(media, 1, Place(cfg, lbn), 2048) + ImageBytes(cfg, media, lbn + 1, n - 1)
  }

  /** On every device and for every buffer, a read fills the buffer with the image's sectors. */
  ghost predicate FaithfulRead(cfg: Config, lbn: nat, n: nat)
    requires Request(cfg, lbn, n)
  {
    forall media: Media, buf: seq<Byte>, at: nat {:trigger ReadSector(cfg, media, lbn, n, buf, at)} ::
      at + n * 2048 <= |buf| ==>
        ReadSector(cfg, media, lbn, n, buf, at)[at..at + n * 2048] == ImageBytes(cfg, media, lbn, n)
  }

  /** What must hold of a turn that starts at `lbn`: the slice offset in bytes fits 32 bits, it is
      the start of a device sector, and a two-sector turn does not cross the end of the slice. */
  predicate GoodTurn(cfg: Config, lbn: nat, left: nat)
    requires Configured(cfg)
  {
    var rel := lbn % cfg.sectorsPerSlice;
    OffsetFits(rel, cfg.sectorSz) && (left > 1 ==> rel + 2 <= cfg.sectorsPerSlice)
  }

  /** The byte offset of sector `rel` of a slice fits 32 bits and begins a device sector. */
  predicate OffsetFits(rel: nat, sz: nat)
    requires sz > 0
  {
    rel < 0x20_0000 && (rel * 2048) % sz == 0
  }

  /** The turns of a read start at every second sector. */
  predicate GoodRead(cfg: Config, lbn: nat, n: nat)
    requires Configured(cfg)
  {
    forall k :: 0 <= k < n && k % 2 == 0 ==> GoodTurnAt(cfg, lbn, n, k)
  }

  predicate GoodTurnAt(cfg: Config, lbn: nat, n: nat, k: nat)
    requires Configured(cfg) && k < n
  {
    GoodTurn(cfg, lbn + k, n - k)
  }

  /** The device address of a turn is that of its first sector exactly when the offset fits and is
      aligned; otherwise it lies before it. */
  lemma DeviceAddress(cfg: Config, lbn: nat)
    requires Request(cfg, lbn, 1)
    ensures Slice(cfg, lbn) < 9
    ensures var rel := lbn % cfg.sectorsPerSlice;
            var address := DeviceLBA(cfg, lbn) * cfg.sectorSz;
            if OffsetFits(rel, cfg.sectorSz) then address == Place(cfg, lbn)
            else address < Place(cfg, lbn)
  {
    AddressForms(cfg, lbn);
    hide Request, U32, OffsetFits, DeviceLBA, Place, Slice;
    OffsetAddress(cfg.partLBA[lbn / cfg.sectorsPerSlice], lbn % cfg.sectorsPerSlice, cfg.sectorSz);
  }

  lemma AddressForms(cfg: Config, lbn: nat)
    requires Request(cfg, lbn, 1)
    ensures Configured(cfg) && Slice(cfg, lbn) == lbn / cfg.sectorsPerSlice < 9
    ensures var part, rel := cfg.partLBA[lbn / cfg.sectorsPerSlice], lbn % cfg.sectorsPerSlice;
            && rel < TWO_32
            && Place(cfg, lbn) == part * cfg.sectorSz + rel * 2048
            && Place(cfg, lbn) + 2048 <= TWO_32 * cfg.sectorSz
            && DeviceLBA(cfg, lbn) == U32(part + U32(U32(rel) * 2048) / cfg.sectorSz)
  {
    assert lbn / cfg.sectorsPerSlice < 9 && Place(cfg, lbn) + 2048 <= TWO_32 * cfg.sectorSz;
    SliceRest(lbn, cfg.sectorsPerSlice);
  }

  lemma SliceRest(lbn: nat, sps: nat)
    requires sps > 0
    ensures lbn - (lbn / sps) * sps == lbn % sps
  {
  }

  predicate AddressOf(part: nat, rel: nat, sz: nat)
    requires sz > 0
  {
    var address := U32(part + U32(U32(rel) * 2048) / sz) * sz;
    if OffsetFits(rel, sz) then address == part * sz + rel * 2048
    else address < part * sz + rel * 2048
  }

  lemma OffsetAddress(part: nat, rel: nat, sz: nat)
    requires sz in {512, 1024, 2048, 4096} && rel < TWO_32
    requires part * sz + rel * 2048 + 2048 <= TWO_32 * sz
    ensures AddressOf(part, rel, sz)
  {
    hide AddressOf;
    if sz == 512 {
      OffsetAddress512(part, rel);
    } else if sz == 1024 {
      OffsetAddress1024(part, rel);
    } else if sz == 2048 {
      OffsetAddress2048(part, rel);
    } else {
      OffsetAddress4096(part, rel);
    }
  }

  /** The byte offset keeps the low 21 bits of the sector offset. */
  lemma WrappedOffset(rel: nat)
    requires rel < TWO_32
    ensures U32(U32(rel) * 2048) == rel % 0x20_0000 * 2048
  {
    var q, r := rel / 0x20_0000, rel % 0x20_0000;
    assert rel == q * 0x20_0000 + r;
    assert rel * 2048 == q * TWO_32 + r * 2048;
  }

  lemma Fits32(x: nat)
    requires x < TWO_32
    ensures U32(x) == x
  {
  }

  lemma OffsetAddress512(part: nat, rel: nat)
    requires rel < TWO_32 && part * 512 + rel * 2048 + 2048 <= TWO_32 * 512
    ensures AddressOf(part, rel, 512)
  {
    var r := rel % 0x20_0000;
    WrappedOffset(rel);
    assert r <= rel && (r == rel <==> rel < 0x20_0000);
    assert r * 2048 / 512 == 4 * r;
    Fits32(part + 4 * r);
    hide U32;
  }

  lemma OffsetAddress1024(part: nat, rel: nat)
    requires rel < TWO_32 && part * 1024 + rel * 2048 + 2048 <= TWO_32 * 1024
    ensures AddressOf(part, rel, 1024)
  {
    var r := rel % 0x20_0000;
    WrappedOffset(rel);
    assert r <= rel && (r == rel <==> rel < 0x20_0000);
    assert r * 2048 / 1024 == 2 * r;
    Fits32(part + 2 * r);
    hide U32;
  }

  lemma OffsetAddress2048(part: nat, rel: nat)
    requires rel < TWO_32 && part * 2048 + rel * 2048 + 2048 <= TWO_32 * 2048
    ensures AddressOf(part, rel, 2048)
  {
    var r := rel % 0x20_0000;
    WrappedOffset(rel);
    assert r <= rel && (r == rel <==> rel < 0x20_0000);
    assert r * 2048 / 2048 == r;
    Fits32(part + r);
    hide U32;
  }

  lemma OffsetAddress4096(part: nat, rel: nat)
    requires rel < TWO_32 && part * 4096 + rel * 2048 + 2048 <= TWO_32 * 4096
    ensures AddressOf(part, rel, 4096)
  {
    var r := rel % 0x20_0000;
    WrappedOffset(rel);
    assert r <= rel && (r == rel <==> rel < 0x20_0000);
    assert r * 2048 / 4096 == r / 2;
    Fits32(part + r / 2);
    hide U32;
  }

  /* ---- Good reads are faithful ---- */

  lemma IsConfigured(cfg: Config, lbn: nat, n: nat)
    requires Request(cfg, lbn, n)
    ensures Configured(cfg)
  {
  }

  /** A read changes nothing outside its part of the buffer. */
  lemma {:induction false} OutsideUntouched(cfg: Config, media: Media, lbn: nat, left: nat, buf: seq<Byte>, at: nat)
    requires Request(cfg, lbn, left) && at + left * 2048 <= |buf|
    ensures var r := ReadSector(cfg, media, lbn, left, buf, at);
            r[..at] == buf[..at] && r[at + left * 2048..] == buf[at + left * 2048..]
    decreases left
  {
    hide Request, Configured, TurnBytes, SectorsToRead, BytesToRead, Slice;
    if left > 0 {
      IsConfigured(cfg, lbn, left);
      TurnFits(cfg, media, lbn, left);
      var n := SectorsToRead(cfg, left);
      var buf' := Overwrite(buf, at, TurnBytes(cfg, media, lbn, left));
      OutsideUntouched(cfg, media, lbn + n, left - n, buf', at + n * 2048);
    }
  }

  lemma NextPlace(cfg: Config, lbn: nat)
    requires Request(cfg, lbn, 2) && lbn % cfg.sectorsPerSlice + 2 <= cfg.sectorsPerSlice
    ensures Place(cfg, lbn + 1) == Place(cfg, lbn) + 2048
  {
    NextInSlice(lbn, cfg.sectorsPerSlice);
  }

  lemma NextInSlice(lbn: nat, sps: nat)
    requires sps > 0 && lbn % sps + 2 <= sps
    ensures (lbn + 1) / sps == lbn / sps && (lbn + 1) % sps == lbn % sps + 1
  {
    var q, r := lbn / sps, lbn % sps;
    assert lbn + 1 == q * sps + (r + 1);
    DivModUnique(lbn + 1, sps, q, r + 1);
  }

  lemma DivModUnique(x: nat, d: nat, q: nat, r: nat)
    requires d > 0 && x == q * d + r && r < d
    ensures x / d == q && x % d == r
  {
    var q', r' := x / d, x % d;
    assert x == q' * d + r';
    if q' < q {
      MulOrder(q', q, d);
    } else if q < q' {
      MulOrder(q, q', d);
    }
  }

  lemma Distributes(x: nat, y: nat, d: nat)
    ensures (x + y) * d == x * d + y * d
  {
  }

  lemma Nonnegative(x: nat, d: nat)
    ensures x * d >= 0
  {
  }

  lemma MulOrder(a: nat, b: nat, d: nat)
    requires a < b
    ensures a * d + d <= b * d
  {
    Distributes(a, b - a, d);
    Distributes(1, b - a - 1, d);
    Nonnegative(b - a - 1, d);
  }

  lemma PrefixRequest(cfg: Config, lbn: nat, left: nat, n: nat)
    requires Request(cfg, lbn, left) && n <= left
    ensures Request(cfg, lbn, n) && Request(cfg, lbn + n, left - n)
  {
  }

  /** A good turn reads its one or two sectors. */
  lemma GoodTurnReads(cfg: Config, media: Media, lbn: nat, left: nat)
    requires Request(cfg, lbn, left) && left > 0 && GoodTurn(cfg, lbn, left)
    ensures Slice(cfg, lbn) < 9
    ensures var n := if left > 1 then 2 else 1;
            Request(cfg, lbn, n) && TurnBytes(cfg, media, lbn, left) == ImageBytes(cfg, media, lbn, n)
  {
    hide Place, DeviceLBA, DiskSectors, BytesToRead, SectorsToRead, Slice;
    var n := if left > 1 then 2 else 1;
    PrefixRequest(cfg, lbn, left, 1);
    PrefixRequest(cfg, lbn, left, n);
    PrefixRequest(cfg, lbn, n, 1);
    TurnSize(cfg, left);
    TurnLength(cfg, lbn, left);
    DeviceAddress(cfg, lbn);
    var from := Place(cfg, lbn);
    assert TurnBytes(cfg, media, lbn, left) == DeviceBytes(media, 1, from, n * 2048);
    assert ImageBytes(cfg, media, lbn + 1, 0) == [];
    if n == 2 {
      NextPlace(cfg, lbn);
      PrefixRequest(cfg, lbn + 1, 1, 1);
      assert ImageBytes(cfg, media, lbn + 2, 0) == [];
      assert ImageBytes(cfg, media, lbn + 1, 1) == DeviceBytes(media, 1, from + 2048, 2048);
    }
  }

  lemma {:induction false} ImageSplits(cfg: Config, media: Media, lbn: nat, n: nat, k: nat)
    requires Request(cfg, lbn, n) && k <= n
    ensures Request(cfg, lbn, k) && Request(cfg, lbn + k, n - k)
    ensures ImageBytes(cfg, media, lbn, n) == ImageBytes(cfg, media, lbn, k) + ImageBytes(cfg, media, lbn + k, n - k)
    decreases k
  {
    PrefixRequest(cfg, lbn, n, k);
    hide Request, Place;
    if k > 0 {
      PrefixRequest(cfg, lbn, n, 1);
      ImageSplits(cfg, media, lbn + 1, n - 1, k - 1);
    }
  }

  lemma {:induction false} GoodReadIsFaithful(cfg: Config, media: Media, lbn: nat, left: nat, buf: seq<Byte>, at: nat)
    requires Request(cfg, lbn, left) && at + left * 2048 <= |buf| && GoodRead(cfg, lbn, left)
    ensures ReadSector(cfg, media, lbn, left, buf, at)[at..at + left * 2048] == ImageBytes(cfg, media, lbn, left)
    decreases left
  {
    hide Request, Configured, TurnBytes, SectorsToRead, BytesToRead, Slice, GoodTurn, ImageBytes;
    IsConfigured(cfg, lbn, left);
    if left == 0 {
      ImageSplits(cfg, media, lbn, 0, 0);
    } else {
      TurnFits(cfg, media, lbn, left);
      assert GoodTurnAt(cfg, lbn, left, 0);
      GoodTurnReads(cfg, media, lbn, left);
      var n := SectorsToRead(cfg, left);
      var buf' := Overwrite(buf, at, TurnBytes(cfg, media, lbn, left));
      RestIsGood(cfg, lbn, left, n);
      GoodReadIsFaithful(cfg, media, lbn + n, left - n, buf', at + n * 2048);
      OutsideUntouched(cfg, media, lbn + n, left - n, buf', at + n * 2048);
      ImageSplits(cfg, media, lbn, left, n);
      var r := ReadSector(cfg, media, lbn, left, buf, at);
      assert r[..at + n * 2048] == buf'[..at + n * 2048];
      assert r[at..at + left * 2048] == r[..at + n * 2048][at..] + r[at + n * 2048..at + n * 2048 + (left - n) * 2048];
    }
  }

  lemma RestIsGood(cfg: Config, lbn: nat, left: nat, n: nat)
    requires Configured(cfg) && GoodRead(cfg, lbn, left) && n <= left && (n == 2 || n == left)
    ensures GoodRead(cfg, lbn + n, left - n)
  {
    forall k | 0 <= k < left - n && k % 2 == 0
      ensures GoodTurnAt(cfg, lbn + n, left - n, k)
    {
      assert GoodTurnAt(cfg, lbn, left, n + k);
    }
  }

  /* ---- Other reads are not ---- */

  /** A read is its first turn, then the read of the rest. */
  lemma FirstTurn(cfg: Config, media: Media, lbn: nat, left: nat, buf: seq<Byte>, at: nat)
    requires Request(cfg, lbn, left) && at + left * 2048 <= |buf| && left > 0
    ensures var n := if left > 1 then 2 else 1;
            && Configured(cfg) && Slice(cfg, lbn) < 9
            && |TurnBytes(cfg, media, lbn, left)| <= n * 2048
            && Request(cfg, lbn + n, left - n)
            && ReadSector(cfg, media, lbn, left, buf, at)
               == ReadSector(cfg, media, lbn + n, left - n,
                             Overwrite(buf, at, TurnBytes(cfg, media, lbn, left)), at + n * 2048)
  {
    hide Request, TurnBytes, BytesToRead, SectorsToRead, Slice, Overwrite;
    IsConfigured(cfg, lbn, left);
    TurnFits(cfg, media, lbn, left);
  }

  /** What the turn that starts `k` sectors into a read leaves in the buffer is what stays there. */
  lemma {:induction false} TurnStays(
    cfg: Config, media: Media, lbn: nat, left: nat, buf: seq<Byte>, at: nat, k: nat, x: nat)
    requires Request(cfg, lbn, left) && at + left * 2048 <= |buf| && k < left && k % 2 == 0
    requires k * 2048 <= x < (if k + 1 < left then k + 2 else k + 1) * 2048
    ensures Slice(cfg, lbn + k) < 9
    ensures var d := TurnBytes(cfg, media, lbn + k, left - k);
            ReadSector(cfg, media, lbn, left, buf, at)[at + x]
            == if x - k * 2048 < |d| then d[x - k * 2048] else buf[at + x]
    decreases left
  {
    hide Request, Configured, TurnBytes, SectorsToRead, BytesToRead, Slice, ReadSector, Overwrite;
    FirstTurn(cfg, media, lbn, left, buf, at);
    if k == 0 {
      FirstTurnStays(cfg, media, lbn, left, buf, at, x);
    } else {
      var buf' := Overwrite(buf, at, TurnBytes(cfg, media, lbn, left));
      TurnStays(cfg, media, lbn + 2, left - 2, buf', at + 4096, k - 2, x - 4096);
      assert buf'[at + x] == buf[at + x];
    }
  }

  lemma FirstTurnStays(cfg: Config, media: Media, lbn: nat, left: nat, buf: seq<Byte>, at: nat, x: nat)
    requires Request(cfg, lbn, left) && at + left * 2048 <= |buf| && left > 0
    requires x < (if left > 1 then 4096 else 2048)
    ensures Slice(cfg, lbn) < 9
    ensures var d := TurnBytes(cfg, media, lbn, left);
            ReadSector(cfg, media, lbn, left, buf, at)[at + x] == if x < |d| then d[x] else buf[at + x]
  {
    hide Request, Configured, TurnBytes, SectorsToRead, BytesToRead, Slice, ReadSector, Overwrite;
    FirstTurn(cfg, media, lbn, left, buf, at);
    var n := if left > 1 then 2 else 1;
    var buf' := Overwrite(buf, at, TurnBytes(cfg, media, lbn, left));
    var r := ReadSector(cfg, media, lbn, left, buf, at);
    OutsideUntouched(cfg, media, lbn + n, left - n, buf', at + n * 2048);
    assert r[at + x] == r[..at + n * 2048][at + x] == buf'[at + x];
  }

  /** Byte `x` of sector `k` of a read, if it is read right. */
  lemma ImageByte(cfg: Config, media: Media, lbn: nat, n: nat, k: nat, x: nat)
    requires Request(cfg, lbn, n) && k < n && x < 2048
    ensures Configured(cfg) && (lbn + k) / cfg.sectorsPerSlice < 9
    ensures ImageBytes(cfg, media, lbn, n)[k * 2048 + x] == media(Place(cfg, lbn + k) + x)
  {
    ImageSplits(cfg, media, lbn, n, k);
    FirstImageByte(cfg, media, lbn + k, n - k, x);
    hide Place, Request, ImageBytes;
  }

  /** The image lies in the slices one behind the other: sector `rel` of slice number `slice` is the
      image's sector slice * sectorsPerSlice + rel, and these are its bytes. */
  lemma ImageByteAt(cfg: Config, media: Media, lbn: nat, n: nat, k: nat, x: nat, slice: nat, rel: nat)
    requires Request(cfg, lbn, n) && k < n && x < 2048
    requires lbn + k == slice * cfg.sectorsPerSlice + rel && rel < cfg.sectorsPerSlice
    ensures slice < |cfg.partLBA|
    ensures ImageBytes(cfg, media, lbn, n)[k * 2048 + x] == media(cfg.partLBA[slice] * cfg.sectorSz + rel * 2048 + x)
  {
    ImageByte(cfg, media, lbn, n, k, x);
    hide Request, ImageBytes;
    PlaceAt(cfg, lbn + k, slice, rel);
  }

  lemma PlaceAt(cfg: Config, s: nat, slice: nat, rel: nat)
    requires Configured(cfg) && s / cfg.sectorsPerSlice < 9
    requires s == slice * cfg.sectorsPerSlice + rel && rel < cfg.sectorsPerSlice
    ensures slice < 9 && Place(cfg, s) == cfg.partLBA[slice] * cfg.sectorSz + rel * 2048
  {
    SliceAndRest(s, cfg.sectorsPerSlice, slice, rel);
  }

  lemma SliceAndRest(s: nat, sps: nat, slice: nat, rel: nat)
    requires rel < sps && s == slice * sps + rel
    ensures s / sps == slice && s % sps == rel
  {
    var q := s / sps;
    SliceRest(s, sps);
    if q < slice { MulOrder(q, slice, sps); } else if q > slice { MulOrder(slice, q, sps); }
  }

  lemma FirstImageByte(cfg: Config, media: Media, lbn: nat, n: nat, x: nat)
    requires Request(cfg, lbn, n) && 0 < n && x < 2048
    ensures Configured(cfg) && lbn / cfg.sectorsPerSlice < 9
    ensures ImageBytes(cfg, media, lbn, n)[x] == media(Place(cfg, lbn) + x)
  {
    hide Place;
    assert ImageBytes(cfg, media, lbn, n)[x] == DeviceBytes(media, 1, Place(cfg, lbn), 2048)[x];
  }

  /** A turn from the wrong device address is seen in its first byte. */
  lemma WrongAddressShows(cfg: Config, lbn: nat, n: nat, k: nat)
    requires Request(cfg, lbn, n) && k < n && k % 2 == 0
    requires Slice(cfg, lbn + k) < 9 && (lbn + k) / cfg.sectorsPerSlice < 9
    requires DeviceLBA(cfg, lbn + k) * cfg.sectorSz != Place(cfg, lbn + k)
    ensures !FaithfulRead(cfg, lbn, n)
  {
    hide Request, Configured, TurnBytes, DeviceLBA, Place, Slice;
    IsConfigured(cfg, lbn, n);
    var place, buf := Place(cfg, lbn + k), seq<Byte>(n * 2048, _ => 0);
    var media: Media := (a: int) => if a == place then 1 else 0;
    TurnStays(cfg, media, lbn, n, buf, 0, k, k * 2048);
    FirstByte(cfg, media, lbn + k, n - k);
    ImageByte(cfg, media, lbn, n, k, 0);
    assert ReadSector(cfg, media, lbn, n, buf, 0)[0..n * 2048][k * 2048] == 0;
  }

  lemma FirstByte(cfg: Config, media: Media, lbn: nat, left: nat)
    requires Configured(cfg) && Slice(cfg, lbn) < 9
    ensures var d := TurnBytes(cfg, media, lbn, left);
            |d| > 0 ==> d[0] == media(DeviceLBA(cfg, lbn) * cfg.sectorSz)
  {
  }

  /** A turn cut short at the end of a slice is seen in its last byte, which nothing writes. */
  lemma CutTurnShows(cfg: Config, lbn: nat, n: nat, k: nat)
    requires Request(cfg, lbn, n) && k + 1 < n && k % 2 == 0
    requires (lbn + k) % cfg.sectorsPerSlice + 2 > cfg.sectorsPerSlice
    ensures !FaithfulRead(cfg, lbn, n)
  {
    hide Request, DeviceLBA, Place, Slice, DiskSectors, BytesToRead, SectorsToRead, ReadSector, ImageBytes;
    var buf, media: Media := seq<Byte>(n * 2048, _ => 0), (a: int) => 1;
    TurnStays(cfg, media, lbn, n, buf, 0, k, (k + 2) * 2048 - 1);
    SizeBound(cfg, lbn, n);
    TurnSize(cfg, n - k);
    TurnLength(cfg, lbn + k, n - k);
    ImageByte(cfg, media, lbn, n, k + 1, 2047);
    assert ReadSector(cfg, media, lbn, n, buf, 0)[0..n * 2048][(k + 2) * 2048 - 1] == 0;
  }

  lemma SizeBound(cfg: Config, lbn: nat, n: nat)
    requires Request(cfg, lbn, n)
    ensures Configured(cfg) && n * 2048 < TWO_32
  {
  }

  lemma BadTurnShows(cfg: Config, lbn: nat, n: nat, k: nat)
    requires Request(cfg, lbn, n) && k < n && k % 2 == 0
    requires Configured(cfg) && !GoodTurnAt(cfg, lbn, n, k)
    ensures !FaithfulRead(cfg, lbn, n)
  {
    hide FaithfulRead, Request, Place, DeviceLBA, Slice, OffsetFits;
    if OffsetFits((lbn + k) % cfg.sectorsPerSlice, cfg.sectorSz) {
      CutTurnShows(cfg, lbn, n, k);
    } else {
      WrongPlace(cfg, lbn, n, k);
      WrongAddressShows(cfg, lbn, n, k);
    }
  }

  lemma WrongPlace(cfg: Config, lbn: nat, n: nat, k: nat)
    requires Request(cfg, lbn, n) && k < n && Configured(cfg)
    requires !OffsetFits((lbn + k) % cfg.sectorsPerSlice, cfg.sectorSz)
    ensures Slice(cfg, lbn + k) < 9 && (lbn + k) / cfg.sectorsPerSlice < 9
    ensures DeviceLBA(cfg, lbn + k) * cfg.sectorSz != Place(cfg, lbn + k)
  {
    PrefixRequest(cfg, lbn, n, k);
    PrefixRequest(cfg, lbn + k, n - k, 1);
    DeviceAddress(cfg, lbn + k);
    hide Place, DeviceLBA, Slice, OffsetFits;
  }

  /** The main theorem: a read is faithful exactly when each of its turns starts at a device sector
      less than 2^21 sectors into its slice and does not cross the end of the slice. */
  lemma FaithfulExactlyWhen(cfg: Config, lbn: nat, n: nat)
    requires Request(cfg, lbn, n)
    ensures FaithfulRead(cfg, lbn, n) <==> GoodRead(cfg, lbn, n)
  {
    hide Request, Place, DeviceLBA, ReadSector, ImageBytes;
    IsConfigured(cfg, lbn, n);
    if GoodRead(cfg, lbn, n) {
      forall media: Media, buf: seq<Byte>, at: nat | at + n * 2048 <= |buf|
        ensures ReadSector(cfg, media, lbn, n, buf, at)[at..at + n * 2048] == ImageBytes(cfg, media, lbn, n)
      {
        GoodReadIsFaithful(cfg, media, lbn, n, buf, at);
      }
    } else {
      var k :| 0 <= k < n && k % 2 == 0 && !GoodTurnAt(cfg, lbn, n, k);
      BadTurnShows(cfg, lbn, n, k);
    }
  }

  /* ---- The reader as it runs ---- */

  const PHYSECSIZE := 2048

  /** The scratch sector after a read: the device sector of a last single-sector turn of a device with
      4096-byte sectors goes through it. */
  function ScratchAfter(cfg: Config, media: Media, lbn: nat, n: nat, scratch: seq<Byte>): (r: seq<Byte>)
    requires Request(cfg, lbn, n) && cfg.sectorSz <= |scratch|
    ensures |r| == |scratch|
  {
    if cfg.sectorSz == 4096 && n % 2 == 1 then
      LastSlice(cfg, lbn, n);
      Overwrite(scratch, 0, DeviceBytes(media, 4096, DeviceLBA(cfg, lbn + n - 1), 4096))
    else scratch
  }

  lemma ScratchKept(cfg: Config, media: Media, lbn: nat, n: nat, scratch: seq<Byte>)
    requires Request(cfg, lbn, n) && cfg.sectorSz <= |scratch| && (cfg.sectorSz < 4096 || n % 2 == 0)
    ensures ScratchAfter(cfg, media, lbn, n, scratch) == scratch
  {
    hide Request;
  }

  /** Where its last turn is good, an odd read on 4096-byte sectors leaves there the device sector that
      begins with the last sector read. */
  lemma ScratchHolds(cfg: Config, media: Media, lbn: nat, n: nat, scratch: seq<Byte>, x: nat, slice: nat, rel: nat)
    requires Request(cfg, lbn, n) && cfg.sectorSz == 4096 <= |scratch| && n % 2 == 1 && x < |scratch|
    requires Configured(cfg) && GoodTurn(cfg, lbn + n - 1, 1)
    requires lbn + n - 1 == slice * cfg.sectorsPerSlice + rel && rel < cfg.sectorsPerSlice
    ensures slice < |cfg.partLBA|
    ensures ScratchAfter(cfg, media, lbn, n, scratch)[x]
            == if x < 4096 then media(cfg.partLBA[slice] * 4096 + rel * 2048 + x) else scratch[x]
  {
    PrefixRequest(cfg, lbn, n, n - 1);
    LastSlice(cfg, lbn, n);
    DeviceAddress(cfg, lbn + n - 1);
    AddressForms(cfg, lbn + n - 1);
    hide Request, DeviceLBA, Slice, Place;
    PlaceAt(cfg, lbn + n - 1, slice, rel);
  }

  lemma LastSlice(cfg: Config, lbn: nat, n: nat)
    requires Request(cfg, lbn, n) && n > 0
    ensures Configured(cfg) && Slice(cfg, lbn + n - 1) < 9
  {
    PrefixRequest(cfg, lbn, n, n - 1);
    hide Request;
    AddressForms(cfg, lbn + n - 1);
  }

  lemma NothingRead(cfg: Config, media: Media, lbn: nat, buf: seq<Byte>, at: nat, scratch: seq<Byte>)
    requires at <= |buf|
    ensures Request(cfg, lbn, 0) ==> ReadSector(cfg, media, lbn, 0, buf, at) == buf
    ensures Request(cfg, lbn, 0) && cfg.sectorSz <= |scratch| ==> ScratchAfter(cfg, media, lbn, 0, scratch) == scratch
  {
  }

  predicate SameParity(a: nat, b: nat) { a % 2 == b % 2 }

  /** What the turn with `left` sectors to go, of a read of `n`, does to a scratch sector not yet used. */
  lemma ScratchTurn(cfg: Config, media: Media, lbn: nat, n: nat, left: nat, scratch: seq<Byte>)
    requires Request(cfg, lbn, n) && cfg.sectorSz <= |scratch| && 0 < left <= n && SameParity(left, n)
    ensures Configured(cfg) && Slice(cfg, lbn + n - left) < 9
    ensures var lba := DeviceLBA(cfg, lbn + n - left);
            (if BytesToRead(cfg, left) < cfg.sectorSz
             then Overwrite(scratch, 0, DeviceBytes(media, cfg.sectorSz, lba, cfg.sectorSz)) else scratch)
            == if left > 2 then scratch else ScratchAfter(cfg, media, lbn, n, scratch)
    ensures left > 2 ==> SameParity(left - 2, n)
  {
    hide Request, DeviceLBA, Slice, Overwrite, BytesToRead, SectorsToRead, SameParity, Place, DeviceBytes;
    PrefixRequest(cfg, lbn, n, n - left);
    TurnFits(cfg, media, lbn + n - left, left);
    IsConfigured(cfg, lbn, n);
    ParityCases(left, n);
    if left == 1 && cfg.sectorSz == 4096 { LastSlice(cfg, lbn, n); }
  }

  lemma ParityCases(left: nat, n: nat)
    requires SameParity(left, n)
    ensures left == 1 ==> n % 2 == 1
    ensures left == 2 ==> n % 2 == 0
    ensures left > 2 ==> SameParity(left - 2, n)
  {
  }

  /** The scratch sector is never allocated (`Reader.DeviceInit`), so it is the memory at address 0: a
      read leaves that memory alone, on every device and whatever it holds, exactly when the device's
      sectors are smaller than 4096 bytes or the number of sectors is even. */
  lemma LowMemoryKeptExactlyWhen(cfg: Config, lbn: nat, n: nat)
    requires Request(cfg, lbn, n)
    ensures (forall media: Media, low: seq<Byte> :: 4096 <= |low| ==> ScratchAfter(cfg, media, lbn, n, low) == low)
            <==> cfg.sectorSz < 4096 || n % 2 == 0
  {
    IsConfigured(cfg, lbn, n);
    hide Request;
    if cfg.sectorSz == 4096 && n % 2 == 1 {
      LastSlice(cfg, lbn, n);
      var media: Media, low := (a: int) => 1, seq<Byte>(4096, _ => 0);
      hide DeviceLBA, Slice, Configured;
      assert ScratchAfter(cfg, media, lbn, n, low)[0] == 1;
    }
  }

  class Reader {
    const media: Media
    const partLBA: seq<nat>
    const xferBlkSz: nat
    const sectorsPerSlice: nat
    const lowMemory: array<Byte>            // what lies at address 0
    var sectorSz: nat
    var partialReadBuffer: array?<Byte>

    /** The module as the loader configures it. Only the static sector size is known. */
    constructor (media: Media, cfg: Config, lowMemory: array<Byte>)
      requires Configured(cfg)
      ensures this.media == media && Conf() == cfg.(sectorSz := 512)
      ensures this.lowMemory == lowMemory && partialReadBuffer == null
    {
      this.media, partLBA, xferBlkSz, sectorsPerSlice := media, cfg.partLBA, cfg.xferBlkSz, cfg.sectorsPerSlice;
      this.lowMemory, sectorSz, partialReadBuffer := lowMemory, 512, null;
    }

    /** `device_init`; `connected` is the sector size of the device that is found. The scratch sector is
        allocated by the size known before that. */
    method DeviceInit(connected: nat)
      modifies this
      ensures sectorSz == connected
      ensures old(sectorSz) <= 2048 ==> partialReadBuffer == old(partialReadBuffer)
      ensures old(sectorSz) > 2048 ==> fresh(partialReadBuffer) && partialReadBuffer.Length == old(sectorSz)
    {
      if sectorSz > PHYSECSIZE { partialReadBuffer := new Byte[sectorSz](_ => 0); }
      sectorSz := connected;
    }

    /** Whatever device is found, the scratch sector is null when reading begins. */
    static method Started(media: Media, cfg: Config, lowMemory: array<Byte>) returns (r: Reader)
      requires Configured(cfg) && 4096 <= lowMemory.Length
      ensures fresh(r) && r.media == media && r.Conf() == cfg
      ensures r.partialReadBuffer == null && r.Ready() && r.Scratch() == lowMemory
    {
      r := new Reader(media, cfg, lowMemory);
      r.DeviceInit(cfg.sectorSz);
    }

    /** Where a device sector larger than the rest of a read goes; a null pointer is address 0. */
    function Scratch(): array<Byte>
      reads this
    {
      if partialReadBuffer == null then lowMemory else partialReadBuffer
    }

    ghost predicate Ready()
      reads this
    {
      sectorSz <= Scratch().Length
    }

    ghost function Conf(): Config
      reads this
    {
      Config(partLBA, sectorSz, xferBlkSz, sectorsPerSlice)
    }

    /** `cbw_scsi_read_sector`: `count` device sectors to `destination[at..]`. */
    method DeviceRead(lba: nat, destination: array<Byte>, at: nat, count: nat)
      requires at + count * sectorSz <= destination.Length
      modifies destination
      ensures destination[..]
           == Overwrite(old(destination[..]), at, DeviceBytes(media, sectorSz, lba, count * sectorSz))
    {
      var n := count * sectorSz;
      forall t | 0 <= t < n {
        destination[at + t] := media(lba * sectorSz + t);
      }
    }

    /** `read_sector` into `buffer[at..]`; `bufferOffset` is the counter behind `bufferOffset_out`,
        None for a null pointer. */
    method ReadSectors(lbn: nat, sectors: nat, buffer: array<Byte>, at: nat, bufferOffset: Option<nat>)
      returns (offsetOut: Option<nat>)
      requires Request(Conf(), lbn, sectors) && at + sectors * 2048 <= buffer.Length
      requires bufferOffset.Some? ==> bufferOffset.value < TWO_32
      requires Ready() && buffer != Scratch()
      modifies buffer, Scratch()
      ensures Scratch()[..] == ScratchAfter(Conf(), media, lbn, sectors, old(Scratch()[..]))
      ensures buffer[..] == ReadSector(Conf(), media, lbn, sectors, old(buffer[..]), at)
      ensures match bufferOffset
              case None => offsetOut == None
              case Some(o) => offsetOut == Some((o + sectors * 2048) % 0x1_0000_0000)
      ensures sectorSz < 4096 || sectors % 2 == 0 ==> Scratch()[..] == old(Scratch()[..])
      ensures buffer[..at] == old(buffer[..at]) && buffer[at + sectors * 2048..] == old(buffer[at + sectors * 2048..])
      ensures GoodRead(Conf(), lbn, sectors) ==>
                buffer[at..at + sectors * 2048] == ImageBytes(Conf(), media, lbn, sectors)
    {
      hide Request, GoodTurnAt, ReadSector, ScratchAfter, ImageBytes;
      ghost var start := buffer[..];
      if sectorSz < 4096 || sectors % 2 == 0 { ScratchKept(Conf(), media, lbn, sectors, Scratch()[..]); }
      IsConfigured(Conf(), lbn, sectors);
      OutsideUntouched(Conf(), media, lbn, sectors, start, at);
      if GoodRead(Conf(), lbn, sectors) { GoodReadIsFaithful(Conf(), media, lbn, sectors, start, at); }
      offsetOut := Loop(lbn, sectors, buffer, at, bufferOffset);
    }

    /** The loop that is the whole of it. */
    method Loop(lbn: nat, sectors: nat, buffer: array<Byte>, at: nat, bufferOffset: Option<nat>)
      returns (offsetOut: Option<nat>)
      requires Request(Conf(), lbn, sectors) && at + sectors * 2048 <= buffer.Length
      requires bufferOffset.Some? ==> bufferOffset.value < TWO_32
      requires Ready() && buffer != Scratch()
      modifies buffer, Scratch()
      ensures Scratch()[..] == ScratchAfter(Conf(), media, lbn, sectors, old(Scratch()[..]))
      ensures buffer[..] == ReadSector(Conf(), media, lbn, sectors, old(buffer[..]), at)
      ensures offsetOut == Advanced(bufferOffset, sectors * 2048)
    {
      hide Request, Configured, Slice, SectorsToRead, BytesToRead, TurnBytes, Overwrite, U32;
      hide ReadSector, ScratchAfter, DeviceLBA, DeviceBytes, Advanced, SameParity;
      ghost var cfg, start, scratch := Conf(), buffer[..], Scratch()[..];
      IsConfigured(cfg, lbn, sectors);
      AdvanceStart(bufferOffset);
      NothingRead(cfg, media, lbn, start, at, scratch);
      EqualParity(sectors);
      var lsn, left, pos := lbn, sectors, at;
      offsetOut := bufferOffset;
      while left > 0
        invariant 0 <= left <= sectors && pos == at + (sectors - left) * 2048
        invariant Request(cfg, lsn, left) && lsn == lbn + (sectors - left)
        invariant left > 0 ==> SameParity(left, sectors)
        invariant ReadSector(cfg, media, lbn, sectors, start, at) == ReadSector(cfg, media, lsn, left, buffer[..], pos)
        invariant Scratch()[..] == if left > 0 then scratch else ScratchAfter(cfg, media, lbn, sectors, scratch)
        invariant offsetOut == Advanced(bufferOffset, (sectors - left) * 2048)
      {
        TurnFits(cfg, media, lsn, left);
        FirstTurn(cfg, media, lsn, left, buffer[..], pos);
        ScratchTurn(cfg, media, lbn, sectors, left, scratch);
        AdvanceStep(bufferOffset, (sectors - left) * 2048, BytesToRead(cfg, left));
        var bytes, count := Turn(lsn, left, buffer, pos);
        lsn, left, pos := U32(lsn + count), left - count, pos + bytes;
        if offsetOut.Some? { offsetOut := Some(U32(offsetOut.value + bytes)); }
      }
      NothingRead(cfg, media, lsn, buffer[..], pos, scratch);
    }

    static lemma EqualParity(n: nat)
      ensures SameParity(n, n)
    {
    }

    /** The counter `bytes` later. */
    static function Advanced(offset: Option<nat>, bytes: nat): Option<nat> {
      match offset
      case None => None
      case Some(o) => Some(U32(o + bytes))
    }

    static lemma AdvanceStart(offset: Option<nat>)
      requires offset.Some? ==> offset.value < TWO_32
      ensures Advanced(offset, 0) == offset
    {
    }

    static lemma AdvanceStep(offset: Option<nat>, done: nat, bytes: nat)
      ensures Advanced(offset, done + bytes) == match Advanced(offset, done)
                                                case None => None
                                                case Some(o) => Some(U32(o + bytes))
    {
    }

    /** One device sector into the scratch sector, and the bytes asked for from there. */
    method ReadPartial(lba: nat, buffer: array<Byte>, pos: nat, bytes: nat)
      requires Ready() && buffer != Scratch() && bytes <= sectorSz && pos + bytes <= buffer.Length
      modifies buffer, Scratch()
      ensures Scratch()[..] == Overwrite(old(Scratch()[..]), 0, DeviceBytes(media, sectorSz, lba, sectorSz))
      ensures buffer[..] == Overwrite(old(buffer[..]), pos, DeviceBytes(media, sectorSz, lba, bytes))
    {
      var destination := Scratch();
      DeviceRead(lba, destination, 0, 1);
      forall t | 0 <= t < bytes {
        buffer[pos + t] := destination[t];
      }
    }

    /** One turn of the loop, up to the counters. */
    method Turn(lbn: nat, left: nat, buffer: array<Byte>, pos: nat) returns (bytes: nat, count: nat)
      requires Request(Conf(), lbn, left) && left > 0 && pos + left * 2048 <= buffer.Length
      requires Ready() && buffer != Scratch()
      modifies buffer, Scratch()
      ensures bytes == BytesToRead(Conf(), left) && count == SectorsToRead(Conf(), left)
      ensures Slice(Conf(), lbn) < 9 && pos + |TurnBytes(Conf(), media, lbn, left)| <= buffer.Length
      ensures buffer[..] == Overwrite(old(buffer[..]), pos, TurnBytes(Conf(), media, lbn, left))
      ensures Scratch()[..] == if bytes < sectorSz then
                                 Overwrite(old(Scratch()[..]), 0,
                                           DeviceBytes(media, sectorSz, DeviceLBA(Conf(), lbn), sectorSz))
                               else old(Scratch()[..])
    {
      hide Request, Place;
      TurnFits(Conf(), media, lbn, left);
      IsConfigured(Conf(), lbn, left);
      bytes := if U32(left * 2048) > xferBlkSz then xferBlkSz else U32(left * 2048);
      count := U8(bytes / 2048);
      var slice := U8(lbn / sectorsPerSlice);
      var lba := U32(partLBA[slice] + U32(U32(lbn - slice * sectorsPerSlice) * 2048) / sectorSz);
      assert lba == DeviceLBA(Conf(), lbn);
      hide DeviceLBA, DeviceBytes, Overwrite;
      if bytes < sectorSz {
        ReadPartial(lba, buffer, pos, bytes);
      } else {
        var diskSectors := U8(bytes / sectorSz);
        var temp := lbn % sectorsPerSlice + count - sectorsPerSlice;
        if temp > 0 { diskSectors := U8(diskSectors - temp); }
        assert diskSectors == DiskSectors(Conf(), lbn, left);
        hide DiskSectors;
        DeviceRead(lba, buffer, pos, diskSectors);
      }
    }
  }

  /* ---- The loader's search for layer 1 ---- */

  /** The slice `configure_cdvdman` opens to look for layer 1's volume descriptor, the sector in it
      where it looks, and the layer break it then stores. */
  function ProbeSlice(sectorCount: nat, sectorsPerSlice: nat): nat
    requires sectorsPerSlice > 0
  {
    var slices := sectorCount / sectorsPerSlice;
    U32((if sectorCount % sectorsPerSlice != 0 then U32(slices + 1) else slices) - 1)
  }

  function ProbeOffset(sectorCount: nat, sectorsPerSlice: nat): nat
    requires sectorsPerSlice > 0
  {
    sectorCount % sectorsPerSlice
  }

  function LayerBreak(sectorCount: nat): nat { U32(sectorCount - 16) }

  lemma Layer1Sector(sectorCount: nat)
    requires sectorCount < TWO_32
    ensures U32(LayerBreak(sectorCount) + 16) == sectorCount
  {
  }

  lemma ProbeForms(sectorCount: nat, sps: nat)
    requires sectorCount < TWO_32 && 0 < sps < TWO_32
    ensures U32(LayerBreak(sectorCount) + 16) == sectorCount
    ensures ProbeSlice(sectorCount, sps) == if sectorCount % sps != 0 then sectorCount / sps
                                            else if sectorCount > 0 then sectorCount / sps - 1
                                            else TWO_32 - 1
  {
    hide U32, LayerBreak;
    Layer1Sector(sectorCount);
    QuotientBound(sectorCount, sps);
    SliceBefore(sectorCount / sps, sectorCount % sps);
  }

  lemma SliceBefore(q: nat, r: nat)
    requires q < TWO_32
    ensures U32((if r != 0 then U32(q + 1) else q) - 1)
         == if r != 0 then q else if q > 0 then q - 1 else TWO_32 - 1
  {
  }

  lemma QuotientBound(x: nat, d: nat)
    requires d > 0
    ensures x / d <= x && x % d <= x
    ensures x > 0 && x % d == 0 ==> x / d > 0
  {
    SliceRest(x, d);
    ProductBound(x / d, d);
  }

  lemma ProductBound(q: nat, d: nat)
    requires d > 0
    ensures q <= q * d && (q == 0 ==> q * d == 0)
  {
    assert q * d == q + q * (d - 1);
  }

  lemma ProbeProducts(sectorCount: nat, sps: nat)
    requires sectorCount < TWO_32 && 0 < sps < TWO_32
    ensures var slice, offset := ProbeSlice(sectorCount, sps), ProbeOffset(sectorCount, sps);
            && offset < sps
            && if offset != 0 then slice * sps + offset == sectorCount
               else if sectorCount > 0 then (slice + 1) * sps == sectorCount
               else slice == 0xFFFF_FFFF
  {
    ProbeForms(sectorCount, sps);
    hide ProbeSlice, U32;
    SliceRest(sectorCount, sps);
  }

  method ProbeLayer1(sectorCount: nat, sectorsPerSlice: nat) returns (slice: nat, offset: nat, layerBreak: nat)
    requires sectorCount < TWO_32 && 0 < sectorsPerSlice < TWO_32
    ensures slice == ProbeSlice(sectorCount, sectorsPerSlice)
    ensures offset == ProbeOffset(sectorCount, sectorsPerSlice)
    ensures layerBreak == LayerBreak(sectorCount)
    ensures offset < sectorsPerSlice
    ensures if offset != 0 then slice * sectorsPerSlice + offset == sectorCount
            else if sectorCount > 0 then (slice + 1) * sectorsPerSlice == sectorCount
            else slice == 0xFFFF_FFFF
    ensures layerBreak == if sectorCount >= 16 then sectorCount - 16 else sectorCount + 0xFFFF_FFF0
  {
    ProbeProducts(sectorCount, sectorsPerSlice);
    ProbeForms(sectorCount, sectorsPerSlice);
    QuotientBound(sectorCount, sectorsPerSlice);
    slice := sectorCount / sectorsPerSlice;
    if sectorCount % sectorsPerSlice != 0 { slice := U32(slice + 1); }
    slice := U32(slice - 1);
    offset := sectorCount % sectorsPerSlice;
    layerBreak := U32(sectorCount - 16);
  }

  /** The bytes the loader examines. */
  function ProbeBytes(cfg: Config, media: Media, sectorCount: nat): seq<Byte>
    requires Configured(cfg) && ProbeSlice(sectorCount, cfg.sectorsPerSlice) < 9
  {
    DeviceBytes(media, 1, cfg.partLBA[ProbeSlice(sectorCount, cfg.sectorsPerSlice)] * cfg.sectorSz
                          + ProbeOffset(sectorCount, cfg.sectorsPerSlice) * 2048, 2048)
  }

  /** On every device, the bytes examined are those a read of logical sector layerBreak + 16 delivers. */
  ghost predicate ProbeSeesLayer1(cfg: Config, sectorCount: nat)
    requires Request(cfg, sectorCount, 1)
  {
    && ProbeSlice(sectorCount, cfg.sectorsPerSlice) < 9
    && forall media: Media, buf: seq<Byte> :: 2048 <= |buf| ==> ProbeSees(cfg, sectorCount, media, buf)
  }

  predicate ProbeSees(cfg: Config, sectorCount: nat, media: Media, buf: seq<Byte>)
    requires Request(cfg, sectorCount, 1) && ProbeSlice(sectorCount, cfg.sectorsPerSlice) < 9 && 2048 <= |buf|
  {
    Layer1Sector(sectorCount);
    ReadSector(cfg, media, U32(LayerBreak(sectorCount) + 16), 1, buf, 0)[..2048] == ProbeBytes(cfg, media, sectorCount)
  }

  /** For a sector that is read right, the loader looks where the driver will read exactly when the
      sector count is no multiple of the slice size; otherwise it looks at the start of the slice before. */
  lemma ProbeExactlyWhen(cfg: Config, sectorCount: nat)
    requires Request(cfg, sectorCount, 1) && GoodTurn(cfg, sectorCount, 1)
    requires var slice := sectorCount / cfg.sectorsPerSlice; slice > 0 ==> cfg.partLBA[slice - 1] != cfg.partLBA[slice]
    ensures ProbeSeesLayer1(cfg, sectorCount) <==> sectorCount % cfg.sectorsPerSlice != 0
  {
    hide U32, GoodTurn, ProbeSlice, LayerBreak, ReadSector, Slice, Place, ProbeSees;
    AddressForms(cfg, sectorCount);
    ProbeForms(sectorCount, cfg.sectorsPerSlice);
    hide Request;
    if sectorCount % cfg.sectorsPerSlice != 0 {
      forall media: Media, buf: seq<Byte> | 2048 <= |buf|
        ensures ProbeSees(cfg, sectorCount, media, buf)
      {
        ProbeRight(cfg, sectorCount, media, buf);
      }
    } else if sectorCount > 0 {
      ProbeWrong(cfg, sectorCount);
    }
  }

  lemma ProbeRight(cfg: Config, sectorCount: nat, media: Media, buf: seq<Byte>)
    requires Request(cfg, sectorCount, 1) && GoodTurn(cfg, sectorCount, 1) && 2048 <= |buf|
    requires sectorCount % cfg.sectorsPerSlice != 0
    ensures ProbeSlice(sectorCount, cfg.sectorsPerSlice) < 9 && ProbeSees(cfg, sectorCount, media, buf)
  {
    hide U32, GoodTurn, ProbeSlice, LayerBreak, ReadSector, Slice, Place, DeviceBytes;
    AddressForms(cfg, sectorCount);
    ProbeForms(sectorCount, cfg.sectorsPerSlice);
    OneSector(cfg, media, sectorCount, buf);
  }

  lemma ProbeWrong(cfg: Config, sectorCount: nat)
    requires Request(cfg, sectorCount, 1) && GoodTurn(cfg, sectorCount, 1)
    requires sectorCount > 0 && sectorCount % cfg.sectorsPerSlice == 0
    requires var slice := sectorCount / cfg.sectorsPerSlice; slice > 0 ==> cfg.partLBA[slice - 1] != cfg.partLBA[slice]
    ensures ProbeSlice(sectorCount, cfg.sectorsPerSlice) < 9
    ensures !ProbeSeesLayer1(cfg, sectorCount)
  {
    hide U32, GoodTurn, ProbeSlice, ProbeOffset, LayerBreak, ReadSector, Slice, Place;
    AddressForms(cfg, sectorCount);
    OtherSlice(cfg, sectorCount);
    var place := Place(cfg, sectorCount);
    var media: Media, buf := (a: int) => if a == place then 1 else 0, seq<Byte>(2048, _ => 0);
    OneSector(cfg, media, sectorCount, buf);
    ProbeForms(sectorCount, cfg.sectorsPerSlice);
    hide Request;
    assert ProbeBytes(cfg, media, sectorCount)[0] == 0;
    assert DeviceBytes(media, 1, place, 2048)[0] == 1;
    assert !ProbeSees(cfg, sectorCount, media, buf);
  }

  /** A single sector that is read right comes from its place. */
  lemma OneSector(cfg: Config, media: Media, lbn: nat, buf: seq<Byte>)
    requires Request(cfg, lbn, 1) && GoodTurn(cfg, lbn, 1) && 2048 <= |buf|
    ensures Configured(cfg) && lbn / cfg.sectorsPerSlice < 9
    ensures ReadSector(cfg, media, lbn, 1, buf, 0)[..2048] == DeviceBytes(media, 1, Place(cfg, lbn), 2048)
  {
    IsConfigured(cfg, lbn, 1);
    AddressForms(cfg, lbn);
    hide Configured, GoodTurn, ReadSector, Place;
    assert GoodTurnAt(cfg, lbn, 1, 0);
    GoodReadIsFaithful(cfg, media, lbn, 1, buf, 0);
    assert ImageBytes(cfg, media, lbn + 1, 0) == [];
    assert ImageBytes(cfg, media, lbn, 1) == DeviceBytes(media, 1, Place(cfg, lbn), 2048);
    hide Request, ImageBytes, GoodRead;
    var r := ReadSector(cfg, media, lbn, 1, buf, 0);
    assert r[0..0 + 1 * 2048] == r[..2048];
  }

  /** At a multiple of the slice size, the probe looks at the start of the slice before. */
  lemma OtherSlice(cfg: Config, sectorCount: nat)
    requires Configured(cfg) && sectorCount < TWO_32 && sectorCount / cfg.sectorsPerSlice < 9
    requires sectorCount > 0 && sectorCount % cfg.sectorsPerSlice == 0
    requires var slice := sectorCount / cfg.sectorsPerSlice; slice > 0 ==> cfg.partLBA[slice - 1] != cfg.partLBA[slice]
    ensures var slice := ProbeSlice(sectorCount, cfg.sectorsPerSlice);
            && slice < 9
            && cfg.partLBA[slice] * cfg.sectorSz + ProbeOffset(sectorCount, cfg.sectorsPerSlice) * 2048
               != Place(cfg, sectorCount)
  {
    var slice := sectorCount / cfg.sectorsPerSlice;
    ProbeForms(sectorCount, cfg.sectorsPerSlice);
    QuotientBound(sectorCount, cfg.sectorsPerSlice);
    hide ProbeSlice;
    if cfg.partLBA[slice - 1] < cfg.partLBA[slice] {
      MulOrder(cfg.partLBA[slice - 1], cfg.partLBA[slice], cfg.sectorSz);
    } else {
      MulOrder(cfg.partLBA[slice], cfg.partLBA[slice - 1], cfg.sectorSz);
    }
  }
}

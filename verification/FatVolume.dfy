/** A FAT volume of src/kernel/fat.c: sectors on a disk, several copies of the table, clusters of data. */
module FatVolume {
  import opened Words
  import opened FatTable
  import opened FatChains

  // ---- Bytes on disk ----

  /** `bytes` were written at `at`, and nothing else. */
  ghost predicate Replaced(d: seq<byte>, d': seq<byte>, at: nat, bytes: seq<byte>) {
    |d'| == |d| && forall i :: 0 <= i < |d| ==> d'[i] == if at <= i < at + |bytes| then bytes[i - at] else d[i]
  }

  ghost predicate SameOutside(d: seq<byte>, d': seq<byte>, lo: int, hi: int) {
    |d'| == |d| && forall i :: 0 <= i < |d| && !(lo <= i < hi) ==> d'[i] == d[i]
  }

  ghost predicate OnDisk(d: seq<byte>, base: nat, size: nat) {
    SECTOR * (base + size) <= |d|
  }

  /** The bytes of the table of `size` sectors that starts at sector `base`. */
  ghost function TableAt(d: seq<byte>, base: nat, size: nat): (f: seq<byte>)
    requires OnDisk(d, base, size)
    ensures |f| == SECTOR * size
  {
    d[SECTOR * base..SECTOR * (base + size)]
  }

  /** First sector of copy `k` of the table. */
  ghost function Base(lba: nat, size: nat, k: nat): nat {
    if k == 0 then lba else Base(lba, size, k - 1) + size
  }

  lemma {:induction false} BaseIs(lba: nat, size: nat, k: nat)
    ensures Base(lba, size, k) == lba + k * size
  {
    if k > 0 {
      BaseIs(lba, size, k - 1);
    }
  }

  lemma {:induction false} BasesApart(lba: nat, size: nat, j: nat, k: nat)
    requires j <= k
    ensures j < k ==> Base(lba, size, j) + size <= Base(lba, size, k)
    ensures lba <= Base(lba, size, j) <= Base(lba, size, k)
  {
    if 0 < k {
      BasesApart(lba, size, if j < k then j else k - 1, k - 1);
    }
  }

  lemma PutHalfAt(d: seq<byte>, d': seq<byte>, base: nat, size: nat, o: nat, w: nat)
    requires OnDisk(d, base, size) && o + 2 <= SECTOR * size && w < 0x1_0000
    requires Replaced(d, d', SECTOR * base + o, Le16(w))
    ensures OnDisk(d', base, size) && TableAt(d', base, size) == PutHalf(TableAt(d, base, size), o, w)
    ensures SameOutside(d, d', SECTOR * base, SECTOR * (base + size))
  {
  }

  lemma PutWordAt(d: seq<byte>, d': seq<byte>, base: nat, size: nat, o: nat, w: nat, w2: nat)
    requires OnDisk(d, base, size) && o + 4 <= SECTOR * size && w < 0x1_0000 && w2 < 0x1_0000
    requires Replaced(d, d', SECTOR * base + o, Le16(w) + Le16(w2))
    ensures OnDisk(d', base, size)
    ensures TableAt(d', base, size) == PutHalf(PutHalf(TableAt(d, base, size), o, w), o + 2, w2)
    ensures SameOutside(d, d', SECTOR * base, SECTOR * (base + size))
  {
  }

  /** A table that does not overlap what was written is as it was. */
  lemma OtherTable(d: seq<byte>, d': seq<byte>, base: nat, size: nat, other: nat)
    requires OnDisk(d, other, size) && SameOutside(d, d', SECTOR * base, SECTOR * (base + size))
    requires other + size <= base || base + size <= other
    ensures OnDisk(d', other, size) && TableAt(d', other, size) == TableAt(d, other, size)
  {
  }

  /** All entries of a table, as many as it is known to cover. */
  ghost function Entries(ft: FatType, f: seq<byte>, n: nat): (t: seq<nat>)
    ensures |t| == n
  {
    seq(n, c requires 0 <= c < n => if Covers(ft, f, c) then Entry(ft, f, c) else 0)
  }

  lemma EntriesOfUpdate(ft: FatType, f: seq<byte>, n: nat, c: nat, v: nat)
    requires c < n && forall e: nat :: e < n ==> Covers(ft, f, e)
    ensures Entries(ft, Update(ft, f, c, v), n) == Entries(ft, f, n)[c := v % Range(ft)]
  {
    var u := Update(ft, f, c, v);
    forall e: nat | e < n ensures Covers(ft, u, e) && Entry(ft, u, e) == if e == c then v % Range(ft) else Entry(ft, f, e) {
      assert Covers(ft, f, e);
      if e == c {
        EntryOfUpdate(ft, f, c, v);
      } else {
        OtherEntries(ft, f, c, v, e);
      }
    }
  }

  // ---- Small arithmetic ----

  /** A 32-bit entry never straddles two sectors. */
  lemma Within32(o: nat, size: nat)
    requires o % 4 == 0 && o + 4 <= SECTOR * size
    ensures o % SECTOR + 4 <= SECTOR && o / SECTOR + 1 <= size
  {
    var q := o / 4;
    assert o == 4 * q && o % SECTOR == 4 * (q % 128);
  }

  lemma InSector(base: nat, o: nat, size: nat)
    requires o < SECTOR * size
    ensures o / SECTOR + 1 <= size && SECTOR * (base + o / SECTOR) + o % SECTOR == SECTOR * base + o
  {
  }

  lemma Nibbles(v: nat) returns (n0: nat, n1: nat, n2: nat)
    ensures n0 < 16 && n1 < 16 && n2 < 16 && v % 0x1000 == n0 + 0x10 * n1 + 0x100 * n2
    ensures v % 0x10 == n0 && v % 0x100 == n0 + 0x10 * n1
    ensures v / 0x100 % 0x10 == n2 && v / 0x10 % 0x100 == n1 + 0x10 * n2
  {
    var a := v / 0x10;
    var b := a / 0x10;
    n0, n1, n2 := v % 0x10, a % 0x10, b % 0x10;
    assert b == v / 0x100;
    assert a % 0x100 == n1 + 0x10 * n2;
  }

  /** The byte the straddling case leaves at the end of the first sector. */
  function LowByte(lo: nat, odd: bool, v: nat): byte
    requires lo < 256
  {
    if odd then (lo % 0x10 + v % 0x10 * 0x10) as byte else (v % 0x100) as byte
  }

  /** The byte the straddling case leaves at the start of the second sector. */
  function HighByte(hi: nat, odd: bool, v: nat): byte
    requires hi < 256
  {
    if odd then (v / 0x10 % 0x100) as byte else (hi / 0x10 * 0x10 + v / 0x100 % 0x10) as byte
  }

  lemma JoinBytes(a: nat, b: nat)
    requires a < 256 && b < 256
    ensures Le16(a + 0x100 * b) == [a as byte, b as byte]
  {
  }

  /** Done a byte at a time or as a word, a FAT12 update leaves the same two bytes. */
  lemma MixedBytes(lo: nat, hi: nat, odd: bool, v: nat)
    requires lo < 256 && hi < 256
    ensures Le16(Mixed(lo + 0x100 * hi, odd, v)) == [LowByte(lo, odd, v), HighByte(hi, odd, v)]
  {
    var n0, n1, n2 := Nibbles(v);
    if odd {
      var l := lo % 0x10;
      assert (lo + 0x100 * hi) % 0x10 == l;
      JoinBytes(l + 0x10 * n0, n1 + 0x10 * n2);
    } else {
      var h := hi / 0x10;
      assert (lo + 0x100 * hi) / 0x1000 == h;
      JoinBytes(n0 + 0x10 * n1, n2 + 0x10 * h);
    }
  }

  function KeepHigh(b2: byte, b3: byte, v: nat): (r: nat)
    ensures r < 0x1_0000
  {
    High(b2 as int + 0x100 * b3 as int, v)
  }

  lemma Update32Is(f: seq<byte>, c: nat, v: nat, high: nat)
    requires c * 4 + 4 <= |f| && high == KeepHigh(f[c * 4 + 2], f[c * 4 + 3], v)
    ensures Covers(Fat32, f, c)
    ensures Update(Fat32, f, c, v) == PutHalf(PutHalf(f, c * 4, v % 0x1_0000), c * 4 + 2, high)
  {
  }

  lemma WholeClusters(n: nat, per: nat)
    requires per > 0
    ensures n / per * per <= n
  {
  }

  class Volume {
    const disk: array<byte>
    const ft: FatType
    const fatLba: nat
    const fatSize: nat
    const numFats: nat
    const totalClusters: nat
    const dataLba: nat
    const sectorsPerCluster: nat

    /**
     * What mounting establishes: the copies of the table follow one another, the data follows them and ends
     * on the disk, a table covers every cluster, and no cluster number reads as an end-of-chain mark.
     */
    ghost predicate Mounted() {
      && 1 <= numFats && Base(fatLba, fatSize, numFats) <= dataLba
      && SECTOR * (dataLba + totalClusters * sectorsPerCluster) <= disk.Length
      && Offset(ft, totalClusters + 1) + Width(ft) <= SECTOR * fatSize
      && totalClusters + 2 <= EocMin(ft)
    }

    /** The sector after the last copy of the table. */
    ghost function TablesEnd(): nat {
      Base(fatLba, fatSize, numFats)
    }

    /** Byte `i` of the disk belongs to cluster `c`; cluster 2 is the first. */
    ghost predicate InCluster(c: int, i: int) {
      SECTOR * (dataLba + (c - 2) * sectorsPerCluster) <= i < SECTOR * (dataLba + (c - 2) * sectorsPerCluster + sectorsPerCluster)
    }

    /** The layout `fat_mount` derives from the boot sector, on a device that has the sectors it claims. */
    constructor Mount(
        disk: array<byte>, partLba: nat, reserved: nat, numFats: nat, fatSize: nat,
        rootSectors: nat, totalSectors: nat, sectorsPerCluster: nat)
      requires 1 <= numFats && 1 <= sectorsPerCluster
      requires reserved + numFats * fatSize + rootSectors < totalSectors
      requires SECTOR * (partLba + totalSectors) <= disk.Length
      requires var total := (totalSectors - (reserved + numFats * fatSize + rootSectors)) / sectorsPerCluster;
               && Offset(TypeFor(total), total + 1) + Width(TypeFor(total)) <= SECTOR * fatSize
               && total + 2 <= 0x0FFF_FFF8
      ensures Mounted() && this.disk == disk
      ensures totalClusters == (totalSectors - (reserved + numFats * fatSize + rootSectors)) / sectorsPerCluster
      ensures ft == (if totalClusters < 4085 then Fat12 else if totalClusters < 65525 then Fat16 else Fat32)
      ensures fatLba == partLba + reserved && this.fatSize == fatSize && this.numFats == numFats
      ensures dataLba == partLba + reserved + numFats * fatSize + rootSectors
      ensures this.sectorsPerCluster == sectorsPerCluster
    {
      var used := reserved + numFats * fatSize + rootSectors;
      var total := (totalSectors - used) / sectorsPerCluster;
      this.disk := disk;
      this.fatLba := partLba + reserved;
      this.fatSize := fatSize;
      this.numFats := numFats;
      this.dataLba := partLba + used;
      this.sectorsPerCluster := sectorsPerCluster;
      this.totalClusters := total;
      this.ft := TypeFor(total);
      new;
      TypeSeparates(total);
      BaseIs(partLba + reserved, fatSize, numFats);
      WholeClusters(totalSectors - used, sectorsPerCluster);
    }

    ghost predicate Holds(base: nat, c: nat) {
      SECTOR * (base + fatSize) <= disk.Length && Offset(ft, c) + Width(ft) <= SECTOR * fatSize
    }

    lemma HoldsAll(k: nat, c: nat)
      requires Mounted() && k < numFats && c < totalClusters + 2
      ensures var b := Base(fatLba, fatSize, k);
              Holds(b, c) && fatLba <= b && b + fatSize <= TablesEnd() <= dataLba
      ensures SECTOR * dataLba <= disk.Length
    {
      BasesApart(fatLba, fatSize, k, numFats);
      assert 0 <= totalClusters * sectorsPerCluster;
      assert c / 2 <= (totalClusters + 1) / 2;
    }

    // ---- Sectors ----

    method ReadSector(lba: nat) returns (sec: seq<byte>)
      requires SECTOR * (lba + 1) <= disk.Length
      ensures |sec| == SECTOR && sec == disk[SECTOR * lba..SECTOR * (lba + 1)]
    {
      sec := disk[SECTOR * lba..SECTOR * (lba + 1)];
    }

    method WriteSector(lba: nat, sec: seq<byte>)
      requires SECTOR * (lba + 1) <= disk.Length && |sec| == SECTOR
      modifies disk
      ensures Replaced(old(disk[..]), disk[..], SECTOR * lba, sec)
    {
      forall i | 0 <= i < SECTOR {
        disk[SECTOR * lba + i] := sec[i];
      }
    }

    /** The byte at offset `o` of the table at `base`, read through its sector. */
    method Peek(base: nat, o: nat) returns (b: byte)
      requires OnDisk(disk[..], base, fatSize) && o < SECTOR * fatSize
      ensures b == TableAt(disk[..], base, fatSize)[o]
    {
      InSector(base, o, fatSize);
      var sec := ReadSector(base + o / SECTOR);
      b := sec[o % SECTOR];
    }

    /** Overwrite bytes that lie within one sector. */
    method PutWithin(base: nat, o: nat, bytes: seq<byte>)
      requires o % SECTOR + |bytes| <= SECTOR && SECTOR * (base + o / SECTOR + 1) <= disk.Length
      modifies disk
      ensures Replaced(old(disk[..]), disk[..], SECTOR * base + o, bytes)
    {
      var s, off := base + o / SECTOR, o % SECTOR;
      assert SECTOR * s + off == SECTOR * base + o;
      var sec := ReadSector(s);
      sec := sec[..off] + bytes + sec[off + |bytes|..];
      WriteSector(s, sec);
    }

    /** Overwrite two bytes of which one ends a sector and the other starts the next. */
    method PutAcross(base: nat, o: nat, lo: byte, hi: byte)
      requires o % SECTOR == SECTOR - 1 && SECTOR * (base + o / SECTOR + 2) <= disk.Length
      modifies disk
      ensures Replaced(old(disk[..]), disk[..], SECTOR * base + o, [lo, hi])
    {
      var s := base + o / SECTOR;
      assert SECTOR * s + SECTOR - 1 == SECTOR * base + o;
      var sec := ReadSector(s);
      var sec2 := ReadSector(s + 1);
      WriteSector(s, sec[SECTOR - 1 := lo]);
      WriteSector(s + 1, sec2[0 := hi]);
    }

    // ---- Entries ----

    /** `fat_get_entry`. */
    method GetEntry(c: nat) returns (v: nat)
      requires Mounted() && c < totalClusters + 2
      ensures Holds(fatLba, c) && v == Entry(ft, TableAt(disk[..], fatLba, fatSize), c)
    {
      HoldsAll(0, c);
      var o := Offset(ft, c);
      var b0 := Peek(fatLba, o);
      var b1 := Peek(fatLba, o + 1);
      v := b0 as int + 0x100 * b1 as int;
      if ft == Fat12 {
        v := if c % 2 == 1 then v / 0x10 else v % 0x1000;
      } else if ft == Fat32 {
        var b2 := Peek(fatLba, o + 2);
        var b3 := Peek(fatLba, o + 3);
        v := (v + 0x1_0000 * (b2 as int + 0x100 * b3 as int)) % 0x1000_0000;
      }
    }

    /** Replace a 16-bit word of the table at `base`, in one sector or across two. */
    method PutWord(base: nat, o: nat, w: nat, lo: byte, hi: byte)
      requires OnDisk(disk[..], base, fatSize) && o + 2 <= SECTOR * fatSize && w < 0x1_0000 && Le16(w) == [lo, hi]
      modifies disk
      ensures OnDisk(disk[..], base, fatSize)
      ensures TableAt(disk[..], base, fatSize) == PutHalf(old(TableAt(disk[..], base, fatSize)), o, w)
      ensures SameOutside(old(disk[..]), disk[..], SECTOR * base, SECTOR * (base + fatSize))
    {
      InSector(base, o, fatSize);
      InSector(base, o + 1, fatSize);
      if o % SECTOR == SECTOR - 1 {
        PutAcross(base, o, lo, hi);
      } else {
        PutWithin(base, o, Le16(w));
      }
      PutHalfAt(old(disk[..]), disk[..], base, fatSize, o, w);
    }

    method SetCopy12(base: nat, c: nat, v: nat)
      requires ft == Fat12 && Holds(base, c)
      modifies disk
      ensures OnDisk(disk[..], base, fatSize)
      ensures TableAt(disk[..], base, fatSize) == Update(Fat12, old(TableAt(disk[..], base, fatSize)), c, v)
      ensures SameOutside(old(disk[..]), disk[..], SECTOR * base, SECTOR * (base + fatSize))
    {
      var o := Offset(Fat12, c);
      var lo := Peek(base, o);
      var hi := Peek(base, o + 1);
      var odd := c % 2 == 1;
      MixedBytes(lo as int, hi as int, odd, v);
      var w := Mixed(lo as int + 0x100 * hi as int, odd, v);
      PutWord(base, o, w, LowByte(lo as int, odd, v), HighByte(hi as int, odd, v));
    }

    /** Replace a 32-bit word of the table at `base`. */
    method PutDouble(base: nat, o: nat, low: nat, high: nat)
      requires OnDisk(disk[..], base, fatSize) && o % 4 == 0 && o + 4 <= SECTOR * fatSize
      requires low < 0x1_0000 && high < 0x1_0000
      modifies disk
      ensures OnDisk(disk[..], base, fatSize)
      ensures TableAt(disk[..], base, fatSize) == PutHalf(PutHalf(old(TableAt(disk[..], base, fatSize)), o, low), o + 2, high)
      ensures SameOutside(old(disk[..]), disk[..], SECTOR * base, SECTOR * (base + fatSize))
    {
      Within32(o, fatSize);
      PutWithin(base, o, Le16(low) + Le16(high));
      PutWordAt(old(disk[..]), disk[..], base, fatSize, o, low, high);
    }

    method SetCopy32(base: nat, c: nat, v: nat)
      requires ft == Fat32 && Holds(base, c)
      modifies disk
      ensures OnDisk(disk[..], base, fatSize)
      ensures TableAt(disk[..], base, fatSize) == Update(Fat32, old(TableAt(disk[..], base, fatSize)), c, v)
      ensures SameOutside(old(disk[..]), disk[..], SECTOR * base, SECTOR * (base + fatSize))
    {
      var o := c * 4;
      ghost var f := TableAt(disk[..], base, fatSize);
      var b2 := Peek(base, o + 2);
      var b3 := Peek(base, o + 3);
      var high := KeepHigh(b2, b3, v);
      Update32Is(f, c, v, high);
      PutDouble(base, o, v % 0x1_0000, high);
    }

    /** One copy's share of `fat_set_entry`: read the sector or two, change the entry's bits, write back. */
    method SetCopy(base: nat, c: nat, v: nat)
      requires Holds(base, c)
      modifies disk
      ensures OnDisk(disk[..], base, fatSize)
      ensures TableAt(disk[..], base, fatSize) == Update(ft, old(TableAt(disk[..], base, fatSize)), c, v)
      ensures SameOutside(old(disk[..]), disk[..], SECTOR * base, SECTOR * (base + fatSize))
    {
      if ft == Fat12 {
        SetCopy12(base, c, v);
      } else if ft == Fat32 {
        SetCopy32(base, c, v);
      } else {
        var w := v % 0x1_0000;
        PutWord(base, Offset(ft, c), w, Le16(w)[0], Le16(w)[1]);
      }
    }

    /** The copies before `f` are updated, the others are as they were. */
    ghost predicate Updated(d: seq<byte>, d': seq<byte>, f: nat, c: nat, v: nat)
    {
      && SameOutside(d, d', SECTOR * fatLba, SECTOR * TablesEnd())
      && forall k :: 0 <= k < numFats ==> CopyIs(d, d', k, f, c, v)
    }

    ghost predicate CopyIs(d: seq<byte>, d': seq<byte>, k: nat, f: nat, c: nat, v: nat) {
      var b := Base(fatLba, fatSize, k);
      && OnDisk(d, b, fatSize) && OnDisk(d', b, fatSize) && Covers(ft, TableAt(d, b, fatSize), c)
      && TableAt(d', b, fatSize) ==
         if k < f then Update(ft, TableAt(d, b, fatSize), c, v) else TableAt(d, b, fatSize)
    }

    /** Copy `f` was updated, so any copy `k` is in the state it should be in after `f + 1` turns. */
    lemma CopyNext(d: seq<byte>, d': seq<byte>, d'': seq<byte>, f: nat, k: nat, c: nat, v: nat)
      requires CopyIs(d, d', k, f, c, v) && CopyIs(d', d'', f, f + 1, c, v)
      requires var b := Base(fatLba, fatSize, f); SameOutside(d', d'', SECTOR * b, SECTOR * (b + fatSize))
      ensures CopyIs(d, d'', k, f + 1, c, v)
    {
      if k != f {
        BasesApart(fatLba, fatSize, if k < f then k else f, if k < f then f else k);
        OtherTable(d', d'', Base(fatLba, fatSize, f), fatSize, Base(fatLba, fatSize, k));
      }
    }

    lemma UpdateNext(d: seq<byte>, d': seq<byte>, d'': seq<byte>, f: nat, c: nat, v: nat)
      requires Mounted() && f < numFats && c < totalClusters + 2 && |d| == disk.Length && Updated(d, d', f, c, v)
      requires CopyIs(d', d'', f, f + 1, c, v)
      requires var b := Base(fatLba, fatSize, f); SameOutside(d', d'', SECTOR * b, SECTOR * (b + fatSize))
      ensures Updated(d, d'', f + 1, c, v)
    {
      HoldsAll(f, c);
      var g := f + 1;
      forall k | 0 <= k < numFats ensures CopyIs(d, d'', k, g, c, v) {
        CopyNext(d, d', d'', f, k, c, v);
      }
    }

    /** The table as the file system sees it. */
    ghost function Table(): (t: seq<nat>)
      reads disk
      ensures |t| == totalClusters + 2
    {
      if OnDisk(disk[..], fatLba, fatSize) then Entries(ft, TableAt(disk[..], fatLba, fatSize), totalClusters + 2)
      else seq(totalClusters + 2, _ => 0)
    }

    /** All copies of the table hold the same bytes. */
    ghost predicate Mirrored(d: seq<byte>) {
      forall k :: 0 <= k < numFats ==> SameCopy(d, k)
    }

    ghost predicate SameCopy(d: seq<byte>, k: nat) {
      var b := Base(fatLba, fatSize, k);
      OnDisk(d, b, fatSize) && OnDisk(d, fatLba, fatSize) && TableAt(d, b, fatSize) == TableAt(d, fatLba, fatSize)
    }

    /** Updating every copy alike keeps the copies alike. */
    lemma StaysMirrored(d: seq<byte>, d': seq<byte>, c: nat, v: nat)
      requires Mounted() && Mirrored(d) && Updated(d, d', numFats, c, v)
      ensures Mirrored(d')
    {
      assert CopyIs(d, d', 0, numFats, c, v);
      forall k | 0 <= k < numFats ensures SameCopy(d', k) {
        assert SameCopy(d, k) && CopyIs(d, d', k, numFats, c, v);
      }
    }

    lemma CoversAll(d: seq<byte>)
      requires Mounted() && |d| == disk.Length
      ensures OnDisk(d, fatLba, fatSize)
      ensures forall c: nat :: c < totalClusters + 2 ==> Covers(ft, TableAt(d, fatLba, fatSize), c)
    {
      HoldsAll(0, 0);
      forall c: nat | c < totalClusters + 2 ensures Covers(ft, TableAt(d, fatLba, fatSize), c) {
        HoldsAll(0, c);
      }
    }

    /** Copy number `f` is updated, and nothing else is written. */
    method SetCopyNumber(f: nat, c: nat, v: nat)
      requires Mounted() && f < numFats && c < totalClusters + 2
      modifies disk
      ensures CopyIs(old(disk[..]), disk[..], f, f + 1, c, v)
      ensures var b := Base(fatLba, fatSize, f); SameOutside(old(disk[..]), disk[..], SECTOR * b, SECTOR * (b + fatSize))
    {
      BaseIs(fatLba, fatSize, f);
      HoldsAll(f, c);
      SetCopy(fatLba + f * fatSize, c, v);
    }

    method SetCopies(c: nat, v: nat)
      requires Mounted() && c < totalClusters + 2
      modifies disk
      ensures Updated(old(disk[..]), disk[..], numFats, c, v)
    {
      ghost var d := disk[..];
      forall k | 0 <= k < numFats ensures CopyIs(d, d, k, 0, c, v) {
        HoldsAll(k, c);
      }
      for f := 0 to numFats
        invariant Updated(d, disk[..], f, c, v)
      {
        ghost var before := disk[..];
        SetCopyNumber(f, c, v);
        UpdateNext(d, before, disk[..], f, c, v);
      }
    }

    lemma UpdatedEntries(d: seq<byte>, d': seq<byte>, c: nat, v: nat)
      requires Mounted() && |d| == disk.Length && c < totalClusters + 2 && Updated(d, d', numFats, c, v)
      ensures OnDisk(d, fatLba, fatSize) && OnDisk(d', fatLba, fatSize)
      ensures Entries(ft, TableAt(d', fatLba, fatSize), totalClusters + 2)
              == Entries(ft, TableAt(d, fatLba, fatSize), totalClusters + 2)[c := v % Range(ft)]
    {
      assert CopyIs(d, d', 0, numFats, c, v);
      CoversAll(d);
      EntriesOfUpdate(ft, TableAt(d, fatLba, fatSize), totalClusters + 2, c, v);
    }

    /** `fat_set_entry`: every copy of the table is updated, and nothing but the tables is written. */
    method SetEntry(c: nat, v: nat)
      requires Mounted() && c < totalClusters + 2
      modifies disk
      ensures Table() == old(Table())[c := v % Range(ft)]
      ensures Mirrored(old(disk[..])) ==> Mirrored(disk[..])
      ensures SameOutside(old(disk[..]), disk[..], SECTOR * fatLba, SECTOR * TablesEnd())
    {
      ghost var d := disk[..];
      SetCopies(c, v);
      UpdatedEntries(d, disk[..], c, v);
      if Mirrored(d) {
        StaysMirrored(d, disk[..], c, v);
      }
    }

    /** `fat_get_entry` against the table `t` the volume is known to hold. */
    method Get(c: nat, ghost t: seq<nat>) returns (v: nat)
      requires Mounted() && c < totalClusters + 2 && t == Table()
      ensures v == t[c] && Table() == t
    {
      v := GetEntry(c);
    }
  }
}

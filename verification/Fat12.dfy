/** Sector and table access of the FAT12 driver, src/vfs/fat/fat12.c. */
module Fat12 {
  import opened Arithmetic
  import opened Common

  // ---- a drive and a volume on it ----

  /** A drive's bytes; reading a sector outside them, or one that `bad` names, fails. */
  datatype Drive = Drive(sectorSize: nat, bytes: seq<Byte>, bad: set<nat>)

  /** The fields of struct filesystem_fat12 that these functions use. */
  datatype Volume = Volume(partitionStart: nat, bytesPerSector: nat, factor: nat, fatStart: nat)

  /** The factor that setting up a volume computes. */
  function SetUpFactor(sectorSize: nat, bytesPerSector: nat): nat
    requires bytesPerSector > 0
  {
    if bytesPerSector == sectorSize then 1 else sectorSize / bytesPerSector
  }

  predicate SetUp(d: Drive, v: Volume) {
    v.bytesPerSector > 0 && d.sectorSize > 0 && v.factor == SetUpFactor(d.sectorSize, v.bytesPerSector)
  }

  /** A drive sector holds `factor` whole FAT sectors. */
  predicate Fits(d: Drive, v: Volume) {
    v.bytesPerSector > 0 && v.factor > 0 && d.sectorSize == v.factor * v.bytesPerSector
  }

  /** A volume that has been set up fits exactly if its sector size divides the drive's. */
  lemma FitsIffDivides(d: Drive, v: Volume)
    requires SetUp(d, v)
    ensures Fits(d, v) <==> d.sectorSize % v.bytesPerSector == 0
    ensures v.factor * v.bytesPerSector <= d.sectorSize || v.factor == 0
  {
    DivMod(d.sectorSize, v.bytesPerSector);
    if Fits(d, v) {
      DivUnique(d.sectorSize, v.bytesPerSector, v.factor, 0);
    }
    if v.factor == 0 && d.sectorSize % v.bytesPerSector == 0 {
      Distribute(0, 0, v.bytesPerSector);
    }
  }

  predicate Readable(d: Drive, lba: nat) {
    lba !in d.bad && (lba + 1) * d.sectorSize <= |d.bytes|
  }

  function Sector(d: Drive, lba: nat): seq<Byte>
    requires Readable(d, lba)
  {
    d.bytes[lba * d.sectorSize..(lba + 1) * d.sectorSize]
  }

  /** The drive sector that FAT sector s lies in. */
  function DriveSector(v: Volume, s: nat): nat
    requires v.factor > 0
  {
    v.partitionStart + s / v.factor
  }

  // ---- the specification: a contiguous run of bytes of the partition ----

  /** Byte position of FAT sector `s` on the drive. */
  function Position(d: Drive, v: Volume, s: nat): nat {
    if s == 0 then v.partitionStart * d.sectorSize else Position(d, v, s - 1) + v.bytesPerSector
  }

  lemma {:induction false} PositionIs(d: Drive, v: Volume, s: nat)
    ensures Position(d, v, s) == v.partitionStart * d.sectorSize + s * v.bytesPerSector
  {
    if s > 0 {
      PositionIs(d, v, s - 1);
      Distribute(s - 1, 1, v.bytesPerSector);
    }
  }

  ghost predicate AllReadable(d: Drive, v: Volume, s: nat, n: nat)
    requires v.factor > 0
  {
    forall j :: s <= j < s + n ==> Readable(d, DriveSector(v, j))
  }

  /** With ss == f * b: sector q * f + o of b bytes lies o * b bytes into drive sector q. */
  lemma SectorArithmetic(p: nat, f: nat, b: nat, ss: nat, q: nat, o: nat)
    requires ss == f * b && o <= f
    ensures p * ss + (q * f + o) * b == (p + q) * ss + o * b && o * b <= ss
  {
    Distribute(q * f, o, b);
    Assoc(q, f, b);
    Distribute(p, q, ss);
    MulOrder(o, f, b);
  }

  /** A FAT sector lies inside the drive sector that its number selects. */
  lemma InsideDriveSector(d: Drive, v: Volume, s: nat, m: nat)
    requires Fits(d, v) && s % v.factor + m <= v.factor
    ensures var k, o := DriveSector(v, s), s % v.factor;
            && Position(d, v, s) == k * d.sectorSize + o * v.bytesPerSector
            && Position(d, v, s + m) == k * d.sectorSize + (o + m) * v.bytesPerSector
            && (o + m) * v.bytesPerSector <= d.sectorSize && o * v.bytesPerSector <= (o + m) * v.bytesPerSector
  {
    var q, o := s / v.factor, s % v.factor;
    PositionIs(d, v, s);
    PositionIs(d, v, s + m);
    DivMod(s, v.factor);
    SectorArithmetic(v.partitionStart, v.factor, v.bytesPerSector, d.sectorSize, q, o);
    SectorArithmetic(v.partitionStart, v.factor, v.bytesPerSector, d.sectorSize, q, o + m);
    MulOrder(o, o + m, v.bytesPerSector);
  }

  /** The part of one drive sector that a round copies is the next stretch of the partition. */
  lemma RoundCopies(d: Drive, v: Volume, s: nat, m: nat)
    requires Fits(d, v) && s % v.factor + m <= v.factor && Readable(d, DriveSector(v, s))
    ensures var o := s % v.factor;
            && o * v.bytesPerSector <= (o + m) * v.bytesPerSector <= |Sector(d, DriveSector(v, s))|
            && Position(d, v, s) <= Position(d, v, s + m) <= |d.bytes|
            && Sector(d, DriveSector(v, s))[o * v.bytesPerSector..(o + m) * v.bytesPerSector] ==
               d.bytes[Position(d, v, s)..Position(d, v, s + m)]
  {
    var k, o := DriveSector(v, s), s % v.factor;
    InsideDriveSector(d, v, s, m);
    Distribute(k, 1, d.sectorSize);
    SliceOfSlice(d.bytes, k * d.sectorSize, (k + 1) * d.sectorSize, o * v.bytesPerSector, (o + m) * v.bytesPerSector);
  }

  lemma SliceOfSlice(bytes: seq<Byte>, lo: nat, hi: nat, i: nat, j: nat)
    requires lo <= hi <= |bytes| && i <= j <= hi - lo
    ensures bytes[lo..hi][i..j] == bytes[lo + i..lo + j]
  {
    var s, t := bytes[lo..hi][i..j], bytes[lo + i..lo + j];
    forall k | 0 <= k < j - i
      ensures s[k] == t[k]
    {
      assert s[k] == bytes[lo..hi][i + k];
    }
  }

  lemma SameDriveSector(f: nat, s: nat, m: nat, j: nat)
    requires f > 0 && s % f + m <= f && s <= j < s + m
    ensures j / f == s / f
  {
    DivMod(s, f);
    DivUnique(j, f, s / f, j - s / f * f);
  }

  /** read_sectors of the drive. */
  method ReadSectors(d: Drive, lba: nat, n: nat) returns (r: Option<seq<Byte>>)
    requires d.sectorSize > 0
    ensures r.Some? <==> forall k :: lba <= k < lba + n ==> Readable(d, k)
    ensures r.Some? && n > 0 ==> (lba + n) * d.sectorSize <= |d.bytes| && lba * d.sectorSize <= (lba + n) * d.sectorSize
    ensures r.Some? && n > 0 ==> r.value == d.bytes[lba * d.sectorSize..(lba + n) * d.sectorSize]
  {
    var k, out: seq<Byte> := 0, [];
    MulOrder(lba, lba, d.sectorSize);
    while k < n
      invariant k <= n && (forall j :: lba <= j < lba + k ==> Readable(d, j))
      invariant k > 0 ==> lba * d.sectorSize <= (lba + k) * d.sectorSize <= |d.bytes|
      invariant if k == 0 then out == [] else out == d.bytes[lba * d.sectorSize..(lba + k) * d.sectorSize]
    {
      if !(lba + k !in d.bad && (lba + k + 1) * d.sectorSize <= |d.bytes|) {
        assert !Readable(d, lba + k);
        return None;
      }
      Distribute(lba + k, 1, d.sectorSize);
      MulOrder(lba, lba + k, d.sectorSize);
      out := out + Sector(d, lba + k);
      k := k + 1;
    }
    return Some(out);
  }

  // ---- what fat12_drive_read returns, whatever the sizes ----

  /** The processor traps on a division by zero, the read fails, or the buffer is filled. */
  datatype Outcome = Trap | Failed | Data(bytes: seq<Byte>)

  /** The part of its drive sector that FAT sector j is taken from. */
  function Piece(d: Drive, v: Volume, j: nat): seq<Byte>
    requires 0 < v.factor && v.factor * v.bytesPerSector <= d.sectorSize && Readable(d, DriveSector(v, j))
  {
    var o := j % v.factor;
    PieceInside(d, v, o, 1);
    Sector(d, DriveSector(v, j))[o * v.bytesPerSector..(o + 1) * v.bytesPerSector]
  }

  lemma PieceInside(d: Drive, v: Volume, o: nat, m: nat)
    requires o + m <= v.factor && v.factor * v.bytesPerSector <= d.sectorSize
    ensures o * v.bytesPerSector <= (o + m) * v.bytesPerSector <= d.sectorSize
    ensures forall lba :: Readable(d, lba) ==> |Sector(d, lba)| == d.sectorSize
  {
    MulOrder(o, o + m, v.bytesPerSector);
    MulOrder(o + m, v.factor, v.bytesPerSector);
    forall lba | Readable(d, lba)
      ensures |Sector(d, lba)| == d.sectorSize
    {
      Distribute(lba, 1, d.sectorSize);
    }
  }

  ghost function Pieces(d: Drive, v: Volume, s: nat, n: nat): seq<Byte>
    requires 0 < v.factor && v.factor * v.bytesPerSector <= d.sectorSize && AllReadable(d, v, s, n)
  {
    if n == 0 then []
    else
      assert Readable(d, DriveSector(v, s + n - 1));
      Pieces(d, v, s, n - 1) + Piece(d, v, s + n - 1)
  }

  ghost predicate SectorsReadable(d: Drive, lba: nat, n: nat) {
    forall k :: lba <= k < lba + n ==> Readable(d, k)
  }

  ghost function ReadOutcome(d: Drive, v: Volume, s: nat, n: nat): Outcome
    requires SetUp(d, v)
  {
    FitsIffDivides(d, v);
    if n == 0 then Failed
    else if v.factor == 1 then
      var lba := v.partitionStart + s;
      if SectorsReadable(d, lba, n) then
        WholeSectors(d, lba, n);
        Data(d.bytes[lba * d.sectorSize..(lba + n) * d.sectorSize])
      else Failed
    else if v.factor == 0 then Trap
    else if AllReadable(d, v, s, n) then Data(Pieces(d, v, s, n)) else Failed
  }

  lemma WholeSectors(d: Drive, lba: nat, n: nat)
    requires n > 0 && SectorsReadable(d, lba, n)
    ensures lba * d.sectorSize <= (lba + n) * d.sectorSize <= |d.bytes|
  {
    MulOrder(lba, lba + n, d.sectorSize);
    assert Readable(d, lba + n - 1);
  }

  lemma {:induction false} PiecesJoin(d: Drive, v: Volume, s: nat, m: nat, n: nat)
    requires 0 < v.factor && v.factor * v.bytesPerSector <= d.sectorSize && AllReadable(d, v, s, m + n)
    ensures Pieces(d, v, s, m + n) == Pieces(d, v, s, m) + Pieces(d, v, s + m, n)
    decreases n
  {
    if n > 0 {
      PiecesJoin(d, v, s, m, n - 1);
    }
  }

  lemma SamePlace(f: nat, s: nat, i: nat)
    requires f > 0 && s % f + i < f
    ensures (s + i) % f == s % f + i
  {
    DivMod(s, f);
    DivUnique(s + i, f, s / f, s % f + i);
  }

  lemma JoinSlices(b: seq<Byte>, i: nat, j: nat, k: nat)
    requires i <= j <= k <= |b|
    ensures b[i..j] + b[j..k] == b[i..k]
  {
  }

  lemma NthPiece(d: Drive, v: Volume, s: nat, i: nat, o: nat)
    requires 0 < v.factor && v.factor * v.bytesPerSector <= d.sectorSize && o == s % v.factor + i < v.factor
    requires Readable(d, DriveSector(v, s)) && DriveSector(v, s + i) == DriveSector(v, s)
    ensures o * v.bytesPerSector <= (o + 1) * v.bytesPerSector <= |Sector(d, DriveSector(v, s))|
    ensures Piece(d, v, s + i) == Sector(d, DriveSector(v, s))[o * v.bytesPerSector..(o + 1) * v.bytesPerSector]
  {
    SamePlace(v.factor, s, i);
    PieceInside(d, v, o, 1);
  }

  /** Stretches o, o + 1, ..., o + m - 1 of b bytes each. */
  ghost function Stretches(bytes: seq<Byte>, b: nat, o: nat, m: nat): seq<Byte>
    requires (o + m) * b <= |bytes|
  {
    if m == 0 then []
    else
      Distribute(o + m - 1, 1, b);
      Stretches(bytes, b, o, m - 1) + bytes[(o + m - 1) * b..(o + m) * b]
  }

  lemma {:induction false} StretchesJoin(bytes: seq<Byte>, b: nat, o: nat, m: nat)
    requires (o + m) * b <= |bytes|
    ensures o * b <= (o + m) * b && Stretches(bytes, b, o, m) == bytes[o * b..(o + m) * b]
    decreases m
  {
    if m > 0 {
      Distribute(o + m - 1, 1, b);
      StretchesJoin(bytes, b, o, m - 1);
      JoinSlices(bytes, o * b, (o + m - 1) * b, (o + m) * b);
    }
  }

  lemma {:induction false} PiecesAreStretches(d: Drive, v: Volume, s: nat, m: nat, o: nat)
    requires 0 < v.factor && v.factor * v.bytesPerSector <= d.sectorSize && o == s % v.factor && o + m <= v.factor
    requires Readable(d, DriveSector(v, s)) && AllReadable(d, v, s, m)
    ensures (o + m) * v.bytesPerSector <= |Sector(d, DriveSector(v, s))|
    ensures Pieces(d, v, s, m) == Stretches(Sector(d, DriveSector(v, s)), v.bytesPerSector, o, m)
    decreases m
  {
    PieceInside(d, v, o, m);
    if m > 0 {
      PiecesAreStretches(d, v, s, m - 1, o);
      SameDriveSector(v.factor, s, m, s + m - 1);
      NthPiece(d, v, s, m - 1, o + m - 1);
    }
  }

  /** Consecutive FAT sectors of one drive sector lie side by side in it. */
  lemma OneRound(d: Drive, v: Volume, s: nat, m: nat)
    requires 0 < v.factor && v.factor * v.bytesPerSector <= d.sectorSize
    requires s % v.factor + m <= v.factor && Readable(d, DriveSector(v, s)) && AllReadable(d, v, s, m)
    ensures var o := s % v.factor;
            && o * v.bytesPerSector <= (o + m) * v.bytesPerSector <= |Sector(d, DriveSector(v, s))|
            && Pieces(d, v, s, m) == Sector(d, DriveSector(v, s))[o * v.bytesPerSector..(o + m) * v.bytesPerSector]
  {
    PiecesAreStretches(d, v, s, m, s % v.factor);
    StretchesJoin(Sector(d, DriveSector(v, s)), v.bytesPerSector, s % v.factor, m);
  }

  lemma PieceIsSlice(d: Drive, v: Volume, j: nat)
    requires Fits(d, v) && Readable(d, DriveSector(v, j))
    ensures Position(d, v, j) <= Position(d, v, j + 1) <= |d.bytes|
    ensures Piece(d, v, j) == d.bytes[Position(d, v, j)..Position(d, v, j + 1)]
  {
    ModBelow(j, v.factor);
    RoundCopies(d, v, j, 1);
  }

  /** On a volume that fits, the bytes are the contiguous slice of the partition. */
  lemma {:induction false} PiecesAreSlice(d: Drive, v: Volume, s: nat, n: nat)
    requires Fits(d, v) && AllReadable(d, v, s, n) && n > 0
    ensures Position(d, v, s) <= Position(d, v, s + n) <= |d.bytes|
    ensures Pieces(d, v, s, n) == d.bytes[Position(d, v, s)..Position(d, v, s + n)]
    decreases n
  {
    var last := s + n - 1;
    assert Readable(d, DriveSector(v, last));
    PieceIsSlice(d, v, last);
    assert Pieces(d, v, s, n) == Pieces(d, v, s, n - 1) + Piece(d, v, last);
    if n > 1 {
      PiecesAreSlice(d, v, s, n - 1);
      JoinSlices(d.bytes, Position(d, v, s), Position(d, v, last), Position(d, v, last + 1));
    } else {
      assert Pieces(d, v, s, 0) == [];
    }
  }

  lemma ModBelow(a: nat, f: nat)
    requires f > 0
    ensures a % f + 1 <= f
  {
  }

  lemma FitsGivesSlice(d: Drive, v: Volume, s: nat, n: nat)
    requires SetUp(d, v) && Fits(d, v)
    ensures n > 0 && AllReadable(d, v, s, n) ==> Position(d, v, s) <= Position(d, v, s + n) <= |d.bytes|
    ensures ReadOutcome(d, v, s, n) ==
            if n > 0 && AllReadable(d, v, s, n) then Data(d.bytes[Position(d, v, s)..Position(d, v, s + n)]) else Failed
  {
    if v.factor == 1 {
      OneToOne(d, v, s, n);
      if n > 0 && AllReadable(d, v, s, n) {
        WholeSectors(d, v.partitionStart + s, n);
      }
    } else if n > 0 && AllReadable(d, v, s, n) {
      PiecesAreSlice(d, v, s, n);
    }
  }

  /** A drive whose only set bit is in byte p. */
  function Marked(size: nat, sectorSize: nat, p: nat): Drive {
    Drive(sectorSize, seq(size, (i: int) => if i == p then 1 as Byte else 0 as Byte), {})
  }

  /** A drive of `count` sectors, all of which can be read. */
  predicate Sound(d: Drive, count: nat) {
    d.bad == {} && |d.bytes| == count * d.sectorSize
  }

  /** The read returns something else than the slice of the partition it should. */
  ghost predicate WrongRead(d: Drive, v: Volume, s: nat, n: nat)
    requires SetUp(d, v)
  {
    && n > 0 && Position(d, v, s) <= Position(d, v, s + n) <= |d.bytes|
    && ReadOutcome(d, v, s, n) != Data(d.bytes[Position(d, v, s)..Position(d, v, s + n)])
  }

  /** On a large drive with byte p set, the FAT sector that begins there is read wrongly. */
  lemma MisfitIsWrong(d: Drive, v: Volume, s: nat, p: nat, q: nat)
    requires SetUp(d, v) && d.sectorSize % v.bytesPerSector != 0 && d.bad == {} &&
             s == if v.factor <= 1 then 0 else v.factor
    requires p == v.partitionStart * d.sectorSize + s * v.bytesPerSector && q == (v.partitionStart + 1) * d.sectorSize
    requires p + q + d.sectorSize + v.bytesPerSector <= |d.bytes|
    requires forall i :: 0 <= i < |d.bytes| ==> d.bytes[i] == if i == p then 1 else 0
    ensures WrongRead(d, v, s, 1)
  {
    PositionIs(d, v, s);
    assert Position(d, v, s) == p && Position(d, v, s + 1) == p + v.bytesPerSector;
    MisfitOutcome(d, v, s, p, q);
    NotTheSlice(ReadOutcome(d, v, s, 1), d.bytes[p..p + v.bytesPerSector], v.bytesPerSector);
  }

  lemma NotTheSlice(o: Outcome, slice: seq<Byte>, n: nat)
    requires |slice| == n > 0 && slice[0] == 1 && (o.Data? ==> |o.bytes| != n || o.bytes[0] == 0)
    ensures o != Data(slice)
  {
  }

  lemma MisfitOutcome(d: Drive, v: Volume, s: nat, p: nat, q: nat)
    requires SetUp(d, v) && d.sectorSize % v.bytesPerSector != 0 && d.bad == {} &&
             s == if v.factor <= 1 then 0 else v.factor
    requires p == v.partitionStart * d.sectorSize + s * v.bytesPerSector && q == (v.partitionStart + 1) * d.sectorSize
    requires p + q + d.sectorSize + v.bytesPerSector <= |d.bytes|
    requires forall i :: 0 <= i < |d.bytes| ==> d.bytes[i] == if i == p then 1 else 0
    ensures var o := ReadOutcome(d, v, s, 1); o.Data? ==> |o.bytes| != v.bytesPerSector || o.bytes[0] == 0
  {
    if v.factor == 1 {
      MisfitOne(d, v);
    } else if v.factor > 1 {
      MisfitMany(d, v, p, q);
    }
  }

  /** For sizes that do not fit there is a drive and a sector that is read wrongly. */
  lemma MisfitReadsWrong(sectorSize: nat, v: Volume) returns (d: Drive, count: nat, s: nat)
    requires sectorSize > 0 && v.bytesPerSector > 0 && v.factor == SetUpFactor(sectorSize, v.bytesPerSector)
    requires sectorSize % v.bytesPerSector != 0
    ensures d.sectorSize == sectorSize && Sound(d, count) && WrongRead(d, v, s, 1)
  {
    s := if v.factor <= 1 then 0 else v.factor;
    var p := v.partitionStart * sectorSize + s * v.bytesPerSector;
    var q := (v.partitionStart + 1) * sectorSize;
    count := p + q + sectorSize + v.bytesPerSector;
    MulOrder(1, sectorSize, count);
    var size := count * sectorSize;
    assert size >= count;
    d := Marked(size, sectorSize, p);
    MisfitIsWrong(d, v, s, p, q);
  }

  /** Factor 1 although the sizes differ: whole drive sectors are stored, which is too much. */
  lemma MisfitOne(d: Drive, v: Volume)
    requires SetUp(d, v) && v.factor == 1 && d.sectorSize != v.bytesPerSector && d.bad == {}
    ensures ReadOutcome(d, v, 0, 1).Data? ==> |ReadOutcome(d, v, 0, 1).bytes| != v.bytesPerSector
  {
    var lba := v.partitionStart + 0;
    Distribute(lba, 1, d.sectorSize);
    if SectorsReadable(d, lba, 1) {
      WholeSectors(d, lba, 1);
      assert |d.bytes[lba * d.sectorSize..(lba + 1) * d.sectorSize]| == d.sectorSize;
    }
  }

  /** The first FAT sector of the second drive sector is taken from behind where it lies. */
  lemma MisfitMany(d: Drive, v: Volume, p: nat, q: nat)
    requires SetUp(d, v) && v.factor > 1 && d.bad == {} && d.sectorSize % v.bytesPerSector != 0
    requires p == v.partitionStart * d.sectorSize + v.factor * v.bytesPerSector &&
             q == (v.partitionStart + 1) * d.sectorSize
    requires p + q + d.sectorSize + v.bytesPerSector <= |d.bytes|
    requires forall i :: 0 <= i < |d.bytes| ==> d.bytes[i] == if i == p then 1 else 0
    ensures var o := ReadOutcome(d, v, v.factor, 1); o.Data? ==> |o.bytes| == v.bytesPerSector && o.bytes[0] == 0
  {
    FitsIffDivides(d, v);
    DivMod(d.sectorSize, v.bytesPerSector);
    Distribute(v.partitionStart, 1, d.sectorSize);
    assert p < q;
    DivUnique(v.factor, v.factor, 1, 0);
    assert DriveSector(v, v.factor) == v.partitionStart + 1 && v.factor % v.factor == 0;
    Distribute(v.partitionStart + 1, 1, d.sectorSize);
    if AllReadable(d, v, v.factor, 1) {
      assert Readable(d, DriveSector(v, v.factor));
      PieceInside(d, v, 0, 1);
      assert Pieces(d, v, v.factor, 0) == [];
      assert Pieces(d, v, v.factor, 1) == Piece(d, v, v.factor);
    }
  }

  /**
    The exact condition: all reads on all drives with these sector sizes return the slice of the
    partition they should if and only if the FAT sector size divides the drive's.
   */
  lemma ReadsRightIffDivides(sectorSize: nat, v: Volume)
    requires sectorSize > 0 && v.bytesPerSector > 0 && v.factor == SetUpFactor(sectorSize, v.bytesPerSector)
    ensures sectorSize % v.bytesPerSector == 0 <==>
            forall d: Drive, count: nat, s: nat, n: nat {:trigger Sound(d, count), WrongRead(d, v, s, n)} ::
              d.sectorSize == sectorSize && Sound(d, count) ==> !WrongRead(d, v, s, n)
  {
    if sectorSize % v.bytesPerSector == 0 {
      forall d: Drive, count: nat, s: nat, n: nat | d.sectorSize == sectorSize && Sound(d, count)
        ensures !WrongRead(d, v, s, n)
      {
        FitsIffDivides(d, v);
        FitsGivesSlice(d, v, s, n);
        if n > 0 && Position(d, v, s + n) <= |d.bytes| {
          InRangeIsReadable(d, v, count, s, n);
        }
      }
    } else {
      var d, count, s := MisfitReadsWrong(sectorSize, v);
    }
  }

  // ---- the code ----

  /** fat12_drive_read */
  method DriveRead(d: Drive, v: Volume, s: nat, n: nat) returns (r: Outcome)
    requires SetUp(d, v)
    ensures r == ReadOutcome(d, v, s, n)
  {
    FitsIffDivides(d, v);
    if n == 0 {
      return Failed;
    }
    if v.factor == 1 {
      var whole := ReadSectors(d, v.partitionStart + s, n);
      return if whole == None then Failed else Data(whole.value);
    }
    if v.factor == 0 {
      return Trap;
    }
    var remaining: nat, cur: nat, out: seq<Byte> := n, s, [];
    while remaining > 0
      invariant cur + remaining == s + n && s <= cur && AllReadable(d, v, s, cur - s) && out == Pieces(d, v, s, cur - s)
    {
      var chunk, m := ReadRound(d, v, cur, remaining);
      if chunk == None {
        return Failed;
      }
      JoinReadable(d, v, s, cur, m);
      PiecesJoin(d, v, s, cur - s, m);
      out := out + chunk.value;
      remaining := remaining - m;
      cur := cur + m;
    }
    return Data(out);
  }

  /** One round of fat12_drive_read: as many FAT sectors as the current drive sector holds. */
  method ReadRound(d: Drive, v: Volume, cur: nat, remaining: nat) returns (chunk: Option<seq<Byte>>, m: nat)
    requires SetUp(d, v) && v.factor > 1 && v.factor * v.bytesPerSector <= d.sectorSize && remaining > 0
    ensures 0 < m <= remaining && (chunk.Some? <==> AllReadable(d, v, cur, m))
    ensures chunk == None ==> !AllReadable(d, v, cur, remaining)
    ensures chunk.Some? ==> chunk.value == Pieces(d, v, cur, m)
  {
    var lba: nat, offset: nat := DriveSector(v, cur), cur % v.factor;
    m := v.factor - offset;
    if m > remaining {
      m := remaining;
    }
    OneSector(d, v, cur, m);
    var sector := ReadSectors(d, lba, 1);
    if sector == None {
      return None, m;
    }
    assert Readable(d, lba);
    OneRound(d, v, cur, m);
    chunk := Some(sector.value[offset * v.bytesPerSector..(offset + m) * v.bytesPerSector]);
  }

  lemma OneSector(d: Drive, v: Volume, cur: nat, m: nat)
    requires v.factor > 0 && cur % v.factor + m <= v.factor && m > 0
    ensures AllReadable(d, v, cur, m) <==> Readable(d, DriveSector(v, cur))
  {
    forall j | cur <= j < cur + m
      ensures j / v.factor == cur / v.factor
    {
      SameDriveSector(v.factor, cur, m, j);
    }
    assert AllReadable(d, v, cur, m) ==> Readable(d, DriveSector(v, cur));
  }

  lemma JoinReadable(d: Drive, v: Volume, s: nat, cur: nat, m: nat)
    requires v.factor > 0 && s <= cur && AllReadable(d, v, s, cur - s) && AllReadable(d, v, cur, m)
    ensures AllReadable(d, v, s, cur + m - s)
  {
  }

  /** On a sound drive, FAT sectors whose bytes it has can be read. */
  lemma InRangeIsReadable(d: Drive, v: Volume, count: nat, s: nat, n: nat)
    requires Fits(d, v) && Sound(d, count) && Position(d, v, s + n) <= |d.bytes|
    ensures AllReadable(d, v, s, n)
  {
    forall j | s <= j < s + n
      ensures Readable(d, DriveSector(v, j))
    {
      var k := DriveSector(v, j);
      ModBelow(j, v.factor);
      InsideDriveSector(d, v, j, 1);
      PositionIs(d, v, j + 1);
      PositionIs(d, v, s + n);
      MulOrder(j + 1, s + n, v.bytesPerSector);
      if k >= count {
        MulOrder(count, k, d.sectorSize);
      }
      MulOrder(k + 1, count, d.sectorSize);
    }
  }

  lemma OneToOne(d: Drive, v: Volume, s: nat, n: nat)
    requires Fits(d, v) && v.factor == 1
    ensures Position(d, v, s) == (v.partitionStart + s) * d.sectorSize &&
            Position(d, v, s + n) == (v.partitionStart + s + n) * d.sectorSize
    ensures AllReadable(d, v, s, n) <==> forall k :: v.partitionStart + s <= k < v.partitionStart + s + n ==>
              Readable(d, k)
  {
    PositionIs(d, v, s);
    PositionIs(d, v, s + n);
    Distribute(v.partitionStart, s, d.sectorSize);
    Distribute(v.partitionStart, s + n, d.sectorSize);
    if AllReadable(d, v, s, n) {
      forall k | v.partitionStart + s <= k < v.partitionStart + s + n
        ensures Readable(d, k)
      {
        assert Readable(d, DriveSector(v, k - v.partitionStart));
      }
    }
  }

  // ---- table entries ----

  function Low(a: nat): Byte {
    a % 256
  }

  /** The upper four bits of one entry and the lower four of the next. */
  function Middle(a: nat, b: nat): Byte
    requires a < 4096
  {
    a / 256 + b % 16 * 16
  }

  function High(b: nat): Byte
    requires b < 4096
  {
    b / 16
  }

  /** Two 12-bit entries in three bytes. */
  function Pack(es: seq<nat>): (bs: seq<Byte>)
    requires IsTable(es)
  {
    if es == [] then []
    else if |es| == 1 then [Low(es[0]), Middle(es[0], 0)]
    else [Low(es[0]), Middle(es[0], es[1]), High(es[1])] + Pack(es[2..])
  }

  function Offset(cluster: nat): nat {
    cluster * 3 / 2
  }

  /** Little-endian 16 bits. */
  function Word(low: nat, high: nat): nat {
    low + 256 * high
  }

  /** The entry inside the two bytes at Offset(cluster). */
  function Extract(cluster: nat, word: nat): nat {
    if cluster % 2 == 1 then word / 16 else word % 4096
  }

  lemma PairReadsBack(a: nat, b: nat)
    requires a < 4096 && b < 4096
    ensures Extract(0, Word(Low(a), Middle(a, b))) == a && Extract(1, Word(Middle(a, b), High(b))) == b
  {
    var a0, a1, b0, b1 := a % 256, a / 256, b % 16, b / 16;
    DivMod(a, 256);
    DivMod(b, 16);
    DivUnique(Word(a0, a1 + b0 * 16), 4096, b0, a);
    DivUnique(Word(a1 + b0 * 16, b1), 16, b, a1);
  }

  /** Every packed entry can be read back from the two bytes it lies in. */
  lemma {:induction false} PackedEntry(es: seq<nat>, c: nat)
    requires c < |es| && IsTable(es)
    ensures var b, o := Pack(es), Offset(c); o + 1 < |b| && Extract(c, Word(b[o], b[o + 1])) == es[c]
    decreases |es|
  {
    var b := Pack(es);
    if c < 2 {
      FirstPair(es, c);
    } else {
      var rest, o := Pack(es[2..]), Offset(c - 2);
      PackedEntry(es[2..], c - 2);
      TwoOn(c, Word(rest[o], rest[o + 1]));
      assert b[o + 3] == rest[o] && b[o + 4] == rest[o + 1];
    }
  }

  lemma TwoOn(c: nat, w: nat)
    requires c >= 2
    ensures Offset(c) == Offset(c - 2) + 3 && Extract(c, w) == Extract(c - 2, w)
  {
  }

  lemma FirstPair(es: seq<nat>, c: nat)
    requires c < 2 && c < |es| && IsTable(es)
    ensures var b, o := Pack(es), Offset(c); o + 1 < |b| && Extract(c, Word(b[o], b[o + 1])) == es[c]
  {
    var b := Pack(es);
    if |es| == 1 {
      PairReadsBack(es[0], 0);
    } else {
      PairReadsBack(es[0], es[1]);
      assert b[0] == Low(es[0]) && b[1] == Middle(es[0], es[1]) && b[2] == High(es[1]);
    }
  }

  /** Entries of twelve bits. */
  predicate IsTable(es: seq<nat>) {
    forall i :: 0 <= i < |es| ==> es[i] < 4096
  }

  ghost predicate HoldsTable(d: Drive, v: Volume, es: seq<nat>)
    requires IsTable(es)
  {
    var p := Position(d, v, v.fatStart);
    p + |Pack(es)| <= |d.bytes| && d.bytes[p..p + |Pack(es)|] == Pack(es)
  }

  /** Byte `off` of the table, by FAT sector and offset inside it. */
  lemma TableByte(d: Drive, v: Volume, off: nat)
    requires Fits(d, v)
    ensures var q, o := off / v.bytesPerSector, off % v.bytesPerSector;
            && Position(d, v, v.fatStart + q) + o == Position(d, v, v.fatStart) + off && o < v.bytesPerSector
            && Position(d, v, v.fatStart + q + 1) == Position(d, v, v.fatStart + q) + v.bytesPerSector
  {
    var q := off / v.bytesPerSector;
    PositionIs(d, v, v.fatStart);
    PositionIs(d, v, v.fatStart + q);
    DivMod(off, v.bytesPerSector);
    Distribute(v.fatStart, q, v.bytesPerSector);
  }

  /** One FAT sector of the table. */
  method TableSector(d: Drive, v: Volume, s: nat) returns (r: Option<seq<Byte>>)
    requires SetUp(d, v) && Fits(d, v)
    ensures r.Some? <==> Readable(d, DriveSector(v, s))
    ensures r.Some? ==> |r.value| == v.bytesPerSector && Position(d, v, s) + v.bytesPerSector <= |d.bytes|
    ensures r.Some? ==> forall i :: 0 <= i < |r.value| ==> r.value[i] == d.bytes[Position(d, v, s) + i]
  {
    var o := DriveRead(d, v, s, 1);
    FitsGivesSlice(d, v, s, 1);
    assert AllReadable(d, v, s, 1) <==> Readable(d, DriveSector(v, s)) by {
      assert AllReadable(d, v, s, 1) ==> Readable(d, DriveSector(v, s));
    }
    Distribute(s, 1, v.bytesPerSector);
    return if o.Data? then Some(o.bytes) else None;
  }

  /**
    fat12_next_cluster: the entry in the two table bytes at Offset(cluster), whether or not a sector
    boundary separates them; it fails exactly for clusters below 2 and unreadable sectors.  On a
    volume that holds the packed table `es`, the entry is the one that was packed.
   */
  method NextCluster(d: Drive, v: Volume, cluster: nat, ghost es: seq<nat>) returns (r: Option<nat>)
    requires SetUp(d, v) && Fits(d, v)
    ensures r.Some? <==>
              && cluster >= 2
              && var s := v.fatStart + Offset(cluster) / v.bytesPerSector;
                 && Readable(d, DriveSector(v, s))
                 && (Offset(cluster) % v.bytesPerSector == v.bytesPerSector - 1 ==> Readable(d, DriveSector(v, s + 1)))
    ensures r.Some? ==>
              && var p := Position(d, v, v.fatStart) + Offset(cluster);
                 p + 1 < |d.bytes| && r.value == Extract(cluster, Word(d.bytes[p], d.bytes[p + 1]))
    ensures r.Some? && IsTable(es) && HoldsTable(d, v, es) && cluster < |es| ==> r.value == es[cluster]
  {
    if cluster < 2 {
      return None;
    }
    var w := TableWord(d, v, Offset(cluster));
    if IsTable(es) && HoldsTable(d, v, es) && cluster < |es| {
      TableReadsBack(d, v, es, cluster);
    }
    return if w == None then None else Some(Extract(cluster, w.value));
  }

  /** The two bytes at offset o of FAT sector s, the second one perhaps in the next sector. */
  method SectorWord(d: Drive, v: Volume, s: nat, o: nat) returns (r: Option<nat>)
    requires SetUp(d, v) && Fits(d, v) && o < v.bytesPerSector
    requires Position(d, v, s + 1) == Position(d, v, s) + v.bytesPerSector
    ensures r.Some? <==>
              Readable(d, DriveSector(v, s)) && (o == v.bytesPerSector - 1 ==> Readable(d, DriveSector(v, s + 1)))
    ensures r.Some? ==>
              var p := Position(d, v, s) + o;
              p + 1 < |d.bytes| && r.value == Word(d.bytes[p], d.bytes[p + 1])
  {
    var sector := TableSector(d, v, s);
    if sector == None {
      return None;
    }
    if o < v.bytesPerSector - 1 {
      return Some(Word(sector.value[o], sector.value[o + 1]));
    }
    var next := TableSector(d, v, s + 1);
    if next == None {
      return None;
    }
    return Some(Word(sector.value[o], next.value[0]));
  }

  /** The two table bytes at `off`, from one sector or from two. */
  method TableWord(d: Drive, v: Volume, off: nat) returns (r: Option<nat>)
    requires SetUp(d, v) && Fits(d, v)
    ensures var s := v.fatStart + off / v.bytesPerSector;
            r.Some? <==>
              && Readable(d, DriveSector(v, s))
              && (off % v.bytesPerSector == v.bytesPerSector - 1 ==> Readable(d, DriveSector(v, s + 1)))
    ensures r.Some? ==>
              var p := Position(d, v, v.fatStart) + off;
              p + 1 < |d.bytes| && r.value == Word(d.bytes[p], d.bytes[p + 1])
  {
    TableByte(d, v, off);
    var s: nat, o: nat := v.fatStart + off / v.bytesPerSector, off % v.bytesPerSector;
    r := SectorWord(d, v, s, o);
  }

  /** On a volume that holds a packed table, the two bytes give back every entry. */
  lemma TableReadsBack(d: Drive, v: Volume, es: seq<nat>, cluster: nat)
    requires IsTable(es) && HoldsTable(d, v, es) && cluster < |es|
    ensures var p := Position(d, v, v.fatStart) + Offset(cluster);
            p + 1 < |d.bytes| && Extract(cluster, Word(d.bytes[p], d.bytes[p + 1])) == es[cluster]
  {
    PackedEntry(es, cluster);
    var p, b, o := Position(d, v, v.fatStart), Pack(es), Offset(cluster);
    assert d.bytes[p..p + |b|][o] == b[o] && d.bytes[p..p + |b|][o + 1] == b[o + 1];
  }
}

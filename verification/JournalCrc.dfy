/** The journal with the checksum it really uses. A commit record whose CRC-32C comes out
    as zero is taken for one without a checksum; this shows that such records exist, one
    epoch for every record count, and what then becomes of a committed transaction. */
module JournalCrc {
  import opened Sectors
  import opened JournalProtocol
  import opened JournalSafety
  import opened JournalTheorems
  import Crc

  // ----- a sector as bytes -----------------------------------------------------

  function Byte(n: nat): bv8
    requires n < 256
  {
    n as bv8
  }

  function ByteOf(w: Word, k: nat): (n: nat)
    requires k < 4
    ensures n < 256
  {
    (if k == 0 then w else if k == 1 then w / 0x100 else if k == 2 then w / 0x1_0000 else w / 0x100_0000) % 256
  }

  /** A dword in memory order. */
  function WordBytes(w: Word): Crc.Bytes {
    [Byte(ByteOf(w, 0)), Byte(ByteOf(w, 1)), Byte(ByteOf(w, 2)), Byte(ByteOf(w, 3))]
  }

  function Bits(w: Word): bv32 {
    Crc.Word(Byte(ByteOf(w, 0)), Byte(ByteOf(w, 1)), Byte(ByteOf(w, 2)), Byte(ByteOf(w, 3)))
  }

  function SectorBytes(ws: seq<Word>): Crc.Bytes {
    if ws == [] then [] else SectorBytes(ws[..|ws| - 1]) + WordBytes(ws[|ws| - 1])
  }

  function Castagnoli(s: Sector): Word { Crc.Crc32c(SectorBytes(s)) as int }

  /** A dword enters the register: mixed in, then 32 shifts. */
  function Enter(c: bv32, w: Word): bv32 { Crc.Shifts(32, Crc.Xor(c, Bits(w))) }

  function Fold(c: bv32, ws: seq<Word>): bv32 {
    if ws == [] then c else Enter(Fold(c, ws[..|ws| - 1]), ws[|ws| - 1])
  }

  lemma {:induction false} BytesEnter(c: bv32, w: Word)
    ensures Crc.Register(c, WordBytes(w)) == Enter(c, w)
  {
    hide Crc.Register, Crc.Shifts, Crc.Xor, Crc.Word, Byte, ByteOf;
    Crc.WordStep(c, Byte(ByteOf(w, 0)), Byte(ByteOf(w, 1)), Byte(ByteOf(w, 2)), Byte(ByteOf(w, 3)));
  }

  lemma {:induction false} RegisterFolds(c: bv32, ws: seq<Word>)
    ensures Crc.Register(c, SectorBytes(ws)) == Fold(c, ws)
  {
    hide Crc.Register, Enter, WordBytes;
    if ws == [] {
      NothingRegisters(c);
    } else {
      var short, w := ws[..|ws| - 1], ws[|ws| - 1];
      RegisterFolds(c, short);
      Crc.RegisterAppend(c, SectorBytes(short), WordBytes(w));
      BytesEnter(Fold(c, short), w);
    }
  }

  lemma {:induction false} NothingRegisters(c: bv32)
    ensures Crc.Register(c, []) == c
  {
  }

  lemma {:induction false} FoldAppend(c: bv32, a: seq<Word>, b: seq<Word>)
    ensures Fold(c, a + b) == Fold(Fold(c, a), b)
    decreases |b|
  {
    hide Enter;
    if b == [] {
      assert a + b == a;
    } else {
      assert (a + b)[..|a + b| - 1] == a + b[..|b| - 1];
      FoldAppend(c, a, b[..|b| - 1]);
    }
  }

  // ----- the register can be brought anywhere --------------------------------------

  /** The polynomial's top bit tells whether a one was shifted out. */
  function Unshift(c: bv32): bv32 {
    if c & 0x8000_0000 == 0 then c << 1 else ((c ^ Crc.POLYNOMIAL) << 1) | 1
  }

  lemma {:induction false} EvenBack(c: bv32)
    requires c & 0x8000_0000 == 0
    ensures (c << 1) & 1 == 0 && (c << 1) >> 1 == c
  {
  }

  lemma {:induction false} OddBack(x: bv32)
    requires x & 0x8000_0000 == 0
    ensures ((x << 1) | 1) & 1 == 1 && ((x << 1) | 1) >> 1 == x
  {
  }

  lemma {:induction false} ClearTop(c: bv32)
    requires c & 0x8000_0000 != 0
    ensures (c ^ Crc.POLYNOMIAL) & 0x8000_0000 == 0
    ensures (c ^ Crc.POLYNOMIAL) ^ Crc.POLYNOMIAL == c
  {
  }

  lemma {:induction false} ShiftUnshift(c: bv32)
    ensures Crc.Shift(Unshift(c)) == c
  {
    if c & 0x8000_0000 == 0 {
      EvenBack(c);
    } else {
      ClearTop(c);
      OddBack(c ^ Crc.POLYNOMIAL);
    }
  }

  function Unshifts(n: nat, c: bv32): bv32 {
    if n == 0 then c else Unshifts(n - 1, Unshift(c))
  }

  lemma {:induction false} ShiftsUnshifts(n: nat, c: bv32)
    ensures Crc.Shifts(n, Unshifts(n, c)) == c
  {
    hide Crc.Shift, Unshift;
    if n > 0 {
      ShiftsUnshifts(n - 1, Unshift(c));
      ShiftUnshift(c);
    }
  }

  lemma {:induction false} XorUndone(a: bv32, b: bv32)
    ensures Crc.Xor(a, Crc.Xor(a, b)) == b && Crc.Xor(Crc.Xor(b, a), a) == b
  {
  }

  /** The register before `ws` that ends as `target`. */
  lemma {:induction false} FoldReaches(ws: seq<Word>, target: bv32) returns (c: bv32)
    ensures Fold(c, ws) == target
  {
    hide Crc.Shifts, Crc.Xor, Unshifts, Bits;
    if ws == [] {
      c := target;
    } else {
      var short, w := ws[..|ws| - 1], Bits(ws[|ws| - 1]);
      var before := Crc.Xor(Unshifts(32, target), w);
      c := FoldReaches(short, before);
      XorUndone(w, Unshifts(32, target));
      ShiftsUnshifts(32, target);
    }
  }

  lemma {:induction false} EnterInjective(c: bv32, d: bv32, v: Word, w: Word)
    ensures Enter(c, v) == Enter(d, v) ==> c == d
    ensures Enter(c, v) == Enter(c, w) ==> v == w
  {
    hide Crc.Shifts, Crc.Xor, Bits;
    if Enter(c, v) == Enter(d, v) {
      Crc.ShiftsInjective(32, Crc.Xor(c, Bits(v)), Crc.Xor(d, Bits(v)));
      Crc.XorCancels(c, d, Bits(v));
    }
    if Enter(c, v) == Enter(c, w) {
      Crc.ShiftsInjective(32, Crc.Xor(c, Bits(v)), Crc.Xor(c, Bits(w)));
      Crc.XorCancelsLeft(c, Bits(v), Bits(w));
      BitsInjective(v, w);
    }
  }

  lemma {:induction false} BitsInjective(v: Word, w: Word)
    requires Bits(v) == Bits(w)
    ensures v == w
  {
    hide Crc.Word, Byte, ByteOf;
    Crc.WordInjective(Byte(ByteOf(v, 0)), Byte(ByteOf(v, 1)), Byte(ByteOf(v, 2)), Byte(ByteOf(v, 3)),
                      Byte(ByteOf(w, 0)), Byte(ByteOf(w, 1)), Byte(ByteOf(w, 2)), Byte(ByteOf(w, 3)));
    forall k | 0 <= k < 4
      ensures ByteOf(v, k) == ByteOf(w, k)
    {
      ByteInjective(ByteOf(v, k), ByteOf(w, k));
    }
    BytesMake(v);
    BytesMake(w);
  }

  lemma {:induction false} ByteInjective(m: nat, n: nat)
    requires m < 256 && n < 256
    ensures Byte(m) == Byte(n) ==> m == n
  {
    hide Byte;
    ByteBack(m);
    ByteBack(n);
  }

  lemma {:induction false} ByteBack(n: nat)
    requires n < 256
    ensures Byte(n) as int == n
  {
    ThereAndBack(n);
  }

  lemma {:induction false} ThereAndBack(n: nat)
    requires n < 256
    ensures (n as bv8) as int == n
  {
    var b := Counted(n);
    FromBv8(b);
  }

  lemma {:induction false} Counted(n: nat) returns (b: bv8)
    requires n < 256
    ensures b as int == n
  {
    if n == 0 {
      b := 0;
    } else {
      b := Counted(n - 1);
      OneMore(b);
      b := b + 1;
    }
  }

  lemma {:induction false} OneMore(b: bv8)
    requires b as int < 255
    ensures (b + 1) as int == b as int + 1
  {
  }

  lemma {:induction false} BytesMake(w: Word)
    ensures w == ByteOf(w, 0) + 0x100 * ByteOf(w, 1) + 0x1_0000 * ByteOf(w, 2) + 0x100_0000 * ByteOf(w, 3)
  {
    var a := w / 0x100;
    var b := a / 0x100;
    assert w / 0x1_0000 == b && w / 0x100_0000 == b / 0x100;
  }

  /** Four bytes as the dword they make. */
  lemma {:induction false} MadeOf(b0: nat, b1: nat, b2: nat, b3: nat, w: Word)
    requires b0 < 256 && b1 < 256 && b2 < 256 && b3 < 256
    requires w == b0 + 0x100 * b1 + 0x1_0000 * b2 + 0x100_0000 * b3
    ensures ByteOf(w, 0) == b0 && ByteOf(w, 1) == b1 && ByteOf(w, 2) == b2 && ByteOf(w, 3) == b3
  {
    assert w / 0x100 == b1 + 0x100 * b2 + 0x1_0000 * b3;
    assert w / 0x1_0000 == b2 + 0x100 * b3;
    assert w / 0x100_0000 == b3;
  }

  lemma {:induction false} FromBv8(b: bv8)
    ensures 0 <= b as int < 256 && Byte(b as int) == b
  {
  }

  function Number(b: bv8): nat { b as int }

  lemma {:induction false} FromNumber(b: bv8)
    ensures Number(b) < 256 && Byte(Number(b)) == b
  {
    FromBv8(b);
  }

  lemma {:induction false} WordMade(b0: bv8, b1: bv8, b2: bv8, b3: bv8) returns (w: Word)
    ensures Bits(w) == Crc.Word(b0, b1, b2, b3)
  {
    hide Crc.Word, Byte, ByteOf, Number;
    FromNumber(b0);
    FromNumber(b1);
    FromNumber(b2);
    FromNumber(b3);
    var n0, n1, n2, n3 := Number(b0), Number(b1), Number(b2), Number(b3);
    w := n0 + 0x100 * n1 + 0x1_0000 * n2 + 0x100_0000 * n3;
    MadeOf(n0, n1, n2, n3, w);
  }

  /** Every register value is some dword. */
  lemma {:induction false} BitsReach(x: bv32) returns (w: Word)
    ensures Bits(w) == x
  {
    hide Crc.Word, Bits;
    Crc.WordOfBytes(x);
    w := WordMade((x & 0xFF) as bv8, ((x >> 8) & 0xFF) as bv8, ((x >> 16) & 0xFF) as bv8, (x >> 24) as bv8);
  }

  lemma {:induction false} FoldInjective(c: bv32, d: bv32, ws: seq<Word>)
    requires Fold(c, ws) == Fold(d, ws)
    ensures c == d
  {
    hide Enter;
    if ws != [] {
      var short := ws[..|ws| - 1];
      EnterInjective(Fold(c, short), Fold(d, short), ws[|ws| - 1], 0);
      FoldInjective(c, d, short);
    }
  }

  /** Words that differ in one place fold to different registers. */
  lemma {:induction false} FoldTells(c: bv32, head: seq<Word>, v: Word, w: Word, tail: seq<Word>)
    requires Fold(c, head + [v] + tail) == Fold(c, head + [w] + tail)
    ensures v == w
  {
    hide Enter;
    FoldAppend(c, head + [v], tail);
    FoldAppend(c, head + [w], tail);
    FoldInjective(Fold(c, head + [v]), Fold(c, head + [w]), tail);
    FoldPush(c, head, v);
    FoldPush(c, head, w);
    EnterInjective(Fold(c, head), 0, v, w);
  }

  lemma {:induction false} FoldPush(c: bv32, head: seq<Word>, v: Word)
    ensures Fold(c, head + [v]) == Enter(Fold(c, head), v)
  {
    hide Enter;
    assert (head + [v])[..|head|] == head;
  }

  lemma {:induction false} ZeroIsOnes(s: Sector)
    ensures Castagnoli(s) == 0 <==> Fold(Crc.ONES, s) == Crc.ONES
  {
    hide Fold, SectorBytes, Crc.Register;
    RegisterFolds(Crc.ONES, s);
    var r := Crc.Register(Crc.ONES, SectorBytes(s));
    XorOnes(r);
  }

  lemma {:induction false} XorOnes(r: bv32)
    ensures Crc.Xor(r, Crc.ONES) as int == 0 <==> r == Crc.ONES
  {
    hide Crc.Xor;
    OnesCancel(r);
    ZeroOnly(Crc.Xor(r, Crc.ONES));
  }

  lemma {:induction false} OnesCancel(r: bv32)
    ensures Crc.Xor(r, Crc.ONES) == 0 <==> r == Crc.ONES
  {
  }

  lemma {:induction false} ZeroOnly(x: bv32)
    ensures x as int == 0 <==> x == 0
  {
  }

  // ----- commit records with checksum zero -----------------------------------------

  function Head(): seq<Word> { [JRNL_MAGIC, T_COMMIT, 0] }

  function Tail(records: Word): seq<Word> { [0, records] + seq(122, _ => 0) }

  lemma {:induction false} CommitSplits(epoch: Word, records: Word)
    ensures CommitBody(epoch, records) == Head() + [epoch] + Tail(records)
  {
  }

  /** For every record count exactly one epoch gives the commit record checksum zero. */
  lemma {:induction false} ZeroCommit(records: Word) returns (epoch: Word)
    ensures forall e: Word :: Castagnoli(CommitBody(e, records)) == 0 <==> e == epoch
  {
    hide Fold, Enter, Castagnoli, Tail, Head, CommitBody, Crc.Xor, Crc.Shifts, Bits, Unshifts;
    var ones := Crc.ONES;
    var target := FoldReaches(Tail(records), ones);
    var start := Fold(ones, Head());
    epoch := BitsReach(Crc.Xor(start, Unshifts(32, target)));
    EpochEnters(start, epoch, target);
    ZeroAt(epoch, records, target);
    forall e: Word
      ensures Castagnoli(CommitBody(e, records)) == 0 <==> e == epoch
    {
      CommitSplits(e, records);
      CommitSplits(epoch, records);
      ZeroIsOnes(CommitBody(e, records));
      ZeroIsOnes(CommitBody(epoch, records));
      if Castagnoli(CommitBody(e, records)) == 0 {
        FoldTells(ones, Head(), e, epoch, Tail(records));
      }
    }
  }

  lemma {:induction false} EpochEnters(start: bv32, epoch: Word, target: bv32)
    requires Bits(epoch) == Crc.Xor(start, Unshifts(32, target))
    ensures Enter(start, epoch) == target
  {
    hide Crc.Xor, Crc.Shifts, Bits, Unshifts;
    XorUndone(start, Unshifts(32, target));
    ShiftsUnshifts(32, target);
  }

  lemma {:induction false} ZeroAt(epoch: Word, records: Word, target: bv32)
    requires Enter(Fold(Crc.ONES, Head()), epoch) == target && Fold(target, Tail(records)) == Crc.ONES
    ensures Castagnoli(CommitBody(epoch, records)) == 0
  {
    hide Fold, Enter, Castagnoli, Tail, Head, CommitBody;
    CommitSplits(epoch, records);
    FoldPush(Crc.ONES, Head(), epoch);
    FoldAppend(Crc.ONES, Head() + [epoch], Tail(records));
    ZeroIsOnes(CommitBody(epoch, records));
  }

  /** No epoch does so for two record counts. */
  lemma {:induction false} ZeroOnce(epoch: Word, m: Word, n: Word)
    requires Castagnoli(CommitBody(epoch, m)) == 0 && Castagnoli(CommitBody(epoch, n)) == 0
    ensures m == n
  {
    hide Fold, Enter, Castagnoli, Head, CommitBody, Tail;
    ZeroIsOnes(CommitBody(epoch, m));
    ZeroIsOnes(CommitBody(epoch, n));
    var head, rest := Head() + [epoch] + [0], seq(122, _ => 0);
    CommitWords(epoch, m);
    CommitWords(epoch, n);
    FoldTells(Crc.ONES, head, m, n, rest);
  }

  lemma {:induction false} CommitWords(epoch: Word, records: Word)
    ensures CommitBody(epoch, records) == (Head() + [epoch] + [0]) + [records] + seq(122, _ => 0)
  {
  }

  // ----- a committed transaction that is lost ----------------------------------------

  const GUARDED: set<nat> := {SUPERBLOCK_LBA, 0, 1}

  function Changed(): Sector { Blank()[0 := 1] }

  function CleanSector(i: nat, epoch: Word): Sector {
    if i == SUPERBLOCK_LBA then Blank()[SB_EPOCH := epoch] else Blank()
  }

  /** A clean volume, all zero but for the epoch in its superblock. */
  function Clean(epoch: Word): (d: Disk)
    ensures |d| == JRNL_LBA + JRNL_SECTS
    ensures forall i :: 0 <= i < |d| && i != SUPERBLOCK_LBA ==> d[i] == Blank()
    ensures d[SUPERBLOCK_LBA] == Blank()[SB_EPOCH := epoch]
  {
    seq(JRNL_LBA + JRNL_SECTS, (i: nat) => CleanSector(i, epoch))
  }

  lemma {:induction false} CleanIsInitial(epoch: Word)
    ensures Initial(GUARDED, Clean(epoch)) && Epoch(Clean(epoch)) == epoch
  {
  }

  /** An open transaction of the given epoch that has changed the first `n` sectors. */
  ghost predicate Opened(mc: Machine, d: Disk, epoch: Word, n: nat)
    requires n <= 2
  {
    && |mc.disk| == |d| == JRNL_LBA + JRNL_SECTS && mc.mem.open && mc.mem.epoch == epoch && mc.mem.ptr == 2 * n
    && |mc.mem.logged| == n && (forall i :: 0 <= i < n ==> mc.mem.logged[i].lba == i)
    && mc.ideal.durable == d && |mc.ideal.current| == |d|
    && (n > 0 ==> mc.ideal.current[0] == Changed())
  }

  lemma {:induction false} BeginRuns(crc: Checksum, epoch: Word) returns (mc: Machine)
    requires epoch > 0
    ensures Reaches(crc, GUARDED, Clean(epoch - 1), [Do(Begin)], mc) && Opened(mc, Clean(epoch - 1), epoch, 0)
  {
    var d := Clean(epoch - 1);
    CleanIsInitial(epoch - 1);
    hide Initial, Clean, StampedSuperblock, Apply;
    var mc0 := Start(d);
    assert Reaches(crc, GUARDED, d, [], mc0);
    ReachesNext(crc, GUARDED, d, [], mc0, Do(Begin));
    assert [] + [Do(Begin)] == [Do(Begin)];
    mc := Next(crc, mc0, Do(Begin));
  }

  lemma {:induction false} WriteRuns(crc: Checksum, d: Disk, events: seq<Event>, mc: Machine, epoch: Word, n: nat) returns (mc': Machine)
    requires n < 2 && Reaches(crc, GUARDED, d, events, mc) && Opened(mc, d, epoch, n)
    ensures Reaches(crc, GUARDED, d, events + [Do(Write(n, Changed()))], mc') && Opened(mc', d, epoch, n + 1)
  {
    hide Reaches, Apply, PreHeader;
    var e := Do(Write(n, Changed()));
    ReachesNext(crc, GUARDED, d, events, mc, e);
    mc' := Next(crc, mc, e);
  }

  /** A run of the protocol with the checksum it uses, cut right after the commit record:
      replay takes the transaction back. */
  lemma {:induction false} CommittedIsLost() returns (d: Disk, events: seq<Event>, mc: Machine)
    ensures Initial(GUARDED, d) && Reaches(Castagnoli, GUARDED, d, events, mc) && Running(mc) && mc.mem.open
    ensures var after := Next(Castagnoli, mc, Cut(Commit, 1));
      Volume(after.disk) && !SameOn(GUARDED, Recovered(Castagnoli, after.disk), mc.ideal.current)
  {
    hide Castagnoli, CommitBody, Next, Recovered, SameOn, Initial, Reaches, Clean, Inv;
    var e1 := ZeroCommit(1);
    var e2 := ZeroCommit(2);
    if e1 > 0 {
      d, events, mc := LostWith(1, e1);
    } else {
      if e2 == 0 {
        ZeroOnce(0, 1, 2);
      }
      d, events, mc := LostWith(2, e2);
    }
  }

  lemma {:induction false} LostWith(n: nat, epoch: Word) returns (d: Disk, events: seq<Event>, mc: Machine)
    requires 1 <= n <= 2 && epoch > 0 && Castagnoli(CommitBody(epoch, n)) == 0
    ensures Initial(GUARDED, d) && Reaches(Castagnoli, GUARDED, d, events, mc) && Running(mc) && mc.mem.open
    ensures var after := Next(Castagnoli, mc, Cut(Commit, 1));
      Volume(after.disk) && !SameOn(GUARDED, Recovered(Castagnoli, after.disk), mc.ideal.current)
  {
    hide Castagnoli, CommitBody, Next, Recovered, SameOn, Initial, Reaches, Clean, Inv;
    d, events := Clean(epoch - 1), [Do(Begin)];
    CleanIsInitial(epoch - 1);
    mc := BeginRuns(Castagnoli, epoch);
    mc := WriteRuns(Castagnoli, d, events, mc, epoch, 0);
    events := events + [Do(Write(0, Changed()))];
    if n == 2 {
      mc := WriteRuns(Castagnoli, d, events, mc, epoch, 1);
      events := events + [Do(Write(1, Changed()))];
    }
    RunKeeps(Castagnoli, GUARDED, d, events, mc);
    Differs(mc, epoch, n);
    CommitRecordKeeps(Castagnoli, GUARDED, mc);
  }

  lemma {:induction false} Differs(mc: Machine, epoch: Word, n: nat)
    requires epoch > 0 && 1 <= n <= 2 && Opened(mc, Clean(epoch - 1), epoch, n)
    ensures !SameOn(GUARDED, mc.ideal.durable, mc.ideal.current)
  {
    assert Blank()[0] == 0 && Changed()[0] == 1;
    assert 0 in GUARDED && Content(0, mc.ideal.durable[0]) != Content(0, mc.ideal.current[0]);
  }
}

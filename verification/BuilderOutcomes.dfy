/** When the builder's calls succeed, and how a file is cut into fragments. */
module BuilderOutcomes {
  import opened HbfsTypes
  import opened BuilderSpec
  import opened BuilderInvariant
  import opened BuilderReadback

  // ----- outcomes -----------------------------------------------------------------

  /** The directory a file is put into. */
  ghost function Target(fs: FS, dir: Option<string>): Directory {
    if dir.Some? && dir.value != "" && dir.value in fs.subdirs then fs.subdirs[dir.value].data else fs.root
  }

  /** No slot is free, and none has the name. */
  ghost predicate NoRoom(dir: Directory, name: string) {
    forall i :: 0 <= i < |dir| ==> Used(dir[i]) && dir[i].name != name
  }

  /** The slots of every directory are free or in use. */
  lemma {:induction false} FreeOrUsed(fs: FS, own: Owners, dir: Option<string>)
    requires Inv(fs, own)
    ensures forall i :: 0 <= i < |Target(fs, dir)| ==> Target(fs, dir)[i] == FREE_SLOT || Used(Target(fs, dir)[i])
    ensures forall i :: 0 <= i < |fs.root| ==> fs.root[i] == FREE_SLOT || Used(fs.root[i])
  {
    forall i | 0 <= i < |fs.root|
      ensures fs.root[i] == FREE_SLOT || Used(fs.root[i])
    {
      assert GoodRootSlot(fs, own, i);
    }
    if InSubdir(fs, dir) {
      assert GoodSubdir(fs, own, dir.value);
    }
  }

  /** A slot is found exactly when there is room. */
  lemma {:induction false} SlotExactly(dir: Directory, name: string)
    requires forall i :: 0 <= i < |dir| ==> dir[i] == FREE_SLOT || Used(dir[i])
    ensures SlotFor(dir, name).None? <==> NoRoom(dir, name)
    ensures FindName(dir, name, 0).None? ==> (FindFree(dir, 0).None? <==> NoRoom(dir, name))
  {
    hide FindName, FindFree;
  }

  /** After any calls, `add_file` raises exactly when the name is not ASCII or the fragments
      asked for cannot be had; else it says the directory is full exactly when it has no room
      for the name, and succeeds otherwise. */
  lemma {:induction false} AddFileOutcome(v4: bool, calls: seq<Call>, name: string, data: seq<Byte>, dir: Option<string>,
                                          ftype: nat, fragments: nat)
    requires forall i :: 0 <= i < |calls| ==> GoodCall(calls[i])
    ensures var fs := Built(NewFS(v4), calls);
      var r := Step(fs, PutFile(name, data, dir, ftype, fragments)).1;
      && (r == Raised <==> !Ascii(name) || (fragments > 1 && !(fs.v4 && FitsExtents(BlocksFor(|data|), fragments))))
      && (r == Full <==> r != Raised && NoRoom(Target(fs, dir), name))
  {
    hide Built, Inv, FindName, FindFree, Ascii, SlotFor, BlocksFor, WriteData, NoRoom;
    var own := RunKeeps(v4, calls);
    var fs := Built(NewFS(v4), calls);
    FreeOrUsed(fs, own, dir);
    SlotExactly(Target(fs, dir), name);
    if fragments > 1 {
      FitsExactly(fs.next, BlocksFor(|data|), fragments);
    }
  }

  /** After any calls, `create_subdir` fails exactly when there is no such directory yet and
      the name is not ASCII or the root has no room for it; then it raises. */
  lemma {:induction false} MakeDirOutcome(v4: bool, calls: seq<Call>, name: string)
    requires forall i :: 0 <= i < |calls| ==> GoodCall(calls[i])
    ensures var fs := Built(NewFS(v4), calls);
      var r := Step(fs, MakeDir(name)).1;
      && (r == Raised <==> !HasDir(fs, name) && (!Ascii(name) || NoRoom(fs.root, name)))
      && r != Full
  {
    hide Built, Inv, FindName, FindFree, Ascii, WriteDir, ReadDir;
    var own := RunKeeps(v4, calls);
    var fs := Built(NewFS(v4), calls);
    FreeOrUsed(fs, own, None);
    SlotExactly(fs.root, name);
    var slot := FindName(fs.root, name, 0);
    if slot.Some? && !HasDir(fs, name) {
      assert fs.root[slot.value := FREE_SLOT][slot.value] == FREE_SLOT;
    }
  }

  // ----- entries -----------------------------------------------------------------------

  /** A used entry as the builder writes it: named, without flags of its own or attributes; a
      directory has no size and its fixed number of blocks. */
  ghost predicate Plain(e: Entry) {
    && e.terminated && e.otherFlags == 0 && e.xcount == 0 && e.xlba == 0
    && (e.ftype == FTYPE_DIR ==> !e.extents && e.size == 0 && e.count == DIR_BLOCKS)
  }

  /** After any calls every slot of every directory is empty or holds such an entry. */
  lemma {:induction false} EntriesPlain(v4: bool, calls: seq<Call>, dir: Option<string>, i: nat)
    requires forall i :: 0 <= i < |calls| ==> GoodCall(calls[i])
    requires i < |Target(Built(NewFS(v4), calls), dir)|
    ensures var e := Target(Built(NewFS(v4), calls), dir)[i];
      e == Entry("", true, FTYPE_FREE, false, 0, 0, 0, 0, 0, 0) || Plain(e)
  {
    hide Built;
    var own := RunKeeps(v4, calls);
    var fs := Built(NewFS(v4), calls);
    if InSubdir(fs, dir) {
      assert GoodSubdir(fs, own, dir.value);
    } else {
      assert GoodRootSlot(fs, own, i);
    }
  }

  // ----- fragments ------------------------------------------------------------------

  /** As many runs as an extent block holds are enough. */
  ghost predicate FitsExtents(blocks: nat, fragments: nat)
    requires blocks > 0 && fragments > 0
  {
    blocks <= EXTENT_MAX * RunLength(blocks, fragments)
  }

  lemma {:induction false} FitsExactly(start: nat, blocks: nat, fragments: nat)
    requires blocks > 0 && fragments > 0
    ensures |Runs(start, blocks, RunLength(blocks, fragments))| <= EXTENT_MAX <==> FitsExtents(blocks, fragments)
  {
    hide RunLength;
    var per := RunLength(blocks, fragments);
    RunsCount(start, blocks, per);
    var n := |Runs(start, blocks, per)|;
    Grows(EXTENT_MAX, n - 1, per);
    Grows(n, EXTENT_MAX, per);
  }

  lemma {:induction false} Grows(m: nat, n: nat, per: nat)
    ensures m <= n ==> m * per <= n * per
  {
  }

  lemma {:induction false} RunsCount(start: nat, blocks: nat, per: nat)
    requires per > 0 && blocks > 0
    ensures var n := |Runs(start, blocks, per)|; n > 0 && (n - 1) * per < blocks <= n * per
    decreases blocks
  {
    if blocks > per {
      RunsCount(start + per, blocks - per, per);
      var n := |Runs(start + per, blocks - per, per)|;
      Next(n, per);
      Next(n - 1, per);
    } else {
      assert Runs(start + blocks, 0, per) == [];
    }
  }

  lemma {:induction false} Next(n: nat, per: nat)
    ensures n * per + per == (n + 1) * per
  {
  }

  lemma {:induction false} RunAt(start: nat, blocks: nat, per: nat, i: nat)
    requires per > 0 && i < |Runs(start, blocks, per)|
    ensures i * per < blocks && Runs(start, blocks, per)[i] == Run(start + i * per, Min(per, blocks - i * per))
    decreases i
  {
    if i > 0 {
      RunAt(start + per, blocks - per, per, i - 1);
      Next(i - 1, per);
    }
  }

  /** A file cut into fragments lies in consecutive runs that are all of the same length but
      the last, which may be shorter; there are at most as many as asked for, and shorter runs
      would not do. */
  lemma {:induction false} RunsFair(start: nat, blocks: nat, fragments: nat)
    requires blocks > 0 && fragments > 0
    ensures var per := RunLength(blocks, fragments);
      var runs := Runs(start, blocks, per);
      && 0 < |runs| <= fragments
      && (forall i :: 0 <= i < |runs| ==> i * per < blocks && runs[i] == Run(start + i * per, Min(per, blocks - i * per)))
      && (|runs| - 1) * per < blocks <= |runs| * per
      && (per - 1) * Min(fragments, blocks) < blocks
  {
    var per, count := RunLength(blocks, fragments), Min(fragments, blocks);
    LengthIsLeast(blocks, count);
    hide RunLength, Runs;
    RunsCount(start, blocks, per);
    var runs := Runs(start, blocks, per);
    forall i | 0 <= i < |runs|
      ensures i * per < blocks && runs[i] == Run(start + i * per, Min(per, blocks - i * per))
    {
      RunAt(start, blocks, per, i);
    }
    Grows(count, |runs| - 1, per);
  }

  lemma {:induction false} LengthIsLeast(blocks: nat, count: nat)
    requires 0 < count <= blocks
    ensures var per := (blocks + count - 1) / count; per > 0 && blocks <= count * per && (per - 1) * count < blocks
  {
    var per := (blocks + count - 1) / count;
    assert per * count <= blocks + count - 1 < per * count + count;
  }
}

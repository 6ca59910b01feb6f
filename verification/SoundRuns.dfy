/** Runs of the tools: creations, hard links, directories, deletions, copies and restores, in any
    order, each brought to its end or left by an exit. */
module SoundRuns {
  import opened Prelude
  import opened ResourceMap
  import opened Inodes
  import FileData
  import opened DirBlock
  import opened Directory
  import opened Volume
  import opened DirectoryTools
  import opened Restore
  import opened Soundness
  import opened SoundTools
  import opened SoundRestore
  import opened Exits
  import opened Growth

  /** A volume and its directories. */
  datatype State = State(fs: Fs, dirs: seq<nat>)

  /** One use of a tool, with the numbers it chose; the last three are exits with something written. */
  datatype Use =
    | Create(dir: nat, blk: nat, link: nat, e: Entry)
    | Delete(dir: nat, name: seq<Byte>, at: Place, now: nat)
    | Copy(num: nat, src: seq<Byte>)
    | Undelete(dir: nat, name: seq<Byte>)
    | CreateExit(dir: nat, link: nat, name: seq<Byte>, blk: nat)
    | CopyExit(num: nat, src: seq<Byte>, ds: seq<nat>, ind: nat, es: seq<nat>)
    | UndeleteExit(dir: nat, name: seq<Byte>)

  /** The tool is used on s and leaves t. */
  ghost predicate Does(u: Use, s: State, t: State) {
    match u
    case Create(dir, blk, link, e) =>
      && dir in s.dirs && Linkable(s.fs, s.dirs, link, e.kind) && Created(s.fs, t.fs, dir, blk, link, e, |s.fs.disk|)
      && t.dirs == DirsAfter(s.dirs, link, e)
    case Delete(dir, name, at, now) =>
      && dir in s.dirs && Found(s.fs, dir, name, at)
      && Deletable(s.fs, at.block, at.pos) && DeleteOutcome(s.fs, at.block, at.pos) == Ok
      && t.fs == AfterDelete(s.fs, at.block, at.pos, now) && t.dirs == s.dirs
    case Copy(num, src) =>
      && num in s.fs.inodeMap.used && num !in s.dirs
      && 1 <= num <= |s.fs.inodes| && Empty(s.fs.inodes[num - 1]) && Copied(s.fs, t.fs, num, src)
      && t.dirs == s.dirs
    case Undelete(dir, name) =>
      && dir in s.dirs && DirOk(s.fs, dir) && StaleLinked(s.fs, dir, name) && AfterRestore(s.fs, dir, name) == Recovered(t.fs)
      && t.dirs == s.dirs
    case CreateExit(dir, link, name, blk) =>
      && dir in s.dirs && DirOk(s.fs, dir) && CreateOutcome(s.fs, dir, link, name) == Exit && Exited(s.fs, t.fs, dir, name, blk)
      && t.dirs == s.dirs
    case CopyExit(num, src, ds, ind, es) =>
      && num in s.fs.inodeMap.used && num !in s.dirs && Copying(s.fs, t.fs, num, src, ds, ind, es)
      && t.dirs == s.dirs
    case UndeleteExit(dir, name) =>
      && dir in s.dirs && DirOk(s.fs, dir) && StaleLinked(s.fs, dir, name) && AfterRestore(s.fs, dir, name) == Abandoned(t.fs)
      && t.dirs == s.dirs
  }

  /** A restore is harmless when the record it finds fits, and an exit when it comes before anything
      is written, or in the middle of a copy; every other use always is. */
  ghost predicate Harmless(u: Use, s: State) {
    match u
    case Undelete(dir, name) => DirOk(s.fs, dir) && RestoreFits(s.fs, dir, name)
    case CreateExit(dir, link, name, blk) => DirOk(s.fs, dir) && HarmlessExit(s.fs, s.dirs, dir, name)
    case UndeleteExit(_, _) => false
    case _ => true
  }

  /** One use keeps a sound volume sound exactly when it is harmless. */
  lemma UseKeepsSoundExactly(u: Use, s: State, t: State)
    requires Sound(s.fs, s.dirs) && Does(u, s, t)
    ensures Sound(t.fs, t.dirs) <==> Harmless(u, s)
  {
    hide Sound, Created, Copied, Deletable, DeleteOutcome, AfterDelete, EntryIn, Found, Linkable, StaleLinked, AfterRestore, DirOk, RestoreFits,
         Copying, Exited, CreateOutcome, HarmlessExit;
    match u
    case Create(dir, blk, link, e) => CreateKeepsSound(s.fs, t.fs, s.dirs, dir, blk, link, e);
    case Delete(dir, name, at, now) => DeleteKeepsSound(s.fs, s.dirs, dir, name, at, now);
    case Copy(num, src) => CopyKeepsSound(s.fs, t.fs, s.dirs, num, src);
    case Undelete(dir, name) => RestoreKeepsSoundExactly(s.fs, t.fs, s.dirs, dir, name);
    case CreateExit(dir, link, name, blk) =>
      InUse(s.fs, s.dirs, dir);
      InRange(s.fs, dir);
      ExitKeepsSoundExactly(s.fs, t.fs, s.dirs, dir, link, name, blk);
    case CopyExit(num, src, ds, ind, es) => StoppedCopyKeepsSound(s.fs, t.fs, s.dirs, num, src, ds, ind, es);
    case UndeleteExit(dir, name) => AbandonedIsUnsound(s.fs, t.fs, s.dirs, dir, name);
  }

  lemma {:induction false} HarmlessRun(us: seq<Use>, ss: seq<State>)
    requires |ss| == |us| + 1 && Sound(ss[0].fs, ss[0].dirs)
    requires forall k :: 0 <= k < |us| ==> Does(us[k], ss[k], ss[k + 1])
    requires forall k :: 0 <= k < |us| ==> Harmless(us[k], ss[k])
    ensures forall k :: 0 <= k < |ss| ==> Sound(ss[k].fs, ss[k].dirs)
    decreases |us|
  {
    hide Sound, Does, Harmless;
    if us == [] {
    } else {
      UseKeepsSoundExactly(us[0], ss[0], ss[1]);
      HarmlessRun(us[1..], ss[1..]);
    }
  }

  /** The volume is sound all along a run, in whatever order files and directories are created,
      linked, copied, deleted and restored, exactly when every record restored fits its gap and no
      exit comes after something was written that harms. */
  lemma RunKeepsSoundExactly(us: seq<Use>, ss: seq<State>)
    requires |ss| == |us| + 1 && Sound(ss[0].fs, ss[0].dirs)
    requires forall k :: 0 <= k < |us| ==> Does(us[k], ss[k], ss[k + 1])
    ensures (forall k :: 0 <= k < |ss| ==> Sound(ss[k].fs, ss[k].dirs)) <==> forall k :: 0 <= k < |us| ==> Harmless(us[k], ss[k])
  {
    hide Sound, Does, Harmless;
    if forall k :: 0 <= k < |us| ==> Harmless(us[k], ss[k]) {
      HarmlessRun(us, ss);
    }
    if forall k :: 0 <= k < |ss| ==> Sound(ss[k].fs, ss[k].dirs) {
      forall k | 0 <= k < |us| ensures Harmless(us[k], ss[k]) {
        UseKeepsSoundExactly(us[k], ss[k], ss[k + 1]);
      }
    }
  }

  // ---------- the counts in directory inodes ----------

  /** Size, sectors and pointers of an inode. */
  predicate SameSizes(i: Inode, i': Inode) {
    i'.ptr == i.ptr && i'.size == i.size && i'.sectors == i.sectors
  }

  lemma DeleteCountsStay(fs: Fs, blk: nat, p: nat, now: nat)
    requires Deletable(fs, blk, p) && DeleteOutcome(fs, blk, p) == Ok
    ensures var fs' := AfterDelete(fs, blk, p, now);
      |fs'.inodes| == |fs.inodes| && forall k :: 0 <= k < |fs.inodes| ==> SameSizes(fs.inodes[k], fs'.inodes[k])
  {
    hide Tiled, OnChain, HideAt, PointersOk, ReleaseAll, Ino, FreeOrder;
  }

  lemma ReclaimCountsStay(fs: Fs, num: nat)
    requires Linked(fs, num)
    ensures match AfterReclaim(fs, num)
      case Refused => true
      case Clash(left) => |left.inodes| == |fs.inodes| && forall k :: 0 <= k < |fs.inodes| ==> SameSizes(fs.inodes[k], left.inodes[k])
      case Restored(fs1) => |fs1.inodes| == |fs.inodes| && forall k :: 0 <= k < |fs.inodes| ==> SameSizes(fs.inodes[k], fs1.inodes[k])
  {
    hide PointersOk, ClaimOrder, ClaimAll, ClaimUpTo, AllFree;
  }

  lemma RestoreCountsStay(fs: Fs, dir: nat, name: seq<Byte>)
    requires DirOk(fs, dir) && StaleLinked(fs, dir, name)
    ensures match AfterRestore(fs, dir, name)
      case Failed(_) => true
      case Abandoned(left) => |left.inodes| == |fs.inodes| && forall k :: 0 <= k < |fs.inodes| ==> SameSizes(fs.inodes[k], left.inodes[k])
      case Recovered(fs1) => |fs1.inodes| == |fs.inodes| && forall k :: 0 <= k < |fs.inodes| ==> SameSizes(fs.inodes[k], fs1.inodes[k])
  {
    hide UniqueNames, Listing, AllTiled, FindEntry, Scan, Peek, PeekIno, PointersOk, AfterReclaim, Unhidden, SameSizes;
    var at := Scan(fs.disk, Blocks(fs, dir), name);
    if at.Some? {
      ReclaimCountsStay(fs, PeekIno(fs.disk, at.value.entry));
    }
  }

  /** Every use of a tool, harmless or not, exits included, leaves every directory's size and sector
      count those of its blocks. */
  lemma UseKeepsGrown(u: Use, s: State, t: State)
    requires Does(u, s, t) && AllGrown(s.fs, s.dirs)
    ensures AllGrown(t.fs, t.dirs)
  {
    hide Grown, Created, Deletable, DeleteOutcome, AfterDelete, Found, Linkable, StaleLinked, AfterRestore, DirOk, Exited, CreateOutcome,
         ClaimAll, PointersOk, FreeOrder, NoDup, FileData.Stored, Reads;
    match u
    case Create(dir, blk, link, e) => CreateGrows(s.fs, t.fs, s.dirs, dir, blk, link, e);
    case Delete(dir, name, at, now) =>
      DeleteCountsStay(s.fs, at.block, at.pos, now);
      AllGrownKept(s.fs, t.fs, s.dirs);
    case Copy(num, src) => AllGrownKept(s.fs, t.fs, s.dirs);
    case Undelete(dir, name) =>
      RestoreCountsStay(s.fs, dir, name);
      AllGrownKept(s.fs, t.fs, s.dirs);
    case CreateExit(dir, link, name, blk) => ExitGrows(s.fs, t.fs, s.dirs, dir, link, name, blk);
    case CopyExit(num, src, ds, ind, es) => AllGrownKept(s.fs, t.fs, s.dirs);
    case UndeleteExit(dir, name) =>
      RestoreCountsStay(s.fs, dir, name);
      AllGrownKept(s.fs, t.fs, s.dirs);
  }

  /** So along every run the size of every directory is 1024 bytes for each of its blocks and its sector
      count two for each. */
  lemma {:induction false} RunKeepsGrown(us: seq<Use>, ss: seq<State>)
    requires |ss| == |us| + 1 && AllGrown(ss[0].fs, ss[0].dirs)
    requires forall k :: 0 <= k < |us| ==> Does(us[k], ss[k], ss[k + 1])
    ensures forall k :: 0 <= k < |ss| ==> AllGrown(ss[k].fs, ss[k].dirs)
    decreases |us|
  {
    hide AllGrown, Does;
    if us == [] {
    } else {
      UseKeepsGrown(us[0], ss[0], ss[1]);
      RunKeepsGrown(us[1..], ss[1..]);
    }
  }
}

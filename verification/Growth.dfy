/** Directories grow by whole blocks: the size and the sector count in a directory's inode are always
    those of the blocks it lists its entries in. */
module Growth {
  import opened Prelude
  import opened ResourceMap
  import opened Inodes
  import opened DirBlock
  import opened Directory
  import opened Volume
  import opened DirectoryTools
  import opened Soundness

  /** No pointer follows the first 0, the size is 1024 bytes a block, and the sectors are two a block. */
  ghost predicate Grown(fs: Fs, d: nat) {
    && 1 <= d <= |fs.inodes| && Compact(fs.inodes[d - 1])
    && fs.inodes[d - 1].size == BLOCK_SIZE * |Blocks(fs, d)|
    && fs.inodes[d - 1].sectors == SECTORS_PER_BLOCK * |Blocks(fs, d)|
  }

  ghost predicate AllGrown(fs: Fs, dirs: seq<nat>) {
    forall d :: d in dirs ==> Grown(fs, d)
  }

  /** Links and deletion times play no part in it. */
  lemma GrownKept(fs: Fs, fs': Fs, d: nat)
    requires Grown(fs, d) && |fs'.inodes| == |fs.inodes|
    requires var i, i' := fs.inodes[d - 1], fs'.inodes[d - 1]; i'.ptr == i.ptr && i'.size == i.size && i'.sectors == i.sectors
    ensures Grown(fs', d)
  {
    hide Direct;
  }

  lemma AllGrownKept(fs: Fs, fs': Fs, dirs: seq<nat>)
    requires AllGrown(fs, dirs) && |fs'.inodes| == |fs.inodes|
    requires forall k :: 0 <= k < |fs.inodes| && k + 1 in dirs ==>
      fs'.inodes[k].ptr == fs.inodes[k].ptr && fs'.inodes[k].size == fs.inodes[k].size && fs'.inodes[k].sectors == fs.inodes[k].sectors
    ensures AllGrown(fs', dirs)
  {
    hide Grown;
    forall d | d in dirs ensures Grown(fs', d) {
      GrownIn(fs, d);
      GrownKept(fs, fs', d);
    }
  }

  lemma GrownIn(fs: Fs, d: nat)
    requires Grown(fs, d)
    ensures 1 <= d <= |fs.inodes| && Compact(fs.inodes[d - 1])
  {
    hide Compact;
  }

  /** One more block behind the last. */
  lemma OneMoreGrows(fs: Fs, fs': Fs, d: nat, blk: nat)
    requires Grown(fs, d) && |Blocks(fs, d)| < DIRECT && blk != 0 && |fs'.inodes| == |fs.inodes|
    requires fs'.inodes[d - 1] == OneMoreBlock(fs.inodes[d - 1], |Blocks(fs, d)|, blk)
    ensures Grown(fs', d) && Blocks(fs', d) == Blocks(fs, d) + [blk]
  {
    hide Direct;
    DirectGrows(fs.inodes[d - 1].ptr, 0, blk);
  }

  lemma EmptyIsGrown(fs: Fs, d: nat, kind: Byte)
    requires 1 <= d <= |fs.inodes|
    requires fs.inodes[d - 1] == BlankInode(kind) || fs.inodes[d - 1] == OneMoreLink(BlankInode(kind))
    ensures Grown(fs, d) && Blocks(fs, d) == []
  {}

  /** All that a new entry does to the inodes. */
  lemma EntryInodes(fs: Fs, dir: nat, blk: nat, e: Entry)
    requires CanEnter(fs, dir, blk, e)
    ensures var fs1, more := WithEntry(fs, dir, blk, e), SpotIn(fs, dir, Need(e.name)).None?;
      && |fs1.inodes| == |fs.inodes| && 1 <= dir <= |fs.inodes|
      && (forall k :: 0 <= k < |fs.inodes| && k != dir - 1 ==> fs1.inodes[k] == fs.inodes[k])
      && (!more ==> fs1.inodes == fs.inodes)
      && (more ==> blk != 0 && |Blocks(fs, dir)| < DIRECT && fs1.inodes[dir - 1] == OneMoreBlock(fs.inodes[dir - 1], |Blocks(fs, dir)|, blk))
  {
    hide Direct, AllTiled, UniqueNames, FirstEntry, PutAt, AsMap, OneMoreBlock, Compact, Spot;
  }

  /** A new entry, in a block of the directory or in one more. */
  lemma EntryGrows(fs: Fs, dir: nat, blk: nat, e: Entry, d: nat)
    requires CanEnter(fs, dir, blk, e) && Grown(fs, d)
    ensures |WithEntry(fs, dir, blk, e).inodes| == |fs.inodes|
    ensures Grown(WithEntry(fs, dir, blk, e), d)
  {
    hide CanEnter, Direct, WithEntry, OneMoreBlock, Grown, SpotIn, DirOk;
    CanEnterOk(fs, dir, blk, e);
    EntryInodes(fs, dir, blk, e);
    GrownIn(fs, d);
    if SpotIn(fs, dir, Need(e.name)).None? && d == dir {
      OneMoreGrows(fs, WithEntry(fs, dir, blk, e), d, blk);
    } else {
      GrownKept(fs, WithEntry(fs, dir, blk, e), d);
    }
  }

  lemma CanEnterOk(fs: Fs, dir: nat, blk: nat, e: Entry)
    requires CanEnter(fs, dir, blk, e)
    ensures DirOk(fs, dir) && Storable(e) && blk < |fs.disk|
    ensures SpotIn(fs, dir, Need(e.name)).None? ==> |Blocks(fs, dir)| < DIRECT
  {
    hide DirOk, SpotIn, AsMap, Compact;
  }

  /** The inode of a new entry: blank, or the same with one more link. */
  lemma InodeGrows(fs: Fs, link: nat, ino: nat, kind: Byte, d: nat)
    requires 1 <= ino <= |fs.inodes| && (Grown(fs, d) || (link == 0 && d == ino))
    ensures Grown(WithInode(fs, link, ino, kind), d)
  {
    hide Grown, BlankInode;
    var fs1 := WithInode(fs, link, ino, kind);
    if link == 0 && d == ino {
      EmptyIsGrown(fs1, d, kind);
    } else {
      GrownIn(fs, d);
      GrownKept(fs, fs1, d);
    }
  }

  /** A creation lets one directory grow by the block it takes, if it takes one; a new directory has
      none yet. */
  lemma CreateGrows(fs: Fs, fs': Fs, dirs: seq<nat>, dir: nat, blk: nat, link: nat, e: Entry)
    requires Created(fs, fs', dir, blk, link, e, |fs.disk|) && AllGrown(fs, dirs)
    ensures AllGrown(fs', DirsAfter(dirs, link, e))
  {
    hide CanEnter, WithEntry, WithInode, Grown, SpotIn, LeastFree, DirOk;
    CanEnterOk(fs, dir, blk, e);
    EntryInodes(fs, dir, blk, e);
    var fs1 := WithEntry(fs, dir, blk, e);
    forall d | d in DirsAfter(dirs, link, e) ensures Grown(fs', d) {
      if d in dirs {
        EntryGrows(fs, dir, blk, e, d);
      }
      InodeGrows(fs1, link, e.inode, e.kind, d);
    }
  }

  /** A directory with one more block, of zeros. */
  lemma NewBlockGrows(fs: Fs, fs': Fs, dirs: seq<nat>, dir: nat, blk: nat)
    requires 1 <= dir <= |fs.inodes| == |fs'.inodes| && blk != 0 && |Blocks(fs, dir)| < DIRECT && AllGrown(fs, dirs)
    requires fs'.inodes[dir - 1] == OneMoreBlock(fs.inodes[dir - 1], |Blocks(fs, dir)|, blk)
    requires forall k :: 0 <= k < |fs.inodes| && k != dir - 1 ==> fs'.inodes[k] == fs.inodes[k]
    ensures AllGrown(fs', dirs)
  {
    hide Grown, Direct, OneMoreBlock;
    forall d | d in dirs ensures Grown(fs', d) {
      GrownIn(fs, d);
      if d == dir {
        OneMoreGrows(fs, fs', d, blk);
      } else {
        GrownKept(fs, fs', d);
      }
    }
  }

  /** The exits of create_dir_entry, too: a block that has been linked has been counted. */
  lemma ExitGrows(fs: Fs, fs': Fs, dirs: seq<nat>, dir: nat, link: nat, name: seq<Byte>, blk: nat)
    requires DirOk(fs, dir) && dir in dirs && AllGrown(fs, dirs)
    requires CreateOutcome(fs, dir, link, name) == Exit && Exited(fs, fs', dir, name, blk)
    ensures AllGrown(fs', dirs)
  {
    hide AllGrown, DirOk, Exited, AsMap, SpotIn, Direct, NoRoom, CreateOutcome, OneMoreBlock;
    if |name| > NAME_MAX || NoRoom(fs, dir, Need(name), |fs.disk|) || SpotIn(fs, dir, Need(name)).Some? {
      ExitInodes(fs, fs', dir, name, blk);
      AllGrownKept(fs, fs', dirs);
    } else {
      NewBlockInodes(fs, fs', dir, name, blk);
      NewBlockGrows(fs, fs', dirs, dir, blk);
    }
  }

  lemma ExitInodes(fs: Fs, fs': Fs, dir: nat, name: seq<Byte>, blk: nat)
    requires DirOk(fs, dir) && Exited(fs, fs', dir, name, blk)
    requires |name| > NAME_MAX || NoRoom(fs, dir, Need(name), |fs.disk|) || SpotIn(fs, dir, Need(name)).Some?
    ensures fs'.inodes == fs.inodes
  {
    hide DirOk, SplitAt, LeastFree, Splits, SpotIn;
  }

  lemma NewBlockInodes(fs: Fs, fs': Fs, dir: nat, name: seq<Byte>, blk: nat)
    requires DirOk(fs, dir) && Exited(fs, fs', dir, name, blk)
    requires |name| <= NAME_MAX && !NoRoom(fs, dir, Need(name), |fs.disk|) && SpotIn(fs, dir, Need(name)).None?
    ensures |fs'.inodes| == |fs.inodes| && 1 <= dir <= |fs.inodes| && blk != 0 && |Blocks(fs, dir)| < DIRECT
    ensures fs'.inodes[dir - 1] == OneMoreBlock(fs.inodes[dir - 1], |Blocks(fs, dir)|, blk)
    ensures forall k :: 0 <= k < |fs.inodes| && k != dir - 1 ==> fs'.inodes[k] == fs.inodes[k]
  {
    hide AllTiled, UniqueNames, Direct, OneMoreBlock, LeastFree, Splits, SpotIn, ZeroBlock, NoDup;
    NoSplit(fs, dir, Need(name));
  }

  lemma NoSplit(fs: Fs, dir: nat, need: nat)
    requires DirOk(fs, dir) && SpotIn(fs, dir, need).None?
    ensures !Splits(fs, dir, need)
  {}
}

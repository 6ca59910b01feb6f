/** The exits of create_dir_entry: what a directory is worth after each of them. */
module Exits {
  import opened Prelude
  import opened ResourceMap
  import opened Inodes
  import opened DirBlock
  import opened Directory
  import opened Volume
  import opened DirectoryTools
  import opened Soundness
  import opened SoundTools

  // ---------- the exit in the middle of a split ----------

  /** An entry in use, and the bytes behind its name tile the rest of its block. */
  ghost predicate RestTiles(disk: seq<Block>, bs: seq<nat>, at: Place)
    requires AllTiled(disk, bs) && OnChains(disk, bs, at)
  {
    Tiled(disk[at.block], at.pos + Actual(disk[at.block], at.pos))
  }

  /** What the directory lists when the bytes behind a name are read as records. */
  ghost function RestListing(disk: seq<Block>, bs: seq<nat>, at: Place): seq<Entry>
    requires AllTiled(disk, bs) && OnChains(disk, bs, at) && RestTiles(disk, bs, at)
    decreases |bs|
  {
    if bs[0] == at.block then
      RankAt(disk[at.block], 0, at.pos);
      Live(disk[at.block], 0)[..Rank(disk[at.block], 0, at.pos)] + Head(disk[at.block], at.pos)
      + Live(disk[at.block], at.pos + Actual(disk[at.block], at.pos)) + Listing(disk, bs[1..])
    else Live(disk[bs[0]], 0) + RestListing(disk, bs[1..], at)
  }

  ghost predicate Splittable(disk: seq<Block>, bs: seq<nat>, at: Place, need: nat)
    requires AllTiled(disk, bs)
  {
    && NoDup(bs) && OnChains(disk, bs, at) && need >= HEADER
    && Ino(disk[at.block], at.pos) != 0 && Fits(disk[at.block], at.pos, need)
  }

  lemma {:induction false} SplitLists(disk: seq<Block>, bs: seq<nat>, at: Place, need: nat)
    requires AllTiled(disk, bs) && Splittable(disk, bs, at, need)
    ensures var disk' := disk[at.block := SplitAt(disk[at.block], at.pos)];
      && (AllTiled(disk', bs) <==> RestTiles(disk, bs, at))
      && (RestTiles(disk, bs, at) ==> AllTiled(disk', bs) && Listing(disk', bs) == RestListing(disk, bs, at))
    decreases |bs|
  {
    hide Tiled, Live, OnChain, Fits, SplitAt, Rank, Head, Actual, Ino;
    var b, q := disk[at.block], at.pos;
    var disk' := disk[at.block := SplitAt(b, q)];
    NoDupCons(bs);
    if bs[0] == at.block {
      AbandonedSplit(b, q, need);
      ListingSame(disk, disk', bs[1..]);
    } else {
      SplitLists(disk, bs[1..], at, need);
    }
  }

  /** The first half of a split leaves the directory whole exactly when the bytes behind the name
      happen to tile, and the names they show are new. */
  ghost predicate SplitIsClean(fs: Fs, dir: nat, need: nat)
    requires DirOk(fs, dir) && Splits(fs, dir, need)
  {
    SpotIsRecord(fs, dir, need);
    var at := SpotIn(fs, dir, need).value;
    RestTiles(fs.disk, Blocks(fs, dir), at) && UniqueNames(RestListing(fs.disk, Blocks(fs, dir), at))
  }

  lemma SplitExit(fs: Fs, dir: nat, need: nat)
    requires DirOk(fs, dir) && Splits(fs, dir, need) && need >= HEADER
    ensures DirOk(AfterSplit(fs, dir, need), dir) <==> SplitIsClean(fs, dir, need)
  {
    hide Tiled, OnChain, Fits, Direct, UniqueNames, Listing, RestTiles, RestListing, SplitAt, Ino;
    SpotIsRecord(fs, dir, need);
    SplitLists(fs.disk, Blocks(fs, dir), SpotIn(fs, dir, need).value, need);
  }

  // ---------- the exit behind a new block ----------

  /** A block of zeros is no chain of records: the step from its first byte is 0, and no scan that
      reaches it ever ends. */
  lemma ZerosDoNotTile()
    ensures RecLen(ZeroBlock(), 0) == 0 && !Tiled(ZeroBlock(), 0)
  {}

  lemma NewBlockExit(fs: Fs, dir: nat, blk: nat)
    requires DirOk(fs, dir) && Compact(fs.inodes[dir - 1]) && |Blocks(fs, dir)| < DIRECT && 0 < blk < |fs.disk|
    ensures Blocks(AfterNewBlock(fs, dir, blk), dir) == Blocks(fs, dir) + [blk]
    ensures !DirOk(AfterNewBlock(fs, dir, blk), dir)
  {
    hide Direct, Tiled, UniqueNames, Listing, ZeroBlock;
    DirectGrows(fs.inodes[dir - 1].ptr, 0, blk);
    ZerosDoNotTile();
    var bs := Blocks(AfterNewBlock(fs, dir, blk), dir);
    assert bs[|bs| - 1] == blk;
  }

  // ---------- all exits ----------

  /** No new name can be had, or it is refused before anything is written. */
  ghost predicate CleanExit(fs: Fs, dir: nat, name: seq<Byte>)
    requires DirOk(fs, dir)
  {
    || |name| > NAME_MAX || NoRoom(fs, dir, Need(name), |fs.disk|)
    || (SpotIn(fs, dir, Need(name)).Some? && (Splits(fs, dir, Need(name)) ==> SplitIsClean(fs, dir, Need(name))))
  }

  /** When create_dir_entry exits, the directory is still a directory exactly if the name was too
      long, there was no room at all, or the record was to go over an unused one, or into slack
      that reads as records under new names. */
  lemma ExitKeepsDirectoryExactly(fs: Fs, fs': Fs, dir: nat, link: nat, name: seq<Byte>, blk: nat)
    requires DirOk(fs, dir) && Compact(fs.inodes[dir - 1])
    requires CreateOutcome(fs, dir, link, name) == Exit && Exited(fs, fs', dir, name, blk)
    ensures DirOk(fs', dir) <==> CleanExit(fs, dir, name)
  {
    hide DirOk, Compact, Splits, AfterSplit, AfterNewBlock, SplitIsClean, SpotIn, Direct, AsMap;
    if |name| > NAME_MAX || NoRoom(fs, dir, Need(name), |fs.disk|) {
    } else if Splits(fs, dir, Need(name)) {
      SplitExit(fs, dir, Need(name));
      SplitsIsSpot(fs, dir, Need(name));
    } else if SpotIn(fs, dir, Need(name)).None? {
      NewBlockExit(fs, dir, blk);
    }
  }

  lemma SplitsIsSpot(fs: Fs, dir: nat, need: nat)
    requires DirOk(fs, dir) && Splits(fs, dir, need)
    ensures SpotIn(fs, dir, need).Some?
  {}

  // ---------- the whole volume after an exit ----------

  /** Both listings name each inode equally often. */
  ghost predicate SameCounts(fs: Fs, l: seq<Entry>, l': seq<Entry>) {
    forall i :: 1 <= i <= |fs.inodes| ==> Count(l, i) == Count(l', i)
  }

  ghost predicate GoodEntries(fs: Fs, dirs: seq<nat>, l: seq<Entry>) {
    forall e :: e in l ==> GoodEntry(fs, dirs, e)
  }

  /** Half a split leaves the volume sound when what the bytes behind the name show names inodes in
      use, each as often as before. */
  ghost predicate SplitIsHarmless(fs: Fs, dirs: seq<nat>, dir: nat, need: nat)
    requires DirOk(fs, dir) && Splits(fs, dir, need)
  {
    SpotIsRecord(fs, dir, need);
    SplitIsClean(fs, dir, need) &&
    var l := RestListing(fs.disk, Blocks(fs, dir), SpotIn(fs, dir, need).value);
    GoodEntries(fs, dirs, l) && SameCounts(fs, l, Listed(fs, dir))
  }

  /** Half a split changes one block of one directory. */
  lemma SplitEnters(fs: Fs, dir: nat, need: nat) returns (n: nat)
    requires GoodDir(fs, dir) && Splits(fs, dir, need)
    ensures Entered(fs, AfterSplit(fs, dir, need), dir, n)
    ensures Blocks(AfterSplit(fs, dir, need), dir) == Blocks(fs, dir)
  {
    hide Tiled, OnChain, Fits, UniqueNames, Listing, SplitAt, Ino, Spot, AllTiled;
    SpotIsRecord(fs, dir, need);
    n := SpotIn(fs, dir, need).value.block;
    BytesEntered(fs, AfterSplit(fs, dir, need), dir, n);
  }

  lemma SplitListed(fs: Fs, dir: nat, need: nat)
    requires DirOk(fs, dir) && Splits(fs, dir, need) && need >= HEADER && DirOk(AfterSplit(fs, dir, need), dir)
    ensures SplitIsClean(fs, dir, need) && SpotIn(fs, dir, need).Some?
    ensures var at := SpotIn(fs, dir, need).value;
      && AllTiled(fs.disk, Blocks(fs, dir)) && OnChains(fs.disk, Blocks(fs, dir), at) && RestTiles(fs.disk, Blocks(fs, dir), at)
      && Listed(AfterSplit(fs, dir, need), dir) == RestListing(fs.disk, Blocks(fs, dir), at)
  {
    hide Tiled, OnChain, Fits, Direct, UniqueNames, Listing, RestTiles, RestListing, SplitAt, Ino;
    SplitExit(fs, dir, need);
    SpotIsRecord(fs, dir, need);
    SplitLists(fs.disk, Blocks(fs, dir), SpotIn(fs, dir, need).value, need);
  }

  ghost predicate OthersStay(fs: Fs, fs': Fs, dirs: seq<nat>, dir: nat) {
    && fs'.inodes == fs.inodes && fs'.inodeMap == fs.inodeMap
    && forall d :: d in dirs && d != dir ==> SameListing(fs, fs', d) && GoodDir(fs', d)
  }

  /** All of the volume but the listing of one directory. */
  lemma SplitKeeps(fs: Fs, dirs: seq<nat>, dir: nat, need: nat)
    requires Sound(fs, dirs) && dir in dirs && DirOk(fs, dir) && Splits(fs, dir, need)
    ensures var fs' := AfterSplit(fs, dir, need);
      && Accounted(fs') && Owned(fs') && OthersStay(fs, fs', dirs, dir)
      && (DirOk(fs', dir) ==> GoodDir(fs', dir))
  {
    hide DirOk, Owned, Accounted, LinksCounted, Compact, SameListing, AfterSplit, Splits, Entered, Listed, NoDup;
    var fs' := AfterSplit(fs, dir, need);
    assert GoodDir(fs, dir);
    var n := SplitEnters(fs, dir, need);
    EntryOwned(fs, fs', dir, n);
    EntryAccounted(fs, fs', dir, n);
    forall d | d in dirs && d != dir ensures SameListing(fs, fs', d) && GoodDir(fs', d) {
      assert GoodDir(fs, d);
      OtherListing(fs, fs', dir, n, d);
      SameIsOk(fs, fs', d);
      SplitInodes(fs, dir, need);
    }
    SplitInodes(fs, dir, need);
  }

  lemma SplitInodes(fs: Fs, dir: nat, need: nat)
    requires DirOk(fs, dir) && Splits(fs, dir, need)
    ensures AfterSplit(fs, dir, need).inodes == fs.inodes && AfterSplit(fs, dir, need).inodeMap == fs.inodeMap
  {}

  lemma CountsStay(fs: Fs, fs': Fs, dirs: seq<nat>, dir: nat)
    requires AllDirsOk(fs, dirs) && AllDirsOk(fs', dirs) && NoDup(dirs) && dir in dirs && LinksCounted(fs, dirs)
    requires OthersStay(fs, fs', dirs, dir)
    ensures LinksCounted(fs', dirs) <==> SameCounts(fs, Listed(fs', dir), Listed(fs, dir))
  {
    hide DirOk, Listed, NoDup, Total, Count, GoodDir, SameListing;
    if LinksCounted(fs', dirs) {
      forall i | 1 <= i <= |fs.inodes| ensures Count(Listed(fs', dir), i) == Count(Listed(fs, dir), i) {
        TotalChange(fs, fs', dirs, dir, i);
        assert fs.inodes[i - 1].links == Total(fs, dirs, i) && fs'.inodes[i - 1].links == Total(fs', dirs, i);
      }
    }
    if SameCounts(fs, Listed(fs', dir), Listed(fs, dir)) {
      forall i | 1 <= i <= |fs'.inodes| ensures fs'.inodes[i - 1].links == Total(fs', dirs, i) {
        TotalChange(fs, fs', dirs, dir, i);
        assert fs.inodes[i - 1].links == Total(fs, dirs, i);
      }
    }
  }

  lemma EntriesStay(fs: Fs, fs': Fs, dirs: seq<nat>, dir: nat)
    requires DirsGood(fs, dirs) && dir in dirs && OthersStay(fs, fs', dirs, dir) && GoodDir(fs', dir)
    ensures DirsGood(fs', dirs) <==> GoodEntries(fs, dirs, Listed(fs', dir))
  {
    hide DirOk, Listed, NoDup, Compact;
    if GoodEntries(fs, dirs, Listed(fs', dir)) {
      forall d, e | d in dirs && e in Listed(fs', d) ensures GoodEntry(fs', dirs, e) {
        if d != dir {
          assert SameListing(fs, fs', d);
          assert GoodEntry(fs, dirs, e);
        }
      }
    }
    if DirsGood(fs', dirs) {
      forall e | e in Listed(fs', dir) ensures GoodEntry(fs, dirs, e) {
        assert GoodEntry(fs', dirs, e);
      }
    }
  }

  /** When only the listing of one directory changes, that decides. */
  lemma ListingDecides(fs: Fs, fs': Fs, dirs: seq<nat>, dir: nat)
    requires Sound(fs, dirs) && dir in dirs && Accounted(fs') && Owned(fs') && OthersStay(fs, fs', dirs, dir) && GoodDir(fs', dir)
    ensures Sound(fs', dirs) <==> GoodEntries(fs, dirs, Listed(fs', dir)) && SameCounts(fs, Listed(fs', dir), Listed(fs, dir))
  {
    hide DirOk, Owned, Accounted, Compact, Listed, NoDup, LinksCounted, Total, SameCounts, GoodEntries, SameListing;
    assert AllGood(fs', dirs);
    GoodAreOk(fs', dirs);
    CountsStay(fs, fs', dirs, dir);
    EntriesStay(fs, fs', dirs, dir);
  }

  lemma SplitKeepsSoundExactly(fs: Fs, dirs: seq<nat>, dir: nat, need: nat)
    requires Sound(fs, dirs) && dir in dirs && DirOk(fs, dir) && Splits(fs, dir, need) && need >= HEADER
    ensures Sound(AfterSplit(fs, dir, need), dirs) <==> SplitIsHarmless(fs, dirs, dir, need)
  {
    hide DirOk, Sound, Owned, Accounted, AfterSplit, Splits, Listed, SplitIsClean, RestTiles, RestListing, SpotIn, OnChains, GoodDir, AllTiled, SameCounts, GoodEntries, OthersStay;
    var fs' := AfterSplit(fs, dir, need);
    SplitKeeps(fs, dirs, dir, need);
    SplitExit(fs, dir, need);
    if DirOk(fs', dir) {
      SplitListed(fs, dir, need);
      ListingDecides(fs, fs', dirs, dir);
    } else if Sound(fs', dirs) {
      DirectoryIsOk(fs', dirs, dir);
    }
  }

  lemma RestHere(disk: seq<Block>, bs: seq<nat>, at: Place) returns (pre: seq<Entry>)
    requires AllTiled(disk, bs) && OnChains(disk, bs, at) && RestTiles(disk, bs, at) && bs[0] == at.block
    ensures var b, q := disk[at.block], at.pos;
      && Tiled(b, q + RecLen(b, q)) && Tiled(b, 0)
      && Live(b, 0) == pre + Live(b, q + RecLen(b, q))
      && RestListing(disk, bs, at) == pre + Live(b, q + Actual(b, q)) + Listing(disk, bs[1..])
  {
    hide Tiled, Live, OnChain, RecordOk, Rank, Head, Actual, RecLen, Listing;
    var b, q := disk[at.block], at.pos;
    ChainAt(b, 0, q);
    RankAt(b, 0, q);
    LiveFrom(b, q);
    pre := Live(b, 0)[..Rank(b, 0, q)] + Head(b, q);
    assert Live(b, 0) == Live(b, 0)[..Rank(b, 0, q)] + Live(b, q);
  }

  /** The listing before and after half a split differ in what follows the name. */
  lemma {:induction false} RestParts(disk: seq<Block>, bs: seq<nat>, at: Place) returns (pre: seq<Entry>, post: seq<Entry>)
    requires AllTiled(disk, bs) && OnChains(disk, bs, at) && RestTiles(disk, bs, at)
    ensures at.block < |disk| && RecordOk(disk[at.block], at.pos)
    ensures var b, q := disk[at.block], at.pos;
      && Tiled(b, q + RecLen(b, q)) && Tiled(b, q + Actual(b, q))
      && Listing(disk, bs) == pre + Live(b, q + RecLen(b, q)) + post
      && RestListing(disk, bs, at) == pre + Live(b, q + Actual(b, q)) + post
    decreases |bs|
  {
    hide Tiled, Live, OnChain, RecordOk, Rank, Head, Actual, RecLen, Listing, RestListing, Ino, AllTiled;
    RestPlace(disk, bs, at);
    ListingCons(disk, bs);
    if bs[0] == at.block {
      pre := RestHere(disk, bs, at);
      post := Listing(disk, bs[1..]);
    } else {
      RestLater(disk, bs, at);
      var rest;
      rest, post := RestParts(disk, bs[1..], at);
      pre := Live(disk[bs[0]], 0) + rest;
    }
  }

  lemma RestPlace(disk: seq<Block>, bs: seq<nat>, at: Place)
    requires AllTiled(disk, bs) && OnChains(disk, bs, at) && RestTiles(disk, bs, at)
    ensures bs != [] && at.block < |disk| && RecordOk(disk[at.block], at.pos)
    ensures Tiled(disk[at.block], at.pos + Actual(disk[at.block], at.pos))
  {
    hide Tiled, OnChain, RecordOk, Actual;
  }

  lemma RestTail(disk: seq<Block>, bs: seq<nat>, at: Place)
    requires AllTiled(disk, bs) && OnChains(disk, bs, at) && RestTiles(disk, bs, at) && bs[0] != at.block
    ensures AllTiled(disk, bs[1..]) && OnChains(disk, bs[1..], at) && RestTiles(disk, bs[1..], at)
  {
    hide Tiled, OnChain, RecordOk, Actual;
    TailKeeps(bs, at.block);
  }

  lemma TailKeeps(bs: seq<nat>, n: nat)
    requires n in bs && bs[0] != n
    ensures n in bs[1..]
  {}

  lemma RestLater(disk: seq<Block>, bs: seq<nat>, at: Place)
    requires AllTiled(disk, bs) && OnChains(disk, bs, at) && RestTiles(disk, bs, at) && bs[0] != at.block
    ensures AllTiled(disk, bs[1..]) && OnChains(disk, bs[1..], at) && RestTiles(disk, bs[1..], at)
    ensures bs[0] < |disk| && Tiled(disk[bs[0]], 0)
    ensures RestListing(disk, bs, at) == Live(disk[bs[0]], 0) + RestListing(disk, bs[1..], at)
  {
    hide Tiled, Live, OnChain, RecordOk, Rank, Head, Actual, Listing, RestTiles, Ino, RecLen;
    RestTail(disk, bs, at);
    ListingCons(disk, bs);
  }

  lemma CountParts(pre: seq<Entry>, x: seq<Entry>, l: seq<Entry>, post: seq<Entry>, i: nat)
    ensures Count(pre + (x + l) + post, i) == Count(pre + l + post, i) + Count(x, i)
  {
    CountConcat(pre + (x + l), post, i);
    CountConcat(pre, x + l, i);
    CountConcat(x, l, i);
    CountConcat(pre + l, post, i);
    CountConcat(pre, l, i);
  }

  /** The bytes behind the name are records up to where the next record starts. */
  ghost predicate SlackTiles(b: Block, q: nat)
    requires RecordOk(b, q)
  {
    Tiled(b, q + Actual(b, q)) && (q + RecLen(b, q) == BLOCK_SIZE || OnChain(b, q + Actual(b, q), q + RecLen(b, q)))
  }

  lemma SlackListing(b: Block, q: nat) returns (x: seq<Entry>)
    requires RecordOk(b, q) && SlackTiles(b, q)
    ensures Tiled(b, q + RecLen(b, q)) && Live(b, q + Actual(b, q)) == x + Live(b, q + RecLen(b, q))
  {
    hide RecLen, Actual, Ino, EntryAt;
    var a, len := q + Actual(b, q), q + RecLen(b, q);
    if len == BLOCK_SIZE {
      x := Live(b, a);
    } else {
      RankAt(b, a, len);
      x := Live(b, a)[..Rank(b, a, len)];
    }
  }

  /** What follows the name lists what follows the slack, and no more. */
  ghost predicate SlackUnused(b: Block, q: nat)
    requires RecordOk(b, q)
  {
    && Tiled(b, q + Actual(b, q)) && Tiled(b, q + RecLen(b, q))
    && Live(b, q + Actual(b, q)) == Live(b, q + RecLen(b, q))
  }

  /** Where the slack reads as records up to its end, half a split harms nothing exactly if none of
      them is in use. */
  lemma SlackDecides(fs: Fs, dirs: seq<nat>, dir: nat, need: nat, at: Place)
    requires DirOk(fs, dir) && Splits(fs, dir, need) && SpotIn(fs, dir, need) == Some(at)
    requires at.block < |fs.disk| && RecordOk(fs.disk[at.block], at.pos) && SlackTiles(fs.disk[at.block], at.pos)
    requires Sound(fs, dirs) && dir in dirs
    ensures SplitIsHarmless(fs, dirs, dir, need) <==> SlackUnused(fs.disk[at.block], at.pos)
  {
    hide Tiled, OnChain, Live, Fits, Direct, Listing, RestListing, Ino, RecLen, Actual, Owned, LinksCounted, Compact, Count, NoDup, Balanced,
         UniqueNames, AllTiled;
    SpotIsRecord(fs, dir, need);
    var bs, b, q := Blocks(fs, dir), fs.disk[at.block], at.pos;
    var x := SlackListing(b, q);
    var pre, post := RestParts(fs.disk, bs, at);
    var l := RestListing(fs.disk, bs, at);
    if x == [] {
      assert l == Listed(fs, dir);
      forall e | e in l ensures GoodEntry(fs, dirs, e) {}
    } else if SplitIsHarmless(fs, dirs, dir, need) {
      var e := x[0];
      assert e in x && l == pre + (x + Live(b, q + RecLen(b, q))) + post;
      assert e in l;
      InodeInRange(fs, dirs, e);
      CountParts(pre, x, Live(b, q + RecLen(b, q)), post, e.inode);
      CountPositive(x, e);
      assert false;
    }
  }

  lemma InodeInRange(fs: Fs, dirs: seq<nat>, e: Entry)
    requires Accounted(fs) && GoodEntry(fs, dirs, e)
    ensures 1 <= e.inode <= |fs.inodes|
  {}

  /** No name can be had and nothing is written, or half a split that harms nothing. */
  ghost predicate HarmlessExit(fs: Fs, dirs: seq<nat>, dir: nat, name: seq<Byte>)
    requires DirOk(fs, dir)
  {
    || |name| > NAME_MAX || NoRoom(fs, dir, Need(name), |fs.disk|)
    || (SpotIn(fs, dir, Need(name)).Some? && (Splits(fs, dir, Need(name)) ==> SplitIsHarmless(fs, dirs, dir, Need(name))))
  }

  /** After an exit of create_dir_entry a sound volume is still sound exactly if nothing was
      written, or what half a split shows names every inode as often as before. */
  lemma ExitKeepsSoundExactly(fs: Fs, fs': Fs, dirs: seq<nat>, dir: nat, link: nat, name: seq<Byte>, blk: nat)
    requires Sound(fs, dirs) && dir in dirs && DirOk(fs, dir) && Compact(fs.inodes[dir - 1])
    requires CreateOutcome(fs, dir, link, name) == Exit && Exited(fs, fs', dir, name, blk)
    ensures Sound(fs', dirs) <==> HarmlessExit(fs, dirs, dir, name)
  {
    hide DirOk, Sound, Compact, Splits, AfterSplit, AfterNewBlock, SplitIsHarmless, SpotIn, Direct, AsMap;
    if |name| > NAME_MAX || NoRoom(fs, dir, Need(name), |fs.disk|) {
    } else if Splits(fs, dir, Need(name)) {
      SplitKeepsSoundExactly(fs, dirs, dir, Need(name));
      SplitsIsSpot(fs, dir, Need(name));
    } else if SpotIn(fs, dir, Need(name)).None? {
      NewBlockExit(fs, dir, blk);
      if Sound(fs', dirs) {
        DirectoryIsOk(fs', dirs, dir);
      }
    }
  }
}

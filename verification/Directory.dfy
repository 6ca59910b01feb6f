/** A directory: the records of its direct blocks, read as a finite map from names to entries. */
module Directory {
  import opened Prelude
  import opened ResourceMap
  import opened Inodes
  import opened DirBlock

  /** A record: its block and its position there. */
  datatype Place = Place(block: nat, pos: nat)

  ghost predicate AllTiled(disk: seq<Block>, bs: seq<nat>) {
    forall k :: 0 <= k < |bs| ==> bs[k] < |disk| && Tiled(disk[bs[k]], 0)
  }

  /** All entries in use, in the order in which the tools meet them. */
  ghost function Listing(disk: seq<Block>, bs: seq<nat>): seq<Entry>
    requires AllTiled(disk, bs)
    decreases |bs|
  {
    if bs == [] then [] else Live(disk[bs[0]], 0) + Listing(disk, bs[1..])
  }

  /** The listing as a map; of two entries with one name, the earlier counts. */
  function AsMap(l: seq<Entry>): map<seq<Byte>, Entry>
    decreases |l|
  {
    if l == [] then map[] else AsMap(l[1..])[l[0].name := l[0]]
  }

  ghost predicate UniqueNames(l: seq<Entry>) {
    forall i, j :: 0 <= i < j < |l| ==> l[i].name != l[j].name
  }

  lemma {:induction false} MapHolds(l: seq<Entry>, name: seq<Byte>)
    ensures name in AsMap(l) <==> exists i :: 0 <= i < |l| && l[i].name == name
    ensures forall i :: 0 <= i < |l| && l[i].name == name && (forall j :: 0 <= j < i ==> l[j].name != name) ==>
      name in AsMap(l) && AsMap(l)[name] == l[i]
    decreases |l|
  {
    if l == [] {
    } else {
      MapHolds(l[1..], name);
      if l[0].name == name {
      } else {
        forall i | 0 <= i < |l| && l[i].name == name && (forall j :: 0 <= j < i ==> l[j].name != name)
          ensures name in AsMap(l) && AsMap(l)[name] == l[i]
        {
          assert l[1..][i - 1] == l[i];
          assert forall j :: 0 <= j < i - 1 ==> l[1..][j] == l[j + 1];
        }
        if i :| 0 <= i < |l| && l[i].name == name {
          assert l[1..][i - 1] == l[i];
        }
      }
    }
  }

  /** Inserting an entry under a new name is insertion into the map. */
  lemma {:induction false} InsertIsInsert(l: seq<Entry>, k: nat, e: Entry)
    requires k <= |l| && forall x :: x in l ==> x.name != e.name
    ensures AsMap(InsertAt(l, k, e)) == AsMap(l)[e.name := e]
    decreases |l|
  {
    if k == 0 {
      assert InsertAt(l, k, e)[1..] == l;
    } else {
      assert InsertAt(l, k, e)[1..] == InsertAt(l[1..], k - 1, e);
      InsertIsInsert(l[1..], k - 1, e);
    }
  }

  lemma InsertKeepsUnique(l: seq<Entry>, k: nat, e: Entry)
    requires k <= |l| && UniqueNames(l) && forall x :: x in l ==> x.name != e.name
    ensures UniqueNames(InsertAt(l, k, e))
  {
    var l' := InsertAt(l, k, e);
    forall i, j | 0 <= i < j < |l'| ensures l'[i].name != l'[j].name {
      var i', j' := if i < k then i else i - 1, if j < k then j else j - 1;
      if i != k { assert l'[i] == l[i']; }
      if j != k { assert l'[j] == l[j']; }
    }
  }

  /** Removing an entry whose name is listed once is removal from the map. */
  lemma {:induction false} RemoveIsRemove(l: seq<Entry>, k: nat)
    requires k < |l| && UniqueNames(l)
    ensures AsMap(RemoveAt(l, k)) == AsMap(l) - {l[k].name}
    decreases |l|
  {
    hide UniqueNames;
    var rest := l[1..];
    if k == 0 {
      assert RemoveAt(l, k) == rest;
      MapHolds(rest, l[0].name);
      HeadUnique(l);
      DropNew(AsMap(rest), l[0].name, l[0]);
    } else {
      assert RemoveAt(l, k)[1..] == RemoveAt(rest, k - 1) && RemoveAt(l, k)[0] == l[0];
      HeadUnique(l);
      RemoveIsRemove(rest, k - 1);
      assert rest[k - 1] == l[k];
      DropOther(AsMap(rest), l[0].name, l[0], l[k].name);
    }
  }

  lemma HeadUnique(l: seq<Entry>)
    requires l != [] && UniqueNames(l)
    ensures UniqueNames(l[1..]) && forall i :: 0 <= i < |l[1..]| ==> l[1..][i].name != l[0].name
  {}

  lemma DropNew(m: map<seq<Byte>, Entry>, name: seq<Byte>, e: Entry)
    requires name !in m
    ensures m[name := e] - {name} == m
  {}

  lemma DropOther(m: map<seq<Byte>, Entry>, name: seq<Byte>, e: Entry, other: seq<Byte>)
    requires name != other
    ensures (m - {other})[name := e] == m[name := e] - {other}
  {}

  lemma RemoveKeepsUnique(l: seq<Entry>, k: nat)
    requires k < |l| && UniqueNames(l)
    ensures UniqueNames(RemoveAt(l, k))
  {
    assert forall i :: 0 <= i < |RemoveAt(l, k)| ==> RemoveAt(l, k)[i] == l[if i < k then i else i + 1];
  }

  // ---------- finding ----------

  ghost function FindEntry(disk: seq<Block>, bs: seq<nat>, name: seq<Byte>): Option<Place>
    requires AllTiled(disk, bs)
    decreases |bs|
  {
    if bs == [] then None
    else match DirBlock.Find(disk[bs[0]], 0, name)
      case Some(p) => Some(Place(bs[0], p))
      case None => FindEntry(disk, bs[1..], name)
  }

  /** A record in use on the chain of one of the blocks. */
  ghost predicate Holds(disk: seq<Block>, bs: seq<nat>, at: Place)
    requires AllTiled(disk, bs)
  {
    && at.block in bs && OnChain(disk[at.block], 0, at.pos)
    && RecordOk(disk[at.block], at.pos) && Ino(disk[at.block], at.pos) != 0
  }

  /** The index in the listing of the record at a place. */
  ghost function Index(disk: seq<Block>, bs: seq<nat>, at: Place): nat
    requires AllTiled(disk, bs) && at.block in bs && OnChain(disk[at.block], 0, at.pos)
    decreases |bs|
  {
    if at.block == bs[0] then Rank(disk[at.block], 0, at.pos)
    else |Live(disk[bs[0]], 0)| + Index(disk, bs[1..], at)
  }

  /** find_entry is lookup in the map. */
  lemma FindIsLookup(disk: seq<Block>, bs: seq<nat>, name: seq<Byte>)
    requires AllTiled(disk, bs)
    ensures var m, at := AsMap(Listing(disk, bs)), FindEntry(disk, bs, name);
      && (at.None? <==> name !in m)
      && (at.Some? ==> Holds(disk, bs, at.value) && m[name] == EntryAt(disk[at.value.block], at.value.pos))
  {
    FindIsFirst(disk, bs, name);
    var l := Listing(disk, bs);
    MapHolds(l, name);
  }

  lemma {:induction false} FindIsFirst(disk: seq<Block>, bs: seq<nat>, name: seq<Byte>)
    requires AllTiled(disk, bs)
    ensures FindEntry(disk, bs, name).None? <==> forall e :: e in Listing(disk, bs) ==> e.name != name
    ensures FindEntry(disk, bs, name).Some? ==>
      var at, l := FindEntry(disk, bs, name).value, Listing(disk, bs);
      && Holds(disk, bs, at) && EntryAt(disk[at.block], at.pos).name == name
      && Index(disk, bs, at) < |l| && l[Index(disk, bs, at)] == EntryAt(disk[at.block], at.pos)
      && (forall i :: 0 <= i < Index(disk, bs, at) ==> l[i].name != name)
      && DirBlock.Find(disk[at.block], 0, name) == Some(at.pos)
    decreases |bs|
  {
    hide Ino, RecLen, NameLen, EntryAt, Tiled, Live, OnChain, Rank, DirBlock.Find;
    if bs == [] {
    } else {
      DirBlock.FindIsFirst(disk[bs[0]], 0, name);
      FindIsFirst(disk, bs[1..], name);
    }
  }

  lemma {:induction false} ListingSame(disk: seq<Block>, disk': seq<Block>, bs: seq<nat>)
    requires AllTiled(disk, bs) && |disk| == |disk'| && forall n :: n in bs ==> disk'[n] == disk[n]
    ensures AllTiled(disk', bs) && Listing(disk', bs) == Listing(disk, bs)
    decreases |bs|
  {
    if bs == [] {
    } else {
      ListingSame(disk, disk', bs[1..]);
    }
  }

  lemma {:induction false} ListingSnoc(disk: seq<Block>, bs: seq<nat>, n: nat)
    requires AllTiled(disk, bs) && n < |disk| && Tiled(disk[n], 0)
    ensures AllTiled(disk, bs + [n]) && Listing(disk, bs + [n]) == Listing(disk, bs) + Live(disk[n], 0)
    decreases |bs|
  {
    hide Live, Tiled;
    if bs == [] {
      assert ([n])[1..] == [];
      assert Listing(disk, [n]) == Live(disk[n], 0) + [];
      assert [] + [n] == [n];
    } else {
      ListingSnoc(disk, bs[1..], n);
      assert (bs + [n])[1..] == bs[1..] + [n];
    }
  }

  // ---------- inserting ----------

  /** The first record, in scan order, with room for `need` more bytes. */
  ghost function Spot(disk: seq<Block>, bs: seq<nat>, need: nat): Option<Place>
    requires AllTiled(disk, bs)
    decreases |bs|
  {
    if bs == [] then None
    else match FirstFit(disk[bs[0]], 0, need)
      case Some(p) => Some(Place(bs[0], p))
      case None => Spot(disk, bs[1..], need)
  }

  /** A record, used or not, on the chain of one of the blocks. */
  ghost predicate OnChains(disk: seq<Block>, bs: seq<nat>, at: Place)
    requires AllTiled(disk, bs)
  {
    at.block in bs && OnChain(disk[at.block], 0, at.pos) && RecordOk(disk[at.block], at.pos)
  }

  lemma {:induction false} SpotHasRoom(disk: seq<Block>, bs: seq<nat>, need: nat)
    requires AllTiled(disk, bs) && Spot(disk, bs, need).Some?
    ensures var at := Spot(disk, bs, need).value; OnChains(disk, bs, at) && Fits(disk[at.block], at.pos, need)
    decreases |bs|
  {
    hide Tiled, OnChain, Fits;
    if FirstFit(disk[bs[0]], 0, need).Some? {
      FitIsOnChain(disk[bs[0]], 0, need);
    } else {
      SpotHasRoom(disk, bs[1..], need);
    }
  }

  /** Where nothing is found no record of any block has the bytes to spare; what is found has them, and
      no record before it has. */
  lemma {:induction false} SpotIsFirst(disk: seq<Block>, bs: seq<nat>, need: nat, at: Place)
    requires AllTiled(disk, bs) && OnChains(disk, bs, at)
    ensures match Spot(disk, bs, need)
      case None => Spare(disk[at.block], at.pos) < need
      case Some(found) =>
        && (at == found ==> Spare(disk[at.block], at.pos) >= need)
        && (at.block == found.block && at.pos < found.pos ==> Spare(disk[at.block], at.pos) < need)
        && (at.block == bs[0] && found.block != bs[0] ==> Spare(disk[at.block], at.pos) < need)
    decreases |bs|
  {
    hide Tiled, OnChain, Fits, Spare;
    FitsIsSpare(disk[at.block], at.pos, need);
    if Spot(disk, bs, need).Some? {
      SpotHasRoom(disk, bs, need);
    }
    if bs[0] == at.block {
      FitIsFirst(disk[at.block], 0, need, at.pos);
    } else if FirstFit(disk[bs[0]], 0, need).Some? {
    } else {
      SpotIsFirst(disk, bs[1..], need, at);
    }
  }

  ghost predicate Puttable(disk: seq<Block>, bs: seq<nat>, at: Place, e: Entry)
    requires AllTiled(disk, bs)
  {
    OnChains(disk, bs, at) && Storable(e) && Fits(disk[at.block], at.pos, Need(e.name))
  }

  ghost function PutAt(disk: seq<Block>, bs: seq<nat>, at: Place, e: Entry): seq<Block>
    requires AllTiled(disk, bs) && Puttable(disk, bs, at, e)
  {
    disk[at.block := AddAt(disk[at.block], at.pos, e)]
  }

  /** Where in the listing an entry put at a place appears. */
  ghost function PutIndex(disk: seq<Block>, bs: seq<nat>, at: Place): nat
    requires AllTiled(disk, bs) && OnChains(disk, bs, at)
  {
    Index(disk, bs, at) + |Head(disk[at.block], at.pos)|
  }

  lemma InsertLeft<T>(a: seq<T>, k: nat, x: T, b: seq<T>)
    requires k <= |a|
    ensures InsertAt(a, k, x) + b == InsertAt(a + b, k, x)
  {}

  lemma InsertRight<T>(a: seq<T>, b: seq<T>, k: nat, x: T)
    requires k <= |b|
    ensures a + InsertAt(b, k, x) == InsertAt(a + b, |a| + k, x)
  {}

  lemma PutIndexOf(disk: seq<Block>, bs: seq<nat>, at: Place)
    requires AllTiled(disk, bs) && OnChains(disk, bs, at)
    ensures bs[0] == at.block ==> PutIndex(disk, bs, at) == AddRank(disk[at.block], at.pos)
    ensures bs[0] != at.block ==>
      OnChains(disk, bs[1..], at) && PutIndex(disk, bs, at) == |Live(disk[bs[0]], 0)| + PutIndex(disk, bs[1..], at)
  {
    hide Tiled, Live, OnChain, RecordOk, Rank, Head;
  }

  /** The blocks differ in at most the one at a place, which lists one entry more. */
  ghost predicate OneMoreAt(disk: seq<Block>, disk': seq<Block>, at: Place, e: Entry) {
    && |disk'| == |disk| && (forall m :: 0 <= m < |disk| && m != at.block ==> disk'[m] == disk[m])
    && at.block < |disk| && Tiled(disk[at.block], 0) && OnChain(disk[at.block], 0, at.pos) && RecordOk(disk[at.block], at.pos)
    && AddRank(disk[at.block], at.pos) <= |Live(disk[at.block], 0)| && Tiled(disk'[at.block], 0)
    && Live(disk'[at.block], 0) == InsertAt(Live(disk[at.block], 0), AddRank(disk[at.block], at.pos), e)
  }

  lemma SameBehind(disk: seq<Block>, disk': seq<Block>, bs: seq<nat>, at: Place, e: Entry)
    requires AllTiled(disk, bs) && OneMoreAt(disk, disk', at, e) && at.block !in bs
    ensures AllTiled(disk', bs) && Listing(disk', bs) == Listing(disk, bs)
  {
    hide Tiled, Live, OnChain, RecordOk, AddRank, InsertAt, Listing;
    ListingSame(disk, disk', bs);
  }

  lemma ListingCons(disk: seq<Block>, bs: seq<nat>)
    requires AllTiled(disk, bs) && bs != []
    ensures bs[0] < |disk| && Tiled(disk[bs[0]], 0) && AllTiled(disk, bs[1..])
    ensures Listing(disk, bs) == Live(disk[bs[0]], 0) + Listing(disk, bs[1..])
  {
    hide Tiled, Live;
  }

  lemma AllTiledCons(disk: seq<Block>, bs: seq<nat>)
    requires bs != [] && bs[0] < |disk| && Tiled(disk[bs[0]], 0) && AllTiled(disk, bs[1..])
    ensures AllTiled(disk, bs)
  {
    hide Tiled;
    assert forall k :: 0 < k < |bs| ==> bs[k] == bs[1..][k - 1];
  }

  /** When one block of a directory lists one entry more, so does the directory. */
  lemma {:induction false} BlockInserts(disk: seq<Block>, disk': seq<Block>, bs: seq<nat>, at: Place, e: Entry)
    requires AllTiled(disk, bs) && NoDup(bs) && OnChains(disk, bs, at) && OneMoreAt(disk, disk', at, e)
    ensures AllTiled(disk', bs) && PutIndex(disk, bs, at) <= |Listing(disk, bs)|
    ensures Listing(disk', bs) == InsertAt(Listing(disk, bs), PutIndex(disk, bs, at), e)
    decreases |bs|
  {
    hide Tiled, Live, OnChain, RecordOk, Rank, Head, InsertAt, NoDup, PutIndex, AddRank, Index, Listing, AllTiled;
    var rest := bs[1..];
    NoDupCons(bs);
    PutIndexOf(disk, bs, at);
    ListingCons(disk, bs);
    if bs[0] == at.block {
      SameBehind(disk, disk', rest, at, e);
      AllTiledCons(disk', bs);
      ListingCons(disk', bs);
      InsertLeft(Live(disk[at.block], 0), AddRank(disk[at.block], at.pos), e, Listing(disk, rest));
    } else {
      BlockInserts(disk, disk', rest, at, e);
      AllTiledCons(disk', bs);
      ListingCons(disk', bs);
      InsertRight(Live(disk[bs[0]], 0), Listing(disk, rest), PutIndex(disk, rest, at), e);
    }
  }

  lemma PutInserts(disk: seq<Block>, bs: seq<nat>, at: Place, e: Entry)
    requires AllTiled(disk, bs) && NoDup(bs) && Puttable(disk, bs, at, e)
    ensures AllTiled(PutAt(disk, bs, at, e), bs) && PutIndex(disk, bs, at) <= |Listing(disk, bs)|
    ensures Listing(PutAt(disk, bs, at, e), bs) == InsertAt(Listing(disk, bs), PutIndex(disk, bs, at), e)
  {
    hide Tiled, Live, OnChain, RecordOk, Fits, AddAt, Rank, Head, InsertAt, NoDup, Listing, PutIndex;
    AddInserts(disk[at.block], at.pos, e);
    BlockInserts(disk, PutAt(disk, bs, at, e), bs, at, e);
  }

  // ---------- removing ----------

  ghost function HiddenAt(disk: seq<Block>, bs: seq<nat>, at: Place): seq<Block>
    requires AllTiled(disk, bs) && OnChains(disk, bs, at)
  {
    disk[at.block := HideAt(disk[at.block], at.pos)]
  }

  lemma RemoveLeft<T>(a: seq<T>, k: nat, b: seq<T>)
    requires k < |a|
    ensures RemoveAt(a, k) + b == RemoveAt(a + b, k)
  {}

  lemma RemoveRight<T>(a: seq<T>, b: seq<T>, k: nat)
    requires k < |b|
    ensures a + RemoveAt(b, k) == RemoveAt(a + b, |a| + k)
  {}

  /** The blocks differ in at most the one at a place, which lists one entry less. */
  ghost predicate OneLessAt(disk: seq<Block>, disk': seq<Block>, at: Place) {
    && |disk'| == |disk| && (forall m :: 0 <= m < |disk| && m != at.block ==> disk'[m] == disk[m])
    && at.block < |disk| && Tiled(disk[at.block], 0) && OnChain(disk[at.block], 0, at.pos)
    && Rank(disk[at.block], 0, at.pos) < |Live(disk[at.block], 0)| && Tiled(disk'[at.block], 0)
    && Live(disk'[at.block], 0) == RemoveAt(Live(disk[at.block], 0), Rank(disk[at.block], 0, at.pos))
  }

  lemma KeptBehind(disk: seq<Block>, disk': seq<Block>, bs: seq<nat>, at: Place)
    requires AllTiled(disk, bs) && OneLessAt(disk, disk', at) && at.block !in bs
    ensures AllTiled(disk', bs) && Listing(disk', bs) == Listing(disk, bs)
  {
    hide Tiled, Live, OnChain, Rank, RemoveAt, Listing;
    ListingSame(disk, disk', bs);
  }

  lemma IndexOf(disk: seq<Block>, bs: seq<nat>, at: Place)
    requires AllTiled(disk, bs) && at.block in bs && OnChain(disk[at.block], 0, at.pos)
    ensures bs[0] == at.block ==> Index(disk, bs, at) == Rank(disk[at.block], 0, at.pos)
    ensures bs[0] != at.block ==> at.block in bs[1..] && Index(disk, bs, at) == |Live(disk[bs[0]], 0)| + Index(disk, bs[1..], at)
  {
    hide Tiled, Live, OnChain, Rank;
  }

  /** When one block of a directory lists one entry less, so does the directory. */
  lemma {:induction false} BlockRemoves(disk: seq<Block>, disk': seq<Block>, bs: seq<nat>, at: Place)
    requires AllTiled(disk, bs) && NoDup(bs) && at.block in bs && OneLessAt(disk, disk', at)
    ensures AllTiled(disk', bs) && Index(disk, bs, at) < |Listing(disk, bs)|
    ensures Listing(disk', bs) == RemoveAt(Listing(disk, bs), Index(disk, bs, at))
    decreases |bs|
  {
    hide Tiled, Live, OnChain, Rank, RemoveAt, NoDup, Index, Listing, AllTiled;
    var rest := bs[1..];
    NoDupCons(bs);
    IndexOf(disk, bs, at);
    ListingCons(disk, bs);
    if bs[0] == at.block {
      KeptBehind(disk, disk', rest, at);
      AllTiledCons(disk', bs);
      ListingCons(disk', bs);
      RemoveLeft(Live(disk[at.block], 0), Rank(disk[at.block], 0, at.pos), Listing(disk, rest));
    } else {
      BlockRemoves(disk, disk', rest, at);
      AllTiledCons(disk', bs);
      ListingCons(disk', bs);
      RemoveRight(Live(disk[bs[0]], 0), Listing(disk, rest), Index(disk, rest, at));
    }
  }

  lemma HidingRemoves(disk: seq<Block>, bs: seq<nat>, at: Place)
    requires AllTiled(disk, bs) && NoDup(bs) && Holds(disk, bs, at)
    ensures AllTiled(HiddenAt(disk, bs, at), bs) && Index(disk, bs, at) < |Listing(disk, bs)|
    ensures Listing(HiddenAt(disk, bs, at), bs) == RemoveAt(Listing(disk, bs), Index(disk, bs, at))
  {
    hide Tiled, Live, OnChain, RecordOk, HideAt, Rank, Ino, RemoveAt, NoDup, Index, Listing;
    HideRemoves(disk[at.block], at.pos);
    BlockRemoves(disk, HiddenAt(disk, bs, at), bs, at);
  }
}

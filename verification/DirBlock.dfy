/** One directory block: records chained by rec_len over exactly 1024 bytes. A record at p has its
    inode number at p, rec_len at p + 4, name_len at p + 6, file_type at p + 7, the name at p + 8. */
module DirBlock {
  import opened Prelude
  import opened ResourceMap
  import opened Inodes

  const HEADER := 8
  const NAME_MAX := 255
  const FT_DIR := 2
  const DOT: Byte := 0x2e

  datatype Entry = Entry(name: seq<Byte>, inode: nat, kind: Byte)

  /** What fits into a record's fields: a name of at most 255 bytes and a nonzero inode number. */
  predicate Storable(e: Entry) {
    |e.name| <= NAME_MAX && 0 < e.inode < U32
  }

  // ---------- the fields of a record ----------

  function Ino(b: Block, p: nat): nat
    requires p + HEADER <= BLOCK_SIZE
  {
    U32At(b, p)
  }

  function RecLen(b: Block, p: nat): nat
    requires p + HEADER <= BLOCK_SIZE
  {
    Digits(b[p + 4], b[p + 5], 0, 0)
  }

  function NameLen(b: Block, p: nat): nat
    requires p + HEADER <= BLOCK_SIZE
  {
    b[p + 6]
  }

  /** get_padded_rec_len: the next multiple of 4. */
  function Padded(n: nat): (r: nat)
    ensures r % 4 == 0 && n <= r < n + 4
  {
    if n % 4 != 0 then 4 * (n / 4 + 1) else n
  }

  /** get_actual_dir_entry_len: the bytes a record needs for its header and name. */
  function Actual(b: Block, p: nat): nat
    requires p + HEADER <= BLOCK_SIZE
  {
    Padded(HEADER + NameLen(b, p))
  }

  function EntryAt(b: Block, p: nat): Entry
    requires p + HEADER <= BLOCK_SIZE && p + HEADER + NameLen(b, p) <= BLOCK_SIZE
  {
    Entry(b[p + HEADER..p + HEADER + NameLen(b, p)], Ino(b, p), b[p + 7])
  }

  // ---------- the chain ----------

  predicate RecordOk(b: Block, p: nat) {
    && p + HEADER <= BLOCK_SIZE
    && RecLen(b, p) >= HEADER && RecLen(b, p) % 4 == 0 && p + RecLen(b, p) <= BLOCK_SIZE
    && (Ino(b, p) != 0 ==> HEADER + NameLen(b, p) <= RecLen(b, p))
  }

  /** From p on, records with room for their names tile the block up to its very end. */
  predicate Tiled(b: Block, p: nat)
    decreases BLOCK_SIZE - p
  {
    p == BLOCK_SIZE || (RecordOk(b, p) && Tiled(b, p + RecLen(b, p)))
  }

  /** The entries in use from p on. */
  function Live(b: Block, p: nat): seq<Entry>
    requires Tiled(b, p)
    decreases BLOCK_SIZE - p
  {
    if p == BLOCK_SIZE then []
    else Head(b, p) + Live(b, p + RecLen(b, p))
  }

  /** The record at p as a listing: one entry, or none when it is unused. */
  function Head(b: Block, p: nat): seq<Entry>
    requires RecordOk(b, p)
  {
    if Ino(b, p) != 0 then [EntryAt(b, p)] else []
  }

  /** A record starts at q, reached from p. */
  predicate OnChain(b: Block, p: nat, q: nat)
    requires Tiled(b, p)
    decreases BLOCK_SIZE - p
  {
    p < BLOCK_SIZE && (p == q || OnChain(b, p + RecLen(b, p), q))
  }

  /** How many entries in use come before the record at q. */
  function Rank(b: Block, p: nat, q: nat): nat
    requires Tiled(b, p) && OnChain(b, p, q)
    decreases BLOCK_SIZE - p
  {
    if p == q then 0 else |Head(b, p)| + Rank(b, p + RecLen(b, p), q)
  }

  predicate Same(b: Block, b': Block, from: nat) {
    forall i :: from <= i < BLOCK_SIZE ==> b[i] == b'[i]
  }

  lemma SameRecord(b: Block, b': Block, p: nat)
    requires p + HEADER <= BLOCK_SIZE && forall i :: p <= i < p + HEADER ==> b[i] == b'[i]
    ensures Ino(b', p) == Ino(b, p) && RecLen(b', p) == RecLen(b, p) && NameLen(b', p) == NameLen(b, p)
    ensures RecordOk(b', p) <==> RecordOk(b, p)
  {}

  lemma {:induction false} SameChain(b: Block, b': Block, p: nat)
    requires Tiled(b, p) && Same(b, b', p)
    ensures Tiled(b', p) && Live(b', p) == Live(b, p)
    decreases BLOCK_SIZE - p
  {
    if p == BLOCK_SIZE {
    } else {
      SameRecord(b, b', p);
      SameChain(b, b', p + RecLen(b, p));
      if Ino(b, p) != 0 {
        assert EntryAt(b', p) == EntryAt(b, p);
      }
    }
  }

  lemma {:induction false} ChainAt(b: Block, p: nat, q: nat)
    requires Tiled(b, p) && OnChain(b, p, q)
    ensures p <= q < BLOCK_SIZE && RecordOk(b, q) && Tiled(b, q)
    ensures q > p ==> q >= p + RecLen(b, p)
    decreases BLOCK_SIZE - p
  {
    hide Ino, RecLen, NameLen, EntryAt;
    if p == q {
    } else {
      ChainAt(b, p + RecLen(b, p), q);
    }
  }

  lemma RankDrop(h: seq<Entry>, l: seq<Entry>, r: nat)
    requires r <= |l|
    ensures (h + l)[|h| + r..] == l[r..]
  {}

  lemma RankStep(b: Block, p: nat, q: nat)
    requires Tiled(b, p) && OnChain(b, p, q) && p != q
    ensures p < BLOCK_SIZE && RecordOk(b, p) && RecLen(b, p) > 0
    ensures Tiled(b, p + RecLen(b, p)) && OnChain(b, p + RecLen(b, p), q)
    ensures Live(b, p) == Head(b, p) + Live(b, p + RecLen(b, p))
    ensures Rank(b, p, q) == |Head(b, p)| + Rank(b, p + RecLen(b, p), q)
  {
    hide Ino, RecLen, NameLen, EntryAt, Head;
  }

  lemma RankHere(b: Block, q: nat)
    requires Tiled(b, q) && OnChain(b, q, q)
    ensures RecordOk(b, q) && Rank(b, q, q) == 0
  {
    hide Ino, RecLen, NameLen, EntryAt, Head;
  }

  lemma {:induction false} RankAt(b: Block, p: nat, q: nat)
    requires Tiled(b, p) && OnChain(b, p, q)
    ensures Tiled(b, q) && RecordOk(b, q) && Rank(b, p, q) + |Live(b, q)| == |Live(b, p)|
    ensures Live(b, p)[Rank(b, p, q)..] == Live(b, q)
    decreases BLOCK_SIZE - p
  {
    hide Ino, RecLen, NameLen, EntryAt, Head, Tiled, OnChain, Live, Rank;
    if p == q {
      RankHere(b, q);
    } else {
      RankStep(b, p, q);
      RankAt(b, p + RecLen(b, p), q);
      RankDrop(Head(b, p), Live(b, p + RecLen(b, p)), Rank(b, p + RecLen(b, p), q));
    }
  }

  lemma LiveFrom(b: Block, p: nat)
    requires Tiled(b, p) && p < BLOCK_SIZE
    ensures RecordOk(b, p) && Tiled(b, p + RecLen(b, p)) && Live(b, p) == Head(b, p) + Live(b, p + RecLen(b, p))
  {
    hide Ino, RecLen, NameLen, EntryAt, Head;
  }

  lemma TiledFrom(b: Block, p: nat)
    requires p < BLOCK_SIZE && RecordOk(b, p) && Tiled(b, p + RecLen(b, p))
    ensures Tiled(b, p) && Live(b, p) == Head(b, p) + Live(b, p + RecLen(b, p))
  {
    hide Ino, RecLen, NameLen, EntryAt, Head;
  }

  // ---------- finding a name ----------

  predicate Matches(b: Block, p: nat, name: seq<Byte>)
    requires RecordOk(b, p)
  {
    Ino(b, p) != 0 && EntryAt(b, p).name == name
  }

  /** The first record in use under that name, as find_entry looks for it. */
  function Find(b: Block, p: nat, name: seq<Byte>): Option<nat>
    requires Tiled(b, p)
    decreases BLOCK_SIZE - p
  {
    if p == BLOCK_SIZE then None
    else if Matches(b, p, name) then Some(p)
    else Find(b, p + RecLen(b, p), name)
  }

  /** A record under another name is passed over. */
  lemma {:induction false} FindLater(b: Block, p: nat, name: seq<Byte>)
    requires Tiled(b, p) && p < BLOCK_SIZE && !Matches(b, p, name)
    ensures Find(b, p, name).None? <==> forall e :: e in Live(b, p) ==> e.name != name
    ensures Find(b, p, name).Some? ==>
      var q := Find(b, p, name).value;
      && OnChain(b, p, q) && RecordOk(b, q) && Matches(b, q, name)
      && Rank(b, p, q) < |Live(b, p)| && Live(b, p)[Rank(b, p, q)] == EntryAt(b, q)
      && forall i :: 0 <= i < Rank(b, p, q) ==> Live(b, p)[i].name != name
    decreases BLOCK_SIZE - p, 0
  {
    hide Ino, RecLen, NameLen, EntryAt;
    FindIsFirst(b, p + RecLen(b, p), name);
  }

  /** A name is found exactly when it is listed, and what is found is its first listing. */
  lemma {:induction false} FindIsFirst(b: Block, p: nat, name: seq<Byte>)
    requires Tiled(b, p)
    ensures Find(b, p, name).None? <==> forall e :: e in Live(b, p) ==> e.name != name
    ensures Find(b, p, name).Some? ==>
      var q := Find(b, p, name).value;
      && OnChain(b, p, q) && RecordOk(b, q) && Matches(b, q, name)
      && Rank(b, p, q) < |Live(b, p)| && Live(b, p)[Rank(b, p, q)] == EntryAt(b, q)
      && forall i :: 0 <= i < Rank(b, p, q) ==> Live(b, p)[i].name != name
    decreases BLOCK_SIZE - p, 1
  {
    hide Ino, RecLen, NameLen, EntryAt;
    if p == BLOCK_SIZE {
    } else if Matches(b, p, name) {
      assert Live(b, p)[0] == EntryAt(b, p);
    } else {
      FindLater(b, p, name);
    }
  }

  // ---------- changing a record ----------

  function U16Bytes(x: nat): (s: seq<Byte>)
    requires x < U16
    ensures |s| == 2 && Digits(s[0], s[1], 0, 0) == x
  {
    [x % 0x100, x / 0x100]
  }

  function PutIno(b: Block, p: nat, x: nat): (r: Block)
    requires p + HEADER <= BLOCK_SIZE && x < U32
  {
    Splice(b, p, U32Bytes(x))
  }

  function PutRecLen(b: Block, p: nat, x: nat): (r: Block)
    requires p + HEADER <= BLOCK_SIZE && x < U16
  {
    Splice(b, p + 4, U16Bytes(x))
  }

  /** The assignments and the strncpy of init_dir_entry. */
  function WriteEntry(b: Block, p: nat, e: Entry, recLen: nat): Block
    requires Storable(e) && p + HEADER + |e.name| <= BLOCK_SIZE && recLen < U16
  {
    Splice(b, p, U32Bytes(e.inode) + U16Bytes(recLen) + [|e.name|, e.kind] + e.name)
  }

  lemma InoWritten(b: Block, p: nat, x: nat)
    requires p + HEADER <= BLOCK_SIZE && x < U32
    ensures Ino(PutIno(b, p, x), p) == x && RecLen(PutIno(b, p, x), p) == RecLen(b, p)
  {
    U32RoundTrip(x);
  }

  lemma RecLenWritten(b: Block, p: nat, x: nat)
    requires p + HEADER <= BLOCK_SIZE && x < U16
    ensures RecLen(PutRecLen(b, p, x), p) == x && Ino(PutRecLen(b, p, x), p) == Ino(b, p)
    ensures NameLen(PutRecLen(b, p, x), p) == NameLen(b, p)
    ensures p + HEADER + NameLen(b, p) <= BLOCK_SIZE ==> EntryAt(PutRecLen(b, p, x), p) == EntryAt(b, p)
  {
    var b' := PutRecLen(b, p, x);
    if p + HEADER + NameLen(b, p) <= BLOCK_SIZE {
      assert b'[p + HEADER..p + HEADER + NameLen(b, p)] == b[p + HEADER..p + HEADER + NameLen(b, p)];
    }
  }

  lemma EntryWritten(b: Block, p: nat, e: Entry, recLen: nat)
    requires Storable(e) && p + HEADER + |e.name| <= BLOCK_SIZE && recLen < U16
    ensures var b' := WriteEntry(b, p, e, recLen);
      && RecLen(b', p) == recLen && NameLen(b', p) == |e.name| && Ino(b', p) == e.inode && EntryAt(b', p) == e
      && forall i :: 0 <= i < BLOCK_SIZE && !(p <= i < p + HEADER + |e.name|) ==> b'[i] == b[i]
  {
    U32RoundTrip(e.inode);
    var b' := WriteEntry(b, p, e, recLen);
    assert b'[p + HEADER..p + HEADER + |e.name|] == e.name;
  }

  lemma SameHead(b: Block, b': Block, p: nat)
    requires RecordOk(b, p) && forall i :: p <= i < p + RecLen(b, p) ==> b[i] == b'[i]
    ensures RecordOk(b', p) && RecLen(b', p) == RecLen(b, p) && Head(b', p) == Head(b, p)
  {
    SameRecord(b, b', p);
    if Ino(b, p) != 0 {
      assert EntryAt(b', p) == EntryAt(b, p);
    }
  }

  /** Records before q stay as they are when only bytes from q on change and these still tile. */
  lemma {:induction false} PrefixKept(b: Block, b': Block, p: nat, q: nat)
    requires Tiled(b, p) && OnChain(b, p, q) && Tiled(b', q)
    requires forall i :: p <= i < q ==> b'[i] == b[i]
    ensures Tiled(b', p)
    ensures Rank(b, p, q) <= |Live(b, p)| && Live(b', p) == Live(b, p)[..Rank(b, p, q)] + Live(b', q)
    decreases BLOCK_SIZE - p
  {
    hide Ino, RecLen, NameLen, EntryAt, Head;
    RankAt(b, p, q);
    if p == q {
    } else {
      var next := p + RecLen(b, p);
      ChainAt(b, p, q);
      SameHead(b, b', p);
      PrefixKept(b, b', next, q);
      RankAt(b, next, q);
    }
  }

  // ---------- inserting an entry ----------

  /** create_dir_entry's two tests: an unused record that is long enough, or slack behind a name. */
  predicate Fits(b: Block, p: nat, need: nat)
    requires RecordOk(b, p)
  {
    if Ino(b, p) == 0 then need <= RecLen(b, p) else need + Actual(b, p) <= RecLen(b, p)
  }

  function FirstFit(b: Block, p: nat, need: nat): Option<nat>
    requires Tiled(b, p)
    decreases BLOCK_SIZE - p
  {
    if p == BLOCK_SIZE then None else if Fits(b, p, need) then Some(p) else FirstFit(b, p + RecLen(b, p), need)
  }

  /** The bytes of the record that no name in use needs. */
  function Spare(b: Block, p: nat): int
    requires p + HEADER <= BLOCK_SIZE
  {
    RecLen(b, p) - if Ino(b, p) == 0 then 0 else Actual(b, p)
  }

  lemma FitsIsSpare(b: Block, p: nat, need: nat)
    requires RecordOk(b, p)
    ensures Fits(b, p, need) <==> Spare(b, p) >= need
  {
    hide Ino, RecLen, Actual;
  }

  /** No record before the one found has the bytes to spare, and where nothing is found none at all. */
  lemma {:induction false} FitIsFirst(b: Block, p: nat, need: nat, r: nat)
    requires Tiled(b, p) && OnChain(b, p, r)
    ensures RecordOk(b, r)
    ensures match FirstFit(b, p, need)
      case None => Spare(b, r) < need
      case Some(q) => r < q ==> Spare(b, r) < need
    decreases BLOCK_SIZE - p
  {
    hide Ino, RecLen, NameLen, Actual, Spare, Fits;
    ChainAt(b, p, r);
    FitsIsSpare(b, r, need);
    if p == r || Fits(b, p, need) {
    } else {
      FitIsFirst(b, p + RecLen(b, p), need, r);
    }
  }

  lemma {:induction false} FitIsOnChain(b: Block, p: nat, need: nat)
    requires Tiled(b, p) && FirstFit(b, p, need).Some?
    ensures var q := FirstFit(b, p, need).value; OnChain(b, p, q) && RecordOk(b, q) && Fits(b, q, need)
    decreases BLOCK_SIZE - p
  {
    hide Ino, RecLen, NameLen, Actual;
    if Fits(b, p, need) {
    } else {
      FitIsOnChain(b, p + RecLen(b, p), need);
    }
  }

  /** The room an entry needs. */
  function Need(name: seq<Byte>): nat {
    Padded(HEADER + |name|)
  }

  /** The block with the entry put at q: over an unused record, or behind the name of a used one. */
  function AddAt(b: Block, q: nat, e: Entry): Block
    requires RecordOk(b, q) && Storable(e) && Fits(b, q, Need(e.name))
  {
    if Ino(b, q) == 0 then WriteEntry(b, q, e, RecLen(b, q))
    else
      var a := Actual(b, q);
      WriteEntry(PutRecLen(b, q, a), q + a, e, RecLen(b, q) - a)
  }

  function InsertAt<T>(s: seq<T>, k: nat, x: T): seq<T>
    requires k <= |s|
  {
    s[..k] + [x] + s[k..]
  }

  function RemoveAt<T>(s: seq<T>, k: nat): seq<T>
    requires k < |s|
  {
    s[..k] + s[k + 1..]
  }

  /** The index in the listing where an entry added at q appears. */
  function AddRank(b: Block, q: nat): nat
    requires Tiled(b, 0) && OnChain(b, 0, q) && RecordOk(b, q)
  {
    Rank(b, 0, q) + |Head(b, q)|
  }

  lemma InsertJoin<T>(s: seq<T>, r: nat, h: seq<T>, x: T, t: seq<T>)
    requires r <= |s| && s[r..] == h + t
    ensures r + |h| <= |s| && s[..r] + (h + [x] + t) == InsertAt(s, r + |h|, x)
  {
    assert s[..r + |h|] == s[..r] + s[r..][..|h|];
    assert s[r + |h|..] == s[r..][|h|..];
  }

  lemma RemoveJoin<T>(s: seq<T>, r: nat, h: seq<T>, x: T, t: seq<T>)
    requires r <= |s| && s[r..] == h + ([x] + t)
    ensures r + |h| < |s| && s[..r] + (h + t) == RemoveAt(s, r + |h|)
  {
    assert s[..r + |h|] == s[..r] + s[r..][..|h|];
    assert s[r + |h| + 1..] == s[r..][|h| + 1..];
  }

  lemma AddOverUnused(b: Block, q: nat, e: Entry)
    requires Tiled(b, q) && q < BLOCK_SIZE && Storable(e) && Fits(b, q, Need(e.name)) && Ino(b, q) == 0
    ensures Tiled(AddAt(b, q, e), q)
    ensures Live(AddAt(b, q, e), q) == Head(b, q) + [e] + Live(b, q + RecLen(b, q))
  {
    hide Ino, RecLen, NameLen, EntryAt, WriteEntry, Tiled, Live;
    LiveFrom(b, q);
    EntryWritten(b, q, e, RecLen(b, q));
    SameChain(b, AddAt(b, q, e), q + RecLen(b, q));
    TiledFrom(AddAt(b, q, e), q);
    assert Head(b, q) == [] && Head(AddAt(b, q, e), q) == [e];
  }

  lemma AddBehindFields(b: Block, q: nat, e: Entry)
    requires RecordOk(b, q) && Storable(e) && Fits(b, q, Need(e.name)) && Ino(b, q) != 0
    ensures var b', a := AddAt(b, q, e), Actual(b, q);
      && RecordOk(b', q) && RecLen(b', q) == a && Head(b', q) == Head(b, q)
      && RecordOk(b', q + a) && RecLen(b', q + a) == RecLen(b, q) - a && Head(b', q + a) == [e]
      && Same(b, b', q + RecLen(b, q))
  {
    hide Ino, RecLen, NameLen, EntryAt, WriteEntry, PutRecLen;
    var a, len := Actual(b, q), RecLen(b, q);
    var b1 := PutRecLen(b, q, a);
    var b2 := AddAt(b, q, e);
    RecLenWritten(b, q, a);
    EntryWritten(b1, q + a, e, len - a);
    SameHead(b1, b2, q);
    PutRecLenElsewhere(b, q, a);
  }

  lemma PutRecLenElsewhere(b: Block, p: nat, x: nat)
    requires p + HEADER <= BLOCK_SIZE && x < U16
    ensures forall i :: 0 <= i < BLOCK_SIZE && !(p + 4 <= i < p + 6) ==> PutRecLen(b, p, x)[i] == b[i]
  {}

  lemma AddBehindUsed(b: Block, q: nat, e: Entry)
    requires Tiled(b, q) && q < BLOCK_SIZE && Storable(e) && Fits(b, q, Need(e.name)) && Ino(b, q) != 0
    ensures Tiled(AddAt(b, q, e), q)
    ensures Live(AddAt(b, q, e), q) == Head(b, q) + [e] + Live(b, q + RecLen(b, q))
  {
    hide Ino, RecLen, NameLen, Head, AddAt, Tiled, Live, Actual;
    LiveFrom(b, q);
    var a, len, b' := Actual(b, q), RecLen(b, q), AddAt(b, q, e);
    AddBehindFields(b, q, e);
    SameChain(b, b', q + len);
    TiledFrom(b', q + a);
    TiledFrom(b', q);
    assert Live(b', q) == Head(b, q) + ([e] + Live(b, q + len));
  }

  /** Adding an entry keeps the tiling and inserts exactly that entry into the listing. */
  lemma AddInserts(b: Block, q: nat, e: Entry)
    requires Tiled(b, 0) && OnChain(b, 0, q) && RecordOk(b, q) && Storable(e) && Fits(b, q, Need(e.name))
    ensures Tiled(AddAt(b, q, e), 0) && AddRank(b, q) <= |Live(b, 0)|
    ensures Live(AddAt(b, q, e), 0) == InsertAt(Live(b, 0), AddRank(b, q), e)
  {
    hide AddAt, Fits, Ino, RecLen, NameLen, EntryAt, Head, InsertAt, Tiled, Live, OnChain, Rank;
    ChainAt(b, 0, q);
    RankAt(b, 0, q);
    LiveFrom(b, q);
    if Ino(b, q) == 0 {
      AddOverUnused(b, q, e);
    } else {
      AddBehindUsed(b, q, e);
    }
    AddKeepsBefore(b, q, e);
    PrefixKept(b, AddAt(b, q, e), 0, q);
    InsertJoin(Live(b, 0), Rank(b, 0, q), Head(b, q), e, Live(b, q + RecLen(b, q)));
  }

  lemma AddKeepsBefore(b: Block, q: nat, e: Entry)
    requires RecordOk(b, q) && Storable(e) && Fits(b, q, Need(e.name))
    ensures forall i :: 0 <= i < q ==> AddAt(b, q, e)[i] == b[i]
  {}

  /** A chain that is whole leads through the records before q to whatever is at q. */
  lemma {:induction false} PrefixLeads(b: Block, b': Block, p: nat, q: nat)
    requires Tiled(b, p) && OnChain(b, p, q) && Tiled(b', p) && q < BLOCK_SIZE
    requires forall i :: p <= i < q ==> b'[i] == b[i]
    ensures Tiled(b', q)
    decreases BLOCK_SIZE - p
  {
    hide Ino, RecLen, NameLen, EntryAt;
    if p == q {
    } else {
      ChainAt(b, p, q);
      SameRecord(b, b', p);
      PrefixLeads(b, b', p + RecLen(b, p), q);
    }
  }

  /** The first half of a split: the record at q ends behind its name. */
  function SplitAt(b: Block, q: nat): Block
    requires q + HEADER <= BLOCK_SIZE
  {
    PutRecLen(b, q, Actual(b, q))
  }

  lemma SplitFrom(b: Block, q: nat, need: nat)
    requires RecordOk(b, q) && Ino(b, q) != 0 && need >= HEADER && Fits(b, q, need)
    ensures Tiled(SplitAt(b, q), q) <==> Tiled(b, q + Actual(b, q))
    ensures Tiled(b, q + Actual(b, q)) ==> Live(SplitAt(b, q), q) == Head(b, q) + Live(b, q + Actual(b, q))
    ensures |Head(b, q)| == 1
  {
    hide Ino, RecLen, NameLen, EntryAt, PutRecLen;
    var a := Actual(b, q);
    var b' := SplitAt(b, q);
    RecLenWritten(b, q, a);
    PutRecLenElsewhere(b, q, a);
    if Tiled(b', q + a) {
      SameChain(b', b, q + a);
    }
    if Tiled(b, q + a) {
      SameChain(b, b', q + a);
    }
  }

  /** When the exit for want of an inode comes between the halves of a split, the block is whole
      exactly if the left-over bytes behind the name happen to tile, and then it lists whatever
      these bytes say. */
  lemma AbandonedSplit(b: Block, q: nat, need: nat)
    requires Tiled(b, 0) && OnChain(b, 0, q) && RecordOk(b, q) && Ino(b, q) != 0 && need >= HEADER && Fits(b, q, need)
    ensures Tiled(SplitAt(b, q), 0) <==> Tiled(b, q + Actual(b, q))
    ensures Tiled(b, q + Actual(b, q)) ==>
      && Rank(b, 0, q) < |Live(b, 0)|
      && Live(SplitAt(b, q), 0) == Live(b, 0)[..Rank(b, 0, q)] + Head(b, q) + Live(b, q + Actual(b, q))
  {
    hide Ino, RecLen, NameLen, EntryAt, PutRecLen, Fits, SplitAt, Actual, Tiled, Live, OnChain, Rank, Head;
    var b' := SplitAt(b, q);
    SplitFrom(b, q, need);
    SplitElsewhere(b, q);
    ChainAt(b, 0, q);
    if Tiled(b', 0) {
      PrefixLeads(b, b', 0, q);
    }
    if Tiled(b, q + Actual(b, q)) {
      PrefixKept(b, b', 0, q);
      RankAt(b, 0, q);
      LiveFrom(b, q);
    }
  }

  lemma SplitElsewhere(b: Block, q: nat)
    requires q + HEADER <= BLOCK_SIZE
    ensures forall i :: 0 <= i < q ==> SplitAt(b, q)[i] == b[i]
  {}

  /** A fresh block holding one entry. */
  function FirstEntry(e: Entry): Block
    requires Storable(e)
  {
    WriteEntry(ZeroBlock(), 0, e, BLOCK_SIZE)
  }

  lemma FirstEntryAlone(e: Entry)
    requires Storable(e)
    ensures Tiled(FirstEntry(e), 0) && Live(FirstEntry(e), 0) == [e]
  {
    EntryWritten(ZeroBlock(), 0, e, BLOCK_SIZE);
    assert Tiled(FirstEntry(e), BLOCK_SIZE);
  }

  /** A block holding one entry: the next one is to be split off, and behind the name are zeros. */
  lemma OneNameBlock(e: Entry, name: seq<Byte>)
    requires Storable(e) && |name| <= NAME_MAX
    ensures var b := FirstEntry(e);
      && RecordOk(b, 0) && Ino(b, 0) != 0 && Tiled(b, 0) && OnChain(b, 0, 0) && Live(b, 0) == [e]
      && FirstFit(b, 0, Need(name)) == Some(0) && !Tiled(b, Actual(b, 0))
  {
    hide WriteEntry;
    var b := FirstEntry(e);
    FirstEntryAlone(e);
    EntryWritten(ZeroBlock(), 0, e, BLOCK_SIZE);
    assert RecLen(b, Actual(b, 0)) == 0;
  }

  // ---------- hiding an entry ----------

  /** The record whose rec_len leads to q. */
  function Before(b: Block, p: nat, q: nat): (r: nat)
    requires Tiled(b, p) && OnChain(b, p, q) && p < q
    ensures OnChain(b, p, r) && RecordOk(b, r) && r + RecLen(b, r) == q
    decreases BLOCK_SIZE - p
  {
    var next := p + RecLen(b, p);
    if next == q then p else
      ChainAt(b, next, q);
      Before(b, next, q)
  }

  /** No other record leads to q. */
  lemma {:induction false} BeforeIs(b: Block, p: nat, prev: nat, q: nat)
    requires Tiled(b, p) && OnChain(b, p, q) && OnChain(b, p, prev) && RecordOk(b, prev) && prev + RecLen(b, prev) == q && p < q
    ensures Before(b, p, q) == prev
    decreases BLOCK_SIZE - p
  {
    hide Ino, RecLen, NameLen, EntryAt;
    var next := p + RecLen(b, p);
    ChainAt(b, p, prev);
    if p == prev {
    } else {
      ChainAt(b, next, q);
      BeforeIs(b, next, prev, q);
    }
  }

  lemma {:induction false} ChainNext(b: Block, p: nat, q: nat)
    requires Tiled(b, p) && OnChain(b, p, q)
    ensures RecordOk(b, q) && (q + RecLen(b, q) == BLOCK_SIZE || OnChain(b, p, q + RecLen(b, q)))
    decreases BLOCK_SIZE - p
  {
    hide Ino, RecLen, NameLen, EntryAt;
    if p == q {
    } else {
      ChainNext(b, p + RecLen(b, p), q);
    }
  }

  /** delete_file_entry: the first record of a block gets inode 0, any other is swallowed by the
      record before it. */
  function HideAt(b: Block, q: nat): Block
    requires Tiled(b, 0) && OnChain(b, 0, q) && RecordOk(b, q)
  {
    if q == 0 then PutIno(b, 0, 0)
    else
      var prev := Before(b, 0, q);
      PutRecLen(b, prev, RecLen(b, prev) + RecLen(b, q))
  }

  lemma HideFirst(b: Block)
    requires Tiled(b, 0) && Ino(b, 0) != 0
    ensures Tiled(HideAt(b, 0), 0) && Live(HideAt(b, 0), 0) == Live(b, 0)[1..]
  {
    InoWritten(b, 0, 0);
    SameChain(b, HideAt(b, 0), RecLen(b, 0));
  }

  lemma HideKeepsBefore(b: Block, q: nat)
    requires Tiled(b, 0) && OnChain(b, 0, q) && RecordOk(b, q) && q > 0
    ensures forall i :: 0 <= i < Before(b, 0, q) ==> HideAt(b, q)[i] == b[i]
  {
    hide Ino, RecLen, NameLen, EntryAt, PutRecLen, Tiled, OnChain, Before;
    var prev := Before(b, 0, q);
    PutRecLenElsewhere(b, prev, RecLen(b, prev) + RecLen(b, q));
  }

  /** The fields of the record that swallows the one at q. */
  lemma HideFields(b: Block, q: nat)
    requires Tiled(b, 0) && OnChain(b, 0, q) && RecordOk(b, q) && q > 0
    ensures var b', prev := HideAt(b, q), Before(b, 0, q);
      && RecordOk(b', prev) && RecLen(b', prev) == RecLen(b, prev) + RecLen(b, q) && Head(b', prev) == Head(b, prev)
      && Same(b, b', q + RecLen(b, q))
  {
    hide Ino, RecLen, NameLen, EntryAt, PutRecLen, Tiled, OnChain, Before, Actual;
    var prev := Before(b, 0, q);
    var len := RecLen(b, prev) + RecLen(b, q);
    RecLenWritten(b, prev, len);
    PutRecLenElsewhere(b, prev, len);
  }

  lemma HideLater(b: Block, q: nat)
    requires Tiled(b, 0) && OnChain(b, 0, q) && RecordOk(b, q) && q > 0 && Ino(b, q) != 0 && Tiled(b, q)
    ensures var prev, b' := Before(b, 0, q), HideAt(b, q); Tiled(b', prev) && Live(b', prev) == Head(b, prev) + Live(b, q + RecLen(b, q))
  {
    hide Ino, RecLen, NameLen, Head, HideAt, Live, OnChain, Before, Tiled;
    ChainAt(b, 0, q);
    LiveFrom(b, q);
    HideFields(b, q);
    SameChain(b, HideAt(b, q), q + RecLen(b, q));
    TiledFrom(HideAt(b, q), Before(b, 0, q));
  }

  lemma HideLaterRemoves(b: Block, q: nat)
    requires Tiled(b, 0) && OnChain(b, 0, q) && RecordOk(b, q) && q > 0 && Ino(b, q) != 0
    ensures Tiled(HideAt(b, q), 0) && Rank(b, 0, q) < |Live(b, 0)|
    ensures Live(HideAt(b, q), 0) == RemoveAt(Live(b, 0), Rank(b, 0, q))
  {
    hide Ino, RecLen, NameLen, EntryAt, Head, HideAt, RemoveAt, OnChain, Rank, Before, Live, Tiled;
    ChainAt(b, 0, q);
    UsedFrom(b, q);
    HideLater(b, q);
    var prev := Before(b, 0, q);
    RankAt(b, 0, prev);
    LiveFrom(b, prev);
    RankNext(b, 0, prev);
    HideKeepsBefore(b, q);
    PrefixKept(b, HideAt(b, q), 0, prev);
    RemoveJoin(Live(b, 0), Rank(b, 0, prev), Head(b, prev), EntryAt(b, q), Live(b, q + RecLen(b, q)));
  }

  lemma UsedFrom(b: Block, p: nat)
    requires Tiled(b, p) && p < BLOCK_SIZE && RecordOk(b, p) && Ino(b, p) != 0
    ensures Tiled(b, p + RecLen(b, p)) && Live(b, p) == [EntryAt(b, p)] + Live(b, p + RecLen(b, p))
  {
    hide Ino, RecLen, NameLen, EntryAt;
  }

  /** Hiding the entry at q keeps the tiling and removes exactly that entry from the listing. */
  lemma HideRemoves(b: Block, q: nat)
    requires Tiled(b, 0) && OnChain(b, 0, q) && RecordOk(b, q) && Ino(b, q) != 0
    ensures Tiled(HideAt(b, q), 0) && Rank(b, 0, q) < |Live(b, 0)|
    ensures Live(HideAt(b, q), 0) == RemoveAt(Live(b, 0), Rank(b, 0, q))
  {
    hide Ino, RecLen, NameLen, EntryAt, HideAt, RemoveAt;
    if q == 0 {
      HideFirst(b);
      RemoveJoin(Live(b, 0), 0, [], EntryAt(b, 0), Live(b, RecLen(b, 0)));
    } else {
      HideLaterRemoves(b, q);
    }
  }

  lemma {:induction false} RankNext(b: Block, p: nat, q: nat)
    requires Tiled(b, p) && OnChain(b, p, q) && RecordOk(b, q) && OnChain(b, p, q + RecLen(b, q))
    ensures Rank(b, p, q + RecLen(b, q)) == Rank(b, p, q) + |Head(b, q)|
    decreases BLOCK_SIZE - p
  {
    hide Ino, RecLen, NameLen, EntryAt;
    ChainAt(b, p, q);
    ChainAt(b, p, q + RecLen(b, q));
    if p == q {
    } else {
      RankNext(b, p + RecLen(b, p), q);
    }
  }
}

/** A directory block as a list of records: what the tools do to the bytes, read off the list. */
module Records {
  import opened Prelude
  import opened ResourceMap
  import opened Inodes
  import opened DirBlock

  /** A record in use: its entry and its rec_len. */
  datatype Rec = Rec(e: Entry, len: nat)

  /** From p on the block consists of these records. */
  ghost predicate Chain(b: Block, p: nat, rs: seq<Rec>)
    decreases |rs|
  {
    if rs == [] then p == BLOCK_SIZE
    else RecordOk(b, p) && RecLen(b, p) == rs[0].len && Head(b, p) == [rs[0].e] && Chain(b, p + rs[0].len, rs[1..])
  }

  function EntriesOf(rs: seq<Rec>): seq<Entry> {
    if rs == [] then [] else [rs[0].e] + EntriesOf(rs[1..])
  }

  /** Where the k-th record starts. */
  function StartOf(p: nat, rs: seq<Rec>, k: nat): nat
    requires k <= |rs|
    decreases k
  {
    if k == 0 then p else StartOf(p + rs[0].len, rs[1..], k - 1)
  }

  /** The bytes that the record needs for its header and name. */
  function Used(r: Rec): nat {
    Need(r.e.name)
  }

  lemma ChainHead(b: Block, p: nat, rs: seq<Rec>)
    requires Chain(b, p, rs) && rs != []
    ensures p < BLOCK_SIZE && RecordOk(b, p) && RecLen(b, p) == rs[0].len && Ino(b, p) != 0
    ensures Actual(b, p) == Used(rs[0]) && EntryAt(b, p) == rs[0].e && Chain(b, p + rs[0].len, rs[1..])
    ensures Head(b, p) == [rs[0].e]
  {}

  lemma ChainCons(b: Block, p: nat, r: Rec, rest: seq<Rec>)
    requires RecordOk(b, p) && RecLen(b, p) == r.len && Head(b, p) == [r.e] && Chain(b, p + r.len, rest)
    ensures Chain(b, p, [r] + rest)
  {
    hide RecLen, Head, Ino;
    assert ([r] + rest)[1..] == rest;
  }

  lemma {:induction false} ChainTiles(b: Block, p: nat, rs: seq<Rec>)
    requires Chain(b, p, rs)
    ensures Tiled(b, p) && Live(b, p) == EntriesOf(rs)
    decreases |rs|
  {
    hide RecLen, Head, Ino, EntryAt, NameLen;
    if rs == [] {
    } else {
      ChainTiles(b, p + rs[0].len, rs[1..]);
      TiledFrom(b, p);
    }
  }

  lemma {:induction false} ChainFrom(b: Block, p: nat, rs: seq<Rec>, k: nat)
    requires Chain(b, p, rs) && k <= |rs|
    ensures Chain(b, StartOf(p, rs, k), rs[k..]) && p <= StartOf(p, rs, k) <= BLOCK_SIZE
    ensures Tiled(b, p) && (k < |rs| ==> OnChain(b, p, StartOf(p, rs, k)))
    decreases |rs|
  {
    hide RecLen, Head, Ino, EntryAt, NameLen;
    ChainTiles(b, p, rs);
    if k == 0 {
      assert rs[0..] == rs;
      ChainEnds(b, p, rs);
    } else {
      ChainFrom(b, p + rs[0].len, rs[1..], k - 1);
      assert rs[1..][k - 1..] == rs[k..];
    }
  }

  lemma ChainEnds(b: Block, p: nat, rs: seq<Rec>)
    requires Chain(b, p, rs)
    ensures p <= BLOCK_SIZE && (rs != [] ==> p < BLOCK_SIZE)
  {}

  /** Other bytes before p do not matter. */
  lemma {:induction false} ChainSame(b: Block, b': Block, p: nat, rs: seq<Rec>)
    requires Chain(b, p, rs) && Same(b, b', p)
    ensures Chain(b', p, rs)
    decreases |rs|
  {
    hide RecLen, Head, Ino, EntryAt, NameLen;
    if rs == [] {
    } else {
      SameHead(b, b', p);
      ChainSame(b, b', p + rs[0].len, rs[1..]);
    }
  }

  /** A chain that goes on differently from its k-th record. */
  lemma {:induction false} ChainReplaced(b: Block, b': Block, p: nat, rs: seq<Rec>, k: nat, ts: seq<Rec>)
    requires Chain(b, p, rs) && k <= |rs| && StartOf(p, rs, k) <= BLOCK_SIZE && Chain(b', StartOf(p, rs, k), ts)
    requires forall i :: p <= i < StartOf(p, rs, k) ==> b'[i] == b[i]
    ensures Chain(b', p, rs[..k] + ts)
    decreases |rs|
  {
    hide RecLen, Head, Ino, EntryAt, NameLen;
    if k == 0 {
      assert rs[..0] + ts == ts;
    } else {
      var next := p + rs[0].len;
      ChainFrom(b, next, rs[1..], k - 1);
      SameHead(b, b', p);
      ChainReplaced(b, b', next, rs[1..], k - 1, ts);
      assert (rs[..k] + ts)[1..] == rs[1..][..k - 1] + ts;
    }
  }

  // ---------- creating ----------

  /** The first record with room behind its name. */
  function RoomAt(rs: seq<Rec>, need: nat): Option<nat> {
    if rs == [] then None
    else if need + Used(rs[0]) <= rs[0].len then Some(0)
    else match RoomAt(rs[1..], need)
      case None => None
      case Some(k) => Some(k + 1)
  }

  /** The record found is the first with room, and there is none exactly if no record has. */
  lemma {:induction false} RoomIsFirst(rs: seq<Rec>, need: nat)
    ensures match RoomAt(rs, need)
      case None => forall i :: 0 <= i < |rs| ==> need + Used(rs[i]) > rs[i].len
      case Some(k) => k < |rs| && need + Used(rs[k]) <= rs[k].len && forall i :: 0 <= i < k ==> need + Used(rs[i]) > rs[i].len
    decreases |rs|
  {
    hide Used;
    if rs == [] {
    } else {
      RoomIsFirst(rs[1..], need);
    }
  }

  lemma {:induction false} ChainRoom(b: Block, p: nat, rs: seq<Rec>, need: nat)
    requires Chain(b, p, rs)
    ensures Tiled(b, p)
    ensures match RoomAt(rs, need)
      case None => FirstFit(b, p, need) == None
      case Some(k) => k < |rs| && FirstFit(b, p, need) == Some(StartOf(p, rs, k))
    decreases |rs|
  {
    hide RecLen, Ino, EntryAt, NameLen, Used, Actual, Head;
    ChainTiles(b, p, rs);
    if rs == [] {
    } else {
      ChainHead(b, p, rs);
      ChainRoom(b, p + rs[0].len, rs[1..], need);
    }
  }

  /** The records after an entry has joined behind the k-th name. */
  function Joined(rs: seq<Rec>, k: nat, e: Entry): seq<Rec>
    requires k < |rs| && Used(rs[k]) <= rs[k].len
  {
    rs[..k] + [Rec(rs[k].e, Used(rs[k])), Rec(e, rs[k].len - Used(rs[k]))] + rs[k + 1..]
  }

  lemma ChainJoins(b: Block, rs: seq<Rec>, k: nat, e: Entry)
    requires Chain(b, 0, rs) && k < |rs| && Storable(e) && Need(e.name) + Used(rs[k]) <= rs[k].len
    ensures var q := StartOf(0, rs, k);
      RecordOk(b, q) && Ino(b, q) != 0 && Fits(b, q, Need(e.name)) && Chain(AddAt(b, q, e), 0, Joined(rs, k, e))
  {
    hide RecLen, Ino, EntryAt, NameLen, AddAt, Actual, Head, Chain, Used;
    var q := StartOf(0, rs, k);
    ChainFrom(b, 0, rs, k);
    ChainHead(b, q, rs[k..]);
    var b', a, len := AddAt(b, q, e), Used(rs[k]), rs[k].len;
    AddBehindFields(b, q, e);
    AddKeepsBefore(b, q, e);
    assert rs[k..][1..] == rs[k + 1..];
    ChainSame(b, b', q + len, rs[k + 1..]);
    ChainCons(b', q + a, Rec(e, len - a), rs[k + 1..]);
    ChainCons(b', q, Rec(rs[k].e, a), [Rec(e, len - a)] + rs[k + 1..]);
    var ts := [Rec(rs[k].e, a)] + ([Rec(e, len - a)] + rs[k + 1..]);
    ChainReplaced(b, b', 0, rs, k, ts);
    assert rs[..k] + ts == Joined(rs, k, e);
  }

  lemma ChainFirst(e: Entry)
    requires Storable(e)
    ensures Chain(FirstEntry(e), 0, [Rec(e, BLOCK_SIZE)])
  {
    hide WriteEntry;
    EntryWritten(ZeroBlock(), 0, e, BLOCK_SIZE);
    assert Chain(FirstEntry(e), BLOCK_SIZE, [Rec(e, BLOCK_SIZE)][1..]);
  }

  // ---------- deleting ----------

  /** The first record with that name. */
  function NamedAt(rs: seq<Rec>, name: seq<Byte>): Option<nat> {
    if rs == [] then None
    else if rs[0].e.name == name then Some(0)
    else match NamedAt(rs[1..], name)
      case None => None
      case Some(k) => Some(k + 1)
  }

  lemma {:induction false} NamedIsFirst(rs: seq<Rec>, name: seq<Byte>)
    ensures match NamedAt(rs, name)
      case None => forall i :: 0 <= i < |rs| ==> rs[i].e.name != name
      case Some(k) => k < |rs| && rs[k].e.name == name && forall i :: 0 <= i < k ==> rs[i].e.name != name
    decreases |rs|
  {
    if rs == [] {
    } else {
      NamedIsFirst(rs[1..], name);
    }
  }

  lemma {:induction false} ChainNamed(b: Block, p: nat, rs: seq<Rec>, name: seq<Byte>)
    requires Chain(b, p, rs)
    ensures Tiled(b, p)
    ensures match NamedAt(rs, name)
      case None => DirBlock.Find(b, p, name) == None
      case Some(k) => k < |rs| && rs[k].e.name == name && DirBlock.Find(b, p, name) == Some(StartOf(p, rs, k))
    decreases |rs|
  {
    hide RecLen, Ino, EntryAt, NameLen, Head;
    ChainTiles(b, p, rs);
    if rs == [] {
    } else {
      ChainHead(b, p, rs);
      ChainNamed(b, p + rs[0].len, rs[1..], name);
    }
  }

  /** The records after the k-th has been swallowed by the one before it. */
  function Swallowed(rs: seq<Rec>, k: nat): seq<Rec>
    requires 0 < k < |rs|
  {
    rs[..k - 1] + [Rec(rs[k - 1].e, rs[k - 1].len + rs[k].len)] + rs[k + 1..]
  }

  lemma {:induction false} StartNext(p: nat, rs: seq<Rec>, k: nat)
    requires 0 < k <= |rs|
    ensures StartOf(p, rs, k) == StartOf(p, rs, k - 1) + rs[k - 1].len
    decreases k
  {
    if k == 1 {
    } else {
      StartNext(p + rs[0].len, rs[1..], k - 1);
    }
  }

  /** The record before the k-th is the one whose length leads to it. */
  lemma ChainBefore(b: Block, rs: seq<Rec>, k: nat)
    requires Chain(b, 0, rs) && 0 < k < |rs|
    ensures Tiled(b, 0) && OnChain(b, 0, StartOf(0, rs, k)) && 0 < StartOf(0, rs, k)
    ensures Before(b, 0, StartOf(0, rs, k)) == StartOf(0, rs, k - 1)
  {
    hide RecLen, Ino, EntryAt, NameLen, Head, Tiled, OnChain;
    ChainFrom(b, 0, rs, k);
    ChainFrom(b, 0, rs, k - 1);
    StartNext(0, rs, k);
    ChainHead(b, StartOf(0, rs, k - 1), rs[k - 1..]);
    LengthPositive(b, StartOf(0, rs, k - 1));
    BeforeIs(b, 0, StartOf(0, rs, k - 1), StartOf(0, rs, k));
  }

  lemma LengthPositive(b: Block, p: nat)
    requires RecordOk(b, p)
    ensures RecLen(b, p) > 0
  {}

  lemma ChainSwallows(b: Block, rs: seq<Rec>, k: nat)
    requires Chain(b, 0, rs) && 0 < k < |rs|
    ensures var q := StartOf(0, rs, k);
      && Tiled(b, 0) && OnChain(b, 0, q) && RecordOk(b, q) && q > 0
      && Chain(HideAt(b, q), 0, Swallowed(rs, k))
  {
    hide RecLen, Ino, EntryAt, NameLen, Head, Tiled, OnChain, HideAt, Before, Actual, Chain;
    var q, prev := StartOf(0, rs, k), StartOf(0, rs, k - 1);
    ChainBefore(b, rs, k);
    ChainFrom(b, 0, rs, k);
    ChainFrom(b, 0, rs, k - 1);
    ChainHead(b, q, rs[k..]);
    ChainHead(b, prev, rs[k - 1..]);
    StartNext(0, rs, k);
    HideFields(b, q);
    HideKeepsBefore(b, q);
    var b' := HideAt(b, q);
    assert rs[k..][1..] == rs[k + 1..];
    ChainSame(b, b', q + rs[k].len, rs[k + 1..]);
    var ts := [Rec(rs[k - 1].e, rs[k - 1].len + rs[k].len)] + rs[k + 1..];
    ChainCons(b', prev, Rec(rs[k - 1].e, rs[k - 1].len + rs[k].len), rs[k + 1..]);
    ChainReplaced(b, b', 0, rs, k - 1, ts);
    assert rs[..k - 1] + ts == Swallowed(rs, k);
  }
}

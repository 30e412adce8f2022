/** ext2 directory blocks: 1024 bytes holding a chain of records, each with its own
    length, the last reaching the end of the block.

    `Parse` reads any 1024 bytes the way every function of the driver does, stopping
    where the chain breaks.  `Entries` is the ordered list of names a caller sees.
    The operations are proved against these two for every block, not only for blocks
    the driver itself has written. */
module DirBlock {
  import opened Options
  import opened Arith

  const SIZE: nat := 1024

  type Block = b: seq<Byte> | |b| == 1024 witness seq(1024, _ => 0)

  // ----- Little-endian fields ---------------------------------------------

  function R16(b: Block, o: nat): nat
    requires o + 2 <= SIZE
  {
    b[o] as int + 256 * (b[o + 1] as int)
  }

  function R32(b: Block, o: nat): nat
    requires o + 4 <= SIZE
  {
    b[o] as int + 256 * (b[o + 1] as int) + 65536 * (b[o + 2] as int) + 16777216 * (b[o + 3] as int)
  }

  function W16(b: Block, o: nat, v: nat): Block
    requires o + 2 <= SIZE
  {
    b[o := v % 256][o + 1 := v / 256 % 256]
  }

  function W32(b: Block, o: nat, v: nat): Block
    requires o + 4 <= SIZE
  {
    b[o := v % 256][o + 1 := v / 256 % 256][o + 2 := v / 65536 % 256][o + 3 := v / 16777216 % 256]
  }

  lemma Bytes32(v: nat)
    requires v < 0x1_0000_0000
    ensures v % 256 + 256 * (v / 256 % 256) + 65536 * (v / 65536 % 256) + 16777216 * (v / 16777216 % 256) == v
  {
    var a := v / 256;
    var c := a / 256;
    var d := c / 256;
    DivIs(v, 65536, c, a % 256 * 256 + v % 256);
    DivIs(v, 16777216, d, c % 256 * 65536 + a % 256 * 256 + v % 256);
    assert d < 256;
  }

  function CopyInto(b: Block, o: nat, name: seq<Byte>): Block
    requires o + |name| <= SIZE
  {
    b[..o] + name + b[o + |name|..]
  }

  /** `write_dir_entry`: the name's length is stored in one byte. */
  function WriteEntry(b: Block, o: nat, inode: nat, len: nat, ftype: Byte, name: seq<Byte>): Block
    requires o + 8 + |name| <= SIZE
  {
    var b1 := W16(W32(b, o, inode), o + 4, len);
    CopyInto(b1[o + 6 := |name| % 256][o + 7 := ftype], o + 8, name)
  }

  lemma WriteEntryReads(b: Block, o: nat, inode: nat, len: nat, ftype: Byte, name: seq<Byte>)
    requires o + 8 + |name| <= SIZE && inode < 0x1_0000_0000 && len < 0x1_0000
    ensures var b' := WriteEntry(b, o, inode, len, ftype, name);
            && R32(b', o) == inode && R16(b', o + 4) == len && b'[o + 6] == |name| % 256 && b'[o + 7] == ftype
            && b'[o + 8..o + 8 + |name|] == name
            && (forall i :: 0 <= i < SIZE && (i < o || o + 8 + |name| <= i) ==> b'[i] == b[i])
  {
    Bytes32(inode);
  }

  // ----- Records ----------------------------------------------------------

  /** One record as it lies in the block; `body` is everything after the header. */
  datatype Rec = Rec(inode: nat, len: nat, nameLen: nat, ftype: Byte, body: seq<Byte>)

  datatype Entry = Entry(inode: nat, ftype: Byte, name: seq<Byte>)

  /** There is a record at `o` and it stays inside the block. */
  predicate Good(b: Block, o: nat) {
    && o + 8 <= SIZE
    && var len := R16(b, o + 4);
    len >= 8 && o + len <= SIZE
  }

  function RecAt(b: Block, o: nat): (r: Rec)
    requires Good(b, o)
    ensures 8 <= r.len && o + r.len <= SIZE && |r.body| == r.len - 8 && r.nameLen < 256
  {
    var len := R16(b, o + 4);
    Rec(R32(b, o), len, b[o + 6], b[o + 7], b[o + 8..o + len])
  }

  /** The chain from offset `o` on, up to where it breaks. */
  function Parse(b: Block, o: nat): seq<Rec>
    decreases SIZE - o
  {
    if !Good(b, o) then [] else [RecAt(b, o)] + Parse(b, o + RecAt(b, o).len)
  }

  /** Where record `k` of the chain from `o` starts. */
  function OffAt(b: Block, o: nat, k: nat): (r: nat)
    requires k <= |Parse(b, o)|
    ensures o <= r
    ensures o <= SIZE ==> r <= SIZE
    decreases k
  {
    if k == 0 then o else OffAt(b, o + RecAt(b, o).len, k - 1)
  }

  predicate Visible(r: Rec) { r.inode != 0 && r.nameLen > 0 && 8 + r.nameLen <= r.len }

  function EntryOf(r: Rec): seq<Entry>
    requires |r.body| == r.len - 8
  {
    if Visible(r) then [Entry(r.inode, r.ftype, r.body[..r.nameLen])] else []
  }

  ghost predicate Shaped(rs: seq<Rec>) { forall k :: 0 <= k < |rs| ==> |rs[k].body| == rs[k].len - 8 }

  /** The names a caller sees, in order. */
  function Entries(rs: seq<Rec>): seq<Entry>
    requires Shaped(rs)
  {
    if rs == [] then [] else Entries(rs[..|rs| - 1]) + EntryOf(rs[|rs| - 1])
  }

  lemma {:induction false} ParseShaped(b: Block, o: nat)
    ensures Shaped(Parse(b, o))
    decreases SIZE - o
  {
    if Good(b, o) { ParseShaped(b, o + RecAt(b, o).len); }
  }

  function Listing(b: Block): seq<Entry> {
    ParseShaped(b, 0);
    Entries(Parse(b, 0))
  }

  lemma EntriesSnoc(rs: seq<Rec>, r: Rec)
    requires Shaped(rs) && |r.body| == r.len - 8
    ensures Shaped(rs + [r]) && Entries(rs + [r]) == Entries(rs) + EntryOf(r)
  {
    hide EntryOf;
    assert (rs + [r])[..|rs|] == rs;
  }

  lemma {:induction false} EntriesConcat(a: seq<Rec>, c: seq<Rec>)
    requires Shaped(a) && Shaped(c)
    ensures Shaped(a + c) && Entries(a + c) == Entries(a) + Entries(c)
    decreases |c|
  {
    hide Entries, EntryOf;
    if c == [] {
      EntriesEmpty();
      assert a + c == a;
    } else {
      var front, r := c[..|c| - 1], c[|c| - 1];
      EntriesConcat(a, front);
      EntriesSnoc(front, r);
      EntriesSnoc(a + front, r);
      assert front + [r] == c && a + front + [r] == a + c;
      Regroup(Entries(a), Entries(front), EntryOf(r));
    }
  }

  lemma EntriesOne(r: Rec)
    requires |r.body| == r.len - 8
    ensures Shaped([r]) && Entries([r]) == EntryOf(r)
  {
    assert [r][..0] == [];
  }

  // ----- How the chain changes --------------------------------------------

  lemma OneRecord(b: Block, o: nat)
    requires Good(b, o)
    ensures Parse(b, o) == [RecAt(b, o)] + Parse(b, o + RecAt(b, o).len)
  {
    hide R16, R32;
  }

  /** The first record of a chain, and the chain after it. */
  lemma ChainHead(b: Block, o: nat, k: nat)
    requires 0 < k <= |Parse(b, o)|
    ensures Good(b, o) && Parse(b, o) == [RecAt(b, o)] + Parse(b, o + RecAt(b, o).len)
    ensures k - 1 <= |Parse(b, o + RecAt(b, o).len)| && OffAt(b, o, k) == OffAt(b, o + RecAt(b, o).len, k - 1)
  {
    hide R16, R32;
  }

  lemma SameRecord(b: Block, b': Block, o: nat)
    requires Good(b, o) && forall i :: o <= i < o + RecAt(b, o).len ==> b'[i] == b[i]
    ensures Good(b', o) && RecAt(b', o) == RecAt(b, o)
  {
    var n := RecAt(b, o).len;
    assert R16(b', o + 4) == R16(b, o + 4) && R32(b', o) == R32(b, o);
    assert b'[o + 8..o + n] == b[o + 8..o + n];
  }

  /** The chain only depends on the bytes from its offset on. */
  lemma {:induction false} ParseFrame(b: Block, b': Block, o: nat)
    requires forall i :: o <= i < SIZE ==> b'[i] == b[i]
    ensures Parse(b', o) == Parse(b, o)
    decreases SIZE - o
  {
    if Good(b, o) {
      hide Parse, Good, RecAt;
      SameRecord(b, b', o);
      OneRecord(b, o);
      OneRecord(b', o);
      ParseFrame(b, b', o + RecAt(b, o).len);
    }
  }

  /** Reading the chain up to record `k` and going on from there. */
  lemma {:induction false} ParseFrom(b: Block, o: nat, k: nat)
    requires k <= |Parse(b, o)|
    ensures Parse(b, OffAt(b, o, k)) == Parse(b, o)[k..]
    decreases k
  {
    if k > 0 {
      hide Parse, OffAt, Good, RecAt;
      ChainHead(b, o, k);
      ParseFrom(b, o + RecAt(b, o).len, k - 1);
    }
  }

  /** Bytes before record `k` unchanged: the first `k` records unchanged. */
  lemma {:induction false} ParsePrefix(b: Block, b': Block, o: nat, k: nat)
    requires k <= |Parse(b, o)|
    requires forall i :: o <= i < OffAt(b, o, k) && i < SIZE ==> b'[i] == b[i]
    ensures Parse(b', o) == Parse(b, o)[..k] + Parse(b', OffAt(b, o, k))
    decreases k
  {
    hide Parse, OffAt, Good, RecAt;
    if k == 0 {
      OffZero(b, o);
      assert Parse(b, o)[..0] == [];
    } else {
      ChainHead(b, o, k);
      var r, o1 := RecAt(b, o), o + RecAt(b, o).len;
      SameRecord(b, b', o);
      OneRecord(b', o);
      ParsePrefix(b, b', o1, k - 1);
      TakeCons(r, Parse(b, o1), k, Parse(b', OffAt(b, o, k)));
    }
  }

  lemma Regroup<T>(x: seq<T>, y: seq<T>, z: seq<T>)
    ensures x + (y + z) == x + y + z
  {
  }

  lemma OffZero(b: Block, o: nat)
    ensures OffAt(b, o, 0) == o
  {
  }

  lemma TakeCons<T>(x: T, xs: seq<T>, k: nat, ys: seq<T>)
    requires 0 < k <= |xs| + 1
    ensures ([x] + xs)[..k] + ys == [x] + (xs[..k - 1] + ys)
  {
  }

  /** Record `k` sits at its offset. */
  lemma RecordAt(b: Block, k: nat)
    requires k < |Parse(b, 0)|
    ensures var o := OffAt(b, 0, k);
            Good(b, o) && RecAt(b, o) == Parse(b, 0)[k] && Parse(b, o + RecAt(b, o).len) == Parse(b, 0)[k + 1..]
    ensures OffAt(b, 0, k + 1) == OffAt(b, 0, k) + Parse(b, 0)[k].len
  {
    hide Parse, OffAt, RecAt, Good;
    ParseFrom(b, 0, k);
    ParseFrom(b, 0, k + 1);
    OffNext(b, 0, k);
    ChainHead(b, OffAt(b, 0, k), 1);
  }

  lemma {:induction false} OffNext(b: Block, o: nat, k: nat)
    requires k < |Parse(b, o)|
    ensures OffAt(b, o, k + 1) == OffAt(b, o, k) + Parse(b, o)[k].len
    decreases k
  {
    if k > 0 {
      hide Parse, OffAt, Good, RecAt;
      ChainHead(b, o, k);
      ChainHead(b, o, k + 1);
      OffNext(b, o + RecAt(b, o).len, k - 1);
    }
  }

  /** Rewriting bytes inside record `k` replaces that record by whatever now parses
      there, provided the new records end where the old one did. */
  lemma ParseReplace(b: Block, b': Block, k: nat, new_: seq<Rec>)
    requires k < |Parse(b, 0)|
    requires var o := OffAt(b, 0, k);
             && (forall i :: 0 <= i < SIZE && (i < o || o + Parse(b, 0)[k].len <= i) ==> b'[i] == b[i])
             && Parse(b', o) == new_ + Parse(b', o + Parse(b, 0)[k].len)
    ensures Parse(b', 0) == Parse(b, 0)[..k] + new_ + Parse(b, 0)[k + 1..]
  {
    hide Parse, OffAt, RecAt, Good;
    RecordAt(b, k);
    ParsePrefix(b, b', 0, k);
    ParseFrame(b, b', OffAt(b, 0, k) + Parse(b, 0)[k].len);
    Regroup(Parse(b, 0)[..k], new_, Parse(b, 0)[k + 1..]);
  }

  // ----- Adding -----------------------------------------------------------

  /** `(n + 3) & !3`. */
  function Round4(n: nat): nat { (n + 3) / 4 * 4 }

  function Needed(name: seq<Byte>): nat { Round4(8 + |name|) }

  /** What a live record really uses of its length. */
  function Actual(r: Rec): nat { Round4(8 + r.nameLen) }

  predicate CanHold(r: Rec, needed: nat) {
    if r.inode == 0 then r.len >= needed else r.len >= Actual(r) + needed
  }

  function FirstHolder(rs: seq<Rec>, needed: nat): (k: nat)
    ensures k <= |rs| && (forall i :: 0 <= i < k ==> !CanHold(rs[i], needed)) && (k < |rs| ==> CanHold(rs[k], needed))
  {
    if rs == [] || CanHold(rs[0], needed) then 0 else
    var k := FirstHolder(rs[1..], needed);
    assert forall i :: 1 <= i < k + 1 ==> rs[i] == rs[1..][i - 1];
    1 + k
  }

  /** What becomes of the record that takes the new entry: an unused one is filled, a
      live one is cut to size and the rest becomes the new record. */
  function NewRecs(r: Rec, inode: nat, ftype: Byte, name: seq<Byte>): seq<Rec>
    requires |r.body| == r.len - 8 && r.len >= 8 && CanHold(r, Needed(name))
  {
    if r.inode == 0 then [Rec(inode, r.len, |name| % 256, ftype, name + r.body[|name|..])]
    else
      var a := Actual(r);
      [Rec(r.inode, a, r.nameLen, r.ftype, r.body[..a - 8]),
       Rec(inode, r.len - a, |name| % 256, ftype, name + r.body[a + |name|..])]
  }

  /** The block after `add_dir_entry`, if some record can hold the entry. */
  function Added(b: Block, inode: nat, ftype: Byte, name: seq<Byte>): Option<Block> {
    var rs := Parse(b, 0);
    var k := FirstHolder(rs, Needed(name));
    if k == |rs| then None else
    RecordAt(b, k);
    var o, r := OffAt(b, 0, k), rs[k];
    if r.inode == 0 then Some(WriteEntry(b, o, inode, r.len, ftype, name))
    else Some(WriteEntry(W16(b, o + 4, Actual(r)), o + Actual(r), inode, r.len - Actual(r), ftype, name))
  }

  /** What a caller sees of a new entry: nothing if its inode is 0 or its name's length
      is a multiple of 256, else the name cut to the length one byte can hold. */
  function Shown(inode: nat, ftype: Byte, name: seq<Byte>): seq<Entry> {
    if inode != 0 && |name| % 256 > 0 then [Entry(inode, ftype, name[..|name| % 256])] else []
  }

  lemma FillParses(b: Block, k: nat, inode: nat, ftype: Byte, name: seq<Byte>)
    requires k < |Parse(b, 0)| && Parse(b, 0)[k].inode == 0 && CanHold(Parse(b, 0)[k], Needed(name))
    requires inode < 0x1_0000_0000
    ensures var r, o := Parse(b, 0)[k], OffAt(b, 0, k);
            && o + 8 + |name| <= o + r.len <= SIZE && |r.body| == r.len - 8
            && Parse(WriteEntry(b, o, inode, r.len, ftype, name), 0) ==
               Parse(b, 0)[..k] + NewRecs(r, inode, ftype, name) + Parse(b, 0)[k + 1..]
  {
    hide Parse, OffAt, WriteEntry;
    RecordAt(b, k);
    var r, o := Parse(b, 0)[k], OffAt(b, 0, k);
    WriteEntryReads(b, o, inode, r.len, ftype, name);
    var b' := WriteEntry(b, o, inode, r.len, ftype, name);
    assert b'[o + 8..o + r.len] == name + r.body[|name|..];
    assert RecAt(b', o) == NewRecs(r, inode, ftype, name)[0];
    OneRecord(b', o);
    ParseReplace(b, b', k, NewRecs(r, inode, ftype, name));
  }

  lemma SplitParses(b: Block, k: nat, inode: nat, ftype: Byte, name: seq<Byte>)
    requires k < |Parse(b, 0)| && Parse(b, 0)[k].inode != 0 && CanHold(Parse(b, 0)[k], Needed(name))
    requires inode < 0x1_0000_0000
    ensures var r, o := Parse(b, 0)[k], OffAt(b, 0, k); var a := Actual(r);
            && o + a + 8 + |name| <= o + r.len <= SIZE && |r.body| == r.len - 8
            && Parse(WriteEntry(W16(b, o + 4, a), o + a, inode, r.len - a, ftype, name), 0) ==
               Parse(b, 0)[..k] + NewRecs(r, inode, ftype, name) + Parse(b, 0)[k + 1..]
  {
    hide Parse, OffAt, WriteEntry;
    RecordAt(b, k);
    var r, o := Parse(b, 0)[k], OffAt(b, 0, k);
    var a := Actual(r);
    var b1 := W16(b, o + 4, a);
    var b' := WriteEntry(b1, o + a, inode, r.len - a, ftype, name);
    WriteEntryReads(b1, o + a, inode, r.len - a, ftype, name);
    SplitRecords(b, b', o, inode, ftype, name);
    OneRecord(b', o);
    OneRecord(b', o + a);
    var new_ := NewRecs(r, inode, ftype, name);
    assert [new_[0]] + ([new_[1]] + Parse(b', o + r.len)) == new_ + Parse(b', o + r.len);
    ParseReplace(b, b', k, new_);
  }

  lemma SplitRecords(b: Block, b': Block, o: nat, inode: nat, ftype: Byte, name: seq<Byte>)
    requires Good(b, o) && RecAt(b, o).inode != 0 && CanHold(RecAt(b, o), Needed(name)) && inode < 0x1_0000_0000
    requires var r := RecAt(b, o); var a := Actual(r);
             b' == WriteEntry(W16(b, o + 4, a), o + a, inode, r.len - a, ftype, name)
    ensures var r := RecAt(b, o); var a := Actual(r);
            && Good(b', o) && Good(b', o + a)
            && [RecAt(b', o), RecAt(b', o + a)] == NewRecs(r, inode, ftype, name)
            && (forall i :: 0 <= i < SIZE && (i < o || o + r.len <= i) ==> b'[i] == b[i])
  {
    hide WriteEntry, W16, R32, R16;
    var r := RecAt(b, o);
    var a := Actual(r);
    var b1 := W16(b, o + 4, a);
    CutRecord(b, o, a);
    WriteEntryReads(b1, o + a, inode, r.len - a, ftype, name);
    SameRecord(b1, b', o);
    assert b'[o + a + 8..o + r.len] == name + r.body[a + |name|..];
  }

  /** Cutting a record short. */
  lemma CutRecord(b: Block, o: nat, n: nat)
    requires Good(b, o) && 8 <= n <= RecAt(b, o).len
    ensures var b' := W16(b, o + 4, n);
            && Good(b', o) && RecAt(b', o) == RecAt(b, o).(len := n, body := RecAt(b, o).body[..n - 8])
            && (forall i :: 0 <= i < SIZE && i != o + 4 && i != o + 5 ==> b'[i] == b[i])
  {
    var b' := W16(b, o + 4, n);
    assert R16(b', o + 4) == n;
    assert R32(b', o) == R32(b, o);
    assert b'[o + 8..o + n] == RecAt(b, o).body[..n - 8];
  }

  /** `add_dir_entry` on any block: it fails exactly when no record can hold the entry;
      else one record is replaced and every other record is as it was. */
  lemma AddParses(b: Block, inode: nat, ftype: Byte, name: seq<Byte>)
    requires inode < 0x1_0000_0000
    ensures var rs := Parse(b, 0); var k := FirstHolder(rs, Needed(name));
            && (Added(b, inode, ftype, name).None? <==> k == |rs|)
            && (k < |rs| ==> |rs[k].body| == rs[k].len - 8 && rs[k].len >= 8)
            && (k < |rs| ==> Parse(Added(b, inode, ftype, name).value, 0) ==
                             rs[..k] + NewRecs(rs[k], inode, ftype, name) + rs[k + 1..])
  {
    hide Parse, OffAt, WriteEntry;
    var rs := Parse(b, 0);
    var k := FirstHolder(rs, Needed(name));
    if k < |rs| {
      RecordAt(b, k);
      if rs[k].inode == 0 {
        FillParses(b, k, inode, ftype, name);
      } else {
        SplitParses(b, k, inode, ftype, name);
      }
    }
  }

  /** How a list of records that had one record replaced shows. */
  lemma EntriesReplace(a: seq<Rec>, r: Rec, c: seq<Rec>)
    requires Shaped(a) && |r.body| == r.len - 8 && Shaped(c)
    ensures Shaped(a + [r] + c) && Entries(a + [r] + c) == Entries(a) + EntryOf(r) + Entries(c)
  {
    hide Entries, EntryOf;
    EntriesOne(r);
    EntriesConcat(a, [r]);
    EntriesConcat(a + [r], c);
  }

  lemma NewRecsShow(r: Rec, inode: nat, ftype: Byte, name: seq<Byte>)
    requires |r.body| == r.len - 8 && r.len >= 8 && CanHold(r, Needed(name))
    ensures Shaped(NewRecs(r, inode, ftype, name))
    ensures Entries(NewRecs(r, inode, ftype, name)) == EntryOf(r) + Shown(inode, ftype, name)
  {
    var new_ := NewRecs(r, inode, ftype, name);
    if r.inode == 0 {
      EntriesOne(new_[0]);
      assert (name + r.body[|name|..])[..|name| % 256] == name[..|name| % 256];
    } else {
      var a := Actual(r);
      assert new_ == [new_[0]] + [new_[1]];
      EntriesOne(new_[0]);
      EntriesOne(new_[1]);
      EntriesConcat([new_[0]], [new_[1]]);
      assert r.body[..a - 8][..r.nameLen] == r.body[..r.nameLen];
      assert (name + r.body[a + |name|..])[..|name| % 256] == name[..|name| % 256];
    }
  }

  /** Where in the listing a new entry goes. */
  function AddPosition(b: Block, name: seq<Byte>): nat {
    var rs := Parse(b, 0);
    var k := FirstHolder(rs, Needed(name));
    ParseShaped(b, 0);
    |Entries(if k < |rs| then rs[..k + 1] else rs)|
  }

  /** `add_dir_entry` as a caller sees it, on any block: the new entry is inserted at one
      place and all others keep their order. */
  lemma AddInserts(b: Block, inode: nat, ftype: Byte, name: seq<Byte>)
    requires inode < 0x1_0000_0000
    ensures AddPosition(b, name) <= |Listing(b)|
    ensures Added(b, inode, ftype, name).Some? ==>
              Listing(Added(b, inode, ftype, name).value) ==
              Listing(b)[..AddPosition(b, name)] + Shown(inode, ftype, name) + Listing(b)[AddPosition(b, name)..]
  {
    hide Parse, Added, NewRecs, Shown, EntryOf, Entries;
    var rs := Parse(b, 0);
    var k := FirstHolder(rs, Needed(name));
    ParseShaped(b, 0);
    AddParses(b, inode, ftype, name);
    if k < |rs| {
      var r, x, z := rs[k], rs[..k], rs[k + 1..];
      var new_, b' := NewRecs(r, inode, ftype, name), Added(b, inode, ftype, name).value;
      NewRecsShow(r, inode, ftype, name);
      ParseShaped(b', 0);
      assert rs == x + [r] + z && rs[..k + 1] == x + [r] + [];
      EntriesReplace(x, r, z);
      EntriesReplace(x, r, []);
      EntriesEmpty();
      EntriesConcat(x, new_);
      EntriesConcat(x + new_, z);
      var p, q := Entries(x) + EntryOf(r), Entries(z);
      assert Listing(b) == p + q;
      assert Listing(b') == p + Shown(inode, ftype, name) + q;
    }
  }

  lemma EntriesEmpty()
    ensures Entries([]) == []
  {
  }

  // ----- Finding ----------------------------------------------------------

  function FindName(es: seq<Entry>, name: seq<Byte>): (k: nat)
    ensures k <= |es| && (forall i :: 0 <= i < k ==> es[i].name != name) && (k < |es| ==> es[k].name == name)
  {
    if es == [] || es[0].name == name then 0 else
    var k := FindName(es[1..], name);
    assert forall i :: 1 <= i < k + 1 ==> es[i] == es[1..][i - 1];
    1 + k
  }

  // ----- Removing ---------------------------------------------------------

  predicate Named(r: Rec, name: seq<Byte>)
    requires |r.body| == r.len - 8
  {
    Visible(r) && r.body[..r.nameLen] == name
  }

  function FirstNamed(rs: seq<Rec>, name: seq<Byte>): (k: nat)
    requires Shaped(rs)
    ensures k <= |rs| && (forall i :: 0 <= i < k ==> !Named(rs[i], name)) && (k < |rs| ==> Named(rs[k], name))
  {
    if rs == [] || Named(rs[0], name) then 0 else
    var k := FirstNamed(rs[1..], name);
    assert forall i :: 1 <= i < k + 1 ==> rs[i] == rs[1..][i - 1];
    1 + k
  }

  /** The block after `remove_dir_entry`: the record before swallows the one removed; the
      first record of a block is only marked unused. */
  function Removed(b: Block, name: seq<Byte>): Option<Block> {
    ParseShaped(b, 0);
    var rs := Parse(b, 0);
    var k := FirstNamed(rs, name);
    if k == |rs| then None else
    if k == 0 then Some(W32(b, 0, 0)) else
    RecordAt(b, k - 1);
    Some(W16(b, OffAt(b, 0, k - 1) + 4, rs[k - 1].len + rs[k].len))
  }

  /** Record `k - 1` grown over record `k`. */
  function Swallow(b: Block, k: nat): (q: Rec)
    requires 0 < k < |Parse(b, 0)|
    ensures var p := Parse(b, 0)[k - 1];
            && q.inode == p.inode && q.nameLen == p.nameLen && q.ftype == p.ftype
            && q.len == p.len + Parse(b, 0)[k].len && |q.body| == q.len - 8
            && 8 <= p.len && |p.body| == p.len - 8 && p.len <= q.len && q.body[..p.len - 8] == p.body
  {
    Neighbours(b, k);
    var o, p := OffAt(b, 0, k - 1), Parse(b, 0)[k - 1];
    var n := p.len + Parse(b, 0)[k].len;
    p.(len := n, body := b[o + 8..o + n])
  }

  /** Two records side by side. */
  lemma Neighbours(b: Block, k: nat)
    requires 0 < k < |Parse(b, 0)|
    ensures var rs := Parse(b, 0); var o, p, n := OffAt(b, 0, k - 1), rs[k - 1], rs[k - 1].len + rs[k].len;
            && 8 <= p.len <= n && o + n <= SIZE && |p.body| == p.len - 8 && b[o + 8..o + n][..p.len - 8] == p.body
  {
    hide Parse, OffAt, Good, R16, R32;
    RecordAt(b, k - 1);
    RecordAt(b, k);
  }

  /** Rewriting a record's length alone. */
  lemma GrowRecord(b: Block, o: nat, n: nat)
    requires Good(b, o) && RecAt(b, o).len <= n && o + n <= SIZE
    ensures var b' := W16(b, o + 4, n);
            && Good(b', o) && RecAt(b', o) == RecAt(b, o).(len := n, body := b[o + 8..o + n])
            && (forall i :: 0 <= i < SIZE && (i < o || o + n <= i) ==> b'[i] == b[i])
  {
    var b' := W16(b, o + 4, n);
    assert R16(b', o + 4) == n;
    assert R32(b', o) == R32(b, o);
    assert b'[o + 8..o + n] == b[o + 8..o + n];
  }

  lemma SwallowParses(b: Block, k: nat)
    requires 0 < k < |Parse(b, 0)|
    ensures var rs := Parse(b, 0); var o := OffAt(b, 0, k - 1); var n := rs[k - 1].len + rs[k].len;
            && o + n <= SIZE && 8 <= n
            && Parse(W16(b, o + 4, n), 0) == rs[..k - 1] + [Swallow(b, k)] + rs[k + 1..]
  {
    hide Parse, OffAt, W16, RecAt, Good;
    RecordAt(b, k - 1);
    RecordAt(b, k);
    var rs, o := Parse(b, 0), OffAt(b, 0, k - 1);
    var n := rs[k - 1].len + rs[k].len;
    var b' := W16(b, o + 4, n);
    GrowRecord(b, o, n);
    OneRecord(b', o);
    ParsePrefix(b, b', 0, k - 1);
    ParseFrame(b, b', o + n);
  }

  lemma UnuseRecord(b: Block)
    requires Good(b, 0)
    ensures var b' := W32(b, 0, 0);
            && Good(b', 0) && RecAt(b', 0) == RecAt(b, 0).(inode := 0)
            && (forall i :: 4 <= i < SIZE ==> b'[i] == b[i])
  {
    var b', n := W32(b, 0, 0), RecAt(b, 0).len;
    assert b'[8..n] == b[8..n];
  }

  lemma UnuseParses(b: Block)
    requires |Parse(b, 0)| > 0
    ensures var r := Parse(b, 0)[0];
            Parse(W32(b, 0, 0), 0) == [r.(inode := 0)] + Parse(b, 0)[1..]
  {
    hide W32, RecAt, Good;
    assert Good(b, 0);
    var b' := W32(b, 0, 0);
    UnuseRecord(b);
    OneRecord(b, 0);
    OneRecord(b', 0);
    ParseFrame(b, b', RecAt(b, 0).len);
  }

  /** The name of a live record lies inside the record. */
  predicate Sound(r: Rec) { r.inode != 0 ==> 8 + r.nameLen <= r.len }

  lemma {:induction false} EntriesBefore(rs: seq<Rec>, k: nat, name: seq<Byte>)
    requires Shaped(rs) && k <= |rs| && forall i :: 0 <= i < k ==> !Named(rs[i], name)
    ensures forall i :: 0 <= i < |Entries(rs[..k])| ==> Entries(rs[..k])[i].name != name
  {
    if k > 0 {
      EntriesBefore(rs, k - 1, name);
      assert rs[..k][..k - 1] == rs[..k - 1];
      assert !Named(rs[k - 1], name);
    }
  }

  lemma FindNameIs(es: seq<Entry>, name: seq<Byte>, k: nat)
    requires k <= |es| && (forall i :: 0 <= i < k ==> es[i].name != name) && (k < |es| ==> es[k].name == name)
    ensures FindName(es, name) == k
  {
  }

  /** Where the first match sits in the listing. */
  lemma FirstNamedShows(b: Block, name: seq<Byte>)
    ensures Shaped(Parse(b, 0))
    ensures var rs := Parse(b, 0); var k := FirstNamed(rs, name);
            && FindName(Listing(b), name) == |Entries(rs[..k])|
            && (k < |rs| <==> FindName(Listing(b), name) < |Listing(b)|)
            && (k < |rs| ==> Listing(b)[FindName(Listing(b), name)] == EntryOf(rs[k])[0] && |EntryOf(rs[k])| == 1)
  {
    hide Parse, Entries;
    ParseShaped(b, 0);
    var rs := Parse(b, 0);
    var k := FirstNamed(rs, name);
    EntriesBefore(rs, k, name);
    if k == |rs| {
      assert rs[..k] == rs;
      FindNameIs(Listing(b), name, |Listing(b)|);
    } else {
      assert rs == rs[..k] + [rs[k]] + rs[k + 1..];
      EntriesReplace(rs[..k], rs[k], rs[k + 1..]);
      FindNameIs(Listing(b), name, |Entries(rs[..k])|);
    }
  }

  function Without(es: seq<Entry>, k: nat): seq<Entry>
    requires k < |es|
  {
    es[..k] + es[k + 1..]
  }

  /** `remove_dir_entry` as a caller sees it: it fails exactly when the name is not listed;
      else exactly the first entry of that name goes, if and only if the record before
      it is not one whose name overran its record and would now fit. */
  lemma RemoveDeletes(b: Block, name: seq<Byte>)
    ensures Shaped(Parse(b, 0))
    ensures Removed(b, name).None? <==> FindName(Listing(b), name) == |Listing(b)|
    ensures var rs := Parse(b, 0); var k := FirstNamed(rs, name);
            Removed(b, name).Some? ==>
              (Listing(Removed(b, name).value) == Without(Listing(b), FindName(Listing(b), name)) <==>
               (k > 0 ==> Visible(Swallow(b, k)) == Visible(rs[k - 1])))
  {
    hide Parse, OffAt, Entries, Swallow, Visible, EntryOf, Listing, Without, W16, W32, FindName;
    FirstNamedShows(b, name);
    var rs := Parse(b, 0);
    var k := FirstNamed(rs, name);
    if k < |rs| {
      ListingWithout(b, name);
      if k == 0 {
        UnuseShows(b);
        EntriesEmpty();
        assert rs[..0] == [];
      } else {
        RecordAt(b, k - 1);
        SwallowLists(b, k);
      }
    }
  }

  /** The listing without the first entry of the name, record by record. */
  lemma ListingWithout(b: Block, name: seq<Byte>)
    requires Shaped(Parse(b, 0)) && FirstNamed(Parse(b, 0), name) < |Parse(b, 0)|
    ensures var rs := Parse(b, 0); var k := FirstNamed(rs, name); var f := FindName(Listing(b), name);
            f < |Listing(b)| && Without(Listing(b), f) == Entries(rs[..k]) + Entries(rs[k + 1..])
  {
    hide Parse, Entries, EntryOf, FindName;
    FirstNamedShows(b, name);
    var rs := Parse(b, 0);
    var k := FirstNamed(rs, name);
    assert rs == rs[..k] + [rs[k]] + rs[k + 1..];
    EntriesReplace(rs[..k], rs[k], rs[k + 1..]);
    assert Listing(b) == Entries(rs[..k]) + EntryOf(rs[k]) + Entries(rs[k + 1..]);
  }

  /** What is listed when record `k - 1` has swallowed record `k`. */
  lemma SwallowLists(b: Block, k: nat)
    requires 0 < k < |Parse(b, 0)| && Shaped(Parse(b, 0))
    ensures var rs := Parse(b, 0); var o := OffAt(b, 0, k - 1); var n := rs[k - 1].len + rs[k].len;
            && o + n <= SIZE && 8 <= n
            && (Listing(W16(b, o + 4, n)) == Entries(rs[..k]) + Entries(rs[k + 1..]) <==>
                Visible(Swallow(b, k)) == Visible(rs[k - 1]))
  {
    hide Parse, OffAt, Entries, Swallow, Visible, EntryOf, W16;
    var rs, p, q := Parse(b, 0), Parse(b, 0)[k - 1], Swallow(b, k);
    SwallowParses(b, k);
    SwallowShows(b, k);
    assert rs[..k] == rs[..k - 1] + [p] + [];
    EntriesEmpty();
    EntriesReplace(rs[..k - 1], p, []);
    EntriesReplace(rs[..k - 1], q, rs[k + 1..]);
    ParseShaped(W16(b, OffAt(b, 0, k - 1) + 4, p.len + rs[k].len), 0);
    var x, z := Entries(rs[..k - 1]), Entries(rs[k + 1..]);
    assert |x + EntryOf(q) + z| == |x| + |EntryOf(q)| + |z|;
  }

  lemma UnuseShows(b: Block)
    requires |Parse(b, 0)| > 0
    ensures Shaped(Parse(b, 0)) && Listing(W32(b, 0, 0)) == Entries(Parse(b, 0)[1..])
  {
    hide Parse, Entries;
    ParseShaped(b, 0);
    UnuseParses(b);
    var r, rest := Parse(b, 0)[0].(inode := 0), Parse(b, 0)[1..];
    EntriesOne(r);
    EntriesConcat([r], rest);
  }

  lemma SwallowShows(b: Block, k: nat)
    requires 0 < k < |Parse(b, 0)|
    ensures var p, q := Parse(b, 0)[k - 1], Swallow(b, k);
            && |p.body| == p.len - 8 && |q.body| == q.len - 8
            && |EntryOf(p)| == (if Visible(p) then 1 else 0) && |EntryOf(q)| == (if Visible(q) then 1 else 0)
            && (Visible(p) == Visible(q) ==> EntryOf(q) == EntryOf(p))
  {
    hide Parse, OffAt, Swallow;
    RecordAt(b, k - 1);
    SwallowParses(b, k);
    var p, q := Parse(b, 0)[k - 1], Swallow(b, k);
    if Visible(p) { assert q.body[..p.len - 8][..p.nameLen] == q.body[..p.nameLen]; }
  }

  // ----- The chain stays whole --------------------------------------------

  function TotalLen(rs: seq<Rec>): nat { if rs == [] then 0 else TotalLen(rs[..|rs| - 1]) + rs[|rs| - 1].len }

  ghost predicate AllFine(rs: seq<Rec>) { forall k :: 0 <= k < |rs| ==> rs[k].len % 4 == 0 && Sound(rs[k]) }

  /** The records tile the block exactly, in multiples of four bytes, and each live
      record holds its own name. */
  ghost predicate Tiled(b: Block) { AllFine(Parse(b, 0)) && TotalLen(Parse(b, 0)) == SIZE }

  lemma {:induction false} TotalLenConcat(a: seq<Rec>, c: seq<Rec>)
    ensures TotalLen(a + c) == TotalLen(a) + TotalLen(c)
    decreases |c|
  {
    if c == [] {
      assert a + c == a;
    } else {
      TotalLenConcat(a, c[..|c| - 1]);
      assert (a + c)[..|a + c| - 1] == a + c[..|c| - 1];
    }
  }

  lemma TotalLenOne(r: Rec)
    ensures TotalLen([r]) == r.len
  {
    assert [r][..0] == [];
  }

  lemma Round4Facts(n: nat)
    ensures n <= Round4(n) < n + 4 && Round4(n) % 4 == 0
  {
  }

  /** Replacing one stretch of records by another of the same length. */
  lemma TiledReplace(a: seq<Rec>, old_: seq<Rec>, new_: seq<Rec>, c: seq<Rec>)
    requires AllFine(a + old_ + c) && AllFine(new_) && TotalLen(old_) == TotalLen(new_)
    ensures AllFine(a + new_ + c) && TotalLen(a + new_ + c) == TotalLen(a + old_ + c)
  {
    hide TotalLen, Sound;
    TotalLenConcat(a + old_, c);
    TotalLenConcat(a, old_);
    TotalLenConcat(a + new_, c);
    TotalLenConcat(a, new_);
    var rs, rs' := a + old_ + c, a + new_ + c;
    forall k | 0 <= k < |rs'| ensures rs'[k].len % 4 == 0 && Sound(rs'[k]) {
      if k < |a| {
        assert rs'[k] == rs[k];
      } else if k < |a| + |new_| {
        assert rs'[k] == new_[k - |a|];
      } else {
        assert rs'[k] == rs[k - |new_| + |old_|];
      }
    }
  }

  lemma NewRecsTile(r: Rec, inode: nat, ftype: Byte, name: seq<Byte>)
    requires |r.body| == r.len - 8 && r.len >= 8 && CanHold(r, Needed(name)) && r.len % 4 == 0 && Sound(r)
    ensures AllFine(NewRecs(r, inode, ftype, name)) && TotalLen(NewRecs(r, inode, ftype, name)) == r.len
  {
    var new_ := NewRecs(r, inode, ftype, name);
    hide TotalLen, Round4;
    Round4Facts(8 + |name|);
    Round4Facts(8 + r.nameLen);
    if r.inode == 0 {
      TotalLenOne(new_[0]);
    } else {
      assert new_ == [new_[0]] + [new_[1]];
      TotalLenConcat([new_[0]], [new_[1]]);
      TotalLenOne(new_[0]);
      TotalLenOne(new_[1]);
    }
  }

  lemma AddTiles(b: Block, inode: nat, ftype: Byte, name: seq<Byte>)
    requires Tiled(b) && inode < 0x1_0000_0000 && Added(b, inode, ftype, name).Some?
    ensures Tiled(Added(b, inode, ftype, name).value)
  {
    hide Parse, Added, NewRecs, TotalLen;
    var rs := Parse(b, 0);
    var k := FirstHolder(rs, Needed(name));
    AddParses(b, inode, ftype, name);
    NewRecsTile(rs[k], inode, ftype, name);
    TotalLenOne(rs[k]);
    assert rs == rs[..k] + [rs[k]] + rs[k + 1..];
    TiledReplace(rs[..k], [rs[k]], NewRecs(rs[k], inode, ftype, name), rs[k + 1..]);
  }

  lemma UnuseTiles(b: Block)
    requires Tiled(b) && |Parse(b, 0)| > 0
    ensures Tiled(W32(b, 0, 0))
  {
    hide Parse, TotalLen, W32;
    UnuseParses(b);
    var rs := Parse(b, 0);
    var r, u, rest := rs[0], rs[0].(inode := 0), rs[1..];
    TotalLenOne(r);
    TotalLenOne(u);
    assert rs == [] + [r] + rest && [] + [u] + rest == [u] + rest;
    TiledReplace([], [r], [u], rest);
  }

  lemma SwallowTiles(b: Block, k: nat)
    requires Tiled(b) && 0 < k < |Parse(b, 0)|
    ensures var o := OffAt(b, 0, k - 1); var n := Parse(b, 0)[k - 1].len + Parse(b, 0)[k].len;
            o + n <= SIZE && 8 <= n && Tiled(W16(b, o + 4, n))
    ensures Visible(Swallow(b, k)) == Visible(Parse(b, 0)[k - 1])
  {
    hide Parse, OffAt, TotalLen, Swallow, W16;
    SwallowParses(b, k);
    var rs := Parse(b, 0);
    var p, r, q := rs[k - 1], rs[k], Swallow(b, k);
    TotalLenConcat([p], [r]);
    TotalLenOne(p);
    TotalLenOne(r);
    TotalLenOne(q);
    assert rs == rs[..k - 1] + ([p] + [r]) + rs[k + 1..];
    TiledReplace(rs[..k - 1], [p] + [r], [q], rs[k + 1..]);
  }

  lemma RemoveTiles(b: Block, name: seq<Byte>)
    requires Tiled(b) && Removed(b, name).Some?
    ensures Tiled(Removed(b, name).value) && FindName(Listing(b), name) < |Listing(b)|
    ensures Listing(Removed(b, name).value) == Without(Listing(b), FindName(Listing(b), name))
  {
    hide Parse, OffAt, Tiled, Swallow, W16, W32, Listing, FindName, Without, Visible;
    RemoveDeletes(b, name);
    var k := FirstNamed(Parse(b, 0), name);
    if k == 0 { UnuseTiles(b); } else { SwallowTiles(b, k); }
  }

  // ----- From an empty directory ------------------------------------------

  const FT_DIR: Byte := 2

  function Dot(): seq<Byte> { [46] }
  function DotDot(): seq<Byte> { [46, 46] }

  function ZeroBlock(): (b: Block)
    ensures forall i :: 0 <= i < SIZE ==> b[i] == 0
  {
    seq(1024, _ => 0)
  }

  /** `init_dir_block`. */
  function InitBlock(dir: nat, parent: nat): Block {
    WriteEntry(WriteEntry(ZeroBlock(), 0, dir, 12, FT_DIR, Dot()), 12, parent, 1012, FT_DIR, DotDot())
  }

  lemma InitParses(dir: nat, parent: nat)
    requires dir < 0x1_0000_0000 && parent < 0x1_0000_0000
    ensures var b := InitBlock(dir, parent);
            && Good(b, 0) && Good(b, 12) && Parse(b, 0) == [RecAt(b, 0), RecAt(b, 12)]
            && RecAt(b, 0) == Rec(dir, 12, 1, FT_DIR, b[8..12]) && b[8..9] == Dot()
            && RecAt(b, 12) == Rec(parent, 1012, 2, FT_DIR, b[20..1024]) && b[20..22] == DotDot()
  {
    hide WriteEntry;
    var b1 := WriteEntry(ZeroBlock(), 0, dir, 12, FT_DIR, Dot());
    WriteEntryReads(ZeroBlock(), 0, dir, 12, FT_DIR, Dot());
    var b := InitBlock(dir, parent);
    WriteEntryReads(b1, 12, parent, 1012, FT_DIR, DotDot());
    assert R32(b, 0) == R32(b1, 0) && R16(b, 4) == R16(b1, 4);
    assert b[8..9] == b1[8..9];
    OneRecord(b, 0);
    OneRecord(b, 12);
    assert Parse(b, 1024) == [];
  }

  /** A new directory block is whole and lists exactly itself and its parent. */
  lemma InitIsTiled(dir: nat, parent: nat)
    requires 0 < dir < 0x1_0000_0000 && 0 < parent < 0x1_0000_0000
    ensures var b := InitBlock(dir, parent);
            Tiled(b) && Listing(b) == [Entry(dir, FT_DIR, Dot()), Entry(parent, FT_DIR, DotDot())]
  {
    hide Parse, InitBlock;
    var b := InitBlock(dir, parent);
    InitParses(dir, parent);
    var p, q := RecAt(b, 0), RecAt(b, 12);
    assert [p, q] == [p] + [q];
    TotalLenConcat([p], [q]);
    TotalLenOne(p);
    TotalLenOne(q);
    EntriesOne(p);
    EntriesOne(q);
    EntriesConcat([p], [q]);
    assert p.body[..1] == b[8..9] && q.body[..2] == b[20..22];
  }

  /** A new directory block in which the length of the first name says 20. */
  function OverrunBlock(): Block { InitBlock(1, 1)[6 := 20] }

  lemma OverrunParses()
    ensures var b := OverrunBlock();
            && Parse(b, 0) == [Rec(1, 12, 20, FT_DIR, b[8..12]), Rec(1, 1012, 2, FT_DIR, b[20..1024])]
            && b[20..22] == DotDot()
  {
    hide InitBlock;
    var b0, b := InitBlock(1, 1), OverrunBlock();
    InitParses(1, 1);
    assert R32(b, 0) == R32(b0, 0) && R16(b, 4) == R16(b0, 4);
    assert R32(b, 12) == R32(b0, 12) && R16(b, 16) == R16(b0, 16);
    assert b[20..22] == b0[20..22];
    OneRecord(b, 0);
    OneRecord(b, 12);
    assert Parse(b, 1024) == [];
  }

  /** Removing `..` from it grows the first record until its overlong name fits: an entry
      appears that was not listed before. */
  lemma OverrunRecordAppears()
    ensures var b := OverrunBlock(); var k := FindName(Listing(b), DotDot());
            && Removed(b, DotDot()).Some? && k < |Listing(b)|
            && Listing(Removed(b, DotDot()).value) != Without(Listing(b), k)
  {
    var b, rs := OverrunBlock(), Parse(OverrunBlock(), 0);
    OverrunParses();
    ParseShaped(b, 0);
    assert rs[1].body[..2] == b[20..22];
    FirstNamedIs(rs, DotDot(), 1);
    hide Parse, OverrunBlock, Listing, Swallow, Removed, Without;
    RemoveDeletes(b, DotDot());
    FirstNamedShows(b, DotDot());
    var q := Swallow(b, 1);
    assert Visible(q) && !Visible(rs[0]);
  }

  datatype Event = Add(inode: nat, ftype: Byte, name: seq<Byte>) | Remove(name: seq<Byte>)

  function Apply(b: Block, e: Event): Block {
    match e
    case Add(inode, ftype, name) => (match Added(b, inode, ftype, name) case None => b case Some(b') => b')
    case Remove(name) => (match Removed(b, name) case None => b case Some(b') => b')
  }

  /** What the caller is told: whether the entry was added, or the inode removed. */
  datatype Answer = Done(ok: bool) | Gone(inode: Option<nat>)

  function AnswerTo(b: Block, e: Event): Answer {
    match e
    case Add(inode, ftype, name) => Done(Added(b, inode, ftype, name).Some?)
    case Remove(name) =>
      var es := Listing(b);
      var k := FindName(es, name);
      Gone(if k < |es| then Some(es[k].inode) else None)
  }

  /** The same event on an ordered list of entries, with the same answer. */
  ghost predicate ListStep(es: seq<Entry>, e: Event, a: Answer, es': seq<Entry>) {
    match e
    case Add(inode, ftype, name) =>
      && a.Done?
      && if a.ok then exists p :: 0 <= p <= |es| && es' == es[..p] + Shown(inode, ftype, name) + es[p..] else es' == es
    case Remove(name) =>
      var k := FindName(es, name);
      if k < |es| then a == Gone(Some(es[k].inode)) && es' == Without(es, k) else a == Gone(None) && es' == es
  }

  /** Some record can hold an entry of that name. */
  ghost predicate HasRoom(b: Block, name: seq<Byte>) {
    exists k :: 0 <= k < |Parse(b, 0)| && CanHold(Parse(b, 0)[k], Needed(name))
  }

  /** An entry is refused only when no record can hold it, and the block then stays as it
      is, byte for byte. */
  ghost predicate HonestAnswer(b: Block, e: Event) {
    e.Add? ==> (AnswerTo(b, e).ok <==> HasRoom(b, e.name)) && (!AnswerTo(b, e).ok ==> Apply(b, e) == b)
  }

  predicate Fits32(e: Event) { e.Add? ==> e.inode < 0x1_0000_0000 }

  ghost predicate Runs(b: Block, es: seq<Event>, b': Block)
    decreases |es|
  {
    if es == [] then b' == b else Fits32(es[0]) && Runs(Apply(b, es[0]), es[1..], b')
  }

  /** The answers given along a run. */
  function Answers(b: Block, es: seq<Event>): (as_: seq<Answer>)
    ensures |as_| == |es|
    decreases |es|
  {
    if es == [] then [] else [AnswerTo(b, es[0])] + Answers(Apply(b, es[0]), es[1..])
  }

  ghost predicate HonestRun(b: Block, es: seq<Event>)
    decreases |es|
  {
    es == [] || (HonestAnswer(b, es[0]) && HonestRun(Apply(b, es[0]), es[1..]))
  }

  ghost predicate ListRuns(l: seq<Entry>, es: seq<Event>, as_: seq<Answer>, l': seq<Entry>)
    requires |as_| == |es|
    decreases |es|
  {
    if es == [] then l' == l
    else exists l1 :: ListStep(l, es[0], as_[0], l1) && ListRuns(l1, es[1..], as_[1..], l')
  }

  lemma AddIsHonest(b: Block, inode: nat, ftype: Byte, name: seq<Byte>)
    requires inode < 0x1_0000_0000
    ensures Added(b, inode, ftype, name).Some? <==> HasRoom(b, name)
  {
    hide Parse, Added, CanHold;
    AddParses(b, inode, ftype, name);
    var rs := Parse(b, 0);
    var k := FirstHolder(rs, Needed(name));
    if k < |rs| { assert CanHold(rs[k], Needed(name)); }
  }

  lemma StepRefines(b: Block, e: Event)
    requires Tiled(b) && Fits32(e)
    ensures Tiled(Apply(b, e)) && ListStep(Listing(b), e, AnswerTo(b, e), Listing(Apply(b, e))) && HonestAnswer(b, e)
  {
    hide Parse, Added, Removed, Tiled, Listing, HasRoom, Without;
    match e
    case Add(inode, ftype, name) =>
      AddInserts(b, inode, ftype, name);
      AddIsHonest(b, inode, ftype, name);
      if Added(b, inode, ftype, name).Some? { AddTiles(b, inode, ftype, name); }
    case Remove(name) =>
      RemoveDeletes(b, name);
      if Removed(b, name).Some? { RemoveTiles(b, name); }
  }

  /** A directory block refines an ordered list: from a whole block, any sequence of adds
      and removes keeps the block whole, does to the listing what it would do to a list,
      with the answers the list would give, and refuses an entry only when no record can
      hold it. */
  lemma {:induction false} BlockRefinesList(b: Block, es: seq<Event>, b': Block)
    requires Tiled(b) && Runs(b, es, b')
    ensures Tiled(b') && ListRuns(Listing(b), es, Answers(b, es), Listing(b')) && HonestRun(b, es)
    decreases |es|
  {
    hide Tiled, Listing, Apply, ListStep, AnswerTo, HonestAnswer;
    if es != [] {
      StepRefines(b, es[0]);
      BlockRefinesList(Apply(b, es[0]), es[1..], b');
      assert Answers(b, es)[1..] == Answers(Apply(b, es[0]), es[1..]);
    }
  }

  lemma InsertThenFind(l: seq<Entry>, p: nat, e: Entry, l': seq<Entry>)
    requires p <= |l| && FindName(l, e.name) == |l| && l' == l[..p] + [e] + l[p..]
    ensures FindName(l', e.name) == p && p < |l'| && Without(l', p) == l
  {
    FindNameIs(l', e.name, p);
    assert l'[..p] == l[..p] && l'[p + 1..] == l[p..];
    assert l[..p] + l[p..] == l;
  }

  /** Removing what was just added, under a name not listed before, restores the listing. */
  lemma AddThenRemove(b: Block, inode: nat, ftype: Byte, name: seq<Byte>)
    requires Tiled(b) && 0 < inode < 0x1_0000_0000 && 1 <= |name| <= 255
    requires FindName(Listing(b), name) == |Listing(b)| && Added(b, inode, ftype, name).Some?
    ensures var b1 := Added(b, inode, ftype, name).value;
            Removed(b1, name).Some? && Listing(Removed(b1, name).value) == Listing(b)
  {
    hide Parse, Added, Removed, Tiled, Listing, FindName, Without, Swallow, Visible, FirstNamed, AddPosition;
    var b1, p := Added(b, inode, ftype, name).value, AddPosition(b, name);
    AddInserts(b, inode, ftype, name);
    AddTiles(b, inode, ftype, name);
    assert name[..|name| % 256] == name;
    InsertThenFind(Listing(b), p, Entry(inode, ftype, name), Listing(b1));
    RemoveDeletes(b1, name);
    RemoveTiles(b1, name);
  }

  // ----- The driver as it runs ---------------------------------------------

  method Put16(block: array<Byte>, o: nat, v: nat)
    requires block.Length == SIZE && o + 2 <= SIZE
    modifies block
    ensures block[..] == W16(old(block[..]), o, v)
  {
    block[o], block[o + 1] := v % 256, v / 256 % 256;
  }

  method Put32(block: array<Byte>, o: nat, v: nat)
    requires block.Length == SIZE && o + 4 <= SIZE
    modifies block
    ensures block[..] == W32(old(block[..]), o, v)
  {
    block[o], block[o + 1] := v % 256, v / 256 % 256;
    block[o + 2], block[o + 3] := v / 65536 % 256, v / 16777216 % 256;
  }

  method CopyName(block: array<Byte>, o: nat, name: seq<Byte>)
    requires block.Length == SIZE && o + |name| <= SIZE
    modifies block
    ensures block[..] == CopyInto(old(block[..]), o, name)
  {
    for i := 0 to |name|
      invariant block[..] == CopyInto(old(block[..]), o, name[..i])
    {
      block[o + i] := name[i];
    }
    assert name[..|name|] == name;
  }

  method WriteDirEntry(block: array<Byte>, o: nat, inode: nat, len: nat, ftype: Byte, name: seq<Byte>)
    requires block.Length == SIZE && o + 8 + |name| <= SIZE
    modifies block
    ensures block[..] == WriteEntry(old(block[..]), o, inode, len, ftype, name)
  {
    hide W32, W16, CopyInto;
    Put32(block, o, inode);
    Put16(block, o + 4, len);
    ghost var b: Block := block[..];
    block[o + 6] := |name| % 256;
    ghost var b1: Block := block[..];
    block[o + 7] := ftype;
    ghost var b2: Block := block[..];
    assert b1 == b[o + 6 := |name| % 256] && b2 == b1[o + 7 := ftype];
    CopyName(block, o + 8, name);
  }

  method InitDirBlock(block: array<Byte>, dir: nat, parent: nat)
    requires block.Length == SIZE
    modifies block
    ensures block[..] == InitBlock(dir, parent)
  {
    for i := 0 to SIZE
      invariant forall k :: 0 <= k < i ==> block[k] == 0
    {
      block[i] := 0;
    }
    assert block[..] == ZeroBlock();
    WriteDirEntry(block, 0, dir, 12, FT_DIR, Dot());
    WriteDirEntry(block, 12, parent, 1012, FT_DIR, DotDot());
  }

  /** The driver's walk, over any block: exactly the listing, in order. */
  method ReadDirEntries(block: array<Byte>) returns (es: seq<Entry>)
    requires block.Length == SIZE
    ensures es == Listing(block[..])
  {
    hide Parse, OffAt, Entries, EntryOf;
    var off := 0;
    es := [];
    ghost var k, b: Block := 0, block[..];
    ghost var rs := Parse(b, 0);
    ParseShaped(b, 0);
    ChainStart(b);
    while off + 8 <= SIZE
      invariant k <= |rs| && off == OffAt(b, 0, k) && es == Entries(rs[..k])
      decreases SIZE - off
    {
      var len := R16(block[..], off + 4);
      ChainStep(b, k);
      if len < 8 || off + len > SIZE { break; }
      var inode := R32(block[..], off);
      var nameLen: nat, ftype := block[off + 6], block[off + 7];
      WalkStep(b, k);
      EntryAt(b, off);
      if inode != 0 && nameLen > 0 && off + 8 + nameLen <= off + len {
        es := es + [Entry(inode, ftype, block[off + 8..off + 8 + nameLen])];
      }
      off := off + len;
      k := k + 1;
    }
    ChainStep(b, k);
    assert rs[..|rs|] == rs;
  }

  lemma ChainStart(b: Block)
    ensures OffAt(b, 0, 0) == 0 && Shaped(Parse(b, 0)) && Entries(Parse(b, 0)[..0]) == []
  {
    ParseShaped(b, 0);
  }

  /** The loop is at the end of the chain exactly when the record there is not good. */
  lemma ChainStep(b: Block, k: nat)
    requires k <= |Parse(b, 0)|
    ensures k < |Parse(b, 0)| <==> Good(b, OffAt(b, 0, k))
    ensures k < |Parse(b, 0)| ==> RecAt(b, OffAt(b, 0, k)) == Parse(b, 0)[k]
    ensures k < |Parse(b, 0)| ==> OffAt(b, 0, k + 1) == OffAt(b, 0, k) + Parse(b, 0)[k].len
  {
    ParseFrom(b, 0, k);
    if k < |Parse(b, 0)| { RecordAt(b, k); }
  }

  lemma WalkStep(b: Block, k: nat)
    requires k < |Parse(b, 0)|
    ensures Shaped(Parse(b, 0))
    ensures Entries(Parse(b, 0)[..k + 1]) == Entries(Parse(b, 0)[..k]) + EntryOf(Parse(b, 0)[k])
  {
    hide Parse, EntryOf;
    ParseShaped(b, 0);
    assert Parse(b, 0)[..k + 1][..k] == Parse(b, 0)[..k];
  }

  lemma EntryAt(b: Block, o: nat)
    requires Good(b, o)
    ensures var r := RecAt(b, o);
            && (8 + r.nameLen <= r.len ==> r.body[..r.nameLen] == b[o + 8..o + 8 + r.nameLen])
            && EntryOf(r) == if r.inode != 0 && r.nameLen > 0 && 8 + r.nameLen <= r.len
                             then [Entry(r.inode, r.ftype, b[o + 8..o + 8 + r.nameLen])] else []
  {
    var r := RecAt(b, o);
    if 8 + r.nameLen <= r.len { assert r.body[..r.nameLen] == b[o + 8..o + 8 + r.nameLen]; }
  }

  method FindDirEntry(block: array<Byte>, target: seq<Byte>) returns (found: Option<(nat, Byte)>)
    requires block.Length == SIZE
    ensures var es := Listing(block[..]); var k := FindName(es, target);
            found == if k < |es| then Some((es[k].inode, es[k].ftype)) else None
  {
    var es := ReadDirEntries(block);
    found := None;
    for i := 0 to |es|
      invariant found.None? ==> forall k :: 0 <= k < i ==> es[k].name != target
      invariant found.Some? ==> FindName(es, target) < |es| && found == Some((es[FindName(es, target)].inode, es[FindName(es, target)].ftype))
    {
      if found.None? && es[i].name == target {
        FindNameIs(es, target, i);
        found := Some((es[i].inode, es[i].ftype));
      }
    }
    if found.None? { FindNameIs(es, target, |es|); }
  }

  /** The search loop of `add_dir_entry`: the first record that can hold the entry. */
  method FindHolder(block: array<Byte>, needed: nat) returns (at: Option<nat>)
    requires block.Length == SIZE
    ensures var k := FirstHolder(Parse(block[..], 0), needed);
            at == if k < |Parse(block[..], 0)| then Some(OffAt(block[..], 0, k)) else None
  {
    hide Parse, OffAt;
    var off := 0;
    ghost var k: nat := 0;
    ghost var b: Block := block[..];
    ghost var rs := Parse(b, 0);
    ChainStart(b);
    while off + 8 <= SIZE
      invariant k <= |rs| && off == OffAt(b, 0, k)
      invariant forall i :: 0 <= i < k ==> !CanHold(rs[i], needed)
      decreases SIZE - off
    {
      var len := R16(block[..], off + 4);
      ChainStep(b, k);
      if len < 8 || off + len > SIZE { break; }
      var inUse := R32(block[..], off);
      var nameLen: nat := block[off + 6];
      var actual := if inUse == 0 then 0 else Round4(8 + nameLen);
      if len >= actual + needed {
        FirstHolderIs(rs, needed, k);
        return Some(off);
      }
      off := off + len;
      k := k + 1;
    }
    ChainStep(b, k);
    FirstHolderIs(rs, needed, k);
    return None;
  }

  method AddDirEntry(block: array<Byte>, inode: nat, ftype: Byte, name: seq<Byte>) returns (ok: bool)
    requires block.Length == SIZE
    modifies block
    ensures ok == Added(old(block[..]), inode, ftype, name).Some?
    ensures block[..] == if ok then Added(old(block[..]), inode, ftype, name).value else old(block[..])
  {
    hide Parse, OffAt, WriteEntry;
    var at := FindHolder(block, Round4(8 + |name|));
    if at.None? { return false; }
    ghost var b: Block := block[..];
    ghost var k := FirstHolder(Parse(b, 0), Needed(name));
    RecordAt(b, k);
    var off := at.value;
    var inUse, len := R32(block[..], off), R16(block[..], off + 4);
    if inUse == 0 {
      // An unused record takes the entry whole.
      WriteDirEntry(block, off, inode, len, ftype, name);
    } else {
      // A live one is cut to what it uses.
      var nameLen: nat := block[off + 6];
      var actual := Round4(8 + nameLen);
      Put16(block, off + 4, actual);
      WriteDirEntry(block, off + actual, inode, len - actual, ftype, name);
    }
    return true;
  }

  lemma FirstHolderIs(rs: seq<Rec>, needed: nat, k: nat)
    requires k <= |rs| && (forall i :: 0 <= i < k ==> !CanHold(rs[i], needed)) && (k < |rs| ==> CanHold(rs[k], needed))
    ensures FirstHolder(rs, needed) == k
  {
  }

  lemma FirstNamedIs(rs: seq<Rec>, name: seq<Byte>, k: nat)
    requires Shaped(rs) && k <= |rs| && (forall i :: 0 <= i < k ==> !Named(rs[i], name)) && (k < |rs| ==> Named(rs[k], name))
    ensures FirstNamed(rs, name) == k
  {
  }

  /** The search loop of `remove_dir_entry`: the first record of that name and the one before it. */
  method FindNamed(block: array<Byte>, target: seq<Byte>) returns (at: Option<nat>, prev: Option<nat>)
    requires block.Length == SIZE
    ensures Shaped(Parse(block[..], 0))
    ensures var k := FirstNamed(Parse(block[..], 0), target);
            && at == (if k < |Parse(block[..], 0)| then Some(OffAt(block[..], 0, k)) else None)
            && prev == if k == 0 then None else Some(OffAt(block[..], 0, k - 1))
  {
    hide Parse, OffAt;
    var off := 0;
    prev := None;
    ghost var k: nat := 0;
    ghost var b: Block := block[..];
    ghost var rs := Parse(b, 0);
    ChainStart(b);
    while off + 8 <= SIZE
      invariant k <= |rs| && off == OffAt(b, 0, k) && prev == if k == 0 then None else Some(OffAt(b, 0, k - 1))
      invariant forall i :: 0 <= i < k ==> !Named(rs[i], target)
      decreases SIZE - off
    {
      var len := R16(block[..], off + 4);
      ChainStep(b, k);
      if len < 8 || off + len > SIZE { break; }
      var inode := R32(block[..], off);
      var nameLen: nat := block[off + 6];
      EntryAt(b, off);
      if inode != 0 && nameLen > 0 && off + 8 + nameLen <= off + len && block[off + 8..off + 8 + nameLen] == target {
        FirstNamedIs(rs, target, k);
        return Some(off), prev;
      }
      prev, off := Some(off), off + len;
      k := k + 1;
    }
    ChainStep(b, k);
    FirstNamedIs(rs, target, k);
    return None, prev;
  }

  /** What the first match's record and the one before it say about the removal. */
  lemma RemovalReads(b: Block, name: seq<Byte>, k: nat)
    requires Shaped(Parse(b, 0)) && k == FirstNamed(Parse(b, 0), name)
    ensures k == |Parse(b, 0)| ==> Removed(b, name) == None && FindName(Listing(b), name) == |Listing(b)|
    ensures k < |Parse(b, 0)| ==>
              var o := OffAt(b, 0, k); var q := FindName(Listing(b), name);
              && o + 8 <= SIZE && q < |Listing(b)| && R32(b, o) == Listing(b)[q].inode
              && (k == 0 ==> o == 0 && Removed(b, name) == Some(W32(b, 0, 0)))
              && (k > 0 ==> var p := OffAt(b, 0, k - 1);
                            p + 8 <= SIZE && Removed(b, name) == Some(W16(b, p + 4, R16(b, p + 4) + R16(b, o + 4))))
  {
    hide Parse, OffAt, W16, W32, R16, R32, Listing, FindName, Entries, Good;
    FirstNamedShows(b, name);
    if k < |Parse(b, 0)| {
      HeaderAt(b, k);
      if k > 0 { HeaderAt(b, k - 1); } else { ChainStart(b); }
    }
  }

  lemma HeaderAt(b: Block, k: nat)
    requires k < |Parse(b, 0)|
    ensures var o, r := OffAt(b, 0, k), Parse(b, 0)[k];
            o + 8 <= SIZE && R32(b, o) == r.inode && R16(b, o + 4) == r.len
  {
    hide Parse, OffAt;
    RecordAt(b, k);
  }

  method RemoveDirEntry(block: array<Byte>, target: seq<Byte>) returns (gone: Option<nat>)
    requires block.Length == SIZE
    modifies block
    ensures gone.Some? == Removed(old(block[..]), target).Some?
    ensures block[..] == if gone.Some? then Removed(old(block[..]), target).value else old(block[..])
    ensures var es := Listing(old(block[..])); var k := FindName(es, target);
            gone == if k < |es| then Some(es[k].inode) else None
  {
    hide Parse, OffAt, W16, W32, R16, R32, Listing, FindName, FirstNamed, Removed, Shaped;
    ghost var b: Block := block[..];
    var at, prev := FindNamed(block, target);
    RemovalReads(b, target, FirstNamed(Parse(b, 0), target));
    if at.None? { return None; }
    var off := at.value;
    var inode, len := R32(block[..], off), R16(block[..], off + 4);
    if prev.Some? {
      var prevLen := R16(block[..], prev.value + 4);
      Put16(block, prev.value + 4, prevLen + len);
    } else {
      // No record before it: it only loses its inode.
      Put32(block, off, 0);
    }
    return Some(inode);
  }
}

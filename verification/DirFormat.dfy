/** The directory block on disk, byte by byte, and what the operations mean there.

    Everything is said of the bytes of a record's header: four of the inode number, two of
    the record's length, one of the name's length and one of the type, low bytes first, and
    the name after them.  None of the definitions the driver's functions are written with
    is used to say it. */
module DirFormat {
  import opened Options
  import opened Arith
  import opened DirBlock

  function InodeAt(b: Block, o: nat): nat
    requires o + 8 <= 1024
  {
    b[o] as int + 0x100 * (b[o + 1] as int) + 0x1_0000 * (b[o + 2] as int) + 0x100_0000 * (b[o + 3] as int)
  }

  function LenAt(b: Block, o: nat): nat
    requires o + 8 <= 1024
  {
    b[o + 4] as int + 0x100 * (b[o + 5] as int)
  }

  /** A header at `o` whose record stays inside the block. */
  predicate Record(b: Block, o: nat) { o + 8 <= 1024 && 8 <= LenAt(b, o) <= 1024 - o }

  /** The chain of records comes to `o`. */
  ghost predicate Starts(b: Block, o: nat)
    decreases o
  {
    o == 0 || exists p: nat :: p < o && Starts(b, p) && Record(b, p) && p + LenAt(b, p) == o
  }

  /** The record at `o` shows the entry: it is in use, has a name and the name fits. */
  ghost predicate Shows(b: Block, o: nat, e: Entry) {
    && Starts(b, o) && Record(b, o)
    && InodeAt(b, o) != 0 && b[o + 6] > 0 && 8 + b[o + 6] as int <= LenAt(b, o)
    && e == Entry(InodeAt(b, o), b[o + 7], b[o + 8..o + 8 + b[o + 6] as int])
  }

  // ----- The chain --------------------------------------------------------

  lemma RecordIsGood(b: Block, o: nat)
    ensures Record(b, o) <==> Good(b, o)
    ensures Good(b, o) ==>
              RecAt(b, o) == Rec(InodeAt(b, o), LenAt(b, o), b[o + 6], b[o + 7], b[o + 8..o + LenAt(b, o)])
  {
  }

  lemma {:induction false} OffsetStarts(b: Block, k: nat)
    requires k <= |Parse(b, 0)|
    ensures Starts(b, OffAt(b, 0, k))
  {
    hide Parse, OffAt, RecAt, Good, Record, LenAt, InodeAt;
    if k == 0 {
      ChainStart(b);
    } else {
      OffsetStarts(b, k - 1);
      RecordAt(b, k - 1);
      var p := OffAt(b, 0, k - 1);
      RecordIsGood(b, p);
      assert p + LenAt(b, p) == OffAt(b, 0, k) && p < OffAt(b, 0, k) by { PositiveLength(b, p); }
    }
  }

  lemma PositiveLength(b: Block, p: nat)
    requires Good(b, p)
    ensures RecAt(b, p).len == LenAt(b, p) >= 8
  {
  }

  lemma {:induction false} StartHasOffset(b: Block, o: nat) returns (k: nat)
    requires Starts(b, o)
    ensures k <= |Parse(b, 0)| && OffAt(b, 0, k) == o
    decreases o
  {
    hide Parse, OffAt, RecAt, Good, LenAt, InodeAt;
    if o == 0 {
      ChainStart(b);
      k := 0;
    } else {
      var p: nat :| p < o && Starts(b, p) && Record(b, p) && p + LenAt(b, p) == o;
      var j := StartHasOffset(b, p);
      RecordIsGood(b, p);
      ChainStep(b, j);
      PositiveLength(b, p);
      k := j + 1;
    }
  }

  // ----- The listing ------------------------------------------------------

  /** `offs` are the offsets, in order, of the records before `top` that show something, and
      `es` is what they show. */
  ghost predicate ReadUpTo(b: Block, top: nat, offs: seq<nat>, es: seq<Entry>) {
    && |offs| == |es|
    && (forall i :: 0 <= i < |offs| ==> offs[i] < top && Shows(b, offs[i], es[i]))
    && (forall i, j :: 0 <= i < j < |offs| ==> offs[i] < offs[j])
    && (forall o: nat, e: Entry :: o < top && Shows(b, o, e) ==> o in offs)
  }

  lemma ShowsIsEntry(b: Block, o: nat, e: Entry)
    requires Good(b, o) && Starts(b, o)
    ensures Shows(b, o, e) <==> EntryOf(RecAt(b, o)) == [e]
    ensures EntryOf(RecAt(b, o)) == [] || |EntryOf(RecAt(b, o))| == 1
  {
    hide Starts;
    RecordIsGood(b, o);
    EntryAt(b, o);
  }

  lemma NoneBetween(b: Block, k: nat, o: nat)
    requires k < |Parse(b, 0)| && Starts(b, o) && Record(b, o) && OffAt(b, 0, k) <= o < OffAt(b, 0, k + 1)
    ensures o == OffAt(b, 0, k)
  {
    hide Parse, OffAt, Record, LenAt, InodeAt, Starts;
    var j := StartHasOffset(b, o);
    if j < k { OffsetsGrow(b, j, k); }
    if j > k { OffsetsGrow(b, k + 1, j); }
  }

  lemma {:induction false} OffsetsGrow(b: Block, i: nat, j: nat)
    requires i <= j <= |Parse(b, 0)|
    ensures OffAt(b, 0, i) <= OffAt(b, 0, j) && (i < j ==> OffAt(b, 0, i) < OffAt(b, 0, j))
  {
    hide Parse, OffAt, RecAt, Good;
    if i < j {
      OffsetsGrow(b, i, j - 1);
      RecordAt(b, j - 1);
      PositiveLength(b, OffAt(b, 0, j - 1));
    }
  }

  lemma {:induction false} ReadPrefix(b: Block, k: nat) returns (offs: seq<nat>)
    requires k <= |Parse(b, 0)|
    ensures Shaped(Parse(b, 0)) && ReadUpTo(b, OffAt(b, 0, k), offs, Entries(Parse(b, 0)[..k]))
  {
    hide Parse, OffAt, RecAt, Good, Entries, EntryOf, Shows, Starts;
    ParseShaped(b, 0);
    if k == 0 {
      ChainStart(b);
      offs := [];
    } else {
      var o, r := OffAt(b, 0, k - 1), Parse(b, 0)[k - 1];
      var before := ReadPrefix(b, k - 1);
      RecordAt(b, k - 1);
      WalkStep(b, k - 1);
      OffsetStarts(b, k - 1);
      PositiveLength(b, o);
      offs := before + if EntryOf(r) == [] then [] else [o];
      ReadOneMore(b, k - 1, before, offs);
    }
  }

  lemma ReadOneMore(b: Block, k: nat, before: seq<nat>, offs: seq<nat>)
    requires k < |Parse(b, 0)| && Shaped(Parse(b, 0)) && ReadUpTo(b, OffAt(b, 0, k), before, Entries(Parse(b, 0)[..k]))
    requires Good(b, OffAt(b, 0, k)) && RecAt(b, OffAt(b, 0, k)) == Parse(b, 0)[k] && Starts(b, OffAt(b, 0, k))
    requires OffAt(b, 0, k + 1) == OffAt(b, 0, k) + Parse(b, 0)[k].len && Parse(b, 0)[k].len >= 8
    requires Entries(Parse(b, 0)[..k + 1]) == Entries(Parse(b, 0)[..k]) + EntryOf(Parse(b, 0)[k])
    requires offs == before + if EntryOf(Parse(b, 0)[k]) == [] then [] else [OffAt(b, 0, k)]
    ensures ReadUpTo(b, OffAt(b, 0, k + 1), offs, Entries(Parse(b, 0)[..k + 1]))
  {
    hide Parse, OffAt, RecAt, Good, Entries, EntryOf, Shows, Starts;
    var o, r := OffAt(b, 0, k), Parse(b, 0)[k];
    var es := Entries(Parse(b, 0)[..k + 1]);
    forall e: Entry ensures Shows(b, o, e) <==> EntryOf(r) == [e] { ShowsIsEntry(b, o, e); }
    ShowsIsEntry(b, o, Entry(0, 0, []));
    if EntryOf(r) != [] { assert EntryOf(r) == [EntryOf(r)[0]]; }
    forall p: nat, e: Entry | p < OffAt(b, 0, k + 1) && Shows(b, p, e) ensures p in offs {
      if p >= o {
        ShowsStarts(b, p, e);
        NoneBetween(b, k, p);
      } else {
        assert p in before;
      }
    }
  }

  lemma ShowsStarts(b: Block, o: nat, e: Entry)
    requires Shows(b, o, e)
    ensures Starts(b, o) && Record(b, o)
  {
    hide Starts;
  }

  /** `read_dir_entries` on any block: the entries returned are exactly what the records of
      the chain show, in the order of the records. */
  lemma ListingIsOnDisk(b: Block) returns (offs: seq<nat>)
    ensures |offs| == |Listing(b)| && forall i :: 0 <= i < |offs| ==> Shows(b, offs[i], Listing(b)[i])
    ensures forall i, j :: 0 <= i < j < |offs| ==> offs[i] < offs[j]
    ensures forall o: nat, e: Entry :: Shows(b, o, e) ==> o in offs
  {
    hide Parse, OffAt, Shows, Starts, Entries;
    var n := |Parse(b, 0)|;
    offs := ReadPrefix(b, n);
    assert Parse(b, 0)[..n] == Parse(b, 0);
    forall o: nat, e: Entry | Shows(b, o, e) ensures o in offs {
      ShowsStarts(b, o, e);
      BeforeEnd(b, o);
    }
  }

  lemma BeforeEnd(b: Block, o: nat)
    requires Starts(b, o) && Record(b, o)
    ensures o < OffAt(b, 0, |Parse(b, 0)|)
  {
    hide Parse, OffAt, LenAt, InodeAt, Starts, RecAt;
    var k := StartHasOffset(b, o);
    RecordIsGood(b, o);
    ChainStep(b, k);
    OffsetsGrow(b, k, |Parse(b, 0)|);
  }

  // ----- Adding -----------------------------------------------------------

  /** Header and name of `n` bytes, in whole words of four. */
  function Footprint(n: nat): (f: nat)
    ensures f % 4 == 0 && 8 + n <= f < 8 + n + 4
  {
    8 + n + (4 - n % 4) % 4
  }

  /** The record at `o` has room for a name of `n` bytes, from its start if it is not in use
      and otherwise behind its own header and name. */
  ghost predicate RoomAt(b: Block, o: nat, n: nat) {
    && Starts(b, o) && Record(b, o)
    && LenAt(b, o) >= (if InodeAt(b, o) == 0 then 0 else Footprint(b[o + 6] as int)) + Footprint(n)
  }

  lemma FootprintIsRound4(n: nat)
    ensures Footprint(n) == Round4(8 + n)
  {
  }

  lemma RoomIsHolder(b: Block, k: nat, name: seq<Byte>)
    requires k < |Parse(b, 0)|
    ensures CanHold(Parse(b, 0)[k], Needed(name)) <==> RoomAt(b, OffAt(b, 0, k), |name|)
  {
    hide Parse, OffAt, Starts, LenAt, InodeAt, Footprint, Round4;
    var o := OffAt(b, 0, k);
    OffsetStarts(b, k);
    RecordAt(b, k);
    RecordIsGood(b, o);
    FootprintIsRound4(|name|);
    FootprintIsRound4(Parse(b, 0)[k].nameLen);
  }

  /** `add_dir_entry` on any block: it succeeds if and only if some record of the chain has
      the room. */
  lemma AddSucceedsIff(b: Block, inode: nat, ftype: Byte, name: seq<Byte>)
    requires inode < 0x1_0000_0000
    ensures Added(b, inode, ftype, name).Some? <==> exists o: nat :: RoomAt(b, o, |name|)
  {
    hide Parse, OffAt, Starts, RoomAt, CanHold, Added;
    AddIsHonest(b, inode, ftype, name);
    if HasRoom(b, name) {
      var k :| 0 <= k < |Parse(b, 0)| && CanHold(Parse(b, 0)[k], Needed(name));
      RoomIsHolder(b, k, name);
    }
    if o: nat :| RoomAt(b, o, |name|) {
      RoomStarts(b, o, |name|);
      var k := StartHasOffset(b, o);
      ChainStep(b, k);
      RecordIsGood(b, o);
      RoomIsHolder(b, k, name);
    }
  }

  lemma RoomStarts(b: Block, o: nat, n: nat)
    requires RoomAt(b, o, n)
    ensures Starts(b, o) && Record(b, o)
  {
    hide Starts;
  }

  /** Where a new entry goes in the record at `o`. */
  function Behind(b: Block, o: nat): nat
    requires o + 8 <= 1024
  {
    if InodeAt(b, o) == 0 then 0 else Footprint(b[o + 6] as int)
  }

  /** The block after a successful addition, byte by byte: the first record with room, at `o`,
      is cut to what it uses; the rest of it is the new record; nothing outside it changes. */
  ghost predicate AddedAt(b: Block, o: nat, inode: nat, ftype: Byte, name: seq<Byte>, b': Block)
    requires Record(b, o)
  {
    var n, x := Behind(b, o), o + Behind(b, o);
    && x + 8 + |name| <= o + LenAt(b, o)
    && InodeAt(b', x) == inode && LenAt(b', x) == LenAt(b, o) - n
    && b'[x + 6] == |name| % 256 && b'[x + 7] == ftype && b'[x + 8..x + 8 + |name|] == name
    && (n > 0 ==> LenAt(b', o) == n)
    && (forall i :: 0 <= i < 1024 && !(x <= i < x + 8 + |name|) && !(n > 0 && (i == o + 4 || i == o + 5)) ==> b'[i] == b[i])
  }

  lemma AddTakesFirstRoom(b: Block, inode: nat, ftype: Byte, name: seq<Byte>, b': Block) returns (o: nat)
    requires inode < 0x1_0000_0000 && Added(b, inode, ftype, name) == Some(b')
    ensures RoomAt(b, o, |name|) && (forall p: nat :: p < o ==> !RoomAt(b, p, |name|)) && AddedAt(b, o, inode, ftype, name, b')
  {
    hide Parse, OffAt, Starts, RoomAt, CanHold, AddedAt, WriteEntry, W16, RecAt, Good;
    var rs := Parse(b, 0);
    var k := FirstHolder(rs, Needed(name));
    o := OffAt(b, 0, k);
    RecordAt(b, k);
    RoomIsHolder(b, k, name);
    forall p: nat | p < o ensures !RoomAt(b, p, |name|) {
      if RoomAt(b, p, |name|) {
        RoomStarts(b, p, |name|);
        var j := StartHasOffset(b, p);
        RecordIsGood(b, p);
        ChainStep(b, j);
        if j >= k { OffsetsGrow(b, k, j); }
        RoomIsHolder(b, j, name);
        assert false;
      }
    }
    RoomStarts(b, o, |name|);
    HolderHasSpace(rs[k], name);
    AddedBytes(b, o, inode, ftype, name, b', rs[k]);
  }

  lemma AddedBytes(b: Block, o: nat, inode: nat, ftype: Byte, name: seq<Byte>, b': Block, r: Rec)
    requires Good(b, o) && Record(b, o) && r == RecAt(b, o) && CanHold(r, Needed(name)) && inode < 0x1_0000_0000
    requires HolderFits(r, name) && o + r.len <= 1024
    requires r.inode == 0 ==> b' == WriteEntry(b, o, inode, r.len, ftype, name)
    requires r.inode != 0 ==> b' == WriteEntry(W16(b, o + 4, Actual(r)), o + Actual(r), inode, r.len - Actual(r), ftype, name)
    ensures AddedAt(b, o, inode, ftype, name, b')
  {
    hide WriteEntry, W16, R32, R16, Round4, Footprint, LenAt, InodeAt, AddedAt;
    RecordIsGood(b, o);
    if r.inode == 0 {
      FilledBytes(b, o, inode, ftype, name, b');
    } else {
      FootprintIsRound4(r.nameLen);
      SplitBytes(b, o, inode, ftype, name, W16(b, o + 4, Actual(r)), b');
    }
  }

  /** The header and name of the new entry stay inside the record. */
  predicate HolderFits(r: Rec, name: seq<Byte>) {
    (if r.inode == 0 then 0 else Actual(r)) + 8 + |name| <= r.len
  }

  lemma HolderHasSpace(r: Rec, name: seq<Byte>)
    requires CanHold(r, Needed(name))
    ensures HolderFits(r, name)
  {
    hide Round4;
    Round4Facts(8 + |name|);
  }

  lemma FilledBytes(b: Block, o: nat, inode: nat, ftype: Byte, name: seq<Byte>, b': Block)
    requires Record(b, o) && InodeAt(b, o) == 0 && 8 + |name| <= LenAt(b, o) && inode < 0x1_0000_0000
    requires b' == WriteEntry(b, o, inode, LenAt(b, o), ftype, name)
    ensures AddedAt(b, o, inode, ftype, name, b')
  {
    hide WriteEntry, R32, R16, LenAt, InodeAt;
    WriteEntryReads(b, o, inode, LenAt(b, o), ftype, name);
    HeaderBytes(b', o);
  }

  lemma SplitBytes(b: Block, o: nat, inode: nat, ftype: Byte, name: seq<Byte>, b1: Block, b': Block)
    requires Record(b, o) && InodeAt(b, o) != 0 && inode < 0x1_0000_0000
    requires var n := Footprint(b[o + 6] as int);
             && n + 8 + |name| <= LenAt(b, o) && b1 == W16(b, o + 4, n)
             && b' == WriteEntry(b1, o + n, inode, LenAt(b, o) - n, ftype, name)
    ensures AddedAt(b, o, inode, ftype, name, b')
  {
    hide WriteEntry, W16, R32, R16, LenAt, InodeAt, Footprint;
    var n := Footprint(b[o + 6] as int);
    CutBytes(b, o, n);
    WriteEntryReads(b1, o + n, inode, LenAt(b, o) - n, ftype, name);
    HeaderBytes(b', o + n);
    SameLength(b1, b', o);
  }

  lemma SameLength(b: Block, b': Block, o: nat)
    requires o + 8 <= 1024 && b'[o + 4] == b[o + 4] && b'[o + 5] == b[o + 5]
    ensures LenAt(b', o) == LenAt(b, o)
  {
  }

  lemma HeaderBytes(b: Block, o: nat)
    requires o + 8 <= 1024
    ensures InodeAt(b, o) == R32(b, o) && LenAt(b, o) == R16(b, o + 4)
  {
  }

  lemma CutBytes(b: Block, o: nat, n: nat)
    requires o + 8 <= 1024 && n < 0x1_0000
    ensures var b' := W16(b, o + 4, n);
            LenAt(b', o) == n && forall i :: 0 <= i < 1024 && i != o + 4 && i != o + 5 ==> b'[i] == b[i]
  {
  }

  // ----- Removing ---------------------------------------------------------

  /** The block after a removal of the record at `o`, byte by byte: the first record of a
      block loses its inode number; any other is swallowed by the record before it. */
  ghost predicate RemovedAt(b: Block, o: nat, b': Block)
    requires Record(b, o)
  {
    if o == 0 then InodeAt(b', 0) == 0 && forall i :: 4 <= i < 1024 ==> b'[i] == b[i]
    else exists p: nat ::
           && Starts(b, p) && Record(b, p) && p + LenAt(b, p) == o
           && LenAt(b', p) == LenAt(b, p) + LenAt(b, o)
           && forall i :: 0 <= i < 1024 && i != p + 4 && i != p + 5 ==> b'[i] == b[i]
  }

  /** The record at `o` shows the name. */
  ghost predicate NameAt(b: Block, o: nat, name: seq<Byte>) { exists e: Entry :: Shows(b, o, e) && e.name == name }

  lemma NameIsNamed(b: Block, k: nat, name: seq<Byte>)
    requires k < |Parse(b, 0)|
    ensures Shaped(Parse(b, 0)) && (Named(Parse(b, 0)[k], name) <==> NameAt(b, OffAt(b, 0, k), name))
  {
    hide Parse, OffAt, Starts, Shows, RecAt, Good;
    ParseShaped(b, 0);
    var o, r := OffAt(b, 0, k), Parse(b, 0)[k];
    OffsetStarts(b, k);
    RecordAt(b, k);
    if Named(r, name) { ShowsIsEntry(b, o, Entry(r.inode, r.ftype, name)); }
    if NameAt(b, o, name) {
      var e: Entry :| Shows(b, o, e) && e.name == name;
      ShowsIsEntry(b, o, e);
    }
  }

  /** `remove_dir_entry` on any block: it succeeds if and only if some record shows the name,
      and then removes the first that does. */
  lemma RemoveTakesFirst(b: Block, name: seq<Byte>)
    ensures Removed(b, name).Some? <==> exists o: nat :: NameAt(b, o, name)
    ensures Removed(b, name).Some? ==>
              exists o: nat :: NameAt(b, o, name) && (forall p: nat :: p < o ==> !NameAt(b, p, name))
                               && Record(b, o) && RemovedAt(b, o, Removed(b, name).value)
  {
    hide Parse, OffAt, Starts, Shows, NameAt, Named, RecAt, Good, Removed, RemovedAt;
    ParseShaped(b, 0);
    var rs := Parse(b, 0);
    var k := FirstNamed(rs, name);
    forall o: nat | NameAt(b, o, name) ensures k < |rs| && OffAt(b, 0, k) <= o {
      NameHasIndex(b, o, name, k);
    }
    if k < |rs| {
      var o := OffAt(b, 0, k);
      NameIsNamed(b, k, name);
      RecordAt(b, k);
      RecordIsGood(b, o);
      RemovedBytes(b, name, k, o);
    }
    RemovedIff(b, name);
  }

  lemma RemovedIff(b: Block, name: seq<Byte>)
    ensures Shaped(Parse(b, 0)) && (Removed(b, name).Some? <==> FirstNamed(Parse(b, 0), name) < |Parse(b, 0)|)
  {
    hide Parse, OffAt, W16, W32;
    ParseShaped(b, 0);
  }

  lemma NameHasIndex(b: Block, o: nat, name: seq<Byte>, k: nat)
    requires NameAt(b, o, name) && Shaped(Parse(b, 0)) && k == FirstNamed(Parse(b, 0), name)
    ensures k < |Parse(b, 0)| && OffAt(b, 0, k) <= o
  {
    hide Parse, OffAt, Starts, Shows, Named, RecAt, Good;
    var e: Entry :| Shows(b, o, e) && e.name == name;
    ShowsStarts(b, o, e);
    var j := StartHasOffset(b, o);
    RecordIsGood(b, o);
    ChainStep(b, j);
    NameIsNamed(b, j, name);
    assert k <= j;
    OffsetsGrow(b, k, j);
  }

  lemma RemovedBytes(b: Block, name: seq<Byte>, k: nat, o: nat)
    requires Shaped(Parse(b, 0)) && k == FirstNamed(Parse(b, 0), name) < |Parse(b, 0)| && o == OffAt(b, 0, k) && Record(b, o)
    ensures Removed(b, name).Some? && RemovedAt(b, o, Removed(b, name).value)
  {
    hide Parse, OffAt, Starts, W16, W32, LenAt, InodeAt, R16, R32;
    RecordAt(b, k);
    RecordIsGood(b, o);
    if k == 0 {
      ChainStart(b);
      ZeroBytes(b);
    } else {
      var p := OffAt(b, 0, k - 1);
      OffsetStarts(b, k - 1);
      RecordAt(b, k - 1);
      RecordIsGood(b, p);
      PositiveLength(b, p);
      PositiveLength(b, o);
      CutBytes(b, p, LenAt(b, p) + LenAt(b, o));
    }
  }

  lemma ZeroBytes(b: Block)
    ensures InodeAt(W32(b, 0, 0), 0) == 0 && forall i :: 4 <= i < 1024 ==> W32(b, 0, 0)[i] == b[i]
  {
  }
}

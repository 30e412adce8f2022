/** Paths: slash-separated names, and how a path is resolved through directory blocks.

    `Components` says what the names of a path are without any trimming; the iterator,
    the splitting into parent and last name, and the resolver are proved against it. */
module Path {
  import opened Options
  import opened DirBlock
  import opened Arith

  const SLASH: Byte := 47

  // ----- Names of a path --------------------------------------------------

  predicate NoSlash(p: seq<Byte>) { forall i :: 0 <= i < |p| ==> p[i] != 47 }

  function FirstSlash(p: seq<Byte>): (k: nat)
    ensures k <= |p| && (forall i :: 0 <= i < k ==> p[i] != SLASH) && (k < |p| ==> p[k] == SLASH)
  {
    if p == [] || p[0] == SLASH then 0 else
    var k := FirstSlash(p[1..]);
    assert forall i :: 1 <= i < k + 1 ==> p[i] == p[1..][i - 1];
    1 + k
  }

  /** The non-empty runs between slashes. */
  function Components(p: seq<Byte>): seq<seq<Byte>> {
    if p == [] then []
    else if p[0] == SLASH then Components(p[1..])
    else [p[..FirstSlash(p)]] + Components(p[FirstSlash(p)..])
  }

  lemma {:induction false} FirstSlashIs(p: seq<Byte>, k: nat)
    requires k <= |p| && (forall i :: 0 <= i < k ==> p[i] != SLASH) && (k < |p| ==> p[k] == SLASH)
    ensures FirstSlash(p) == k
  {
    if k > 0 { FirstSlashIs(p[1..], k - 1); }
  }

  lemma NoNames()
    ensures Components([]) == []
  {
  }

  lemma NamesAfterSlash(p: seq<Byte>)
    requires p != [] && p[0] == SLASH
    ensures Components(p) == Components(p[1..])
  {
  }

  lemma NamesFrom(p: seq<Byte>, k: nat)
    requires 0 < k <= |p| && (forall i :: 0 <= i < k ==> p[i] != SLASH) && (k < |p| ==> p[k] == SLASH)
    ensures Components(p) == [p[..k]] + Components(p[k..])
  {
    FirstSlashIs(p, k);
  }

  /** A slash separates: the names before it, then the names after it. */
  lemma {:induction false} SlashSeparates(a: seq<Byte>, b: seq<Byte>)
    ensures Components(a + [47] + b) == Components(a) + Components(b)
    decreases |a|
  {
    hide Components, FirstSlash;
    var p := a + [SLASH] + b;
    NoNames();
    if a == [] {
      NamesAfterSlash(p);
      assert p[1..] == b;
    } else if a[0] == SLASH {
      NamesAfterSlash(p);
      NamesAfterSlash(a);
      assert p[1..] == a[1..] + [SLASH] + b;
      SlashSeparates(a[1..], b);
    } else {
      var k := FirstSlash(a);
      NamesFrom(a, k);
      NamesFrom(p, k);
      assert p[..k] == a[..k];
      if k < |a| {
        assert p[k..] == a[k..] + [SLASH] + b;
        SlashSeparates(a[k..], b);
      } else {
        assert a[k..] == [] && p[k..] == [SLASH] + b;
        NamesAfterSlash(p[k..]);
        assert p[k..][1..] == b;
      }
    }
  }

  lemma OneName(p: seq<Byte>)
    requires p != [] && NoSlash(p)
    ensures Components(p) == [p]
  {
    FirstSlashIs(p, |p|);
    assert p[..|p|] == p && p[|p|..] == [];
  }

  /** Names are not empty and hold no slash. */
  lemma {:induction false} NamesAreClean(p: seq<Byte>)
    ensures forall k :: 0 <= k < |Components(p)| ==> Components(p)[k] != [] && NoSlash(Components(p)[k])
    decreases |p|
  {
    if p != [] {
      if p[0] == SLASH { NamesAreClean(p[1..]); } else { NamesAreClean(p[FirstSlash(p)..]); }
    }
  }

  // ----- Trimming and splitting -------------------------------------------

  function TrimStart(p: seq<Byte>): (r: seq<Byte>)
    ensures |r| <= |p| && (r == [] || r[0] != SLASH)
  {
    if p == [] || p[0] != SLASH then p else TrimStart(p[1..])
  }

  function TrimEnd(p: seq<Byte>): (r: seq<Byte>)
    ensures |r| <= |p| && (r == [] || r[|r| - 1] != SLASH) && r <= p
  {
    if p == [] || p[|p| - 1] != SLASH then p else TrimEnd(p[..|p| - 1])
  }

  /** `trim_matches('/')`. */
  function Trim(p: seq<Byte>): seq<Byte> { TrimEnd(TrimStart(p)) }

  lemma {:induction false} TrimStartKeeps(p: seq<Byte>)
    ensures Components(TrimStart(p)) == Components(p)
  {
    if p != [] && p[0] == SLASH { TrimStartKeeps(p[1..]); }
  }

  lemma {:induction false} TrimEndKeeps(p: seq<Byte>)
    ensures Components(TrimEnd(p)) == Components(p)
  {
    if p != [] && p[|p| - 1] == SLASH {
      var q := p[..|p| - 1];
      assert p == q + [SLASH] + [];
      SlashSeparates(q, []);
      TrimEndKeeps(q);
    }
  }

  /** The last slash, or -1. */
  function LastSlash(p: seq<Byte>): (k: int)
    ensures -1 <= k < |p| && (forall i :: k < i < |p| ==> p[i] != SLASH) && (k >= 0 ==> p[k] == SLASH)
  {
    if p == [] then -1 else if p[|p| - 1] == SLASH then |p| - 1 else
    var q := p[..|p| - 1];
    assert forall i :: 0 <= i < |q| ==> q[i] == p[i];
    LastSlash(q)
  }

  /** `split_parent_and_basename`. */
  function Split(p: seq<Byte>): (seq<Byte>, seq<Byte>) {
    var t := Trim(p);
    var k := LastSlash(t);
    if k >= 0 then (t[..k], t[k + 1..]) else ([], t)
  }

  /** The last name is empty exactly for a path without names; otherwise the names of the
      path are those of the parent and then the last name. */
  lemma SplitIsLast(p: seq<Byte>)
    ensures var (parent, base) := Split(p);
            && NoSlash(base)
            && (base == [] <==> Components(p) == [])
            && (base != [] ==> Components(p) == Components(parent) + [base])
  {
    hide Components, LastSlash, TrimStart, TrimEnd;
    var t := Trim(p);
    TrimStartKeeps(p);
    TrimEndKeeps(TrimStart(p));
    var k := LastSlash(t);
    NoNames();
    if k >= 0 {
      SplitAt(t, k);
    } else if t != [] {
      OneName(t);
    }
  }

  lemma SplitAt(t: seq<Byte>, k: nat)
    requires k < |t| && t[k] == SLASH && t[|t| - 1] != SLASH && forall i :: k < i < |t| ==> t[i] != SLASH
    ensures t[k + 1..] != [] && Components(t) == Components(t[..k]) + [t[k + 1..]]
  {
    hide Components;
    assert t == t[..k] + [SLASH] + t[k + 1..];
    SlashSeparates(t[..k], t[k + 1..]);
    assert NoSlash(t[k + 1..]);
    OneName(t[k + 1..]);
  }

  // ----- Resolving --------------------------------------------------------

  /** What `find_dir_entry` reports. */
  function Lookup(b: Block, name: seq<Byte>): Option<(nat, Byte)> {
    var es := Listing(b);
    var k := FindName(es, name);
    if k < |es| then Some((es[k].inode, es[k].ftype)) else None
  }

  /** The directory block of each inode, where it can be read. */
  type Disk = nat -> Option<Block>

  type Node = (nat, Byte)

  /** One name further: the node must be a readable directory that lists the name. */
  function Step(disk: Disk, at: Node, name: seq<Byte>): Option<Node> {
    if at.1 != FT_DIR then None
    else match disk(at.0)
         case None => None
         case Some(b) => Lookup(b, name)
  }

  function Follow(disk: Disk, at: Node, names: seq<seq<Byte>>): Option<Node>
    decreases |names|
  {
    if names == [] then Some(at)
    else match Step(disk, at, names[0])
         case None => None
         case Some(next) => Follow(disk, next, names[1..])
  }

  /** `resolve_path`. */
  function Resolve(disk: Disk, start: nat, p: seq<Byte>): Option<Node> { Follow(disk, (start, FT_DIR), Components(p)) }

  lemma {:induction false} FollowSplit(disk: Disk, at: Node, a: seq<seq<Byte>>, b: seq<seq<Byte>>)
    ensures Follow(disk, at, a + b) ==
            match Follow(disk, at, a) case None => None case Some(mid) => Follow(disk, mid, b)
    decreases |a|
  {
    hide Step;
    if a == [] {
      assert a + b == b;
    } else {
      assert (a + b)[1..] == a[1..] + b;
      match Step(disk, at, a[0])
      case None =>
      case Some(next) => FollowSplit(disk, next, a[1..], b);
    }
  }

  lemma FollowOne(disk: Disk, at: Node, name: seq<Byte>)
    ensures Follow(disk, at, [name]) == Step(disk, at, name)
  {
    hide Step;
    assert [name][1..] == [];
  }

  /** Resolving a path is resolving its parent and looking up the last name there. */
  lemma ResolveByParent(disk: Disk, start: nat, p: seq<Byte>)
    requires Components(p) != []
    ensures var (parent, base) := Split(p);
            Resolve(disk, start, p) ==
            match Resolve(disk, start, parent) case None => None case Some(dir) => Step(disk, dir, base)
  {
    hide Step, Split;
    var (parent, base) := Split(p);
    SplitIsLast(p);
    FollowSplit(disk, (start, FT_DIR), Components(parent), [base]);
    match Resolve(disk, start, parent)
    case None =>
    case Some(dir) => FollowOne(disk, dir, base);
  }

  /** The first entry of that name in the block is for the node. */
  ghost predicate Lists(b: Block, name: seq<Byte>, node: Node) {
    exists k :: 0 <= k < |Listing(b)| && ListsAt(Listing(b), k, name, node)
  }

  ghost predicate ListsAt(es: seq<Entry>, k: nat, name: seq<Byte>, node: Node)
    requires k < |es|
  {
    es[k].name == name && node == (es[k].inode, es[k].ftype) && forall j :: 0 <= j < k ==> es[j].name != name
  }

  /** `next` is the entry `name` of `at`, which is of directory type and readable. */
  ghost predicate Link(disk: Disk, at: Node, name: seq<Byte>, next: Node) {
    at.1 == 2 && disk(at.0).Some? && Lists(disk(at.0).value, name, next)
  }

  ghost predicate Chain(disk: Disk, nodes: seq<Node>, names: seq<seq<Byte>>) {
    |nodes| == |names| + 1 && forall i :: 0 <= i < |names| ==> Link(disk, nodes[i], names[i], nodes[i + 1])
  }

  lemma LookupLists(b: Block, name: seq<Byte>, node: Node)
    ensures Lookup(b, name) == Some(node) <==> Lists(b, name, node)
  {
    hide Listing, FindName;
    var es := Listing(b);
    if k :| 0 <= k < |es| && ListsAt(es, k, name, node) { FindNameIs(es, name, k); }
    var f := FindName(es, name);
    if f < |es| { assert ListsAt(es, f, name, (es[f].inode, es[f].ftype)); }
  }

  lemma StepIsLink(disk: Disk, at: Node, name: seq<Byte>, next: Node)
    ensures Step(disk, at, name) == Some(next) <==> Link(disk, at, name, next)
  {
    hide Lookup, Lists;
    match disk(at.0)
    case None =>
    case Some(b) => LookupLists(b, name, next);
  }

  lemma {:induction false} FollowIsChain(disk: Disk, at: Node, names: seq<seq<Byte>>, nodes: seq<Node>)
    requires Chain(disk, nodes, names) && nodes[0] == at
    ensures Follow(disk, at, names) == Some(nodes[|names|])
    decreases |names|
  {
    hide Step, Link;
    if names != [] {
      StepIsLink(disk, at, names[0], nodes[1]);
      assert forall i :: 0 <= i < |names| - 1 ==> Link(disk, nodes[1..][i], names[1..][i], nodes[1..][i + 1]) by {
        forall i | 0 <= i < |names| - 1 ensures Link(disk, nodes[1..][i], names[1..][i], nodes[1..][i + 1]) {
          assert Link(disk, nodes[i + 1], names[i + 1], nodes[i + 2]);
        }
      }
      FollowIsChain(disk, nodes[1], names[1..], nodes[1..]);
    }
  }

  lemma {:induction false} FollowHasChain(disk: Disk, at: Node, names: seq<seq<Byte>>) returns (nodes: seq<Node>)
    requires Follow(disk, at, names).Some?
    ensures Chain(disk, nodes, names) && nodes[0] == at && nodes[|names|] == Follow(disk, at, names).value
    decreases |names|
  {
    hide Step, Link;
    if names == [] {
      nodes := [at];
    } else {
      var next := Step(disk, at, names[0]).value;
      StepIsLink(disk, at, names[0], next);
      var rest := FollowHasChain(disk, next, names[1..]);
      nodes := [at] + rest;
      forall i | 0 <= i < |names| ensures Link(disk, nodes[i], names[i], nodes[i + 1]) {
        if i > 0 { assert Link(disk, rest[i - 1], names[1..][i - 1], rest[i]); }
      }
    }
  }

  /** A path resolves to a node exactly when its names lead there: from the start, through
      entries of that name, each in a readable directory.  So a path through a node that is
      not a directory, or through a block that does not list the name, fails. */
  lemma ResolvesIff(disk: Disk, start: nat, p: seq<Byte>, node: Node)
    ensures Resolve(disk, start, p) == Some(node) <==>
            exists nodes :: Chain(disk, nodes, Components(p)) && nodes[0] == (start, 2) && nodes[|Components(p)|] == node
  {
    hide Follow, Components, Link;
    var names := Components(p);
    if Resolve(disk, start, p) == Some(node) {
      var nodes := FollowHasChain(disk, (start, FT_DIR), names);
    }
    if nodes :| Chain(disk, nodes, names) && nodes[0] == (start, 2) && nodes[|names|] == node {
      FollowIsChain(disk, (start, FT_DIR), names, nodes);
    }
  }

  // ----- Creating and removing --------------------------------------------

  function Rewrite(disk: Disk, dir: nat, b: Block): Disk { i => if i == dir then Some(b) else disk(i) }

  /** `b'` lists at least what `b` lists, name by name. */
  ghost predicate Extends(b: Block, b': Block) {
    forall name: seq<Byte> :: Lookup(b, name).Some? ==> Lookup(b', name) == Lookup(b, name)
  }

  lemma InsertLookup(l: seq<Entry>, q: nat, e: Entry, l': seq<Entry>, name: seq<Byte>)
    requires q <= |l| && FindName(l, e.name) == |l| && l' == l[..q] + [e] + l[q..] && name != e.name
    ensures var k := FindName(l, name);
            FindName(l', name) == if k < q then k else k + 1
  {
    hide FindName;
    var k := FindName(l, name);
    var k' := if k < q then k else k + 1;
    assert l'[..q] == l[..q] && l'[q] == e && l'[q + 1..] == l[q..];
    forall i | 0 <= i < k' ensures l'[i].name != name {
      assert i < q ==> l'[i] == l[i];
      assert i > q ==> l'[i] == l[i - 1];
    }
    assert k' < |l'| ==> l'[k'] == l[k];
    FindNameIs(l', name, k');
  }

  /** An entry of a new name changes no other lookup. */
  lemma AddExtends(b: Block, inode: nat, ftype: Byte, name: seq<Byte>)
    requires 0 < inode < 0x1_0000_0000 && 1 <= |name| <= 255
    requires Lookup(b, name).None? && Added(b, inode, ftype, name).Some?
    ensures var b' := Added(b, inode, ftype, name).value;
            && Lookup(b', name) == Some((inode, ftype))
            && forall n: seq<Byte> :: n != name ==> Lookup(b', n) == Lookup(b, n)
  {
    hide Listing, Added, Parse, FindName;
    var b', q := Added(b, inode, ftype, name).value, AddPosition(b, name);
    var e := Entry(inode, ftype, name);
    AddInserts(b, inode, ftype, name);
    assert name[..|name| % 256] == name;
    assert Listing(b') == Listing(b)[..q] + [e] + Listing(b)[q..];
    InsertThenFind(Listing(b), q, e, Listing(b'));
    forall n: seq<Byte> | n != name ensures Lookup(b', n) == Lookup(b, n) {
      InsertLookup(Listing(b), q, e, Listing(b'), n);
    }
  }

  lemma StepExtends(disk: Disk, dir: nat, b: Block, b': Block, at: Node, name: seq<Byte>)
    requires disk(dir) == Some(b) && Extends(b, b')
    ensures Step(disk, at, name).Some? ==> Step(Rewrite(disk, dir, b'), at, name) == Step(disk, at, name)
  {
    hide Lookup;
  }

  lemma {:induction false} FollowExtends(disk: Disk, dir: nat, b: Block, b': Block, at: Node, names: seq<seq<Byte>>)
    requires disk(dir) == Some(b) && Extends(b, b')
    ensures Follow(disk, at, names).Some? ==> Follow(Rewrite(disk, dir, b'), at, names) == Follow(disk, at, names)
    decreases |names|
  {
    hide Step, Rewrite, Extends;
    if names != [] {
      StepExtends(disk, dir, b, b', at, names[0]);
      match Step(disk, at, names[0])
      case None =>
      case Some(next) => FollowExtends(disk, dir, b, b', next, names[1..]);
    }
  }

  /** Adding an entry under a name the directory does not list: every path that resolved
      before still resolves to the same node, and the new path resolves to the new one. */
  lemma CreatedPathResolves(disk: Disk, start: nat, p: seq<Byte>, dir: nat, b: Block, inode: nat, ftype: Byte, other: seq<Byte>)
    requires Components(p) != [] && 0 < inode < 0x1_0000_0000 && |Split(p).1| <= 255
    requires Resolve(disk, start, Split(p).0) == Some((dir, FT_DIR)) && disk(dir) == Some(b)
    requires Lookup(b, Split(p).1).None? && Added(b, inode, ftype, Split(p).1).Some?
    ensures var disk' := Rewrite(disk, dir, Added(b, inode, ftype, Split(p).1).value);
            && Resolve(disk', start, p) == Some((inode, ftype))
            && (Resolve(disk, start, other).Some? ==> Resolve(disk', start, other) == Resolve(disk, start, other))
  {
    hide Lookup, Added, Follow, Split;
    var (parent, base) := Split(p);
    SplitIsLast(p);
    var b' := Added(b, inode, ftype, base).value;
    var disk' := Rewrite(disk, dir, b');
    AddExtends(b, inode, ftype, base);
    assert Extends(b, b');
    FollowExtends(disk, dir, b, b', (start, FT_DIR), Components(parent));
    FollowExtends(disk, dir, b, b', (start, FT_DIR), Components(other));
    ResolveByParent(disk', start, p);
  }

  /** The name is listed exactly once. */
  ghost predicate ListedOnce(es: seq<Entry>, name: seq<Byte>) {
    && FindName(es, name) < |es|
    && forall i :: FindName(es, name) < i < |es| ==> es[i].name != name
  }

  lemma WithoutLookup(l: seq<Entry>, l': seq<Entry>, name: seq<Byte>, n: seq<Byte>)
    requires ListedOnce(l, name) && l' == Without(l, FindName(l, name))
    ensures var q, k := FindName(l, name), FindName(l, n);
            FindName(l', n) == if n == name then |l'| else if k < q then k else k - 1
    ensures n != name ==> FindName(l, n) != FindName(l, name)
  {
    hide FindName;
    var q, k := FindName(l, name), FindName(l, n);
    assert forall i :: 0 <= i < |l'| ==> l'[i] == if i < q then l[i] else l[i + 1];
    FindNameIs(l', n, if n == name then |l'| else if k < q then k else k - 1);
  }

  /** Removing a name that is listed once changes no other lookup. */
  lemma RemoveNarrows(b: Block, name: seq<Byte>)
    requires Tiled(b) && ListedOnce(Listing(b), name)
    ensures Removed(b, name).Some?
    ensures var b' := Removed(b, name).value;
            && Lookup(b', name).None?
            && forall n: seq<Byte> :: n != name ==> Lookup(b', n) == Lookup(b, n)
  {
    hide Listing, Removed, Tiled, Parse, FindName, ListedOnce;
    RemoveDeletes(b, name);
    assert FindName(Listing(b), name) < |Listing(b)| by { OnceIsListed(Listing(b), name); }
    StepRefines(b, Remove(name));
    var b' := Removed(b, name).value;
    assert Listing(b') == Without(Listing(b), FindName(Listing(b), name));
    WithoutLookup(Listing(b), Listing(b'), name, name);
    forall n: seq<Byte> | n != name ensures Lookup(b', n) == Lookup(b, n) {
      WithoutLookup(Listing(b), Listing(b'), name, n);
    }
  }

  lemma OnceIsListed(es: seq<Entry>, name: seq<Byte>)
    requires ListedOnce(es, name)
    ensures FindName(es, name) < |es|
  {
  }

  /** `b'` lists no more than `b`, name by name. */
  ghost predicate Narrows(b: Block, b': Block) {
    forall name: seq<Byte> :: Lookup(b', name).Some? ==> Lookup(b', name) == Lookup(b, name)
  }

  lemma StepNarrows(disk: Disk, dir: nat, b: Block, b': Block, at: Node, name: seq<Byte>)
    requires disk(dir) == Some(b) && Narrows(b, b')
    ensures Step(Rewrite(disk, dir, b'), at, name).Some? ==> Step(Rewrite(disk, dir, b'), at, name) == Step(disk, at, name)
  {
    hide Lookup;
  }

  lemma {:induction false} FollowNarrows(disk: Disk, dir: nat, b: Block, b': Block, at: Node, names: seq<seq<Byte>>)
    requires disk(dir) == Some(b) && Narrows(b, b')
    ensures Follow(Rewrite(disk, dir, b'), at, names).Some? ==>
              Follow(Rewrite(disk, dir, b'), at, names) == Follow(disk, at, names)
    decreases |names|
  {
    hide Step, Rewrite, Narrows;
    if names != [] {
      StepNarrows(disk, dir, b, b', at, names[0]);
      match Step(Rewrite(disk, dir, b'), at, names[0])
      case None =>
      case Some(next) => FollowNarrows(disk, dir, b, b', next, names[1..]);
    }
  }

  /** Removing a name listed once: its path no longer resolves, and no path resolves to
      anything it did not resolve to before. */
  lemma RemovedPathIsGone(disk: Disk, start: nat, p: seq<Byte>, dir: nat, b: Block, other: seq<Byte>)
    requires Components(p) != [] && Resolve(disk, start, Split(p).0) == Some((dir, FT_DIR)) && disk(dir) == Some(b)
    requires Tiled(b) && ListedOnce(Listing(b), Split(p).1)
    ensures Removed(b, Split(p).1).Some?
    ensures var disk' := Rewrite(disk, dir, Removed(b, Split(p).1).value);
            && Resolve(disk', start, p) == None
            && (Resolve(disk', start, other).Some? ==> Resolve(disk', start, other) == Resolve(disk, start, other))
  {
    hide Lookup, Removed, Follow, Split, Tiled, Listing, ListedOnce;
    var (parent, base) := Split(p);
    SplitIsLast(p);
    RemoveNarrows(b, base);
    var b' := Removed(b, base).value;
    var disk' := Rewrite(disk, dir, b');
    assert Narrows(b, b');
    FollowNarrows(disk, dir, b, b', (start, FT_DIR), Components(parent));
    FollowNarrows(disk, dir, b, b', (start, FT_DIR), Components(other));
    ResolveByParent(disk', start, p);
  }

  // ----- The code ---------------------------------------------------------

  /** `PathComponentIterator`. */
  class PathIterator {
    var remainder: seq<Byte>

    /** The names still to come. */
    ghost function Names(): seq<seq<Byte>>
      reads this
    {
      Components(remainder)
    }

    ghost predicate Valid()
      reads this
    {
      remainder == [] || remainder[0] != SLASH
    }

    constructor (path: seq<Byte>)
      ensures Valid() && Names() == Components(path)
    {
      TrimStartKeeps(path);
      TrimEndKeeps(TrimStart(path));
      hide Components;
      remainder := Trim(path);
    }

    method Next() returns (name: Option<seq<Byte>>)
      requires Valid()
      modifies this
      ensures Valid() && (name.None? <==> old(Names()) == [])
      ensures name.Some? ==> old(Names()) == [name.value] + Names() && |remainder| < |old(remainder)|
      ensures name.None? ==> Names() == []
    {
      if remainder == [] { return None; }
      var k := FirstSlash(remainder);
      TrimStartKeeps(remainder[k..]);
      var seg := remainder[..k];
      if k < |remainder| {
        remainder := TrimStart(remainder[k..]);
      } else {
        assert remainder[k..] == [];
        remainder := [];
      }
      return Some(seg);
    }
  }

  /** `resolve_path`; the callback that reads directory blocks is the disk. */
  method ResolvePath(path: seq<Byte>, start: nat, disk: Disk) returns (r: Option<Node>)
    ensures r == Resolve(disk, start, path)
  {
    var at: Node := (start, FT_DIR);
    var it := new PathIterator(path);
    hide Components, Lookup;
    var segment := it.Next();
    if segment.None? { return Some(at); }
    var name := segment.value;
    while true
      invariant it.Valid() && fresh(it) && Follow(disk, at, [name] + it.Names()) == Resolve(disk, start, path)
      decreases |it.remainder|
    {
      ghost var rest := it.Names();
      assert ([name] + rest)[1..] == rest;
      if at.1 != FT_DIR { return None; }
      var block := disk(at.0);
      if block.None? { return None; }
      var found := LookIn(block.value, name);
      if found.None? { return None; }
      at := found.value;
      var next := it.Next();
      if next.None? { return Some(at); }
      name := next.value;
    }
  }

  /** Reading the block into a buffer and searching it. */
  method LookIn(b: Block, name: seq<Byte>) returns (found: Option<Node>)
    ensures found == Lookup(b, name)
  {
    hide Listing;
    var buf := new Byte[1024](i requires 0 <= i < 1024 => b[i]);
    assert buf[..] == b;
    found := FindDirEntry(buf, name);
  }
}

// Paths (src/fs.rs): splitting and joining them, resolving one down from the
// top-level subvolume, and building one by climbing parent references. Climbing
// and resolving are proved to be inverse on consistent trees.

module Paths {
  import opened Bytes
  import opened Disk
  import opened Volumes
  import opened Walks
  import opened FileData
  import opened Namespace

  const SLASH: byte := 0x2F
  const BACKSLASH: byte := 0x5C
  const DOT: Name := [0x2E]
  const DOT_DOT: Name := [0x2E, 0x2E]
  const MAX_PARTS: nat := 4096

  // ----- Splitting and joining -----

  predicate IsSeparator(b: byte) {
    b == SLASH || b == BACKSLASH
  }

  /** A part that names something: not empty and not the directory itself. */
  function Keep(part: Name): seq<Name> {
    if part == [] || part == DOT then [] else [part]
  }

  function PartsFrom(path: seq<byte>, part: Name): seq<Name> {
    if path == [] then Keep(part)
    else if IsSeparator(path[0]) then Keep(part) + PartsFrom(path[1..], [])
    else PartsFrom(path[1..], part + [path[0]])
  }

  /** The parts of a path between its separators of either kind. */
  function Parts(path: seq<byte>): seq<Name> {
    PartsFrom(path, [])
  }

  method SplitPath(path: seq<byte>) returns (parts: seq<Name>)
    ensures parts == Parts(path)
  {
    parts := [];
    var part: Name := [];
    for i := 0 to |path|
      invariant Parts(path) == parts + PartsFrom(path[i..], part)
    {
      assert path[i..][1..] == path[i + 1..];
      if IsSeparator(path[i]) {
        assert parts + (Keep(part) + PartsFrom(path[i + 1..], []))
            == parts + Keep(part) + PartsFrom(path[i + 1..], []);
        parts := parts + Keep(part);
        part := [];
      } else {
        part := part + [path[i]];
      }
    }
    assert path[|path|..] == [];
    parts := parts + Keep(part);
  }

  /** The parts with a slash between each two. */
  function Join(parts: seq<Name>): seq<byte> {
    if parts == [] then []
    else if |parts| == 1 then parts[0]
    else parts[0] + [SLASH] + Join(parts[1..])
  }

  /** A name that can stand in a path: it is not empty, is no navigation, holds
      no separator, and is valid UTF-8, so the lossy decoding leaves it alone. */
  ghost predicate GoodName(v: Volume, name: Name) {
    && name != [] && name != DOT && name != DOT_DOT
    && (forall b :: b in name ==> !IsSeparator(b))
    && v.lossy(name) == name
  }

  ghost predicate GoodNames(v: Volume, parts: seq<Name>) {
    forall p :: p in parts ==> GoodName(v, p)
  }

  lemma {:induction false} PartsAcrossSeparator(a: seq<byte>, sep: byte, b: seq<byte>, part: Name)
    requires IsSeparator(sep)
    ensures PartsFrom(a + [sep] + b, part) == PartsFrom(a, part) + Parts(b)
  {
    var path := a + [sep] + b;
    if a == [] {
      assert path[1..] == b;
    } else {
      assert path[1..] == a[1..] + [sep] + b;
      if IsSeparator(a[0]) {
        PartsAcrossSeparator(a[1..], sep, b, []);
        assert Keep(part) + (PartsFrom(a[1..], []) + Parts(b)) == Keep(part) + PartsFrom(a[1..], []) + Parts(b);
      } else {
        PartsAcrossSeparator(a[1..], sep, b, part + [a[0]]);
      }
    }
  }

  lemma {:induction false} PartsOfName(name: Name, part: Name)
    requires forall b :: b in name ==> !IsSeparator(b)
    ensures PartsFrom(name, part) == Keep(part + name)
  {
    if name == [] {
      assert part + name == part;
    } else {
      assert name[0] in name;
      PartsOfName(name[1..], part + [name[0]]);
      assert part + [name[0]] + name[1..] == part + name;
    }
  }

  /** A path is split at slashes of either kind, and what lies between them is a part
      unless it is empty or a single dot; a path is joined with forward slashes. */
  lemma SplitExactly(a: seq<byte>, sep: byte, b: seq<byte>, name: Name)
    requires sep == 0x2F || sep == 0x5C
    requires forall x :: x in name ==> x != 0x2F && x != 0x5C
    ensures Parts(a + [sep] + b) == Parts(a) + Parts(b)
    ensures Parts(name) == if name == [] || name == [0x2E] then [] else [name]
    ensures Join([a, b]) == a + [0x2F] + b
  {
    PartsAcrossSeparator(a, sep, b, []);
    PartsOfName(name, []);
    assert [] + name == name;
    assert [a, b][1..] == [b];
  }

  /** Splitting a joined path gives its parts back. */
  lemma {:induction false} PartsOfJoin(v: Volume, parts: seq<Name>)
    requires GoodNames(v, parts)
    ensures Parts(Join(parts)) == parts
  {
    if parts != [] {
      assert parts[0] in parts;
      PartsOfName(parts[0], []);
      assert [] + parts[0] == parts[0];
      if |parts| > 1 {
        PartsOfJoin(v, parts[1..]);
        PartsAcrossSeparator(parts[0], SLASH, Join(parts[1..]), []);
        assert parts == [parts[0]] + parts[1..];
      }
    }
  }

  lemma PartsOfRooted(path: seq<byte>)
    ensures Parts([SLASH] + path) == Parts(path)
  {
    PartsAcrossSeparator([], SLASH, path, []);
    assert [] + [SLASH] + path == [SLASH] + path;
    assert Keep([]) + Parts(path) == Parts(path);
  }

  /** The non-empty ones of some paths, which are all that gets joined. */
  function NonEmpty(ps: seq<seq<byte>>): seq<seq<byte>> {
    if ps == [] then []
    else if ps[0] == [] then NonEmpty(ps[1..])
    else [ps[0]] + NonEmpty(ps[1..])
  }

  function AllParts(ps: seq<seq<byte>>): seq<Name> {
    if ps == [] then [] else Parts(ps[0]) + AllParts(ps[1..])
  }

  lemma {:induction false} PartsOfNonEmpty(ps: seq<seq<byte>>)
    ensures Parts(Join(NonEmpty(ps))) == AllParts(ps)
  {
    if ps != [] {
      PartsOfNonEmpty(ps[1..]);
      var rest := NonEmpty(ps[1..]);
      if ps[0] == [] {
        assert AllParts(ps) == AllParts(ps[1..]);
      } else if rest == [] {
        assert [ps[0]] + rest == [ps[0]];
        assert Parts(ps[0]) + AllParts(ps[1..]) == Parts(ps[0]);
      } else {
        PartsAcrossSeparator(ps[0], SLASH, Join(rest), []);
        assert ([ps[0]] + rest)[1..] == rest;
      }
    }
  }

  // ----- Resolving downwards -----

  function RootOf(v: Volume): Result<Loc> {
    var tree :- TreeOf(v, FS_TREE_OBJECTID);
    Ok(Loc(FS_TREE_OBJECTID, tree.rootDirid))
  }

  /** Whether a part may be looked up in `dir`. */
  function Enterable(v: Volume, dir: Loc): Result<()> {
    if IsPlaceholder(dir) then Ok(()) else
      var inode :- InodeOf(v, dir);
      if inode.IsSymlink() then Err(SymlinkInPath)
      else if !inode.IsDir() then Err(NotADirectory)
      else Ok(())
  }

  /** Walking the remaining parts down from the top of the stack. */
  function ResolveFrom(v: Volume, stack: seq<Loc>, parts: seq<Name>): Result<Loc>
    requires stack != []
    decreases |parts|
  {
    var dir := stack[|stack| - 1];
    if parts == [] then Ok(dir)
    else if parts[0] == DOT_DOT then
      ResolveFrom(v, if |stack| > 1 then stack[..|stack| - 1] else stack, parts[1..])
    else
      var _ :- Enterable(v, dir);
      var found :- LookupOf(v, dir, parts[0]);
      match found
      case None => Err(NotFound)
      case Some(e) => ResolveFrom(v, stack + [e.loc], parts[1..])
  }

  function ResolveOf(v: Volume, path: seq<byte>): Result<Loc> {
    var root :- RootOf(v);
    ResolveFrom(v, [root], Parts(path))
  }

  /** Looking the parts up one after the other leads from one place to another. */
  ghost predicate Leads(v: Volume, at: Loc, parts: seq<Name>, to: Loc)
    decreases |parts|
  {
    if parts == [] then at == to else
      && parts[0] != DOT_DOT
      && Enterable(v, at).Ok?
      && match LookupOf(v, at, parts[0])
         case Ok(Some(e)) => Leads(v, e.loc, parts[1..], to)
         case _ => false
  }

  lemma {:induction false} LeadsConcat(v: Volume, a: Loc, p: seq<Name>, b: Loc, q: seq<Name>, c: Loc)
    requires Leads(v, a, p, b) && Leads(v, b, q, c)
    ensures Leads(v, a, p + q, c)
    decreases |p|
  {
    hide LookupOf;
    hide Enterable;
    if p == [] {
      assert p + q == q;
    } else {
      assert (p + q)[1..] == p[1..] + q;
      LeadsConcat(v, LookupOf(v, a, p[0]).value.value.loc, p[1..], b, q, c);
    }
  }

  lemma {:induction false} LeadsResolves(v: Volume, stack: seq<Loc>, parts: seq<Name>, to: Loc)
    requires stack != [] && Leads(v, stack[|stack| - 1], parts, to)
    ensures ResolveFrom(v, stack, parts) == Ok(to)
    decreases |parts|
  {
    hide LookupOf;
    hide Enterable;
    if parts != [] {
      var e := LookupOf(v, stack[|stack| - 1], parts[0]).value.value;
      LeadsResolves(v, stack + [e.loc], parts[1..], to);
    }
  }

  /** A path whose parts lead from the top-level root somewhere resolves there. */
  lemma PathResolves(v: Volume, path: seq<byte>, to: Loc)
    requires RootOf(v).Ok? && Leads(v, RootOf(v).value, Parts(path), to)
    ensures ResolveOf(v, path) == Ok(to)
    ensures ResolveOf(v, [SLASH] + path) == Ok(to)
  {
    hide Leads;
    hide RootOf;
    hide Parts;
    hide ResolveFrom;
    LeadsResolves(v, [RootOf(v).value], Parts(path), to);
    PartsOfRooted(path);
  }

  /** The parts that are left when each ".." takes the one before it away; at the top
      it takes none. */
  function Normal(done: seq<Name>, parts: seq<Name>): seq<Name>
    decreases |parts|
  {
    if parts == [] then done
    else if parts[0] == [0x2E, 0x2E] then Normal(if done == [] then [] else done[..|done| - 1], parts[1..])
    else Normal(done + [parts[0]], parts[1..])
  }

  /** Each place on the stack is the one before it and one part further. */
  ghost predicate Stacked(v: Volume, stack: seq<Loc>, done: seq<Name>) {
    |stack| == |done| + 1 && forall i :: 0 <= i < |done| ==> Leads(v, stack[i], [done[i]], stack[i + 1])
  }

  lemma {:induction false} StackLeads(v: Volume, stack: seq<Loc>, done: seq<Name>)
    requires Stacked(v, stack, done)
    ensures Leads(v, stack[0], done, stack[|done|])
    decreases |done|
  {
    hide Leads;
    var n := |done|;
    if n == 0 {
      LeadsNowhere(v, stack[0]);
    } else {
      StackLeads(v, stack[..n], done[..n - 1]);
      LeadsConcat(v, stack[0], done[..n - 1], stack[n - 1], [done[n - 1]], stack[n]);
      assert done[..n - 1] + [done[n - 1]] == done;
    }
  }

  lemma LeadsOne(v: Volume, at: Loc, name: Name)
    requires name != DOT_DOT && Enterable(v, at).Ok? && LookupOf(v, at, name).Ok? && LookupOf(v, at, name).value.Some?
    ensures Leads(v, at, [name], LookupOf(v, at, name).value.value.loc)
  {
    hide LookupOf;
    hide Enterable;
    assert [name][1..] == [];
  }

  lemma StackMore(v: Volume, stack: seq<Loc>, done: seq<Name>, name: Name, to: Loc)
    requires Stacked(v, stack, done) && Leads(v, stack[|done|], [name], to)
    ensures Stacked(v, stack + [to], done + [name])
  {
    hide Leads;
  }

  lemma {:induction false} ResolvedFrom(v: Volume, stack: seq<Loc>, done: seq<Name>, parts: seq<Name>)
    requires Stacked(v, stack, done) && ResolveFrom(v, stack, parts).Ok?
    ensures Leads(v, stack[0], Normal(done, parts), ResolveFrom(v, stack, parts).value)
    decreases |parts|
  {
    hide LookupOf;
    hide Enterable;
    hide Leads;
    var dir := stack[|stack| - 1];
    if parts == [] {
      StackLeads(v, stack, done);
    } else if parts[0] == DOT_DOT {
      if |stack| > 1 {
        ResolvedFrom(v, stack[..|stack| - 1], done[..|done| - 1], parts[1..]);
      } else {
        assert done == [];
        ResolvedFrom(v, stack, done, parts[1..]);
      }
    } else {
      LeadsOne(v, dir, parts[0]);
      var to := LookupOf(v, dir, parts[0]).value.value.loc;
      StackMore(v, stack, done, parts[0], to);
      ResolvedFrom(v, stack + [to], done + [parts[0]], parts[1..]);
    }
  }

  /** Whatever resolves is where its parts lead from the top-level root, looked up one
      after the other, with those taken away that a ".." goes back from. */
  lemma ResolvedLeads(v: Volume, path: seq<byte>)
    requires ResolveOf(v, path).Ok?
    ensures RootOf(v).Ok? && Leads(v, RootOf(v).value, Normal([], Parts(path)), ResolveOf(v, path).value)
  {
    hide RootOf;
    hide Leads;
    hide Parts;
    hide ResolveFrom;
    ResolvedFrom(v, [RootOf(v).value], [], Parts(path));
  }

  /** Nothing is looked up through a symlink or in anything but a directory, and a name
      that is not there is reported as that. */
  lemma NoWayThrough(v: Volume, stack: seq<Loc>, dir: Loc, name: Name, rest: seq<Name>)
    requires name != DOT_DOT && dir.tree != 0
    ensures var r := ResolveFrom(v, stack + [dir], [name] + rest);
            match InodeOf(v, dir)
            case Err(e) => r == Err(e)
            case Ok(inode) =>
              if inode.IsSymlink() then r == Err(SymlinkInPath)
              else if !inode.IsDir() then r == Err(NotADirectory)
              else LookupOf(v, dir, name) == Ok(None) ==> r == Err(NotFound)
  {
    hide LookupOf;
    hide InodeOf;
  }

  /** Two dots go back one place, and stay at the top. */
  lemma DotsGoBack(v: Volume, stack: seq<Loc>, at: Loc, rest: seq<Name>)
    ensures var dots: Name := [0x2E, 0x2E];
            && ResolveFrom(v, [at], [dots] + rest) == ResolveFrom(v, [at], rest)
            && (stack != [] ==> ResolveFrom(v, stack + [at], [dots] + rest) == ResolveFrom(v, stack, rest))
  {
    hide LookupOf;
    hide Enterable;
    assert (stack + [at])[..|stack|] == stack;
    assert ([[0x2E, 0x2E]] + rest)[1..] == rest;
  }

  // ----- Climbing upwards -----

  type ParentRef = Option<(nat, Name)>

  /** The visitor that keeps an inode's first parent reference. */
  function KeepRef(acc: ParentRef, k: Key, d: seq<byte>): Visit<ParentRef> {
    match U16At(d, 8)
    case Err(e) => Fail(acc, e)
    case Ok(len) =>
      match Sub(d, 10, len)
      case Err(e) => Fail(acc, e)
      case Ok(name) => Stop(Some((k.offset, name)))
  }

  function ParentOf(v: Volume, root: TreeRoot, ino: nat): Result<(nat, Name)> {
    var w := Walk(v, root.bytenr, Key(ino, INODE_REF_KEY, 0), Key(ino, INODE_REF_KEY, U64_MAX), KeepRef, None);
    match w.out
    case Failed(e) => Err(e)
    case _ => if w.acc.None? then Err(NoParentRef) else Ok(w.acc.value)
  }

  /** The parts from the subvolume's root down to `ino`, `n` parts below it being
      known already. */
  function Climb(v: Volume, root: TreeRoot, ino: nat, n: nat): Result<seq<Name>>
    decreases if n < MAX_PARTS then MAX_PARTS - n else 0
  {
    if ino == root.rootDirid then Ok([])
    else if n >= MAX_PARTS then Err(EndlessParents)
    else
      var parent :- ParentOf(v, root, ino);
      var above :- Climb(v, root, parent.0, n + 1);
      Ok(above + [v.lossy(parent.1)])
  }

  function PathInTreeOf(v: Volume, tree: nat, ino: nat): Result<seq<byte>> {
    var root :- TreeOf(v, tree);
    var parts :- Climb(v, root, ino, 0);
    Ok(Join(parts))
  }

  /** Inodes of which each is the parent of the one before, none but the last the
      subvolume's root directory. */
  ghost predicate ParentChain(v: Volume, root: TreeRoot, chain: seq<nat>) {
    && chain != []
    && (forall i :: 0 <= i < |chain| - 1 ==>
          && chain[i] != root.rootDirid
          && ParentOf(v, root, chain[i]).Ok? && ParentOf(v, root, chain[i]).value.0 == chain[i + 1])
  }

  /** The climb gives up exactly when 4096 parents did not lead to the root directory. */
  lemma {:induction false} ClimbGivesUp(v: Volume, root: TreeRoot, chain: seq<nat>, n: nat)
    requires ParentChain(v, root, chain) && n + |chain| - 1 <= 4096
    ensures var c, last := Climb(v, root, chain[0], n), chain[|chain| - 1];
            && (last == root.rootDirid ==> c.Ok? && |c.value| == |chain| - 1)
            && (last != root.rootDirid && n + |chain| - 1 == 4096 ==> c == Err(EndlessParents))
    decreases |chain|
  {
    hide ParentOf;
    if |chain| > 1 {
      assert chain[0] != root.rootDirid;
      assert chain[1..][0] == chain[1];
      ClimbGivesUp(v, root, chain[1..], n + 1);
    }
  }

  /** Every parent reference that a climb from `ino` reads is matched by a directory
      entry. The one of the subvolume's root directory is never read. */
  ghost predicate ClimbMatches(v: Volume, tree: nat, root: TreeRoot, ino: nat, n: nat)
    decreases if n < MAX_PARTS then MAX_PARTS - n else 0
  {
    ino == root.rootDirid || n >= MAX_PARTS || ParentOf(v, root, ino).Err? ||
    (RefMatchesEntry(v, tree, root, ino) && ClimbMatches(v, tree, root, ParentOf(v, root, ino).value.0, n + 1))
  }

  ghost predicate RefMatchesEntry(v: Volume, tree: nat, root: TreeRoot, ino: nat)
    requires ParentOf(v, root, ino).Ok?
  {
    var (parent, name) := ParentOf(v, root, ino).value;
    GoodName(v, name) && Leads(v, Loc(tree, parent), [name], Loc(tree, ino))
  }

  /** Climbing from an inode and looking the parts up again comes back to it. */
  lemma {:induction false} ClimbThenDescend(v: Volume, tree: nat, root: TreeRoot, ino: nat, n: nat)
    requires ClimbMatches(v, tree, root, ino, n) && Climb(v, root, ino, n).Ok?
    ensures GoodNames(v, Climb(v, root, ino, n).value)
    ensures Leads(v, Loc(tree, root.rootDirid), Climb(v, root, ino, n).value, Loc(tree, ino))
    decreases if n < MAX_PARTS then MAX_PARTS - n else 0
  {
    hide ParentOf;
    hide Leads;
    hide GoodName;
    if ino == root.rootDirid {
      LeadsNowhere(v, Loc(tree, ino));
    } else {
      var (parent, name) := ParentOf(v, root, ino).value;
      var above := Climb(v, root, parent, n + 1).value;
      ClimbThenDescend(v, tree, root, parent, n + 1);
      assert v.lossy(name) == name by {
        NameSurvives(v, name);
      }
      LeadsConcat(v, Loc(tree, root.rootDirid), above, Loc(tree, parent), [name], Loc(tree, ino));
    }
  }

  lemma NameSurvives(v: Volume, name: Name)
    requires GoodName(v, name)
    ensures v.lossy(name) == name
  {
  }

  lemma LeadsNowhere(v: Volume, at: Loc)
    ensures Leads(v, at, [], at)
  {
  }

  /** The parts of a path built by climbing lead from the subvolume's root to the
      inode the climb started from. */
  lemma PathInTreeLeadsBack(v: Volume, tree: nat, ino: nat)
    requires TreeOf(v, tree).Ok? && ClimbMatches(v, tree, TreeOf(v, tree).value, ino, 0)
    requires PathInTreeOf(v, tree, ino).Ok?
    ensures Leads(v, Loc(tree, TreeOf(v, tree).value.rootDirid), Parts(PathInTreeOf(v, tree, ino).value),
                  Loc(tree, ino))
  {
    hide TreeOf;
    hide Leads;
    hide Join;
    hide GoodNames;
    hide ClimbMatches;
    var root := TreeOf(v, tree).value;
    ClimbThenDescend(v, tree, root, ino, 0);
    PartsOfJoin(v, Climb(v, root, ino, 0).value);
  }
}

// What a copy is to do (src/copy.rs): the names entries are written to, when a tree
// on the host is a faithful copy, and which source trees can have one.

module CopyPlan {
  import opened Bytes
  import opened Disk
  import opened FileData
  import opened Namespace
  import opened HostNames
  import opened HostTree
  import opened Sinks

  const MAX_DIR_DEPTH: nat := 256

  /** What the filesystem reader answers; `target` is the text a link is made with. */
  datatype Origin = Origin(
    inode: Loc -> Result<Inode>,
    readdir: Loc -> Result<seq<Entry>>,
    read: Loc -> Emitted,
    target: Loc -> Result<seq<byte>>,
    snapshot: nat -> Result<bool>,
    lossy: Name -> string,
    encode: string -> Name)

  /** The host is in here as what the copy cannot decide: the paths where it fails an
      operation, and where a link leads when it is opened, if to anywhere. */
  datatype Options = Options(
    windows: bool,
    fold: Folding,
    force: bool,
    oneSubvolume: bool,
    noSnapshots: bool,
    exclude: string -> bool,
    refuses: Path -> bool,
    follow: (Host, Path) -> Option<Path>)

  datatype Job = Job(src: Origin, opts: Options)

  // ----- Naming a directory's entries -----

  function ChildRel(rel: string, name: string): string {
    if rel == "" then name else rel + "/" + name
  }

  predicate Excluded(job: Job, rel: string, name: string) {
    job.opts.exclude(ChildRel(rel, name)) || job.opts.exclude(name)
  }

  /** An entry is left out by its own name or by its path from where the copy started. */
  lemma {:induction false} LeftOutExactly(job: Job, entries: seq<Entry>, rel: string, taken: set<string>, i: nat)
    requires i < |entries|
    ensures var name := job.src.lossy(entries[i].name);
            Keys(job, entries, rel, taken)[i].None?
            <==> job.opts.exclude(name) || job.opts.exclude(if rel == "" then name else rel + "/" + name)
    decreases |entries|
  {
    if i > 0 {
      var next := if Excluded(job, rel, job.src.lossy(entries[0].name)) then taken
                  else taken + {KeyFor(job, entries[0], taken).key};
      LeftOutExactly(job, entries[1..], rel, next, i - 1);
    }
  }

  /** Names with a slash between each two. */
  function JoinNames(names: seq<string>): string {
    if names == [] then ""
    else if |names| == 1 then names[0]
    else names[0] + "/" + JoinNames(names[1..])
  }

  /** An entry's path from where the copy started is the names on the way to it. */
  lemma {:induction false} RelJoins(job: Job, above: seq<string>, e: Entry)
    requires forall name :: name in above ==> name != ""
    ensures RelOf(job, JoinNames(above), e) == JoinNames(above + [job.src.lossy(e.name)])
  {
    var name := job.src.lossy(e.name);
    if above == [] {
      assert above + [name] == [name];
    } else {
      assert above[0] in above && forall x :: x in above[1..] ==> x in above;
      assert (above + [name])[1..] == above[1..] + [name];
      if |above| == 1 {
        assert above[1..] + [name] == [name];
      } else {
        RelJoins(job, above[1..], e);
        JoinedIsNot(above[1..]);
      }
    }
  }

  lemma JoinedIsNot(names: seq<string>)
    requires names != [] && forall name :: name in names ==> name != ""
    ensures JoinNames(names) != ""
  {
    assert names[0] in names;
  }

  /** A chosen name as the host compares it, and its partial file's. */
  datatype Component = Component(key: string, tmp: string)

  /** The component each entry is written to, none for the excluded ones. */
  function Keys(job: Job, entries: seq<Entry>, rel: string, taken: set<string>): (keys: seq<Option<Component>>)
    ensures |keys| == |entries|
  {
    if entries == [] then [] else
      var name := job.src.lossy(entries[0].name);
      if Excluded(job, rel, name) then [None] + Keys(job, entries[1..], rel, taken)
      else
        var key := KeyFor(job, entries[0], taken);
        [Some(key)] + Keys(job, entries[1..], rel, taken + {key.key})
  }

  function KeyFor(job: Job, e: Entry, taken: set<string>): (c: Component)
    ensures c.key !in taken && c.key != c.tmp
  {
    ComponentOf(job.opts.fold, Chosen(job.opts.fold, HostName(job.opts.windows, job.src.lossy(e.name)), taken))
  }

  function ComponentOf(fold: Folding, host: string): (c: Component)
    ensures c.key == fold(host) && c.key != c.tmp
  {
    Component(fold(host), fold(host + PARTIAL))
  }

  /** Keys differ from each other and from those taken before. */
  ghost predicate KeysDiffer(keys: seq<Option<Component>>, taken: set<string>) {
    && (forall i :: 0 <= i < |keys| && keys[i].Some? ==>
          keys[i].value.key !in taken && keys[i].value.key != keys[i].value.tmp)
    && (forall i, j :: 0 <= i < j < |keys| && keys[i].Some? && keys[j].Some? ==> keys[i].value.key != keys[j].value.key)
  }

  lemma {:induction false} KeysAreDistinct(job: Job, entries: seq<Entry>, rel: string, taken: set<string>)
    ensures KeysDiffer(Keys(job, entries, rel, taken), taken)
    decreases |entries|
  {
    hide KeyFor;
    hide Excluded;
    if entries != [] {
      var key := KeyFor(job, entries[0], taken);
      KeysAreDistinct(job, entries[1..], rel, taken);
      KeysAreDistinct(job, entries[1..], rel, taken + {key.key});
      if Excluded(job, rel, job.src.lossy(entries[0].name)) {
        KeysAfterNone(Keys(job, entries[1..], rel, taken), taken);
      } else {
        KeysAfterSome(key, Keys(job, entries[1..], rel, taken + {key.key}), taken);
      }
    }
  }

  lemma KeysAfterNone(rest: seq<Option<Component>>, taken: set<string>)
    requires KeysDiffer(rest, taken)
    ensures KeysDiffer([None] + rest, taken)
  {
    var keys := [None] + rest;
    assert forall i :: 0 < i < |keys| ==> keys[i] == rest[i - 1];
  }

  lemma KeysAfterSome(key: Component, rest: seq<Option<Component>>, taken: set<string>)
    requires key.key !in taken && key.key != key.tmp && KeysDiffer(rest, taken + {key.key})
    ensures KeysDiffer([Some(key)] + rest, taken)
  {
    var keys := [Some(key)] + rest;
    assert forall i :: 0 < i < |keys| ==> keys[i] == rest[i - 1];
    forall i | 0 < i < |keys| && keys[i].Some?
      ensures keys[i].value.key !in taken + {key.key} && keys[i].value.key != keys[i].value.tmp
    {
      assert rest[i - 1].value.key !in taken + {key.key};
    }
  }

  // ----- What a faithful copy is -----

  /** Whether an entry is a subvolume the options leave out. */
  function Skipped(job: Job, e: Entry, parent: Loc): Result<bool> {
    if !e.subvol || IsPlaceholder(e.loc) then Ok(false)
    else if job.opts.oneSubvolume && e.loc.tree != parent.tree then Ok(true)
    else if job.opts.noSnapshots then job.src.snapshot(e.loc.tree)
    else Ok(false)
  }

  /** Only the roots of subvolumes are skipped: those of another tree than their parent
      when one subvolume is asked for, and snapshots when none are. */
  lemma SkippedExactly(job: Job, e: Entry, parent: Loc)
    ensures var other := job.opts.oneSubvolume && e.loc.tree != parent.tree;
            var asked := e.subvol && e.loc.tree != 0 && !other && job.opts.noSnapshots;
            var skip := Skipped(job, e, parent);
            && (skip == Ok(true)
                <==> || (e.subvol && e.loc.tree != 0 && other)
                     || (asked && job.src.snapshot(e.loc.tree) == Ok(true)))
            && (skip.Err? <==> asked && job.src.snapshot(e.loc.tree).Err?)
  {
  }

  /** The bytes a regular file is copied as. */
  function Contents(job: Job, loc: Loc): Option<seq<byte>> {
    match job.src.inode(loc)
    case Err(_) => None
    case Ok(inode) =>
      var em := job.src.read(loc);
      if em.status.Some? then None else Some(Resized(Flatten(em.pieces), inode.size))
  }

  /** A leaf is at `p`: a regular file with its bytes, a symlink unless the host
      refuses it; anything else is left out with a warning. */
  ghost predicate LeafCopied(job: Job, host: Host, loc: Loc, p: Path) {
    && job.src.inode(loc).Ok?
    && var inode := job.src.inode(loc).value;
       if inode.IsSymlink() then
         && job.src.target(loc).Ok?
         && (job.opts.refuses(p) || (p in host && host[p] == Link(job.src.target(loc).value)))
       else inode.IsFile() ==>
         Contents(job, loc).Some? && p in host && host[p] == File(Contents(job, loc).value)
  }

  function RelOf(job: Job, rel: string, e: Entry): string {
    ChildRel(rel, job.src.lossy(e.name))
  }

  /** A directory is at `p` with every entry that is neither excluded nor skipped
      copied at its own component. */
  ghost predicate DirCopied(job: Job, host: Host, dir: Loc, rel: string, p: Path, depth: nat)
    decreases if depth > MAX_DIR_DEPTH then 0 else MAX_DIR_DEPTH + 1 - depth, 1
  {
    && depth <= MAX_DIR_DEPTH
    && p in host && host[p] == Dir
    && job.src.readdir(dir).Ok?
    && var entries := job.src.readdir(dir).value;
       var keys := Keys(job, entries, rel, {});
       forall i :: 0 <= i < |entries| && keys[i].Some? ==>
         EntryCopied(job, host, entries[i], dir, RelOf(job, rel, entries[i]), p + [keys[i].value.key], depth)
  }

  ghost predicate EntryCopied(job: Job, host: Host, e: Entry, parent: Loc, rel: string, p: Path, depth: nat)
    requires depth <= MAX_DIR_DEPTH
    decreases MAX_DIR_DEPTH + 1 - depth, 0
  {
    && Skipped(job, e, parent).Ok?
    && (!Skipped(job, e, parent).value ==>
          && job.src.inode(e.loc).Ok?
          && if job.src.inode(e.loc).value.IsDir()
             then DirCopied(job, host, e.loc, rel, p, depth + 1)
             else LeafCopied(job, host, e.loc, p))
  }

  /** A faithful copy stays one whatever happens elsewhere. */
  lemma {:induction false} DirCopiedFrame(job: Job, a: Host, b: Host, dir: Loc, rel: string, p: Path, depth: nat)
    requires DirCopied(job, a, dir, rel, p, depth) && SameUnder(a, b, p)
    ensures DirCopied(job, b, dir, rel, p, depth)
    decreases if depth > MAX_DIR_DEPTH then 0 else MAX_DIR_DEPTH + 1 - depth, 1
  {
    hide Keys;
    assert SameAt(a, b, p);
    var entries := job.src.readdir(dir).value;
    var keys := Keys(job, entries, rel, {});
    forall i | 0 <= i < |entries| && keys[i].Some?
      ensures EntryCopied(job, b, entries[i], dir, RelOf(job, rel, entries[i]), p + [keys[i].value.key], depth)
    {
      EntryCopiedFrame(job, a, b, entries[i], dir, RelOf(job, rel, entries[i]), p + [keys[i].value.key], depth);
    }
  }

  lemma {:induction false} EntryCopiedFrame(job: Job, a: Host, b: Host, e: Entry, parent: Loc, rel: string, p: Path,
                                            depth: nat)
    requires depth <= MAX_DIR_DEPTH
    requires EntryCopied(job, a, e, parent, rel, p, depth) && SameUnder(a, b, p)
    ensures EntryCopied(job, b, e, parent, rel, p, depth)
    decreases MAX_DIR_DEPTH + 1 - depth, 0
  {
    assert SameAt(a, b, p);
    if !Skipped(job, e, parent).value && job.src.inode(e.loc).value.IsDir() {
      DirCopiedFrame(job, a, b, e.loc, rel, p, depth + 1);
    }
  }

  // ----- Trees the copy can be faithful to -----

  /** An entry that is not left out and can be read. */
  predicate Taken(job: Job, e: Entry, parent: Loc) {
    Skipped(job, e, parent) == Ok(false) && job.src.inode(e.loc).Ok?
  }

  predicate RegularEntry(job: Job, e: Entry, parent: Loc) {
    Taken(job, e, parent) && job.src.inode(e.loc).value.IsFile()
  }

  /** A symlink that the host lets be made at `p`. */
  predicate LinkEntry(job: Job, e: Entry, parent: Loc, p: Path) {
    Taken(job, e, parent) && job.src.inode(e.loc).value.IsSymlink() && !job.opts.refuses(p)
  }

  /** Of a directory's entries the j-th, a file, is written under a temporary name
      that is the place of the i-th, a file or link that was there before. */
  ghost predicate Clash(job: Job, dir: Loc, entries: seq<Entry>, keys: seq<Option<Component>>, p: Path, i: nat, j: nat)
    requires |keys| == |entries|
  {
    && i < j < |entries| && keys[i].Some? && keys[j].Some? && keys[i].value.key == keys[j].value.tmp
    && RegularEntry(job, entries[j], dir)
    && (RegularEntry(job, entries[i], dir) || LinkEntry(job, entries[i], dir, p + [keys[i].value.key]))
  }

  /** An entry before the n-th takes the i-th's place for its temporary file. */
  ghost predicate Overwritten(job: Job, dir: Loc, entries: seq<Entry>, keys: seq<Option<Component>>, p: Path, i: nat,
                              n: nat)
    requires |keys| == |entries|
  {
    exists j: nat :: j < n && Clash(job, dir, entries, keys, p, i, j)
  }

  /** In no directory that is entered below `dir` is the place of a file or link the
      temporary name of a later file. */
  ghost predicate TreeClear(job: Job, dir: Loc, rel: string, p: Path, depth: nat)
    decreases if depth > MAX_DIR_DEPTH then 0 else MAX_DIR_DEPTH + 1 - depth, 1
  {
    depth > MAX_DIR_DEPTH || job.src.readdir(dir).Err? ||
    var entries := job.src.readdir(dir).value;
    var keys := Keys(job, entries, rel, {});
    forall i :: 0 <= i < |entries| && keys[i].Some? ==>
      && !Overwritten(job, dir, entries, keys, p, i, |entries|)
      && EntryClear(job, entries[i], dir, RelOf(job, rel, entries[i]), p + [keys[i].value.key], depth)
  }

  ghost predicate EntryClear(job: Job, e: Entry, parent: Loc, rel: string, p: Path, depth: nat)
    requires depth <= MAX_DIR_DEPTH
    decreases MAX_DIR_DEPTH + 1 - depth, 0
  {
    Taken(job, e, parent) && job.src.inode(e.loc).value.IsDir() ==> TreeClear(job, e.loc, rel, p, depth + 1)
  }

  // ----- Trees that can be read and written -----

  predicate DirEntryTaken(job: Job, e: Entry, parent: Loc) {
    Taken(job, e, parent) && job.src.inode(e.loc).value.IsDir()
  }

  /** The j-th entry, a file, cannot be written: a directory or link lies at its
      temporary name. */
  ghost predicate Obstacle(job: Job, dir: Loc, entries: seq<Entry>, keys: seq<Option<Component>>, p: Path, i: nat,
                           j: nat)
    requires |keys| == |entries|
  {
    && i < j < |entries| && keys[i].Some? && keys[j].Some? && keys[i].value.key == keys[j].value.tmp
    && RegularEntry(job, entries[j], dir)
    && (DirEntryTaken(job, entries[i], dir) || LinkEntry(job, entries[i], dir, p + [keys[i].value.key]))
  }

  ghost predicate LeafReadable(job: Job, loc: Loc, p: Path, t: Path) {
    && job.src.inode(loc).Ok?
    && (job.src.inode(loc).value.IsSymlink() ==> job.src.target(loc).Ok?)
    && (job.src.inode(loc).value.IsFile() ==>
          job.src.read(loc).status.None? && !job.opts.refuses(p) && !job.opts.refuses(t))
  }

  /** All that the copy needs of a directory can be read, the host refuses none of its
      places, nothing is in a file's way, and no directory contains itself. */
  ghost predicate DirReadable(job: Job, dir: Loc, rel: string, p: Path, depth: nat, above: set<Loc>)
    decreases if depth > MAX_DIR_DEPTH then 0 else MAX_DIR_DEPTH + 1 - depth, 1
  {
    && depth <= MAX_DIR_DEPTH && dir !in above && job.src.readdir(dir).Ok?
    && var entries := job.src.readdir(dir).value;
       var keys := Keys(job, entries, rel, {});
       && (forall i, j :: 0 <= i < j < |entries| ==> !Obstacle(job, dir, entries, keys, p, i, j))
       && forall i :: 0 <= i < |entries| && keys[i].Some? ==>
            EntryReadable(job, entries[i], dir, RelOf(job, rel, entries[i]), p + [keys[i].value.key],
                          p + [keys[i].value.tmp], depth, above + {dir})
  }

  ghost predicate EntryReadable(job: Job, e: Entry, parent: Loc, rel: string, p: Path, t: Path, depth: nat,
                                above: set<Loc>)
    requires depth <= MAX_DIR_DEPTH
    decreases MAX_DIR_DEPTH + 1 - depth, 0
  {
    && Skipped(job, e, parent).Ok?
    && (!Skipped(job, e, parent).value ==>
          && job.src.inode(e.loc).Ok?
          && if job.src.inode(e.loc).value.IsDir()
             then !job.opts.refuses(p) && DirReadable(job, e.loc, rel, p, depth + 1, above)
             else LeafReadable(job, e.loc, p, t))
  }

  // ----- Links that went astray -----

  /** Somewhere below `p` a symlink that the host accepts is not a link. */
  ghost predicate DirUnlinked(job: Job, host: Host, dir: Loc, rel: string, p: Path, depth: nat)
    decreases if depth > MAX_DIR_DEPTH then 0 else MAX_DIR_DEPTH + 1 - depth, 1
  {
    && depth <= MAX_DIR_DEPTH && job.src.readdir(dir).Ok?
    && var entries := job.src.readdir(dir).value;
       var keys := Keys(job, entries, rel, {});
       exists i :: 0 <= i < |entries| && keys[i].Some? &&
         EntryUnlinked(job, host, entries[i], dir, RelOf(job, rel, entries[i]), p + [keys[i].value.key], depth)
  }

  ghost predicate EntryUnlinked(job: Job, host: Host, e: Entry, parent: Loc, rel: string, p: Path, depth: nat)
    requires depth <= MAX_DIR_DEPTH
    decreases MAX_DIR_DEPTH + 1 - depth, 0
  {
    && Taken(job, e, parent)
    && if job.src.inode(e.loc).value.IsDir() then DirUnlinked(job, host, e.loc, rel, p, depth + 1)
       else LinkEntry(job, e, parent, p) && !LinkAt(host, p)
  }

  /** Then the copy is not faithful. */
  lemma {:induction false} UnlinkedNotCopied(job: Job, host: Host, dir: Loc, rel: string, p: Path, depth: nat)
    requires DirUnlinked(job, host, dir, rel, p, depth)
    ensures !DirCopied(job, host, dir, rel, p, depth)
    decreases if depth > MAX_DIR_DEPTH then 0 else MAX_DIR_DEPTH + 1 - depth, 1
  {
    hide Keys;
    var entries := job.src.readdir(dir).value;
    var keys := Keys(job, entries, rel, {});
    var i :| 0 <= i < |entries| && keys[i].Some? &&
      EntryUnlinked(job, host, entries[i], dir, RelOf(job, rel, entries[i]), p + [keys[i].value.key], depth);
    EntryUnlinkedNotCopied(job, host, entries[i], dir, RelOf(job, rel, entries[i]), p + [keys[i].value.key], depth);
  }

  lemma {:induction false} EntryUnlinkedNotCopied(job: Job, host: Host, e: Entry, parent: Loc, rel: string, p: Path,
                                                  depth: nat)
    requires depth <= MAX_DIR_DEPTH && EntryUnlinked(job, host, e, parent, rel, p, depth)
    ensures !EntryCopied(job, host, e, parent, rel, p, depth)
    decreases MAX_DIR_DEPTH + 1 - depth, 0
  {
    if job.src.inode(e.loc).value.IsDir() {
      UnlinkedNotCopied(job, host, e.loc, rel, p, depth + 1);
    }
  }

  /** And it does not become so while no link comes back. */
  lemma {:induction false} UnlinkedStays(job: Job, a: Host, b: Host, dir: Loc, rel: string, p: Path, depth: nat)
    requires DirUnlinked(job, a, dir, rel, p, depth)
    requires forall q :: p <= q && LinkAt(b, q) ==> LinkAt(a, q)
    ensures DirUnlinked(job, b, dir, rel, p, depth)
    decreases if depth > MAX_DIR_DEPTH then 0 else MAX_DIR_DEPTH + 1 - depth, 1
  {
    hide Keys;
    var entries := job.src.readdir(dir).value;
    var keys := Keys(job, entries, rel, {});
    var i :| 0 <= i < |entries| && keys[i].Some? &&
      EntryUnlinked(job, a, entries[i], dir, RelOf(job, rel, entries[i]), p + [keys[i].value.key], depth);
    var place := p + [keys[i].value.key];
    forall q | place <= q && LinkAt(b, q)
      ensures LinkAt(a, q)
    {
      assert p <= q;
    }
    EntryUnlinkedStays(job, a, b, entries[i], dir, RelOf(job, rel, entries[i]), place, depth);
  }

  lemma {:induction false} EntryUnlinkedStays(job: Job, a: Host, b: Host, e: Entry, parent: Loc, rel: string, p: Path,
                                              depth: nat)
    requires depth <= MAX_DIR_DEPTH && EntryUnlinked(job, a, e, parent, rel, p, depth)
    requires forall q :: p <= q && LinkAt(b, q) ==> LinkAt(a, q)
    ensures EntryUnlinked(job, b, e, parent, rel, p, depth)
    decreases MAX_DIR_DEPTH + 1 - depth, 0
  {
    if job.src.inode(e.loc).value.IsDir() {
      UnlinkedStays(job, a, b, e.loc, rel, p, depth + 1);
    }
  }
}

// What a faithful copy means file by file (src/copy.rs): every file that can be
// reached arrives, no two at one place, and with the bytes the filesystem means.

module CopyLaws {
  import opened Bytes
  import opened Volumes
  import opened FileData
  import opened Namespace
  import opened HostNames
  import opened HostTree
  import opened Sinks
  import opened CopyPlan
  import opened Copy

  /** Following the entries numbered `steps` from a directory at `p`, none of them
      excluded or skipped, leads to the leaf `loc`, whose place is `at`. */
  ghost predicate Reaches(job: Job, dir: Loc, rel: string, p: Path, depth: nat, steps: seq<nat>, loc: Loc, at: Path)
    decreases |steps|
  {
    && depth <= MAX_DIR_DEPTH && steps != []
    && job.src.readdir(dir).Ok?
    && var entries := job.src.readdir(dir).value;
       var keys := Keys(job, entries, rel, {});
       && steps[0] < |entries| && keys[steps[0]].Some?
       && var e, place := entries[steps[0]], p + [keys[steps[0]].value.key];
          && Skipped(job, e, dir) == Ok(false)
          && job.src.inode(e.loc).Ok?
          && if |steps| == 1
             then !job.src.inode(e.loc).value.IsDir() && loc == e.loc && at == place
             else job.src.inode(e.loc).value.IsDir()
                  && Reaches(job, e.loc, RelOf(job, rel, e), place, depth + 1, steps[1..], loc, at)
  }

  /** In a faithful copy every reachable leaf is at its place. */
  lemma {:induction false} LeavesArrive(job: Job, host: Host, dir: Loc, rel: string, p: Path, depth: nat,
                                        steps: seq<nat>,
                                        loc: Loc, at: Path)
    requires DirCopied(job, host, dir, rel, p, depth) && Reaches(job, dir, rel, p, depth, steps, loc, at)
    ensures LeafCopied(job, host, loc, at)
    decreases |steps|
  {
    hide Keys;
    hide LeafCopied;
    var entries := job.src.readdir(dir).value;
    var keys := Keys(job, entries, rel, {});
    var e, place := entries[steps[0]], p + [keys[steps[0]].value.key];
    var childRel := RelOf(job, rel, e);
    assert EntryCopied(job, host, e, dir, childRel, place, depth);
    if |steps| > 1 {
      LeavesArrive(job, host, e.loc, childRel, place, depth + 1, steps[1..], loc, at);
    }
  }

  lemma {:induction false} PlaceExtends(job: Job, dir: Loc, rel: string, p: Path, depth: nat, steps: seq<nat>,
                                        loc: Loc, at: Path)
    requires Reaches(job, dir, rel, p, depth, steps, loc, at)
    ensures var keys := Keys(job, job.src.readdir(dir).value, rel, {});
            |at| > |p| && at[..|p|] == p && at[|p|] == keys[steps[0]].value.key
    decreases |steps|
  {
    hide Keys;
    var entries := job.src.readdir(dir).value;
    var keys := Keys(job, entries, rel, {});
    if |steps| > 1 {
      var e, place := entries[steps[0]], p + [keys[steps[0]].value.key];
      PlaceExtends(job, e.loc, RelOf(job, rel, e), place, depth + 1, steps[1..], loc, at);
      assert at[..|p| + 1] == place;
      assert at[..|p|] == place[..|p|];
      assert at[|p|] == place[|p|];
    }
  }

  /** No two entries of the tree share a place. */
  lemma {:induction false} PlacesDiffer(job: Job, dir: Loc, rel: string, p: Path, depth: nat,
                                        steps: seq<nat>, loc: Loc, at: Path, steps': seq<nat>, loc': Loc, at': Path)
    requires Reaches(job, dir, rel, p, depth, steps, loc, at)
    requires Reaches(job, dir, rel, p, depth, steps', loc', at')
    requires steps != steps'
    ensures at != at'
    decreases |steps|
  {
    hide Keys;
    var entries := job.src.readdir(dir).value;
    var keys := Keys(job, entries, rel, {});
    PlaceExtends(job, dir, rel, p, depth, steps, loc, at);
    PlaceExtends(job, dir, rel, p, depth, steps', loc', at');
    KeysAreDistinct(job, entries, rel, {});
    var i, j := steps[0], steps'[0];
    if i != j {
      assert keys[i].value.key != keys[j].value.key;
    } else {
      assert steps == [i] + steps[1..] && steps' == [i] + steps'[1..];
      var e, place := entries[i], p + [keys[i].value.key];
      if |steps| > 1 && |steps'| > 1 {
        PlacesDiffer(job, e.loc, RelOf(job, rel, e), place, depth + 1,
                     steps[1..], loc, at, steps'[1..], loc', at');
      }
    }
  }

  /** The source that reads a volume without a cache. */
  function SourceOf(v: Volume, lossy: Name -> string, encode: string -> Name, target: Loc -> Result<seq<byte>>,
                    snapshot: nat -> Result<bool>): Origin
  {
    Origin(
      loc => InodeOf(v, loc),
      loc => ReadDirOf(v, loc),
      loc => WholeFile(v, loc),
      target,
      snapshot,
      lossy,
      encode)
  }

  function WholeFile(v: Volume, loc: Loc): Emitted {
    var s := ReadRangeOf(v, loc, 0, U64_MAX, Off);
    Emitted(s.pieces, s.status)
  }

  /** A regular file copied from a volume has exactly the bytes it means there. */
  lemma CopiedBytesAreTheMeaning(v: Volume, content: nat -> byte, lossy: Name -> string, encode: string -> Name,
                                 target: Loc -> Result<seq<byte>>, snapshot: nat -> Result<bool>, opts: Options,
                                 host: Host, loc: Loc, at: Path)
    requires Faithful(v, content) && InodeOf(v, loc).Ok? && GoodFile(v, loc)
    requires InodeOf(v, loc).value.IsFile()
    requires LeafCopied(Job(SourceOf(v, lossy, encode, target, snapshot), opts), host, loc, at)
    ensures at in host && host[at] == File(Meaning(v, content, loc, 0, InodeOf(v, loc).value.size))
  {
    hide ReadRangeOf;
    hide InodeOf;
    hide ExtentsOf;
    hide Meaning;
    SinksAgree(v, content, loc);
  }

  // ----- Copies that lose a file -----

  lemma PlainKey(job: Job, e: Entry, taken: set<string>)
    requires job.opts.fold == Plain && !job.opts.windows
    requires Safe(false, job.src.lossy(e.name)) && job.src.lossy(e.name) !in taken
    ensures KeyFor(job, e, taken) == PlainComponent(job.src.lossy(e.name))
  {
    hide Safe;
    var name := job.src.lossy(e.name);
    HostNameKeepsSafe(false, name);
    assert Candidate(name, 0) == name;
    FirstFreeUnique(Plain, name, taken, 0);
  }

  /** Names compared as they are. */
  const Plain: Folding := (PlainFolds(); (s: string) => s)

  function PlainComponent(name: string): Component {
    Component(name, name + PARTIAL)
  }

  const REPLACEMENT := "\U{FFFD}"

  /** A byte that is not UTF-8, which decodes to the replacement character; and that
      character itself with a partial file's suffix, which comes first. */
  const STRAY: Name := [0xFF]
  const LOOKALIKE: Name := [0xEF, 0xBF, 0xBD, 0x2E, 0x62, 0x74, 0x72, 0x66, 0x73, 0x2D, 0x70, 0x65, 0x65, 0x6B,
                            0x2D, 0x70, 0x61, 0x72, 0x74, 0x69, 0x61, 0x6C]

  const FIRST := Entry(LOOKALIKE, Loc(5, 257), 1, false)
  const SECOND := Entry(STRAY, Loc(5, 258), 1, false)

  /** A directory of the two entries, listed in the order of their names; the second
      is a file, the first a file or a link. */
  ghost predicate HoldsBoth(job: Job, dir: Loc) {
    && !job.opts.windows && job.opts.fold == Plain
    && !job.opts.exclude(REPLACEMENT) && !job.opts.exclude(REPLACEMENT + PARTIAL)
    && job.src.lossy(LOOKALIKE) == REPLACEMENT + PARTIAL && job.src.lossy(STRAY) == REPLACEMENT
    && job.src.readdir(dir) == Ok([FIRST, SECOND])
    && (forall e :: e in [FIRST, SECOND] ==> job.src.inode(e.loc).Ok?)
    && job.src.inode(SECOND.loc).value.IsFile()
    && (job.src.inode(FIRST.loc).value.IsFile() || job.src.inode(FIRST.loc).value.IsSymlink())
    && (forall p :: !job.opts.refuses(p))
  }

  lemma LookalikeSafe()
    ensures Safe(false, REPLACEMENT) && Safe(false, REPLACEMENT + PARTIAL)
  {
    assert REPLACEMENT[0] != '.' && (REPLACEMENT + PARTIAL)[0] != '.';
    assert forall i :: 0 <= i < |PARTIAL| ==> !Illegal(false, PARTIAL[i]);
  }

  lemma TwoKeys(job: Job, dir: Loc)
    requires HoldsBoth(job, dir)
    ensures Keys(job, [FIRST, SECOND], "", {})
            == [Some(PlainComponent(REPLACEMENT + PARTIAL)), Some(PlainComponent(REPLACEMENT))]
  {
    hide Safe;
    hide KeyFor;
    LookalikeSafe();
    var entries := [FIRST, SECOND];
    assert LOOKALIKE != STRAY;
    assert |REPLACEMENT + PARTIAL| > |REPLACEMENT|;
    PlainKey(job, FIRST, {});
    PlainKey(job, SECOND, {REPLACEMENT + PARTIAL});
    assert entries[1..] == [SECOND] && [SECOND][1..] == [];
    assert {} + {REPLACEMENT + PARTIAL} == {REPLACEMENT + PARTIAL};
    assert Keys(job, [SECOND], "", {REPLACEMENT + PARTIAL})
           == [Some(PlainComponent(REPLACEMENT))];
  }

  lemma ListedInOrder()
    ensures Before(LOOKALIKE, STRAY)
  {
  }

  lemma LookalikeClashes(job: Job, dir: Loc, dest: Path)
    requires HoldsBoth(job, dir)
    ensures !TreeClear(job, dir, "", dest, 0)
  {
    hide Keys;
    TwoKeys(job, dir);
    var entries := [FIRST, SECOND];
    assert entries[0] == FIRST && entries[1] == SECOND && FIRST in entries && SECOND in entries;
    var keys := Keys(job, entries, "", {});
    assert Clash(job, dir, entries, keys, dest, 0, 1);
    assert Overwritten(job, dir, entries, keys, dest, 0, 2);
  }

  lemma BothReadable(job: Job, dir: Loc, dest: Path, above: set<Loc>)
    requires HoldsBoth(job, dir) && dir !in above && job.src.inode(FIRST.loc).value.IsFile()
    requires job.src.read(FIRST.loc).status.None? && job.src.read(SECOND.loc).status.None?
    ensures DirReadable(job, dir, "", dest, 0, above)
  {
    hide Keys;
    TwoKeys(job, dir);
    var entries := [FIRST, SECOND];
    var keys := Keys(job, entries, "", {});
    assert entries[0] == FIRST && entries[1] == SECOND && FIRST in entries && SECOND in entries;
    assert !DirEntryTaken(job, FIRST, dir) && !LinkEntry(job, FIRST, dir, dest + [keys[0].value.key]);
    forall i | 0 <= i < 2
      ensures EntryReadable(job, entries[i], dir, RelOf(job, "", entries[i]), dest + [keys[i].value.key],
                            dest + [keys[i].value.tmp], 0, above + {dir})
    {
    }
  }

  /** Two files that can be read, on a host that refuses nothing: the copy reports
      success without a failure, and is not faithful. */
  method CopyTwoFiles(c: Copier, dir: Loc, dest: Path) returns (ok: bool)
    requires dest != [] && HoldsBoth(c.job, dir) && dir !in c.ancestors
    requires c.job.src.inode(FIRST.loc).value.IsFile()
    requires c.job.src.read(FIRST.loc).status.None? && c.job.src.read(SECOND.loc).status.None?
    requires Vacant(c.host, dest) && MakeDirs(c.host, c.job.opts.refuses, dest).1
    modifies c
    ensures ok && c.report.failures == old(c.report.failures)
    ensures !DirCopied(c.job, c.host, dir, "", dest, 0)
    ensures Before(FIRST.name, SECOND.name)
  {
    ListedInOrder();
    hide Before;
    hide DirReadable;
    hide DirCopied;
    hide TreeClear;
    hide HoldsBoth;
    BothReadable(c.job, dir, dest, c.ancestors);
    LookalikeClashes(c.job, dir, dest);
    ghost var through;
    ok, through := c.CopyDir(dir, "", dest, 0);
  }

  /** A link and a file: no copy without failures is faithful. */
  method CopyLinkAndFile(c: Copier, dir: Loc, dest: Path) returns (ok: bool)
    requires dest != [] && HoldsBoth(c.job, dir) && c.job.src.inode(FIRST.loc).value.IsSymlink()
    requires Vacant(c.host, dest)
    modifies c
    ensures ok && c.report.failures == old(c.report.failures) ==> !DirCopied(c.job, c.host, dir, "", dest, 0)
  {
    hide DirReadable;
    hide DirCopied;
    hide TreeClear;
    hide HoldsBoth;
    LookalikeClashes(c.job, dir, dest);
    ghost var through;
    ok, through := c.CopyDir(dir, "", dest, 0);
  }

  /** What happens then: the file's copy reports success without a failure, and the
      link lies at the file's place instead of its own. */
  method CopyOntoLink(c: Copier, loc: Loc, dest: Path, tmp: Path) returns (ok: bool)
    requires Beside(dest, tmp) && dest !in c.host && LinkAt(c.host, tmp)
    requires c.job.src.inode(loc).Ok? && c.job.src.inode(loc).value.IsFile()
    requires LeafReadable(c.job, loc, dest, tmp) && CanOpen(c.job.opts, c.host, tmp)
    modifies c
    ensures ok && c.report.failures == old(c.report.failures)
    ensures !LeafCopied(c.job, c.host, loc, dest)
    ensures tmp !in c.host && dest in c.host && c.host[dest] == old(c.host)[tmp]
  {
    hide LeafCopied;
    hide CanOpen;
    assert c.host - {dest} == c.host;
    ghost var through;
    ok, through := c.CopyLeaf(loc, dest, tmp);
  }
}

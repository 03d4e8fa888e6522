// The recursive copy (src/copy.rs): entries renamed to host names of their own,
// files written beside their place and moved into it, one unreadable entry not
// costing the rest.
//
// A copy without failures is proved to be faithful exactly when no place of a file
// or link is the temporary name of a later file. Where it is a link's, the file is
// written through the link; `through` says that this has happened.

module Copy {
  import opened Bytes
  import opened Disk
  import opened FileData
  import opened Namespace
  import opened HostNames
  import opened HostTree
  import opened Sinks
  import opened CopyPlan

  datatype Report =
    Report(files: nat, dirs: nat, symlinks: nat, bytes: nat, excluded: nat, failures: nat, warnings: nat)

  /** No counter goes back. */
  predicate Grown(a: Report, b: Report) {
    && a.files <= b.files && a.dirs <= b.dirs && a.symlinks <= b.symlinks && a.bytes <= b.bytes
    && a.excluded <= b.excluded && a.failures <= b.failures && a.warnings <= b.warnings
  }

  /** What the report tells of, entry by entry. */
  function Told(r: Report): nat {
    r.files + r.dirs + r.symlinks + r.excluded + r.failures + r.warnings
  }

  /** At least `n` entries more are told of. */
  predicate Accounts(a: Report, b: Report, n: nat) {
    Grown(a, b) && Told(b) >= Told(a) + n
  }

  lemma AccountsNone(a: Report)
    ensures Accounts(a, a, 0)
  {
  }

  lemma AccountsLess(a: Report, b: Report, n: nat, m: nat)
    requires Accounts(a, b, n) && m <= n
    ensures Accounts(a, b, m)
  {
  }

  lemma AccountsLeaf(a: Report, b: Report, inode: Inode, refused: bool)
    requires LeafReported(a, b, inode, refused)
    ensures Accounts(a, b, 1)
  {
  }

  lemma AccountsExcluded(a: Report, b: Report, n: nat)
    requires Accounts(a, b, n)
    ensures Accounts(a, b.(excluded := b.excluded + 1), n + 1)
  {
  }

  /** An entry whose copy failed is told of as a failure. */
  lemma AccountsEntry(a: Report, b: Report, c: Report, n: nat, ok: bool)
    requires Accounts(a, b, n)
    requires exists w: nat :: w >= b.warnings && Accounts(b.(warnings := w), c, if ok then 1 else 0)
    ensures c.failures >= b.failures
    ensures Accounts(a, if ok then c else c.(failures := c.failures + 1, warnings := c.warnings + 1), n + 1)
  {
  }

  /** A component that a join cannot carry elsewhere. */
  predicate SafeComponent(host: string) {
    && host != "" && host != "." && host != ".."
    && forall i :: 0 <= i < |host| ==> host[i] != '/' && host[i] != '\\'
  }

  lemma ChosenIsComponent(windows: bool, fold: Folding, name: string, taken: set<string>)
    ensures SafeComponent(Chosen(fold, HostName(windows, name), taken))
  {
    var base := HostName(windows, name);
    var host := Chosen(fold, base, taken);
    HostNameSafe(windows, name);
    CandidateSafe(windows, base, FirstFree(fold, base, taken, 0));
    assert forall i :: 0 <= i < |host| ==> host[i] in host;
    assert AllDots(".") && AllDots("..") && AllDots("");
  }

  /** A destination: a name in a directory, which the host compares folded. */
  datatype Target = Target(dir: Path, name: string) {
    function At(fold: Folding): (p: Path)
      ensures p != [] && Beside(p, Temp(fold))
    {
      var c, p := ComponentOf(fold, name), dir + [fold(name)];
      assert p[..|p| - 1] == dir == Temp(fold)[..|p| - 1] && Temp(fold)[|dir|] != p[|dir|];
      p
    }

    function Temp(fold: Folding): Path {
      dir + [fold(name + PARTIAL)]
    }
  }

  /** A leaf given a directory, or a link to one, goes into it under its own name. */
  function LeafTarget(host: Host, opts: Options, name: string, dest: Target): Target {
    var p := dest.At(opts.fold);
    var at := if LinkAt(host, p) then opts.follow(host, p) else Some(p);
    if at.Some? && at.value in host && host[at.value] == Dir
    then Target(at.value, HostName(opts.windows, name)) else dest
  }

  lemma LeafGoesInside(host: Host, opts: Options, name: string, dest: Target)
    ensures var p, t := dest.At(opts.fold), LeafTarget(host, opts, name, dest);
            && (p !in host || host[p].File? ==> t == dest)
            && (p in host && host[p].Dir? ==>
                  && t.At(opts.fold) == p + [opts.fold(HostName(opts.windows, name))]
                  && t.Temp(opts.fold) == p + [opts.fold(HostName(opts.windows, name) + PARTIAL)])
            && (LinkAt(host, p) && opts.follow(host, p).Some? ==>
                  var end := opts.follow(host, p).value;
                  if end in host && host[end].Dir? then t == Target(end, HostName(opts.windows, name)) else t == dest)
  {
  }

  // ----- The copier -----

  class Copier {
    const job: Job
    var host: Host
    var report: Report
    var ancestors: set<Loc>

    constructor (job: Job, host: Host)
      ensures this.job == job && this.host == host && ancestors == {} && report.failures == 0
    {
      this.job, this.host := job, host;
      report, ancestors := Report(0, 0, 0, 0, 0, 0, 0), {};
    }

    /** Copies a directory or a leaf to `dest`. What can be read and written is copied
        to a vacant place without failures. Without failures, a directory copied
        to a vacant place is faithful exactly when its tree is clear; a leaf's copy is
        faithful exactly when it is no file or no link lies at its temporary name. */
    method Copy(loc: Loc, name: string, dest: Target) returns (ok: bool, ghost through: bool)
      modifies this
      ensures ancestors == old(ancestors)
      ensures ok && report.failures == old(report.failures) && job.src.inode(loc).Ok?
              && job.src.inode(loc).value.IsDir() && Vacant(old(host), dest.At(job.opts.fold)) ==>
                (DirCopied(job, host, loc, "", dest.At(job.opts.fold), 0)
                 <==> TreeClear(job, loc, "", dest.At(job.opts.fold), 0))
      ensures job.src.inode(loc).Ok? && job.src.inode(loc).value.IsDir() && Vacant(old(host), dest.At(job.opts.fold))
              && MakeDirs(old(host), job.opts.refuses, dest.At(job.opts.fold)).1
              && DirReadable(job, loc, "", dest.At(job.opts.fold), 0, old(ancestors)) ==>
                ok && report.failures == old(report.failures)
      ensures ok && job.src.inode(loc).Ok? && !job.src.inode(loc).value.IsDir() ==>
                var t := LeafTarget(old(host), job.opts, name, dest);
                LeafCopied(job, host, loc, t.At(job.opts.fold))
                <==> !(job.src.inode(loc).value.IsFile() && LinkAt(old(host), t.Temp(job.opts.fold)))
      ensures job.src.inode(loc).Err? ==> !ok && host == old(host)
      ensures job.src.inode(loc).Ok? && job.src.inode(loc).value.IsDir() ==>
                (ok <==> Enters(job, old(host), loc, dest.At(job.opts.fold), 0, old(ancestors)))
      ensures job.src.inode(loc).Ok? && !job.src.inode(loc).value.IsDir() ==>
                var t := LeafTarget(old(host), job.opts, name, dest);
                && (t.At(job.opts.fold) in old(host) && !job.opts.force ==> !ok && host == old(host))
                && ((&& LeafReadable(job, loc, t.At(job.opts.fold), t.Temp(job.opts.fold))
                     && Replaceable(job.opts, old(host), t.At(job.opts.fold))
                     && CanWriteAt(old(host), t.Temp(job.opts.fold))) ==> ok)
      ensures !job.opts.force && !through ==> KeepsOld(job.opts.fold, old(host), host)
    {
      through := false;
      var inode := job.src.inode(loc);
      if inode.Err? {
        return false, false;
      }
      if inode.value.IsDir() {
        ok, through := CopyDir(loc, "", dest.At(job.opts.fold), 0);
      } else {
        var t := LeafTarget(host, job.opts, name, dest);
        ok, through := CopyLeaf(loc, t.At(job.opts.fold), t.Temp(job.opts.fold));
        assert ComponentOf(job.opts.fold, t.name).tmp == t.Temp(job.opts.fold)[|t.dir|];
        if !job.opts.force && !through {
          TheseKept(job.opts.fold, old(host), host, t.At(job.opts.fold), t.Temp(job.opts.fold));
        }
      }
    }

    /** The ancestor set is restored on every return. Nothing but the destination
        changes unless a file was written through a link, which cannot be where the
        destination holds no links and the tree is clear. */
    method CopyDir(dir: Loc, rel: string, dest: Path, depth: nat) returns (ok: bool, ghost through: bool)
      requires dest != []
      modifies this
      ensures ancestors == old(ancestors) && Accounts(old(report), report, 0)
      ensures report.failures >= old(report.failures)
      ensures ok <==> Enters(job, old(host), dir, dest, depth, old(ancestors))
      ensures ok ==> job.src.readdir(dir).Ok? && report.dirs > old(report.dirs)
                     && Accounts(old(report), report, 1 + |job.src.readdir(dir).value|)
      ensures depth > MAX_DIR_DEPTH || dir in old(ancestors) || LinkAt(old(host), dest) ==> !ok && host == old(host)
      ensures NoNewLinks(old(host), host, dest)
      ensures !through ==> OnlyBelow(old(host), host, dest) && (LinkAt(host, dest) ==> LinkAt(old(host), dest))
      ensures !job.opts.force && !through ==> KeepsOld(job.opts.fold, old(host), host)
      ensures NoLinks(old(host), dest) && TreeClear(job, dir, rel, dest, depth) ==> !through
      ensures ok && report.failures == old(report.failures) && Vacant(old(host), dest) ==>
                && (DirCopied(job, host, dir, rel, dest, depth) <==> TreeClear(job, dir, rel, dest, depth))
                && (through ==> DirUnlinked(job, host, dir, rel, dest, depth))
      ensures Vacant(old(host), dest) && MakeDirs(old(host), job.opts.refuses, dest).1
              && DirReadable(job, dir, rel, dest, depth, old(ancestors)) ==>
                ok && !through && report.failures == old(report.failures)
      decreases if depth > MAX_DIR_DEPTH then 0 else MAX_DIR_DEPTH + 1 - depth, 3
    {
      if depth > MAX_DIR_DEPTH {
        return false, false;
      }
      if dir in ancestors {
        return false, false;
      }
      ReadableDepth(job, dir, rel, dest, depth, ancestors);
      assert ancestors + {dir} - {dir} == ancestors;
      ancestors := ancestors + {dir};
      ok, through := CopyDirInner(dir, rel, dest, depth);
      ancestors := ancestors - {dir};
    }

    method CopyDirInner(dir: Loc, rel: string, dest: Path, depth: nat) returns (ok: bool, ghost through: bool)
      requires dest != [] && depth <= MAX_DIR_DEPTH && dir in ancestors
      modifies this
      ensures ancestors == old(ancestors) && Accounts(old(report), report, 0)
      ensures report.failures >= old(report.failures)
      ensures ok <==> Enters(job, old(host), dir, dest, depth, old(ancestors) - {dir})
      ensures ok ==> job.src.readdir(dir).Ok? && report.dirs > old(report.dirs)
                     && Accounts(old(report), report, 1 + |job.src.readdir(dir).value|)
      ensures LinkAt(old(host), dest) ==> !ok && host == old(host)
      ensures NoNewLinks(old(host), host, dest)
      ensures !through ==> OnlyBelow(old(host), host, dest) && (LinkAt(host, dest) ==> LinkAt(old(host), dest))
      ensures !job.opts.force && !through ==> KeepsOld(job.opts.fold, old(host), host)
      ensures NoLinks(old(host), dest) && TreeClear(job, dir, rel, dest, depth) ==> !through
      ensures ok && report.failures == old(report.failures) && Vacant(old(host), dest) ==>
                && (DirCopied(job, host, dir, rel, dest, depth) <==> TreeClear(job, dir, rel, dest, depth))
                && (through ==> DirUnlinked(job, host, dir, rel, dest, depth))
      ensures Vacant(old(host), dest) && MakeDirs(old(host), job.opts.refuses, dest).1
              && DirReadable(job, dir, rel, dest, depth, old(ancestors) - {dir}) ==>
                ok && !through && report.failures == old(report.failures)
      decreases MAX_DIR_DEPTH + 1 - depth, 2
    {
      hide DirReadable;
      hide ListingReadable;
      hide Progressed;
      hide Ahead;
      hide ListingClear;
      hide ListingUnlinked;
      hide DirCopied;
      hide DirUnlinked;
      hide TreeClear;
      hide NoLinks;
      if LinkAt(host, dest) {
        return false, false;
      }
      var (made, created) := MakeDirs(host, job.opts.refuses, dest);
      host := made;
      if !created {
        return false, false;
      }
      report := report.(dirs := report.dirs + 1);
      var listing := job.src.readdir(dir);
      if listing.Err? {
        ReadableLists(job, dir, rel, dest, depth, ancestors - {dir});
        return false, false;
      }
      ghost var l := Listing(job, dir, listing.value, rel, dest, depth);
      ghost var isNew, linkFree := Vacant(old(host), dest), NoLinks(old(host), dest);
      ReadableListing(l, ancestors - {dir});
      assert ancestors - {dir} + {dir} == ancestors;
      if isNew {
        StillVacant(old(host), made, dest);
        NothingYet(l, made);
        VacantHasNoLinks(old(host), dest);
      }
      if linkFree {
        NoneAhead(l, old(host), made);
      }
      through := CopyEntries(dir, listing.value, rel, dest, depth, isNew, linkFree);
      ClearListing(l);
      if isNew && report.failures == old(report.failures) {
        if through {
          ListingAstray(l, host);
        } else {
          ListingCopied(l, host);
        }
      }
      if !through {
        OnlyAtSelf(old(host), made, host, dest);
      }
      ok := true;
    }

    /** The loop over a listing: rename what clashes, copy each entry, and let a
        failed one be counted without costing the rest. */
    method CopyEntries(dir: Loc, entries: seq<Entry>, rel: string, dest: Path, depth: nat,
                       ghost isNew: bool, ghost linkFree: bool) returns (ghost through: bool)
      requires dest != [] && depth <= MAX_DIR_DEPTH
      requires isNew ==> Progressed(Listing(job, dir, entries, rel, dest, depth), host, 0)
      requires linkFree ==> Ahead(Listing(job, dir, entries, rel, dest, depth), host, 0)
      modifies this
      ensures ancestors == old(ancestors) && Accounts(old(report), report, |entries|)
      ensures NoNewLinks(old(host), host, dest)
      ensures !through ==> OnlyUnder(old(host), host, dest)
      ensures !job.opts.force && !through ==> KeepsOld(job.opts.fold, old(host), host)
      ensures linkFree && ListingClear(Listing(job, dir, entries, rel, dest, depth)) ==> !through
      ensures isNew && report.failures == old(report.failures) ==>
                var l := Listing(job, dir, entries, rel, dest, depth);
                if through then ListingUnlinked(l, host, |entries|) else Progressed(l, host, |entries|)
      ensures isNew && ListingReadable(Listing(job, dir, entries, rel, dest, depth), old(ancestors)) ==>
                !through && report.failures == old(report.failures)
      decreases MAX_DIR_DEPTH + 1 - depth, 1
    {
      hide Accounts;
      hide Reached;
      hide EntryOutcome;
      hide Progressed;
      hide Ahead;
      hide ListingClear;
      hide ListingReadable;
      hide ListingUnlinked;
      hide OnlyUnder;
      hide NoNewLinks;
      hide Keys;
      hide KeyFor;
      hide Excluded;
      AccountsNone(report);
      var taken: set<string> := {};
      ghost var l, start := Listing(job, dir, entries, rel, dest, depth), Start(host, isNew, linkFree, ancestors);
      ghost var keys := Keys(job, entries, rel, {});
      through := false;
      ReachedFirst(l, start);
      for i := 0 to |entries|
        invariant ancestors == old(ancestors) && Accounts(old(report), report, i)
        invariant report.failures >= old(report.failures)
        invariant keys[i..] == Keys(job, entries[i..], rel, taken)
        invariant Reached(l, start, host, i, through, report.failures == old(report.failures))
      {
        KeysFrom(job, entries, rel, keys, i, taken);
        var e := entries[i];
        var name := job.src.lossy(e.name);
        ghost var clean := report.failures == old(report.failures);
        if Excluded(job, rel, name) {
          AccountsExcluded(old(report), report, i);
          report := report.(excluded := report.excluded + 1);
          ReachedExcluded(l, start, host, i, through, clean);
          continue;
        }
        ghost var named := report;
        var key := NameEntry(e, taken);
        taken := taken + {key.key};
        ChildBeside(dest, key.key, key.tmp);
        ghost var before, failures, t := host, report.failures, false;
        var ok;
        ok, t := CopyEntry(e, dir, RelOf(job, rel, e), dest + [key.key], dest + [key.tmp], depth);
        AccountsEntry(old(report), named, report, i, ok);
        ReachedNext(l, start, before, host, i, through, clean, Done(ok, t, report.failures == failures));
        through := through || t;
        if !ok {
          // The rest of the tree is copied all the same.
          report := report.(failures := report.failures + 1, warnings := report.warnings + 1);
        }
      }
      ReachedLast(l, start, host, |entries|, through, report.failures == old(report.failures));
    }

    /** The component an entry is written to; a warning when it is not its name. */
    method NameEntry(e: Entry, taken: set<string>) returns (key: Component)
      modifies this`report
      ensures key == KeyFor(job, e, taken)
      ensures var own := HostName(job.opts.windows, job.src.lossy(e.name));
              var kept := job.src.encode(own) == e.name && job.opts.fold(own) !in taken;
              && report == old(report).(warnings := old(report).warnings + if kept then 0 else 1)
              && (job.opts.fold(own) !in taken ==> key.key == job.opts.fold(own))
    {
      var name := job.src.lossy(e.name);
      var host := MakeHostName(job.opts.windows, name);
      var base := host;
      var renamed := job.src.encode(host) != e.name;
      if renamed || job.opts.fold(host) in taken {
        ghost var tries;
        host, tries := ChooseName(job.opts.fold, base, taken);
        report := report.(warnings := report.warnings + 1);
      } else {
        FirstFreeUnique(job.opts.fold, base, taken, 0);
      }
      // The program checks here that the join stayed below the destination.
      ChosenIsComponent(job.opts.windows, job.opts.fold, name, taken);
      assert SafeComponent(host);
      key := ComponentOf(job.opts.fold, host);
    }

    method CopyEntry(e: Entry, parent: Loc, rel: string, dest: Path, tmp: Path, depth: nat)
        returns (ok: bool, ghost through: bool)
      requires Beside(dest, tmp) && depth <= MAX_DIR_DEPTH
      modifies this
      ensures ancestors == old(ancestors) && Accounts(old(report), report, if ok then 1 else 0)
      ensures EntryOutcome(job, old(host), host, e, parent, rel, dest, tmp, depth, old(ancestors),
                           Done(ok, through, report.failures == old(report.failures)))
      ensures var skip := Skipped(job, e, parent);
              && (skip.Err? || (skip == Ok(false) && job.src.inode(e.loc).Err?) ==>
                    !ok && host == old(host) && report == old(report))
              && (skip == Ok(true) ==>
                    ok && host == old(host) && report == old(report).(excluded := old(report).excluded + 1))
      decreases MAX_DIR_DEPTH + 1 - depth, 0
    {
      hide DirReadable;
      hide Temporary;
      hide KeepsOld;
      hide Accounts;
      hide LeafReported;
      hide Enters;
      hide Keys;
      hide DirCopied;
      hide TreeClear;
      hide DirUnlinked;
      AccountsNone(report);
      AccountsExcluded(report, report, 0);
      KeepsOldSame(job.opts.fold, host);
      var skip := Skipped(job, e, parent);
      if skip.Err? {
        return false, false;
      }
      if skip.value {
        report := report.(excluded := report.excluded + 1);
        return true, false;
      }
      var inode := job.src.inode(e.loc);
      if inode.Err? {
        return false, false;
      }
      ghost var told := report;
      if inode.value.IsDir() {
        OneMoreDir(host, job.opts.refuses, dest);
        ghost var before := host;
        ok, through := CopyDir(e.loc, rel, dest, depth + 1);
        AccountsLess(told, report, if ok then 1 + |job.src.readdir(e.loc).value| else 0, if ok then 1 else 0);
        if !through {
          BelowIsAt(before, host, dest, tmp);
        }
      } else {
        ghost var before := host;
        ok, through := CopyLeaf(e.loc, dest, tmp);
        if ok {
          AccountsLeaf(told, report, inode.value, job.opts.refuses(dest));
        }
        if !through {
          TheseAreAt(before, host, dest, tmp);
          if !job.opts.force {
            TheseKept(job.opts.fold, before, host, dest, tmp);
          }
        }
      }
    }

    method CopyLeaf(loc: Loc, dest: Path, tmp: Path) returns (ok: bool, ghost through: bool)
      requires Beside(dest, tmp)
      modifies this`host, this`report
      ensures report.failures == old(report.failures)
      ensures NoNewLinks(old(host), host, dest)
      ensures !through ==> OnlyThese(old(host), host, dest, tmp)
      ensures through ==> LinkAt(old(host), tmp)
                          && job.src.inode(loc).Ok? && job.src.inode(loc).value.IsFile()
      ensures !through && LinkAt(host, dest) ==>
                LinkAt(old(host), dest)
                || (job.src.inode(loc).Ok? && job.src.inode(loc).value.IsSymlink() && !job.opts.refuses(dest))
      ensures ok ==> job.src.inode(loc).Ok?
                     && (through <==> job.src.inode(loc).value.IsFile() && LinkAt(old(host), tmp))
                     && (LeafCopied(job, host, loc, dest) <==> !through)
      ensures ok && !through ==> PartialSettled(old(host), host, tmp, job.src.inode(loc).value.IsFile())
      ensures ok && through ==> tmp !in host && dest in host && host[dest] == old(host)[tmp]
      ensures !through && dest in host ==> dest in old(host) || !host[dest].Dir?
      ensures (&& LeafReadable(job, loc, dest, tmp)
               && Replaceable(job.opts, old(host), dest)
               && (job.src.inode(loc).value.IsFile() ==> CanOpen(job.opts, old(host) - {dest}, tmp))) ==> ok
      ensures dest in old(host) && !job.opts.force ==> !ok && host == old(host)
      ensures !ok && !through ==>
                && (dest in host ==> SameAt(old(host), host, dest))
                && (tmp in host ==> SameAt(old(host), host, tmp) || job.opts.refuses(dest))
      ensures if ok then LeafReported(old(report), report, job.src.inode(loc).value, job.opts.refuses(dest))
              else report == old(report)
    {
      through := false;
      var inode := job.src.inode(loc);
      if inode.Err? {
        return false, false;
      }
      if dest in host {
        if !job.opts.force || host[dest].Dir? || job.opts.refuses(dest) {
          return false, false;
        }
        host := host - {dest};
      }
      if inode.value.IsSymlink() {
        var target := job.src.target(loc);
        if target.Err? {
          return false, false;
        }
        if job.opts.refuses(dest) {
          report := report.(warnings := report.warnings + 1);
          return true, false;
        }
        host := host[dest := Link(target.value)];
        report := report.(symlinks := report.symlinks + 1);
        return true, false;
      }
      if !inode.value.IsFile() {
        report := report.(warnings := report.warnings + 1);
        return true, false;
      }
      ghost var before := host;
      assert before == old(host) - {dest} && SameAt(old(host), before, tmp);
      ok, through := WriteFile(loc, inode.value, tmp);
      WithoutPartial(old(host), before, host, dest, tmp, through);
      if ok {
        MovedIntoPlace(old(host), before, host, dest, tmp, through);
      }
      assert !through ==> SameAt(before, host, dest);
      if !ok {
        // What was written so far is taken away again.
        if tmp in host && !host[tmp].Dir? && !job.opts.refuses(tmp) {
          host := host - {tmp};
        }
        return false, through;
      }
      if job.opts.refuses(dest) {
        return false, through;
      }
      host := (host - {tmp})[dest := host[tmp]];
      report := report.(files := report.files + 1, bytes := report.bytes + inode.value.size);
    }

    /** Streams a file into `tmp`, holes by seeking, and fixes its length. A link that
        lies at `tmp` is followed: the bytes go where it leads, and it stays. */
    method WriteFile(loc: Loc, inode: Inode, tmp: Path) returns (ok: bool, ghost through: bool)
      requires job.src.inode(loc) == Ok(inode)
      modifies this`host
      ensures through ==> LinkAt(old(host), tmp) && tmp in host && host[tmp] == old(host)[tmp]
      ensures !through ==> forall q :: q != tmp ==> SameAt(old(host), host, q)
      ensures forall q :: LinkAt(host, q) ==> LinkAt(old(host), q)
      ensures ok ==> Contents(job, loc).Some? && (through <==> LinkAt(old(host), tmp))
      ensures ok && !through ==> tmp in host && host[tmp] == File(Contents(job, loc).value)
                                 && (tmp in old(host) ==> old(host)[tmp].File?)
      ensures !through ==>
                if job.opts.refuses(tmp) || !CanWriteAt(old(host), tmp) then host == old(host)
                else CanWriteAt(host, tmp)
      ensures ok ==> var at := if through then job.opts.follow(old(host), tmp) else Some(tmp);
                     at.Some? && host == old(host)[at.value := File(Contents(job, loc).value)]
      ensures job.src.read(loc).status.None? && !job.opts.refuses(tmp) && CanOpen(job.opts, old(host), tmp) ==> ok
    {
      through := false;
      var at := tmp;
      if LinkAt(host, tmp) {
        var end := job.opts.follow(host, tmp);
        if end.None? {
          return false, false;
        }
        at := end.value;
      }
      if job.opts.refuses(at) || (at in host && !host[at].File?) {
        return false, false;
      }
      through := LinkAt(host, tmp);
      var em := job.src.read(loc);
      var file := new HostFile();
      if em.status.Some? {
        file.Send(em.pieces);
        host := host[at := File(file.data)];
        return false, through;
      }
      file.Receive(em.pieces, inode.size);
      host := host[at := File(file.data)];
      return true, through;
    }
  }

  /** A leaf counts as what it was copied as; one that could not be is a warning. */
  predicate LeafReported(a: Report, b: Report, inode: Inode, refused: bool) {
    if inode.IsFile() then b == a.(files := a.files + 1, bytes := a.bytes + inode.size)
    else if inode.IsSymlink() && !refused then b == a.(symlinks := a.symlinks + 1)
    else b == a.(warnings := a.warnings + 1)
  }

  /** How the copy of an entry ended: with success, having written through a link, and
      without counting a failure. */
  datatype Done = Done(ok: bool, through: bool, clean: bool)

  /** What copying an entry to `p`, with `t` for its temporary name, does to the host:
      nothing elsewhere unless it wrote through a link; from a place free of links and a
      clear tree it does not; without failures, in a fresh place, the entry is copied
      exactly when it is clear, or a link has gone; and what can be read succeeds. */
  ghost predicate EntryOutcome(job: Job, a: Host, b: Host, e: Entry, parent: Loc, rel: string, p: Path, t: Path,
                               depth: nat, above: set<Loc>, d: Done)
    requires depth <= MAX_DIR_DEPTH
  {
    && NoNewLinks(a, b, p)
    && (!d.through ==>
          && OnlyAt(a, b, p, t)
          && (LinkAt(b, p) ==> LinkAt(a, p) || LinkEntry(job, e, parent, p))
          && (p in b && b[p].Dir? ==> p in a || DirEntryTaken(job, e, parent)))
    && (!job.opts.force && !d.through && Temporary(job.opts.fold, t) ==> KeepsOld(job.opts.fold, a, b))
    && (d.ok && !d.through ==> PartialSettled(a, b, t, RegularEntry(job, e, parent)))
    && ((NoLinks(a, p) && EntryClear(job, e, parent, rel, p, depth)
         && (RegularEntry(job, e, parent) ==> !LinkAt(a, t))) ==> !d.through)
    && (d.ok && d.clean && Fresh(a, p) ==>
          if d.through then WentAstray(job, a, b, e, parent, rel, p, t, depth)
          else EntryCopied(job, b, e, parent, rel, p, depth) <==> EntryClear(job, e, parent, rel, p, depth))
    && ((EntryReadable(job, e, parent, rel, p, t, depth, above) && p != [] && Unobstructed(a, p)
         && (RegularEntry(job, e, parent) ==> CanWriteAt(a, t))) ==> d.ok && !d.through && d.clean)
  }

  /** A directory's copy goes through to its end, whatever becomes of its entries. */
  predicate Enters(job: Job, host: Host, dir: Loc, dest: Path, depth: nat, above: set<Loc>) {
    && depth <= MAX_DIR_DEPTH && dir !in above && !LinkAt(host, dest)
    && MakeDirs(host, job.opts.refuses, dest).1 && job.src.readdir(dir).Ok?
  }

  /** A path whose name some file's copy would use while it is written. */
  ghost predicate Temporary(fold: Folding, p: Path) {
    p != [] && exists name :: ComponentOf(fold, name).tmp == p[|p| - 1]
  }

  /** What was there is there still, unless it lies at a temporary name. */
  ghost predicate KeepsOld(fold: Folding, a: Host, b: Host) {
    forall q :: q in a && !Temporary(fold, q) ==> q in b && b[q] == a[q]
  }

  lemma KeepsOldSame(fold: Folding, a: Host)
    ensures KeepsOld(fold, a, a)
  {
  }

  lemma KeepsOldOn(fold: Folding, a: Host, b: Host, c: Host)
    requires KeepsOld(fold, a, b) && KeepsOld(fold, b, c)
    ensures KeepsOld(fold, a, c)
  {
    hide Temporary;
  }

  /** A leaf that replaces nothing keeps what was there. */
  lemma TheseKept(fold: Folding, a: Host, b: Host, p: Path, t: Path)
    requires OnlyThese(a, b, p, t) && (p in a ==> b == a)
    ensures Temporary(fold, t) ==> KeepsOld(fold, a, b)
  {
    hide Temporary;
    forall q | q in a && q != p && q != t
      ensures q in b && b[q] == a[q]
    {
      assert SameAt(a, b, q);
    }
  }

  lemma {:induction false} KeysTemporary(job: Job, entries: seq<Entry>, rel: string, taken: set<string>, i: nat)
    requires i < |entries| && Keys(job, entries, rel, taken)[i].Some?
    ensures exists name :: ComponentOf(job.opts.fold, name).tmp == Keys(job, entries, rel, taken)[i].value.tmp
    decreases |entries|
  {
    hide Excluded;
    if i > 0 {
      var next := if Excluded(job, rel, job.src.lossy(entries[0].name)) then taken
                  else taken + {KeyFor(job, entries[0], taken).key};
      KeysTemporary(job, entries[1..], rel, next, i - 1);
    }
  }

  /** What is at a leaf's place is taken away first: only by force, and no directory. */
  predicate Replaceable(opts: Options, host: Host, p: Path) {
    p in host ==> opts.force && !host[p].Dir? && !opts.refuses(p)
  }

  predicate CanWriteAt(host: Host, p: Path) {
    p in host ==> host[p].File?
  }

  /** Opening for writing succeeds: there is nothing, a file, or a link to one of
      those where the host refuses nothing. */
  predicate CanOpen(opts: Options, host: Host, p: Path) {
    || CanWriteAt(host, p)
    || (LinkAt(host, p)
        && var end := opts.follow(host, p);
           end.Some? && !opts.refuses(end.value) && CanWriteAt(host, end.value))
  }

  /** A free place in a directory that is there. */
  ghost predicate Unobstructed(host: Host, p: Path)
    requires p != []
  {
    Fresh(host, p) && p[..|p| - 1] in host && host[p[..|p| - 1]] == Dir
  }

  lemma OneMoreDir(host: Host, refuses: Path -> bool, p: Path)
    requires p != []
    ensures Unobstructed(host, p) && !refuses(p) ==> Vacant(host, p) && MakeDirs(host, refuses, p).1
  {
    if Unobstructed(host, p) && !refuses(p) {
      var parent := p[..|p| - 1];
      assert MakeDirs(host, refuses, parent) == (host, true);
      forall q | q in host
        ensures !(p < q)
      {
        assert !(p <= q);
      }
    }
  }

  /** The states around a file's writing: `a` before its place was cleared, `b` before
      it was written, `c` after; then the temporary file is removed or moved. */
  ghost predicate Written(a: Host, b: Host, c: Host, p: Path, t: Path, through: bool)
  {
    && (b == a || b == a - {p})
    && (forall q :: LinkAt(c, q) ==> LinkAt(b, q))
    && (!through ==> forall q :: q != t ==> SameAt(b, c, q))
  }

  lemma WithoutPartial(a: Host, b: Host, c: Host, p: Path, t: Path, through: bool)
    requires Beside(p, t) && Written(a, b, c, p, t, through)
    ensures NoNewLinks(a, c, p) && NoNewLinks(a, c - {t}, p)
    ensures !through ==> OnlyThese(a, c, p, t) && OnlyThese(a, c - {t}, p, t)
    ensures !through ==> (LinkAt(c, p) ==> LinkAt(a, p)) && (p in c ==> p in a)
    ensures LinkAt(b, t) <==> LinkAt(a, t)
  {
    forall q | q != p && q != t
      ensures !through ==> SameAt(a, c, q) && SameAt(a, c - {t}, q)
      ensures LinkAt(c - {t}, q) ==> LinkAt(a, q)
    {
      assert SameAt(a, b, q);
      assert !through ==> SameAt(b, c, q);
      assert LinkAt(c - {t}, q) ==> LinkAt(c, q);
    }
    assert !through ==> SameAt(b, c, p);
  }

  lemma MovedIntoPlace(a: Host, b: Host, c: Host, p: Path, t: Path, through: bool)
    requires Beside(p, t) && Written(a, b, c, p, t, through) && t in c
    ensures var d := (c - {t})[p := c[t]];
            NoNewLinks(a, d, p) && (!through ==> OnlyThese(a, d, p, t))
  {
    var d := (c - {t})[p := c[t]];
    forall q | q != p && q != t
      ensures !through ==> SameAt(a, d, q)
      ensures LinkAt(d, q) ==> LinkAt(a, q)
    {
      assert SameAt(a, b, q);
      assert !through ==> SameAt(b, c, q);
      assert LinkAt(d, q) ==> LinkAt(c, q);
    }
  }

  /** What a success that wrote through a link has done to an entry's surroundings:
      a link of the entry's own tree is gone, or the one at its temporary name. */
  ghost predicate WentAstray(job: Job, a: Host, b: Host, e: Entry, parent: Loc, rel: string, p: Path, t: Path,
                             depth: nat)
    requires depth <= MAX_DIR_DEPTH
  {
    || EntryUnlinked(job, b, e, parent, rel, p, depth)
    || (RegularEntry(job, e, parent) && LinkAt(a, t) && t !in b)
  }

  // ----- Steps of the loop over a listing -----

  /** A directory's entries on their way to `dest`. */
  datatype Listing = Listing(job: Job, dir: Loc, entries: seq<Entry>, rel: string, dest: Path, depth: nat) {
    function Names(): (keys: seq<Option<Component>>)
      ensures |keys| == |entries|
    {
      Keys(job, entries, rel, {})
    }

    predicate Kept(i: nat) {
      i < |entries| && Names()[i].Some?
    }

    function Place(i: nat): (p: Path)
      requires Kept(i)
      ensures p != [] && p == dest + [Names()[i].value.key]
    {
      dest + [Names()[i].value.key]
    }

    function Temp(i: nat): (t: Path)
      requires Kept(i)
      ensures t == dest + [Names()[i].value.tmp]
    {
      dest + [Names()[i].value.tmp]
    }

    function Rel(i: nat): string
      requires i < |entries|
    {
      RelOf(job, rel, entries[i])
    }

    ghost predicate Regular(i: nat)
      requires i < |entries|
    {
      RegularEntry(job, entries[i], dir)
    }

    ghost predicate Directory(i: nat)
      requires i < |entries|
    {
      DirEntryTaken(job, entries[i], dir)
    }

    ghost predicate MakesLink(i: nat)
      requires Kept(i)
    {
      LinkEntry(job, entries[i], dir, Place(i))
    }

    ghost predicate Copied(host: Host, i: nat)
      requires Kept(i) && depth <= MAX_DIR_DEPTH
    {
      EntryCopied(job, host, entries[i], dir, Rel(i), Place(i), depth)
    }

    ghost predicate Unlinked(host: Host, i: nat)
      requires Kept(i) && depth <= MAX_DIR_DEPTH
    {
      EntryUnlinked(job, host, entries[i], dir, Rel(i), Place(i), depth)
    }

    ghost predicate Clear(i: nat)
      requires Kept(i) && depth <= MAX_DIR_DEPTH
    {
      EntryClear(job, entries[i], dir, Rel(i), Place(i), depth)
    }

    ghost predicate Clashes(i: nat, j: nat) {
      Clash(job, dir, entries, Names(), dest, i, j)
    }

    ghost predicate Lost(i: nat, n: nat) {
      Overwritten(job, dir, entries, Names(), dest, i, n)
    }
  }

  /** What is directly in the directory belongs to an entry before `i`. */
  ghost predicate Covered(l: Listing, host: Host, i: nat) {
    forall q :: q in host && l.dest < q ==> exists j: nat :: j < i && l.Kept(j) && l.Place(j) <= q
  }

  /** What the loop has achieved before entry `i` while nothing failed and nothing was
      written through a link: of the entries before it exactly those are copied that
      are clear and not overwritten yet, links are where link entries go, and the
      places of the others are free. */
  ghost predicate Progressed(l: Listing, host: Host, i: nat) {
    && l.depth <= MAX_DIR_DEPTH
    && l.dest in host && host[l.dest] == Dir
    && Covered(l, host, i)
    && (forall k: nat :: i <= k && l.Kept(k) ==> Fresh(host, l.Place(k)))
    && (forall j: nat :: j < i && l.Kept(j) ==> (l.Copied(host, j) <==> l.Clear(j) && !l.Lost(j, i)))
    && (forall j: nat :: j < i && l.Kept(j) && LinkAt(host, l.Place(j)) ==> l.MakesLink(j))
    && (forall j: nat :: j < i && l.Kept(j) && l.Place(j) in host && host[l.Place(j)].Dir? ==> l.Directory(j))
  }

  /** No link lies where the entries from `i` on go, nor at their temporary names. */
  ghost predicate Ahead(l: Listing, host: Host, i: nat) {
    forall k: nat :: i <= k && l.Kept(k) ==>
      NoLinks(host, l.Place(k)) && (l.Regular(k) ==> !LinkAt(host, l.Temp(k)))
  }

  ghost predicate ListingClear(l: Listing) {
    && l.depth <= MAX_DIR_DEPTH
    && forall j: nat :: l.Kept(j) ==> l.Clear(j) && !l.Lost(j, |l.entries|)
  }

  ghost predicate ListingReadable(l: Listing, above: set<Loc>) {
    && l.depth <= MAX_DIR_DEPTH
    && (forall i, j :: 0 <= i < j < |l.entries| ==>
          !Obstacle(l.job, l.dir, l.entries, l.Names(), l.dest, i, j))
    && forall i: nat :: l.Kept(i) ==>
         EntryReadable(l.job, l.entries[i], l.dir, l.Rel(i), l.Place(i), l.Temp(i), l.depth, above)
  }

  lemma ReadableListing(l: Listing, above: set<Loc>)
    requires l.job.src.readdir(l.dir) == Ok(l.entries)
    ensures DirReadable(l.job, l.dir, l.rel, l.dest, l.depth, above) ==> ListingReadable(l, above + {l.dir})
  {
    hide Keys;
    hide EntryReadable;
    hide Obstacle;
  }

  lemma ReadableLists(job: Job, dir: Loc, rel: string, p: Path, depth: nat, above: set<Loc>)
    ensures DirReadable(job, dir, rel, p, depth, above) ==> job.src.readdir(dir).Ok?
  {
  }

  lemma ReadableDepth(job: Job, dir: Loc, rel: string, p: Path, depth: nat, above: set<Loc>)
    ensures DirReadable(job, dir, rel, p, depth, above) ==> depth <= MAX_DIR_DEPTH && dir !in above
  {
  }

  /** What a readable entry finds: its place free and its temporary name no
      directory's or link's. */
  lemma NothingInTheWay(l: Listing, host: Host, i: nat, above: set<Loc>)
    requires l.Kept(i) && Progressed(l, host, i) && ListingReadable(l, above)
    ensures EntryReadable(l.job, l.entries[i], l.dir, l.Rel(i), l.Place(i), l.Temp(i), l.depth, above)
    ensures Unobstructed(host, l.Place(i))
    ensures l.Regular(i) ==> CanWriteAt(host, l.Temp(i))
  {
    hide Keys;
    hide Fresh;
    hide EntryCopied;
    hide EntryClear;
    hide EntryReadable;
    hide Overwritten;
    assert l.Place(i)[..|l.Place(i)| - 1] == l.dest;
    var tmp := l.Temp(i);
    if l.Regular(i) && tmp in host {
      assert l.dest < tmp;
      var j: nat :| j < i && l.Kept(j) && l.Place(j) <= tmp;
      assert l.Place(j) == tmp && l.Names()[j].value.key == tmp[|l.dest|];
      assert !Obstacle(l.job, l.dir, l.entries, l.Names(), l.dest, j, i);
    }
  }

  /** A link of an entry before `i` has gone. */
  ghost predicate ListingUnlinked(l: Listing, host: Host, i: nat) {
    && l.depth <= MAX_DIR_DEPTH
    && exists j: nat :: j < i && l.Kept(j) && l.Unlinked(host, j)
  }

  lemma NoNewLinksSame(host: Host, dest: Path)
    ensures NoNewLinks(host, host, dest)
  {
  }

  lemma NothingYet(l: Listing, host: Host)
    requires l.depth <= MAX_DIR_DEPTH && l.dest in host && host[l.dest] == Dir
    requires forall q :: q in host ==> !(l.dest < q)
    ensures Progressed(l, host, 0)
  {
    hide Keys;
  }

  lemma NoneAhead(l: Listing, a: Host, b: Host)
    requires NoLinks(a, l.dest) && forall q :: LinkAt(b, q) ==> LinkAt(a, q)
    ensures Ahead(l, b, 0)
  {
    hide Keys;
    forall k: nat | l.Kept(k)
      ensures NoLinks(b, l.Place(k)) && !LinkAt(b, l.Temp(k))
    {
        forall q | LinkAt(b, q)
        ensures !(l.Place(k) <= q)
      {
        assert !(l.dest <= q);
      }
    }
  }

  /** A listing is clear when its directory is. */
  lemma ClearListing(l: Listing)
    requires l.depth <= MAX_DIR_DEPTH && l.job.src.readdir(l.dir) == Ok(l.entries)
    ensures ListingClear(l) <==> TreeClear(l.job, l.dir, l.rel, l.dest, l.depth)
  {
    hide Keys;
    hide EntryClear;
    hide Overwritten;
    var n := |l.entries|;
    var keys := Keys(l.job, l.entries, l.rel, {});
    if ListingClear(l) {
      forall j | 0 <= j < n && keys[j].Some?
        ensures !Overwritten(l.job, l.dir, l.entries, keys, l.dest, j, n)
        ensures EntryClear(l.job, l.entries[j], l.dir, RelOf(l.job, l.rel, l.entries[j]), l.dest + [keys[j].value.key],
                           l.depth)
      {
        assert l.Kept(j) && l.Clear(j) && !l.Lost(j, n);
      }
    }
  }

  /** After the last entry the directory is copied exactly when it is clear. */
  lemma ListingCopied(l: Listing, host: Host)
    requires Progressed(l, host, |l.entries|) && l.job.src.readdir(l.dir) == Ok(l.entries)
    ensures DirCopied(l.job, host, l.dir, l.rel, l.dest, l.depth) <==> TreeClear(l.job, l.dir, l.rel, l.dest, l.depth)
  {
    hide Keys;
    hide EntryCopied;
    hide EntryClear;
    hide Overwritten;
    hide TreeClear;
    hide Covered;
    hide Fresh;
    ClearListing(l);
    var n := |l.entries|;
    var keys := Keys(l.job, l.entries, l.rel, {});
    if DirCopied(l.job, host, l.dir, l.rel, l.dest, l.depth) {
      forall j: nat | l.Kept(j)
        ensures l.Clear(j) && !l.Lost(j, n)
      {
        assert keys[j].Some? && l.Copied(host, j);
      }
    }
    if ListingClear(l) {
      forall j | 0 <= j < n && keys[j].Some?
        ensures EntryCopied(l.job, host, l.entries[j], l.dir, RelOf(l.job, l.rel, l.entries[j]),
                            l.dest + [keys[j].value.key],
                            l.depth)
      {
        assert l.Kept(j) && l.Clear(j) && !l.Lost(j, n);
        assert l.Copied(host, j);
      }
    }
  }

  /** And when a link has gone it is neither. */
  lemma ListingAstray(l: Listing, host: Host)
    requires ListingUnlinked(l, host, |l.entries|) && l.job.src.readdir(l.dir) == Ok(l.entries)
    ensures DirUnlinked(l.job, host, l.dir, l.rel, l.dest, l.depth)
    ensures !DirCopied(l.job, host, l.dir, l.rel, l.dest, l.depth)
  {
    hide Keys;
    hide EntryUnlinked;
    hide DirCopied;
    var j: nat :| j < |l.entries| && l.Kept(j) && l.Unlinked(host, j);
    var keys := Keys(l.job, l.entries, l.rel, {});
    assert keys[j].Some?
           && EntryUnlinked(l.job, host, l.entries[j], l.dir, RelOf(l.job, l.rel, l.entries[j]),
                            l.dest + [keys[j].value.key],
                            l.depth);
    UnlinkedNotCopied(l.job, host, l.dir, l.rel, l.dest, l.depth);
  }

  // ----- The state of the loop -----

  /** The first of the components that are left, and those after it. */
  lemma KeysFrom(job: Job, entries: seq<Entry>, rel: string, keys: seq<Option<Component>>, i: nat, taken: set<string>)
    requires i < |entries| == |keys| && keys[i..] == Keys(job, entries[i..], rel, taken)
    ensures if Excluded(job, rel, job.src.lossy(entries[i].name))
            then keys[i].None? && keys[i + 1..] == Keys(job, entries[i + 1..], rel, taken)
            else var key := KeyFor(job, entries[i], taken);
                 keys[i] == Some(key) && keys[i + 1..] == Keys(job, entries[i + 1..], rel, taken + {key.key})
  {
    hide KeyFor;
    hide Excluded;
    assert entries[i..][0] == entries[i] && entries[i..][1..] == entries[i + 1..];
    assert keys[i + 1..] == keys[i..][1..] && keys[i] == keys[i..][0];
  }

  /** Where a listing started: the host, whether the place was new, whether it held no
      links, and the directories above. */
  datatype Start = Start(host: Host, isNew: bool, linkFree: bool, above: set<Loc>)

  /** What holds before entry `i`; `clean` while no failure was counted. */
  ghost predicate Reached(l: Listing, s: Start, host: Host, i: nat, through: bool, clean: bool) {
    && NoNewLinks(s.host, host, l.dest)
    && (!through ==> OnlyUnder(s.host, host, l.dest))
    && (!l.job.opts.force && !through ==> KeepsOld(l.job.opts.fold, s.host, host))
    && (s.linkFree && ListingClear(l) ==> !through && Ahead(l, host, i))
    && (s.isNew && clean ==> if through then ListingUnlinked(l, host, i) else Progressed(l, host, i))
    && (s.isNew && ListingReadable(l, s.above) ==> !through && clean)
  }

  lemma ReachedFirst(l: Listing, s: Start)
    requires s.isNew ==> Progressed(l, s.host, 0)
    requires s.linkFree ==> Ahead(l, s.host, 0)
    ensures Reached(l, s, s.host, 0, false, true)
  {
    hide Progressed;
    hide Ahead;
    hide ListingClear;
    hide ListingReadable;
    OnlyUnderSame(s.host, l.dest);
    NoNewLinksSame(s.host, l.dest);
  }

  lemma ReachedLast(l: Listing, s: Start, host: Host, i: nat, through: bool, clean: bool)
    requires Reached(l, s, host, i, through, clean)
    ensures NoNewLinks(s.host, host, l.dest)
    ensures !through ==> OnlyUnder(s.host, host, l.dest)
    ensures !l.job.opts.force && !through ==> KeepsOld(l.job.opts.fold, s.host, host)
    ensures s.linkFree && ListingClear(l) ==> !through
    ensures s.isNew && clean ==> if through then ListingUnlinked(l, host, i) else Progressed(l, host, i)
    ensures s.isNew && ListingReadable(l, s.above) ==> !through && clean
  {
    hide Progressed;
    hide Ahead;
    hide ListingClear;
    hide ListingReadable;
    hide ListingUnlinked;
    hide OnlyUnder;
    hide NoNewLinks;
  }

  lemma ReachedExcluded(l: Listing, s: Start, host: Host, i: nat, through: bool, clean: bool)
    requires i < |l.entries| && !l.Kept(i) && Reached(l, s, host, i, through, clean)
    ensures Reached(l, s, host, i + 1, through, clean)
  {
    hide Progressed;
    hide Ahead;
    hide ListingClear;
    hide ListingReadable;
    hide ListingUnlinked;
    hide OnlyUnder;
    hide NoNewLinks;
    EntryExcluded(l, host, i, s.isNew && clean, s.linkFree && ListingClear(l), through);
  }

  /** An entry copied takes the loop on. */
  lemma ReachedNext(l: Listing, s: Start, a: Host, b: Host, i: nat, through: bool, clean: bool, d: Done)
    requires l.depth <= MAX_DIR_DEPTH && l.Kept(i) && Reached(l, s, a, i, through, clean)
    requires EntryOutcome(l.job, a, b, l.entries[i], l.dir, l.Rel(i), l.Place(i), l.Temp(i), l.depth, s.above, d)
    ensures Reached(l, s, b, i + 1, through || d.through, clean && d.clean && d.ok)
  {
    hide Keys;
    hide Progressed;
    hide Ahead;
    hide ListingClear;
    hide ListingReadable;
    hide ListingUnlinked;
    hide OnlyUnder;
    hide NoNewLinks;
    hide EntryOutcome;
    ReachedFrame(l, s, a, b, i, through, clean, d);
    ReachedKeeps(l, s, a, b, i, through, clean, d);
    ReachedAhead(l, s, a, b, i, through, clean, d);
    ReachedSound(l, s, a, b, i, through, clean, d);
    ReachedReadable(l, s, a, b, i, through, clean, d);
  }

  lemma ReachedFrame(l: Listing, s: Start, a: Host, b: Host, i: nat, through: bool, clean: bool, d: Done)
    requires l.depth <= MAX_DIR_DEPTH && l.Kept(i) && Reached(l, s, a, i, through, clean)
    requires EntryOutcome(l.job, a, b, l.entries[i], l.dir, l.Rel(i), l.Place(i), l.Temp(i), l.depth, s.above, d)
    ensures NoNewLinks(s.host, b, l.dest)
    ensures !through && !d.through ==> OnlyUnder(s.host, b, l.dest)
  {
    hide Keys;
    hide Progressed;
    hide Ahead;
    hide ListingClear;
    hide ListingReadable;
    hide ListingUnlinked;
    hide OnlyUnder;
    hide NoNewLinks;
    hide OnlyAt;
    hide PartialSettled;
    hide EntryCopied;
    hide EntryClear;
    hide EntryReadable;
    hide WentAstray;
    NoNewLinksChild(s.host, a, b, l.dest, l.Names()[i].value.key);
    if !through && !d.through {
      OnlyUnderChild(s.host, a, b, l.dest, l.Names()[i].value.key, l.Names()[i].value.tmp);
    }
  }

  lemma ReachedKeeps(l: Listing, s: Start, a: Host, b: Host, i: nat, through: bool, clean: bool, d: Done)
    requires l.depth <= MAX_DIR_DEPTH && l.Kept(i) && Reached(l, s, a, i, through, clean)
    requires EntryOutcome(l.job, a, b, l.entries[i], l.dir, l.Rel(i), l.Place(i), l.Temp(i), l.depth, s.above, d)
    ensures !l.job.opts.force && !through && !d.through ==> KeepsOld(l.job.opts.fold, s.host, b)
  {
    hide Keys;
    hide Progressed;
    hide Ahead;
    hide ListingClear;
    hide ListingReadable;
    hide ListingUnlinked;
    hide OnlyUnder;
    hide NoNewLinks;
    hide OnlyAt;
    hide PartialSettled;
    hide EntryCopied;
    hide EntryClear;
    hide EntryReadable;
    hide WentAstray;
    hide KeepsOld;
    if !l.job.opts.force && !through && !d.through {
      KeysTemporary(l.job, l.entries, l.rel, {}, i);
      assert Temporary(l.job.opts.fold, l.Temp(i));
      KeepsOldOn(l.job.opts.fold, s.host, a, b);
    }
  }

  lemma ReachedAhead(l: Listing, s: Start, a: Host, b: Host, i: nat, through: bool, clean: bool, d: Done)
    requires l.depth <= MAX_DIR_DEPTH && l.Kept(i) && Reached(l, s, a, i, through, clean)
    requires EntryOutcome(l.job, a, b, l.entries[i], l.dir, l.Rel(i), l.Place(i), l.Temp(i), l.depth, s.above, d)
    ensures s.linkFree && ListingClear(l) ==> !through && !d.through && Ahead(l, b, i + 1)
  {
    hide Keys;
    hide Progressed;
    hide Ahead;
    hide ListingClear;
    hide ListingReadable;
    hide ListingUnlinked;
    hide OnlyUnder;
    hide NoNewLinks;
    hide NoLinks;
    hide OnlyAt;
    hide PartialSettled;
    hide EntryCopied;
    hide EntryClear;
    hide EntryReadable;
    hide WentAstray;
    if s.linkFree && ListingClear(l) {
      BeforeEntry(l, a, i, false, true, through);
      AheadSome(l, a, b, i);
    }
  }

  lemma ReachedSound(l: Listing, s: Start, a: Host, b: Host, i: nat, through: bool, clean: bool, d: Done)
    requires l.depth <= MAX_DIR_DEPTH && l.Kept(i) && Reached(l, s, a, i, through, clean)
    requires EntryOutcome(l.job, a, b, l.entries[i], l.dir, l.Rel(i), l.Place(i), l.Temp(i), l.depth, s.above, d)
    ensures s.isNew && clean && d.clean && d.ok ==>
              if through || d.through then ListingUnlinked(l, b, i + 1) else Progressed(l, b, i + 1)
  {
    hide Keys;
    hide Progressed;
    hide Ahead;
    hide ListingClear;
    hide ListingReadable;
    hide ListingUnlinked;
    hide OnlyUnder;
    hide NoNewLinks;
    hide NoLinks;
    hide OnlyAt;
    hide PartialSettled;
    hide EntryCopied;
    hide EntryClear;
    hide EntryReadable;
    hide WentAstray;
    hide Fresh;
    if s.isNew && clean && d.clean && d.ok {
      if through {
        UnlinkedSome(l, a, b, i);
      } else {
        BeforeEntry(l, a, i, true, false, false);
        if d.through {
          UnlinkedFirst(l, a, b, i);
        } else {
          ProgressSome(l, a, b, i);
        }
      }
    }
  }

  lemma ReachedReadable(l: Listing, s: Start, a: Host, b: Host, i: nat, through: bool, clean: bool, d: Done)
    requires l.depth <= MAX_DIR_DEPTH && l.Kept(i) && Reached(l, s, a, i, through, clean)
    requires EntryOutcome(l.job, a, b, l.entries[i], l.dir, l.Rel(i), l.Place(i), l.Temp(i), l.depth, s.above, d)
    ensures s.isNew && ListingReadable(l, s.above) ==> !through && clean && !d.through && d.clean && d.ok
  {
    hide Keys;
    hide Progressed;
    hide Ahead;
    hide ListingClear;
    hide ListingReadable;
    hide ListingUnlinked;
    hide OnlyUnder;
    hide NoNewLinks;
    hide NoLinks;
    hide OnlyAt;
    hide PartialSettled;
    hide EntryCopied;
    hide EntryClear;
    hide EntryReadable;
    hide WentAstray;
    hide Fresh;
    if s.isNew && ListingReadable(l, s.above) {
      NothingInTheWay(l, a, i, s.above);
    }
  }

  // ----- Before and after one entry -----

  /** An excluded entry changes nothing. */
  lemma EntryExcluded(l: Listing, host: Host, i: nat, sound: bool, clear: bool, through: bool)
    requires i < |l.entries| && !l.Kept(i)
    requires sound ==> if through then ListingUnlinked(l, host, i) else Progressed(l, host, i)
    requires clear ==> Ahead(l, host, i)
    ensures sound ==> if through then ListingUnlinked(l, host, i + 1) else Progressed(l, host, i + 1)
    ensures clear ==> Ahead(l, host, i + 1)
  {
    hide Ahead;
    hide Progressed;
    if sound && !through {
      ProgressNone(l, host, i);
    }
    if clear {
      AheadLess(l, host, i);
    }
  }

  lemma AheadLess(l: Listing, host: Host, i: nat)
    requires Ahead(l, host, i)
    ensures Ahead(l, host, i + 1)
  {
    hide Keys;
    hide NoLinks;
  }

  lemma ProgressNone(l: Listing, host: Host, i: nat)
    requires i < |l.entries| && !l.Kept(i) && Progressed(l, host, i)
    ensures Progressed(l, host, i + 1)
  {
    hide Keys;
    hide Fresh;
    hide EntryCopied;
    hide EntryClear;
    forall j: nat | j < i && l.Kept(j)
      ensures l.Lost(j, i + 1) <==> l.Lost(j, i)
    {
      LostLater(l, j, i);
    }
  }

  /** What an entry finds. */
  lemma BeforeEntry(l: Listing, host: Host, i: nat, sound: bool, clear: bool, through: bool)
    requires l.Kept(i)
    requires sound && !through ==> Progressed(l, host, i)
    requires clear ==> Ahead(l, host, i) && ListingClear(l)
    ensures sound && !through ==> Fresh(host, l.Place(i))
    ensures clear ==> NoLinks(host, l.Place(i)) && l.depth <= MAX_DIR_DEPTH && l.Clear(i)
    ensures clear ==> (l.Regular(i) ==> !LinkAt(host, l.Temp(i)))
  {
    hide Keys;
    hide Fresh;
    hide NoLinks;
    hide EntryCopied;
    hide EntryClear;
    hide Overwritten;
    hide Covered;
  }

  /** An entry takes the place only of what clashes with it. */
  lemma LostLater(l: Listing, j: nat, i: nat)
    requires i < |l.entries|
    ensures l.Lost(j, i + 1) <==> l.Lost(j, i) || l.Clashes(j, i)
  {
    hide Clash;
    hide Keys;
  }

  lemma NeverBySelf(l: Listing, i: nat)
    ensures !l.Lost(i, i + 1)
  {
    hide Keys;
  }

  /** In a clear listing the entries ahead stay free of links. */
  lemma AheadSome(l: Listing, a: Host, b: Host, i: nat)
    requires l.Kept(i) && ListingClear(l) && Ahead(l, a, i)
    requires NoNewLinks(a, b, l.Place(i))
    requires LinkAt(b, l.Place(i)) ==> LinkAt(a, l.Place(i)) || l.MakesLink(i)
    ensures Ahead(l, b, i + 1)
  {
    hide Keys;
    hide EntryClear;
    forall k: nat | i + 1 <= k && l.Kept(k)
      ensures NoLinks(b, l.Place(k)) && (l.Regular(k) ==> !LinkAt(b, l.Temp(k)))
    {
      KeysAreDistinct(l.job, l.entries, l.rel, {});
      NoLinksApart(a, b, l.dest, l.Names()[i].value.key, l.Names()[k].value.key);
      if l.Regular(k) {
        PartialFree(l, a, b, i, k);
      }
    }
  }

  lemma NoLinksApart(a: Host, b: Host, dest: Path, key: string, other: string)
    requires key != other && NoNewLinks(a, b, dest + [key]) && NoLinks(a, dest + [other])
    ensures NoLinks(b, dest + [other])
  {
    forall q | LinkAt(b, q)
      ensures !(dest + [other] <= q)
    {
      if dest + [other] <= q {
        ChildrenApart(dest, key, other, q);
      }
    }
  }

  lemma PartialFree(l: Listing, a: Host, b: Host, i: nat, k: nat)
    requires l.Kept(i) && l.Kept(k) && i < k && l.Regular(k) && ListingClear(l)
    requires !LinkAt(a, l.Temp(k)) && NoLinks(a, l.Place(i))
    requires NoNewLinks(a, b, l.Place(i))
    requires LinkAt(b, l.Place(i)) ==> LinkAt(a, l.Place(i)) || l.MakesLink(i)
    ensures !LinkAt(b, l.Temp(k))
  {
    hide Keys;
    hide EntryClear;
    var key, other := l.Names()[i].value.key, l.Names()[k].value.key;
    var tmp := l.Temp(k);
    if key == l.Names()[k].value.tmp {
      assert tmp == l.Place(i);
      assert l.Clashes(i, k) <==> l.Regular(i) || l.MakesLink(i);
      assert !l.Lost(i, |l.entries|);
      assert !l.MakesLink(i);
      assert l.Place(i) <= l.Place(i);
    } else {
      assert tmp[|l.dest|] == l.Names()[k].value.tmp && l.Place(i)[|l.dest|] == key;
    }
  }

  /** A link that is gone stays so. */
  lemma UnlinkedSome(l: Listing, a: Host, b: Host, i: nat)
    requires l.Kept(i) && ListingUnlinked(l, a, i) && NoNewLinks(a, b, l.Place(i))
    ensures ListingUnlinked(l, b, i + 1)
  {
    hide Keys;
    hide EntryUnlinked;
    var j: nat :| j < i && l.Kept(j) && l.Unlinked(a, j);
    KeysAreDistinct(l.job, l.entries, l.rel, {});
    forall q | l.Place(j) <= q && LinkAt(b, q)
      ensures LinkAt(a, q)
    {
      ChildrenApart(l.dest, l.Names()[i].value.key, l.Names()[j].value.key, q);
    }
    EntryUnlinkedStays(l.job, a, b, l.entries[j], l.dir, l.Rel(j), l.Place(j), l.depth);
    assert l.Unlinked(b, j);
  }

  /** The first write through a link takes the link from an entry. */
  lemma UnlinkedFirst(l: Listing, a: Host, b: Host, i: nat)
    requires l.Kept(i) && Progressed(l, a, i)
    requires WentAstray(l.job, a, b, l.entries[i], l.dir, l.Rel(i), l.Place(i), l.Temp(i), l.depth)
    ensures ListingUnlinked(l, b, i + 1)
  {
    hide Keys;
    hide EntryCopied;
    hide EntryClear;
    hide EntryUnlinked;
    hide Overwritten;
    hide Fresh;
    if l.Unlinked(b, i) {
    } else {
      var tmp := l.Temp(i);
        assert l.dest < tmp;
      var j: nat :| j < i && l.Kept(j) && l.Place(j) <= tmp;
      assert l.Place(j) == tmp;
      LinkTaken(l, b, j);
    }
  }

  lemma LinkTaken(l: Listing, b: Host, j: nat)
    requires l.depth <= MAX_DIR_DEPTH && l.Kept(j) && l.MakesLink(j) && l.Place(j) !in b
    ensures l.Unlinked(b, j)
  {
    hide Keys;
  }

  // ----- One more entry copied -----

  /** Entry i is copied: what that does to an earlier place. */
  lemma EarlierPlace(l: Listing, a: Host, b: Host, i: nat, j: nat)
    requires l.depth <= MAX_DIR_DEPTH && j < i && l.Kept(i) && l.Kept(j)
    requires OnlyAt(a, b, l.Place(i), l.Temp(i)) && PartialSettled(a, b, l.Temp(i), l.Regular(i))
    requires l.Copied(a, j) <==> l.Clear(j) && !l.Lost(j, i)
    ensures l.Copied(b, j) <==> l.Clear(j) && !l.Lost(j, i + 1)
  {
    hide Keys;
    hide EntryCopied;
    hide EntryClear;
    hide OnlyAt;
    hide PartialSettled;
    hide Overwritten;
    LostLater(l, j, i);
    KeysAreDistinct(l.job, l.entries, l.rel, {});
    var key, other := l.Names()[i].value.key, l.Names()[j].value.key;
    if other == l.Names()[i].value.tmp && l.Regular(i) {
        assert l.Place(j) == l.Temp(i);
      assert PartialSettled(a, b, l.Temp(i), true);
      Vacated(a, b, l.Temp(i));
      PlaceVacated(l, a, b, i, j);
    } else {
      SiblingKept(a, b, l.dest, key, l.Names()[i].value.tmp, other, l.Regular(i));
      SameUnderTurned(a, b, l.Place(j));
      if l.Copied(a, j) {
        EntryCopiedFrame(l.job, a, b, l.entries[j], l.dir, l.Rel(j), l.Place(j), l.depth);
      }
      if l.Copied(b, j) {
        EntryCopiedFrame(l.job, b, a, l.entries[j], l.dir, l.Rel(j), l.Place(j), l.depth);
      }
    }
  }

  lemma Vacated(a: Host, b: Host, t: Path)
    requires PartialSettled(a, b, t, true)
    ensures t !in b && (t in a ==> a[t].File?)
  {
  }

  /** What becomes of an entry whose place, empty or a file, is emptied. */
  lemma EntryVacated(job: Job, a: Host, b: Host, e: Entry, parent: Loc, rel: string, p: Path, depth: nat)
    requires depth <= MAX_DIR_DEPTH && p !in b && (p in a ==> a[p].File?)
    ensures RegularEntry(job, e, parent) || LinkEntry(job, e, parent, p) ==>
              !EntryCopied(job, b, e, parent, rel, p, depth)
    ensures LinkEntry(job, e, parent, p) ==> !EntryCopied(job, a, e, parent, rel, p, depth)
    ensures !RegularEntry(job, e, parent) ==>
              (EntryCopied(job, a, e, parent, rel, p, depth) <==> EntryCopied(job, b, e, parent, rel, p, depth))
  {
    hide Keys;
    hide Contents;
  }

  /** The place of entry j was the temporary name of entry i. */
  lemma PlaceVacated(l: Listing, a: Host, b: Host, i: nat, j: nat)
    requires l.depth <= MAX_DIR_DEPTH && j < i && l.Kept(i) && l.Kept(j)
    requires l.Names()[j].value.key == l.Names()[i].value.tmp && l.Regular(i)
    requires l.Place(j) !in b && (l.Place(j) in a ==> a[l.Place(j)].File?)
    requires l.Copied(a, j) <==> l.Clear(j) && !l.Lost(j, i)
    ensures l.Copied(b, j) <==> l.Clear(j) && !(l.Lost(j, i) || l.Clashes(j, i))
  {
    hide Keys;
    hide EntryCopied;
    hide EntryClear;
    hide RegularEntry;
    hide LinkEntry;
    EntryVacated(l.job, a, b, l.entries[j], l.dir, l.Rel(j), l.Place(j), l.depth);
  }

  /** Nor does it take a later place. */
  lemma LaterPlace(l: Listing, a: Host, b: Host, i: nat, k: nat)
    requires i < k && l.Kept(i) && l.Kept(k) && Fresh(a, l.Place(k))
    requires OnlyAt(a, b, l.Place(i), l.Temp(i)) && PartialSettled(a, b, l.Temp(i), l.Regular(i))
    ensures Fresh(b, l.Place(k))
  {
    hide Keys;
    var key, other := l.Names()[i].value.key, l.Names()[k].value.key;
    KeysAreDistinct(l.job, l.entries, l.rel, {});
    if other == l.Names()[i].value.tmp && l.Regular(i) {
      assert l.Temp(i) == l.Place(k);
      forall q | l.Place(k) < q
        ensures q !in b
      {
        assert q[|l.dest|] == other && l.Place(i)[|l.dest|] == key;
        assert SameAt(a, b, q);
      }
      assert forall q :: l.Place(k) <= q && |q| == |l.Place(k)| ==> q == l.Place(k);
    } else {
      SiblingKept(a, b, l.dest, key, l.Names()[i].value.tmp, other, l.Regular(i));
      FreshStays(a, b, l.Place(k));
    }
  }

  lemma StillCovered(l: Listing, a: Host, b: Host, i: nat)
    requires l.Kept(i) && Covered(l, a, i)
    requires OnlyAt(a, b, l.Place(i), l.Temp(i)) && PartialSettled(a, b, l.Temp(i), l.Regular(i))
    ensures Covered(l, b, i + 1)
  {
    hide Keys;
    hide RegularEntry;
    forall q | q in b && l.dest < q
      ensures exists j: nat :: j < i + 1 && l.Kept(j) && l.Place(j) <= q
    {
      if l.Place(i) <= q {
        assert i < i + 1 && l.Kept(i) && l.Place(i) <= q;
      } else {
        assert |q| >= |l.Place(i)|;
        assert SameAt(a, b, q);
        var j: nat :| j < i && l.Kept(j) && l.Place(j) <= q;
        assert j < i + 1 && l.Kept(j) && l.Place(j) <= q;
      }
    }
  }

  lemma ProgressSome(l: Listing, a: Host, b: Host, i: nat)
    requires l.Kept(i) && Progressed(l, a, i)
    requires OnlyAt(a, b, l.Place(i), l.Temp(i)) && PartialSettled(a, b, l.Temp(i), l.Regular(i))
    requires NoNewLinks(a, b, l.Place(i)) && (LinkAt(b, l.Place(i)) ==> LinkAt(a, l.Place(i)) || l.MakesLink(i))
    requires l.Place(i) in b && b[l.Place(i)].Dir? ==> l.Place(i) in a || l.Directory(i)
    requires l.Copied(b, i) <==> l.Clear(i)
    ensures Progressed(l, b, i + 1)
  {
    hide Keys;
    hide EntryCopied;
    hide EntryClear;
    hide OnlyAt;
    hide PartialSettled;
    hide Overwritten;
    hide Fresh;
    hide Covered;
    hide NoNewLinks;
    StillCovered(l, a, b, i);
    assert SameAt(a, b, l.dest) by {
      DirUntouched(a, b, l.dest, l.Names()[i].value.key, l.Names()[i].value.tmp);
    }
    forall k: nat | i + 1 <= k && l.Kept(k)
      ensures Fresh(b, l.Place(k))
    {
      LaterPlace(l, a, b, i, k);
    }
    forall j: nat | j < i + 1 && l.Kept(j)
      ensures l.Copied(b, j) <==> l.Clear(j) && !l.Lost(j, i + 1)
      ensures LinkAt(b, l.Place(j)) ==> l.MakesLink(j)
      ensures l.Place(j) in b && b[l.Place(j)].Dir? ==> l.Directory(j)
    {
      if j == i {
        NeverBySelf(l, i);
        FreshHasNoLinks(a, l.Place(i));
        FreshIsFree(a, l.Place(i));
      } else {
        DirWasThere(l, a, b, i, j);
        EarlierPlace(l, a, b, i, j);
        LinkWasThere(l, a, b, i, j);
      }
    }
  }

  lemma FreshIsFree(host: Host, p: Path)
    requires Fresh(host, p)
    ensures p !in host
  {
    assert p <= p;
  }

  lemma DirWasThere(l: Listing, a: Host, b: Host, i: nat, j: nat)
    requires l.Kept(i) && l.Kept(j) && i != j
    requires OnlyAt(a, b, l.Place(i), l.Temp(i)) && PartialSettled(a, b, l.Temp(i), l.Regular(i))
    ensures l.Place(j) in b ==> SameAt(a, b, l.Place(j))
  {
    hide Keys;
    hide RegularEntry;
    KeysAreDistinct(l.job, l.entries, l.rel, {});
    var p, q := l.Place(i), l.Place(j);
    assert p[|l.dest|] != q[|l.dest|];
    if q != l.Temp(i) {
      assert !(p <= q) && !(q <= p);
    }
  }

  lemma LinkWasThere(l: Listing, a: Host, b: Host, i: nat, j: nat)
    requires l.Kept(i) && l.Kept(j) && i != j && NoNewLinks(a, b, l.Place(i))
    ensures LinkAt(b, l.Place(j)) ==> LinkAt(a, l.Place(j))
  {
    hide Keys;
    KeysAreDistinct(l.job, l.entries, l.rel, {});
    ChildrenApart(l.dest, l.Names()[i].value.key, l.Names()[j].value.key, l.Place(j));
  }
}

// The host's filesystem as the copy sees it: a map from paths to nodes, a path
// being the components as the host compares them, and what may differ between two
// states of it.

module HostTree {
  import opened Bytes

  type Path = seq<string>

  datatype HostNode = Dir | File(bytes: seq<byte>) | Link(target: seq<byte>)

  type Host = map<Path, HostNode>

  /** `t` is another name beside `p`, in the same directory. */
  predicate Beside(p: Path, t: Path) {
    p != [] && |t| == |p| && t[..|p| - 1] == p[..|p| - 1] && t != p
  }

  predicate LinkAt(host: Host, p: Path) {
    p in host && host[p].Link?
  }

  // ----- What is there -----

  ghost predicate Fresh(host: Host, p: Path) {
    forall q :: q in host ==> !(p <= q)
  }

  /** A place for a directory: nothing there, or an empty directory. */
  ghost predicate Vacant(host: Host, p: Path) {
    && (p in host ==> host[p] == Dir)
    && forall q :: q in host ==> !(p < q)
  }

  ghost predicate NoLinks(host: Host, p: Path) {
    forall q :: LinkAt(host, q) ==> !(p <= q)
  }

  // ----- What may differ -----

  ghost predicate SameAt(a: Host, b: Host, p: Path) {
    (p in a <==> p in b) && (p in a ==> a[p] == b[p])
  }

  ghost predicate SameUnder(a: Host, b: Host, p: Path) {
    forall q :: p <= q ==> SameAt(a, b, q)
  }

  /** Only `p` and what is under it may differ; missing parents of `p` may have been
      made. */
  ghost predicate OnlyBelow(a: Host, b: Host, p: Path) {
    forall q :: !(p <= q) && !(q <= p && q !in a) ==> SameAt(a, b, q)
  }

  /** The same, but for the temporary name `t` too. */
  ghost predicate OnlyAt(a: Host, b: Host, p: Path, t: Path) {
    forall q :: !(p <= q) && q != t && !(q <= p && q !in a) ==> SameAt(a, b, q)
  }

  /** Only the two paths may differ. */
  ghost predicate OnlyThese(a: Host, b: Host, p: Path, t: Path) {
    forall q :: q != p && q != t ==> SameAt(a, b, q)
  }

  /** Only what is strictly under `dest` may differ. */
  ghost predicate OnlyUnder(a: Host, b: Host, dest: Path) {
    dest in a ==> forall q :: !(dest < q) && !(q <= dest && q !in a) ==> SameAt(a, b, q)
  }

  /** Outside `p` there is no link that was not there before. */
  ghost predicate NoNewLinks(a: Host, b: Host, p: Path) {
    forall q :: LinkAt(b, q) && !(p <= q) ==> LinkAt(a, q)
  }

  /** What a file's success leaves beside its place: no temporary file, which may
      have replaced a file of that name; beside other places, what was there. */
  ghost predicate PartialSettled(a: Host, b: Host, t: Path, regular: bool) {
    if regular then t !in b && (t in a ==> a[t].File?) else SameAt(a, b, t)
  }

  lemma SameUnderTurned(a: Host, b: Host, p: Path)
    requires SameUnder(a, b, p)
    ensures SameUnder(b, a, p)
  {
    forall q | p <= q
      ensures SameAt(b, a, q)
    {
      assert SameAt(a, b, q);
    }
  }

  lemma FreshStays(a: Host, b: Host, p: Path)
    requires Fresh(a, p) && SameUnder(a, b, p)
    ensures Fresh(b, p)
  {
    forall q | q in b
      ensures !(p <= q)
    {
      assert p <= q ==> SameAt(a, b, q);
    }
  }

  lemma FreshHasNoLinks(host: Host, p: Path)
    requires Fresh(host, p)
    ensures NoLinks(host, p) && !LinkAt(host, p)
  {
  }

  lemma VacantHasNoLinks(host: Host, p: Path)
    requires Vacant(host, p)
    ensures NoLinks(host, p) && !LinkAt(host, p)
  {
    forall q | LinkAt(host, q)
      ensures !(p <= q)
    {
      assert p <= q && !(p < q) ==> p == q;
    }
  }

  // ----- Beside one child of a directory -----

  lemma BelowIsAt(a: Host, b: Host, p: Path, t: Path)
    requires OnlyBelow(a, b, p) && Beside(p, t)
    ensures OnlyAt(a, b, p, t) && PartialSettled(a, b, t, false)
  {
    assert !(p <= t) && !(t <= p);
  }

  lemma TheseAreAt(a: Host, b: Host, p: Path, t: Path)
    requires OnlyThese(a, b, p, t)
    ensures OnlyAt(a, b, p, t)
  {
    assert p <= p;
  }

  lemma ChildBeside(dest: Path, key: string, tmp: string)
    requires key != tmp
    ensures Beside(dest + [key], dest + [tmp])
  {
    assert (dest + [key])[|dest|] != (dest + [tmp])[|dest|];
  }

  /** Copying one entry does not touch another's place, unless that is its
      temporary name and it uses it. */
  lemma SiblingKept(a: Host, b: Host, dest: Path, key: string, tmp: string, other: string, regular: bool)
    requires OnlyAt(a, b, dest + [key], dest + [tmp]) && PartialSettled(a, b, dest + [tmp], regular)
    requires key != other && !(other == tmp && regular)
    ensures SameUnder(a, b, dest + [other])
  {
    var p, o := dest + [key], dest + [other];
    forall q | o <= q
      ensures SameAt(a, b, q)
    {
      assert q[|dest|] == o[|dest|] == other && p[|dest|] == key;
    }
  }

  /** Different children's places have nothing in common. */
  lemma ChildrenApart(dest: Path, key: string, other: string, q: Path)
    requires key != other && dest + [other] <= q
    ensures !(dest + [key] <= q)
  {
    assert q[|dest|] == other;
  }

  lemma DirUntouched(a: Host, b: Host, dest: Path, key: string, tmp: string)
    requires OnlyAt(a, b, dest + [key], dest + [tmp]) && dest in a
    ensures SameAt(a, b, dest)
  {
    assert |dest| < |dest + [key]| == |dest + [tmp]|;
  }

  lemma OnlyUnderSame(a: Host, dest: Path)
    ensures OnlyUnder(a, a, dest)
  {
  }

  lemma OnlyUnderChild(a: Host, b: Host, c: Host, dest: Path, key: string, tmp: string)
    requires OnlyUnder(a, b, dest) && OnlyAt(b, c, dest + [key], dest + [tmp])
    ensures OnlyUnder(a, c, dest)
  {
    var p := dest + [key];
    if dest in a {
      forall q | !(dest < q) && !(q <= dest && q !in a)
        ensures SameAt(a, c, q)
      {
        assert SameAt(a, b, q);
        assert q != dest + [tmp];
        assert q <= p ==> q <= dest;
        assert SameAt(b, c, q);
      }
    }
  }

  lemma OnlyAtSelf(a: Host, b: Host, c: Host, dest: Path)
    requires dest in b && OnlyUnder(b, c, dest)
    requires forall q :: !(q <= dest && q !in a) ==> SameAt(a, b, q)
    ensures OnlyBelow(a, c, dest)
  {
    forall q | !(dest <= q) && !(q <= dest && q !in a)
      ensures SameAt(a, c, q)
    {
      assert SameAt(a, b, q);
      assert SameAt(b, c, q);
    }
  }

  lemma NoNewLinksChild(a: Host, b: Host, c: Host, dest: Path, key: string)
    requires NoNewLinks(a, b, dest) && NoNewLinks(b, c, dest + [key])
    ensures NoNewLinks(a, c, dest)
  {
    forall q | LinkAt(c, q) && !(dest <= q)
      ensures LinkAt(a, q)
    {
      assert !(dest + [key] <= q);
    }
  }

  // ----- Directories -----

  /** Creating a directory and its missing parents; those made before a failure
      stay. The root is always there. */
  function MakeDirs(host: Host, refuses: Path -> bool, p: Path): (r: (Host, bool))
    ensures forall q :: !(q <= p && q !in host) ==> SameAt(host, r.0, q)
    ensures forall q :: LinkAt(r.0, q) ==> LinkAt(host, q)
    ensures r.1 && p != [] && !LinkAt(host, p) ==> p in r.0 && r.0[p] == Dir
    decreases |p|
  {
    if p in host then (host, !host[p].File?)
    else if p == [] then (host, true)
    else
      var parent := p[..|p| - 1];
      var (h, ok) := MakeDirs(host, refuses, parent);
      if !ok || refuses(p) then (h, false) else (h[p := Dir], true)
  }

  /** Creating succeeds exactly when the last thing that is there on the way is no file
      and the host refuses nothing below it; then all below it are directories. */
  lemma {:induction false} MakeDirsExactly(host: Host, refuses: Path -> bool, p: Path, n: nat)
    requires n <= |p| && (n == 0 || p[..n] in host) && forall i :: n < i <= |p| ==> p[..i] !in host
    ensures var (made, ok) := MakeDirs(host, refuses, p);
            && (ok <==> !(p[..n] in host && host[p[..n]].File?) && forall i :: n < i <= |p| ==> !refuses(p[..i]))
            && (ok ==> forall i :: n < i <= |p| ==> p[..i] in made && made[p[..i]] == Dir)
    decreases |p|
  {
    assert p[..|p|] == p;
    if n < |p| {
      var parent := p[..|p| - 1];
      assert forall i :: 0 <= i <= |parent| ==> parent[..i] == p[..i];
      MakeDirsExactly(host, refuses, parent, n);
    }
  }

  /** In a vacant place nothing lies where a directory's entries will go. */
  lemma StillVacant(a: Host, b: Host, dest: Path)
    requires Vacant(a, dest) && forall q :: !(q <= dest && q !in a) ==> SameAt(a, b, q)
    ensures forall q :: q in b ==> !(dest < q)
  {
    forall q | q in b
      ensures !(dest < q)
    {
      assert dest < q ==> SameAt(a, b, q);
    }
  }
}

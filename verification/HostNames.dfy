// Host names for copied entries (src/copy.rs): a raw name becomes one safe path
// component, and within a directory every entry gets a name of its own.

module HostNames {
  import opened Decimals

  // ----- One safe component -----

  predicate WindowsIllegal(c: char) {
    c == '<' || c == '>' || c == ':' || c == '"' || c == '|' || c == '?' || c == '*'
  }

  predicate Illegal(windows: bool, c: char) {
    c == '/' || c == '\\' || c < ' ' || (windows && WindowsIllegal(c))
  }

  function Clean(windows: bool, name: string): (r: string)
    ensures |r| == |name|
    ensures forall i :: 0 <= i < |name| ==> r[i] == if Illegal(windows, name[i]) then '_' else name[i]
  {
    seq(|name|, i requires 0 <= i < |name| => if Illegal(windows, name[i]) then '_' else name[i])
  }

  predicate AllDots(s: string) {
    forall i :: 0 <= i < |s| ==> s[i] == '.'
  }

  function Upper(c: char): char {
    if 'a' <= c <= 'z' then c - 'a' + 'A' else c
  }

  function UpperAll(s: string): (r: string)
    ensures |r| == |s| && forall i :: 0 <= i < |s| ==> r[i] == Upper(s[i])
  {
    seq(|s|, i requires 0 <= i < |s| => Upper(s[i]))
  }

  /** What precedes the first dot. */
  function Stem(s: string): (r: string)
    ensures r <= s && '.' !in r
  {
    if s == "" || s[0] == '.' then "" else
      assert s == [s[0]] + s[1..];
      [s[0]] + Stem(s[1..])
  }

  predicate DeviceName(s: string) {
    || s == "CON" || s == "PRN" || s == "AUX" || s == "NUL" || s == "CONIN$" || s == "CONOUT$"
    || (|s| == 4 && (s[..3] == "COM" || s[..3] == "LPT") && '0' <= s[3] <= '9')
  }

  predicate Reserved(s: string) {
    DeviceName(UpperAll(Stem(s)))
  }

  predicate EndsBadly(s: string) {
    s != "" && (s[|s| - 1] == '.' || s[|s| - 1] == ' ')
  }

  function NotJustDots(s: string): string {
    if AllDots(s) then "_" + s else s
  }

  /** The safe component a raw name is turned into. */
  function HostName(windows: bool, name: string): string {
    var out := NotJustDots(Clean(windows, name));
    if !windows then out else
      var out := if EndsBadly(out) then out + "_" else out;
      if Reserved(out) then "_" + out else out
  }

  method MakeHostName(windows: bool, name: string) returns (out: string)
    ensures out == HostName(windows, name)
  {
    out := "";
    for i := 0 to |name|
      invariant out == Clean(windows, name)[..i]
    {
      out := out + [if Illegal(windows, name[i]) then '_' else name[i]];
    }
    assert out == Clean(windows, name);
    if out == "" || AllDots(out) {
      out := "_" + out;
    }
    if windows {
      if EndsBadly(out) {
        out := out + "_";
      }
      if Reserved(out) {
        out := "_" + out;
      }
    }
  }

  /** One component that stays where it is joined: not empty, no navigation, no
      separator, no control character; on Windows also none of its reserved
      characters, endings and device names. */
  ghost predicate Safe(windows: bool, s: string) {
    && !AllDots(s)
    && (forall c :: c in s ==> !Illegal(windows, c))
    && (windows ==> !EndsBadly(s) && !Reserved(s))
  }

  /** What precedes the first dot, as another way to say it. */
  predicate IsStem(s: string, t: string) {
    t <= s && '.' !in t && (t == s || s[|t|] == '.')
  }

  lemma {:induction false} StemIs(s: string, t: string)
    ensures IsStem(s, t) <==> t == Stem(s)
  {
    if s != "" && s[0] != '.' {
      StemIs(s[1..], if t == "" then "" else t[1..]);
      assert s == [s[0]] + s[1..];
      if t != "" {
        assert t == [t[0]] + t[1..];
        assert '.' in t <==> t[0] == '.' || '.' in t[1..];
        assert t <= s <==> t[0] == s[0] && t[1..] <= s[1..];
      }
    }
  }

  const DEVICES: set<string> := {"CON", "PRN", "AUX", "NUL", "CONIN$", "CONOUT$"}

  /** What safe means, character by character. */
  lemma SafeMeans(windows: bool, s: string, t: string)
    requires IsStem(s, t)
    ensures Safe(windows, s)
         <==> && (exists c :: c in s && c != '.')
              && (forall c :: c in s ==> c >= '\U{20}' && c != '/' && c != '\\')
              && (windows ==>
                    && (forall c :: c in s ==> c !in {'<', '>', ':', '"', '|', '?', '*'})
                    && s[|s| - 1] !in {'.', ' '}
                    && UpperAll(t) !in DEVICES
                    && !(|t| == 4 && UpperAll(t)[..3] in {"COM", "LPT"} && t[3] in "0123456789"))
  {
    hide Stem;
    StemIs(s, t);
    DigitsAre(t);
    assert AllDots(s) <==> forall c :: c in s ==> c == '.' by {
      assert forall i :: 0 <= i < |s| ==> s[i] in s;
    }
  }

  lemma DigitsAre(t: string)
    ensures |t| == 4 ==> ('0' <= UpperAll(t)[3] <= '9' <==> t[3] in "0123456789")
  {
  }

  /** Nothing of a name is lost: its clean characters stay in their order, and what
      is put before or after them is an underscore. */
  lemma NameStays(windows: bool, name: string) returns (k: nat)
    ensures var h := HostName(windows, name);
            && k + |name| <= |h| <= |name| + 2 && h[k..k + |name|] == Clean(windows, name)
            && forall i :: 0 <= i < k || k + |name| <= i < |h| ==> h[i] == '_'
  {
    hide Reserved;
    hide EndsBadly;
    hide AllDots;
    var c := Clean(windows, name);
    var d := NotJustDots(c);
    var e := if EndsBadly(d) then d + "_" else d;
    if windows && AllDots(c) {
      UnderscoreNotReserved(c);
      UnderscoreNotReserved(c + "_");
      assert "_" + (c + "_") == "_" + c + "_";
    }
    var front := if AllDots(c) || (windows && Reserved(e)) then "_" else "";
    var back := if windows && EndsBadly(d) then "_" else "";
    k := |front|;
    Surrounded(front, c, back);
    assert HostName(windows, name) == front + c + back;
  }

  lemma Surrounded(front: string, c: string, back: string)
    requires front in {"", "_"} && back in {"", "_"}
    ensures var h := front + c + back;
            && |h| == |front| + |c| + |back| && h[|front|..|front| + |c|] == c
            && forall i :: 0 <= i < |front| || |front| + |c| <= i < |h| ==> h[i] == '_'
  {
  }

  lemma UnderscoreNotReserved(s: string)
    ensures !Reserved("_" + s)
  {
    var t := "_" + s;
    assert t[0] == '_';
    assert Stem(t)[0] == '_';
    assert UpperAll(Stem(t))[0] == '_';
  }

  lemma LegalAppended(windows: bool, a: string, b: string)
    requires forall c :: c in a ==> !Illegal(windows, c)
    requires forall c :: c in b ==> !Illegal(windows, c)
    ensures forall c :: c in a + b ==> !Illegal(windows, c)
  {
  }

  /** Every raw name becomes a safe component. */
  lemma HostNameSafe(windows: bool, name: string)
    ensures Safe(windows, HostName(windows, name))
  {
    hide Reserved;
    var c0 := Clean(windows, name);
    assert forall c :: c in c0 ==> !Illegal(windows, c);
    LegalAppended(windows, "_", c0);
    var c1 := NotJustDots(c0);
    assert !AllDots(c1) by {
      assert AllDots(c0) ==> c1[0] == '_';
    }
    if windows {
      LegalAppended(windows, c1, "_");
      var c2 := if EndsBadly(c1) then c1 + "_" else c1;
      assert !AllDots(c2) by {
        var i :| 0 <= i < |c1| && c1[i] != '.';
        assert c2[i] == c1[i];
      }
      LegalAppended(windows, "_", c2);
      UnderscoreNotReserved(c2);
      assert ("_" + c2)[0] == '_';
      assert ("_" + c2)[|c2|] == c2[|c2| - 1];
    }
  }

  /** A name that is already safe is left alone. */
  lemma HostNameKeepsSafe(windows: bool, name: string)
    requires Safe(windows, name)
    ensures HostName(windows, name) == name
  {
    assert forall i :: 0 <= i < |name| ==> name[i] in name;
    assert Clean(windows, name) == name;
  }

  // ----- Numbered candidates -----

  /** The k-th name tried for `base`: itself, then with `~1`, `~2`, ... */
  function Candidate(base: string, k: nat): string {
    if k == 0 then base else base + "~" + Decimal(k)
  }

  // ----- Names of their own -----

  const PARTIAL := ".btrfs-peek-partial"

  /** A folding leaves a numeric suffix alone and tells a name from its partial file's.
      How it folds a name may depend on what follows, as lower case does. */
  ghost predicate FoldsNames(f: string -> string) {
    && (forall base: string, k: nat :: f(base + "~" + Decimal(k)) == f(base) + "~" + Decimal(k))
    && (forall name: string :: f(name + PARTIAL) != f(name))
  }

  lemma PlainFolds()
    ensures FoldsNames((s: string) => s)
  {
    forall name: string
      ensures name + PARTIAL != name
    {
      assert |name + PARTIAL| > |name|;
    }
  }

  /** How the host compares names: as they are, or on Windows in lower case, of
      which only these laws are used. */
  type Folding = f: string -> string | FoldsNames(f) witness (PlainFolds(); (s: string) => s)

  lemma FoldsDiffer(fold: Folding, base: string, j: nat, k: nat)
    requires j < k
    ensures fold(Candidate(base, j)) != fold(Candidate(base, k))
  {
    assert fold(base + "~" + Decimal(k)) == fold(base) + "~" + Decimal(k);
    assert fold(base + "~" + Decimal(j)) == fold(base) + "~" + Decimal(j);
    if j > 0 {
      var f := fold(base) + "~";
      if f + Decimal(j) == f + Decimal(k) {
        assert (f + Decimal(j))[|f|..] == Decimal(j);
        assert (f + Decimal(k))[|f|..] == Decimal(k);
        DecimalInjective(j, k);
      }
    }
  }

  /** The folded names tried before the k-th. */
  ghost function Tried(fold: Folding, base: string, k: nat): set<string> {
    if k == 0 then {} else Tried(fold, base, k - 1) + {fold(Candidate(base, k - 1))}
  }

  lemma {:induction false} TriedCount(fold: Folding, base: string, k: nat)
    ensures |Tried(fold, base, k)| == k
    ensures forall j :: 0 <= j < k ==> fold(Candidate(base, j)) in Tried(fold, base, k)
    ensures forall j :: j >= k ==> fold(Candidate(base, j)) !in Tried(fold, base, k)
  {
    if k > 0 {
      TriedCount(fold, base, k - 1);
      forall j | j >= k
        ensures fold(Candidate(base, j)) != fold(Candidate(base, k - 1))
      {
        FoldsDiffer(fold, base, k - 1, j);
      }
    }
  }

  lemma {:induction false} TriedTaken(fold: Folding, base: string, k: nat, taken: set<string>)
    requires forall j :: 0 <= j < k ==> fold(Candidate(base, j)) in taken
    ensures Tried(fold, base, k) <= taken
  {
    if k > 0 {
      TriedTaken(fold, base, k - 1, taken);
    }
  }

  lemma SubsetSize<T>(a: set<T>, b: set<T>)
    requires a <= b
    ensures |a| <= |b|
  {
    assert b == a + (b - a);
  }

  /** By pigeonhole, |taken| + 1 candidates cannot all be taken. */
  lemma SomeFree(fold: Folding, base: string, k: nat, taken: set<string>)
    requires forall j :: 0 <= j < k ==> fold(Candidate(base, j)) in taken
    ensures k <= |taken|
  {
    TriedCount(fold, base, k);
    TriedTaken(fold, base, k, taken);
    SubsetSize(Tried(fold, base, k), taken);
  }

  /** The first free candidate from the k-th on. */
  function FirstFree(fold: Folding, base: string, taken: set<string>, k: nat): (i: nat)
    requires forall j :: 0 <= j < k ==> fold(Candidate(base, j)) in taken
    ensures k <= i <= |taken|
    ensures fold(Candidate(base, i)) !in taken
    ensures forall j :: 0 <= j < i ==> fold(Candidate(base, j)) in taken
    decreases |taken| + 1 - k
  {
    SomeFree(fold, base, k, taken);
    if fold(Candidate(base, k)) !in taken then k
    else
      SomeFree(fold, base, k + 1, taken);
      FirstFree(fold, base, taken, k + 1)
  }

  function Chosen(fold: Folding, base: string, taken: set<string>): (host: string)
    ensures fold(host) !in taken
  {
    Candidate(base, FirstFree(fold, base, taken, 0))
  }

  /** The rename loop: it finds the first free candidate within |taken| + 1 tries. */
  method ChooseName(fold: Folding, base: string, taken: set<string>) returns (host: string, ghost tries: nat)
    ensures host == Chosen(fold, base, taken)
    ensures tries <= |taken| + 1
  {
    host := base;
    tries := 1;
    var n: nat := 1;
    while fold(host) in taken
      invariant n >= 1 && tries == n && host == Candidate(base, n - 1)
      invariant forall j :: 0 <= j < n - 1 ==> fold(Candidate(base, j)) in taken
      decreases |taken| + 1 - n
    {
      SomeFree(fold, base, n, taken);
      host := base + "~" + Decimal(n);
      n := n + 1;
      tries := n;
    }
    SomeFree(fold, base, n - 1, taken);
    FirstFreeUnique(fold, base, taken, n - 1);
  }

  lemma FirstFreeUnique(fold: Folding, base: string, taken: set<string>, i: nat)
    requires forall j :: 0 <= j < i ==> fold(Candidate(base, j)) in taken
    requires fold(Candidate(base, i)) !in taken
    ensures FirstFree(fold, base, taken, 0) == i
  {
    var _ := FirstFree(fold, base, taken, 0);
  }

  // ----- A whole directory -----

  /** The host names of a directory's entries, in listing order. */
  function NamesFor(windows: bool, fold: Folding, raw: seq<string>, taken: set<string>): (names: seq<string>)
    ensures |names| == |raw|
  {
    if raw == [] then [] else
      var host := Chosen(fold, HostName(windows, raw[0]), taken);
      [host] + NamesFor(windows, fold, raw[1..], taken + {fold(host)})
  }

  lemma NoTildeInDevices(u: string, i: nat)
    requires i < |u| && u[i] == '~'
    ensures !DeviceName(u)
  {
    assert |u| == 4 && i < 3 ==> u[..3][i] == '~';
  }

  lemma TildeNotReserved(s: string, i: nat)
    requires i < |Stem(s)| && Stem(s)[i] == '~'
    ensures !Reserved(s)
  {
    hide DeviceName;
    NoTildeInDevices(UpperAll(Stem(s)), i);
  }

  lemma {:induction false} StemAppended(a: string, b: string)
    ensures Stem(a + b) == if '.' in a then Stem(a) else a + Stem(b)
  {
    if a == "" {
      assert a + b == b;
    } else {
      assert (a + b)[1..] == a[1..] + b;
      StemAppended(a[1..], b);
      assert a == [a[0]] + a[1..];
    }
  }

  lemma StemOfSuffix(s: string)
    requires s != "" && s[0] == '~'
    ensures Stem(s) != "" && Stem(s)[0] == '~'
  {
  }

  lemma SuffixLegal(windows: bool, k: nat)
    ensures forall c :: c in "~" + Decimal(k) ==> !Illegal(windows, c)
  {
    hide Decimal;
  }

  /** A suffix keeps a safe name safe. */
  lemma CandidateSafe(windows: bool, base: string, k: nat)
    requires Safe(windows, base)
    ensures Safe(windows, Candidate(base, k))
  {
    hide Stem;
    hide Decimal;
    hide DeviceName;
    hide UpperAll;
    hide Illegal;
    if k > 0 {
      SuffixLegal(windows, k);
      var suffix := "~" + Decimal(k);
      var c := base + suffix;
      assert Candidate(base, k) == c;
      LegalAppended(windows, base, suffix);
      var i :| 0 <= i < |base| && base[i] != '.';
      assert c[i] == base[i];
      assert c[|c| - 1] == Decimal(k)[|Decimal(k)| - 1] && c[|c| - 1] in Decimal(k);
      StemAppended(base, suffix);
      if '.' !in base {
        StemOfSuffix(suffix);
        TildeNotReserved(c, |base|);
      }
    }
  }

  /** Safe names that differ pairwise, and from those taken, in the host's eyes. */
  ghost predicate Settled(windows: bool, fold: Folding, names: seq<string>, taken: set<string>) {
    && (forall i :: 0 <= i < |names| ==> Safe(windows, names[i]))
    && (forall i :: 0 <= i < |names| ==> fold(names[i]) !in taken)
    && (forall i, j :: 0 <= i < j < |names| ==> fold(names[i]) != fold(names[j]))
  }

  lemma SettledFirst(windows: bool, fold: Folding, host: string, rest: seq<string>, taken: set<string>)
    requires Safe(windows, host) && fold(host) !in taken
    requires Settled(windows, fold, rest, taken + {fold(host)})
    ensures Settled(windows, fold, [host] + rest, taken)
  {
    hide Safe;
    var names, taken' := [host] + rest, taken + {fold(host)};
    forall i | 0 < i < |names|
      ensures Safe(windows, names[i]) && fold(names[i]) !in taken'
    {
      assert names[i] == rest[i - 1];
      assert fold(rest[i - 1]) !in taken';
    }
    forall i, j | 0 < i < j < |names|
      ensures fold(names[i]) != fold(names[j])
    {
      assert names[i] == rest[i - 1] && names[j] == rest[j - 1];
    }
  }

  /** For every list of raw names, the chosen host names are safe components and
      differ pairwise in the host's eyes. */
  lemma {:induction false} NamesSafeAndDistinct(windows: bool, fold: Folding, raw: seq<string>, taken: set<string>)
    ensures Settled(windows, fold, NamesFor(windows, fold, raw, taken), taken)
    decreases |raw|
  {
    hide Safe;
    hide HostName;
    hide Candidate;
    if raw != [] {
      var base := HostName(windows, raw[0]);
      var host := Chosen(fold, base, taken);
      HostNameSafe(windows, raw[0]);
      CandidateSafe(windows, base, FirstFree(fold, base, taken, 0));
      NamesSafeAndDistinct(windows, fold, raw[1..], taken + {fold(host)});
      SettledFirst(windows, fold, host, NamesFor(windows, fold, raw[1..], taken + {fold(host)}), taken);
    }
  }
}

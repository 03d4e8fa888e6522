// What the helper accepts as an update of itself (src/helper/update.rs): version
// numbers, the texts that carry them, and the check of a signed build.

module Versions {
  import opened Bytes
  import opened Decimals

  datatype Version = Version(major: nat, minor: nat, patch: nat) {
    /** Field by field, as the derived order compares. */
    predicate Less(v: Version) {
      || major < v.major
      || (major == v.major && minor < v.minor)
      || (major == v.major && minor == v.minor && patch < v.patch)
    }

    /** Versions that have a spelling: no field of more than 19 digits. */
    predicate Fits() {
      major < Pow10(19) && minor < Pow10(19) && patch < Pow10(19)
    }

    function Text(): string {
      Decimal(major) + (['.'] + (Decimal(minor) + (['.'] + Decimal(patch))))
    }
  }

  /** The order of versions: one more in a field makes a version greater whatever the
      fields after it, and two versions are never both less than each other. */
  lemma FieldsInOrder(a: Version, b: Version, x: nat, y: nat)
    ensures a.Less(Version(a.major + 1, x, y))
    ensures a.Less(Version(a.major, a.minor + 1, y))
    ensures a.Less(Version(a.major, a.minor, a.patch + 1))
    ensures !a.Less(a) && !(a.Less(b) && b.Less(a)) && (a == b || a.Less(b) || b.Less(a))
    ensures forall c: Version :: a.Less(b) && b.Less(c) ==> a.Less(c)
  {
  }

  // ----- Splitting -----

  /** What stands before and after the first `c`. */
  function SplitOnce(s: string, c: char): (r: Option<(string, string)>)
    ensures r.None? <==> c !in s
    ensures r.Some? ==> s == r.value.0 + ([c] + r.value.1) && c !in r.value.0
  {
    if s == "" then None
    else if s[0] == c then Some(("", s[1..]))
    else
      match SplitOnce(s[1..], c)
      case None => None
      case Some((a, b)) => Some(([s[0]] + a, b))
  }

  lemma {:induction false} SplitOnceAt(a: string, c: char, b: string)
    requires c !in a
    ensures SplitOnce(a + ([c] + b), c) == Some((a, b))
  {
    if a == "" {
      assert a + ([c] + b) == [c] + b;
    } else {
      assert a[0] in a && (a + ([c] + b))[1..] == a[1..] + ([c] + b);
      assert [a[0]] + a[1..] == a && (a + ([c] + b))[0] == a[0];
      SplitOnceAt(a[1..], c, b);
    }
  }

  function StripPrefix(s: string, prefix: string): (r: Option<string>)
    ensures r.Some? <==> (exists rest :: s == prefix + rest)
    ensures r.Some? ==> s == prefix + r.value
  {
    if |prefix| <= |s| && s[..|prefix|] == prefix then
      assert s == prefix + s[|prefix|..];
      Some(s[|prefix|..])
    else None
  }

  lemma StripPrefixAt(prefix: string, rest: string)
    ensures StripPrefix(prefix + rest, prefix) == Some(rest)
  {
  }

  // ----- Versions as text -----

  function ParseNumber(p: string): Option<nat> {
    if Canonical(p) && |p| <= 19 then Some(Value(p)) else None
  }

  lemma NumberSpelled(p: string, n: nat)
    ensures ParseNumber(p) == Some(n) <==> p == Decimal(n) && n < Pow10(19)
  {
    if ParseNumber(p) == Some(n) {
      DecimalOfValue(p);
    }
    if p == Decimal(n) {
      DecimalIsCanonical(n);
      ValueOfDecimal(n);
    }
    DecimalLength(n, 19);
  }

  function ParseVersion(s: string): Option<Version> {
    match SplitOnce(s, '.')
    case None => None
    case Some((a, bc)) =>
      match SplitOnce(bc, '.')
      case None => None
      case Some((b, c)) =>
        var major, minor, patch := ParseNumber(a), ParseNumber(b), ParseNumber(c);
        if major.Some? && minor.Some? && patch.Some?
        then Some(Version(major.value, minor.value, patch.value)) else None
  }

  lemma DigitsHaveNoOther(n: nat, c: char)
    requires !IsDigit(c)
    ensures c !in Decimal(n)
  {
  }

  /** One version, one spelling: parsing inverts printing, both ways. */
  lemma VersionSpelled(s: string, v: Version)
    ensures ParseVersion(s) == Some(v) <==> s == v.Text() && v.Fits()
  {
    hide Decimal;
    hide ParseNumber;
    hide Pow10;
    if ParseVersion(s) == Some(v) {
      var (a, bc) := SplitOnce(s, '.').value;
      var (b, c) := SplitOnce(bc, '.').value;
      NumberSpelled(a, v.major);
      NumberSpelled(b, v.minor);
      NumberSpelled(c, v.patch);
    }
    if s == v.Text() && v.Fits() {
      DigitsHaveNoOther(v.major, '.');
      DigitsHaveNoOther(v.minor, '.');
      SplitOnceAt(Decimal(v.major), '.', Decimal(v.minor) + (['.'] + Decimal(v.patch)));
      SplitOnceAt(Decimal(v.minor), '.', Decimal(v.patch));
      NumberSpelled(Decimal(v.major), v.major);
      NumberSpelled(Decimal(v.minor), v.minor);
      NumberSpelled(Decimal(v.patch), v.patch);
    }
  }

  lemma TextHasNo(v: Version, c: char)
    requires !IsDigit(c) && c != '.'
    ensures c !in v.Text()
  {
  }

  // ----- The trusted comment -----

  const TARGET := "windows-x86_64"
  const PROGRAM := "btrfs-peek "

  function CommentVersion(comment: string): Option<Version> {
    match StripPrefix(comment, PROGRAM)
    case None => None
    case Some(rest) =>
      match SplitOnce(rest, ' ')
      case None => None
      case Some((v, target)) => if target != TARGET then None else ParseVersion(v)
  }

  /** The one comment that names `v`. */
  function CommentFor(v: Version): string {
    PROGRAM + (v.Text() + ([' '] + TARGET))
  }

  lemma CommentSpelled(comment: string, v: Version)
    ensures CommentVersion(comment) == Some(v) <==> comment == CommentFor(v) && v.Fits()
  {
    hide ParseVersion;
    if CommentVersion(comment) == Some(v) {
      var rest := StripPrefix(comment, PROGRAM).value;
      VersionSpelled(SplitOnce(rest, ' ').value.0, v);
    }
    if comment == CommentFor(v) && v.Fits() {
      StripPrefixAt(PROGRAM, v.Text() + ([' '] + TARGET));
      TextHasNo(v, ' ');
      SplitOnceAt(v.Text(), ' ', TARGET);
      VersionSpelled(v.Text(), v);
    }
  }

  // ----- The refusal of a comment -----

  function HexDigit(d: nat): char
    requires d < 16
  {
    if d < 10 then '0' + d as char else 'a' + (d - 10) as char
  }

  function Hex(n: nat): string {
    if n < 16 then [HexDigit(n)] else Hex(n / 16) + [HexDigit(n % 16)]
  }

  /** A character as the debug format quotes it: control characters by number. What
      it does beyond ASCII is not modelled. */
  function DebugChar(c: char): string {
    if c == '\"' || c == '\\' then ['\\', c]
    else if c == '\n' then "\\n"
    else if c == '\r' then "\\r"
    else if c == '\t' then "\\t"
    else if c == '\0' then "\\0"
    else if c < ' ' || c == DELETE then "\\u{" + Hex(c as nat) + "}"
    else [c]
  }

  /** How the debug format quotes ASCII: quotes and backslashes escaped, the four
      controls with names of their own, other controls by number, the rest as it is. */
  lemma Quoted(c: char)
    ensures DebugChar('\t') == "\\t" && DebugChar('\n') == "\\n" && DebugChar('\r') == "\\r" && DebugChar('\0') == "\\0"
    ensures DebugChar('\"') == "\\\"" && DebugChar('\\') == "\\\\"
    ensures DebugChar('\U{1B}') == "\\u{1b}" && DebugChar('\U{7F}') == "\\u{7f}"
    ensures ' ' <= c && c !in {'\"', '\\', '\U{7F}'} ==> DebugChar(c) == [c]
  {
    assert Hex(0x1B) == "1b" && Hex(0x7F) == "7f";
  }

  const DELETE: char := '\U{7F}'

  function DebugChars(s: string): string {
    if s == "" then "" else DebugChar(s[0]) + DebugChars(s[1..])
  }

  const REFUSED_FRONT := "the update is signed as \""
  const REFUSED_BACK := "\", not as `btrfs-peek X.Y.Z windows-x86_64`"

  /** What a check says of a signature with another comment. */
  function WrongCommentText(comment: string): string {
    REFUSED_FRONT + (DebugChars(comment) + REFUSED_BACK)
  }

  function Deletes(n: nat): (s: string)
    ensures |s| == n && forall i :: 0 <= i < n ==> s[i] == DELETE
  {
    seq(n, _ => DELETE)
  }

  lemma {:induction false} DeletesQuoted(n: nat)
    ensures |DebugChars(Deletes(n))| == 6 * n
    ensures forall c :: c in DebugChars(Deletes(n)) ==> c < '\U{80}'
  {
    if n > 0 {
      assert Deletes(n)[1..] == Deletes(n - 1);
      DeletesQuoted(n - 1);
      assert Hex(0x7F) == "7f";
    }
  }

  lemma DeletesNameNothing(n: nat)
    requires n > 0
    ensures CommentVersion(Deletes(n)).None?
  {
    hide SplitOnce;
    hide ParseVersion;
    assert PROGRAM[0] == 'b' && Deletes(n)[0] == DELETE;
    assert forall rest :: (PROGRAM + rest)[0] == 'b';
  }

  /** Quoting makes a comment of 11000 characters, which a signature file of 16 KiB
      has room for, into a text of more than 64 KiB. */
  lemma LongRefusal()
    ensures CommentVersion(Deletes(11000)).None?
    ensures |WrongCommentText(Deletes(11000))| > 64 * 1024
    ensures forall c :: c in WrongCommentText(Deletes(11000)) ==> c < '\U{80}'
  {
    hide DebugChars;
    hide CommentVersion;
    DeletesNameNothing(11000);
    DeletesQuoted(11000);
    QuotedInAscii(DebugChars(Deletes(11000)));
  }

  lemma QuotedInAscii(s: string)
    requires forall c :: c in s ==> c < '\U{80}'
    ensures forall c :: c in REFUSED_FRONT + (s + REFUSED_BACK) ==> c < '\U{80}'
  {
    assert forall i :: 0 <= i < |REFUSED_FRONT| ==> REFUSED_FRONT[i] < '\U{80}';
    assert forall i :: 0 <= i < |REFUSED_BACK| ==> REFUSED_BACK[i] < '\U{80}';
  }

  // ----- The reply of a check -----

  datatype Update = UpToDate(version: Version) | Installed(version: Version)

  const UPDATED_TO := "updated to "

  function UpdateText(u: Update): string {
    match u
    case UpToDate(v) => "up to date (" + v.Text() + ")"
    case Installed(v) => UPDATED_TO + (v.Text() + ([';'] + " restarting when idle"))
  }

  function InstalledVersion(reply: string): Option<Version> {
    match StripPrefix(reply, UPDATED_TO)
    case None => None
    case Some(rest) =>
      match SplitOnce(rest, ';')
      case None => None
      case Some((v, _)) => ParseVersion(v)
  }

  /** The client reads back exactly the version that was installed, if any. */
  lemma ReplyReadBack(u: Update)
    ensures InstalledVersion(UpdateText(u)) == if u.Installed? && u.version.Fits() then Some(u.version) else None
  {
    hide ParseVersion;
    match u {
      case UpToDate(v) =>
        assert UpdateText(u)[1] == 'p' && UPDATED_TO[1] == 'p';
        assert UpdateText(u)[2] == ' ' && UPDATED_TO[2] == 'd';
      case Installed(v) =>
        StripPrefixAt(UPDATED_TO, v.Text() + ([';'] + " restarting when idle"));
        TextHasNo(v, ';');
        SplitOnceAt(v.Text(), ';', " restarting when idle");
        VersionSpelled(v.Text(), v);
        if ParseVersion(v.Text()).Some? {
          var w := ParseVersion(v.Text()).value;
          VersionSpelled(v.Text(), w);
          SameText(v, w);
        }
    }
  }

  lemma SameText(v: Version, w: Version)
    requires v.Text() == w.Text()
    ensures v == w
  {
    hide Decimal;
    DigitsHaveNoOther(v.major, '.');
    DigitsHaveNoOther(w.major, '.');
    DigitsHaveNoOther(v.minor, '.');
    DigitsHaveNoOther(w.minor, '.');
    SplitOnceAt(Decimal(v.major), '.', Decimal(v.minor) + (['.'] + Decimal(v.patch)));
    SplitOnceAt(Decimal(w.major), '.', Decimal(w.minor) + (['.'] + Decimal(w.patch)));
    SplitOnceAt(Decimal(v.minor), '.', Decimal(v.patch));
    SplitOnceAt(Decimal(w.minor), '.', Decimal(w.patch));
    DecimalInjective(v.major, w.major);
    DecimalInjective(v.minor, w.minor);
    DecimalInjective(v.patch, w.patch);
  }

  /** The reply tells two outcomes apart, and which version each is about. */
  lemma RepliesDiffer(u: Update, w: Update)
    requires UpdateText(u) == UpdateText(w)
    ensures u == w
  {
    assert UpdateText(u)[2] == (if u.UpToDate? then ' ' else 'd');
    assert UpdateText(w)[2] == (if w.UpToDate? then ' ' else 'd');
    var a, b := u.version.Text(), w.version.Text();
    if u.UpToDate? {
      Inside("up to date (", a, ")");
      Inside("up to date (", b, ")");
    } else {
      Inside(UPDATED_TO, a, [';'] + " restarting when idle");
      Inside(UPDATED_TO, b, [';'] + " restarting when idle");
      assert UpdateText(u) == UPDATED_TO + (a + ([';'] + " restarting when idle"));
    }
    SameText(u.version, w.version);
  }

  lemma Inside(front: string, s: string, back: string)
    ensures |front + s + back| == |front| + |s| + |back|
    ensures (front + s + back)[|front|..|front| + |s|] == s
    ensures front + s + back == front + (s + back)
  {
  }

  // ----- Accepting a build -----

  /** What cannot be computed here: the signature scheme and what builds report. */
  datatype World = World(
    keyParses: bool,
    comment: string -> Option<string>,
    verifies: (seq<byte>, string) -> bool,
    reports: seq<byte> -> Version)
  {
    /** A build signed under a version's comment reports that version. */
    ghost predicate Honest() {
      forall exe, sig :: verifies(exe, sig) ==>
        forall v :: comment(sig) == Some(CommentFor(v)) && v.Fits() ==> reports(exe) == v
    }
  }

  datatype Verdict = Accepted(version: Version) | BadKey | Malformed | BadSignature | WrongComment | NotNewer

  /** The version a signature announces, not yet trusted. */
  function Announced(w: World, sig: string): Verdict {
    match w.comment(sig)
    case None => Malformed
    case Some(c) =>
      match CommentVersion(c)
      case None => WrongComment
      case Some(v) => Accepted(v)
  }

  function VerifyUpdate(w: World, exe: seq<byte>, sig: string, running: Version): Verdict {
    if !w.keyParses then BadKey
    else if w.comment(sig).None? then Malformed
    else if !w.verifies(exe, sig) then BadSignature
    else
      match CommentVersion(w.comment(sig).value)
      case None => WrongComment
      case Some(v) => if !running.Less(v) then NotNewer else Accepted(v)
  }

  /** A build is taken as `v` exactly when the release key signed it under the one
      comment that names `v`, and `v` is newer than what runs. */
  lemma AcceptedExactly(w: World, exe: seq<byte>, sig: string, running: Version, v: Version)
    ensures VerifyUpdate(w, exe, sig, running) == Accepted(v)
            <==> && w.keyParses && w.verifies(exe, sig)
                 && w.comment(sig) == Some(CommentFor(v)) && v.Fits() && running.Less(v)
    ensures VerifyUpdate(w, exe, sig, running) == Accepted(v) ==> Announced(w, sig) == Accepted(v)
  {
    hide CommentVersion;
    hide CommentFor;
    if w.comment(sig).Some? {
      CommentSpelled(w.comment(sig).value, v);
    }
  }
}

// What the zip and the tar inspection share (sanitizers/archive.c): the check of an entry's path
// and the limit on what an archive may expand to.
module ArchiveChecks {
  import opened Bytes

  const MAX_DEPTH: nat := 8
  const MAX_ENTRIES: nat := 2000
  const EXPANSION_MULT: nat := 200
  const EXPANSION_MIN: nat := 10 * 1024 * 1024
  const EXPANSION_MAX: nat := 2 * 1024 * 1024 * 1024

  const SLASH: byte := 47
  const BACKSLASH: byte := 92
  const DOT: byte := 46
  const UP: bytes := [DOT, DOT]
  /** "../x". */
  const CLIMB: bytes := UP + [SLASH, 120]

  datatype PathVerdict = PathOk | NullByte | Traversal | NestedArchive | TooDeep

  /** 200 times the size, or the nearest number to that between 10 MiB and 2 GiB. */
  function ExpansionLimit(size: nat): (limit: nat)
    ensures EXPANSION_MIN <= limit <= EXPANSION_MAX
    ensures limit == 200 * size || (limit == EXPANSION_MIN && 200 * size < limit) || (limit == EXPANSION_MAX && 200 * size > limit)
    ensures limit > size || size >= EXPANSION_MAX
  {
    var expanded := (if size < 1 then 1 else size) * EXPANSION_MULT;
    if expanded < EXPANSION_MIN then EXPANSION_MIN
    else if expanded > EXPANSION_MAX then EXPANSION_MAX
    else expanded
  }

  // ---------------------------------------------------------------------------
  // What the check refuses

  predicate IsSeparator(c: byte) {
    c == SLASH || c == BACKSLASH
  }

  function Lower(c: byte): byte {
    if 65 <= c <= 90 then (c as int + 32) as byte else c
  }

  function Text(s: string): (b: bytes)
    requires forall i :: 0 <= i < |s| ==> s[i] < 256 as char
    ensures |b| == |s|
  {
    seq(|s|, i requires 0 <= i < |s| => s[i] as int as byte)
  }

  function NestedSuffixes(): (r: seq<string>)
    ensures forall k :: 0 <= k < |r| ==> forall i :: 0 <= i < |r[k]| ==> r[k][i] < 256 as char
  {
    [".zip", ".tar", ".gz", ".tgz", ".tar.gz", ".tar.bz2", ".tar.xz",
     ".bz2", ".xz", ".7z", ".rar", ".zst", ".lz4"]
  }

  /** Whether `name` ends in `suffix`, letter case aside. */
  ghost predicate EndsInAnyCase(name: bytes, suffix: bytes) {
    |suffix| <= |name| &&
    forall i :: 0 <= i < |suffix| ==> Lower(name[|name| - |suffix| + i]) == suffix[i]
  }

  ghost predicate HasArchiveSuffix(name: bytes) {
    exists k :: 0 <= k < |NestedSuffixes()| && EndsInAnyCase(name, Text(NestedSuffixes()[k]))
  }

  /** The leading bytes of the archive and compression formats. */
  predicate LooksLikeArchive(p: bytes) {
    && |p| >= 4
    && (|| (p[0] == 80 && p[1] == 75 && (p[2] == 3 || p[2] == 5) && (p[3] == 4 || p[3] == 6))
        || (p[0] == 0x1F && p[1] == 0x8B)
        || [0x28, 0xB5, 0x2F, 0xFD] <= p
        || [0x04, 0x22, 0x4D, 0x18] <= p
        || [66, 90, 104] <= p
        || [0x37, 0x7A, 0xBC, 0xAF, 0x27, 0x1C] <= p
        || [0x52, 0x61, 0x72, 0x21, 0x1A, 0x07] <= p
        || [0xFD, 0x37, 0x7A, 0x58, 0x5A, 0x00] <= p
        || (|p| >= 262 && p[257..262] == [117, 115, 116, 97, 114]))
  }

  /** The pieces of a path between its separators. */
  function Components(path: bytes): (cs: seq<bytes>)
    ensures |cs| > 0
  {
    if path == [] then [[]]
    else
      var cs := Components(path[1..]);
      if IsSeparator(path[0]) then [[]] + cs else [[path[0]] + cs[0]] + cs[1..]
  }

  ghost predicate Climbs(path: bytes) {
    Occurs(UP + [SLASH], path) || Occurs(UP + [BACKSLASH], path)
  }

  /** The verdict on a path whose entry begins with the bytes `head`. */
  ghost function Verdict(path: bytes, head: bytes): PathVerdict {
    if path == [] then PathOk
    else if 0 in path then NullByte
    else if path[0] == SLASH || Climbs(path) then Traversal
    else if HasArchiveSuffix(path) || LooksLikeArchive(head) then NestedArchive
    else if |Components(path)| > MAX_DEPTH + 1 then TooDeep
    else PathOk
  }

  // ---------------------------------------------------------------------------
  // What an accepted path can reach

  /** How a component moves the directory an extraction stands in. */
  function Move(component: bytes): int {
    if component == [] || component == [DOT] then 0
    else if component == UP then -1
    else 1
  }

  /** Whether following the components from `level` below the root ever climbs out of it. */
  predicate Escapes(components: seq<bytes>, level: int) {
    level < 0 || (components != [] && Escapes(components[1..], level + Move(components[0])))
  }

  /** Whether the path leads out of the directory it is unpacked to: because it starts at the root of
      the file system, or by climbing. */
  predicate Leaves(path: bytes) {
    (path != [] && IsSeparator(path[0])) || Escapes(Components(path), 0)
  }

  /** Only a last component ".." behind nothing but empty and "." components leaves the root. */
  ghost predicate BareClimb(cs: seq<bytes>)
    requires cs != []
  {
    cs[|cs| - 1] == UP && forall i :: 0 <= i < |cs| - 1 ==> Move(cs[i]) == 0
  }

  lemma {:induction false} FirstComponent(path: bytes)
    requires |Components(path)| > 1
    ensures var n := |Components(path)[0]|;
            && n < |path| && path[..n] == Components(path)[0] && IsSeparator(path[n])
            && Components(path[n + 1..]) == Components(path)[1..]
  {
    if IsSeparator(path[0]) {
      assert path[0 + 1..] == path[1..];
    } else {
      var rest := path[1..];
      FirstComponent(rest);
      var m := |Components(rest)[0]|;
      assert path[..m + 1] == [path[0]] + rest[..m];
      assert path[m + 1 + 1..] == rest[m + 1..];
      assert Components(path)[1..] == Components(rest)[1..];
    }
  }

  lemma OccursLater(needle: bytes, hay: bytes, n: nat)
    requires n <= |hay| && Occurs(needle, hay[n..])
    ensures Occurs(needle, hay)
  {
    var i :| 0 <= i <= |hay[n..]| && needle <= hay[n..][i..];
    assert hay[n..][i..] == hay[n + i..];
  }

  lemma ClimbsLater(path: bytes, n: nat)
    requires n <= |path|
    ensures Climbs(path[n..]) ==> Climbs(path)
  {
    forall c | Occurs(UP + [c], path[n..]) ensures Occurs(UP + [c], path) {
      OccursLater(UP + [c], path, n);
    }
  }

  lemma FirstIsNotUp(path: bytes)
    requires |Components(path)| > 1
    ensures Components(path)[0] == UP ==> Climbs(path)
  {
    FirstComponent(path);
    var n := |Components(path)[0]|;
    assert path[0..] == path;
    assert Components(path)[0] + [path[n]] <= path[0..];
  }

  /** The two searches find every ".." component but the last. */
  lemma {:induction false} InnerComponents(path: bytes, i: nat)
    requires !Climbs(path) && i < |Components(path)| - 1
    ensures Components(path)[i] != UP
    decreases i
  {
    if i == 0 {
      FirstIsNotUp(path);
    } else {
      FirstComponent(path);
      var n := |Components(path)[0]|;
      ClimbsLater(path, n + 1);
      InnerComponents(path[n + 1..], i - 1);
    }
  }

  lemma {:induction false} EscapeOnlyAtTheEnd(cs: seq<bytes>, level: nat)
    requires cs != [] && forall i :: 0 <= i < |cs| - 1 ==> cs[i] != UP
    ensures Escapes(cs, level) <==> level == 0 && BareClimb(cs)
  {
    if |cs| == 1 {
      assert Escapes(cs, level) <==> Escapes([], level + Move(cs[0]));
    } else {
      var rest := cs[1..];
      EscapeOnlyAtTheEnd(rest, level + Move(cs[0]));
      assert rest[|rest| - 1] == cs[|cs| - 1];
      if BareClimb(rest) && Move(cs[0]) == 0 {
        assert forall i :: 1 <= i < |cs| - 1 ==> cs[i] == rest[i - 1];
      }
      if BareClimb(cs) {
        assert forall i :: 0 <= i < |rest| - 1 ==> rest[i] == cs[i + 1];
      }
    }
  }

  /** An accepted path has at most nine components and stays in the directory it is unpacked to,
      except in two cases, which the check lets through: a path that starts with a backslash, and one
      that is just a climb. */
  lemma AcceptedPathStaysInside(path: bytes, head: bytes)
    requires Verdict(path, head).PathOk?
    ensures |Components(path)| <= MAX_DEPTH + 1
    ensures Leaves(path) <==> (path != [] && path[0] == BACKSLASH) || BareClimb(Components(path))
  {
    var cs := Components(path);
    forall i | 0 <= i < |cs| - 1 ensures cs[i] != UP {
      InnerComponents(path, i);
    }
    EscapeOnlyAtTheEnd(cs, 0);
  }

  lemma {:induction false} OneComponent(path: bytes)
    requires forall i :: 0 <= i < |path| ==> !IsSeparator(path[i])
    ensures Components(path) == [path]
  {
    if path != [] {
      OneComponent(path[1..]);
      assert path == [path[0]] + path[1..];
    }
  }

  lemma {:induction false} ComponentsJoin(a: bytes, b: bytes)
    requires forall i :: 0 <= i < |a| ==> !IsSeparator(a[i])
    ensures Components(a + ([SLASH] + b)) == [a] + Components(b)
  {
    if a == [] {
      assert a + ([SLASH] + b) == [SLASH] + b;
      assert ([SLASH] + b)[1..] == b;
    } else {
      var rest := a[1..];
      assert (a + ([SLASH] + b))[1..] == rest + ([SLASH] + b);
      ComponentsJoin(rest, b);
      assert [a[0]] + rest == a;
    }
  }

  /** Short paths have no archive's suffix. */
  lemma ShortPathsAreUnsuspicious(path: bytes)
    requires |path| < 3
    ensures !HasArchiveSuffix(path)
  {
    forall k | 0 <= k < |NestedSuffixes()|
      ensures !EndsInAnyCase(path, Text(NestedSuffixes()[k]))
    {
    }
  }

  lemma WithoutSeparatorsNoClimb(path: bytes)
    requires forall i :: 0 <= i < |path| ==> !IsSeparator(path[i])
    ensures !Climbs(path)
  {
    forall c, i | IsSeparator(c) && 0 <= i <= |path| ensures !(UP + [c] <= path[i..]) {
      if i + 2 < |path| {
        assert path[i..][2] == path[i + 2] && (UP + [c])[2] == c;
      }
    }
  }

  /** The second case: the path ".." is accepted. */
  lemma ClimbIsAccepted()
    ensures Verdict(UP, []).PathOk? && Leaves(UP)
  {
    ShortPathsAreUnsuspicious(UP);
    WithoutSeparatorsNoClimb(UP);
    OneComponent(UP);
    assert Escapes([UP][1..], -1);
  }

  /** The first case: a backslash and a name. */
  lemma RootedBackslashIsAccepted()
    ensures Verdict([BACKSLASH, 120], []).PathOk? && Leaves([BACKSLASH, 120])
  {
    var path := [BACKSLASH, 120];
    ShortPathsAreUnsuspicious(path);
    assert forall i :: 0 <= i <= |path| ==> |path[i..]| < 3;
    OneComponent([120]);
    assert path[1..] == [120];
  }

  /** Letters "a" and dots behind them. */
  lemma LettersAreAccepted(path: bytes, n: nat, head: bytes)
    requires 0 < n <= |path| && (forall i :: 0 <= i < n ==> path[i] == 97)
    requires forall i :: n <= i < |path| ==> path[i] == DOT
    requires !LooksLikeArchive(head)
    ensures Verdict(path, head).PathOk?
  {
    OneComponent(path);
    WithoutSeparatorsNoClimb(path);
    forall k | 0 <= k < |NestedSuffixes()|
      ensures !EndsInAnyCase(path, Text(NestedSuffixes()[k]))
    {
      NoSuffixAfterLetters(path, k);
    }
  }

  /** Every archive's suffix ends in a character that is neither a dot nor an "a". */
  lemma NoSuffixAfterLetters(path: bytes, k: nat)
    requires path != [] && (path[|path| - 1] == 97 || path[|path| - 1] == DOT) && k < |NestedSuffixes()|
    ensures !EndsInAnyCase(path, Text(NestedSuffixes()[k]))
  {
    var suffix := Text(NestedSuffixes()[k]);
    var last := |suffix| - 1;
    assert suffix != [] && suffix[last] != 97 && suffix[last] != DOT;
    assert |suffix| <= |path| ==> path[|path| - |suffix| + last] == path[|path| - 1];
  }

  /** A climb with a separator behind it is refused wherever it stands. */
  lemma ClimbIsRefused(letters: bytes, tail: bytes, head: bytes)
    requires UP + [SLASH] <= tail
    ensures !Verdict(letters + tail, head).PathOk?
  {
    hide HasArchiveSuffix, Components;
    var path := letters + tail;
    assert path[|letters|..] == tail;
    assert UP + [SLASH] <= path[|letters|..];
    assert Occurs(UP + [SLASH], path);
  }

  lemma LeadingClimb(behind: bytes, head: bytes)
    ensures Leaves(UP + ([SLASH] + behind)) && !Verdict(UP + ([SLASH] + behind), head).PathOk?
  {
    hide Verdict;
    var path := UP + ([SLASH] + behind);
    assert [] + path == path;
    ClimbIsRefused([], path, head);
    OneComponent(UP);
    ComponentsJoin(UP, behind);
    assert Escapes(([UP] + Components(behind))[1..], -1);
  }

  // ---------------------------------------------------------------------------
  // The path check

  method HasNestedSuffix(path: bytes) returns (yes: bool)
    ensures yes <==> HasArchiveSuffix(path)
  {
    for k := 0 to |NestedSuffixes()|
      invariant forall j :: 0 <= j < k ==> !EndsInAnyCase(path, Text(NestedSuffixes()[j]))
    {
      var suffix := Text(NestedSuffixes()[k]);
      if |path| >= |suffix| {
        var i := 0;
        while i < |suffix| && Lower(path[|path| - |suffix| + i]) == suffix[i]
          invariant 0 <= i <= |suffix|
          invariant forall j :: 0 <= j < i ==> Lower(path[|path| - |suffix| + j]) == suffix[j]
        {
          i := i + 1;
        }
        if i == |suffix| {
          return true;
        }
      }
    }
    return false;
  }

  lemma {:induction false} ComponentsSnoc(path: bytes, c: byte)
    ensures |Components(path + [c])| == |Components(path)| + if IsSeparator(c) then 1 else 0
  {
    if path == [] {
      assert (path + [c])[1..] == [];
    } else {
      ComponentsSnoc(path[1..], c);
      assert (path + [c])[1..] == path[1..] + [c];
    }
  }

  method CountSeparators(path: bytes) returns (depth: nat)
    ensures |Components(path)| == depth + 1
  {
    depth := 0;
    for i := 0 to |path|
      invariant |Components(path[..i])| == depth + 1
    {
      assert path[..i + 1] == path[..i] + [path[i]];
      ComponentsSnoc(path[..i], path[i]);
      if IsSeparator(path[i]) {
        depth := depth + 1;
      }
    }
    assert path[..|path|] == path;
  }

  method ValidateEntryPath(path: bytes, head: bytes) returns (v: PathVerdict)
    ensures v == Verdict(path, head)
  {
    if |path| == 0 {
      return PathOk;
    }
    for i := 0 to |path|
      invariant 0 !in path[..i]
    {
      if path[i] == 0 {
        return NullByte;
      }
    }
    assert path[..|path|] == path;
    if path[0] == SLASH || Occurs(UP + [SLASH], path) || Occurs(UP + [BACKSLASH], path) {
      return Traversal;
    }
    var nested := HasNestedSuffix(path);
    if nested || LooksLikeArchive(head) {
      return NestedArchive;
    }
    var depth := CountSeparators(path);
    if depth > MAX_DEPTH {
      return TooDeep;
    }
    return PathOk;
  }
}

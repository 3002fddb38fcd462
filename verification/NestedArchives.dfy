// Archives inside archives (sanitizers/archive.c): what content and which names are taken for one.
module NestedArchives {
  import opened Bytes
  import opened ArchiveChecks
  import TarWalk
  import TarArchive
  import TarNames
  import ZipWalk
  import ZipArchive

  /** How the formats begin: zip, gzip, zstd, lz4, bzip2, 7z, rar, xz. */
  const SIGNATURES: seq<bytes> := [
    [80, 75, 3, 4], [80, 75, 3, 6], [80, 75, 5, 4], [80, 75, 5, 6],
    [0x1F, 0x8B], [0x28, 0xB5, 0x2F, 0xFD], [0x04, 0x22, 0x4D, 0x18], [66, 90, 104],
    [0x37, 0x7A, 0xBC, 0xAF, 0x27, 0x1C], [0x52, 0x61, 0x72, 0x21, 0x1A, 0x07], [0xFD, 0x37, 0x7A, 0x58, 0x5A, 0x00]]

  /** "ustar", which a tar header has at 257. */
  const USTAR: bytes := [117, 115, 116, 97, 114]

  const SUFFIXES: set<string> := {
    ".zip", ".tar", ".gz", ".tgz", ".tar.gz", ".tar.bz2", ".tar.xz", ".bz2", ".xz", ".7z", ".rar", ".zst", ".lz4"}

  ghost predicate BeginsAsArchive(head: bytes) {
    |head| >= 4 && ((exists k :: 0 <= k < |SIGNATURES| && SIGNATURES[k] <= head) || (|head| >= 262 && head[257..262] == USTAR))
  }

  /** The character, or its capital. */
  predicate IsLetter(c: byte, d: char) {
    c as int == d as int || ('a' <= d <= 'z' && c as int == d as int - 32)
  }

  ghost predicate EndsIn(name: bytes, suffix: string) {
    |suffix| <= |name| && forall i :: 0 <= i < |suffix| ==> IsLetter(name[|name| - |suffix| + i], suffix[i])
  }

  ghost predicate NamedAsArchive(name: bytes) {
    exists s :: s in SUFFIXES && EndsIn(name, s)
  }

  // ---------------------------------------------------------------------------
  // What is taken for an archive

  lemma PrefixLetters(p: bytes, s: bytes)
    ensures s <= p <==> |s| <= |p| && forall i :: 0 <= i < |s| ==> p[i] == s[i]
  {
    if |s| <= |p| && forall i :: 0 <= i < |s| ==> p[i] == s[i] {
      assert s == p[..|s|];
    }
  }

  lemma ContentExactly(head: bytes)
    ensures LooksLikeArchive(head) <==> BeginsAsArchive(head)
  {
    if LooksLikeArchive(head) {
      ContentFound(head);
    }
    if BeginsAsArchive(head) {
      if k :| 0 <= k < |SIGNATURES| && SIGNATURES[k] <= head {
        PrefixLetters(head, SIGNATURES[k]);
      }
    }
  }

  lemma ContentFound(head: bytes)
    requires LooksLikeArchive(head)
    ensures BeginsAsArchive(head)
  {
    forall k | 0 <= k < 5 ensures SIGNATURES[k] <= head <==> forall i :: 0 <= i < |SIGNATURES[k]| ==> head[i] == SIGNATURES[k][i] {
      PrefixLetters(head, SIGNATURES[k]);
    }
    assert || SIGNATURES[0] <= head || SIGNATURES[1] <= head || SIGNATURES[2] <= head || SIGNATURES[3] <= head
           || SIGNATURES[4] <= head || SIGNATURES[5] <= head || SIGNATURES[6] <= head || SIGNATURES[7] <= head
           || SIGNATURES[8] <= head || SIGNATURES[9] <= head || SIGNATURES[10] <= head
           || (|head| >= 262 && head[257..262] == USTAR);
  }

  lemma NameExactly(name: bytes)
    ensures HasArchiveSuffix(name) <==> NamedAsArchive(name)
  {
    forall s | s in SUFFIXES
      ensures exists k :: 0 <= k < |NestedSuffixes()| && NestedSuffixes()[k] == s
    {
      var all := NestedSuffixes();
      assert all[0] == s || all[1] == s || all[2] == s || all[3] == s || all[4] == s || all[5] == s || all[6] == s
          || all[7] == s || all[8] == s || all[9] == s || all[10] == s || all[11] == s || all[12] == s;
    }
    forall k | 0 <= k < |NestedSuffixes()|
      ensures EndsInAnyCase(name, Text(NestedSuffixes()[k])) <==> EndsIn(name, NestedSuffixes()[k])
      ensures NestedSuffixes()[k] in SUFFIXES
    {
      SmallLetters(k);
      SuffixLetters(name, NestedSuffixes()[k]);
    }
    hide EndsInAnyCase, EndsIn, NestedSuffixes, Text;
  }

  ghost predicate NoCapitals(s: string) {
    forall i :: 0 <= i < |s| ==> s[i] < 128 as char && !('A' <= s[i] <= 'Z')
  }

  lemma SmallLetters(k: nat)
    requires k < |NestedSuffixes()|
    ensures NoCapitals(NestedSuffixes()[k]) && NestedSuffixes()[k] in SUFFIXES
  {
  }

  lemma SuffixLetters(name: bytes, s: string)
    requires NoCapitals(s)
    ensures EndsInAnyCase(name, Text(s)) <==> EndsIn(name, s)
  {
    var t := Text(s);
    if |s| <= |name| {
      forall i | 0 <= i < |s|
        ensures Lower(name[|name| - |s| + i]) == t[i] <==> IsLetter(name[|name| - |s| + i], s[i])
      {
      }
    }
  }

  /** What an entry is refused for as an archive in an archive: its name ends, in any letter case, in one
      of the thirteen suffixes, or its content begins as one of the formats does.  Nothing else is, and
      one that is not refused otherwise before is refused for that. */
  lemma NestedExactly(path: bytes, head: bytes)
    ensures Verdict(path, head).NestedArchive? <==>
              && path != [] && 0 !in path && path[0] != SLASH && !Climbs(path)
              && (NamedAsArchive(path) || BeginsAsArchive(head))
    ensures Verdict(path, head).PathOk? && path != [] ==> !NamedAsArchive(path) && !BeginsAsArchive(head)
  {
    hide Climbs, NamedAsArchive, HasArchiveSuffix, BeginsAsArchive, LooksLikeArchive, Components;
    NameExactly(path);
    ContentExactly(head);
  }

  // ---------------------------------------------------------------------------
  // Written archives inside written archives

  /** Every zip archive begins as one, if nothing is written in front of it. */
  lemma ZipBegins(es: seq<ZipArchive.Entry>, disks: bytes)
    requires ZipArchive.Storable([], es) && |disks| == 6
    ensures BeginsAsArchive(ZipArchive.Archive([], es, disks))
  {
    hide ZipArchive.CentralPart;
    var a := ZipArchive.Archive([], es, disks);
    if es == [] {
      assert SIGNATURES[3] == LE32(ZipWalk.END_SIG) == a[..4];
    } else {
      assert SIGNATURES[0] == LE32(ZipWalk.LOCAL_SIG) == a[..4];
    }
  }

  /** And every tar archive with a member. */
  lemma TarBegins(ms: seq<TarArchive.Member>)
    requires TarArchive.ValidMembers(ms) && ms != []
    ensures BeginsAsArchive(TarArchive.Encode(ms))
  {
    hide TarArchive.Header, TarWalk.Padded, TarWalk.ReadSize, TarArchive.Bodiless;
    var m := ms[0];
    TarNames.HeaderMagic(m);
    var (h, a) := (TarArchive.Header(m), TarArchive.Encode(ms));
    assert a[..512] == h;
    assert a[257..262] == h[257..262] == h[257..263][..5];
  }

  /** A written tar archive with a named member whose content is an archive, a zip or a tar written as
      here or one that begins as another format does, or whose name has an archive's suffix, is refused. */
  lemma NestedMemberIsRefused(ms: seq<TarArchive.Member>, tail: bytes, i: nat)
    requires TarArchive.Written(ms, tail) && TarArchive.SizesTold(ms) && i < |ms|
    requires !TarArchive.Extends(ms[i]) && TarArchive.PathText(ms[i]) != []
    requires || BeginsAsArchive(ms[i].data) || NamedAsArchive(TarArchive.PathText(ms[i]))
             || (exists es, disks :: ZipArchive.Storable([], es) && |disks| == 6 && ms[i].data == ZipArchive.Archive([], es, disks))
             || (exists inner :: TarArchive.ValidMembers(inner) && inner != [] && ms[i].data == TarArchive.Encode(inner))
    ensures !TarWalk.TarVerdict(TarArchive.Encode(ms) + tail, 0, 0, 0).Clean?
  {
    hide BeginsAsArchive, NamedAsArchive, ZipArchive.Storable, ZipArchive.Archive, TarArchive.Encode, TarWalk.TarVerdict, Verdict;
    if es, disks :| ZipArchive.Storable([], es) && |disks| == 6 && ms[i].data == ZipArchive.Archive([], es, disks) {
      ZipBegins(es, disks);
    } else if inner :| TarArchive.ValidMembers(inner) && inner != [] && ms[i].data == TarArchive.Encode(inner) {
      TarBegins(inner);
    }
    NestedExactly(TarArchive.PathText(ms[i]), ms[i].data);
    TarArchive.ArchiveCleanAsRead(ms, tail);
    assert !TarArchive.GoodMember(ms[i]);
  }
}

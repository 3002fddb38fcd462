// Whether a buffer that was detected as XML is an SVG image (scanner.c, buffer_looks_like_svg).
// What the SVG sanitizer writes is always recognised again.
module SvgSniff {
  import opened Bytes
  import opened SvgFilter
  import opened SvgHandlers

  const SNIFF_LENGTH: nat := 64 * 1024
  const NAMESPACE: string := "http://www.w3.org/2000/svg"

  predicate IsNameChar(c: char) {
    'a' <= c <= 'z' || 'A' <= c <= 'Z' || '0' <= c <= '9' || c == '_' || c == '-'
  }

  predicate EndsName(c: char) {
    c in " \t\r\n>/"
  }

  /** The first position from j on that holds no name character. */
  function NameEnd(s: string, j: nat): (p: nat)
    requires j <= |s|
    ensures j <= p <= |s| && (p < |s| ==> !IsNameChar(s[p]))
    ensures forall i :: j <= i < p ==> IsNameChar(s[i])
    decreases |s| - j
  {
    if j < |s| && IsNameChar(s[j]) then NameEnd(s, j + 1) else j
  }

  /** Where the local name starts of a tag name that starts at j. */
  function LocalStart(s: string, j: nat): (l: nat)
    requires j <= |s|
    ensures j <= l <= |s|
  {
    var p := NameEnd(s, j);
    if p > j && p < |s| && s[p] == ':' then p + 1 else j
  }

  /** An opening "svg" tag, with a namespace prefix or without, at i. */
  predicate SvgTagAt(s: string, i: nat)
    requires i < |s|
  {
    && s[i] == '<'
    && var l := LocalStart(s, i + 1);
    && l + 3 <= |s| && LowerAll(s[l..l + 3]) == "svg"
    && (l + 3 == |s| || EndsName(s[l + 3]))
  }

  /** The part that is looked at. */
  function Front(data: string): (f: string)
    ensures f <= data && (|f| == |data| || |f| == 0x1_0000) && |f| <= 0x1_0000
  {
    if |data| < SNIFF_LENGTH then data else data[..SNIFF_LENGTH]
  }

  ghost predicate HasSvgTag(s: string) {
    exists i: nat :: i + 4 <= |s| && SvgTagAt(s, i)
  }

  /** The namespace, or an opening tag. */
  ghost predicate LooksLikeSvg(data: string) {
    |Front(data)| >= 4 && (Occurs(NAMESPACE, LowerAll(Front(data))) || HasSvgTag(Front(data)))
  }

  lemma LowerAt(s: string, i: nat)
    requires i < |s|
    ensures |LowerAll(s)| == |s| && LowerAll(s)[i] == Lower(s[i])
  {
  }

  method MatchesAt(hay: string, i: nat, needle: string) returns (yes: bool)
    requires i + |needle| <= |hay| == |LowerAll(hay)|
    ensures yes <==> needle <= LowerAll(hay)[i..]
  {
    hide LowerAll;
    ghost var rest := LowerAll(hay)[i..];
    var j := 0;
    while j < |needle| && Lower(hay[i + j]) == needle[j]
      invariant 0 <= j <= |needle|
      invariant forall k :: 0 <= k < j ==> needle[k] == rest[k]
    {
      LowerAt(hay, i + j);
      j := j + 1;
    }
    if j < |needle| {
      LowerAt(hay, i + j);
      assert rest[j] != needle[j];
    }
    yes := j == |needle|;
  }

  lemma LowerLength(s: string)
    ensures |LowerAll(s)| == |s|
  {
  }

  lemma NotBefore(needle: string, hay: string, n: nat)
    requires forall k :: 0 <= k < n ==> k <= |hay| && !(needle <= hay[k..])
    requires n + |needle| > |hay|
    ensures !Occurs(needle, hay)
  {
  }

  /** mem_has_ci: the needle is given in lower case. */
  method MemHasCi(hay: string, needle: string) returns (found: bool)
    ensures found <==> needle != [] && Occurs(needle, LowerAll(hay))
  {
    hide LowerAll, Occurs;
    LowerLength(hay);
    ghost var lower := LowerAll(hay);
    if |needle| == 0 {
      return false;
    }
    if |hay| < |needle| {
      NotBefore(needle, lower, 0);
      return false;
    }
    var i := 0;
    while i + |needle| <= |hay|
      invariant 0 <= i <= |hay| - |needle| + 1
      invariant forall k :: 0 <= k < i ==> k <= |lower| && !(needle <= lower[k..])
    {
      var here := MatchesAt(hay, i, needle);
      if here {
        return true;
      }
      i := i + 1;
    }
    NotBefore(needle, lower, i);
    return false;
  }

  method TagAt(s: string, i: nat) returns (yes: bool)
    requires i + 4 <= |s|
    ensures yes <==> SvgTagAt(s, i)
  {
    hide LowerAll;
    if s[i] != '<' {
      return false;
    }
    var j := i + 1;
    var p := j;
    while p < |s| && IsNameChar(s[p])
      invariant j <= p <= |s| && NameEnd(s, p) == NameEnd(s, j)
    {
      p := p + 1;
    }
    if p > j && p < |s| && s[p] == ':' {
      j := p + 1;
    }
    if j + 3 > |s| || LowerAll(s[j..j + 3]) != "svg" {
      return false;
    }
    yes := j + 3 >= |s| || EndsName(s[j + 3]);
  }

  method BufferLooksLikeSvg(data: string) returns (yes: bool)
    ensures yes <==> LooksLikeSvg(data)
  {
    hide SvgTagAt, LowerAll, Occurs, Front, NAMESPACE;
    NamespaceIsText();
    var s := Front(data);
    if |s| < 4 {
      return false;
    }
    var named := MemHasCi(s, NAMESPACE);
    if named {
      return true;
    }
    var i := 0;
    while i + 4 <= |s|
      invariant 0 <= i <= |s| - 3
      invariant forall k: nat :: k < i ==> !SvgTagAt(s, k)
    {
      var tag := TagAt(s, i);
      if tag {
        return true;
      }
      i := i + 1;
    }
    return false;
  }

  ghost predicate IsNamePart(s: string, j: nat, p: nat) {
    j <= p <= |s| && forall i :: j <= i < p ==>
      'a' <= s[i] <= 'z' || 'A' <= s[i] <= 'Z' || '0' <= s[i] <= '9' || s[i] == '_' || s[i] == '-'
  }

  /** A name, at j, has its local part at l: behind a prefix and its colon, or, without one, at j. */
  ghost predicate LocalAt(s: string, j: nat, l: nat) {
    if exists p :: j < p < |s| && s[p] == ':' && IsNamePart(s, j, p)
    then j + 1 < l <= |s| && s[l - 1] == ':' && IsNamePart(s, j, l - 1)
    else l == j
  }

  /** The three letters, small or capital, and behind them nothing, white space, or the end of the tag. */
  ghost predicate SvgWord(s: string, l: nat) {
    && l + 3 <= |s|
    && (s[l] == 's' || s[l] == 'S') && (s[l + 1] == 'v' || s[l + 1] == 'V') && (s[l + 2] == 'g' || s[l + 2] == 'G')
    && (l + 3 < |s| ==> s[l + 3] == ' ' || s[l + 3] == '\t' || s[l + 3] == '\r' || s[l + 3] == '\n'
                        || s[l + 3] == '>' || s[l + 3] == '/')
  }

  /** What an opening tag is, by positions. */
  lemma SvgTagExactly(s: string, i: nat)
    requires i < |s|
    ensures SvgTagAt(s, i) <==> s[i] == '<' && exists l :: LocalAt(s, i + 1, l) && SvgWord(s, l)
  {
    hide LowerAll;
    var (j, p) := (i + 1, NameEnd(s, i + 1));
    var l := LocalStart(s, j);
    forall q | j < q < |s| && s[q] == ':' && IsNamePart(s, j, q) ensures q == p {
      PartsEnd(s, j, q);
    }
    assert IsNamePart(s, j, p);
    forall m: nat ensures LocalAt(s, j, m) <==> m == l {
      if j + 1 < m <= |s| && s[m - 1] == ':' && IsNamePart(s, j, m - 1) {
        assert m - 1 == p;
      }
    }
    if l + 3 <= |s| {
      var word := s[l..l + 3];
      SvgLetters(word);
      assert word[0] == s[l] && word[1] == s[l + 1] && word[2] == s[l + 2];
      if l + 3 < |s| {
        NameEnds(s[l + 3]);
      }
      assert SvgWord(s, l) <==> LowerAll(word) == "svg" && (l + 3 == |s| || EndsName(s[l + 3]));
    }
    assert LocalAt(s, j, l);
    hide LocalAt, SvgWord;
  }

  lemma NameEnds(c: char)
    ensures EndsName(c) <==> c == ' ' || c == '\t' || c == '\r' || c == '\n' || c == '>' || c == '/'
  {
  }

  lemma PartsEnd(s: string, j: nat, q: nat)
    requires j <= q < |s| && s[q] == ':' && IsNamePart(s, j, q)
    ensures NameEnd(s, j) == q
  {
    var p := NameEnd(s, j);
    hide NameEnd;
  }

  lemma SvgLetters(word: string)
    requires |word| == 3
    ensures LowerAll(word) == "svg" <==>
              (word[0] == 's' || word[0] == 'S') && (word[1] == 'v' || word[1] == 'V') && (word[2] == 'g' || word[2] == 'G')
  {
    var lower := LowerAll(word);
    hide LowerAll;
    assert lower == [lower[0], lower[1], lower[2]];
  }

  lemma NamespaceIsText()
    ensures NAMESPACE != []
  {
  }

  lemma TagIsRecognised(name: string, atts: seq<Attr>, tail: string)
    requires LowerAll(name) == "svg"
    ensures LooksLikeSvg(OpenTag(name, atts) + tail)
  {
    hide Escape, Occurs, PrintAttrs, HasSvgTag, LowerAll;
    LowerLength(name);
    var (more, out) := (PrintAttrs(atts), OpenTag(name, atts) + tail);
    AttributesStartWithSpace(atts);
    assert OpenTag(name, atts)[1..4] == name;
    assert out[0] == '<' && out[1..4] == name && (out[4] == ' ' || out[4] == '>');
    assert |Front(out)| > 4 && Front(out)[1..4] == out[1..4] && Front(out)[0] == out[0] && Front(out)[4] == out[4];
    NamedSvgTag(Front(out), name);
  }

  lemma AttributesStartWithSpace(atts: seq<Attr>)
    ensures PrintAttrs(atts) == "" || PrintAttrs(atts)[0] == ' '
  {
  }

  lemma NamedSvgTag(s: string, name: string)
    requires |s| > 4 && s[0] == '<' && s[1..4] == name && LowerAll(name) == "svg" && (s[4] == ' ' || s[4] == '>')
    ensures HasSvgTag(s)
  {
    assert name[0] == s[1] && name[1] == s[2] && name[2] == s[3];
    LowerAt(name, 0);
    LowerAt(name, 1);
    LowerAt(name, 2);
    assert NameEnd(s, 4) == 4;
    assert NameEnd(s, 3) == 4;
    assert NameEnd(s, 2) == 4;
    assert NameEnd(s, 1) == 4;
    assert SvgTagAt(s, 0);
  }

  /** What the sanitizer makes of a document is recognised as an SVG image again. */
  lemma OutputIsRecognised(p: Policy, root: Forest, max: nat)
    requires root.Elem? && root.rest.Nil?
    requires DocumentVerdict(p, root, max).Modified?
    ensures LooksLikeSvg(DocumentVerdict(p, root, max).output)
  {
    hide LooksLikeSvg, OpenTag, CloseTag, LowerAll, MatchName;
    var (name, atts) := (MatchName(root.name), FilterAttrs(p, MatchName(root.name), root.atts));
    var kids := Print(Filter(p, root.kids));
    var tag := OpenTag(name, atts);
    var after := CloseTag(name) + Print(Filter(p, root.rest));
    PrintElement(p, root);
    assert Print(Filter(p, root)) == tag + (kids + after);
    TagIsRecognised(name, atts, kids + after);
  }
}

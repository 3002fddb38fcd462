// What the SVG filter leaves of a tree (sanitizers/svg.c).
module SvgKept {
  // It is said by positions in names and values: which elements and attributes stay, that they stay as
  // they are and where they are, and what an XML parser can then read of the output.  The filter's own
  // predicates are shown to say the same.

  import opened Bytes
  import opened SvgFilter
  import opened SvgHandlers
  import opened SvgSanitizer
  import opened SvgReader

  /** One letter, or the small and the capital of one. */
  predicate SameLetter(c: char, d: char) {
    || c == d
    || ('A' <= c <= 'Z' && d as int == c as int + 32)
    || ('A' <= d <= 'Z' && c as int == d as int + 32)
  }

  /** The word stands in `s` at p, letter case aside. */
  ghost predicate Reads(s: string, p: nat, word: string) {
    p + |word| <= |s| && forall i :: 0 <= i < |word| ==> SameLetter(s[p + i], word[i])
  }

  ghost predicate ReadsSomewhere(s: string, word: string) {
    exists p :: Reads(s, p, word)
  }

  ghost predicate IsWord(s: string, word: string) {
    |s| == |word| && Reads(s, 0, word)
  }

  ghost predicate IsOneOf(s: string, words: set<string>) {
    exists w :: w in words && IsWord(s, w)
  }

  ghost predicate FirstColon(name: string, p: nat) {
    p < |name| && name[p] == ':' && forall q :: 0 <= q < p ==> name[q] != ':'
  }

  /** The name without the prefix that ends at its first colon. */
  ghost predicate IsLocalName(name: string, local: string) {
    if ':' !in name then local == name else exists p :: FirstColon(name, p) && local == name[p + 1..]
  }

  /** A link into the document, or, but on images and uses, one to the web. */
  ghost predicate SafeLink(element: string, value: string) {
    || Reads(value, 0, "#")
    || (!IsOneOf(element, {"image", "use"}) && (Reads(value, 0, "http://") || Reads(value, 0, "https://")))
  }

  ghost predicate SafeStyle(value: string) {
    && !ReadsSomewhere(value, "expression(") && !ReadsSomewhere(value, "javascript:") && !ReadsSomewhere(value, "@import")
    && !ReadsSomewhere(value, "behavior:") && !ReadsSomewhere(value, "behaviour:")
  }

  /** An attribute that may stand on an element of that name. */
  ghost predicate SafeAttr(element: string, a: Attr) {
    && |a.name| < 128 && !Reads(a.name, 0, "on") && IsOneOf(a.name, AllowedAttributes())
    && (IsWord(a.name, "href") || IsWord(a.name, "xlink:href") ==> SafeLink(element, a.value))
    && (IsWord(a.name, "style") ==> SafeStyle(a.value))
  }

  /** Capitals as small letters, and the rest as it is. */
  ghost predicate IsLowered(t: string, s: string) {
    |t| == |s| && forall i :: 0 <= i < |s| ==>
      SameLetter(t[i], s[i]) && !('A' <= t[i] <= 'Z') && (t[i] != s[i] ==> 'A' <= s[i] <= 'Z')
  }

  /** Of the attributes, the safe ones in their order, their names in small letters. */
  ghost predicate SanitizedAttrs(element: string, before: seq<Attr>, after: seq<Attr>) {
    if before == [] then after == []
    else if SafeAttr(element, before[0]) then
      && after != [] && IsLowered(after[0].name, before[0].name) && after[0].value == before[0].value
      && SanitizedAttrs(element, before[1..], after[1..])
    else SanitizedAttrs(element, before[1..], after)
  }

  /** Of the tree, all text but that in a dropped element, and the elements with a local name from the
      list, in their places, under that name and with their safe attributes. */
  ghost predicate Sanitized(before: Forest, after: Forest) {
    match before
    case Nil => after.Nil?
    case Text(s, rest) => after.Text? && after.text == s && Sanitized(rest, after.rest)
    case Elem(name, atts, kids, rest) =>
      if exists local :: IsLocalName(name, local) && IsOneOf(local, AllowedElements()) then
        && after.Elem? && IsLocalName(name, after.name) && SanitizedAttrs(after.name, atts, after.atts)
        && Sanitized(kids, after.kids) && Sanitized(rest, after.rest)
      else Sanitized(rest, after)
  }

  // ---------------------------------------------------------------------------
  // Words and lists

  lemma LowerIsSameLetter(c: char, d: char)
    ensures SameLetter(c, d) <==> Lower(c) == Lower(d)
  {
  }

  lemma StartsExactly(s: string, word: string)
    ensures StartsWithCi(s, word) <==> Reads(s, 0, word)
  {
    var (t, w) := (LowerAll(s), LowerAll(word));
    hide LowerAll;
    forall i | 0 <= i < |word| && i < |s| ensures SameLetter(s[i], word[i]) <==> t[i] == w[i] {
      LowerIsSameLetter(s[i], word[i]);
    }
    if Reads(s, 0, word) {
      assert forall i :: 0 <= i < |word| ==> SameLetter(s[0 + i], word[i]);
      assert w == t[..|w|];
    }
    if w <= t {
      assert forall i :: 0 <= i < |w| ==> w[i] == t[i];
    }
  }

  lemma {:induction false} ContainsExactly(s: string, word: string)
    ensures ContainsCi(s, word) <==> ReadsSomewhere(s, word)
  {
    hide StartsWithCi;
    StartsExactly(s, word);
    if s != "" {
      ContainsExactly(s[1..], word);
      forall p: nat ensures Reads(s[1..], p, word) <==> Reads(s, p + 1, word) {
        ReadsBehind(s, p, word);
      }
      if ReadsSomewhere(s, word) && !Reads(s, 0, word) {
        var p: nat :| Reads(s, p, word);
        assert Reads(s[1..], p - 1, word);
      }
    }
  }

  lemma ReadsBehind(s: string, p: nat, word: string)
    requires s != ""
    ensures Reads(s[1..], p, word) <==> Reads(s, p + 1, word)
  {
    var t := s[1..];
    assert forall j :: 0 <= j < |t| ==> t[j] == s[j + 1];
  }

  ghost predicate NoCapitals(s: string) {
    forall i :: 0 <= i < |s| ==> !('A' <= s[i] <= 'Z')
  }

  ghost predicate SmallWords(words: set<string>) {
    forall w :: w in words ==> NoCapitals(w)
  }

  lemma InListExactly(s: string, words: set<string>)
    requires SmallWords(words)
    ensures LowerAll(s) in words <==> IsOneOf(s, words)
  {
    var t := LowerAll(s);
    hide LowerAll;
    if t in words {
      assert IsWord(s, t);
    }
    if IsOneOf(s, words) {
      var w :| w in words && IsWord(s, w);
      forall i | 0 <= i < |s| ensures t[i] == w[i] {
        assert SameLetter(s[0 + i], w[i]);
      }
      assert t == w;
    }
  }

  lemma WordExactly(s: string, word: string)
    requires NoCapitals(word)
    ensures LowerAll(s) == word <==> IsWord(s, word)
  {
    InListExactly(s, {word});
    assert LowerAll(s) in {word} <==> LowerAll(s) == word;
  }

  lemma LocalNameExactly(name: string, local: string)
    ensures local == MatchName(name) <==> IsLocalName(name, local)
  {
    AfterColonExactly(name, 0);
    assert name[0..] == name;
  }

  lemma {:induction false} AfterColonExactly(name: string, from: nat)
    requires from <= |name| && forall q :: 0 <= q < from ==> name[q] != ':'
    ensures if ':' !in name then AfterColon(name[from..], name) == name
            else exists p :: FirstColon(name, p) && AfterColon(name[from..], name) == name[p + 1..]
    decreases |name| - from
  {
    var s := name[from..];
    if s != "" && s[0] == ':' {
      assert FirstColon(name, from) && s[1..] == name[from + 1..];
    } else if s != "" {
      assert s[1..] == name[from + 1..];
      AfterColonExactly(name, from + 1);
    }
  }

  lemma ShapesAreSmall() ensures SmallWords(SHAPES) {}
  lemma GradientsAreSmall() ensures SmallWords(GRADIENTS) {}
  lemma OtherElementsAreSmall() ensures SmallWords(OTHER_ELEMENTS) {}
  lemma DocumentAreSmall() ensures SmallWords(DOCUMENT_ATTRIBUTES) {}
  lemma GeometryAreSmall() ensures SmallWords(GEOMETRY_ATTRIBUTES) {}
  lemma PaintAreSmall() ensures SmallWords(PAINT_ATTRIBUTES) {}
  lemma ColourAreSmall() ensures SmallWords(COLOUR_ATTRIBUTES) {}
  lemma GradientAreSmall() ensures SmallWords(GRADIENT_ATTRIBUTES) {}
  lemma PatternAreSmall() ensures SmallWords(PATTERN_ATTRIBUTES) {}
  lemma MarkerAreSmall() ensures SmallWords(MARKER_ATTRIBUTES) {}
  lemma ClipAreSmall() ensures SmallWords(CLIP_ATTRIBUTES) {}
  lemma FontAreSmall() ensures SmallWords(FONT_ATTRIBUTES) {}
  lemma TextAreSmall() ensures SmallWords(TEXT_ATTRIBUTES) {}
  lemma OtherAreSmall() ensures SmallWords(OTHER_ATTRIBUTES) {}
  lemma FragmentsAreSmall() ensures SmallWords({"image", "use"}) {}

  lemma ListsAreSmall()
    ensures SmallWords(AllowedElements()) && SmallWords(AllowedAttributes())
  {
    ShapesAreSmall();
    GradientsAreSmall();
    OtherElementsAreSmall();
    DocumentAreSmall();
    GeometryAreSmall();
    PaintAreSmall();
    ColourAreSmall();
    GradientAreSmall();
    PatternAreSmall();
    ClipAreSmall();
    MarkerAreSmall();
    FontAreSmall();
    TextAreSmall();
    OtherAreSmall();
    hide NoCapitals;
  }

  // ---------------------------------------------------------------------------
  // What is kept

  lemma LinkExactly(element: string, value: string)
    ensures LinkOk(value, LowerAll(element) in {"image", "use"}) <==> SafeLink(element, value)
  {
    hide StartsWithCi, LowerAll, IsOneOf, SmallWords, Reads;
    FragmentsAreSmall();
    InListExactly(element, {"image", "use"});
    HashExactly(value);
    BeginsWithLetter(value, "javascript:", 'j');
    BeginsWithLetter(value, "data:", 'd');
    BeginsWithLetter(value, "http://", 'h');
    BeginsWithLetter(value, "https://", 'h');
  }

  lemma HashExactly(s: string)
    ensures Reads(s, 0, "#") <==> s != "" && s[0] == '#'
  {
    FirstLetter(s, "#");
    assert s != "" && s[0] == '#' ==> SameLetter(s[0 + 0], "#"[0]);
  }

  lemma BeginsWithLetter(s: string, word: string, c: char)
    requires word != "" && word[0] == c
    ensures StartsWithCi(s, word) <==> Reads(s, 0, word)
    ensures Reads(s, 0, word) ==> s != "" && SameLetter(s[0], c)
  {
    StartsExactly(s, word);
    FirstLetter(s, word);
  }

  lemma FirstLetter(s: string, word: string)
    requires word != ""
    ensures Reads(s, 0, word) ==> s != "" && SameLetter(s[0], word[0])
  {
    assert Reads(s, 0, word) ==> SameLetter(s[0 + 0], word[0]);
  }

  lemma StyleExactly(value: string)
    ensures StyleOk(value) <==> SafeStyle(value)
  {
    hide ContainsCi, ReadsSomewhere;
    ContainsExactly(value, "expression(");
    ContainsExactly(value, "javascript:");
    ContainsExactly(value, "@import");
    ContainsExactly(value, "behavior:");
    ContainsExactly(value, "behaviour:");
  }

  lemma HandlerExactly(name: string)
    ensures "on" <= LowerAll(name) <==> Reads(name, 0, "on")
  {
    StartsExactly(name, "on");
    assert LowerAll("on") == "on";
  }

  lemma LinkNames(name: string)
    ensures LowerAll(name) == "href" <==> IsWord(name, "href")
    ensures LowerAll(name) == "xlink:href" <==> IsWord(name, "xlink:href")
    ensures LowerAll(name) == "style" <==> IsWord(name, "style")
  {
    assert NoCapitals("href") && NoCapitals("xlink:href") && NoCapitals("style");
    hide LowerAll, IsWord, NoCapitals;
    WordExactly(name, "href");
    WordExactly(name, "xlink:href");
    WordExactly(name, "style");
  }

  /** The handler keeps exactly the safe attributes. */
  lemma KeptExactly(element: string, a: Attr)
    ensures KeepAttr(SvgPolicy(), element, a) <==> SafeAttr(element, a)
  {
    hide AllowedElements, AllowedAttributes, LowerAll, Reads, IsWord, IsOneOf, LinkOk, StyleOk, SafeLink, SafeStyle, SmallWords;
    ListsAreSmall();
    HandlerExactly(a.name);
    InListExactly(a.name, AllowedAttributes());
    LinkNames(a.name);
    LinkExactly(element, a.value);
    StyleExactly(a.value);
  }

  lemma LoweredExactly(t: string, s: string)
    ensures t == LowerAll(s) <==> IsLowered(t, s)
  {
    var u := LowerAll(s);
    hide LowerAll;
    if IsLowered(t, s) {
      forall i | 0 <= i < |s| ensures t[i] == u[i] {
      }
    }
  }

  lemma {:induction false} AttrsExactly(element: string, before: seq<Attr>, after: seq<Attr>)
    ensures after == FilterAttrs(SvgPolicy(), element, before) <==> SanitizedAttrs(element, before, after)
  {
    hide SvgPolicy, KeepAttr, SafeAttr, LowerAll, IsLowered;
    if before != [] {
      var rest := FilterAttrs(SvgPolicy(), element, before[1..]);
      KeptExactly(element, before[0]);
      if SafeAttr(element, before[0]) {
        var first := Attr(LowerAll(before[0].name), before[0].value);
        if after != [] {
          AttrsExactly(element, before[1..], after[1..]);
          LoweredExactly(after[0].name, before[0].name);
          assert after == [after[0]] + after[1..];
          assert after == [first] + rest <==> after[0] == first && after[1..] == rest;
        }
      } else {
        AttrsExactly(element, before[1..], after);
      }
    }
  }

  lemma AllowedExactly(name: string)
    ensures Allowed(SvgPolicy(), name) <==> exists local :: IsLocalName(name, local) && IsOneOf(local, AllowedElements())
    ensures Allowed(SvgPolicy(), name) <==> IsOneOf(MatchName(name), AllowedElements())
    ensures forall local :: local == MatchName(name) <==> IsLocalName(name, local)
  {
    hide AllowedElements, AllowedAttributes, LowerAll, IsOneOf, SmallWords, IsLocalName, MatchName;
    ListsAreSmall();
    InListExactly(MatchName(name), AllowedElements());
    forall local ensures local == MatchName(name) <==> IsLocalName(name, local) {
      LocalNameExactly(name, local);
    }
  }

  /** Filtering a tree is sanitizing it, and nothing else is: every allowed element and every safe
      attribute stays, with its value and in its place, and no other does. */
  lemma {:induction false} FilterExactly(before: Forest, after: Forest)
    ensures after == Filter(SvgPolicy(), before) <==> Sanitized(before, after)
  {
    hide SvgPolicy, FilterAttrs, SanitizedAttrs, IsLocalName, IsOneOf, MatchName, Allowed, AllowedElements;
    match before
    case Nil =>
    case Text(s, rest) =>
      if after.Text? {
        FilterExactly(rest, after.rest);
      }
    case Elem(name, atts, kids, rest) =>
      AllowedExactly(name);
      if !Allowed(SvgPolicy(), name) {
        FilterExactly(rest, after);
      } else if after.Elem? {
        AttrsExactly(MatchName(name), atts, after.atts);
        FilterExactly(kids, after.kids);
        FilterExactly(rest, after.rest);
      }
  }

  // ---------------------------------------------------------------------------
  // What a parser reads of it

  ghost predicate SafeAttrs(element: string, atts: seq<Attr>) {
    forall i :: 0 <= i < |atts| ==> SafeAttr(element, atts[i])
  }

  /** Every element has a name from the list and safe attributes only. */
  ghost predicate Safe(f: Forest) {
    match f
    case Nil => true
    case Text(_, rest) => Safe(rest)
    case Elem(name, atts, kids, rest) =>
      IsOneOf(name, AllowedElements()) && SafeAttrs(name, atts) && Safe(kids) && Safe(rest)
  }

  lemma KeptTwice(p: Policy, element: string, a: Attr)
    ensures KeepAttr(p, element, a) ==> KeepAttr(p, element, Attr(LowerAll(a.name), a.value))
  {
    LowerTwice(a.name);
    hide LowerAll, LinkOk, StyleOk;
  }

  lemma {:induction false} FilteredAreKept(p: Policy, element: string, atts: seq<Attr>)
    ensures forall i :: 0 <= i < |FilterAttrs(p, element, atts)| ==> KeepAttr(p, element, FilterAttrs(p, element, atts)[i])
  {
    hide KeepAttr, LowerAll;
    if atts != [] {
      FilteredAreKept(p, element, atts[1..]);
      KeptTwice(p, element, atts[0]);
    }
  }

  lemma FilteredAttrsSafe(element: string, atts: seq<Attr>)
    ensures SafeAttrs(element, FilterAttrs(SvgPolicy(), element, atts))
  {
    hide KeepAttr, SafeAttr, SvgPolicy, FilterAttrs;
    var kept := FilterAttrs(SvgPolicy(), element, atts);
    FilteredAreKept(SvgPolicy(), element, atts);
    forall i | 0 <= i < |kept| ensures SafeAttr(element, kept[i]) {
      KeptExactly(element, kept[i]);
    }
  }

  lemma {:induction false} FilteredIsSafe(f: Forest)
    ensures Safe(Filter(SvgPolicy(), f))
  {
    hide SvgPolicy, FilterAttrs, IsOneOf, MatchName, Allowed, AllowedElements, SafeAttrs;
    match f
    case Nil =>
    case Text(_, rest) => FilteredIsSafe(rest);
    case Elem(name, atts, kids, rest) =>
      FilteredIsSafe(kids);
      FilteredIsSafe(rest);
      AllowedExactly(name);
      FilteredAttrsSafe(MatchName(name), atts);
  }

  lemma {:induction false} JoinedIsSafe(f: Forest)
    ensures Safe(f) ==> Safe(Joined(f))
    decreases Size(f)
  {
    hide IsOneOf, SafeAttrs, AllowedElements;
    match f
    case Nil =>
    case Elem(_, _, kids, rest) =>
      JoinedIsSafe(kids);
      JoinedIsSafe(rest);
    case Text(a, rest) =>
      if rest.Text? {
        assert Size(rest) == 1 + Size(rest.rest);
        JoinedIsSafe(Text(a + rest.text, rest.rest));
        assert Safe(f) == Safe(rest) == Safe(rest.rest);
      } else {
        JoinedIsSafe(rest);
      }
  }

  /** No white space, so that no treatment of white space can make the word or take it away. */
  ghost predicate NoWhite(word: string) {
    forall i :: 0 <= i < |word| ==> !IsWhite(word[i]) && word[i] != ' '
  }

  lemma {:induction false} SpacesAt(s: string)
    ensures |Spaces(s)| == |s| && forall i :: 0 <= i < |s| ==> Spaces(s)[i] == if IsWhite(s[i]) then ' ' else s[i]
  {
    if s != "" {
      SpacesAt(s[1..]);
    }
  }

  lemma SpacesKeepWords(s: string, p: nat, word: string)
    requires NoWhite(word)
    ensures Reads(Spaces(s), p, word) <==> Reads(s, p, word)
  {
    SpacesAt(s);
    var t := Spaces(s);
    hide Spaces;
    if p + |word| <= |s| {
      forall i | 0 <= i < |word| ensures SameLetter(t[p + i], word[i]) <==> SameLetter(s[p + i], word[i]) {
      }
    }
  }

  /** A word that stands in front still does, and none comes to stand there. */
  lemma {:induction false} LineEndsKeepFront(s: string, word: string)
    requires NoWhite(word)
    ensures Reads(LineEnds(s), 0, word) <==> Reads(s, 0, word)
  {
    if s != "" && word != "" {
      var (c, behind) := (s[0], s[1..]);
      if c != '\r' {
        LineEndsKeepFront(behind, word[1..]);
        FrontLetter(s, word);
        FrontLetter(LineEnds(s), word);
        assert LineEnds(s)[1..] == LineEnds(behind);
      } else {
        FrontLetter(s, word);
        FrontLetter(LineEnds(s), word);
      }
    }
  }

  lemma FrontLetter(s: string, word: string)
    requires s != "" && word != ""
    ensures Reads(s, 0, word) <==> SameLetter(s[0], word[0]) && Reads(s[1..], 0, word[1..])
  {
    var (t, w) := (s[1..], word[1..]);
    assert forall j :: 0 <= j < |t| ==> t[j] == s[j + 1];
    assert forall j :: 0 <= j < |w| ==> w[j] == word[j + 1];
    if Reads(s, 0, word) {
      assert SameLetter(s[0 + 0], word[0]);
      forall i | 0 <= i < |w| ensures SameLetter(t[0 + i], w[i]) {
        assert SameLetter(s[0 + (i + 1)], word[i + 1]);
      }
    }
    if SameLetter(s[0], word[0]) && Reads(t, 0, w) {
      forall i | 0 <= i < |word| ensures SameLetter(s[0 + i], word[i]) {
        if i > 0 {
          assert SameLetter(t[0 + (i - 1)], w[i - 1]);
        }
      }
    }
  }

  /** A word that stands anywhere afterwards stood somewhere before. */
  lemma {:induction false} LineEndsMakeNoWord(s: string, p: nat, word: string)
    requires NoWhite(word) && word != "" && Reads(LineEnds(s), p, word)
    ensures ReadsSomewhere(s, word)
    decreases |s|
  {
    if p == 0 {
      LineEndsKeepFront(s, word);
    } else {
      var behind := if s[0] == '\r' && |s| > 1 && s[1] == '\n' then s[2..] else s[1..];
      assert LineEnds(s)[1..] == LineEnds(behind);
      ReadsBehind(LineEnds(s), p - 1, word);
      LineEndsMakeNoWord(behind, p - 1, word);
      var q: nat :| Reads(behind, q, word);
      if |behind| == |s| - 1 {
        ReadsBehind(s, q, word);
      } else {
        assert s[1..][1..] == behind;
        ReadsBehind(s[1..], q, word);
        ReadsBehind(s, q + 1, word);
      }
    }
  }

  lemma ValueKeepsFront(mode: Mode, value: string, word: string)
    requires NoWhite(word)
    ensures Reads(ValueAs(mode, value), 0, word) <==> Reads(value, 0, word)
  {
    LineEndsKeepFront(value, word);
    SpacesKeepWords(LineEnds(value), 0, word);
  }

  lemma ValueMakesNoWord(mode: Mode, value: string, word: string)
    requires NoWhite(word) && word != "" && ReadsSomewhere(ValueAs(mode, value), word)
    ensures ReadsSomewhere(value, word)
  {
    hide Reads, LineEnds, Spaces;
    var p: nat :| Reads(ValueAs(mode, value), p, word);
    if mode.Xml? {
      SpacesKeepWords(LineEnds(value), p, word);
      LineEndsMakeNoWord(value, p, word);
    }
  }

  /** A safe attribute is read as a safe one, white space and all. */
  lemma ValueIsSafe(mode: Mode, element: string, a: Attr)
    ensures SafeAttr(element, a) ==> SafeAttr(element, Attr(a.name, ValueAs(mode, a.value)))
  {
    hide ValueAs, Reads, IsWord, IsOneOf, AllowedAttributes;
    LinkIsSafe(mode, element, a.value);
    StyleIsSafe(mode, a.value);
    hide SafeLink, SafeStyle;
  }

  lemma LinkIsSafe(mode: Mode, element: string, value: string)
    ensures SafeLink(element, value) ==> SafeLink(element, ValueAs(mode, value))
  {
    hide ValueAs, Reads, IsOneOf;
    ValueKeepsFront(mode, value, "#");
    ValueKeepsFront(mode, value, "http://");
    ValueKeepsFront(mode, value, "https://");
  }

  lemma StyleIsSafe(mode: Mode, value: string)
    ensures SafeStyle(value) ==> SafeStyle(ValueAs(mode, value))
  {
    hide ValueAs, ReadsSomewhere;
    NoNewWord(mode, value, "expression(");
    NoNewWord(mode, value, "javascript:");
    NoNewWord(mode, value, "@import");
    NoNewWord(mode, value, "behavior:");
    NoNewWord(mode, value, "behaviour:");
  }

  lemma NoNewWord(mode: Mode, value: string, word: string)
    ensures NoWhite(word) && word != "" && !ReadsSomewhere(value, word) ==> !ReadsSomewhere(ValueAs(mode, value), word)
  {
    hide ValueAs, ReadsSomewhere;
    if NoWhite(word) && word != "" && ReadsSomewhere(ValueAs(mode, value), word) {
      ValueMakesNoWord(mode, value, word);
    }
  }

  lemma {:induction false} AttrsAreSafe(mode: Mode, element: string, atts: seq<Attr>)
    ensures SafeAttrs(element, atts) ==> SafeAttrs(element, AttrsAs(mode, atts))
  {
    hide SafeAttr, ValueAs;
    if atts != [] {
      var rest := atts[1..];
      assert SafeAttrs(element, atts) ==> SafeAttrs(element, rest);
      AttrsAreSafe(mode, element, rest);
      ValueIsSafe(mode, element, atts[0]);
    }
  }

  lemma {:induction false} TreeIsSafe(mode: Mode, f: Forest)
    ensures Safe(f) ==> Safe(TreeAs(mode, f))
  {
    hide IsOneOf, SafeAttrs, AllowedElements, AttrsAs, TextAs;
    match f
    case Nil =>
    case Text(_, rest) => TreeIsSafe(mode, rest);
    case Elem(name, atts, kids, rest) =>
      TreeIsSafe(mode, kids);
      TreeIsSafe(mode, rest);
      AttrsAreSafe(mode, name, atts);
  }

  /** Whatever the tree was: what a parser reads of the output, if it takes it, has only elements from
      the list, with only attributes from the other list that are no handlers, links only into the
      document or, but on images and uses, to the web, and styles without any of the five words. */
  lemma WhatIsReadIsSafe(mode: Mode, f: Forest)
    ensures var read := Read(mode, Print(Filter(SvgPolicy(), f)));
      read.Some? ==> Safe(read.value.0) && read.value.1 == ""
  {
    hide Sane, Read, Print, Filter, TreeAs, Safe, Unique, SvgPolicy;
    var g := Filter(SvgPolicy(), f);
    SvgPolicyIsSane();
    OutputIsRead(mode, SvgPolicy(), f);
    FilteredIsSafe(f);
    JoinedIsSafe(g);
    TreeIsSafe(mode, Joined(g));
  }

  lemma Absent(word: string)
    requires NoCapitals(word) && word !in SHAPES && word !in GRADIENTS && word !in OTHER_ELEMENTS
    ensures !IsOneOf(word, AllowedElements())
  {
    hide IsOneOf, SmallWords;
    ListsAreSmall();
    InListExactly(word, AllowedElements());
    LoweredExactly(word, word);
  }

  /** The list has no element that holds a script or another document. */
  lemma NoScriptIsAllowed()
    ensures !IsOneOf("script", AllowedElements()) && !IsOneOf("foreignobject", AllowedElements())
    ensures !IsOneOf("iframe", AllowedElements()) && !IsOneOf("a", AllowedElements())
  {
    hide IsOneOf, AllowedElements;
    Absent("script");
    Absent("foreignobject");
    Absent("iframe");
    Absent("a");
  }

  /** The local name is that word, letter case aside. */
  ghost predicate Named(name: string, word: string) {
    exists local :: IsLocalName(name, local) && IsWord(local, word)
  }

  lemma NamedExactly(name: string, word: string)
    requires NoCapitals(word)
    ensures Named(name, word) <==> LowerAll(MatchName(name)) == word
  {
    hide MatchName, LowerAll, IsLocalName, IsWord;
    WordExactly(MatchName(name), word);
    forall local ensures local == MatchName(name) <==> IsLocalName(name, local) {
      LocalNameExactly(name, local);
    }
  }

  /** A document is accepted exactly if its outermost element is an svg, with a prefix or without, and the
      sanitized tree prints to at most four times the length of the input or to one MiB; and then that
      is what comes out. */
  lemma DocumentExactly(root: Forest, inputLen: nat) returns (tree: Forest)
    requires root.Elem? && root.rest.Nil?
    ensures Sanitized(root, tree)
    ensures var (v, size) := (DocumentVerdict(SvgPolicy(), root, MaxOutput(inputLen)), |Print(tree)|);
      && (v.Modified? <==> Named(root.name, "svg") && (size <= 4 * inputLen || size <= 0x10_0000))
      && (v.Modified? ==> v.output == Print(tree))
      && (v.OutputTooLarge? <==> Named(root.name, "svg") && size > 4 * inputLen && size > 0x10_0000)
      && (v.NoRoot? <==> !exists local :: IsLocalName(root.name, local) && IsOneOf(local, AllowedElements()))
  {
    tree := Filter(SvgPolicy(), root);
    FilterExactly(root, tree);
    AllowedExactly(root.name);
    assert NoCapitals("svg");
    NamedExactly(root.name, "svg");
    SvgIsAllowed();
    hide Filter, Print, Sanitized, IsOneOf, IsLocalName, Named, MatchName, LowerAll, AllowedElements, NoCapitals;
  }

  lemma SvgIsAllowed()
    ensures "svg" in SvgPolicy().elements
  {
  }
}

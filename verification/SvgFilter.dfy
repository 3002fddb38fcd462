// The SVG allow-list of sanitizers/svg.c as a recursive filter on trees followed by a printer:
// the reference the streaming handlers are compared with.
module SvgFilter {
  import opened Bytes

  datatype Attr = Attr(name: string, value: string)

  /** A list of sibling nodes: each an element with its children, or a run of text. */
  datatype Forest =
    | Nil
    | Elem(name: string, atts: seq<Attr>, kids: Forest, rest: Forest)
    | Text(text: string, rest: Forest)

  /** The three lists, in lower case. */
  datatype Policy = Policy(elements: set<string>, attributes: set<string>, fragmentOnly: set<string>)

  function Lower(c: char): char {
    if 'A' <= c <= 'Z' then (c as int + 32) as char else c
  }

  function LowerAll(s: string): (t: string)
    ensures |t| == |s| && forall i :: 0 <= i < |s| ==> t[i] == Lower(s[i])
  {
    if s == "" then "" else [Lower(s[0])] + LowerAll(s[1..])
  }

  lemma LowerTwice(s: string)
    ensures LowerAll(LowerAll(s)) == LowerAll(s)
  {
  }

  /** The name after the first colon, if there is one. */
  function MatchName(name: string): string {
    AfterColon(name, name)
  }

  function AfterColon(s: string, whole: string): string {
    if s == "" then whole else if s[0] == ':' then s[1..] else AfterColon(s[1..], whole)
  }

  predicate StartsWithCi(s: string, prefix: string) {
    LowerAll(prefix) <= LowerAll(s)
  }

  predicate ContainsCi(s: string, needle: string) {
    StartsWithCi(s, needle) || (s != "" && ContainsCi(s[1..], needle))
  }

  predicate Allowed(p: Policy, name: string) { LowerAll(MatchName(name)) in p.elements }

  predicate LinkOk(value: string, fragmentOnly: bool) {
    && value != ""
    && !StartsWithCi(value, "javascript:") && !StartsWithCi(value, "data:")
    && (value[0] == '#' || (!fragmentOnly && (StartsWithCi(value, "http://") || StartsWithCi(value, "https://"))))
  }

  predicate StyleOk(value: string) {
    && !ContainsCi(value, "expression(") && !ContainsCi(value, "javascript:") && !ContainsCi(value, "@import")
    && !ContainsCi(value, "behavior:") && !ContainsCi(value, "behaviour:")
  }

  /** Whether attribute `a` of an element `name` survives. */
  predicate KeepAttr(p: Policy, name: string, a: Attr) {
    var lower := LowerAll(a.name);
    && |a.name| < 128
    && !("on" <= lower)
    && lower in p.attributes
    && (lower == "href" || lower == "xlink:href" ==> LinkOk(a.value, LowerAll(name) in p.fragmentOnly))
    && (lower == "style" ==> StyleOk(a.value))
  }

  function FilterAttrs(p: Policy, name: string, atts: seq<Attr>): seq<Attr> {
    if atts == [] then []
    else
      (if KeepAttr(p, name, atts[0]) then [Attr(LowerAll(atts[0].name), atts[0].value)] else [])
      + FilterAttrs(p, name, atts[1..])
  }

  function Filter(p: Policy, f: Forest): Forest {
    match f
    case Nil => Nil
    case Text(s, rest) => Text(s, Filter(p, rest))
    case Elem(name, atts, kids, rest) =>
      if Allowed(p, name)
      then Elem(MatchName(name), FilterAttrs(p, MatchName(name), atts), Filter(p, kids), Filter(p, rest))
      else Filter(p, rest)
  }

  // ---------------------------------------------------------------------------
  // Printing

  function EscapeChar(c: char, quotes: bool): string {
    if c == '&' then "&amp;"
    else if c == '<' then "&lt;"
    else if c == '>' then "&gt;"
    else if quotes && c == '\"' then "&quot;"
    else if quotes && c == '\'' then "&#39;"
    else [c]
  }

  function Escape(s: string, quotes: bool): string {
    if s == "" then "" else EscapeChar(s[0], quotes) + Escape(s[1..], quotes)
  }

  function PrintAttrs(atts: seq<Attr>): string {
    if atts == [] then ""
    else " " + atts[0].name + "=\"" + Escape(atts[0].value, true) + "\"" + PrintAttrs(atts[1..])
  }

  function OpenTag(name: string, atts: seq<Attr>): string { "<" + name + PrintAttrs(atts) + ">" }

  function CloseTag(name: string): string { "</" + name + ">" }

  function Print(f: Forest): string {
    match f
    case Nil => ""
    case Text(s, rest) => Escape(s, false) + Print(rest)
    case Elem(name, atts, kids, rest) => OpenTag(name, atts) + Print(kids) + CloseTag(name) + Print(rest)
  }

  // ---------------------------------------------------------------------------
  // How the input text is cut does not matter

  lemma {:induction false} EscapeConcat(a: string, b: string, quotes: bool)
    ensures Escape(a + b, quotes) == Escape(a, quotes) + Escape(b, quotes)
  {
    hide EscapeChar;
    if a == "" {
      assert a + b == b;
    } else {
      EscapeConcat(a[1..], b, quotes);
      assert (a + b)[1..] == a[1..] + b;
    }
  }

  function Size(f: Forest): nat {
    match f
    case Nil => 0
    case Text(_, rest) => 1 + Size(rest)
    case Elem(_, _, kids, rest) => 1 + Size(kids) + Size(rest)
  }

  /** Adjacent runs of text joined, empty runs dropped. */
  function Joined(f: Forest): Forest
    decreases Size(f)
  {
    match f
    case Nil => Nil
    case Elem(name, atts, kids, rest) => Elem(name, atts, Joined(kids), Joined(rest))
    case Text(a, rest) =>
      if rest.Text? then
        assert Size(rest) == 1 + Size(rest.rest);
        Joined(Text(a + rest.text, rest.rest))
      else if a == "" then Joined(rest)
      else Text(a, Joined(rest))
  }

  lemma {:induction false} JoiningChangesNothing(p: Policy, f: Forest)
    ensures Print(Filter(p, Joined(f))) == Print(Filter(p, f))
    decreases Size(f)
  {
    hide OpenTag, CloseTag, FilterAttrs, MatchName, Allowed;
    match f
    case Nil =>
    case Elem(name, atts, kids, rest) =>
      JoiningChangesNothing(p, kids);
      JoiningChangesNothing(p, rest);
    case Text(a, rest) =>
      if rest.Text? {
        assert Size(rest) == 1 + Size(rest.rest);
        JoiningChangesNothing(p, Text(a + rest.text, rest.rest));
        JoinTwo(p, a, rest.text, rest.rest);
      } else {
        JoiningChangesNothing(p, rest);
      }
  }

  lemma JoinTwo(p: Policy, a: string, b: string, rest: Forest)
    ensures Print(Filter(p, Text(a + b, rest))) == Print(Filter(p, Text(a, Text(b, rest))))
  {
    hide Escape;
    EscapeConcat(a, b, false);
    var x, y, out := Escape(a, false), Escape(b, false), Print(Filter(p, rest));
    assert (x + y) + out == x + (y + out);
    assert Filter(p, Text(b, rest)) == Text(b, Filter(p, rest));
  }

  /** Two documents that differ only in where their text is cut are filtered to the same output. */
  lemma CutsDoNotMatter(p: Policy, f: Forest, g: Forest)
    requires Joined(f) == Joined(g)
    ensures Print(Filter(p, f)) == Print(Filter(p, g))
  {
    JoiningChangesNothing(p, f);
    JoiningChangesNothing(p, g);
  }

  // ---------------------------------------------------------------------------
  // Filtering is idempotent

  /** Characters that can neither end a tag nor a name in it. */
  predicate PlainChar(c: char) {
    c != '<' && c != '>' && c != '/' && c != ' ' && c != '&' && c != '\"'
  }

  predicate Plain(s: string) {
    forall i :: 0 <= i < |s| ==> PlainChar(s[i])
  }

  /** An attribute name that ends neither itself nor the tag it stands in. */
  ghost predicate Inert(s: string) {
    '>' !in s && '=' !in s
  }

  /** An element name without a prefix. */
  ghost predicate Bare(s: string) {
    s != "" && forall i :: 0 <= i < |s| ==> PlainChar(s[i]) && s[i] != ':'
  }

  ghost predicate Sane(p: Policy) {
    && (forall s :: s in p.elements ==> Bare(s))
    && (forall s :: s in p.attributes ==> Inert(s))
  }

  lemma {:induction false} AfterColonNone(s: string, whole: string)
    requires ':' !in s
    ensures AfterColon(s, whole) == whole
  {
    if s != "" {
      AfterColonNone(s[1..], whole);
    }
  }

  /** An allowed name has nothing left to strip. */
  lemma AllowedNameIsBare(p: Policy, name: string)
    requires Sane(p) && LowerAll(name) in p.elements
    ensures MatchName(name) == name && Plain(name) && name != ""
  {
    var lower := LowerAll(name);
    forall i | 0 <= i < |name| ensures name[i] != ':' && PlainChar(name[i]) {
      assert lower[i] == Lower(name[i]) && PlainChar(lower[i]) && lower[i] != ':';
    }
    AfterColonNone(name, name);
  }

  lemma {:induction false} FilterAttrsTwice(p: Policy, name: string, atts: seq<Attr>)
    ensures FilterAttrs(p, name, FilterAttrs(p, name, atts)) == FilterAttrs(p, name, atts)
  {
    if atts != [] {
      var once, rest := FilterAttrs(p, name, atts), FilterAttrs(p, name, atts[1..]);
      FilterAttrsTwice(p, name, atts[1..]);
      if KeepAttr(p, name, atts[0]) {
        LowerTwice(atts[0].name);
        assert KeepAttr(p, name, once[0]) && once[1..] == rest;
      } else {
        assert once == rest;
      }
    }
  }

  lemma {:induction false} FilterTwice(p: Policy, f: Forest)
    requires Sane(p)
    ensures Filter(p, Filter(p, f)) == Filter(p, f)
  {
    match f
    case Nil =>
    case Text(s, rest) => FilterTwice(p, rest);
    case Elem(name, atts, kids, rest) =>
      FilterTwice(p, kids);
      FilterTwice(p, rest);
      if Allowed(p, name) {
        AllowedNameIsBare(p, MatchName(name));
        FilterAttrsTwice(p, MatchName(name), atts);
      }
  }

  // ---------------------------------------------------------------------------
  // Escaping is undone by entity decoding

  function Entity(s: string): (r: (char, nat))
    requires s != ""
    ensures 1 <= r.1 <= |s|
  {
    if "&amp;" <= s then ('&', 5)
    else if "&lt;" <= s then ('<', 4)
    else if "&gt;" <= s then ('>', 4)
    else if "&quot;" <= s then ('\"', 6)
    else if "&#39;" <= s then ('\'', 5)
    else (s[0], 1)
  }

  function Decode(s: string): string {
    if s == "" then "" else [Entity(s).0] + Decode(s[Entity(s).1..])
  }

  lemma EntityOfEscape(c: char, quotes: bool, rest: string)
    ensures EscapeChar(c, quotes) + rest != ""
    ensures Entity(EscapeChar(c, quotes) + rest) == (c, |EscapeChar(c, quotes)|)
  {
    var e := EscapeChar(c, quotes);
    var s := e + rest;
    assert e <= s && s[0] == e[0];
    if c == '&' || c == '<' || c == '>' || (quotes && (c == '\"' || c == '\'')) {
      assert s[1] == e[1] && s[..|e|] == e;
      assert "&amp;" <= s ==> s[1] == 'a';
      assert "&lt;" <= s ==> s[1] == 'l';
      assert "&gt;" <= s ==> s[1] == 'g';
      assert "&quot;" <= s ==> s[1] == 'q';
    } else {
      assert s[0] != '&';
    }
  }

  lemma {:induction false} DecodeUndoesEscape(s: string, quotes: bool)
    ensures Decode(Escape(s, quotes)) == s
  {
    if s != "" {
      var e, rest := EscapeChar(s[0], quotes), Escape(s[1..], quotes);
      EntityOfEscape(s[0], quotes, rest);
      assert Escape(s, quotes) == e + rest && (e + rest)[|e|..] == rest;
      DecodeUndoesEscape(s[1..], quotes);
      assert s == [s[0]] + s[1..];
    }
  }

  // ---------------------------------------------------------------------------
  // The output's tags balance, whatever the texts and values contain

  function Until(s: string, stop: char): (n: nat)
    ensures n <= |s| && (n < |s| ==> s[n] == stop) && forall i :: 0 <= i < n ==> s[i] != stop
  {
    if s == "" || s[0] == stop then 0 else 1 + Until(s[1..], stop)
  }

  /** Reads tags off `s`, pushing and popping names; None at the first tag that does not fit. */
  function Scan(open: seq<string>, s: string): Option<seq<string>>
    decreases |s|
  {
    if s == "" then Some(open)
    else if s[0] != '<' then Scan(open, s[1..])
    else
      var n := Until(s, '>');
      if n == |s| then None
      else if s[1] == '/' then
        (if open != [] && open[0] == s[2..n] then Scan(open[1..], s[n + 1..]) else None)
      else Scan([TagName(s[1..n])] + open, s[n + 1..])
  }

  function TagName(tag: string): string { tag[..Until(tag, ' ')] }

  lemma {:induction false} UntilSkips(a: string, b: string, stop: char)
    requires stop !in a
    ensures Until(a + b, stop) == |a| + Until(b, stop)
  {
    if a == "" {
      assert a + b == b;
    } else {
      UntilSkips(a[1..], b, stop);
      assert (a + b)[1..] == a[1..] + b;
    }
  }

  lemma {:induction false} EscapedIsInert(s: string, quotes: bool)
    ensures '<' !in Escape(s, quotes) && '>' !in Escape(s, quotes)
  {
    if s != "" {
      EscapedIsInert(s[1..], quotes);
      assert '<' !in EscapeChar(s[0], quotes) && '>' !in EscapeChar(s[0], quotes);
    }
  }

  lemma {:induction false} InertTextScans(open: seq<string>, a: string, b: string)
    requires '<' !in a
    ensures Scan(open, a + b) == Scan(open, b)
  {
    if a == "" {
      assert a + b == b;
    } else {
      InertTextScans(open, a[1..], b);
      assert (a + b)[1..] == a[1..] + b;
    }
  }

  ghost predicate InertAttrs(atts: seq<Attr>) {
    forall i :: 0 <= i < |atts| ==> Inert(atts[i].name)
  }

  lemma {:induction false} AttrsAreInert(atts: seq<Attr>)
    requires InertAttrs(atts)
    ensures '>' !in PrintAttrs(atts)
    ensures PrintAttrs(atts) == "" || PrintAttrs(atts)[0] == ' '
  {
    if atts != [] {
      EscapedIsInert(atts[0].value, true);
      AttrsAreInert(atts[1..]);
    }
  }

  /** A tag without '>' inside it is read in one piece. */
  lemma TagScans(open: seq<string>, tag: string, b: string)
    requires tag != "" && '>' !in tag && tag[0] != '/'
    ensures Scan(open, "<" + tag + ">" + b) == Scan([TagName(tag)] + open, b)
  {
    hide TagName;
    var s := "<" + tag + ">" + b;
    assert s == ("<" + tag) + (">" + b);
    UntilSkips("<" + tag, ">" + b, '>');
    assert s[1..|tag| + 1] == tag && s[|tag| + 2..] == b && s[1] == tag[0];
  }

  lemma OpenTagScans(open: seq<string>, name: string, atts: seq<Attr>, b: string)
    requires Plain(name) && name != "" && InertAttrs(atts)
    ensures Scan(open, OpenTag(name, atts) + b) == Scan([name] + open, b)
  {
    hide Scan, PrintAttrs, InertAttrs;
    AttrsAreInert(atts);
    var tail := PrintAttrs(atts);
    var tag := name + tail;
    assert OpenTag(name, atts) + b == "<" + tag + ">" + b;
    assert '>' !in name && ' ' !in name && name[0] != '/' && tag[0] == name[0];
    TagScans(open, tag, b);
    UntilSkips(name, tail, ' ');
    assert TagName(tag) == name;
  }

  lemma CloseTagScans(open: seq<string>, name: string, b: string)
    requires Plain(name)
    ensures Scan([name] + open, CloseTag(name) + b) == Scan(open, b)
  {
    var s := CloseTag(name) + b;
    assert s == ("</" + name) + (">" + b);
    assert '>' !in "</" + name;
    UntilSkips("</" + name, ">" + b, '>');
    assert s[2..|name| + 2] == name && s[|name| + 3..] == b;
    assert ([name] + open)[1..] == open;
  }

  lemma {:induction false} FilteredAttrsInert(p: Policy, name: string, atts: seq<Attr>)
    requires Sane(p)
    ensures InertAttrs(FilterAttrs(p, name, atts))
  {
    if atts != [] {
      FilteredAttrsInert(p, name, atts[1..]);
    }
  }

  /** Every tag the filter prints is closed in order and no text or value can open or close one. */
  lemma {:induction false} TagsBalance(p: Policy, f: Forest, open: seq<string>, b: string)
    requires Sane(p)
    ensures Scan(open, Print(Filter(p, f)) + b) == Scan(open, b)
  {
    hide Scan, OpenTag, CloseTag, KeepAttr, Escape;
    var out := Print(Filter(p, f));
    match f
    case Nil => assert out + b == b;
    case Text(s, rest) =>
      var text, after := Escape(s, false), Print(Filter(p, rest)) + b;
      assert out + b == text + after;
      hide Print, Filter;
      EscapedIsInert(s, false);
      InertTextScans(open, text, after);
      TagsBalance(p, rest, open, b);
    case Elem(name, atts, kids, rest) =>
      TagsBalance(p, rest, open, b);
      if Allowed(p, name) {
        var n, kept := MatchName(name), FilterAttrs(p, MatchName(name), atts);
        var inner, after := Print(Filter(p, kids)), Print(Filter(p, rest)) + b;
        assert out + b == OpenTag(n, kept) + (inner + (CloseTag(n) + after));
        AllowedNameIsBare(p, n);
        FilteredAttrsInert(p, n, atts);
        hide Print, Filter, FilterAttrs, Plain, InertAttrs, MatchName;
        OpenTagScans(open, n, kept, inner + (CloseTag(n) + after));
        TagsBalance(p, kids, [n] + open, CloseTag(n) + after);
        CloseTagScans(open, n, after);
      }
  }

  lemma OutputIsBalanced(p: Policy, f: Forest)
    requires Sane(p)
    ensures Scan([], Print(Filter(p, f))) == Some([])
  {
    TagsBalance(p, f, [], "");
    assert Print(Filter(p, f)) + "" == Print(Filter(p, f));
  }
}

// Reading the SVG filter's output back as an XML parser does.
//
// The reader knows elements, attributes in double quotes, text and the entities of escaping, which is
// all that the filter writes.  It comes in two kinds: one takes every character as it is, the other
// treats line ends and white space in values as XML 1.0 does.  What is read back is the filtered tree
// with its neighbouring texts joined; and the output is sanitized to the same text again exactly when
// that treatment leaves the tree as it is.
module SvgReader {
  import opened Bytes
  import opened SvgFilter
  import opened SvgHandlers
  import opened SvgSanitizer

  // ---------------------------------------------------------------------------
  // A reader for what the filter writes: elements, attributes in double quotes, text and entities

  /** Character for character, or with line ends and white space as sections 2.11 and 3.3.3 of
      XML 1.0 have them. */
  datatype Mode = Verbatim | Xml

  /** Carriage returns, with a line feed behind them or without, become line feeds. */
  function LineEnds(s: string): string {
    if s == "" then ""
    else if s[0] == '\r' then "\n" + LineEnds(if |s| > 1 && s[1] == '\n' then s[2..] else s[1..])
    else [s[0]] + LineEnds(s[1..])
  }

  predicate IsWhite(c: char) {
    c == '\t' || c == '\n' || c == '\r'
  }

  function Spaces(s: string): string {
    if s == "" then "" else [if IsWhite(s[0]) then ' ' else s[0]] + Spaces(s[1..])
  }

  function TextAs(mode: Mode, s: string): string {
    if mode.Xml? then LineEnds(s) else s
  }

  function ValueAs(mode: Mode, s: string): string {
    if mode.Xml? then Spaces(LineEnds(s)) else s
  }

  function ReadAttrs(mode: Mode, s: string): Option<seq<Attr>> {
    if s == "" then Some([])
    else
      var e := Until(s, '=');
      if s[0] != ' ' || e == 0 || e + 1 >= |s| || s[e + 1] != '\"' then None
      else
        var v := s[e + 2..];
        var q := Until(v, '\"');
        if q == |v| then None
        else
          WithAttr(mode, Attr(s[1..e], Decode(ValueAs(mode, v[..q]))), ReadAttrs(mode, v[q + 1..]))
  }

  /** An XML parser refuses a tag with two attributes of one name. */
  function WithAttr(mode: Mode, a: Attr, behind: Option<seq<Attr>>): Option<seq<Attr>> {
    if behind.None? || (mode.Xml? && HasName(behind.value, a.name)) then None else Some([a] + behind.value)
  }

  predicate HasName(atts: seq<Attr>, name: string) {
    atts != [] && (atts[0].name == name || HasName(atts[1..], name))
  }

  /** What is read up to the closing tag of the element around it, and what follows. */
  function Read(mode: Mode, s: string): (r: Option<(Forest, string)>)
    ensures r.Some? ==> |r.value.1| <= |s|
    decreases |s|
  {
    if s == "" || "</" <= s then Some((Nil, s))
    else if s[0] != '<' then
      var n := Until(s, '<');
      WithText(Decode(TextAs(mode, s[..n])), Read(mode, s[n..]))
    else
      var n := Until(s, '>');
      if n == |s| then None
      else
        var tag := s[1..n];
        var k := Until(tag, ' ');
        var (atts, kids) := (ReadAttrs(mode, tag[k..]), Read(mode, s[n + 1..]));
        if atts.None? || kids.None? then None
        else
          var close := kids.value.1;
          var m := Until(close, '>');
          if m == |close| || close[..m] != "</" + tag[..k] then None
          else WithElement(tag[..k], atts.value, kids.value.0, Read(mode, close[m + 1..]))
  }

  function WithText(text: string, behind: Option<(Forest, string)>): Option<(Forest, string)> {
    if behind.None? then None else Some((Text(text, behind.value.0), behind.value.1))
  }

  function WithElement(name: string, atts: seq<Attr>, kids: Forest, behind: Option<(Forest, string)>): Option<(Forest, string)> {
    if behind.None? then None else Some((Elem(name, atts, kids, behind.value.0), behind.value.1))
  }

  // ---------------------------------------------------------------------------
  // White space and escaping do not meet

  lemma {:induction false} LineEndsBehind(a: string, b: string)
    requires '\r' !in a
    ensures LineEnds(a + b) == a + LineEnds(b)
  {
    if a == "" {
      assert a + b == b;
    } else {
      assert (a + b)[1..] == a[1..] + b;
      LineEndsBehind(a[1..], b);
      assert a == [a[0]] + a[1..];
      Associates([a[0]], a[1..], LineEnds(b));
    }
  }

  lemma {:induction false} LineEndsEscaped(s: string, quotes: bool)
    ensures LineEnds(Escape(s, quotes)) == Escape(LineEnds(s), quotes)
    decreases |s|
  {
    if s != "" {
      hide Escape, LineEnds;
      var rest := s[1..];
      assert s == [s[0]] + rest;
      if s[0] != '\r' {
        LineEndsEscaped(rest, quotes);
        OtherEscaped(s[0], rest, quotes);
      } else {
        var after := if rest != "" && rest[0] == '\n' then rest[1..] else rest;
        LineEndsEscaped(after, quotes);
        ReturnEscaped(rest, quotes);
        ReturnThen(rest);
        EscapeFirst('\n', LineEnds(after), quotes);
      }
    } else {
      assert Escape("", quotes) == "" && LineEnds("") == "";
    }
  }

  lemma OtherEscaped(c: char, rest: string, quotes: bool)
    requires c != '\r' && LineEnds(Escape(rest, quotes)) == Escape(LineEnds(rest), quotes)
    ensures LineEnds(Escape([c] + rest, quotes)) == Escape(LineEnds([c] + rest), quotes)
  {
    hide EscapeChar, Escape, LineEnds;
    EscapeHasNoReturn(c, quotes);
    EscapeFirst(c, rest, quotes);
    LineEndsBehind(EscapeChar(c, quotes), Escape(rest, quotes));
    LineEndsBehind([c], rest);
    EscapeFirst(c, LineEnds(rest), quotes);
  }

  lemma EscapeFirst(c: char, rest: string, quotes: bool)
    ensures Escape([c] + rest, quotes) == EscapeChar(c, quotes) + Escape(rest, quotes)
  {
    assert ([c] + rest)[1..] == rest;
  }

  lemma EscapeHasNoReturn(c: char, quotes: bool)
    requires c != '\r'
    ensures '\r' !in EscapeChar(c, quotes) && EscapeChar(c, quotes) != ""
  {
  }

  lemma ReturnThen(e: string)
    ensures LineEnds(['\r'] + e) == "\n" + LineEnds(if e != "" && e[0] == '\n' then e[1..] else e)
  {
    var s := ['\r'] + e;
    assert s[1..] == e;
    assert e != "" ==> s[2..] == e[1..];
  }

  lemma EscapeStart(rest: string, quotes: bool)
    requires rest != ""
    ensures Escape(rest, quotes) != "" && (Escape(rest, quotes)[0] == '\n' <==> rest[0] == '\n')
    ensures rest[0] == '\n' ==> Escape(rest, quotes)[1..] == Escape(rest[1..], quotes)
  {
    var (f, more) := (EscapeChar(rest[0], quotes), Escape(rest[1..], quotes));
    assert Escape(rest, quotes) == f + more && f != "" && (f + more)[0] == f[0];
    assert rest[0] == '\n' ==> f == "\n" && (f + more)[1..] == more;
  }

  /** A carriage return and what is escaped behind it. */
  lemma ReturnEscaped(rest: string, quotes: bool)
    ensures LineEnds(Escape(['\r'] + rest, quotes)) ==
              "\n" + LineEnds(Escape(if rest != "" && rest[0] == '\n' then rest[1..] else rest, quotes))
  {
    hide LineEnds;
    EscapeFirst('\r', rest, quotes);
    ReturnThen(Escape(rest, quotes));
    if rest != "" {
      hide Escape;
      EscapeStart(rest, quotes);
    }
  }

  lemma {:induction false} SpacesBehind(a: string, b: string)
    requires forall i :: 0 <= i < |a| ==> !IsWhite(a[i])
    ensures Spaces(a + b) == a + Spaces(b)
  {
    if a == "" {
      assert a + b == b;
    } else {
      assert (a + b)[1..] == a[1..] + b;
      SpacesBehind(a[1..], b);
      assert a == [a[0]] + a[1..];
      Associates([a[0]], a[1..], Spaces(b));
    }
  }

  lemma {:induction false} SpacesEscaped(s: string, quotes: bool)
    ensures Spaces(Escape(s, quotes)) == Escape(Spaces(s), quotes)
  {
    if s != "" {
      hide Escape, Spaces;
      SpacesEscaped(s[1..], quotes);
      assert s == [s[0]] + s[1..];
      if IsWhite(s[0]) {
        WhiteEscaped(s[0], s[1..], quotes);
      } else {
        NonWhiteEscaped(s[0], s[1..], quotes);
      }
    } else {
      assert Escape("", quotes) == "" && Spaces("") == "";
    }
  }

  lemma SpaceFor(c: char, rest: string)
    ensures Spaces([c] + rest) == [if IsWhite(c) then ' ' else c] + Spaces(rest)
  {
    assert ([c] + rest)[1..] == rest;
  }

  lemma WhiteEscaped(c: char, rest: string, quotes: bool)
    requires IsWhite(c) && Spaces(Escape(rest, quotes)) == Escape(Spaces(rest), quotes)
    ensures Spaces(Escape([c] + rest, quotes)) == Escape(Spaces([c] + rest), quotes)
  {
    hide Escape, Spaces;
    EscapeFirst(c, rest, quotes);
    SpaceFor(c, Escape(rest, quotes));
    SpaceFor(c, rest);
    EscapeFirst(' ', Spaces(rest), quotes);
  }

  lemma NonWhiteEscaped(c: char, rest: string, quotes: bool)
    requires !IsWhite(c) && Spaces(Escape(rest, quotes)) == Escape(Spaces(rest), quotes)
    ensures Spaces(Escape([c] + rest, quotes)) == Escape(Spaces([c] + rest), quotes)
  {
    hide EscapeChar, Escape, Spaces;
    EscapeHasNoWhite(c, quotes);
    EscapeFirst(c, rest, quotes);
    SpacesBehind(EscapeChar(c, quotes), Escape(rest, quotes));
    SpaceFor(c, rest);
    EscapeFirst(c, Spaces(rest), quotes);
  }

  lemma EscapeHasNoWhite(c: char, quotes: bool)
    requires !IsWhite(c)
    ensures forall i :: 0 <= i < |EscapeChar(c, quotes)| ==> !IsWhite(EscapeChar(c, quotes)[i])
  {
  }

  lemma ValueReadBack(mode: Mode, v: string)
    ensures Decode(ValueAs(mode, Escape(v, true))) == ValueAs(mode, v)
  {
    hide Escape, Decode, Spaces, LineEnds;
    LineEndsEscaped(v, true);
    SpacesEscaped(LineEnds(v), true);
    DecodeUndoesEscape(ValueAs(mode, v), true);
  }

  lemma TextDecoded(mode: Mode, t: string)
    ensures Decode(TextAs(mode, Escape(t, false))) == TextAs(mode, t)
  {
    hide Escape, Decode, LineEnds;
    LineEndsEscaped(t, false);
    DecodeUndoesEscape(TextAs(mode, t), false);
  }

  function AttrsAs(mode: Mode, atts: seq<Attr>): seq<Attr> {
    if atts == [] then [] else [Attr(atts[0].name, ValueAs(mode, atts[0].value))] + AttrsAs(mode, atts[1..])
  }

  /** The tree with its texts and values as the reader has them. */
  function TreeAs(mode: Mode, f: Forest): Forest {
    match f
    case Nil => Nil
    case Text(s, rest) => Text(TextAs(mode, s), TreeAs(mode, rest))
    case Elem(name, atts, kids, rest) => Elem(name, AttrsAs(mode, atts), TreeAs(mode, kids), TreeAs(mode, rest))
  }

  // ---------------------------------------------------------------------------
  // Repeated names

  predicate UniqueNames(atts: seq<Attr>) {
    atts == [] || (!HasName(atts[1..], atts[0].name) && UniqueNames(atts[1..]))
  }

  /** No element has two attributes of one name. */
  predicate Unique(f: Forest) {
    match f
    case Nil => true
    case Text(_, rest) => Unique(rest)
    case Elem(_, atts, kids, rest) => UniqueNames(atts) && Unique(kids) && Unique(rest)
  }

  predicate Taken(mode: Mode, f: Forest) {
    mode.Verbatim? || Unique(f)
  }

  lemma {:induction false} AttrsAsKeepNames(mode: Mode, atts: seq<Attr>, name: string)
    ensures HasName(AttrsAs(mode, atts), name) <==> HasName(atts, name)
  {
    if atts != [] {
      hide ValueAs;
      AttrsAsKeepNames(mode, atts[1..], name);
      assert AttrsAs(mode, atts)[1..] == AttrsAs(mode, atts[1..]);
    }
  }

  lemma {:induction false} JoinedUnique(f: Forest)
    ensures Unique(Joined(f)) <==> Unique(f)
    decreases Size(f)
  {
    hide UniqueNames;
    match f
    case Nil =>
    case Elem(_, _, kids, rest) =>
      JoinedUnique(kids);
      JoinedUnique(rest);
    case Text(a, rest) =>
      if rest.Text? {
        assert Size(rest) == 1 + Size(rest.rest);
        JoinedUnique(Text(a + rest.text, rest.rest));
      } else {
        JoinedUnique(rest);
      }
  }

  // ---------------------------------------------------------------------------
  // Trees that can be read back

  ghost predicate ReadableAttrs(atts: seq<Attr>) {
    forall i :: 0 <= i < |atts| ==> Inert(atts[i].name)
  }

  /** Names that end neither themselves nor the tag, and text joined as a parser joins it. */
  ghost predicate Readable(f: Forest) {
    match f
    case Nil => true
    case Text(s, rest) => s != "" && !rest.Text? && Readable(rest)
    case Elem(name, atts, kids, rest) => Bare(name) && ReadableAttrs(atts) && Readable(kids) && Readable(rest)
  }

  lemma {:induction false} ValueHasNoQuote(s: string)
    ensures '\"' !in Escape(s, true) && '\'' !in Escape(s, true)
  {
    if s != "" {
      ValueHasNoQuote(s[1..]);
      assert '\"' !in EscapeChar(s[0], true) && '\'' !in EscapeChar(s[0], true);
    }
  }

  lemma CutAt(a: string, b: string, stop: char)
    requires stop !in a && b != "" && b[0] == stop
    ensures Until(a + b, stop) == |a| && (a + b)[..|a|] == a && (a + b)[|a|..] == b
  {
    UntilSkips(a, b, stop);
  }

  /** An attribute, cut at its "=" and at its closing quote. */
  lemma AttrCut(name: string, text: string, rest: string)
    requires '=' !in name && '\"' !in text
    ensures var s := (" " + name) + ("=\"" + (text + ("\"" + rest)));
            var e := Until(s, '=');
            && 0 < e && e + 1 < |s| && s[0] == ' ' && s[1..e] == name && s[e + 1] == '\"'
            && var v := s[e + 2..];
            var q := Until(v, '\"');
            q < |v| && v[..q] == text && v[q + 1..] == rest
  {
    hide Until;
    var w := "\"" + rest;
    var v := text + w;
    NameCut(name, v);
    CutAt(text, w, '\"');
    Behind(text, w, 1);
    assert w[1..] == rest;
  }

  lemma NameCut(name: string, v: string)
    requires '=' !in name
    ensures var s := (" " + name) + ("=\"" + v);
            && |s| == 3 + |name| + |v| && Until(s, '=') == 1 + |name|
            && s[0] == ' ' && s[1..1 + |name|] == name && s[2 + |name|] == '\"' && s[3 + |name|..] == v
  {
    var (a, b) := (" " + name, "=\"" + v);
    CutAt(a, b, '=');
    Behind(a, b, 2);
    assert b[2..] == v && a[1..] == name;
  }

  lemma Behind(a: string, b: string, n: nat)
    requires n <= |b|
    ensures (a + b)[|a| + n..] == b[n..]
    ensures |a| > 0 ==> (a + b)[0] == a[0] && (a + b)[1..|a|] == a[1..]
    ensures n > 0 ==> (a + b)[|a| + n - 1] == b[n - 1]
  {
  }

  lemma AttrReadBack(mode: Mode, name: string, value: string, rest: string)
    requires Inert(name)
    ensures ReadAttrs(mode, (" " + name) + ("=\"" + (Escape(value, true) + ("\"" + rest)))) ==
              WithAttr(mode, Attr(name, ValueAs(mode, value)), ReadAttrs(mode, rest))
  {
    hide Escape, Decode, Until, ValueAs;
    ValueHasNoQuote(value);
    AttrCut(name, Escape(value, true), rest);
    ValueReadBack(mode, value);
  }

  lemma AttrPrinted(name: string, text: string, rest: string)
    ensures " " + name + "=\"" + text + "\"" + rest == (" " + name) + ("=\"" + (text + ("\"" + rest)))
  {
    Regroup(" " + name, "=\"", text, "\"", rest);
  }

  /** The attributes, unless a parser would refuse the tag. */
  function AttrsTaken(mode: Mode, atts: seq<Attr>): Option<seq<Attr>> {
    if mode.Verbatim? || UniqueNames(atts) then Some(AttrsAs(mode, atts)) else None
  }

  lemma AttrReadFirst(mode: Mode, atts: seq<Attr>)
    requires atts != [] && Inert(atts[0].name)
    ensures ReadAttrs(mode, PrintAttrs(atts)) ==
              WithAttr(mode, Attr(atts[0].name, ValueAs(mode, atts[0].value)), ReadAttrs(mode, PrintAttrs(atts[1..])))
  {
    hide ReadAttrs, Escape, Inert;
    FirstAttrPrinted(atts);
    hide PrintAttrs;
    AttrReadBack(mode, atts[0].name, atts[0].value, PrintAttrs(atts[1..]));
  }

  lemma {:induction false} AttrsReadBack(mode: Mode, atts: seq<Attr>)
    requires ReadableAttrs(atts)
    ensures ReadAttrs(mode, PrintAttrs(atts)) == AttrsTaken(mode, atts)
  {
    if atts != [] {
      hide ReadAttrs, PrintAttrs, Inert, ValueAs;
      AttrsReadBack(mode, atts[1..]);
      AttrReadFirst(mode, atts);
      AttrsAsKeepNames(mode, atts[1..], atts[0].name);
    }
  }

  lemma FirstAttrPrinted(atts: seq<Attr>)
    requires atts != []
    ensures PrintAttrs(atts) ==
              (" " + atts[0].name) + ("=\"" + (Escape(atts[0].value, true) + ("\"" + PrintAttrs(atts[1..]))))
  {
    hide Escape;
    AttrPrinted(atts[0].name, Escape(atts[0].value, true), PrintAttrs(atts[1..]));
  }

  /** Where an element's content may end. */
  predicate Closes(b: string) {
    b == "" || "</" <= b
  }

  lemma TextReadBack(mode: Mode, t: string, after: string)
    requires t != "" && (after == "" || after[0] == '<')
    ensures Read(mode, Escape(t, false) + after) == WithText(TextAs(mode, t), Read(mode, after))
  {
    hide Decode;
    hide Until, Escape, TextAs;
    var text := Escape(t, false);
    EscapedIsInert(t, false);
    EscapedIsSomething(t);
    TextDecoded(mode, t);
    if after == "" {
      UntilSkips(text, "", '<');
      assert Until("", '<') == 0;
      assert text + after == text && text[..|text|] == text && text[|text|..] == "";
    } else {
      CutAt(text, after, '<');
    }
    assert (text + after)[0] == text[0];
  }

  lemma EscapedIsSomething(t: string)
    requires t != ""
    ensures Escape(t, false) != "" && Escape(t, false)[0] != '<'
  {
    EscapedIsInert(t, false);
    assert EscapeChar(t[0], false) != "";
  }

  /** An opening tag with all its attributes. */
  lemma TagReadBack(mode: Mode, name: string, atts: seq<Attr>, after: string)
    requires Bare(name) && ReadableAttrs(atts)
    ensures var s := OpenTag(name, atts) + after;
            var n := Until(s, '>');
            && n < |s| && s[0] == '<' && !("</" <= s) && s[n + 1..] == after
            && var tag := s[1..n];
            tag[..Until(tag, ' ')] == name && ReadAttrs(mode, tag[Until(tag, ' ')..]) == AttrsTaken(mode, atts)
  {
    hide ReadAttrs, PrintAttrs, AttrsTaken, Until, Inert;
    var more := PrintAttrs(atts);
    AttrsReadBack(mode, atts);
    AttrsAreInert(atts);
    var tag := name + more;
    TagEnds(tag, after);
    assert "<" + name + more + ">" + after == ("<" + tag) + (">" + after) by {
      Associates("<", name, more);
      Associates("<" + tag, ">", after);
    }
    assert '>' !in name && ' ' !in name && name[0] != '/' && tag[0] == name[0];
    NameEnds(name, more);
  }

  lemma TagEnds(tag: string, after: string)
    requires '>' !in tag && tag != "" && tag[0] != '/'
    ensures var s := ("<" + tag) + (">" + after);
            && Until(s, '>') == 1 + |tag| && |s| == 2 + |tag| + |after| && s[0] == '<' && !("</" <= s)
            && s[1..1 + |tag|] == tag && s[2 + |tag|..] == after
  {
    CutAt("<" + tag, ">" + after, '>');
    Behind("<" + tag, ">" + after, 1);
    var s := ("<" + tag) + (">" + after);
    assert s[1] == tag[0];
  }

  lemma NameEnds(name: string, more: string)
    requires ' ' !in name && (more == "" || more[0] == ' ')
    ensures Until(name + more, ' ') == |name| && (name + more)[..|name|] == name && (name + more)[|name|..] == more
  {
    if more == "" {
      UntilSkips(name, more, ' ');
    } else {
      CutAt(name, more, ' ');
    }
  }

  lemma CloseReadBack(name: string, after: string)
    requires Bare(name)
    ensures var close := CloseTag(name) + after;
            var m := Until(close, '>');
            m < |close| && close[..m] == "</" + name && close[m + 1..] == after && "</" <= close
  {
    var close := CloseTag(name) + after;
    assert close == ("</" + name) + (">" + after);
    assert '>' !in "</" + name;
    UntilSkips("</" + name, ">" + after, '>');
    assert close[..2 + |name|] == "</" + name && close[3 + |name|..] == after;
  }

  lemma NothingToRead(mode: Mode, b: string)
    requires Closes(b)
    ensures Read(mode, b) == Some((Nil, b))
  {
  }

  lemma PrintedStart(f: Forest, b: string)
    requires !f.Text? && Closes(b)
    ensures Print(f) + b == "" || (Print(f) + b)[0] == '<'
  {
  }

  /** What reading should give for `f` with `b` behind it: nothing, if a parser would refuse a tag. */
  function Expected(mode: Mode, f: Forest, b: string): Option<(Forest, string)> {
    if Taken(mode, f) then Some((TreeAs(mode, f), b)) else None
  }

  lemma ElementReadBack(mode: Mode, f: Forest, inner: string, behind: string, b: string)
    requires f.Elem? && Bare(f.name) && ReadableAttrs(f.atts)
    requires Read(mode, inner + (CloseTag(f.name) + behind)) == Expected(mode, f.kids, CloseTag(f.name) + behind)
    requires Read(mode, behind) == Expected(mode, f.rest, b)
    ensures Read(mode, OpenTag(f.name, f.atts) + (inner + (CloseTag(f.name) + behind))) == Expected(mode, f, b)
  {
    hide OpenTag, CloseTag, ReadAttrs, Bare, ReadableAttrs, Until, AttrsAs, UniqueNames, Read;
    var after := inner + (CloseTag(f.name) + behind);
    CloseReadBack(f.name, behind);
    TagReadBack(mode, f.name, f.atts, after);
    TagIsRead(mode, OpenTag(f.name, f.atts) + after);
  }

  /** One tag of the reader. */
  lemma TagIsRead(mode: Mode, s: string)
    requires s != "" && s[0] == '<' && !("</" <= s) && Until(s, '>') < |s|
    ensures var n := Until(s, '>');
            var tag := s[1..n];
            var k := Until(tag, ' ');
            var (atts, kids) := (ReadAttrs(mode, tag[k..]), Read(mode, s[n + 1..]));
            Read(mode, s) ==
              if atts.None? || kids.None? then None
              else
                var close := kids.value.1;
                var m := Until(close, '>');
                if m == |close| || close[..m] != "</" + tag[..k] then None
                else WithElement(tag[..k], atts.value, kids.value.0, Read(mode, close[m + 1..]))
  {
    hide ReadAttrs, Until, Decode, TextAs, WithText, WithElement;
  }

  lemma TextPrinted(t: string, rest: Forest, b: string)
    ensures Print(Text(t, rest)) + b == Escape(t, false) + (Print(rest) + b)
  {
    hide Escape;
    Associates(Escape(t, false), Print(rest), b);
  }

  lemma ElementPrinted(f: Forest, b: string)
    requires f.Elem?
    ensures Print(f) + b == OpenTag(f.name, f.atts) + (Print(f.kids) + (CloseTag(f.name) + (Print(f.rest) + b)))
  {
    hide OpenTag, CloseTag;
    Regroup(OpenTag(f.name, f.atts), Print(f.kids), CloseTag(f.name), Print(f.rest), b);
  }

  lemma Regroup(v: string, w: string, x: string, y: string, z: string)
    ensures v + w + x + y + z == v + (w + (x + (y + z)))
  {
    Associates(v + w + x, y, z);
    Associates(v + w, x, y + z);
    Associates(v, w, x + (y + z));
  }

  /** What is printed of a readable tree is read back as that tree, white space aside. */
  lemma {:induction false} PrintedIsRead(mode: Mode, f: Forest, b: string)
    requires Readable(f) && Closes(b)
    ensures Read(mode, Print(f) + b) == Expected(mode, f, b)
  {
    match f
    case Nil =>
      assert Print(f) + b == b;
      NothingToRead(mode, b);
    case Text(t, rest) =>
      hide Read, Print;
      PrintedIsRead(mode, rest, b);
      PrintedStart(rest, b);
      TextReadBack(mode, t, Print(rest) + b);
      TextPrinted(t, rest, b);
    case Elem(name, atts, kids, rest) =>
      hide Read, OpenTag, CloseTag, Bare, ReadableAttrs, Print, Expected;
      var behind := Print(rest) + b;
      CloseReadBack(name, behind);
      PrintedIsRead(mode, rest, b);
      PrintedIsRead(mode, kids, CloseTag(name) + behind);
      ElementReadBack(mode, f, Print(kids), behind, b);
      ElementPrinted(f, b);
  }

  // ---------------------------------------------------------------------------
  // Filtered trees are of that kind once their text is joined

  lemma {:induction false} PrintJoined(f: Forest)
    ensures Print(Joined(f)) == Print(f)
    decreases Size(f)
  {
    hide OpenTag, CloseTag, Escape;
    match f
    case Nil =>
    case Elem(name, atts, kids, rest) =>
      PrintJoined(kids);
      PrintJoined(rest);
    case Text(a, rest) =>
      if rest.Text? {
        assert Size(rest) == 1 + Size(rest.rest);
        PrintJoined(Text(a + rest.text, rest.rest));
        EscapeConcat(a, rest.text, false);
        assert (Escape(a, false) + Escape(rest.text, false)) + Print(rest.rest)
            == Escape(a, false) + (Escape(rest.text, false) + Print(rest.rest));
      } else {
        PrintJoined(rest);
        NothingEscapes();
      }
  }

  lemma NothingEscapes()
    ensures Escape("", false) == ""
  {
  }

  ghost predicate WellNamed(f: Forest) {
    match f
    case Nil => true
    case Text(_, rest) => WellNamed(rest)
    case Elem(name, atts, kids, rest) => Bare(name) && ReadableAttrs(atts) && WellNamed(kids) && WellNamed(rest)
  }

  lemma {:induction false} JoinedIsReadable(f: Forest)
    requires WellNamed(f)
    ensures Readable(Joined(f)) && (!f.Text? ==> !Joined(f).Text?)
    decreases Size(f)
  {
    hide Bare, ReadableAttrs;
    match f
    case Nil =>
    case Elem(name, atts, kids, rest) =>
      JoinedIsReadable(kids);
      JoinedIsReadable(rest);
    case Text(a, rest) =>
      if rest.Text? {
        assert Size(rest) == 1 + Size(rest.rest);
        JoinedIsReadable(Text(a + rest.text, rest.rest));
      } else {
        JoinedIsReadable(rest);
      }
  }

  lemma AllowedNamesAreBare(p: Policy, name: string)
    requires Sane(p) && LowerAll(name) in p.elements
    ensures Bare(name)
  {
    var lower := LowerAll(name);
    assert Bare(lower);
    forall i | 0 <= i < |name| ensures PlainChar(name[i]) && name[i] != ':' {
      assert lower[i] == Lower(name[i]);
    }
  }

  lemma {:induction false} FilteredIsWellNamed(p: Policy, f: Forest)
    requires Sane(p)
    ensures WellNamed(Filter(p, f))
  {
    hide Bare, Sane, MatchName;
    match f
    case Nil =>
    case Text(_, rest) => FilteredIsWellNamed(p, rest);
    case Elem(name, atts, kids, rest) =>
      FilteredIsWellNamed(p, kids);
      FilteredIsWellNamed(p, rest);
      if Allowed(p, name) {
        AllowedNamesAreBare(p, MatchName(name));
        FilteredAttrsInert(p, MatchName(name), atts);
      }
  }

  // ---------------------------------------------------------------------------
  // White space that a parser leaves alone

  predicate SteadyAttrs(atts: seq<Attr>) {
    atts == [] || ((forall c <- atts[0].value :: !IsWhite(c)) && SteadyAttrs(atts[1..]))
  }

  /** No carriage return in a text; no tab, line feed or carriage return in a value. */
  predicate Steady(f: Forest) {
    match f
    case Nil => true
    case Text(s, rest) => '\r' !in s && Steady(rest)
    case Elem(_, atts, kids, rest) => SteadyAttrs(atts) && Steady(kids) && Steady(rest)
  }

  lemma {:induction false} LineEndsAre(s: string)
    ensures '\r' !in LineEnds(s) && ('\r' !in s ==> LineEnds(s) == s)
    decreases |s|
  {
    if s != "" {
      LineEndsAre(if s[0] == '\r' && |s| > 1 && s[1] == '\n' then s[2..] else s[1..]);
      assert s == [s[0]] + s[1..];
    }
  }

  lemma {:induction false} SpacesAre(s: string)
    ensures (forall c <- Spaces(s) :: !IsWhite(c)) && ((forall c <- s :: !IsWhite(c)) ==> Spaces(s) == s)
  {
    if s != "" {
      SpacesAre(s[1..]);
      assert s == [s[0]] + s[1..];
      assert s[0] in s && forall c <- s[1..] :: c in s;
    }
  }

  lemma {:induction false} AttrsAsAreSteady(atts: seq<Attr>)
    ensures SteadyAttrs(AttrsAs(Xml, atts)) && (SteadyAttrs(atts) ==> AttrsAs(Xml, atts) == atts)
  {
    if atts != [] {
      hide LineEnds, Spaces;
      AttrsAsAreSteady(atts[1..]);
      LineEndsAre(atts[0].value);
      SpacesAre(LineEnds(atts[0].value));
      assert AttrsAs(Xml, atts)[1..] == AttrsAs(Xml, atts[1..]);
      assert atts == [atts[0]] + atts[1..];
    }
  }

  lemma {:induction false} TreeAsIsSteady(f: Forest)
    ensures Steady(TreeAs(Xml, f)) && (Steady(f) ==> TreeAs(Xml, f) == f)
  {
    hide LineEnds, AttrsAs, SteadyAttrs;
    match f
    case Nil =>
    case Text(s, rest) =>
      LineEndsAre(s);
      TreeAsIsSteady(rest);
    case Elem(_, atts, kids, rest) =>
      AttrsAsAreSteady(atts);
      TreeAsIsSteady(kids);
      TreeAsIsSteady(rest);
  }

  lemma {:induction false} AttrsAsThemselves(atts: seq<Attr>)
    ensures AttrsAs(Verbatim, atts) == atts
  {
    if atts != [] {
      AttrsAsThemselves(atts[1..]);
      assert atts == [atts[0]] + atts[1..];
    }
  }

  lemma {:induction false} TreeAsItself(f: Forest)
    ensures TreeAs(Verbatim, f) == f
  {
    match f
    case Nil =>
    case Text(_, rest) => TreeAsItself(rest);
    case Elem(_, atts, kids, rest) =>
      AttrsAsThemselves(atts);
      TreeAsItself(kids);
      TreeAsItself(rest);
  }

  lemma {:induction false} FilteredAttrsSteady(p: Policy, name: string, atts: seq<Attr>)
    requires SteadyAttrs(atts)
    ensures SteadyAttrs(FilterAttrs(p, name, atts))
  {
    if atts != [] {
      hide KeepAttr;
      FilteredAttrsSteady(p, name, atts[1..]);
      var once := FilterAttrs(p, name, atts);
      if KeepAttr(p, name, atts[0]) {
        assert once[1..] == FilterAttrs(p, name, atts[1..]);
      } else {
        assert once == FilterAttrs(p, name, atts[1..]);
      }
    }
  }

  lemma {:induction false} FilteredSteady(p: Policy, f: Forest)
    requires Steady(f)
    ensures Steady(Filter(p, f))
  {
    hide SteadyAttrs, FilterAttrs, Allowed;
    match f
    case Nil =>
    case Text(_, rest) => FilteredSteady(p, rest);
    case Elem(name, atts, kids, rest) =>
      FilteredAttrsSteady(p, MatchName(name), atts);
      FilteredSteady(p, kids);
      FilteredSteady(p, rest);
  }

  lemma {:induction false} JoinedSteady(f: Forest)
    ensures Steady(Joined(f)) <==> Steady(f)
    decreases Size(f)
  {
    hide SteadyAttrs;
    match f
    case Nil =>
    case Elem(_, _, kids, rest) =>
      JoinedSteady(kids);
      JoinedSteady(rest);
    case Text(a, rest) =>
      if rest.Text? {
        assert Size(rest) == 1 + Size(rest.rest);
        JoinedSteady(Text(a + rest.text, rest.rest));
      } else {
        JoinedSteady(rest);
      }
  }

  // ---------------------------------------------------------------------------
  // The theorems

  /** The output of the filter is read back exactly when no element is left with two attributes of one
      name, and then as the filtered tree with its text joined, white space aside; a reader that does
      not mind the names always reads it. */
  lemma OutputIsRead(mode: Mode, p: Policy, f: Forest)
    requires Sane(p)
    ensures Read(mode, Print(Filter(p, f))) ==
              if mode.Verbatim? || Unique(Filter(p, f)) then Some((TreeAs(mode, Joined(Filter(p, f))), "")) else None
  {
    hide Read, Readable, WellNamed, Sane, Filter, Print, TreeAs;
    var g := Filter(p, f);
    FilteredIsWellNamed(p, f);
    JoinedIsReadable(g);
    PrintedIsRead(mode, Joined(g), "");
    PrintJoined(g);
    JoinedUnique(g);
    assert Print(g) + "" == Print(g);
  }

  /** The text is parsed as a document and sanitized, under the limit for its own length, to itself. */
  predicate SanitizedToItself(out: string) {
    var read := Read(Xml, out);
    && read.Some? && read.value.1 == "" && read.value.0.Elem? && read.value.0.rest.Nil?
    && DocumentVerdict(SvgPolicy(), read.value.0, MaxOutput(|out|)) == Modified(out)
  }

  /** A sanitized document is sanitized to the same text again exactly when no element is left with
      two attributes of one name, and its white space is such as a parser leaves alone. */
  lemma SanitizedTwice(root: Forest, inputLen: nat)
    requires root.Elem? && root.rest.Nil?
    ensures DocumentVerdict(SvgPolicy(), root, MaxOutput(inputLen)).Modified? ==>
      (SanitizedToItself(DocumentVerdict(SvgPolicy(), root, MaxOutput(inputLen)).output) <==>
         Unique(Filter(SvgPolicy(), root)) && Steady(Filter(SvgPolicy(), root)))
  {
    hide Sane, Read, Print, AllowedElements, AllowedAttributes, Steady, Unique;
    var p := SvgPolicy();
    SvgPolicyIsSane();
    OutputIsRead(Xml, p, root);
    var once := Filter(p, root);
    var again := TreeAs(Xml, Joined(once));
    if !DocumentVerdict(p, root, MaxOutput(inputLen)).Modified? {
      return;
    }
    assert once.rest == Filter(p, root.rest) && root.rest == Nil && Filter(p, Nil) == Nil;
    assert Joined(once).rest == Joined(Nil) == Nil;
    assert again.rest == TreeAs(Xml, Nil) == Nil;
    assert once.name == MatchName(root.name) && again.name == once.name && again.rest.Nil?;
    if Steady(once) {
      JoinedSteady(once);
      TreeAsIsSteady(Joined(once));
      FilterTwice(p, root);
      JoiningChangesNothing(p, once);
      AllowedNameIsBare(p, MatchName(root.name));
    }
    if Print(Filter(p, again)) == Print(once) {
      SameOutputIsSteady(p, root, again);
    }
  }

  /** Steady output could only have come from a steady tree. */
  lemma SameOutputIsSteady(p: Policy, root: Forest, again: Forest)
    requires Sane(p) && again == TreeAs(Xml, Joined(Filter(p, root)))
    requires Print(Filter(p, again)) == Print(Filter(p, root))
    ensures Steady(Filter(p, root))
  {
    hide Sane, Read, Print, Steady, Filter, Joined, TreeAs;
    TreeAsIsSteady(Joined(Filter(p, root)));
    FilteredSteady(p, again);
    JoinedSteady(Filter(p, again));
    OutputIsRead(Verbatim, p, root);
    OutputIsRead(Verbatim, p, again);
    TreeAsItself(Joined(Filter(p, root)));
    TreeAsItself(Joined(Filter(p, again)));
    JoinedSteady(Filter(p, root));
  }

  /** An svg element with the attributes X="1" and x="2", which are two names to a parser. */
  function TwoNames(): Forest {
    Elem("svg", [Attr("X", "1"), Attr("x", "2")], Nil, Nil)
  }

  function OneNameTwice(): Forest {
    Elem("svg", [Attr("x", "1"), Attr("x", "2")], Nil, Nil)
  }

  const TWICE: string := "<svg x=\"1\" x=\"2\"></svg>"

  lemma TwoNamesFiltered()
    ensures Filter(SvgPolicy(), TwoNames()) == OneNameTwice() && Unique(TwoNames()) && !Unique(OneNameTwice())
  {
    hide KeepAttr, AllowedElements, AllowedAttributes, Allowed, MatchName;
    NamesAreAllowed();
    var p := SvgPolicy();
    var (a, b, c) := (Attr("X", "1"), Attr("x", "2"), Attr("x", "1"));
    assert [a, b][1..] == [b] && [b][1..] == [] && [c, b][1..] == [b];
    assert FilterAttrs(p, "svg", [b]) == [b] + FilterAttrs(p, "svg", []);
    assert FilterAttrs(p, "svg", [a, b]) == [c] + FilterAttrs(p, "svg", [b]);
    assert HasName([b], "x") && !HasName([b], "X");
  }

  lemma OneNameTwicePrinted()
    ensures Print(OneNameTwice()) == TWICE
  {
    hide Escape;
    var (c, b) := (Attr("x", "1"), Attr("x", "2"));
    assert [c, b][1..] == [b] && [b][1..] == [];
    ShortValues();
    assert PrintAttrs([b]) == " x=\"2\"";
    assert PrintAttrs([c, b]) == " x=\"1\" x=\"2\"";
    assert OpenTag("svg", [c, b]) == "<svg x=\"1\" x=\"2\">";
    assert Print(Nil) == "";
  }

  /** It is sanitized, to an element with the name x twice, which no parser takes. */
  lemma RepeatedNameIsWritten()
    ensures Unique(TwoNames())
    ensures DocumentVerdict(SvgPolicy(), TwoNames(), MaxOutput(0)) == Modified(TWICE)
    ensures Read(Xml, TWICE).None?
  {
    hide Read, Print, Filter, AllowedElements, AllowedAttributes, Unique;
    SvgPolicyIsSane();
    NamesAreAllowed();
    TwoNamesFiltered();
    OneNameTwicePrinted();
    OutputIsRead(Xml, SvgPolicy(), TwoNames());
  }

  lemma ShortValues()
    ensures Escape("1", true) == "1" && Escape("2", true) == "2"
  {
    assert Escape(""[..], true) == "";
    assert "1"[1..] == "" && "2"[1..] == "";
  }

  lemma NamesAreAllowed()
    ensures Allowed(SvgPolicy(), "svg") && MatchName("svg") == "svg" && LowerAll("svg") == "svg"
    ensures KeepAttr(SvgPolicy(), "svg", Attr("X", "1")) && KeepAttr(SvgPolicy(), "svg", Attr("x", "2"))
    ensures LowerAll("X") == "x" && LowerAll("x") == "x"
  {
    AfterColonNone("svg", "svg");
    assert "svg" in SHAPES && "x" in DOCUMENT_ATTRIBUTES;
    assert LowerAll("X") == "x" && LowerAll("x") == "x" && LowerAll("svg") == "svg";
  }
}

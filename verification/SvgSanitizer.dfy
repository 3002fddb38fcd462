// sanitize_svg as it runs: the handlers' state as fields, the output in an array that is
// reallocated as it grows, and the lists of names it allows.
module SvgSanitizer {
  import opened Bytes
  import opened SvgFilter
  import opened SvgHandlers

  const INITIAL_CAPACITY: int := 4096
  const OUTPUT_MULTIPLIER: int := 4
  const OUTPUT_FLOOR: int := 1024 * 1024

  const SHAPES: set<string> := {
    "svg", "g", "path", "rect", "circle", "ellipse", "line",
    "polyline", "polygon", "text", "tspan", "image"}
  const GRADIENTS: set<string> := {"defs", "lineargradient", "radialgradient", "stop"}
  const OTHER_ELEMENTS: set<string> := {"clippath", "mask", "pattern", "use", "metadata", "title", "desc"}
  const DOCUMENT_ATTRIBUTES: set<string> := {
    "id", "class", "xmlns", "xmlns:xlink", "version",
    "x", "y", "width", "height", "viewbox", "preserveaspectratio"}
  const GEOMETRY_ATTRIBUTES: set<string> := {
    "d", "points", "x1", "y1", "x2", "y2", "rx", "ry", "cx", "cy", "r",
    "fx", "fy", "transform"}
  const PAINT_ATTRIBUTES: set<string> := {
    "fill", "fill-opacity", "fill-rule",
    "stroke", "stroke-opacity", "stroke-width", "stroke-linecap",
    "stroke-linejoin", "stroke-miterlimit"}
  const COLOUR_ATTRIBUTES: set<string> := {
    "stroke-dasharray", "stroke-dashoffset",
    "opacity", "color", "paint-order", "vector-effect",
    "stop-color", "stop-opacity"}
  const GRADIENT_ATTRIBUTES: set<string> := {"gradientunits", "gradienttransform", "spreadmethod"}
  const PATTERN_ATTRIBUTES: set<string> := {
    "patternunits", "patterntransform", "patterncontentunits",
    "maskunits", "maskcontentunits"}
  const CLIP_ATTRIBUTES: set<string> := {"clippathunits", "clip-rule", "clip-path", "mask"}
  const MARKER_ATTRIBUTES: set<string> := {
    "marker-start", "marker-mid", "marker-end",
    "markerunits", "markerwidth", "markerheight", "refx", "refy", "orient"}
  const FONT_ATTRIBUTES: set<string> := {
    "font-family", "font-size", "font-weight", "font-style", "font-variant",
    "text-anchor", "dominant-baseline", "alignment-baseline"}
  const TEXT_ATTRIBUTES: set<string> := {
    "text-decoration", "letter-spacing", "word-spacing",
    "dx", "dy", "rotate", "lengthadjust", "textlength"}
  const OTHER_ATTRIBUTES: set<string> := {
    "display", "visibility", "overflow", "pointer-events",
    "style", "href", "xlink:href"}

  function AllowedElements(): set<string> { SHAPES + GRADIENTS + OTHER_ELEMENTS }

  function AllowedAttributes(): set<string> {
    DOCUMENT_ATTRIBUTES + GEOMETRY_ATTRIBUTES + PAINT_ATTRIBUTES + COLOUR_ATTRIBUTES + GRADIENT_ATTRIBUTES
    + PATTERN_ATTRIBUTES + CLIP_ATTRIBUTES + MARKER_ATTRIBUTES + FONT_ATTRIBUTES + TEXT_ATTRIBUTES + OTHER_ATTRIBUTES
  }

  ghost predicate AllBare(names: set<string>) { forall s :: s in names ==> Bare(s) }

  ghost predicate AllInert(names: set<string>) { forall s :: s in names ==> Inert(s) }

  function SvgPolicy(): Policy { Policy(AllowedElements(), AllowedAttributes(), {"image", "use"}) }

  lemma ShapesAreBare() ensures AllBare(SHAPES) {}
  lemma GradientsAreBare() ensures AllBare(GRADIENTS) {}
  lemma OtherElementsAreBare() ensures AllBare(OTHER_ELEMENTS) {}
  lemma DocumentAreInert() ensures AllInert(DOCUMENT_ATTRIBUTES) {}
  lemma GeometryAreInert() ensures AllInert(GEOMETRY_ATTRIBUTES) {}
  lemma PaintAreInert() ensures AllInert(PAINT_ATTRIBUTES) {}
  lemma ColourAreInert() ensures AllInert(COLOUR_ATTRIBUTES) {}
  lemma GradientAreInert() ensures AllInert(GRADIENT_ATTRIBUTES) {}
  lemma PatternAreInert() ensures AllInert(PATTERN_ATTRIBUTES) {}
  lemma MarkerAreInert() ensures AllInert(MARKER_ATTRIBUTES) {}
  lemma ClipAreInert() ensures AllInert(CLIP_ATTRIBUTES) {}
  lemma FontAreInert() ensures AllInert(FONT_ATTRIBUTES) {}
  lemma TextAreInert() ensures AllInert(TEXT_ATTRIBUTES) {}
  lemma OtherAreInert() ensures AllInert(OTHER_ATTRIBUTES) {}

  /** The lists meet what the general theorems ask of a policy. */
  lemma SvgPolicyIsSane()
    ensures Sane(SvgPolicy())
  {
    ShapesAreBare();
    GradientsAreBare();
    OtherElementsAreBare();
    DocumentAreInert();
    GeometryAreInert();
    PaintAreInert();
    ColourAreInert();
    GradientAreInert();
    PatternAreInert();
    ClipAreInert();
    MarkerAreInert();
    FontAreInert();
    TextAreInert();
    OtherAreInert();
    hide Bare, Inert;
  }

  class State {
    const policy: Policy
    const maxLen: nat
    var buf: array<char>
    var len: nat
    var depth: int
    var skipDepth: int
    var foundSvg: bool
    var problem: Option<Problem>

    ghost predicate Valid()
      reads this
    {
      && (if buf.Length == 0 then len == 0 else len < buf.Length)
      && (maxLen != 0 ==> len <= maxLen && buf.Length <= maxLen + 1)
    }

    /** The handlers' state this one stands for. */
    ghost function View(): St
      reads this, buf
      requires Valid()
    {
      St(buf[..len], depth, skipDepth, foundSvg, problem)
    }

    constructor (policy: Policy, maxLen: nat)
      ensures Valid() && View() == INITIAL && this.policy == policy && this.maxLen == maxLen
      ensures fresh(buf)
    {
      this.policy, this.maxLen := policy, maxLen;
      buf := new char[0];
      len, depth, skipDepth, foundSvg, problem := 0, 0, -1, false, None;
    }

    /** The doubling loop of buf_append: room for `need` more characters and a terminator. */
    method Grow(need: nat)
      requires Valid() && (maxLen != 0 ==> len + need <= maxLen)
      modifies this`buf
      ensures Valid() && len + need < buf.Length && buf[..len] == old(buf[..len])
      ensures buf == old(buf) || fresh(buf)
    {
      while len + need + 1 > buf.Length
        invariant Valid() && buf[..len] == old(buf[..len])
        invariant buf == old(buf) || fresh(buf)
        decreases len + need + 1 - buf.Length
      {
        var newCap := if buf.Length > 0 then buf.Length * 2 else INITIAL_CAPACITY;
        if maxLen != 0 && newCap > maxLen + 1 {
          newCap := maxLen + 1;
        }
        var bigger := new char[newCap](_ => '\0');
        forall i | 0 <= i < len {
          bigger[i] := buf[i];
        }
        assert forall i :: 0 <= i < len ==> bigger[i] == buf[i];
        assert bigger[..len] == buf[..len];
        buf := bigger;
      }
    }

    /** buf_append, allocation failures aside. */
    method Append(data: string) returns (rc: int)
      requires Valid()
      modifies this`buf, this`len, this`problem, buf
      ensures Valid() && View() == Put(old(View()), data, maxLen)
      ensures rc == if problem.None? then 0 else -1
      ensures rc == 0 ==> len < buf.Length
      ensures buf == old(buf) || fresh(buf)
    {
      if problem.Some? {
        return -1;
      }
      if maxLen != 0 && len + |data| > maxLen {
        problem := Some(TooLarge);
        return -1;
      }
      Grow(|data|);
      ghost var before := buf[..len];
      forall i | 0 <= i < |data| {
        buf[len + i] := data[i];
      }
      assert buf[..len + |data|] == before + data;
      len := len + |data|;
      buf[len] := '\0';
      assert buf[..len] == before + data;
      rc := 0;
    }

    /** buf_append_escaped and the loop of character_data, which differ in the quotes. */
    method AppendEscaped(s: string, quotes: bool)
      requires Valid()
      modifies this`buf, this`len, this`problem, buf
      ensures Valid() && View() == PutEscaped(old(View()), s, quotes, maxLen)
      ensures buf == old(buf) || fresh(buf)
    {
      hide EscapeChar;
      var i := 0;
      assert s[0..] == s;
      while i < |s|
        invariant 0 <= i <= |s| && Valid()
        invariant buf == old(buf) || fresh(buf)
        invariant PutEscaped(old(View()), s, quotes, maxLen) == PutEscaped(View(), s[i..], quotes, maxLen)
      {
        assert s[i..][0] == s[i] && s[i..][1..] == s[i + 1..];
        var rc := Append(EscapeChar(s[i], quotes));
        if rc != 0 {
          EscapedStuck(View(), s[i + 1..], quotes, maxLen);
          return;
        }
        i := i + 1;
      }
      assert s[i..] == "";
    }

    method AppendAttr(a: Attr)
      requires Valid()
      modifies this`buf, this`len, this`problem, buf
      ensures Valid() && View() == PutAttr(old(View()), a, maxLen)
      ensures buf == old(buf) || fresh(buf)
    {
      hide Put, PutEscaped;
      var _ := Append(" ");
      var _ := Append(LowerAll(a.name));
      var _ := Append("=\"");
      AppendEscaped(a.value, true);
      var _ := Append("\"");
    }

    method AppendAttrs(name: string, atts: seq<Attr>)
      requires Valid()
      modifies this`buf, this`len, this`problem, buf
      ensures Valid() && View() == PutAttrs(old(View()), policy, name, atts, maxLen)
      ensures buf == old(buf) || fresh(buf)
    {
      hide PutAttr, KeepAttr;
      var i := 0;
      assert atts[0..] == atts;
      while i < |atts|
        invariant 0 <= i <= |atts| && Valid()
        invariant buf == old(buf) || fresh(buf)
        invariant PutAttrs(old(View()), policy, name, atts, maxLen)
               == PutAttrs(View(), policy, name, atts[i..], maxLen)
      {
        assert atts[i..][0] == atts[i] && atts[i..][1..] == atts[i + 1..];
        if KeepAttr(policy, name, atts[i]) {
          AppendAttr(atts[i]);
        }
        i := i + 1;
      }
      assert atts[i..] == [];
    }

    /** start_element. */
    method StartElement(name: string, atts: seq<Attr>)
      requires Valid()
      modifies this, buf
      ensures Valid() && View() == OnStart(old(View()), policy, name, atts, maxLen)
      ensures buf == old(buf) || fresh(buf)
    {
      hide Put, PutAttrs, MatchName, LowerAll;
      if problem.Some? {
        return;
      }
      if skipDepth >= 0 {
        depth := depth + 1;
        return;
      }
      if !Allowed(policy, name) {
        skipDepth := depth;
        depth := depth + 1;
        return;
      }
      var matched := MatchName(name);
      if !foundSvg {
        if LowerAll(matched) != "svg" {
          problem := Some(RootNotSvg);
          return;
        }
        foundSvg := true;
      }
      var _ := Append("<");
      var _ := Append(matched);
      AppendAttrs(matched, atts);
      var _ := Append(">");
      depth := depth + 1;
    }

    /** end_element. */
    method EndElement(name: string)
      requires Valid()
      modifies this, buf
      ensures Valid() && View() == OnEnd(old(View()), name, maxLen)
      ensures buf == old(buf) || fresh(buf)
    {
      hide Put, MatchName;
      if problem.Some? {
        return;
      }
      depth := depth - 1;
      if skipDepth >= 0 {
        if depth <= skipDepth {
          skipDepth := -1;
        }
        return;
      }
      var _ := Append("</");
      var _ := Append(MatchName(name));
      var _ := Append(">");
    }

    /** character_data. */
    method CharacterData(s: string)
      requires Valid()
      modifies this, buf
      ensures Valid() && View() == OnChars(old(View()), s, maxLen)
      ensures buf == old(buf) || fresh(buf)
    {
      hide PutEscaped;
      if problem.Some? || skipDepth >= 0 {
        return;
      }
      AppendEscaped(s, false);
    }

    /** The parser driving the handlers over a whole document. */
    method HandleAll(events: seq<Event>)
      requires Valid()
      modifies this, buf
      ensures Valid() && View() == SvgHandlers.Run(old(View()), policy, events, maxLen)
      ensures buf == old(buf) || fresh(buf)
    {
      hide OnStart, OnEnd, OnChars;
      var i := 0;
      assert events[0..] == events;
      while i < |events|
        invariant 0 <= i <= |events| && Valid()
        invariant buf == old(buf) || fresh(buf)
        invariant SvgHandlers.Run(old(View()), policy, events, maxLen)
               == SvgHandlers.Run(View(), policy, events[i..], maxLen)
      {
        assert events[i..][0] == events[i] && events[i..][1..] == events[i + 1..];
        match events[i] {
          case Start(name, atts) => StartElement(name, atts);
          case End(name) => EndElement(name);
          case Chars(text) => CharacterData(text);
        }
        i := i + 1;
      }
      assert events[i..] == [];
    }
  }

  function MaxOutput(inputLen: nat): nat {
    if inputLen * OUTPUT_MULTIPLIER > OUTPUT_FLOOR then inputLen * OUTPUT_MULTIPLIER else OUTPUT_FLOOR
  }

  /** sanitize_svg on a document the parser accepts. */
  method SanitizeSvg(root: Forest, inputLen: nat) returns (v: Verdict)
    requires root.Elem? && root.rest.Nil?
    ensures v == DocumentVerdict(SvgPolicy(), root, MaxOutput(inputLen))
  {
    hide DocumentVerdict, SvgHandlers.Run, SvgHandlers.Events, AllowedElements, AllowedAttributes;
    var st := new State(SvgPolicy(), MaxOutput(inputLen));
    st.HandleAll(Events(root));
    DocumentIsFiltered(SvgPolicy(), root, MaxOutput(inputLen));
    if st.problem == Some(TooLarge) {
      return OutputTooLarge;
    } else if st.problem.Some? {
      return NotSvg;
    }
    if !st.foundSvg {
      return NoRoot;
    }
    v := Modified(st.buf[..st.len]);
  }

  /** What a sanitized document is: the printed filtered tree, with balanced tags, within the
      limit, and what is printed of that tree filtered again. */
  lemma SanitizedDocument(root: Forest, inputLen: nat)
    requires root.Elem? && root.rest.Nil?
    ensures DocumentVerdict(SvgPolicy(), root, MaxOutput(inputLen)).Modified? ==>
      var out := DocumentVerdict(SvgPolicy(), root, MaxOutput(inputLen)).output;
      && |out| <= MaxOutput(inputLen)
      && Scan([], out) == Some([])
      && out == Print(Filter(SvgPolicy(), root))
      && out == Print(Filter(SvgPolicy(), Filter(SvgPolicy(), root)))
  {
    SvgPolicyIsSane();
    hide Sane, Filter, Print, Scan, AllowedElements, AllowedAttributes;
    OutputIsBalanced(SvgPolicy(), root);
    FilterTwice(SvgPolicy(), root);
  }
}

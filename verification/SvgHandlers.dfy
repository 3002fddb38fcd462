// The streaming SVG sanitizer of sanitizers/svg.c.
//
// Its handlers see one parser event at a time, keep a depth and a skip depth, and append to a bounded,
// growing buffer; they are compared with the filter on trees.
module SvgHandlers {
  import opened Bytes
  import opened SvgFilter

  datatype Event = Start(name: string, atts: seq<Attr>) | End(name: string) | Chars(text: string)

  datatype Problem = TooLarge | RootNotSvg

  /** The handlers' state; `skip` is -1 outside a dropped element, else the depth it started at. */
  datatype St = St(out: string, depth: int, skip: int, found: bool, problem: Option<Problem>)

  const INITIAL: St := St("", 0, -1, false, None)

  /** buf_append; a maximum of 0 means none. */
  function Put(st: St, s: string, max: nat): St {
    if st.problem.Some? then st
    else if max != 0 && |st.out| + |s| > max then st.(problem := Some(TooLarge))
    else st.(out := st.out + s)
  }

  function PutEscaped(st: St, s: string, quotes: bool, max: nat): St
    decreases |s|
  {
    if s == "" then st else PutEscaped(Put(st, EscapeChar(s[0], quotes), max), s[1..], quotes, max)
  }

  function PutAttr(st: St, a: Attr, max: nat): St {
    var st1 := Put(Put(Put(st, " ", max), LowerAll(a.name), max), "=\"", max);
    Put(PutEscaped(st1, a.value, true, max), "\"", max)
  }

  function PutAttrs(st: St, p: Policy, name: string, atts: seq<Attr>, max: nat): St
    decreases |atts|
  {
    if atts == [] then st
    else PutAttrs(if KeepAttr(p, name, atts[0]) then PutAttr(st, atts[0], max) else st, p, name, atts[1..], max)
  }

  function PutOpenTag(st: St, p: Policy, name: string, atts: seq<Attr>, max: nat): St {
    Put(PutAttrs(Put(Put(st, "<", max), name, max), p, name, atts, max), ">", max)
  }

  function PutCloseTag(st: St, name: string, max: nat): St {
    Put(Put(Put(st, "</", max), name, max), ">", max)
  }

  function OnStart(st: St, p: Policy, name: string, atts: seq<Attr>, max: nat): St {
    if st.problem.Some? then st
    else if st.skip >= 0 then st.(depth := st.depth + 1)
    else if !Allowed(p, name) then st.(skip := st.depth, depth := st.depth + 1)
    else if !st.found && LowerAll(MatchName(name)) != "svg" then st.(problem := Some(RootNotSvg))
    else
      var st1 := PutOpenTag(st.(found := true), p, MatchName(name), atts, max);
      st1.(depth := st1.depth + 1)
  }

  function OnEnd(st: St, name: string, max: nat): St {
    if st.problem.Some? then st
    else if st.skip >= 0 then
      st.(depth := st.depth - 1, skip := if st.depth - 1 <= st.skip then -1 else st.skip)
    else PutCloseTag(st.(depth := st.depth - 1), MatchName(name), max)
  }

  function OnChars(st: St, text: string, max: nat): St {
    if st.problem.Some? || st.skip >= 0 then st else PutEscaped(st, text, false, max)
  }

  function OnEvent(st: St, p: Policy, e: Event, max: nat): St {
    match e
    case Start(name, atts) => OnStart(st, p, name, atts, max)
    case End(name) => OnEnd(st, name, max)
    case Chars(text) => OnChars(st, text, max)
  }

  function Run(st: St, p: Policy, events: seq<Event>, max: nat): St
    decreases |events|
  {
    if events == [] then st else Run(OnEvent(st, p, events[0], max), p, events[1..], max)
  }

  /** What the parser reports for a list of nodes. */
  function Events(f: Forest): seq<Event> {
    match f
    case Nil => []
    case Text(s, rest) => [Chars(s)] + Events(rest)
    case Elem(name, atts, kids, rest) => [Start(name, atts)] + Events(kids) + [End(name)] + Events(rest)
  }

  // ---------------------------------------------------------------------------
  // Emitting piece by piece is emitting the whole, or failing for lack of room

  predicate Fits(st: St, s: string, max: nat) { max == 0 || |st.out| + |s| <= max }

  ghost predicate Emits(st: St, after: St, s: string, max: nat) {
    && (Fits(st, s, max) ==> after == st.(out := st.out + s))
    && (!Fits(st, s, max) ==> after.problem == Some(TooLarge))
  }

  /** The room left is never negative. */
  ghost predicate Roomy(st: St, max: nat) {
    st.problem.None? && (max == 0 || |st.out| <= max)
  }

  lemma Then(st: St, a: string, mid: St, b: string, after: St, max: nat)
    requires Emits(st, mid, a, max)
    requires st.problem.None? && Fits(st, a, max) ==> Emits(mid, after, b, max)
    requires st.problem.None? && mid.problem.Some? ==> after.problem == mid.problem
    ensures st.problem.None? ==> Emits(st, after, a + b, max)
  {
    assert st.out + a + b == st.out + (a + b);
  }

  lemma {:induction false} EscapedStuck(st: St, s: string, quotes: bool, max: nat)
    requires st.problem.Some?
    ensures PutEscaped(st, s, quotes, max) == st
    decreases |s|
  {
    if s != "" {
      EscapedStuck(st, s[1..], quotes, max);
    }
  }

  lemma {:induction false} EscapedEmits(st: St, s: string, quotes: bool, max: nat)
    requires Roomy(st, max)
    ensures Emits(st, PutEscaped(st, s, quotes, max), Escape(s, quotes), max)
    decreases |s|
  {
    if s == "" {
      assert st.out + "" == st.out;
    } else {
      var c := EscapeChar(s[0], quotes);
      var mid := Put(st, c, max);
      if mid.problem.Some? {
        EscapedStuck(mid, s[1..], quotes, max);
      } else {
        EscapedEmits(mid, s[1..], quotes, max);
      }
      hide EscapeChar;
      Then(st, c, mid, Escape(s[1..], quotes), PutEscaped(st, s, quotes, max), max);
    }
  }

  lemma AttrStuck(st: St, a: Attr, max: nat)
    requires st.problem.Some?
    ensures PutAttr(st, a, max) == st
  {
    EscapedStuck(st, a.value, true, max);
  }

  lemma {:induction false} AttrsStuck(st: St, p: Policy, name: string, atts: seq<Attr>, max: nat)
    requires st.problem.Some?
    ensures PutAttrs(st, p, name, atts, max) == st
    decreases |atts|
  {
    if atts != [] {
      AttrStuck(st, atts[0], max);
      AttrsStuck(st, p, name, atts[1..], max);
    }
  }

  lemma AttrEmits(st: St, a: Attr, max: nat)
    requires Roomy(st, max)
    ensures Emits(st, PutAttr(st, a, max), " " + LowerAll(a.name) + "=\"" + Escape(a.value, true) + "\"", max)
  {
    hide Escape, LowerAll, PutEscaped;
    var st1 := Put(st, " ", max);
    var st2 := Put(st1, LowerAll(a.name), max);
    var st3 := Put(st2, "=\"", max);
    var st4 := PutEscaped(st3, a.value, true, max);
    Then(st, " ", st1, LowerAll(a.name), st2, max);
    Then(st, " " + LowerAll(a.name), st2, "=\"", st3, max);
    if st3.problem.Some? {
      EscapedStuck(st3, a.value, true, max);
    } else {
      EscapedEmits(st3, a.value, true, max);
    }
    Then(st, " " + LowerAll(a.name) + "=\"", st3, Escape(a.value, true), st4, max);
    Then(st, " " + LowerAll(a.name) + "=\"" + Escape(a.value, true), st4, "\"", Put(st4, "\"", max), max);
  }

  lemma {:induction false} AttrsEmit(st: St, p: Policy, name: string, atts: seq<Attr>, max: nat)
    requires Roomy(st, max)
    ensures Emits(st, PutAttrs(st, p, name, atts, max), PrintAttrs(FilterAttrs(p, name, atts)), max)
    decreases |atts|
  {
    hide PutAttr, KeepAttr, Escape;
    if atts == [] {
      assert st.out + "" == st.out;
    } else {
      var kept := FilterAttrs(p, name, atts[1..]);
      if KeepAttr(p, name, atts[0]) {
        var a := atts[0];
        var mid := PutAttr(st, a, max);
        var s := " " + LowerAll(a.name) + "=\"" + Escape(a.value, true) + "\"";
        AttrEmits(st, a, max);
        if mid.problem.Some? {
          AttrsStuck(mid, p, name, atts[1..], max);
        } else {
          AttrsEmit(mid, p, name, atts[1..], max);
        }
        Then(st, s, mid, PrintAttrs(kept), PutAttrs(st, p, name, atts, max), max);
        assert FilterAttrs(p, name, atts) == [Attr(LowerAll(a.name), a.value)] + kept;
        assert ([Attr(LowerAll(a.name), a.value)] + kept)[1..] == kept;
      } else {
        AttrsEmit(st, p, name, atts[1..], max);
        assert FilterAttrs(p, name, atts) == kept;
      }
    }
  }

  lemma OpenTagEmits(st: St, p: Policy, name: string, atts: seq<Attr>, max: nat)
    requires Roomy(st, max)
    ensures Emits(st, PutOpenTag(st, p, name, atts, max), OpenTag(name, FilterAttrs(p, name, atts)), max)
  {
    hide PutAttrs, PrintAttrs, FilterAttrs;
    var st1 := Put(st, "<", max);
    var st2 := Put(st1, name, max);
    var st3 := PutAttrs(st2, p, name, atts, max);
    var printed := PrintAttrs(FilterAttrs(p, name, atts));
    Then(st, "<", st1, name, st2, max);
    if st2.problem.Some? {
      AttrsStuck(st2, p, name, atts, max);
    } else {
      AttrsEmit(st2, p, name, atts, max);
    }
    Then(st, "<" + name, st2, printed, st3, max);
    Then(st, "<" + name + printed, st3, ">", Put(st3, ">", max), max);
  }

  lemma CloseTagEmits(st: St, name: string, max: nat)
    requires Roomy(st, max)
    ensures Emits(st, PutCloseTag(st, name, max), CloseTag(name), max)
  {
    var st1 := Put(st, "</", max);
    var st2 := Put(st1, name, max);
    Then(st, "</", st1, name, st2, max);
    Then(st, "</" + name, st2, ">", Put(st2, ">", max), max);
  }

  // ---------------------------------------------------------------------------
  // Running over a tree

  lemma {:induction false} RunConcat(st: St, p: Policy, a: seq<Event>, b: seq<Event>, max: nat)
    ensures Run(st, p, a + b, max) == Run(Run(st, p, a, max), p, b, max)
    decreases |a|
  {
    hide OnEvent;
    if a == [] {
      assert a + b == b;
    } else {
      assert (a + b)[1..] == a[1..] + b;
      RunConcat(OnEvent(st, p, a[0], max), p, a[1..], b, max);
    }
  }

  lemma {:induction false} RunStuck(st: St, p: Policy, events: seq<Event>, max: nat)
    requires st.problem.Some?
    ensures Run(st, p, events, max) == st
    decreases |events|
  {
    if events != [] {
      RunStuck(st, p, events[1..], max);
    }
  }

  lemma RunOne(st: St, p: Policy, e: Event, max: nat)
    ensures Run(st, p, [e], max) == OnEvent(st, p, e, max)
  {
    hide OnEvent;
    assert [e][1..] == [];
  }

  /** The four stretches of an element's events. */
  lemma RunElement(st: St, p: Policy, f: Forest, max: nat)
    requires f.Elem?
    ensures var st1 := OnStart(st, p, f.name, f.atts, max);
      var st2 := Run(st1, p, Events(f.kids), max);
      var st3 := OnEnd(st2, f.name, max);
      Run(st, p, Events(f), max) == Run(st3, p, Events(f.rest), max)
  {
    hide OnStart, OnEnd;
    var st1 := OnStart(st, p, f.name, f.atts, max);
    var st2 := Run(st1, p, Events(f.kids), max);
    RunConcat(st, p, [Start(f.name, f.atts)] + Events(f.kids) + [End(f.name)], Events(f.rest), max);
    RunConcat(st, p, [Start(f.name, f.atts)] + Events(f.kids), [End(f.name)], max);
    RunConcat(st, p, [Start(f.name, f.atts)], Events(f.kids), max);
    RunOne(st, p, Start(f.name, f.atts), max);
    RunOne(st2, p, End(f.name), max);
  }

  /** Inside a dropped element nothing is written and the depth returns. */
  lemma {:induction false} SkippedLeavesNoTrace(st: St, p: Policy, f: Forest, max: nat)
    requires st.problem.None? && 0 <= st.skip < st.depth
    ensures Run(st, p, Events(f), max) == st
    decreases f
  {
    hide Put, PutOpenTag, PutCloseTag, PutEscaped;
    match f
    case Nil =>
    case Text(s, rest) =>
      SkippedLeavesNoTrace(st, p, rest, max);
      RunConcat(st, p, [Chars(s)], Events(rest), max);
      RunOne(st, p, Chars(s), max);
    case Elem(name, atts, kids, rest) =>
      SkippedLeavesNoTrace(st.(depth := st.depth + 1), p, kids, max);
      SkippedLeavesNoTrace(st, p, rest, max);
      RunElement(st, p, f, max);
  }

  /** Once the root has been seen, the handlers write exactly the printed filtered tree, or report
      that it does not fit; the depths are back where they were. */
  lemma {:induction false} RunEmitsFiltered(st: St, p: Policy, f: Forest, max: nat)
    requires Roomy(st, max) && st.found && st.skip == -1 && st.depth >= 0
    ensures Emits(st, Run(st, p, Events(f), max), Print(Filter(p, f)), max)
    decreases f, 1
  {
    match f
    case Nil => assert st.out + "" == st.out;
    case Text(s, rest) =>
      hide PutEscaped, Escape, Print, Filter;
      var st1 := PutEscaped(st, s, false, max);
      RunConcat(st, p, [Chars(s)], Events(rest), max);
      RunOne(st, p, Chars(s), max);
      EscapedEmits(st, s, false, max);
      RunRest(st, Escape(s, false), st1, p, rest, max);
      PrintText(p, s, rest);
    case Elem(name, atts, kids, rest) =>
      hide Print, Filter, Emits;
      RunElement(st, p, f, max);
      PrintElement(p, f);
      if Allowed(p, name) {
        ElementEmits(st, p, f, max);
      } else {
        DroppedElement(st, p, f, max);
        RunEmitsFiltered(st, p, rest, max);
      }
  }

  lemma PrintText(p: Policy, s: string, rest: Forest)
    ensures Print(Filter(p, Text(s, rest))) == Escape(s, false) + Print(Filter(p, rest))
  {
  }

  lemma PrintElement(p: Policy, f: Forest)
    requires f.Elem?
    ensures Print(Filter(p, f)) ==
            if Allowed(p, f.name)
            then OpenTag(MatchName(f.name), FilterAttrs(p, MatchName(f.name), f.atts))
                 + Print(Filter(p, f.kids)) + CloseTag(MatchName(f.name)) + Print(Filter(p, f.rest))
            else Print(Filter(p, f.rest))
  {
    hide OpenTag, CloseTag, FilterAttrs, MatchName, Allowed;
  }

  lemma DroppedElement(st: St, p: Policy, f: Forest, max: nat)
    requires st.problem.None? && st.skip == -1 && st.depth >= 0 && f.Elem? && !Allowed(p, f.name)
    ensures Run(st, p, Events(f), max) == Run(st, p, Events(f.rest), max)
  {
    RunElement(st, p, f, max);
    var st1 := OnStart(st, p, f.name, f.atts, max);
    SkippedLeavesNoTrace(st1, p, f.kids, max);
    assert OnEnd(st1, f.name, max) == st;
  }

  /** What follows a stretch that emitted `a`. */
  lemma RunRest(st: St, a: string, mid: St, p: Policy, f: Forest, max: nat)
    requires Roomy(st, max) && st.found && st.skip == -1 && st.depth >= 0
    requires Emits(st, mid, a, max)
    ensures Emits(st, Run(mid, p, Events(f), max), a + Print(Filter(p, f)), max)
    decreases f, 2
  {
    hide Print, Filter, Events, Run;
    if mid.problem.Some? {
      RunStuck(mid, p, Events(f), max);
    } else {
      RunEmitsFiltered(mid, p, f, max);
    }
    Then(st, a, mid, Print(Filter(p, f)), Run(mid, p, Events(f), max), max);
  }

  lemma ElementEmits(st: St, p: Policy, f: Forest, max: nat)
    requires Roomy(st, max) && st.found && st.skip == -1 && st.depth >= 0 && f.Elem? && Allowed(p, f.name)
    ensures Emits(st, Run(st, p, Events(f), max), Print(Filter(p, f)), max)
    decreases f, 0
  {
    hide Print, Filter, Events, Run, OpenTag, CloseTag, PutOpenTag, FilterAttrs, PutCloseTag;
    var n := MatchName(f.name);
    var open, inner := OpenTag(n, FilterAttrs(p, n, f.atts)), Print(Filter(p, f.kids));
    RunElement(st, p, f, max);
    PrintElement(p, f);
    OpenTagEmits(st, p, n, f.atts, max);
    var down := st.(depth := st.depth + 1);
    var st1 := OnStart(st, p, f.name, f.atts, max);
    assert Emits(down, st1, open, max);
    var st2 := Run(st1, p, Events(f.kids), max);
    RunRest(down, open, st1, p, f.kids, max);
    var st3 := OnEnd(st2, f.name, max);
    if st2.problem.None? {
      CloseTagEmits(st2.(depth := st2.depth - 1), n, max);
    }
    assert Emits(st, st3, open + inner + CloseTag(n), max) by {
      ClosedEmits(st, open + inner, st2, CloseTag(n), st3, max);
    }
    RunRest(st, open + inner + CloseTag(n), st3, p, f.rest, max);
  }

  /** The depth goes down and a close tag is written. */
  lemma ClosedEmits(st: St, a: string, mid: St, b: string, after: St, max: nat)
    requires st.problem.None? && Emits(st.(depth := st.depth + 1), mid, a, max)
    requires mid.problem.Some? ==> after == mid
    requires mid.problem.None? ==> Emits(mid.(depth := mid.depth - 1), after, b, max)
    ensures Emits(st, after, a + b, max)
  {
    assert st.out + a + b == st.out + (a + b);
  }

  // ---------------------------------------------------------------------------
  // The verdict on a document

  datatype Verdict = Modified(output: string) | OutputTooLarge | NotSvg | NoRoot

  /** A document is one element; its verdict follows from the tree alone. */
  function DocumentVerdict(p: Policy, root: Forest, max: nat): Verdict
    requires root.Elem? && root.rest.Nil?
  {
    if !Allowed(p, root.name) then NoRoot
    else if LowerAll(MatchName(root.name)) != "svg" then NotSvg
    else if max != 0 && |Print(Filter(p, root))| > max then OutputTooLarge
    else Modified(Print(Filter(p, root)))
  }

  function VerdictOf(st: St): Verdict {
    if st.problem == Some(TooLarge) then OutputTooLarge
    else if st.problem.Some? then NotSvg
    else if !st.found then NoRoot
    else Modified(st.out)
  }

  /** The streaming handlers decide and write exactly what the tree says. */
  lemma DocumentIsFiltered(p: Policy, root: Forest, max: nat)
    requires root.Elem? && root.rest.Nil?
    ensures VerdictOf(Run(INITIAL, p, Events(root), max)) == DocumentVerdict(p, root, max)
    ensures var st := Run(INITIAL, p, Events(root), max);
      st.problem.None? ==> st.depth == 0 && st.skip == -1
  {
    hide Print, Filter;
    RunElement(INITIAL, p, root, max);
    if !Allowed(p, root.name) {
      DroppedElement(INITIAL, p, root, max);
    } else if LowerAll(MatchName(root.name)) != "svg" {
      RunStuck(OnStart(INITIAL, p, root.name, root.atts, max), p, Events(root.kids), max);
    } else {
      var seen := INITIAL.(found := true);
      RunElement(seen, p, root, max);
      assert OnStart(INITIAL, p, root.name, root.atts, max) == OnStart(seen, p, root.name, root.atts, max);
      RunEmitsFiltered(seen, p, root, max);
      assert "" + Print(Filter(p, root)) == Print(Filter(p, root));
    }
  }
}

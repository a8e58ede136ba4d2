/** End tags and implied elements with the names written out: which open elements keep an end tag from
    closing its element, what a new element implies, and a table whose cell is still open. */
module HtmlClosing {
  import opened Bytes
  import opened HtmlElements

  // --- End tags ----------------------------------------------------------------------------------

  /** The elements that keep an end tag from reaching through them: nothing does for html, html does
      for head and body, and each group that follows is kept back by the groups before it as well. */
  ghost predicate KeepsBack(open: string, name: string) {
    if name == "html" then false
    else if name == "head" || name == "body" then open == "html"
    else if name == "table" then open in {"html", "head", "body"}
    else if name == "thead" || name == "tbody" || name == "tfoot" then open in {"html", "head", "body", "table"}
    else if name == "tr" then open in {"html", "head", "body", "table", "thead", "tbody", "tfoot"}
    else if name == "td" || name == "th" then
      open in {"html", "head", "body", "table", "thead", "tbody", "tfoot", "tr"}
    else if name == "div" then
      open in {"html", "head", "body", "table", "thead", "tbody", "tfoot", "tr", "td", "th"}
    else
      open in {"html", "head", "body", "table", "thead", "tbody", "tfoot", "tr", "td", "th", "div"}
  }

  lemma KeptBackByPriority(open: string, name: string)
    ensures KeepsBack(open, name) <==> EndPriority(open) > EndPriority(name)
  {
  }

  /** An end tag closes its topmost element and everything in it exactly if nothing in it keeps it
      back; otherwise it closes nothing. */
  lemma EndTagCloses(stack: seq<string>, i: nat, name: string)
    requires i < |stack| && stack[i] == name && forall j :: i < j < |stack| ==> stack[j] != name
    ensures Cut(stack, name) ==
            if exists j :: i < j < |stack| && KeepsBack(stack[j], name) then stack else stack[..i]
  {
    hide EndPriority, KeepsBack;
    assert TopMatch(stack, name) == Some(i);
    forall j | i < j < |stack|
      ensures KeepsBack(stack[j], name) <==> EndPriority(stack[j]) > EndPriority(name)
    {
      KeptBackByPriority(stack[j], name);
    }
  }

  // --- Implied elements ------------------------------------------------------------------------

  /** What a new element implies: html around everything; a head, if there was none, for six elements
      directly in html; and for all others but the frame elements a body, if there was none and no
      head is open. */
  lemma ImpliedElements(stack: seq<string>, mode: nat, name: string)
    ensures var base := if stack == [] then ["html"] else stack;
            WithImplied(stack, mode, name) ==
            if name == "html" then stack
            else if name == "head" || name == "body" then base
            else if name in {"script", "style", "meta", "link", "title", "base"} && |base| <= 1 then
              if mode < 3 then base + ["head"] else base
            else if name in {"noframes", "frame", "frameset"} then base
            else if mode < 10 && "body" !in base && "head" !in base then base + ["body"]
            else base
  {
  }

  // --- A run --------------------------------------------------------------------------------------

  /** An element that closes and implies nothing. */
  lemma JustOpens(e: ElementStack, p: State, name: string)
    requires p.stack != [] && p.mode >= INSERT_IN_BODY && !e.isEmpty(name)
    requires !e.closes(name, p.stack[|p.stack| - 1]) && name != "html" && name != "head" && name != "body"
    ensures e.Taken(p, StartTag(name, Plain)) == State(p.stack + [name], p.mode, p.depth, p.events + [Start(name)])
  {
    assert e.AutoClosed(p, name) == p;
    assert e.ImpliedOpen(p, name) == p;
  }

  /** The first element of a document: html and head are implied by a title. */
  lemma TitleOpens(e: ElementStack, p: State)
    requires p == State([], INSERT_INITIAL, 0, []) && !e.noImplied && !e.isEmpty("title")
    ensures e.Taken(p, StartTag("title", Plain)) ==
            State(["html", "head", "title"], 3, 0, [Start("html"), Start("head"), Start("title")])
  {
    assert e.AutoClosed(p, "title") == p;
    var a, b := Opened(p, "html"), Opened(Opened(p, "html"), "head");
    assert e.ImpliedOpen(p, "title") == b;
    assert b.stack == ["html", "head"] && b.events == [Start("html"), Start("head")];
    assert [Start("html"), Start("head")] + [Start("title")] == [Start("html"), Start("head"), Start("title")];
  }

  /** A table closes the head and implies a body. */
  lemma TableOpens(e: ElementStack, p: State)
    requires p.stack == ["html", "head"] && p.mode == 3 && !e.noImplied && !e.isEmpty("table")
    requires e.closes("table", "head") && !e.closes("table", "html")
    ensures e.Taken(p, StartTag("table", Plain)) ==
            State(["html", "body", "table"], 10, p.depth, p.events + [End("head"), Start("body"), Start("table")])
  {
    var q := ClosedTop(p);
    assert q.stack == ["html"];
    assert e.AutoClosed(p, "table") == e.AutoClosed(q, "table") == q;
    assert e.ImpliedOpen(q, "table") == Opened(q, "body");
    assert p.events + [End("head")] + [Start("body")] + [Start("table")] ==
           p.events + [End("head"), Start("body"), Start("table")];
  }

  /** The end tag of the title. */
  lemma TitleEnds(e: ElementStack, p: State)
    requires p.stack == ["html", "head", "title"] && p.depth == 0
    ensures e.Taken(p, EndTag("title")) == State(["html", "head"], p.mode, 0, p.events + [End("title")])
  {
    EndTagCloses(p.stack, 2, "title");
    hide EndPriority;
    assert p.stack[..2] == ["html", "head"];
    assert ClosedTo(p, 2) == ClosedTop(p);
  }

  /** The end tag of a table whose cell is open closes the cell and the row as well. */
  lemma TableEnds(e: ElementStack, p: State)
    requires p.stack == ["html", "body", "table", "tr", "td"] && p.depth == 0
    ensures e.Taken(p, EndTag("table")) ==
            State(["html", "body"], p.mode, 0, p.events + [End("td"), End("tr"), End("table")])
  {
    EndTagCloses(p.stack, 2, "table");
    hide EndPriority;
    var a, b := ClosedTop(p), ClosedTop(ClosedTop(p));
    assert p.stack[..2] == ["html", "body"] && a.stack == ["html", "body", "table", "tr"];
    assert b.stack == ["html", "body", "table"] && ClosedTop(b).stack == ["html", "body"];
    assert ClosedTo(p, 2) == ClosedTo(a, 2) == ClosedTo(b, 2) == ClosedTop(b);
    assert p.events + [End("td")] + [End("tr")] + [End("table")] == p.events + [End("td"), End("tr"), End("table")];
  }

  lemma TextInBody(e: ElementStack, p: State)
    requires p.stack != [] && p.stack[|p.stack| - 1] != "head" && p.mode >= INSERT_IN_BODY
    ensures e.Taken(p, Text) == p
  {
    assert e.ImpliedOpen(p, P) == p;
  }

  lemma DocumentEnds(p: State)
    requires p.stack == ["html", "body", "p"]
    ensures ClosedTo(p, 0).events == p.events + [End("p"), End("body"), End("html")]
  {
    var a, b := ClosedTop(p), ClosedTop(ClosedTop(p));
    assert a.stack == ["html", "body"] && b.stack == ["html"] && ClosedTop(b).stack == [];
    assert ClosedTo(p, 0) == ClosedTo(a, 0) == ClosedTo(b, 0) == ClosedTop(b);
    assert p.events + [End("p")] + [End("body")] + [End("html")] == p.events + [End("p"), End("body"), End("html")];
  }

  const DOCUMENT: seq<Token> := [
    StartTag("title", Plain), EndTag("title"), StartTag("table", Plain), StartTag("tr", Plain), StartTag("td", Plain),
    Text, EndTag("table"), StartTag("p", Plain)]

  const EVENTS: seq<Event> := [
    Start("html"), Start("head"), Start("title"), End("title"), End("head"), Start("body"), Start("table"),
    Start("tr"), Start("td"), End("td"), End("tr"), End("table"), Start("p"), End("p"), End("body"), End("html")]

  /** A document without html, head and body tags, whose table ends while its cell is open. */
  method OpenCellRun() returns (e: ElementStack)
    ensures e.events == EVENTS
  {
    e := new ElementStack((new_, old_) => old_ == "head" && (new_ == "table" || new_ == "p"), _ => false, false);
    RunOf(e, e.Now());
    e.ParseContent(DOCUMENT);
  }

  lemma TakesNext(e: ElementStack, p: State, d: seq<Token>, i: nat)
    requires i < |d|
    ensures e.TakenAll(p, d[i..]) == e.TakenAll(e.Taken(p, d[i]), d[i + 1..])
  {
    assert d[i..][1..] == d[i + 1..];
  }

  /** The state at some point of the run. */
  ghost function At(stack: seq<string>, mode: nat, k: nat): State
    requires k <= |EVENTS|
  {
    State(stack, mode, 0, EVENTS[..k])
  }

  lemma RunOf(e: ElementStack, p: State)
    requires p == State([], INSERT_INITIAL, 0, []) && !e.noImplied && forall n :: !e.isEmpty(n)
    requires forall a, b :: e.closes(a, b) <==> b == "head" && (a == "table" || a == "p")
    ensures ClosedTo(e.TakenAll(p, DOCUMENT), 0).events == EVENTS
  {
    hide e.Taken, e.TakenAll, ClosedTo;
    var d, html := DOCUMENT, ["html", "body"];
    TitleOpens(e, p);
    var p1 := At(["html", "head", "title"], 3, 3);
    assert e.Taken(p, d[0]) == p1;
    TitleEnds(e, p1);
    var p2 := At(["html", "head"], 3, 4);
    TableOpens(e, p2);
    var p3 := At(html + ["table"], 10, 7);
    JustOpens(e, p3, "tr");
    var p4 := At(html + ["table", "tr"], 10, 8);
    JustOpens(e, p4, "td");
    var p5 := At(html + ["table", "tr", "td"], 10, 9);
    TextInBody(e, p5);
    TableEnds(e, p5);
    var p6 := At(html, 10, 12);
    JustOpens(e, p6, "p");
    var p7 := At(html + ["p"], 10, 13);
    assert e.Taken(p1, d[1]) == p2 && e.Taken(p2, d[2]) == p3 && e.Taken(p3, d[3]) == p4 && e.Taken(p4, d[4]) == p5;
    assert e.Taken(p5, d[5]) == p5 && e.Taken(p5, d[6]) == p6 && e.Taken(p6, d[7]) == p7;
    InOrder(e, d, p, p1, p2, p3, p4, p5, p6, p7);
    DocumentEnds(p7);
    assert EVENTS[..13] + [End("p"), End("body"), End("html")] == EVENTS;
  }

  lemma InOrder(e: ElementStack, d: seq<Token>, p: State, p1: State, p2: State, p3: State, p4: State, p5: State,
                p6: State, p7: State)
    requires |d| == 8 && e.Taken(p, d[0]) == p1 && e.Taken(p1, d[1]) == p2 && e.Taken(p2, d[2]) == p3
    requires e.Taken(p3, d[3]) == p4 && e.Taken(p4, d[4]) == p5 && e.Taken(p5, d[5]) == p5
    requires e.Taken(p5, d[6]) == p6 && e.Taken(p6, d[7]) == p7
    ensures e.TakenAll(p, d) == p7
  {
    hide e.Taken;
    NoneTaken(e, p7);
    hide e.TakenAll;
    TakesNext(e, p, d, 0);
    TakesNext(e, p1, d, 1);
    TakesNext(e, p2, d, 2);
    TakesNext(e, p3, d, 3);
    TakesNext(e, p4, d, 4);
    TakesNext(e, p5, d, 5);
    TakesNext(e, p5, d, 6);
    TakesNext(e, p6, d, 7);
    assert d[0..] == d && d[8..] == [];
  }

  lemma NoneTaken(e: ElementStack, p: State)
    ensures e.TakenAll(p, []) == p
  {
  }
}

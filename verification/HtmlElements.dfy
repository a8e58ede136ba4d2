/** The open-element stack of the HTML parser (HTMLparser.c, not HTML5 mode): automatic closing,
    implied elements, and the events that they emit. */
module HtmlElements {
  import opened Bytes

  type Name = string

  const HTML: Name := "html"
  const HEAD: Name := "head"
  const BODY: Name := "body"
  const P: Name := "p"

  /** htmlInsertMode */
  const INSERT_INITIAL: nat := 1
  const INSERT_IN_HEAD: nat := 3
  const INSERT_IN_BODY: nat := 10

  datatype Event = Start(name: Name) | End(name: Name)

  /** The elements open after the events; nothing if an end matches no start. */
  ghost function Replay(events: seq<Event>): (open: Option<seq<Name>>) {
    if events == [] then Some([])
    else
      match Replay(events[..|events| - 1])
      case None => None
      case Some(open) =>
        match events[|events| - 1]
        case Start(n) => Some(open + [n])
        case End(n) => if open != [] && open[|open| - 1] == n then Some(open[..|open| - 1]) else None
  }

  /** htmlGetEndPriority */
  function EndPriority(name: Name): nat {
    if name == "div" then 150
    else if name == "td" || name == "th" then 160
    else if name == "tr" then 170
    else if name == "thead" || name == "tbody" || name == "tfoot" then 180
    else if name == "table" then 190
    else if name == HEAD || name == BODY then 200
    else if name == HTML then 220
    else 100
  }

  /** The places that the special elements may have. */
  ghost predicate WellPlaced(stack: seq<Name>) {
    && (forall i :: 0 <= i < |stack| && stack[i] == HTML ==> i == 0)
    && (forall i :: 0 <= i < |stack| && stack[i] == HEAD ==> i == 1)
    && (forall i, j :: 0 <= i < j < |stack| && stack[i] == BODY ==> stack[j] != BODY)
  }

  /** The insertion mode has seen every head and body on the stack. */
  ghost predicate Seen(stack: seq<Name>, mode: nat) {
    (HEAD in stack ==> mode >= INSERT_IN_HEAD) && (BODY in stack ==> mode >= INSERT_IN_BODY)
  }

  /** The last occurrence of a name. */
  ghost function TopMatch(stack: seq<Name>, name: Name): (i: Option<nat>)
    ensures i.None? <==> name !in stack
    ensures i.Some? ==>
              && i.value < |stack| && stack[i.value] == name
              && forall j :: i.value < j < |stack| ==> stack[j] != name
  {
    if stack == [] then None
    else if stack[|stack| - 1] == name then Some(|stack| - 1)
    else TopMatch(stack[..|stack| - 1], name)
  }

  /** The stack after an end tag: cut at the topmost element of that name, unless that would close
      an element of a higher priority. */
  ghost function Cut(stack: seq<Name>, name: Name): seq<Name> {
    match TopMatch(stack, name)
    case None => stack
    case Some(i) =>
      if exists j :: i < j < |stack| && EndPriority(stack[j]) > EndPriority(name) then stack else stack[..i]
  }

  lemma PlacedPrefix(stack: seq<Name>, mode: nat, n: nat)
    requires n <= |stack|
    ensures WellPlaced(stack) ==> WellPlaced(stack[..n])
    ensures Seen(stack, mode) ==> Seen(stack[..n], mode)
  {
  }

  lemma PlacedPush(stack: seq<Name>, mode: nat, name: Name)
    requires WellPlaced(stack) && Seen(stack, mode)
    requires (name == HTML ==> |stack| == 0) && (name == HEAD ==> |stack| == 1) && (name == BODY ==> BODY !in stack)
    ensures WellPlaced(stack + [name])
    ensures Seen(stack + [name], if name == HEAD && mode < INSERT_IN_HEAD then INSERT_IN_HEAD
                                 else if name == BODY && mode < INSERT_IN_BODY then INSERT_IN_BODY else mode)
  {
  }

  lemma ReplayMore(events: seq<Event>, e: Event)
    requires Replay(events).Some?
    ensures var open := Replay(events).value;
            Replay(events + [e]) ==
              match e
              case Start(n) => Some(open + [n])
              case End(n) => if open != [] && open[|open| - 1] == n then Some(open[..|open| - 1]) else None
  {
    assert (events + [e])[..|events|] == events;
  }

  /** After every single event, the elements open are where they belong. */
  ghost predicate AlwaysPlaced(events: seq<Event>) {
    forall n :: 0 <= n <= |events| ==> Replay(events[..n]).Some? && WellPlaced(Replay(events[..n]).value)
  }

  lemma PlacedMore(events: seq<Event>, e: Event)
    requires AlwaysPlaced(events) && Replay(events + [e]).Some? && WellPlaced(Replay(events + [e]).value)
    ensures AlwaysPlaced(events + [e])
  {
    hide Replay, WellPlaced;
    var all := events + [e];
    forall n | 0 <= n <= |all|
      ensures Replay(all[..n]).Some? && WellPlaced(Replay(all[..n]).value)
    {
      if n <= |events| {
        assert all[..n] == events[..n];
      } else {
        assert all[..n] == all;
      }
    }
  }

  lemma StartKeeps(stack: seq<Name>, mode: nat, events: seq<Event>, name: Name)
    requires WellPlaced(stack) && Seen(stack, mode) && AlwaysPlaced(events) && Replay(events) == Some(stack)
    requires (name == HTML ==> |stack| == 0) && (name == HEAD ==> |stack| == 1) && (name == BODY ==> BODY !in stack)
    ensures var p := Opened(State(stack, mode, 0, events), name);
            WellPlaced(p.stack) && Seen(p.stack, p.mode) && AlwaysPlaced(p.events) && Replay(p.events) == Some(p.stack)
  {
    hide AlwaysPlaced, WellPlaced, Seen, Replay;
    PlacedPush(stack, mode, name);
    ReplayMore(events, Start(name));
    PlacedMore(events, Start(name));
  }

  /** What stands between '<' and the end of a start tag. */
  datatype TagEnd = Plain | SelfClosing | Unfinished

  datatype Token = StartTag(name: Name, end: TagEnd) | EndTag(name: Name) | Text

  /** The parser as far as elements are concerned. */
  datatype State = State(stack: seq<Name>, mode: nat, depth: nat, events: seq<Event>)

  /** One element opened. */
  ghost function Opened(p: State, name: Name): State {
    p.(stack := p.stack + [name], events := p.events + [Start(name)],
       mode := if name == HEAD && p.mode < INSERT_IN_HEAD then INSERT_IN_HEAD
               else if name == BODY && p.mode < INSERT_IN_BODY then INSERT_IN_BODY else p.mode)
  }

  /** The current element closed. */
  ghost function ClosedTop(p: State): State
    requires p.stack != []
  {
    var n := |p.stack| - 1;
    p.(stack := p.stack[..n], events := p.events + [End(p.stack[n])])
  }

  /** Elements closed one by one until `n` are left. */
  ghost function ClosedTo(p: State, n: nat): State
    decreases |p.stack|
  {
    if |p.stack| <= n then p else ClosedTo(ClosedTop(p), n)
  }

  lemma {:induction false} ClosedFurther(p: State, n: nat, m: nat)
    requires m <= n
    ensures ClosedTo(ClosedTo(p, n), m) == ClosedTo(p, m)
    ensures n <= |p.stack| ==> ClosedTo(p, n).stack == p.stack[..n]
    decreases |p.stack|
  {
    if |p.stack| > n {
      ClosedFurther(ClosedTop(p), n, m);
    }
  }

  class ElementStack {
    /** ctxt->nameTab; ctxt->name is its last element */
    var nameTab: seq<Name>
    /** ctxt->html */
    var mode: nat
    /** ctxt->depth: discarded tags whose end tags are to be ignored */
    var depth: nat
    /** the calls of startElement and endElement */
    var events: seq<Event>
    /** htmlStartClose: whether a new element closes an old one */
    const closes: (Name, Name) -> bool
    /** the elements that are always empty */
    const isEmpty: Name -> bool
    /** HTML_PARSE_NOIMPLIED */
    const noImplied: bool

    constructor (closes: (Name, Name) -> bool, isEmpty: Name -> bool, noImplied: bool)
      ensures Valid() && Now() == State([], INSERT_INITIAL, 0, [])
      ensures this.closes == closes && this.isEmpty == isEmpty && this.noImplied == noImplied
    {
      nameTab, mode, depth, events := [], INSERT_INITIAL, 0, [];
      this.closes, this.isEmpty, this.noImplied := closes, isEmpty, noImplied;
    }

    /** The events are well nested and leave open exactly the elements on the stack, which are
        where they belong, as they were after every event before. */
    ghost predicate Valid()
      reads this
    {
      && Replay(events) == Some(nameTab) && AlwaysPlaced(events)
      && WellPlaced(nameTab) && Seen(nameTab, mode)
      && (!noImplied && nameTab != [] ==> nameTab[0] == HTML)
    }

    ghost function Now(): State
      reads this
    {
      State(nameTab, mode, depth, events)
    }

    /** The elements closed that a new one closes. */
    ghost function AutoClosed(p: State, newtag: Name): State
      decreases |p.stack|
    {
      if p.stack != [] && closes(newtag, p.stack[|p.stack| - 1]) then AutoClosed(ClosedTop(p), newtag) else p
    }

    /** The elements opened that a new one implies. */
    ghost function ImpliedOpen(p: State, newtag: Name): State {
      if noImplied || newtag == HTML then p
      else
        var base := if p.stack == [] then Opened(p, HTML) else p;
        if newtag == BODY || newtag == HEAD then base
        else if |base.stack| <= 1 && HeadContent(newtag) then
          if p.mode < INSERT_IN_HEAD then Opened(base, HEAD) else base
        else if !FrameContent(newtag) && p.mode < INSERT_IN_BODY && BODY !in base.stack && HEAD !in base.stack then
          Opened(base, BODY)
        else base
    }

    /** A start tag: what the new element closes, then what it implies, then the element itself
        unless the tag is misplaced, which is counted, or unfinished. */
    ghost function StartTagged(p: State, name: Name, finished: bool): State {
      var q := ImpliedOpen(AutoClosed(p, name), name);
      if Misplaced(name, q.stack) then q.(depth := q.depth + 1)
      else if finished then Opened(q, name) else q
    }

    /** A start tag and what follows from its end: `/>` and empty elements close the current
        element. */
    ghost function ElementDone(p: State, name: Name, end: TagEnd): State {
      var q := StartTagged(p, name, end != Unfinished);
      if q.stack != [] && (end == SelfClosing || (end == Plain && isEmpty(q.stack[|q.stack| - 1]))) then ClosedTop(q)
      else q
    }

    ghost function EndTagged(p: State, name: Name): State {
      if p.depth > 0 && (name == HTML || name == BODY || name == HEAD) then p.(depth := p.depth - 1)
      else ClosedTo(p, |Cut(p.stack, name)|)
    }

    ghost function TextStarted(p: State): State {
      if noImplied then p
      else ImpliedOpen(if p.stack != [] && p.stack[|p.stack| - 1] == HEAD then AutoClosed(p, "p") else p, "p")
    }

    /** What a piece of content does. */
    ghost function Taken(p: State, t: Token): State {
      match t
      case StartTag(name, end) => ElementDone(p, name, end)
      case EndTag(name) => EndTagged(p, name)
      case Text => TextStarted(p)
    }

    ghost function TakenAll(p: State, tokens: seq<Token>): State
      decreases |tokens|
    {
      if tokens == [] then p else TakenAll(Taken(p, tokens[0]), tokens[1..])
    }

    /** A misplaced tag that ends in `/>` opens nothing and closes the element around it, as
        `<html/>` within a body does. */
    lemma DiscardedTagCloses(p: State)
      requires p.stack == [HTML, BODY] && !closes(HTML, BODY)
      ensures ElementDone(p, HTML, SelfClosing) ==
              State([HTML], p.mode, p.depth + 1, p.events + [End(BODY)])
    {
      assert AutoClosed(p, HTML) == p && p.stack[..1] == [HTML];
    }

    /** htmlnamePush and startElement */
    method Open(name: Name)
      requires Valid()
      requires (name == HTML ==> |nameTab| == 0) && (name == HEAD ==> |nameTab| == 1) &&
               (name == BODY ==> BODY !in nameTab)
      requires !noImplied && nameTab == [] ==> name == HTML
      modifies this`nameTab, this`mode, this`events
      ensures Valid() && Now() == Opened(old(Now()), name)
    {
      hide AlwaysPlaced, WellPlaced, Seen, Replay;
      StartKeeps(nameTab, mode, events, name);
      if mode < INSERT_IN_HEAD && name == HEAD {
        mode := INSERT_IN_HEAD;
      }
      if mode < INSERT_IN_BODY && name == BODY {
        mode := INSERT_IN_BODY;
      }
      nameTab := nameTab + [name];
      events := events + [Start(name)];
    }

    /** endElement for the current element, and htmlnamePop */
    method Close()
      requires Valid() && nameTab != []
      modifies this`nameTab, this`events
      ensures Valid() && Now() == ClosedTop(old(Now()))
    {
      PlacedPrefix(nameTab, mode, |nameTab| - 1);
      ReplayMore(events, End(nameTab[|nameTab| - 1]));
      PlacedMore(events, End(nameTab[|nameTab| - 1]));
      hide AlwaysPlaced;
      events := events + [End(nameTab[|nameTab| - 1])];
      nameTab := nameTab[..|nameTab| - 1];
    }

    /** The elements closed are those at the end of `before`. */
    ghost predicate Shortened(before: seq<Name>)
      reads this
    {
      |nameTab| <= |before| && nameTab == before[..|nameTab|]
    }

    /** htmlAutoClose: elements are closed as long as the new one closes the current one. */
    method AutoClose(newtag: Name)
      requires Valid()
      modifies this`nameTab, this`events
      ensures Valid() && Shortened(old(nameTab)) && Now() == AutoClosed(old(Now()), newtag)
      ensures forall i :: |nameTab| <= i < |old(nameTab)| ==> closes(newtag, old(nameTab)[i])
      ensures nameTab != [] ==> !closes(newtag, nameTab[|nameTab| - 1])
    {
      hide AlwaysPlaced, WellPlaced, Seen, Replay;
      while nameTab != [] && closes(newtag, nameTab[|nameTab| - 1])
        invariant Valid() && Shortened(old(nameTab)) && AutoClosed(Now(), newtag) == AutoClosed(old(Now()), newtag)
        invariant forall i :: |nameTab| <= i < |old(nameTab)| ==> closes(newtag, old(nameTab)[i])
        decreases |nameTab|
      {
        Close();
      }
    }

    /** htmlAutoCloseOnEnd */
    method AutoCloseOnEnd()
      requires Valid()
      modifies this`nameTab, this`events
      ensures Valid() && nameTab == [] && Now() == ClosedTo(old(Now()), 0)
    {
      hide AlwaysPlaced, WellPlaced, Seen, Replay;
      while nameTab != []
        invariant Valid() && ClosedTo(Now(), 0) == ClosedTo(old(Now()), 0)
        decreases |nameTab|
      {
        Close();
      }
    }

    /** htmlAutoCloseOnClose: down to the topmost element of that name, unless an element of a
        higher priority is in the way. */
    method AutoCloseOnClose(newtag: Name)
      requires Valid() && newtag in nameTab
      modifies this`nameTab, this`events
      ensures Valid()
      ensures var i := TopMatch(old(nameTab), newtag).value;
              && (nameTab == if exists j :: i < j < |old(nameTab)| && EndPriority(old(nameTab)[j]) > EndPriority(newtag)
                             then old(nameTab) else old(nameTab)[..i + 1])
              && Now() == ClosedTo(old(Now()), |nameTab|)
    {
      hide EndPriority, WellPlaced, Seen, Replay, AlwaysPlaced, TopMatch;
      ghost var top := TopMatch(nameTab, newtag).value;
      var priority := EndPriority(newtag);
      var i := |nameTab| - 1;
      while nameTab[i] != newtag
        invariant top <= i < |nameTab| && nameTab == old(nameTab)
        invariant forall j :: i < j < |nameTab| ==> EndPriority(nameTab[j]) <= priority
        decreases i
      {
        if EndPriority(nameTab[i]) > priority {
          return;
        }
        i := i - 1;
      }
      while nameTab[|nameTab| - 1] != newtag
        invariant Valid() && top < |nameTab| <= |old(nameTab)| && Shortened(old(nameTab))
        invariant ClosedTo(Now(), top + 1) == ClosedTo(old(Now()), top + 1)
        decreases |nameTab|
      {
        Close();
      }
    }

    /** htmlCheckImplied: exactly the elements that the new one implies are opened; nothing is
        closed. */
    method CheckImplied(newtag: Name)
      requires Valid()
      modifies this`nameTab, this`mode, this`events
      ensures Valid() && Now() == ImpliedOpen(old(Now()), newtag)
      ensures nameTab == if noImplied then old(nameTab) else WithImplied(old(nameTab), old(mode), newtag)
      ensures !noImplied && mode < INSERT_IN_BODY && NeedsBody(newtag) ==> HEAD in nameTab
    {
      hide AlwaysPlaced, Replay;
      if noImplied || newtag == HTML {
        return;
      }
      if |nameTab| <= 0 {
        Open(HTML);
      }
      if newtag == BODY || newtag == HEAD {
        return;
      }
      if |nameTab| <= 1 && HeadContent(newtag) {
        if mode >= INSERT_IN_HEAD {
          return;
        }
        Open(HEAD);
      } else if !FrameContent(newtag) {
        if mode >= INSERT_IN_BODY {
          return;
        }
        for i := 0 to |nameTab|
          invariant forall k :: 0 <= k < i ==> nameTab[k] != BODY && nameTab[k] != HEAD
        {
          if nameTab[i] == BODY || nameTab[i] == HEAD {
            return;
          }
        }
        Open(BODY);
      }
    }

    /** htmlStartCharData */
    method StartCharData()
      requires Valid()
      modifies this`nameTab, this`mode, this`events
      ensures Valid() && Now() == TextStarted(old(Now()))
      ensures noImplied ==> nameTab == old(nameTab)
      ensures !noImplied ==> nameTab != [] && (mode >= INSERT_IN_BODY || HEAD in nameTab)
      ensures !noImplied && (old(nameTab) == [] || old(nameTab)[|old(nameTab)| - 1] != HEAD || !closes(P, HEAD)) ==>
                nameTab == WithImplied(old(nameTab), old(mode), P)
    {
      hide AlwaysPlaced, WellPlaced, Seen, Replay, ImpliedOpen;
      if noImplied {
        return;
      }
      if nameTab != [] && nameTab[|nameTab| - 1] == HEAD {
        AutoClose(P);
      }
      CheckImplied(P);
    }

    /** A start tag that may not stand here: html above the bottom, head off depth one, or body
        within body. */
    ghost predicate Misplaced(name: Name, stack: seq<Name>) {
      (name == HTML && |stack| > 0) || (name == HEAD && |stack| != 1) || (name == BODY && BODY in stack)
    }

    /** The stack `mid` when a new element has closed what it closes, down to `kept` elements, and
        what it implies is open. */
    ghost predicate Prepared(newtag: Name, before: seq<Name>, mode0: nat, mid: seq<Name>, kept: nat) {
      && kept <= |before| && (forall i :: kept <= i < |before| ==> closes(newtag, before[i]))
      && (kept > 0 ==> !closes(newtag, before[kept - 1]))
      && mid == if noImplied then before[..kept] else WithImplied(before[..kept], mode0, newtag)
    }

    /** htmlParseStartTag: misplaced and unfinished tags open nothing; misplaced ones are counted. */
    method ParseStartTag(name: Name, finished: bool) returns (ghost mid: seq<Name>, ghost kept: nat)
      requires Valid()
      modifies this
      ensures Valid() && Prepared(name, old(nameTab), old(mode), mid, kept)
      ensures Now() == StartTagged(old(Now()), name, finished)
      ensures nameTab == if Misplaced(name, mid) || !finished then mid else mid + [name]
      ensures depth == old(depth) + if Misplaced(name, mid) then 1 else 0
    {
      hide AlwaysPlaced, WellPlaced, Seen, Replay, AutoClosed, ImpliedOpen;
      AutoClose(name);
      kept := |nameTab|;
      CheckImplied(name);
      mid := nameTab;
      var discardtag := false;
      if |nameTab| > 0 && name == HTML {
        discardtag := true;
        depth := depth + 1;
      }
      if |nameTab| != 1 && name == HEAD {
        discardtag := true;
        depth := depth + 1;
      }
      if name == BODY {
        var seen := CountBodies();
        depth := depth + seen;
        discardtag := discardtag || seen > 0;
      }
      if !finished {
        discardtag := true;
      }
      if !discardtag {
        Open(name);
      }
    }

    /** The loop over the stack for misplaced body tags (HTMLparser.c:3829-3840): it counts each
        body, and there is at most one. */
    method CountBodies() returns (n: nat)
      requires Valid()
      ensures n == if BODY in nameTab then 1 else 0
    {
      n := 0;
      for i := 0 to |nameTab|
        invariant n == if BODY in nameTab[..i] then 1 else 0
      {
        assert nameTab[..i + 1] == nameTab[..i] + [nameTab[i]];
        if nameTab[i] == BODY {
          n := n + 1;
        }
      }
      assert nameTab[..|nameTab|] == nameTab;
    }

    /** htmlParseElementInternal: after `/>`, and for elements that are always empty, the current
        element is closed at once. After a discarded tag that is the element around it. */
    method ParseElement(name: Name, end: TagEnd) returns (ghost mid: seq<Name>, ghost kept: nat)
      requires Valid()
      modifies this
      ensures Valid() && Prepared(name, old(nameTab), old(mode), mid, kept)
      ensures Now() == ElementDone(old(Now()), name, end)
      ensures depth == old(depth) + if Misplaced(name, mid) then 1 else 0
      ensures var there := if Misplaced(name, mid) || end == Unfinished then mid else mid + [name];
              nameTab == if there != [] && (end == SelfClosing || (end == Plain && isEmpty(there[|there| - 1])))
                         then there[..|there| - 1] else there
    {
      hide Prepared, Misplaced, WellPlaced, Seen, Replay, AlwaysPlaced, StartTagged;
      mid, kept := ParseStartTag(name, end != Unfinished);
      if nameTab == [] {
        return;
      }
      if end == SelfClosing {
        Close();
        return;
      }
      if end == Unfinished {
        return;
      }
      if isEmpty(nameTab[|nameTab| - 1]) {
        Close();
      }
    }

    /** htmlParseEndTag: an end tag of a discarded element is only counted; any other leaves the
        stack alone or cuts it at the topmost element of its name. */
    method ParseEndTag(name: Name)
      requires Valid()
      modifies this
      ensures Valid() && mode == old(mode) && Now() == EndTagged(old(Now()), name)
      ensures var ignored := old(depth) > 0 && (name == HTML || name == BODY || name == HEAD);
              && depth == old(depth) - (if ignored then 1 else 0)
              && nameTab == if ignored then old(nameTab) else Cut(old(nameTab), name)
    {
      hide EndPriority, Cut, TopMatch, WellPlaced, Seen, Replay, AlwaysPlaced;
      if depth > 0 && (name == HTML || name == BODY || name == HEAD) {
        depth := depth - 1;
        return;
      }
      var i: int := |nameTab| - 1;
      while i >= 0 && nameTab[i] != name
        invariant -1 <= i < |nameTab| && forall j :: i < j < |nameTab| ==> nameTab[j] != name
      {
        i := i - 1;
      }
      if i < 0 {
        NoCut(nameTab, name);
        return;
      }
      AutoCloseOnClose(name);
      CutHere(old(nameTab), nameTab, name);
      ClosedFurther(old(Now()), |nameTab|, |nameTab| - 1);
      if nameTab != [] && nameTab[|nameTab| - 1] == name {
        Close();
      }
    }

    /** One piece of content. */
    method ParseToken(t: Token)
      requires Valid()
      modifies this
      ensures Valid() && Now() == Taken(old(Now()), t)
    {
      hide AlwaysPlaced, WellPlaced, Seen, Replay, ElementDone, EndTagged, TextStarted;
      match t {
        case StartTag(name, end) =>
          ghost var mid, kept;
          mid, kept := ParseElement(name, end);
        case EndTag(name) => ParseEndTag(name);
        case Text => StartCharData();
      }
    }

    /** htmlParseContent on any input: the events are well nested, after every one of them html,
        head and body are where they belong, and at the end of the input everything is closed. */
    method ParseContent(tokens: seq<Token>)
      requires Valid()
      modifies this
      ensures Valid() && Now() == ClosedTo(TakenAll(old(Now()), tokens), 0)
      ensures AlwaysPlaced(events) && Replay(events) == Some([])
    {
      hide Taken;
      assert tokens[0..] == tokens;
      for i := 0 to |tokens|
        invariant Valid() && TakenAll(Now(), tokens[i..]) == TakenAll(old(Now()), tokens)
      {
        assert tokens[i..][1..] == tokens[i + 1..];
        ParseToken(tokens[i]);
      }
      AutoCloseOnEnd();
    }
  }

  lemma NoCut(stack: seq<Name>, name: Name)
    requires name !in stack
    ensures Cut(stack, name) == stack
  {
  }

  /** After automatic closing, the matching element is on top exactly if the end tag cuts. */
  lemma CutHere(before: seq<Name>, after: seq<Name>, name: Name)
    requires name in before
    requires var i := TopMatch(before, name).value;
             after == if exists j :: i < j < |before| && EndPriority(before[j]) > EndPriority(name) then before
               else before[..i + 1]
    ensures after != []
    ensures Cut(before, name) == if after[|after| - 1] == name then after[..|after| - 1] else after
  {
    hide EndPriority;
    var i := TopMatch(before, name).value;
    if exists j :: i < j < |before| && EndPriority(before[j]) > EndPriority(name) {
      assert before[|before| - 1] != name;
    } else {
      assert before[..i + 1][..i] == before[..i];
    }
  }

  /** An end tag never closes an element of a higher priority, and what stays open is what was
      below the element that it names. */
  lemma CutIsSafe(stack: seq<Name>, name: Name)
    ensures Cut(stack, name) <= stack
    ensures forall j :: |Cut(stack, name)| <= j < |stack| ==> EndPriority(stack[j]) <= EndPriority(name)
    ensures Cut(stack, name) != stack ==>
              stack[|Cut(stack, name)|] == name && forall j :: |Cut(stack, name)| < j < |stack| ==> stack[j] != name
    ensures Cut(stack, name) == stack <==>
              (forall i :: 0 <= i < |stack| && stack[i] == name ==>
                 exists j :: i < j < |stack| && EndPriority(stack[j]) > EndPriority(name))
  {
    hide EndPriority;
    var m := TopMatch(stack, name);
    if m.Some? && exists j :: m.value < j < |stack| && EndPriority(stack[j]) > EndPriority(name) {
      var j :| m.value < j < |stack| && EndPriority(stack[j]) > EndPriority(name);
      assert forall i :: 0 <= i < |stack| && stack[i] == name ==> i < j;
    }
  }

  /** The stack with the elements that a new one implies: html around everything, then a head for
      what belongs in one, or a body for most other elements, each unless it was there before. */
  ghost function WithImplied(stack: seq<Name>, mode: nat, newtag: Name): (r: seq<Name>)
    ensures stack <= r && (newtag != HTML ==> r != [])
  {
    var base := if stack == [] && newtag != HTML then [HTML] else stack;
    if newtag == HTML || newtag == BODY || newtag == HEAD then base
    else if |base| <= 1 && HeadContent(newtag) then
      if mode < INSERT_IN_HEAD then base + [HEAD] else base
    else if !FrameContent(newtag) && mode < INSERT_IN_BODY && BODY !in base && HEAD !in base then base + [BODY]
    else base
  }

  /** The elements that belong in a head. */
  predicate HeadContent(name: Name) {
    name == "script" || name == "style" || name == "meta" || name == "link" || name == "title" || name == "base"
  }

  /** The elements for which a body is implied. */
  predicate NeedsBody(name: Name) {
    name != HTML && name != HEAD && name != BODY && !HeadContent(name) && !FrameContent(name)
  }

  predicate FrameContent(name: Name) {
    name == "noframes" || name == "frame" || name == "frameset"
  }
}

/**
 * The XML splitter base: a stack of the start elements enclosing the current
 * position, a single marked position, and the construction of a
 * self-contained chunk that re-opens and re-closes every enclosing element.
 */
module XmlSplitter {
  import opened Wrappers
  import opened XmlElement
  import SeqFacts

  /**
   * The buffer of incoming data: `buffer` holds the characters at absolute
   * positions `base .. base + |buffer|`. Bytes are modelled as characters;
   * UTF-8 decoding is the identity here.
   */
  datatype Window = Window(base: nat, buffer: string)

  predicate InWindow(w: Window, from: int, to: int) {
    w.base <= from <= to <= w.base + |w.buffer|
  }

  /** The characters at absolute positions `[from, to)`. */
  function GetBytes(w: Window, from: int, to: int): (r: string)
    requires InWindow(w, from, to)
    ensures |r| == to - from
    ensures forall i :: 0 <= i < |r| ==> r[i] == w.buffer[from - w.base + i]
  {
    w.buffer[from - w.base .. to - w.base]
  }

  /** Drops everything before absolute position `pos`. */
  function AdvanceTo(w: Window, pos: int): (r: Window)
    requires InWindow(w, pos, pos)
    ensures r.base == pos
    ensures r.base + |r.buffer| == w.base + |w.buffer|
    ensures forall i | 0 <= i < |r.buffer| :: r.buffer[i] == w.buffer[pos - w.base + i]
    ensures forall from, to | pos <= from <= to <= w.base + |w.buffer| ::
      GetBytes(r, from, to) == GetBytes(w, from, to)
  {
    Window(pos, w.buffer[pos - w.base..])
  }

  /** The parser events the splitter distinguishes. */
  datatype XmlEvent = StartElementEvent(element: StartElement) | EndElementEvent | OtherEvent

  /**
   * Splitter state. `stack[0]` is the outermost open element and
   * `stack[|stack| - 1]` the innermost (the top of the source's deque).
   * A negative `mark` means "no position marked".
   */
  datatype Splitter = Splitter(mark: int, window: Window, stack: seq<StartElement>)

  /** What a subclass's event hook returns: its updated splitter and the chunk it emitted, if any. */
  datatype Hooked = Hooked(splitter: Splitter, chunk: Option<string>)

  datatype SplitError = EmptyStack

  predicate IsMarked(s: Splitter) {
    s.mark >= 0
  }

  /** A fresh splitter over `w`: nothing marked and no open elements. */
  function NewSplitter(w: Window): (s: Splitter)
    ensures !IsMarked(s)
    ensures s.stack == [] && s.window == w
  {
    Splitter(-1, w, [])
  }

  /** Marks `pos`; a non-negative position makes the splitter marked, a negative one unmarks it. */
  function Mark(s: Splitter, pos: int): (r: Splitter)
    ensures IsMarked(r) <==> pos >= 0
    ensures r.mark == pos
    ensures r.stack == s.stack && r.window == s.window
  {
    s.(mark := pos)
  }

  /**
   * Feeds one parser event. The subclass hook runs first; it may mark
   * positions and cut chunks but cannot touch the private stack, so only
   * its mark and window are kept. Afterwards, and only if no position is
   * marked, a start element is pushed and an end element popped.
   */
  function OnEvent(s: Splitter, ev: XmlEvent, onXmlEvent: (Splitter, XmlEvent) -> Hooked): (r: Result<Hooked, SplitError>)
    ensures var h := onXmlEvent(s, ev);
      && (r.Err? <==> !IsMarked(h.splitter) && ev.EndElementEvent? && s.stack == [])
      && (r.Ok? ==>
            && r.value.chunk == h.chunk
            && r.value.splitter.mark == h.splitter.mark
            && r.value.splitter.window == h.splitter.window)
      && (r.Ok? && IsMarked(h.splitter) ==> r.value.splitter.stack == s.stack)
      && (r.Ok? && ev.OtherEvent? ==> r.value.splitter.stack == s.stack)
      && (!IsMarked(h.splitter) && ev.StartElementEvent? ==>
            r.Ok? && r.value.splitter.stack == s.stack + [ev.element])
      && (r.Ok? && !IsMarked(h.splitter) && ev.EndElementEvent? ==>
            |s.stack| > 0 && r.value.splitter.stack == s.stack[..|s.stack| - 1])
  {
    var h := onXmlEvent(s, ev);
    var hooked := h.splitter.(stack := s.stack);
    if IsMarked(hooked) then
      Ok(Hooked(hooked, h.chunk))
    else
      match ev
      case StartElementEvent(e) => Ok(Hooked(hooked.(stack := s.stack + [e]), h.chunk))
      case EndElementEvent =>
        if s.stack == [] then Err(EmptyStack)
        else Ok(Hooked(hooked.(stack := s.stack[..|s.stack| - 1]), h.chunk))
      case OtherEvent => Ok(Hooked(hooked, h.chunk))
  }

  /** A piece of a chunk's wrapper: a re-opened enclosing element or the close tag of one. */
  datatype Tag = Open(element: StartElement) | Close(name: string)

  /** Re-opening lines, outermost element first (the source walks its deque backwards). */
  function OpenTags(stack: seq<StartElement>): (r: seq<Tag>)
    ensures |r| == |stack|
    ensures forall i :: 0 <= i < |r| ==> r[i] == Open(stack[i])
  {
    if stack == [] then [] else [Open(stack[0])] + OpenTags(stack[1..])
  }

  /** Closing lines, innermost element first: the reverse of the opening order. */
  function CloseTags(stack: seq<StartElement>): (r: seq<Tag>)
    ensures |r| == |stack|
    ensures forall i :: 0 <= i < |r| ==> r[i] == Close(Name(stack[|stack| - 1 - i]))
  {
    if stack == [] then []
    else
      var init := stack[..|stack| - 1];
      var rest := CloseTags(init);
      var all := [Close(Name(stack[|stack| - 1]))] + rest;
      assert forall i | 1 <= i < |all| :: all[i] == rest[i - 1] && init[|init| - 1 - (i - 1)] == stack[|stack| - 1 - i];
      all
  }

  function RenderTag(t: Tag): string {
    match t
    case Open(e) => ToString(e) + "\n"
    case Close(n) => "\n</" + n + ">"
  }

  function Render(tags: seq<Tag>): string {
    if tags == [] then "" else RenderTag(tags[0]) + Render(tags[1..])
  }

  /** Rendering a run of tags followed by another is rendering each in turn. */
  lemma {:induction false} RenderAppend(a: seq<Tag>, b: seq<Tag>)
    ensures Render(a + b) == Render(a) + Render(b)
    decreases |a|
  {
    if a == [] {
      assert a + b == b;
    } else {
      assert (a + b)[0] == a[0] && (a + b)[1..] == a[1..] + b;
      RenderAppend(a[1..], b);
    }
  }

  /** The line closing a stacked element is a line break followed by that element's end tag. */
  lemma CloseLineIsEndTag(e: StartElement)
    ensures RenderTag(Close(Name(e))) == "\n" + EndTag(e)
    ensures RenderTag(Open(e)) == ToString(e) + "\n"
  {
  }

  /** `makeChunk` may only be called while marked, with the range still held by the window. */
  predicate CanMakeChunk(s: Splitter, pos: int) {
    IsMarked(s) && InWindow(s.window, s.mark, pos)
  }

  /**
   * Cuts the chunk `[mark, pos)`: the fixed header, every enclosing start
   * element re-opened, the raw characters, every enclosing element closed.
   * Resets the mark and advances the window to `pos`.
   */
  function MakeChunk(s: Splitter, pos: int): (r: Hooked)
    requires CanMakeChunk(s, pos)
    ensures !IsMarked(r.splitter)
    ensures r.splitter.stack == s.stack
    ensures r.splitter.window == AdvanceTo(s.window, pos)
    ensures r.splitter.window.base == pos
    ensures r.splitter.window.base + |r.splitter.window.buffer| == s.window.base + |s.window.buffer|
    ensures forall from, to | pos <= from <= to <= s.window.base + |s.window.buffer| ::
      GetBytes(r.splitter.window, from, to) == GetBytes(s.window, from, to)
    ensures r.chunk == Some(Header + Render(OpenTags(s.stack)) + GetBytes(s.window, s.mark, pos)
                            + Render(CloseTags(s.stack)))
  {
    var body := GetBytes(s.window, s.mark, pos);
    var window := AdvanceTo(s.window, pos);
    Hooked(Splitter(-1, window, s.stack),
           Some(Header + Render(OpenTags(s.stack)) + body + Render(CloseTags(s.stack))))
  }

  /**
   * A stack machine that checks nesting: an open tag pushes its element's
   * name, a close tag must name the innermost open element and pops it.
   * Returns the names still open, or None on a mismatch.
   */
  function Nest(tags: seq<Tag>, open: seq<string>): Option<seq<string>> {
    if tags == [] then Some(open)
    else match tags[0]
      case Open(e) => Nest(tags[1..], open + [Name(e)])
      case Close(n) =>
        if open != [] && open[|open| - 1] == n then Nest(tags[1..], open[..|open| - 1]) else None
  }

  /** The names of the stacked elements, outermost first. */
  function Names(stack: seq<StartElement>): (r: seq<string>)
    ensures |r| == |stack|
  {
    if stack == [] then [] else [Name(stack[0])] + Names(stack[1..])
  }

  lemma {:induction false} NamesLast(stack: seq<StartElement>)
    requires stack != []
    ensures Names(stack) == Names(stack[..|stack| - 1]) + [Name(stack[|stack| - 1])]
  {
    if |stack| > 1 {
      var tail := stack[1..];
      NamesLast(tail);
      assert tail[..|tail| - 1] == stack[..|stack| - 1][1..];
      assert tail[|tail| - 1] == stack[|stack| - 1];
      SeqFacts.Associate([Name(stack[0])], Names(tail[..|tail| - 1]), [Name(stack[|stack| - 1])]);
    }
  }

  /** Running the machine over `a + b` runs it over `a`, then over `b` from where `a` left off. */
  lemma {:induction false} NestAppend(a: seq<Tag>, b: seq<Tag>, open: seq<string>)
    ensures Nest(a + b, open) == if Nest(a, open).Some? then Nest(b, Nest(a, open).value) else None
  {
    if a == [] {
      assert a + b == b;
    } else {
      assert (a + b)[0] == a[0];
      assert (a + b)[1..] == a[1..] + b;
      match a[0]
      case Open(e) =>
        NestAppend(a[1..], b, open + [Name(e)]);
      case Close(n) =>
        if open != [] && open[|open| - 1] == n {
          NestAppend(a[1..], b, open[..|open| - 1]);
        }
    }
  }

  lemma {:induction false} NestOpens(stack: seq<StartElement>, open: seq<string>)
    ensures Nest(OpenTags(stack), open) == Some(open + Names(stack))
  {
    if stack == [] {
      assert open + [] == open;
    } else {
      var first := Name(stack[0]);
      var tags := OpenTags(stack);
      assert tags[0] == Open(stack[0]) && tags[1..] == OpenTags(stack[1..]);
      NestOpens(stack[1..], open + [first]);
      SeqFacts.Associate(open, [first], Names(stack[1..]));
    }
  }

  lemma {:induction false} NestCloses(stack: seq<StartElement>, open: seq<string>)
    ensures Nest(CloseTags(stack), open + Names(stack)) == Some(open)
  {
    if stack == [] {
      assert open + [] == open;
    } else {
      var init := stack[..|stack| - 1];
      var last := Name(stack[|stack| - 1]);
      var rest := open + Names(init);
      NamesLast(stack);
      SeqFacts.Associate(open, Names(init), [last]);
      var all := rest + [last];
      assert all == open + Names(stack);
      var tags := CloseTags(stack);
      assert tags[0] == Close(last) && tags[1..] == CloseTags(init);
      assert all[|all| - 1] == last && all[..|all| - 1] == rest;
      NestCloses(init, open);
    }
  }

  /** The wrapper of every chunk is well nested: the closing tags exactly undo the opening lines. */
  lemma ChunkWrapperWellNested(stack: seq<StartElement>)
    ensures Nest(OpenTags(stack) + CloseTags(stack), []) == Some([])
  {
    NestAppend(OpenTags(stack), CloseTags(stack), []);
    NestOpens(stack, []);
    assert [] + Names(stack) == Names(stack);
    NestCloses(stack, []);
  }

  /** With no enclosing elements a chunk is the header followed by the raw characters. */
  lemma TopLevelChunk(s: Splitter, pos: int)
    requires CanMakeChunk(s, pos) && s.stack == []
    ensures MakeChunk(s, pos).chunk == Some(Header + GetBytes(s.window, s.mark, pos))
  {
    assert OpenTags(s.stack) == [] && CloseTags(s.stack) == [];
    var body := GetBytes(s.window, s.mark, pos);
    assert Header + Render([]) + body + Render([]) == Header + body;
  }

  /**
   * While nothing is marked, a start event followed by its end event
   * leaves the stack as it was, whatever the hook emits.
   */
  lemma StartThenEndRestoresStack(s: Splitter, e: StartElement, onXmlEvent: (Splitter, XmlEvent) -> Hooked)
    requires !IsMarked(onXmlEvent(s, StartElementEvent(e)).splitter)
    ensures var r1 := OnEvent(s, StartElementEvent(e), onXmlEvent);
      r1.Ok? &&
      var s1 := r1.value.splitter;
      (!IsMarked(onXmlEvent(s1, EndElementEvent).splitter) ==>
         var r2 := OnEvent(s1, EndElementEvent, onXmlEvent);
         r2.Ok? && r2.value.splitter.stack == s.stack)
  {
    var s1 := OnEvent(s, StartElementEvent(e), onXmlEvent).value.splitter;
    assert (s.stack + [e])[..|s.stack|] == s.stack;
  }
}

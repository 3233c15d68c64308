/** Consuming a chat-completion event stream: an incremental line splitter (a subset of the
    WHATWG HTML event-stream format, sections 9.2.5 and 9.2.6) and a tool-call assembler. */
module SseStream {
  import opened JsText

  /** `tc.index`, which a provider may leave out. */
  type Index = Option<int>

  /** An element of `delta.tool_calls`; reading a field of a null element throws. */
  datatype Fragment =
    | Fragment(index: Index, id: Option<string>, name: Option<string>, arguments: Option<string>)
    | NullFragment

  datatype Usage = Usage(promptTokens: int, completionTokens: int, totalTokens: int)

  /** What the text after `data: ` parses to, as far as it is looked at. */
  datatype Parsed =
    | NotJson
    | JsonNull
    | Chunk(finish: Option<string>, content: Option<string>, toolCalls: Option<seq<Fragment>>, usage: Option<Usage>)

  type Decoder = string -> Parsed

  datatype Call = Call(id: string, name: string, arguments: string)

  /** The tool-call map: its entries, and its keys in insertion order. */
  datatype Calls = Calls(order: seq<Index>, entries: map<Index, Call>)

  datatype Callback = Token(text: string) | FirstToolCall

  datatype State = State(
    content: string, calls: Calls, finish: Option<string>, usage: Usage,
    toolCallSeen: bool, callbacks: seq<Callback>, thrown: bool)

  const NO_CALLS := Calls([], map[])
  const START := State("", NO_CALLS, None, Usage(0, 0, 0), false, [], false)

  // ----- the line handler -----

  function Or(text: Option<string>, other: string): string
  {
    if text.Some? then text.value else other
  }

  function AddFragment(calls: Calls, f: Fragment): Calls
    requires f.Fragment?
  {
    var entry := if f.index in calls.entries then calls.entries[f.index] else Call("", "", "");
    var order := if f.index in calls.entries then calls.order else calls.order + [f.index];
    Calls(order, calls.entries[f.index := Call(
      Or(f.id, entry.id), entry.name + Or(f.name, ""), entry.arguments + Or(f.arguments, ""))])
  }

  /** Add fragments up to the first null one, which throws. */
  function AddFragments(calls: Calls, fs: seq<Fragment>): (Calls, bool)
    decreases |fs|
  {
    if fs == [] then (calls, false)
    else if fs[0].NullFragment? then (calls, true)
    else AddFragments(AddFragment(calls, fs[0]), fs[1..])
  }

  /** The content delta: kept, and passed on as a token until a tool call has been seen. */
  function WithContent(s: State, text: string): State
  {
    if text == "" then s
    else s.(content := s.content + text,
            callbacks := if s.toolCallSeen then s.callbacks else s.callbacks + [Token(text)])
  }

  /** The tool-call fragments: the first time, the caller is told that a tool call begins. */
  function WithToolCalls(s: State, fs: seq<Fragment>): State
  {
    var (calls, thrown) := AddFragments(s.calls, fs);
    s.(calls := calls, thrown := thrown, toolCallSeen := true,
       callbacks := if s.toolCallSeen then s.callbacks else s.callbacks + [FirstToolCall])
  }

  function HandleChunk(s: State, c: Parsed): State
    requires c.Chunk?
  {
    var s := if Or(c.finish, "") != "" then s.(finish := c.finish) else s;
    var s := WithContent(s, Or(c.content, ""));
    var s := if c.toolCalls.Some? then WithToolCalls(s, c.toolCalls.value) else s;
    if !s.thrown && c.usage.Some? && c.usage.value.totalTokens != 0 then s.(usage := c.usage.value) else s
  }

  /** The chunk a line carries, if it carries one. */
  function Payload(decode: Decoder, line: string): Option<Parsed>
  {
    if !("data: " <= line) then None
    else
      var raw := Trim(line[6..]);
      if raw == "[DONE]" || decode(raw).NotJson? then None else Some(decode(raw))
  }

  function HandleLine(decode: Decoder, s: State, line: string): State
  {
    match Payload(decode, line)
    case None => s
    case Some(parsed) => if parsed.Chunk? then HandleChunk(s, parsed) else s.(thrown := true)
  }

  /** Handle lines in order, stopping at one that throws. */
  function Fold(decode: Decoder, s: State, lines: seq<string>): State
    decreases |lines|
  {
    if lines == [] || s.thrown then s else Fold(decode, HandleLine(decode, s, lines[0]), lines[1..])
  }

  lemma {:induction false} FoldAppend(decode: Decoder, s: State, a: seq<string>, b: seq<string>)
    ensures Fold(decode, s, a + b) == Fold(decode, Fold(decode, s, a), b)
    decreases |a|
  {
    if a == [] {
      assert a + b == b;
    } else if !s.thrown {
      FoldAppend(decode, HandleLine(decode, s, a[0]), a[1..], b);
      assert (a + b)[1..] == a[1..] + b;
    }
  }

  // ----- the splitter -----

  /** The newline-terminated lines of a text, and what follows the last newline. */
  function CompleteLines(text: string): seq<string>
  {
    var parts := Split(text, '\n');
    parts[..|parts| - 1]
  }

  function LastLine(text: string): string
  {
    var parts := Split(text, '\n');
    parts[|parts| - 1]
  }

  /** The parts of a text with one more character, no newline, in front. */
  function Prefixed(c: char, parts: seq<string>): (r: seq<string>)
    requires parts != []
    ensures |r| == |parts|
  {
    [[c] + parts[0]] + parts[1..]
  }

  lemma PrefixedAppend(c: char, front: seq<string>, back: seq<string>)
    requires front != []
    ensures Prefixed(c, front + back) == Prefixed(c, front) + back
  {
    assert (front + back)[1..] == front[1..] + back;
  }

  /** All parts but the last, then the last. */
  lemma LastPart(text: string)
    ensures Split(text, '\n') == CompleteLines(text) + [LastLine(text)]
  {
  }

  lemma PartsOf(text: string, front: seq<string>, last: string)
    requires Split(text, '\n') == front + [last]
    ensures CompleteLines(text) == front && LastLine(text) == last
  {
  }

  lemma SplitNewline(text: string)
    ensures Split("\n" + text, '\n') == [""] + Split(text, '\n')
    ensures CompleteLines("\n" + text) == [""] + CompleteLines(text)
    ensures LastLine("\n" + text) == LastLine(text)
  {
    assert ("\n" + text)[1..] == text;
  }

  lemma SplitCons(c: char, text: string)
    requires c != '\n'
    ensures Split([c] + text, '\n') == Prefixed(c, Split(text, '\n'))
  {
    assert ([c] + text)[1..] == text;
  }

  /** A character in front changes the first complete line if there is one, else the last line. */
  lemma LinesCons(c: char, text: string)
    requires c != '\n'
    ensures CompleteLines(text) == [] ==>
      CompleteLines([c] + text) == [] && LastLine([c] + text) == [c] + LastLine(text)
    ensures CompleteLines(text) != [] ==>
      CompleteLines([c] + text) == Prefixed(c, CompleteLines(text)) && LastLine([c] + text) == LastLine(text)
  {
    SplitCons(c, text);
    LastPart(text);
    var front, last := CompleteLines(text), LastLine(text);
    if front == [] {
      assert Prefixed(c, front + [last]) == [] + [[c] + last];
      PartsOf([c] + text, [], [c] + last);
    } else {
      PrefixedAppend(c, front, [last]);
      PartsOf([c] + text, Prefixed(c, front), last);
    }
  }

  lemma {:induction false} SplitAppend(a: string, b: string)
    ensures Split(a + b, '\n') == CompleteLines(a) + Split(LastLine(a) + b, '\n')
    decreases |a|
  {
    if a == "" {
      assert a + b == b;
      assert CompleteLines(a) == [];
    } else {
      var rest := a[1..];
      SplitAppend(rest, b);
      assert a == [a[0]] + rest && a + b == [a[0]] + (rest + b);
      if a[0] == '\n' {
        SplitNewline(rest);
        SplitNewline(rest + b);
        Assoc([""], CompleteLines(rest), Split(LastLine(rest) + b, '\n'));
      } else {
        SplitAppendCons(a[0], rest, b);
      }
    }
  }

  lemma SplitAppendCons(c: char, a: string, b: string)
    requires c != '\n'
    requires Split(a + b, '\n') == CompleteLines(a) + Split(LastLine(a) + b, '\n')
    ensures Split([c] + (a + b), '\n') == CompleteLines([c] + a) + Split(LastLine([c] + a) + b, '\n')
  {
    SplitCons(c, a + b);
    LinesCons(c, a);
    var back := Split(LastLine(a) + b, '\n');
    if CompleteLines(a) == [] {
      assert [] + back == back;
      assert [c] + LastLine(a) + b == [c] + (LastLine(a) + b);
      SplitCons(c, LastLine(a) + b);
      assert [] + Prefixed(c, back) == Prefixed(c, back);
    } else {
      PrefixedAppend(c, CompleteLines(a), back);
    }
  }

  lemma LinesAppend(a: string, b: string)
    ensures CompleteLines(a + b) == CompleteLines(a) + CompleteLines(LastLine(a) + b)
    ensures LastLine(a + b) == LastLine(LastLine(a) + b)
  {
    SplitAppend(a, b);
  }

  /** An unterminated last line is all that is ignored: a newline at the end delivers it. */
  lemma NewlineDeliversLastLine(text: string)
    ensures CompleteLines(text + "\n") == CompleteLines(text) + [LastLine(text)]
    ensures Join(CompleteLines(text) + [LastLine(text)], '\n') == text
    ensures forall line :: line in CompleteLines(text) ==> '\n' !in line
  {
    LinesAppend(text, "\n");
    SplitHasNoSeparator(text, '\n');
    JoinSplit(text, '\n');
    var parts := Split(text, '\n');
    var last := LastLine(text);
    assert parts[|parts| - 1] in parts;
    LineThenNewline(last);
    assert CompleteLines(text) + [last] == parts;
  }

  lemma {:induction false} LineThenNewline(line: string)
    requires '\n' !in line
    ensures Split(line + "\n", '\n') == [line, ""]
  {
    if line == "" {
      assert ("\n")[1..] == "" && line + "\n" == "\n";
    } else {
      assert line[0] in line && forall c :: c in line[1..] ==> c in line;
      LineThenNewline(line[1..]);
      SplitCons(line[0], line[1..] + "\n");
      assert line + "\n" == [line[0]] + (line[1..] + "\n") && [line[0]] + line[1..] == line;
    }
  }

  datatype Result = Result(content: string, toolCalls: seq<Call>, usage: Option<Usage>, finish: Option<string>)

  function ResultOf(s: State): Result
    requires forall k :: k in s.calls.order ==> k in s.calls.entries
  {
    Result(s.content,
           seq(|s.calls.order|, i requires 0 <= i < |s.calls.order| =>
             assert s.calls.order[i] in s.calls.order; s.calls.entries[s.calls.order[i]]),
           if s.usage.totalTokens > 0 then Some(s.usage) else None, s.finish)
  }

  /** The inner loop over the complete lines of a read; it stops at a line that throws. */
  method HandleLines(decode: Decoder, before: State, lines: seq<string>) returns (s: State)
    requires !before.thrown
    ensures s == Fold(decode, before, lines)
  {
    s := before;
    for j := 0 to |lines|
      invariant s == Fold(decode, before, lines[..j]) && !s.thrown
    {
      TakeSnoc(lines, j);
      FoldAppend(decode, before, lines[..j], [lines[j]]);
      FoldOne(decode, s, lines[j]);
      s := HandleLine(decode, s, lines[j]);
      if s.thrown {
        FoldStopsHere(decode, before, lines, j + 1);
        return;
      }
    }
    assert lines[..|lines|] == lines;
  }

  /** What follows a line that throws is not looked at. */
  lemma ThrowingEnds(decode: Decoder, text: string, rest: string)
    requires Fold(decode, START, CompleteLines(text)).thrown
    ensures Fold(decode, START, CompleteLines(text + rest)) == Fold(decode, START, CompleteLines(text))
  {
    LinesAppend(text, rest);
    FoldAppend(decode, START, CompleteLines(text), CompleteLines(LastLine(text) + rest));
  }

  /** The state after the first `n` reads. */
  ghost function After(decode: Decoder, pieces: seq<string>, n: nat): State
    requires n <= |pieces|
  {
    Fold(decode, START, CompleteLines(Flatten(pieces[..n])))
  }

  ghost function Buffered(pieces: seq<string>, n: nat): string
    requires n <= |pieces|
  {
    LastLine(Flatten(pieces[..n]))
  }

  /** One more read: the lines that it completes are handled, and its last line is kept. */
  lemma OneMoreRead(decode: Decoder, pieces: seq<string>, n: nat)
    requires n < |pieces|
    ensures var buf := Buffered(pieces, n) + pieces[n];
      After(decode, pieces, n + 1) == Fold(decode, After(decode, pieces, n), CompleteLines(buf)) &&
      Buffered(pieces, n + 1) == LastLine(buf)
  {
    var text := Flatten(pieces[..n]);
    TakeSnoc(pieces, n);
    FlattenSnoc(pieces[..n], pieces[n]);
    LinesAppend(text, pieces[n]);
    FoldAppend(decode, START, CompleteLines(text), CompleteLines(LastLine(text) + pieces[n]));
  }

  lemma LastRead(decode: Decoder, pieces: seq<string>, n: nat)
    requires n <= |pieces| && (n == |pieces| || After(decode, pieces, n).thrown)
    ensures After(decode, pieces, n) == Fold(decode, START, CompleteLines(Flatten(pieces)))
  {
    FlattenAppend(pieces[..n], pieces[n..]);
    assert pieces[..n] + pieces[n..] == pieces;
    if n == |pieces| {
      assert pieces[..n] == pieces;
    } else {
      ThrowingEnds(decode, Flatten(pieces[..n]), Flatten(pieces[n..]));
    }
  }

  /** `consumeOpenAICompatibleSSE`, over the decoded text of each read. The outcome and the
      callbacks are those of the line handler folded over the complete lines of the whole
      text: how the text is cut into reads makes no difference. */
  method Consume(decode: Decoder, pieces: seq<string>) returns (r: Outcome<Result>, callbacks: seq<Callback>)
    ensures var s := Fold(decode, START, CompleteLines(Flatten(pieces)));
      callbacks == s.callbacks && r.Threw? == s.thrown &&
      (!s.thrown ==> WellKeyed(s.calls) && r == Returned(ResultOf(s)))
  {
    var s := START;
    var buf := "";
    for i := 0 to |pieces|
      invariant buf == Buffered(pieces, i)
      invariant s == After(decode, pieces, i) && !s.thrown
    {
      OneMoreRead(decode, pieces, i);
      buf := buf + pieces[i];
      var lines := Split(buf, '\n');
      buf := lines[|lines| - 1];
      lines := lines[..|lines| - 1];
      s := HandleLines(decode, s, lines);
      if s.thrown {
        LastRead(decode, pieces, i + 1);
        return Threw("TypeError"), s.callbacks;
      }
    }
    LastRead(decode, pieces, |pieces|);
    WellKeyedFold(decode, START, CompleteLines(Flatten(pieces)));
    return Returned(ResultOf(s)), s.callbacks;
  }

  lemma FoldOne(decode: Decoder, s: State, line: string)
    requires !s.thrown
    ensures Fold(decode, s, [line]) == HandleLine(decode, s, line)
  {
    assert [line][1..] == [];
  }

  lemma FoldStopsHere(decode: Decoder, s: State, lines: seq<string>, n: nat)
    requires n <= |lines| && Fold(decode, s, lines[..n]).thrown
    ensures Fold(decode, s, lines) == Fold(decode, s, lines[..n])
  {
    FoldAppend(decode, s, lines[..n], lines[n..]);
    assert lines[..n] + lines[n..] == lines;
  }

  // ----- what is assembled -----

  /** The map's keys, each once, are the listed ones. */
  ghost predicate WellKeyed(calls: Calls)
  {
    Distinct(calls.order) && forall k :: k in calls.order <==> k in calls.entries
  }

  lemma {:induction false} WellKeyedFragments(calls: Calls, fs: seq<Fragment>)
    requires WellKeyed(calls)
    ensures WellKeyed(AddFragments(calls, fs).0)
    decreases |fs|
  {
    if fs != [] && fs[0].Fragment? {
      var k := fs[0].index;
      assert forall x :: x in AddFragment(calls, fs[0]).order <==> x in calls.order || x == k;
      WellKeyedFragments(AddFragment(calls, fs[0]), fs[1..]);
    }
  }

  lemma {:induction false} WellKeyedFold(decode: Decoder, s: State, lines: seq<string>)
    requires WellKeyed(s.calls)
    ensures WellKeyed(Fold(decode, s, lines).calls)
    decreases |lines|
  {
    if lines != [] && !s.thrown {
      match Payload(decode, lines[0]) {
        case None =>
        case Some(c) =>
          if c.Chunk? && c.toolCalls.Some? {
            WellKeyedFragments(s.calls, c.toolCalls.value);
          }
      }
      WellKeyedFold(decode, HandleLine(decode, s, lines[0]), lines[1..]);
    }
  }

  function FragmentsIn(decode: Decoder, line: string): seq<Fragment>
  {
    var c := Payload(decode, line);
    if c.Some? && c.value.Chunk? && c.value.toolCalls.Some? then c.value.toolCalls.value else []
  }

  function ContentIn(decode: Decoder, line: string): string
  {
    var c := Payload(decode, line);
    if c.Some? && c.value.Chunk? then Or(c.value.content, "") else ""
  }

  /** The fragments of all lines, in stream order. */
  function Fragments(decode: Decoder, lines: seq<string>): seq<Fragment>
  {
    Flatten(Map(line => FragmentsIn(decode, line), lines))
  }

  /** All content deltas, in stream order. */
  function Contents(decode: Decoder, lines: seq<string>): string
  {
    Flatten(Map(line => ContentIn(decode, line), lines))
  }

  lemma AddFirst(calls: Calls, f: Fragment, rest: seq<Fragment>)
    requires f.Fragment?
    ensures AddFragments(calls, [f] + rest) == AddFragments(AddFragment(calls, f), rest)
  {
    assert ([f] + rest)[1..] == rest;
  }

  lemma {:induction false} AddFragmentsAppend(calls: Calls, a: seq<Fragment>, b: seq<Fragment>)
    requires !AddFragments(calls, a).1
    ensures AddFragments(calls, a + b) == AddFragments(AddFragments(calls, a).0, b)
    decreases |a|
  {
    if a == [] {
      assert a + b == b;
    } else {
      var f, rest := a[0], a[1..];
      assert a == [f] + rest && a + b == [f] + (rest + b);
      AddFirst(calls, f, rest);
      AddFirst(calls, f, rest + b);
      AddFragmentsAppend(AddFragment(calls, f), rest, b);
    }
  }

  lemma ChunkCollects(s: State, c: Parsed)
    requires c.Chunk? && !HandleChunk(s, c).thrown
    ensures HandleChunk(s, c).content == s.content + Or(c.content, "")
    ensures c.toolCalls.Some? ==> AddFragments(s.calls, c.toolCalls.value) == (HandleChunk(s, c).calls, false)
    ensures c.toolCalls.None? ==> HandleChunk(s, c).calls == s.calls
  {
    assert s.content + "" == s.content;
  }

  lemma LineCollects(decode: Decoder, s: State, line: string)
    requires !HandleLine(decode, s, line).thrown
    ensures HandleLine(decode, s, line).content == s.content + ContentIn(decode, line)
    ensures AddFragments(s.calls, FragmentsIn(decode, line)) == (HandleLine(decode, s, line).calls, false)
  {
    match Payload(decode, line)
    case None => assert s.content + "" == s.content;
    case Some(c) => ChunkCollects(s, c);
  }

  lemma StepDidNotThrow(decode: Decoder, s: State, lines: seq<string>)
    requires lines != [] && !Fold(decode, s, lines).thrown
    ensures !HandleLine(decode, s, lines[0]).thrown
    ensures Fold(decode, s, lines) == Fold(decode, HandleLine(decode, s, lines[0]), lines[1..])
  {
  }

  lemma ContentsSplit(decode: Decoder, lines: seq<string>)
    requires lines != []
    ensures Contents(decode, lines) == ContentIn(decode, lines[0]) + Contents(decode, lines[1..])
  {
    assert Map(l => ContentIn(decode, l), lines)[1..] == Map(l => ContentIn(decode, l), lines[1..]);
  }

  /** A stream that does not throw gathers exactly its content deltas. */
  lemma {:induction false} ContentGathered(decode: Decoder, s: State, lines: seq<string>)
    requires !Fold(decode, s, lines).thrown
    ensures Fold(decode, s, lines).content == s.content + Contents(decode, lines)
    decreases |lines|
  {
    if lines == [] {
      assert s.content + "" == s.content;
    } else {
      StepDidNotThrow(decode, s, lines);
      LineCollects(decode, s, lines[0]);
      ContentGathered(decode, HandleLine(decode, s, lines[0]), lines[1..]);
      ContentsSplit(decode, lines);
      Assoc(s.content, ContentIn(decode, lines[0]), Contents(decode, lines[1..]));
    }
  }

  /** A stream that does not throw assembles exactly its fragments. */
  lemma {:induction false} FragmentsGathered(decode: Decoder, s: State, lines: seq<string>)
    requires !Fold(decode, s, lines).thrown
    ensures AddFragments(s.calls, Fragments(decode, lines)) == (Fold(decode, s, lines).calls, false)
    decreases |lines|
  {
    if lines != [] {
      StepDidNotThrow(decode, s, lines);
      LineCollects(decode, s, lines[0]);
      FragmentsGathered(decode, HandleLine(decode, s, lines[0]), lines[1..]);
      assert Map(l => FragmentsIn(decode, l), lines)[1..] == Map(l => FragmentsIn(decode, l), lines[1..]);
      AddFragmentsAppend(s.calls, FragmentsIn(decode, lines[0]), Fragments(decode, lines[1..]));
    }
  }

  /** The names, the arguments and the last id given for one index, in stream order. */
  function NameOf(fs: seq<Fragment>, k: Index): string
  {
    if fs == [] then "" else
    var f := fs[|fs| - 1];
    NameOf(fs[..|fs| - 1], k) + (if f.Fragment? && f.index == k then Or(f.name, "") else "")
  }

  function ArgumentsOf(fs: seq<Fragment>, k: Index): string
  {
    if fs == [] then "" else
    var f := fs[|fs| - 1];
    ArgumentsOf(fs[..|fs| - 1], k) + (if f.Fragment? && f.index == k then Or(f.arguments, "") else "")
  }

  function IdOf(fs: seq<Fragment>, k: Index): string
  {
    if fs == [] then "" else
    var f := fs[|fs| - 1];
    if f.Fragment? && f.index == k then Or(f.id, IdOf(fs[..|fs| - 1], k)) else IdOf(fs[..|fs| - 1], k)
  }

  /** The indices, in the order of their first fragments. */
  function FirstSeen(fs: seq<Fragment>): (ks: seq<Index>)
    ensures forall f :: f in fs && f.Fragment? ==> f.index in ks
  {
    if fs == [] then [] else
    var f := fs[|fs| - 1];
    var before := FirstSeen(fs[..|fs| - 1]);
    assert fs == fs[..|fs| - 1] + [f];
    if f.Fragment? && f.index !in before then before + [f.index] else before
  }

  /** What the map must hold once `fs` are in. */
  ghost predicate Assembles(calls: Calls, fs: seq<Fragment>)
  {
    && calls.order == FirstSeen(fs) && WellKeyed(calls)
    && forall k :: k in calls.order ==> calls.entries[k] == Call(IdOf(fs, k), NameOf(fs, k), ArgumentsOf(fs, k))
  }

  lemma LastFragment(fs: seq<Fragment>, f: Fragment, k: Index)
    requires f.Fragment?
    ensures NameOf(fs + [f], k) == NameOf(fs, k) + (if f.index == k then Or(f.name, "") else "")
    ensures ArgumentsOf(fs + [f], k) == ArgumentsOf(fs, k) + (if f.index == k then Or(f.arguments, "") else "")
    ensures IdOf(fs + [f], k) == if f.index == k then Or(f.id, IdOf(fs, k)) else IdOf(fs, k)
    ensures FirstSeen(fs + [f]) == if f.index in FirstSeen(fs) then FirstSeen(fs) else FirstSeen(fs) + [f.index]
  {
    assert (fs + [f])[..|fs|] == fs;
  }

  lemma OneMoreFragment(calls: Calls, fs: seq<Fragment>, f: Fragment)
    requires f.Fragment? && Assembles(calls, fs)
    ensures Assembles(AddFragment(calls, f), fs + [f])
  {
    var next := AddFragment(calls, f);
    LastFragment(fs, f, f.index);
    if f.index !in calls.entries {
      UnseenIsEmpty(fs, f.index);
    }
    forall k | k in next.order
      ensures next.entries[k] == Call(IdOf(fs + [f], k), NameOf(fs + [f], k), ArgumentsOf(fs + [f], k))
    {
      LastFragment(fs, f, k);
      if k != f.index {
        assert NameOf(fs, k) + "" == NameOf(fs, k) && ArgumentsOf(fs, k) + "" == ArgumentsOf(fs, k);
      }
    }
  }

  /** For each index the call returned is the concatenation of that index's fragments, and the
      calls come in the order of their first fragments. */
  lemma {:induction false} CallsAreConcatenations(fs: seq<Fragment>)
    requires forall f :: f in fs ==> f.Fragment?
    ensures !AddFragments(NO_CALLS, fs).1 && Assembles(AddFragments(NO_CALLS, fs).0, fs)
    decreases |fs|
  {
    if fs != [] {
      var before, f := fs[..|fs| - 1], fs[|fs| - 1];
      assert fs == before + [f] && f in fs;
      CallsAreConcatenations(before);
      AddFragmentsAppend(NO_CALLS, before, [f]);
      assert [f][1..] == [];
      OneMoreFragment(AddFragments(NO_CALLS, before).0, before, f);
    }
  }

  lemma {:induction false} UnseenIsEmpty(fs: seq<Fragment>, k: Index)
    requires k !in FirstSeen(fs)
    ensures NameOf(fs, k) == "" && ArgumentsOf(fs, k) == "" && IdOf(fs, k) == ""
  {
    if fs != [] {
      var n := |fs| - 1;
      assert fs[n] in fs;
      assert k !in FirstSeen(fs[..n]);
      UnseenIsEmpty(fs[..n], k);
    }
  }

  /** Adjacent fragments of two calls that are both open may arrive in either order. */
  lemma OpenCallsInterleave(calls: Calls, f: Fragment, g: Fragment)
    requires f.Fragment? && g.Fragment? && f.index != g.index
    requires f.index in calls.entries && g.index in calls.entries
    ensures AddFragment(AddFragment(calls, f), g) == AddFragment(AddFragment(calls, g), f)
  {
    var a, b := AddFragment(AddFragment(calls, f), g), AddFragment(AddFragment(calls, g), f);
    assert a.entries == b.entries;
  }

  /** Adding fragments that do not throw means that none of them is null. */
  lemma {:induction false} NoNullFragments(calls: Calls, fs: seq<Fragment>)
    requires !AddFragments(calls, fs).1
    ensures forall f :: f in fs ==> f.Fragment?
    decreases |fs|
  {
    if fs != [] {
      NoNullFragments(AddFragment(calls, fs[0]), fs[1..]);
      assert forall f :: f in fs ==> f == fs[0] || f in fs[1..];
    }
  }

  /** The tool calls that a stream's fragments amount to. */
  function Assembled(fs: seq<Fragment>): seq<Call>
  {
    Map(k => Call(IdOf(fs, k), NameOf(fs, k), ArgumentsOf(fs, k)), FirstSeen(fs))
  }

  /** What a stream that does not throw returns: all its content deltas joined; and for each
      index, in the order of first fragments, the call made of that index's fragments. */
  lemma StreamReturnsItsParts(decode: Decoder, lines: seq<string>)
    requires !Fold(decode, START, lines).thrown
    ensures var s := Fold(decode, START, lines);
      WellKeyed(s.calls) && ResultOf(s).content == Contents(decode, lines) &&
      ResultOf(s).toolCalls == Assembled(Fragments(decode, lines))
  {
    var s, fs := Fold(decode, START, lines), Fragments(decode, lines);
    ContentGathered(decode, START, lines);
    FragmentsGathered(decode, START, lines);
    NoNullFragments(NO_CALLS, fs);
    CallsAreConcatenations(fs);
    assert "" + Contents(decode, lines) == Contents(decode, lines);
    var calls := ResultOf(s).toolCalls;
    forall i | 0 <= i < |calls| ensures calls[i] == Assembled(fs)[i] {
      assert s.calls.order[i] in s.calls.order;
    }
  }

  /** In a whole stream: swapping two adjacent fragments of different calls that earlier
      fragments have opened changes nothing, and throws no more and no less. */
  lemma SwapInStream(calls: Calls, before: seq<Fragment>, f: Fragment, g: Fragment, after: seq<Fragment>)
    requires f.Fragment? && g.Fragment? && f.index != g.index
    requires !AddFragments(calls, before).1
    requires var open := AddFragments(calls, before).0; f.index in open.entries && g.index in open.entries
    ensures AddFragments(calls, before + ([f, g] + after)) == AddFragments(calls, before + ([g, f] + after))
  {
    var open := AddFragments(calls, before).0;
    AddFragmentsAppend(calls, before, [f, g] + after);
    AddFragmentsAppend(calls, before, [g, f] + after);
    AddTwo(open, f, g, after);
    AddTwo(open, g, f, after);
    OpenCallsInterleave(open, f, g);
  }

  lemma AddTwo(calls: Calls, f: Fragment, g: Fragment, rest: seq<Fragment>)
    requires f.Fragment? && g.Fragment?
    ensures AddFragments(calls, [f, g] + rest) == AddFragments(AddFragment(AddFragment(calls, f), g), rest)
  {
    assert [f, g] + rest == [f] + ([g] + rest);
    AddFirst(calls, f, [g] + rest);
    AddFirst(AddFragment(calls, f), g, rest);
  }

  // ----- lines as the provider sends them -----

  /** Handling a line that carries a chunk, field by field. */
  lemma DataLine(decode: Decoder, s: State, text: string, finish: Option<string>, content: Option<string>,
                 toolCalls: Option<seq<Fragment>>, usage: Option<Usage>)
    requires Trim(text) != "[DONE]" && decode(Trim(text)) == Chunk(finish, content, toolCalls, usage)
    requires !s.thrown
    ensures var next := HandleLine(decode, s, "data: " + text);
      var delta := if content.Some? then content.value else "";
      && next.content == s.content + delta
      && (next.calls, next.thrown) ==
           (if toolCalls.Some? then AddFragments(s.calls, toolCalls.value) else (s.calls, false))
      && next.finish == (if finish.Some? && finish.value != "" then finish else s.finish)
      && next.usage == (if usage.Some? && usage.value.totalTokens != 0 && !next.thrown then usage.value else s.usage)
      && next.toolCallSeen == (s.toolCallSeen || toolCalls.Some?)
      && next.callbacks == s.callbacks +
           (if delta != "" && !s.toolCallSeen then [Token(delta)] else []) +
           (if toolCalls.Some? && !s.toolCallSeen then [FirstToolCall] else [])
  {
    assert ("data: " + text)[6..] == text;
    assert "data: " <= "data: " + text;
    assert s.content + "" == s.content;
    assert s.callbacks + [] == s.callbacks;
  }

  /** A line of another kind changes nothing: one without the prefix, the last one of a stream,
      and one that is not JSON. */
  lemma IdleLine(decode: Decoder, s: State, line: string)
    requires !("data: " <= line) || Trim(line[6..]) == "[DONE]" || decode(Trim(line[6..])).NotJson?
    ensures HandleLine(decode, s, line) == s
  {
  }

  /** A payload of `null` throws, and so does a null tool-call fragment; fragments before it count. */
  lemma NullsThrow(decode: Decoder, s: State, text: string, calls: Calls, before: seq<Fragment>, after: seq<Fragment>)
    requires Trim(text) != "[DONE]" && !AddFragments(calls, before).1
    ensures decode(Trim(text)) == JsonNull ==> HandleLine(decode, s, "data: " + text) == s.(thrown := true)
    ensures AddFragments(calls, before + ([NullFragment] + after)) == (AddFragments(calls, before).0, true)
  {
    assert ("data: " + text)[6..] == text;
    AddFragmentsAppend(calls, before, [NullFragment] + after);
  }

  /** The chunk that a line carries is `c`, or it carries none. */
  ghost predicate Carries(decode: Decoder, line: string, c: Option<Parsed>)
  {
    match c
    case None => !("data: " <= line) || Trim(line[6..]) == "[DONE]" || decode(Trim(line[6..])).NotJson?
    case Some(chunk) =>
      "data: " <= line && Trim(line[6..]) != "[DONE]" && decode(Trim(line[6..])) == chunk && chunk.Chunk?
  }

  ghost predicate Chunks(cs: seq<Option<Parsed>>)
  {
    forall i :: 0 <= i < |cs| && cs[i].Some? ==> cs[i].value.Chunk?
  }

  /** All content deltas of the chunks, and all their fragments, in order. */
  ghost function AllContent(cs: seq<Option<Parsed>>): string
    requires Chunks(cs)
  {
    if cs == [] then "" else
    var c := cs[|cs| - 1];
    AllContent(cs[..|cs| - 1]) + (if c.Some? && c.value.content.Some? then c.value.content.value else "")
  }

  ghost function AllFragments(cs: seq<Option<Parsed>>): seq<Fragment>
    requires Chunks(cs)
  {
    if cs == [] then [] else
    var c := cs[|cs| - 1];
    AllFragments(cs[..|cs| - 1]) + (if c.Some? && c.value.toolCalls.Some? then c.value.toolCalls.value else [])
  }

  /** The last finish reason that is not empty, and the last usage whose total is not zero. */
  ghost function LastFinish(cs: seq<Option<Parsed>>): Option<string>
    requires Chunks(cs)
  {
    if cs == [] then None else
    var c := cs[|cs| - 1];
    if c.Some? && c.value.finish.Some? && c.value.finish.value != "" then c.value.finish else LastFinish(cs[..|cs| - 1])
  }

  ghost function LastUsage(cs: seq<Option<Parsed>>): Option<Usage>
    requires Chunks(cs)
  {
    if cs == [] then None else
    var c := cs[|cs| - 1];
    if c.Some? && c.value.usage.Some? && c.value.usage.value.totalTokens != 0 then c.value.usage
    else LastUsage(cs[..|cs| - 1])
  }

  /** What the state holds after lines that carry `cs`. */
  ghost predicate Holds(s: State, cs: seq<Option<Parsed>>)
    requires Chunks(cs)
  {
    && s.content == AllContent(cs) && s.finish == LastFinish(cs)
    && AddFragments(NO_CALLS, AllFragments(cs)) == (s.calls, false)
    && s.usage == (if LastUsage(cs).Some? then LastUsage(cs).value else Usage(0, 0, 0))
  }

  lemma HoldsOneMore(decode: Decoder, s: State, cs: seq<Option<Parsed>>, line: string, c: Option<Parsed>)
    requires Chunks(cs) && Holds(s, cs) && Carries(decode, line, c) && !s.thrown
    requires !HandleLine(decode, s, line).thrown
    ensures Chunks(cs + [c]) && Holds(HandleLine(decode, s, line), cs + [c])
  {
    var more := cs + [c];
    assert more[..|more| - 1] == cs && more[|more| - 1] == c;
    assert AllContent(cs) + "" == AllContent(cs) && AllFragments(cs) + [] == AllFragments(cs);
    if c.Some? {
      var chunk := c.value;
      assert line == "data: " + line[6..];
      DataLine(decode, s, line[6..], chunk.finish, chunk.content, chunk.toolCalls, chunk.usage);
      if chunk.toolCalls.Some? {
        AddFragmentsAppend(NO_CALLS, AllFragments(cs), chunk.toolCalls.value);
      }
    } else {
      IdleLine(decode, s, line);
    }
  }

  lemma {:induction false} ChunksHeld(decode: Decoder, lines: seq<string>, cs: seq<Option<Parsed>>)
    requires |lines| == |cs| && forall i :: 0 <= i < |cs| ==> Carries(decode, lines[i], cs[i])
    requires !Fold(decode, START, lines).thrown
    ensures Chunks(cs) && Holds(Fold(decode, START, lines), cs)
    decreases |lines|
  {
    if lines != [] {
      var n := |lines| - 1;
      assert lines[..n] + [lines[n]] == lines && cs[..n] + [cs[n]] == cs;
      var before := Fold(decode, START, lines[..n]);
      FoldAppend(decode, START, lines[..n], [lines[n]]);
      if !before.thrown {
        ChunksHeld(decode, lines[..n], cs[..n]);
        FoldOne(decode, before, lines[n]);
        HoldsOneMore(decode, before, cs[..n], lines[n], cs[n]);
      }
    }
  }

  /** A whole stream, in terms of what its lines carry: all content deltas joined, the calls made
      of all fragments, the last finish reason, and the last usage if its total is positive. */
  lemma StreamOfChunks(decode: Decoder, lines: seq<string>, cs: seq<Option<Parsed>>)
    requires |lines| == |cs| && forall i :: 0 <= i < |cs| ==> Carries(decode, lines[i], cs[i])
    requires !Fold(decode, START, lines).thrown
    ensures Chunks(cs)
    ensures var s, usage := Fold(decode, START, lines), LastUsage(cs);
      WellKeyed(s.calls) &&
      ResultOf(s) == Result(AllContent(cs), Assembled(AllFragments(cs)),
                            if usage.Some? && usage.value.totalTokens > 0 then usage else None, LastFinish(cs))
  {
    ChunksHeld(decode, lines, cs);
    var s, fs := Fold(decode, START, lines), AllFragments(cs);
    NoNullFragments(NO_CALLS, fs);
    CallsAreConcatenations(fs);
    var calls := ResultOf(s).toolCalls;
    forall i | 0 <= i < |calls| ensures calls[i] == Assembled(fs)[i] {
      assert s.calls.order[i] in s.calls.order;
    }
  }

  // ----- callbacks -----

  function TokenText(callbacks: seq<Callback>): string
  {
    if callbacks == [] then "" else
    var last := callbacks[|callbacks| - 1];
    TokenText(callbacks[..|callbacks| - 1]) + (if last.Token? then last.text else "")
  }

  /** Tokens spell the content up to the first tool call, which is announced once, last. */
  ghost predicate CallbackOrder(s: State)
  {
    var n := |s.callbacks|;
    && TokenText(s.callbacks) <= s.content
    && (!s.toolCallSeen ==> TokenText(s.callbacks) == s.content && FirstToolCall !in s.callbacks)
    && (s.toolCallSeen ==> n > 0 && s.callbacks[n - 1] == FirstToolCall && FirstToolCall !in s.callbacks[..n - 1])
  }

  lemma {:induction false} CallbacksInOrder(decode: Decoder, s: State, lines: seq<string>)
    requires CallbackOrder(s)
    ensures CallbackOrder(Fold(decode, s, lines))
    decreases |lines|
  {
    if lines != [] && !s.thrown {
      match Payload(decode, lines[0]) {
        case None =>
        case Some(c) => if c.Chunk? { ChunkKeepsOrder(s, c); }
      }
      CallbacksInOrder(decode, HandleLine(decode, s, lines[0]), lines[1..]);
    }
  }

  lemma ContentKeepsOrder(s: State, text: string)
    requires CallbackOrder(s)
    ensures CallbackOrder(WithContent(s, text))
  {
    if text != "" && !s.toolCallSeen {
      var callbacks := s.callbacks + [Token(text)];
      assert callbacks[..|callbacks| - 1] == s.callbacks;
    }
  }

  lemma ToolCallsKeepOrder(s: State, fs: seq<Fragment>)
    requires CallbackOrder(s)
    ensures CallbackOrder(WithToolCalls(s, fs))
  {
    if !s.toolCallSeen {
      var callbacks := s.callbacks + [FirstToolCall];
      assert callbacks[..|callbacks| - 1] == s.callbacks;
      assert TokenText(callbacks) == TokenText(s.callbacks) + "";
    }
  }

  lemma ChunkKeepsOrder(s: State, c: Parsed)
    requires c.Chunk? && CallbackOrder(s)
    ensures CallbackOrder(HandleChunk(s, c))
  {
    var finished := if Or(c.finish, "") != "" then s.(finish := c.finish) else s;
    ContentKeepsOrder(finished, Or(c.content, ""));
    if c.toolCalls.Some? {
      ToolCallsKeepOrder(WithContent(finished, Or(c.content, "")), c.toolCalls.value);
    }
  }
}

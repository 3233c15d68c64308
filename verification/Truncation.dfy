/** Dropping conversation history to fit a token budget. */
module Truncation {
  import opened JsText

  datatype Role = System | User | Assistant | Tool

  datatype Section =
    | SystemAnchor | SystemRuntime | MemoryWorking | MemoryEpisodic | MemorySemantic
    | UserSection | History | OtherSection

  datatype Message = Message(role: Role, section: Option<Section>, content: string)

  /** The token estimate, the budget and the summary text are parameters. */
  datatype Config = Config(estimate: seq<Message> -> int, budget: int, summarize: seq<Message> -> string)

  // ----- slices -----

  function ClampIndex(i: int, n: nat): (r: nat)
    ensures r <= n
  {
    if i < 0 then (if n + i < 0 then 0 else n + i) else if i > n then n else i
  }

  /** `s.slice(from, to)`, where a negative index counts from the end. */
  function Slice<T>(s: seq<T>, from: int, to: int): seq<T>
  {
    var a, b := ClampIndex(from, |s|), ClampIndex(to, |s|);
    if a <= b then s[a..b] else []
  }

  // ----- growing the tail -----

  /** The shortened conversation that keeps `tail` messages at the end. */
  function Candidate(cfg: Config, messages: seq<Message>, tail: nat): seq<Message>
    requires tail >= 1
  {
    Slice(messages, 0, 2) +
    [Message(System, None, cfg.summarize(Slice(messages, 2, |messages| - tail)))] +
    Slice(messages, 0 - tail, |messages|)
  }

  predicate Over(cfg: Config, messages: seq<Message>, tail: nat)
    requires tail >= 1
  {
    cfg.estimate(Candidate(cfg, messages, tail)) > cfg.budget
  }

  /** The tails tried before `tail`: four, six, and so on. */
  ghost predicate AllFitBefore(cfg: Config, messages: seq<Message>, tail: nat)
  {
    forall t: nat :: 4 <= t < tail && t % 2 == 0 ==> !Over(cfg, messages, t)
  }

  /** How the loop stops: at a candidate over the budget, stepping back to the one before
      when there is one; or by running off the end. */
  ghost predicate Stops(cfg: Config, messages: seq<Message>, tail: nat, broke: bool)
  {
    && tail >= 4 && tail % 2 == 0
    && AllFitBefore(cfg, messages, tail)
    && if broke then
         (tail == 4 && 4 < |messages| - 2 && Over(cfg, messages, 4)) ||
         (tail + 2 < |messages| - 2 && !Over(cfg, messages, tail) && Over(cfg, messages, tail + 2))
       else
         tail >= |messages| - 2 && (tail == 4 || tail - 2 < |messages| - 2)
  }

  /** `truncateLegacy` */
  method TruncateLegacy(cfg: Config, messages: seq<Message>) returns (out: seq<Message>)
    ensures exists tail: nat, broke: bool :: Stops(cfg, messages, tail, broke) && out == Candidate(cfg, messages, tail)
  {
    var tailSize := 4;
    ghost var broke := false;
    while tailSize < |messages| - 2
      invariant tailSize >= 4 && tailSize % 2 == 0
      invariant tailSize == 4 || tailSize - 2 < |messages| - 2
      invariant AllFitBefore(cfg, messages, tailSize)
      invariant !broke
      decreases |messages| - tailSize
    {
      var candidate := Candidate(cfg, messages, tailSize);
      if cfg.estimate(candidate) > cfg.budget {
        broke := true;
        assert tailSize > 4 ==> !Over(cfg, messages, tailSize - 2);
        tailSize := if tailSize - 2 > 4 then tailSize - 2 else 4;
        break;
      }
      tailSize := tailSize + 2;
    }
    out := Candidate(cfg, messages, tailSize);
    assert Stops(cfg, messages, tailSize, broke);
  }

  /** The loop's exit is determined: only one tail and one way of stopping qualify. */
  lemma StopsOnce(cfg: Config, messages: seq<Message>, t: nat, b: bool, u: nat, c: bool)
    requires Stops(cfg, messages, t, b) && Stops(cfg, messages, u, c)
    ensures t == u && b == c
  {
  }

  /** Leaving by a break: the first two messages, one summary of those dropped, and an
      unmodified suffix of at least four, disjoint from the head; and it fits the budget
      unless the very first candidate was over it. */
  lemma BreakDropsTheMiddle(cfg: Config, messages: seq<Message>, tail: nat)
    requires Stops(cfg, messages, tail, true)
    ensures var cut := |messages| - tail;
      2 < cut && tail >= 4 &&
      messages == messages[..2] + messages[2..cut] + messages[cut..] &&
      Candidate(cfg, messages, tail) ==
        messages[..2] + [Message(System, None, cfg.summarize(messages[2..cut]))] + messages[cut..]
    ensures cfg.estimate(Candidate(cfg, messages, tail)) <= cfg.budget <==> !Over(cfg, messages, 4)
  {
    var n := |messages|;
    var cut := n - tail;
    assert 2 < cut;
    assert Slice(messages, 0, 2) == messages[..2] && Slice(messages, 2, cut) == messages[2..cut];
    assert Slice(messages, 0 - tail, n) == messages[cut..];
    assert messages == messages[..2] + messages[2..cut] + messages[cut..];
    assert tail > 4 ==> !Over(cfg, messages, 4);
  }

  /** Running off the end drops nothing: with an even number of messages the summary is put
      in; with an odd number message 1 comes twice; and up to four messages come all again. */
  lemma OffTheEndDropsNothing(cfg: Config, messages: seq<Message>, tail: nat)
    requires Stops(cfg, messages, tail, false)
    ensures var n, note := |messages|, Message(System, None, cfg.summarize([]));
      Candidate(cfg, messages, tail) ==
        (if n <= 2 then messages else messages[..2]) + [note] +
        (if n <= 4 then messages else if n % 2 == 0 then messages[2..] else messages[1..])
  {
    var n := |messages|;
    assert Slice(messages, 2, n - tail) == [];
    if n <= 4 {
      assert Slice(messages, 0 - tail, n) == messages;
    } else if n % 2 == 0 {
      assert tail == n - 2;
    } else {
      assert tail == n - 1;
    }
  }

  /** Putting messages in never lowers the estimate. */
  ghost predicate Monotone(cfg: Config)
  {
    forall a: seq<Message>, b: seq<Message>, c: seq<Message> ::
      cfg.estimate(a + c) <= cfg.estimate(a + (b + c))
  }

  lemma Inserting(cfg: Config, a: seq<Message>, b: seq<Message>, c: seq<Message>, whole: seq<Message>)
    requires Monotone(cfg) && cfg.estimate(whole) > cfg.budget && whole == a + c
    ensures cfg.estimate(a + (b + c)) > cfg.budget
  {
  }

  lemma OffTheEndStaysOver(cfg: Config, messages: seq<Message>, tail: nat)
    requires Stops(cfg, messages, tail, false)
    requires Monotone(cfg) && cfg.estimate(messages) > cfg.budget
    ensures cfg.estimate(Candidate(cfg, messages, tail)) > cfg.budget
  {
    OffTheEndDropsNothing(cfg, messages, tail);
    AddingStaysOver(cfg, messages, Message(System, None, cfg.summarize([])));
  }

  /** What running off the end returns is the conversation with something put in. */
  lemma AddingStaysOver(cfg: Config, messages: seq<Message>, note: Message)
    requires Monotone(cfg) && cfg.estimate(messages) > cfg.budget
    ensures var n := |messages|;
      cfg.estimate((if n <= 2 then messages else messages[..2]) + [note] +
        (if n <= 4 then messages else if n % 2 == 0 then messages[2..] else messages[1..])) > cfg.budget
  {
    var n := |messages|;
    if n <= 4 {
      var head := if n <= 2 then messages else messages[..2];
      Inserting(cfg, [], head + [note], messages, messages);
      assert [] + ((head + [note]) + messages) == head + [note] + messages;
    } else {
      var head, rest := messages[..2], messages[2..];
      assert head + rest == messages;
      Inserting(cfg, head, [note], rest, messages);
      Inserting(cfg, head, [note, messages[1]], rest, messages);
      assert head + ([note] + rest) == head + [note] + rest;
      assert messages[1..] == [messages[1]] + rest;
      assert head + ([note, messages[1]] + rest) == head + [note] + messages[1..];
    }
  }

  /** What this means for a conversation that is over the budget: truncation brings it under
      iff the shortest tail fits and a longer one, with something still to drop, does not. */
  lemma FitsExactlyWhen(cfg: Config, messages: seq<Message>, tail: nat, broke: bool)
    requires Stops(cfg, messages, tail, broke)
    requires Monotone(cfg) && cfg.estimate(messages) > cfg.budget
    ensures cfg.estimate(Candidate(cfg, messages, tail)) <= cfg.budget <==>
            !Over(cfg, messages, 4) &&
            exists t: nat :: 4 <= t < |messages| - 2 && t % 2 == 0 && Over(cfg, messages, t)
  {
    if broke {
      BreakDropsTheMiddle(cfg, messages, tail);
      assert !Over(cfg, messages, 4) ==> Over(cfg, messages, tail + 2);
    } else {
      OffTheEndStaysOver(cfg, messages, tail);
    }
  }

  // ----- dropping the oldest history -----

  predicate IsPreamble(m: Message)
  {
    m.role == System ||
    (m.section.Some? && m.section.value in {SystemAnchor, SystemRuntime, MemoryWorking, MemoryEpisodic, MemorySemantic})
  }

  predicate IsUserMessage(m: Message)
  {
    m.section == Some(UserSection) || (m.role == User && m.section.None?)
  }

  /** `messages.findIndex(p)` */
  function FindIndex(messages: seq<Message>, p: Message -> bool): (i: int)
    ensures -1 <= i < |messages|
    ensures i >= 0 ==> p(messages[i])
    ensures forall j :: 0 <= j < (if i < 0 then |messages| else i) ==> !p(messages[j])
  {
    if messages == [] then -1
    else if p(messages[0]) then 0
    else
      var i := FindIndex(messages[1..], p);
      if i < 0 then -1 else i + 1
  }

  function Max(a: int, b: int): int
  {
    if a < b then b else a
  }

  /** Where the part of the conversation that may be dropped starts. */
  function HistoryStart(messages: seq<Message>): (start: Option<nat>)
    ensures start.Some? ==> start.value <= |messages|
  {
    var systemEnd := FindIndex(messages, m => !IsPreamble(m));
    if systemEnd < 0 then None
    else Some(Max(systemEnd, FindIndex(messages, m => IsUserMessage(m)) + 1))
  }

  /** `dropOldestHistory` */
  function DropOldestHistory(cfg: Config, messages: seq<Message>): seq<Message>
  {
    if HistoryStart(messages).None? then messages
    else
      var historyStart := HistoryStart(messages).value;
      var head, tail := Slice(messages, 0, historyStart), Slice(messages, historyStart, |messages|);
      if |tail| <= 6 then messages
      else
        var keepCount := Max(6, |tail| / 2);
        head + [Message(System, Some(History), cfg.summarize(Slice(tail, 0, -keepCount)))] +
        Slice(tail, -keepCount, |tail|)
  }

  /** `out` is the conversation with the messages from `start` to `cut` summarised, and all
      others as they were: six after them, or half of the history if that is more. */
  ghost predicate MiddleSummarised(cfg: Config, messages: seq<Message>, out: seq<Message>, start: nat, cut: nat)
  {
    var kept, history := |messages| - cut, |messages| - start;
    && start < cut <= |messages|
    && kept >= 6 && history <= 2 * kept + 1 && (kept == 6 || 2 * kept <= history)
    && out == messages[..start] +
              [Message(System, Some(History), cfg.summarize(messages[start..cut]))] + messages[cut..]
  }

  /** What stays in front: the preamble, and all up to the first user message if there is one;
      and nothing more. There is no droppable part iff everything is preamble. */
  lemma HistoryStartsLate(messages: seq<Message>)
    ensures match HistoryStart(messages)
      case None => forall m :: m in messages ==> IsPreamble(m)
      case Some(start) =>
        (exists i :: 0 <= i <= start && i < |messages| && !IsPreamble(messages[i])) &&
        (forall j :: 0 <= j < |messages| && IsUserMessage(messages[j]) ==>
          exists i :: 0 <= i < start && IsUserMessage(messages[i])) &&
        ((forall j :: 0 <= j < start ==> IsPreamble(messages[j])) ||
         (IsUserMessage(messages[start - 1]) && forall j :: 0 <= j < start - 1 ==> !IsUserMessage(messages[j])))
  {
    var systemEnd := FindIndex(messages, m => !IsPreamble(m));
    var userIdx := FindIndex(messages, m => IsUserMessage(m));
    assert systemEnd >= 0 ==> !IsPreamble(messages[systemEnd]);
    assert userIdx >= 0 ==> IsUserMessage(messages[userIdx]);
  }

  /** Something goes iff more than six messages of history are there; and then only the middle
      of the conversation goes, from the start of the history on. It never grows. */
  lemma OnlyOldHistoryGoes(cfg: Config, messages: seq<Message>)
    ensures var out, start := DropOldestHistory(cfg, messages), HistoryStart(messages);
      |out| <= |messages| &&
      if start.None? || |messages| - start.value <= 6 then out == messages
      else exists cut :: MiddleSummarised(cfg, messages, out, start.value, cut)
  {
    if HistoryStart(messages).Some? {
      var start := HistoryStart(messages).value;
      var n := |messages| - start;
      if n > 6 {
        var keep := Max(6, n / 2);
        HistorySlices(messages, start, keep);
        assert MiddleSummarised(cfg, messages, DropOldestHistory(cfg, messages), start, |messages| - keep);
      }
    }
  }

  lemma HistorySlices(messages: seq<Message>, start: nat, keep: nat)
    requires start + keep < |messages| && keep > 0
    ensures Slice(messages, 0, start) == messages[..start]
    ensures var tail := Slice(messages, start, |messages|);
      |tail| == |messages| - start &&
      Slice(tail, 0, 0 - keep) == messages[start..|messages| - keep] &&
      Slice(tail, 0 - keep, |tail|) == messages[|messages| - keep..]
  {
    assert Slice(messages, start, |messages|) == messages[start..];
  }

  /** What a conversation opens with: system messages and the prompt's own sections. */
  ghost predicate Opening(messages: seq<Message>, n: nat)
  {
    n <= |messages| &&
    forall i :: 0 <= i < n ==>
      || messages[i].role == System
      || messages[i].section == Some(SystemAnchor) || messages[i].section == Some(SystemRuntime)
      || messages[i].section == Some(MemoryWorking) || messages[i].section == Some(MemoryEpisodic)
      || messages[i].section == Some(MemorySemantic)
  }

  lemma StartsPast(messages: seq<Message>, n: nat)
    requires Opening(messages, n) && HistoryStart(messages).Some?
    ensures n <= HistoryStart(messages).value
  {
    var systemEnd := FindIndex(messages, m => !IsPreamble(m));
    assert !IsPreamble(messages[systemEnd]);
  }

  /** The opening survives whole, at the start of what is returned. */
  lemma OpeningSurvives(cfg: Config, messages: seq<Message>, n: nat)
    requires Opening(messages, n)
    ensures messages[..n] <= DropOldestHistory(cfg, messages)
  {
    OnlyOldHistoryGoes(cfg, messages);
    if HistoryStart(messages).Some? && |messages| - HistoryStart(messages).value > 6 {
      var out, start := DropOldestHistory(cfg, messages), HistoryStart(messages).value;
      StartsPast(messages, n);
      var cut :| MiddleSummarised(cfg, messages, out, start, cut);
      assert out[..start] == messages[..start] && messages[..start][..n] == messages[..n];
    }
  }

  /** So does the first message of the user, with all that is before it. */
  lemma FirstUserMessageSurvives(cfg: Config, messages: seq<Message>, n: nat)
    requires n < |messages|
    requires messages[n].section == Some(UserSection) || (messages[n].role == User && messages[n].section == None)
    requires forall i :: 0 <= i < n ==>
               messages[i].section != Some(UserSection) && (messages[i].role != User || messages[i].section != None)
    ensures messages[..n + 1] <= DropOldestHistory(cfg, messages)
  {
    OnlyOldHistoryGoes(cfg, messages);
    if HistoryStart(messages).Some? && |messages| - HistoryStart(messages).value > 6 {
      var out, start := DropOldestHistory(cfg, messages), HistoryStart(messages).value;
      var userIdx := FindIndex(messages, m => IsUserMessage(m));
      assert userIdx == n;
      var cut :| MiddleSummarised(cfg, messages, out, start, cut);
      assert out[..start] == messages[..start] && messages[..start][..n + 1] == messages[..n + 1];
    }
  }
}

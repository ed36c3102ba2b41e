/**
 The conversation history of the main agent (internal/agent/main/agent.go): clean-up of
 tool-call fragments, and how it composes with appending and trimming.
 */
module History {

  datatype Role = System | User | Assistant | Tool

  datatype Message = Message(role: Role, content: string, toolCalls: seq<string>, toolCallID: string)

  const MAX_HISTORY := 20

  function CallIds(m: Message): set<string> {
    set id | id in m.toolCalls
  }

  /** The ids of the most recent assistant message that no tool message has answered since. */
  function Open(ms: seq<Message>): set<string> {
    if ms == [] then {} else
      var last := ms[|ms| - 1];
      var before := ms[..|ms| - 1];
      match last.role
      case Assistant => CallIds(last)
      case Tool => Open(before) - {last.toolCallID}
      case _ => Open(before)
  }

  predicate Fits(before: seq<Message>, m: Message) {
    m.role.Tool? ==> m.toolCallID in Open(before)
  }

  function Sanitize(ms: seq<Message>): seq<Message> {
    if ms == [] then [] else
      var last := ms[|ms| - 1];
      var before := ms[..|ms| - 1];
      if Fits(before, last) then Sanitize(before) + [last] else Sanitize(before)
  }

  // ------------------------------------------------- the loops of the code

  method SanitizeHistory(messages: seq<Message>) returns (out: seq<Message>)
    ensures out == Sanitize(messages)
    ensures WellFormed(out)
  {
    out := [];
    var pendingIDs: set<string> := {};
    for i := 0 to |messages|
      invariant out == Sanitize(messages[..i]) && pendingIDs == Open(messages[..i])
    {
      var m := messages[i];
      assert messages[..i + 1][..i] == messages[..i];
      match m.role {
        case Assistant =>
          pendingIDs := CallIds(m);
          out := out + [m];
        case Tool =>
          if |pendingIDs| > 0 && m.toolCallID in pendingIDs {
            pendingIDs := pendingIDs - {m.toolCallID};
            out := out + [m];
          }
        case _ =>
          out := out + [m];
      }
    }
    assert messages[..|messages|] == messages;
    SanitizeWellFormed(messages);
  }

  function WithUserMessage(history: seq<Message>, userMsg: Message): seq<Message> {
    history + [userMsg]
  }

  function TrimHistory(messages: seq<Message>, max: int): seq<Message> {
    if max <= 0 || |messages| <= max then messages else messages[|messages| - max..]
  }

  // ------------------------------------------------- tool messages and the calls they answer

  /** `a` is the last assistant message before `i` and calls `id`, still unanswered at `i`. */
  ghost predicate Answerable(ms: seq<Message>, a: int, i: int, id: string) {
    0 <= a < i <= |ms| && ms[a].role.Assistant? && id in ms[a].toolCalls
    && forall j :: a < j < i ==> !ms[j].role.Assistant? && !(ms[j].role.Tool? && ms[j].toolCallID == id)
  }

  /** Every tool message answers a still-unanswered call of the most recent assistant message. */
  ghost predicate WellFormed(ms: seq<Message>) {
    forall i :: 0 <= i < |ms| && ms[i].role.Tool? ==> exists a :: Answerable(ms, a, i, ms[i].toolCallID)
  }

  lemma {:induction false} OpenMeaning(ms: seq<Message>, i: int, id: string)
    requires 0 <= i <= |ms|
    ensures id in Open(ms[..i]) <==> exists a :: Answerable(ms, a, i, id)
  {
    if i > 0 {
      OpenMeaning(ms, i - 1, id);
      assert ms[..i][..i - 1] == ms[..i - 1];
      var m := ms[i - 1];
      if m.role.Assistant? {
        if id in m.toolCalls {
          assert Answerable(ms, i - 1, i, id);
        }
      } else if !(m.role.Tool? && m.toolCallID == id) {
        var k := i - 1;
        if a :| Answerable(ms, a, k, id) {
          assert Answerable(ms, a, i, id);
        }
        if a :| Answerable(ms, a, i, id) {
          assert Answerable(ms, a, i - 1, id);
        }
      }
    }
  }

  ghost predicate AllFit(ms: seq<Message>) {
    forall i :: 0 <= i < |ms| ==> Fits(ms[..i], ms[i])
  }

  lemma WellFormedMeansFit(ms: seq<Message>)
    ensures WellFormed(ms) <==> AllFit(ms)
  {
    hide Open, Answerable;
    forall i | 0 <= i < |ms|
      ensures ms[i].toolCallID in Open(ms[..i]) <==> exists a :: Answerable(ms, a, i, ms[i].toolCallID)
    {
      OpenMeaning(ms, i, ms[i].toolCallID);
    }
  }

  lemma AllFitInit(ms: seq<Message>, m: Message)
    ensures AllFit(ms + [m]) <==> AllFit(ms) && Fits(ms, m)
  {
    hide Fits;
    var all := ms + [m];
    assert forall i :: 0 <= i <= |ms| ==> all[..i] == ms[..i];
    assert ms[..|ms|] == ms;
    assert all[|ms|] == m;
  }

  lemma Snoc(ms: seq<Message>)
    requires ms != []
    ensures ms == ms[..|ms| - 1] + [ms[|ms| - 1]]
  {
  }

  lemma OpenSnoc(ms: seq<Message>, m: Message)
    ensures Open(ms + [m]) ==
            (if m.role.Assistant? then CallIds(m) else if m.role.Tool? then Open(ms) - {m.toolCallID} else Open(ms))
    ensures Sanitize(ms + [m]) == if Fits(ms, m) then Sanitize(ms) + [m] else Sanitize(ms)
  {
    assert (ms + [m])[..|ms|] == ms;
  }

  // ------------------------------------------------- algebra of the clean-up

  lemma {:induction false} SanitizeKeepsOpen(ms: seq<Message>)
    ensures Open(Sanitize(ms)) == Open(ms)
  {
    if ms != [] {
      SanitizeKeepsOpen(ms[..|ms| - 1]);
      OpenSnoc(Sanitize(ms[..|ms| - 1]), ms[|ms| - 1]);
    }
  }

  lemma SanitizeWellFormed(ms: seq<Message>)
    ensures WellFormed(Sanitize(ms))
  {
    SanitizeAllFit(ms);
    WellFormedMeansFit(Sanitize(ms));
  }

  lemma {:induction false} SanitizeAllFit(ms: seq<Message>)
    ensures AllFit(Sanitize(ms))
  {
    hide AllFit, Open;
    if ms == [] {
      NothingFits();
    } else {
      var before := ms[..|ms| - 1];
      SanitizeAllFit(before);
      SanitizeKeepsOpen(before);
      AllFitInit(Sanitize(before), ms[|ms| - 1]);
    }
  }

  lemma NothingFits()
    ensures AllFit([])
  {
  }

  /** The clean-up changes nothing exactly when there is nothing to clean. */
  lemma SanitizeFixesIff(ms: seq<Message>)
    ensures Sanitize(ms) == ms <==> WellFormed(ms)
  {
    hide WellFormed, Sanitize, AllFit;
    if Sanitize(ms) == ms {
      SanitizeWellFormed(ms);
    }
    WellFormedMeansFit(ms);
    if AllFit(ms) {
      SanitizeIdentity(ms);
    }
  }

  lemma {:induction false} SanitizeIdentity(ms: seq<Message>)
    requires AllFit(ms)
    ensures Sanitize(ms) == ms
  {
    hide AllFit, Fits;
    if ms != [] {
      Snoc(ms);
      AllFitInit(ms[..|ms| - 1], ms[|ms| - 1]);
      SanitizeIdentity(ms[..|ms| - 1]);
    }
  }

  lemma SanitizeIdempotent(ms: seq<Message>)
    ensures Sanitize(Sanitize(ms)) == Sanitize(ms)
  {
    hide Sanitize;
    SanitizeAllFit(ms);
    SanitizeIdentity(Sanitize(ms));
  }

  /** Cleaning a prefix first makes no difference, and the cleaned prefix stays a prefix. */
  lemma {:induction false} SanitizeAppend(a: seq<Message>, b: seq<Message>)
    ensures Sanitize(Sanitize(a) + b) == Sanitize(a + b)
    ensures Open(Sanitize(a) + b) == Open(a + b)
    ensures Sanitize(a) <= Sanitize(a + b)
    decreases |b|
  {
    hide Sanitize, Open;
    if b == [] {
      assert a + b == a && Sanitize(a) + b == Sanitize(a);
      SanitizeIdempotent(a);
      SanitizeKeepsOpen(a);
    } else {
      var b', m := b[..|b| - 1], b[|b| - 1];
      SanitizeAppend(a, b');
      assert a + b == (a + b') + [m] && Sanitize(a) + b == (Sanitize(a) + b') + [m];
      OpenSnoc(a + b', m);
      OpenSnoc(Sanitize(a) + b', m);
    }
  }

  /**
   The history committed by a successful round, before trimming, extends exactly the
   sequence the model was shown, and adds the whole of a run that is clean after it.
   */
  lemma CommitExtendsShown(history: seq<Message>, userMsg: Message, run: seq<Message>)
    requires userMsg.role.User?
    ensures var shown := WithUserMessage(Sanitize(history), userMsg);
            var committed := Sanitize(WithUserMessage(history, userMsg) + run);
            shown <= committed && (WellFormed(shown + run) ==> committed == shown + run)
  {
    var shown := WithUserMessage(Sanitize(history), userMsg);
    SanitizeAppend(WithUserMessage(history, userMsg), run);
    OpenSnoc(history, userMsg);
    assert shown == Sanitize(WithUserMessage(history, userMsg));
    SanitizeFixesIff(shown + run);
  }

  // ------------------------------------------------- suffixes

  ghost predicate HasAssistant(ms: seq<Message>) {
    exists i :: 0 <= i < |ms| && ms[i].role.Assistant?
  }

  /** The sequence without the tool messages that precede its first assistant message. */
  ghost function DropOrphans(ms: seq<Message>): seq<Message> {
    if ms == [] then [] else
      var last := ms[|ms| - 1];
      var before := ms[..|ms| - 1];
      if last.role.Tool? && !HasAssistant(before) then DropOrphans(before) else DropOrphans(before) + [last]
  }

  lemma HasAssistantSnoc(ms: seq<Message>, m: Message)
    ensures HasAssistant(ms + [m]) <==> HasAssistant(ms) || m.role.Assistant?
  {
    var all := ms + [m];
    assert all[|ms|] == m;
    if i :| 0 <= i < |ms| && ms[i].role.Assistant? {
      assert all[i].role.Assistant?;
    }
  }

  lemma NothingOpen()
    ensures Open([]) == {} && !HasAssistant([])
  {
  }

  lemma {:induction false} OpenOfSuffix(p: seq<Message>, ms: seq<Message>)
    ensures HasAssistant(ms) ==> Open(p + ms) == Open(ms)
    ensures !HasAssistant(ms) ==> Open(ms) == {}
    decreases |ms|
  {
    hide *;
    if ms == [] {
      NothingOpen();
    } else {
      var before, m := ms[..|ms| - 1], ms[|ms| - 1];
      OpenOfSuffix(p, before);
      assert ms == before + [m];
      assert p + ms == (p + before) + [m];
      HasAssistantSnoc(before, m);
      OpenSnoc(before, m);
      OpenSnoc(p + before, m);
    }
  }

  /** Cleaning a suffix of a well-formed sequence drops only the tool messages it orphaned. */
  lemma {:induction false} SanitizeSuffix(p: seq<Message>, ms: seq<Message>)
    requires AllFit(p + ms)
    ensures Sanitize(ms) == DropOrphans(ms)
    decreases |ms|
  {
    hide AllFit, HasAssistant, Open;
    if ms != [] {
      var before, m := ms[..|ms| - 1], ms[|ms| - 1];
      assert p + ms == (p + before) + [m];
      AllFitInit(p + before, m);
      SanitizeSuffix(p, before);
      OpenOfSuffix(p, before);
    }
  }

  /** What trimming leaves of a clean history needs only its orphaned head cleaned again. */
  lemma TrimThenSanitize(ms: seq<Message>)
    requires WellFormed(ms)
    ensures Sanitize(TrimHistory(ms, MAX_HISTORY)) == DropOrphans(TrimHistory(ms, MAX_HISTORY))
  {
    hide WellFormed, AllFit, Sanitize, DropOrphans;
    WellFormedMeansFit(ms);
    var kept := TrimHistory(ms, MAX_HISTORY);
    var cut := ms[..|ms| - |kept|];
    assert ms == cut + kept;
    SanitizeSuffix(cut, kept);
  }

  // ------------------------------------------------- maximality

  /** The messages whose mask bit is set, in order. */
  function Select(ms: seq<Message>, mask: seq<bool>): seq<Message>
    requires |ms| == |mask|
  {
    if ms == [] then [] else
      var rest := Select(ms[..|ms| - 1], mask[..|ms| - 1]);
      if mask[|ms| - 1] then rest + [ms[|ms| - 1]] else rest
  }

  predicate KeepsNonTools(ms: seq<Message>, mask: seq<bool>)
    requires |ms| == |mask|
  {
    forall i :: 0 <= i < |ms| && !ms[i].role.Tool? ==> mask[i]
  }

  /** The selection the clean-up makes. */
  function SanitizeMask(ms: seq<Message>): (mask: seq<bool>)
    ensures |mask| == |ms|
  {
    seq(|ms|, i requires 0 <= i < |ms| => Fits(ms[..i], ms[i]))
  }

  lemma {:induction false} SanitizeSelects(ms: seq<Message>)
    ensures Sanitize(ms) == Select(ms, SanitizeMask(ms)) && KeepsNonTools(ms, SanitizeMask(ms))
  {
    if ms != [] {
      var before := ms[..|ms| - 1];
      SanitizeSelects(before);
      assert forall i :: 0 <= i < |before| ==> ms[..i] == before[..i];
      assert SanitizeMask(ms)[..|ms| - 1] == SanitizeMask(before);
    }
  }

  /** No well-formed selection that keeps the other messages keeps more tool messages. */
  lemma SanitizeMaximal(ms: seq<Message>, mask: seq<bool>)
    requires |ms| == |mask| && KeepsNonTools(ms, mask) && WellFormed(Select(ms, mask))
    ensures |Select(ms, mask)| <= |Sanitize(ms)|
  {
    hide WellFormed, AllFit;
    WellFormedMeansFit(Select(ms, mask));
    SelectionDeficit(ms, mask);
  }

  /** One tool message: what it adds to the selection, and to what the selection can still answer. */
  lemma ToolStep(open: set<string>, chosenOpen: set<string>, id: string, kept: bool)
    requires open <= chosenOpen && (kept ==> id in chosenOpen)
    ensures var chosenOpen' := if kept then chosenOpen - {id} else chosenOpen;
            open - {id} <= chosenOpen'
            && (if kept then 1 else 0) + |chosenOpen' - (open - {id})|
               <= |chosenOpen - open| + (if id in open then 1 else 0)
  {
    var slack := chosenOpen - open;
    if kept {
      assert chosenOpen - {id} - (open - {id}) == slack - {id};
    } else if id in open {
      assert chosenOpen - (open - {id}) == slack + {id};
    } else {
      assert open - {id} == open;
    }
  }

  /** What a selection has kept less is at least what it can still answer beyond the clean-up. */
  lemma {:induction false} SelectionDeficit(ms: seq<Message>, mask: seq<bool>)
    requires |ms| == |mask| && KeepsNonTools(ms, mask) && AllFit(Select(ms, mask))
    ensures Open(ms) <= Open(Select(ms, mask))
    ensures |Select(ms, mask)| + |Open(Select(ms, mask)) - Open(ms)| <= |Sanitize(ms)|
  {
    if ms != [] {
      var before, m := ms[..|ms| - 1], ms[|ms| - 1];
      var mask' := mask[..|ms| - 1];
      var chosen := Select(before, mask');
      assert Select(ms, mask) == if mask[|ms| - 1] then chosen + [m] else chosen;
      assert Sanitize(ms) == if Fits(before, m) then Sanitize(before) + [m] else Sanitize(before);
      hide Open, Sanitize, Select, AllFit;
      Snoc(ms);
      AllFitInit(chosen, m);
      SelectionDeficit(before, mask');
      OpenSnoc(before, m);
      OpenSnoc(chosen, m);
      if m.role.Tool? {
        ToolStep(Open(before), Open(chosen), m.toolCallID, mask[|ms| - 1]);
      } else if m.role.Assistant? {
        assert CallIds(m) - CallIds(m) == {};
      }
    }
  }

  // ------------------------------------------------- strict providers

  /**
   The order that strict providers validate: every tool message comes right after the
   assistant message that calls it.
   */
  predicate StrictOrder(ms: seq<Message>) {
    forall i :: 0 <= i < |ms| && ms[i].role.Tool? ==>
      0 < i && ms[i - 1].role.Assistant? && ms[i].toolCallID in ms[i - 1].toolCalls
  }

  /** Between the assistant message `a` and `i` there are only tool messages it does not call. */
  predicate OnlyStrangers(ms: seq<Message>, a: int, i: int)
    requires 0 <= a < i <= |ms|
  {
    forall j :: a < j < i ==> ms[j].role.Tool? && ms[j].toolCallID !in ms[a].toolCalls
  }

  /** Each answer to an open call has nothing before it, back to its assistant message, but strangers. */
  ghost predicate AnswersPrompt(ms: seq<Message>) {
    forall a, i :: 0 <= a < i < |ms| && ms[i].role.Tool? && Answerable(ms, a, i, ms[i].toolCallID) ==>
      OnlyStrangers(ms, a, i)
  }

  lemma StrictSnoc(ms: seq<Message>, m: Message)
    ensures StrictOrder(ms + [m]) <==>
            StrictOrder(ms)
            && (m.role.Tool? ==> ms != [] && ms[|ms| - 1].role.Assistant? && m.toolCallID in ms[|ms| - 1].toolCalls)
  {
    var all := ms + [m];
    assert all[|ms|] == m && forall i :: 0 <= i < |ms| ==> all[i] == ms[i];
  }

  lemma SamePrefix(ms: seq<Message>, m: Message, a: int, i: int, id: string)
    requires 0 <= a < i <= |ms|
    ensures Answerable(ms + [m], a, i, id) <==> Answerable(ms, a, i, id)
    ensures OnlyStrangers(ms + [m], a, i) <==> OnlyStrangers(ms, a, i)
  {
    assert forall j :: 0 <= j < |ms| ==> (ms + [m])[j] == ms[j];
  }

  lemma PromptSnoc(ms: seq<Message>, m: Message)
    ensures AnswersPrompt(ms + [m]) <==>
            AnswersPrompt(ms)
            && (m.role.Tool? ==>
                  forall a :: 0 <= a < |ms| && Answerable(ms, a, |ms|, m.toolCallID) ==> OnlyStrangers(ms, a, |ms|))
  {
    var all := ms + [m];
    assert all[|ms|] == m && forall j :: 0 <= j < |ms| ==> all[j] == ms[j];
    hide Answerable, OnlyStrangers;
    forall a, i, id | 0 <= a < i <= |ms|
      ensures Answerable(all, a, i, id) <==> Answerable(ms, a, i, id)
      ensures OnlyStrangers(all, a, i) <==> OnlyStrangers(ms, a, i)
    {
      SamePrefix(ms, m, a, i, id);
    }
  }

  /** With only strangers after it, the assistant message ends the cleaned sequence. */
  lemma {:induction false} StrangersDropped(ms: seq<Message>, a: int)
    requires 0 <= a < |ms| && ms[a].role.Assistant? && OnlyStrangers(ms, a, |ms|)
    ensures Sanitize(ms) != [] && Sanitize(ms)[|Sanitize(ms)| - 1] == ms[a] && Open(ms) == CallIds(ms[a])
    decreases |ms|
  {
    if a < |ms| - 1 {
      StrangersDropped(ms[..|ms| - 1], a);
    }
  }

  /** A message after the last assistant message that is no stranger leaves something after it. */
  lemma {:induction false} InterruptionKept(ms: seq<Message>, a: int)
    requires 0 <= a < |ms| && ms[a].role.Assistant? && !OnlyStrangers(ms, a, |ms|)
    requires forall j :: a < j < |ms| ==> !ms[j].role.Assistant?
    ensures Sanitize(ms) != [] && !Sanitize(ms)[|Sanitize(ms)| - 1].role.Assistant?
    decreases |ms|
  {
    var before, m := ms[..|ms| - 1], ms[|ms| - 1];
    if !Fits(before, m) {
      OpenMeaning(before, |before|, m.toolCallID);
      assert before[..|before|] == before;
      if m.toolCallID in before[a].toolCalls {
        assert !Answerable(before, a, |before|, m.toolCallID);
      }
      hide Open, Answerable;
      assert !OnlyStrangers(before, a, |before|);
      InterruptionKept(before, a);
    }
  }

  /**
   Cleaning yields the order strict providers validate exactly when no answer to an open
   call was held up by another message.
   */
  lemma {:induction false} StrictIff(ms: seq<Message>)
    ensures StrictOrder(Sanitize(ms)) <==> AnswersPrompt(ms)
  {
    if ms != [] {
      var before, m := ms[..|ms| - 1], ms[|ms| - 1];
      StrictIff(before);
      Snoc(ms);
      PromptSnoc(before, m);
      StrictSnoc(Sanitize(before), m);
      OpenSnoc(before, m);
      OpenMeaning(before, |before|, m.toolCallID);
      assert before[..|before|] == before;
      hide Sanitize, Open, AnswersPrompt, StrictOrder;
      if m.role.Tool? {
        forall a | 0 <= a < |before| && Answerable(before, a, |before|, m.toolCallID)
          ensures OnlyStrangers(before, a, |before|) <==>
                  var kept := Sanitize(before);
                  kept != [] && kept[|kept| - 1].role.Assistant? && m.toolCallID in kept[|kept| - 1].toolCalls
        {
          if OnlyStrangers(before, a, |before|) {
            StrangersDropped(before, a);
          } else {
            InterruptionKept(before, a);
          }
        }
        hide Answerable, OnlyStrangers;
      }
    }
  }

  /** A user message between a call and its answer passes the clean-up and breaks the strict order. */
  lemma InterruptedCallKept(id: string, text: string)
    ensures var ms := [Message(Assistant, "", [id], ""), Message(User, text, [], ""), Message(Tool, text, [], id)];
            Sanitize(ms) == ms && !StrictOrder(ms)
  {
    var ms := [Message(Assistant, "", [id], ""), Message(User, text, [], ""), Message(Tool, text, [], id)];
    assert Answerable(ms, 0, 2, ms[2].toolCallID);
    SanitizeFixesIff(ms);
  }

  /** The calls left unanswered when the next assistant message came, one set for each such message. */
  function LeftOpen(ms: seq<Message>): seq<set<string>> {
    if ms == [] then [] else
      var last := ms[|ms| - 1];
      var before := ms[..|ms| - 1];
      if last.role.Assistant? then LeftOpen(before) + [Open(before)] else LeftOpen(before)
  }

  /** Cleaning drops no answer to an open call and no call: exactly the same calls stay unanswered. */
  lemma {:induction false} SanitizeKeepsUnanswered(ms: seq<Message>)
    ensures LeftOpen(Sanitize(ms)) == LeftOpen(ms) && Open(Sanitize(ms)) == Open(ms)
  {
    SanitizeKeepsOpen(ms);
    if ms != [] {
      var before, m := ms[..|ms| - 1], ms[|ms| - 1];
      SanitizeKeepsUnanswered(before);
      hide Open;
      assert (Sanitize(before) + [m])[..|Sanitize(before)|] == Sanitize(before);
    }
  }
}

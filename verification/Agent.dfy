/**
 The main agent object: it commits rounds to its history, drains its todo queue and
 polls it (internal/agent/main/agent.go).
 */
module Agent {
  import opened Text
  import opened Sorting
  import Todo
  import opened History
  import opened Drain

  function UserMessage(prompt: string): Message {
    Message(User, prompt, [], "")
  }

  /** What the model is shown in a round that starts with `history`. */
  function Shown(history: seq<Message>, r: Round): seq<Message> {
    WithUserMessage(Sanitize(history), UserMessage(r.prompt))
  }

  /** The history after a round: a failed round leaves it alone. */
  function Committed(history: seq<Message>, r: Round): seq<Message> {
    if r.ok then TrimHistory(Sanitize(WithUserMessage(history, UserMessage(r.prompt)) + r.msgs), MAX_HISTORY)
    else history
  }

  function HistoryAfter(history: seq<Message>, rounds: seq<Round>): seq<Message> {
    if rounds == [] then history
    else Committed(HistoryAfter(history, rounds[..|rounds| - 1]), rounds[|rounds| - 1])
  }

  lemma HistoryAfterNone(history: seq<Message>)
    ensures HistoryAfter(history, []) == history
  {
  }

  lemma {:induction false} HistoryAfterBoth(history: seq<Message>, a: seq<Round>, b: seq<Round>)
    ensures HistoryAfter(history, a + b) == HistoryAfter(HistoryAfter(history, a), b)
    decreases |b|
  {
    hide Committed;
    if b == [] {
      assert a + b == a;
    } else {
      HistoryAfterBoth(history, a, b[..|b| - 1]);
      assert (a + b)[..|a + b| - 1] == a + b[..|b| - 1];
    }
  }

  ghost predicate EndOfClean(history: seq<Message>) {
    exists p :: WellFormed(p + history)
  }

  lemma CommittedEndsClean(history: seq<Message>, r: Round)
    requires EndOfClean(history)
    ensures EndOfClean(Committed(history, r))
  {
    hide WellFormed, Sanitize;
    if r.ok {
      var whole := Sanitize(WithUserMessage(history, UserMessage(r.prompt)) + r.msgs);
      SanitizeWellFormed(WithUserMessage(history, UserMessage(r.prompt)) + r.msgs);
      var kept := Committed(history, r);
      assert whole[..|whole| - |kept|] + kept == whole;
    }
  }

  lemma {:induction false} HistoryEndsClean(rounds: seq<Round>)
    ensures EndOfClean(HistoryAfter([], rounds))
  {
    hide WellFormed, Committed, EndOfClean;
    if rounds == [] {
      NothingIsClean();
    } else {
      HistoryEndsClean(rounds[..|rounds| - 1]);
      CommittedEndsClean(HistoryAfter([], rounds[..|rounds| - 1]), rounds[|rounds| - 1]);
    }
  }

  lemma NothingIsClean()
    ensures EndOfClean([])
  {
    assert WellFormed([] + []);
  }

  /**
   Over any run the stored history holds at most 20 messages and the model is shown at
   most 21: the stored ones less the tool messages that trimming cut off from their
   assistant message, then the prompt, with no tool message that answers no open call.
   */
  lemma ModelInput(rounds: seq<Round>, next: Round)
    ensures var history := HistoryAfter([], rounds);
            && |history| <= MAX_HISTORY && |Shown(history, next)| <= MAX_HISTORY + 1
            && Shown(history, next) == DropOrphans(history) + [UserMessage(next.prompt)]
            && WellFormed(Shown(history, next))
  {
    var history := HistoryAfter([], rounds);
    HistoryBounded([], rounds);
    SanitizeShrinks(history);
    ShownWellFormed(history, next);
    HistoryEndsClean(rounds);
    hide WellFormed, Sanitize, DropOrphans, HistoryAfter;
    var p :| WellFormed(p + history);
    WellFormedMeansFit(p + history);
    SanitizeSuffix(p, history);
  }

  lemma {:induction false} HistoryBounded(history: seq<Message>, rounds: seq<Round>)
    requires |history| <= MAX_HISTORY
    ensures |HistoryAfter(history, rounds)| <= MAX_HISTORY
  {
    hide Sanitize;
    if rounds != [] {
      HistoryBounded(history, rounds[..|rounds| - 1]);
    }
  }

  lemma {:induction false} SanitizeShrinks(ms: seq<Message>)
    ensures |Sanitize(ms)| <= |ms|
  {
    if ms != [] {
      SanitizeShrinks(ms[..|ms| - 1]);
    }
  }

  lemma ShownWellFormed(history: seq<Message>, r: Round)
    ensures WellFormed(Shown(history, r))
  {
    SanitizeAllFit(history);
    AllFitInit(Sanitize(history), UserMessage(r.prompt));
    WellFormedMeansFit(Shown(history, r));
  }

  // ------------------------------------------------- strict order over a whole run

  ghost predicate EndOfStrict(history: seq<Message>) {
    exists p :: StrictOrder(p + history)
  }

  /** Nothing holds up an answer in what trimming leaves of a strict sequence. */
  lemma SuffixIsPrompt(p: seq<Message>, ms: seq<Message>)
    requires StrictOrder(p + ms)
    ensures AnswersPrompt(ms)
  {
    forall a, i | 0 <= a < i < |ms| && ms[i].role.Tool? && Answerable(ms, a, i, ms[i].toolCallID)
      ensures OnlyStrangers(ms, a, i)
    {
      assert (p + ms)[|p| + i] == ms[i] && (p + ms)[|p| + i - 1] == ms[i - 1];
    }
  }

  lemma StrictConcat(a: seq<Message>, b: seq<Message>)
    requires StrictOrder(a) && StrictOrder(b)
    ensures StrictOrder(a + b)
  {
  }

  /** What the model is shown has the strict order exactly when the stored history answers promptly. */
  lemma ShownStrictIff(history: seq<Message>, next: Round)
    ensures StrictOrder(Shown(history, next)) <==> AnswersPrompt(history)
  {
    hide StrictOrder, AnswersPrompt, Sanitize;
    StrictIff(history);
    StrictSnoc(Sanitize(history), UserMessage(next.prompt));
  }

  lemma CommittedEndsStrict(history: seq<Message>, r: Round)
    requires EndOfStrict(history) && (r.ok ==> StrictOrder(r.msgs))
    ensures EndOfStrict(Committed(history, r))
  {
    hide StrictOrder, AnswersPrompt, Sanitize;
    if r.ok {
      var p :| StrictOrder(p + history);
      var user := UserMessage(r.prompt);
      var all := WithUserMessage(history, user) + r.msgs;
      StrictSnoc(p + history, user);
      StrictConcat(p + history + [user], r.msgs);
      assert p + history + [user] + r.msgs == p + all;
      SuffixIsPrompt(p, all);
      StrictIff(all);
      var whole, kept := Sanitize(all), Committed(history, r);
      assert whole[..|whole| - |kept|] + kept == whole;
    }
  }

  lemma {:induction false} HistoryEndsStrict(rounds: seq<Round>)
    requires forall j :: 0 <= j < |rounds| && rounds[j].ok ==> StrictOrder(rounds[j].msgs)
    ensures EndOfStrict(HistoryAfter([], rounds))
  {
    hide StrictOrder, Committed;
    if rounds == [] {
      NothingIsStrict();
    } else {
      HistoryEndsStrict(rounds[..|rounds| - 1]);
      CommittedEndsStrict(HistoryAfter([], rounds[..|rounds| - 1]), rounds[|rounds| - 1]);
    }
  }

  lemma NothingIsStrict()
    ensures EndOfStrict([])
  {
    assert StrictOrder([] + []);
  }

  /**
   Over any run, however often the history was trimmed, the model is shown the strict
   order as long as the messages of every successful round have it.
   */
  lemma ModelInputStrict(rounds: seq<Round>, next: Round)
    requires forall j :: 0 <= j < |rounds| && rounds[j].ok ==> StrictOrder(rounds[j].msgs)
    ensures StrictOrder(Shown(HistoryAfter([], rounds), next))
  {
    hide StrictOrder, AnswersPrompt, HistoryAfter, Shown;
    HistoryEndsStrict(rounds);
    var history := HistoryAfter([], rounds);
    var p :| StrictOrder(p + history);
    SuffixIsPrompt(p, history);
    ShownStrictIff(history, next);
  }

  // ------------------------------------------------- what is remembered over a whole run

  lemma TrimKeepsNewest(whole: seq<Message>)
    ensures var kept := TrimHistory(whole, MAX_HISTORY);
            |kept| == (if |whole| <= 20 then |whole| else 20) && exists cut :: whole == cut + kept
  {
    var kept := TrimHistory(whole, MAX_HISTORY);
    assert whole == whole[..|whole| - |kept|] + kept;
  }

  /** Every message of the successful rounds, prompts included, nothing cleaned or trimmed. */
  function Conversation(rounds: seq<Round>): seq<Message> {
    if rounds == [] then [] else
      var before, last := Conversation(rounds[..|rounds| - 1]), rounds[|rounds| - 1];
      if last.ok then before + [Message(User, last.prompt, [], "")] + last.msgs else before
  }

  /** What cleaning keeps of a sequence up to any point is what it keeps of some prefix. */
  lemma {:induction false} CutBack(ms: seq<Message>, m: nat) returns (j: nat)
    requires m <= |Sanitize(ms)|
    ensures j <= |ms| && Sanitize(ms[..j]) == Sanitize(ms)[..m]
    decreases |ms|
  {
    hide Fits;
    if m == |Sanitize(ms)| {
      assert ms[..|ms|] == ms;
      return |ms|;
    }
    j := CutBack(ms[..|ms| - 1], m);
    assert ms[..|ms| - 1][..j] == ms[..j];
  }

  /** Cleaning what survived of `b` after `a` is cleaning `b` by itself. */
  lemma {:induction false} CleanTail(a: seq<Message>, b: seq<Message>)
    ensures Sanitize(a) <= Sanitize(a + b)
    ensures Sanitize(Sanitize(a + b)[|Sanitize(a)|..]) == Sanitize(b)
    decreases |b|
  {
    hide Sanitize, Open;
    SanitizeAppend(a, b);
    if b == [] {
      assert a + b == a && Sanitize(a)[|Sanitize(a)|..] == [];
    } else {
      var b', m := b[..|b| - 1], b[|b| - 1];
      CleanTail(a, b');
      var kept := Sanitize(a + b')[|Sanitize(a)|..];
      assert a + b == (a + b') + [m] && b == b' + [m];
      OpenSnoc(a + b', m);
      OpenSnoc(b', m);
      OpenSnoc(kept, m);
      SanitizeKeepsOpen(kept);
      SanitizeKeepsOpen(b');
      OpenOfSuffix(a, b');
      if Fits(a + b', m) {
        assert Sanitize(a + b)[|Sanitize(a)|..] == kept + [m];
      }
    }
  }

  lemma CommitTail(history: seq<Message>, talk: seq<Message>, n: nat, r: Round) returns (n': nat)
    requires n <= |talk| && Sanitize(history) == Sanitize(talk[n..]) && r.ok
    ensures var talk' := talk + [UserMessage(r.prompt)] + r.msgs;
            n' <= |talk'| && Sanitize(Committed(history, r)) == Sanitize(talk'[n'..])
  {
    hide Sanitize, Open;
    var added := [UserMessage(r.prompt)] + r.msgs;
    var talk' := talk + [UserMessage(r.prompt)] + r.msgs;
    assert talk' == talk + added && talk'[n..] == talk[n..] + added;
    assert WithUserMessage(history, UserMessage(r.prompt)) + r.msgs == history + added;
    SanitizeAppend(history, added);
    SanitizeAppend(talk[n..], added);
    var whole := Sanitize(talk'[n..]);
    assert whole == Sanitize(history + added);
    var kept := Committed(history, r);
    TrimKeepsNewest(whole);
    var cut :| whole == cut + kept;
    var j := CutBack(talk'[n..], |cut|);
    CleanTail(talk'[n..][..j], talk'[n..][j..]);
    assert talk'[n..][..j] + talk'[n..][j..] == talk'[n..];
    assert whole[|cut|..] == kept && |whole[..|cut|]| == |cut|;
    n' := n + j;
    assert talk'[n'..] == talk'[n..][j..];
  }

  /**
   What the model is shown is always the clean-up of the last part of the whole
   conversation, up to its last message, and then the new prompt.
   */
  lemma {:induction false} ShowsConversationTail(rounds: seq<Round>, next: Round) returns (n: nat)
    ensures var talk := Conversation(rounds);
            && n <= |talk| && Sanitize(HistoryAfter([], rounds)) == Sanitize(talk[n..])
            && Shown(HistoryAfter([], rounds), next) == Sanitize(talk[n..]) + [Message(User, next.prompt, [], "")]
    decreases |rounds|
  {
    hide Sanitize, Committed;
    n := 0;
    if rounds != [] {
      var before, last := rounds[..|rounds| - 1], rounds[|rounds| - 1];
      n := ShowsConversationTail(before, last);
      if last.ok {
        n := CommitTail(HistoryAfter([], before), Conversation(before), n, last);
      } else {
        FailedRoundForgotten(HistoryAfter([], before), last);
      }
    }
  }

  lemma FailedRoundForgotten(history: seq<Message>, r: Round)
    requires !r.ok
    ensures Committed(history, r) == history
  {
  }

  /** And nothing but trimming forgets: a cleaned conversation of up to 20 messages is stored whole. */
  lemma {:induction false} ShortConversationKept(rounds: seq<Round>)
    requires |Sanitize(Conversation(rounds))| <= 20
    ensures HistoryAfter([], rounds) == Sanitize(Conversation(rounds))
    decreases |rounds|
  {
    hide Open;
    if rounds != [] {
      hide Sanitize;
      var before, last := rounds[..|rounds| - 1], rounds[|rounds| - 1];
      if last.ok {
        var talk, added := Conversation(before), [UserMessage(last.prompt)] + last.msgs;
        assert Conversation(rounds) == talk + added;
        SanitizeAppend(talk, added);
        ShortConversationKept(before);
        assert WithUserMessage(Sanitize(talk), UserMessage(last.prompt)) + last.msgs == Sanitize(talk) + added;
      } else {
        ShortConversationKept(before);
      }
    }
  }

  class MainAgent {
    const todo: Todo.Store
    var history: seq<Message>

    ghost predicate Valid()
      reads this, todo
    {
      todo.Valid() && |history| <= MAX_HISTORY
    }

    constructor ()
      ensures Valid() && fresh(todo) && history == [] && todo.View() == Todo.EMPTY_QUEUE
    {
      todo := new Todo.Store();
      history := [];
    }

    /** What producers and the model's tools do to the queue, one call after the other. */
    method Perform(ops: seq<Todo.Op>)
      requires todo.Valid()
      modifies todo
      ensures todo.Valid() && todo.View() == Todo.Run(old(todo.View()), ops)
    {
      for i := 0 to |ops|
        invariant todo.Valid()
        invariant Todo.Run(todo.View(), ops[i..]) == Todo.Run(old(todo.View()), ops)
      {
        match ops[i] {
          case Add(item, clock) =>
            var _ := todo.Add(item, clock);
          case Complete(id) =>
            var _ := todo.Complete(id);
        }
      }
    }

    method RunOnce(r: Round) returns (ok: bool, runHistory: seq<Message>)
      requires Valid()
      modifies this`history, todo
      ensures Valid() && todo.View() == Todo.Run(old(todo.View()), r.ops)
      ensures ok == r.ok && history == Committed(old(history), r)
      ensures runHistory == Shown(old(history), r) && |runHistory| <= MAX_HISTORY + 1
      ensures runHistory == Sanitize(old(history)) + [Message(User, r.prompt, [], "")]
      ensures !ok ==> history == old(history)
      ensures ok ==>
                var whole := Sanitize(old(history) + [Message(User, r.prompt, [], "")] + r.msgs);
                |history| == (if |whole| <= 20 then |whole| else 20) && exists cut :: whole == cut + history
    {
      var clean := SanitizeHistory(history);
      SanitizeShrinks(history);
      runHistory := WithUserMessage(clean, UserMessage(r.prompt));
      Perform(r.ops);
      ok := r.ok;
      if ok {
        var whole := SanitizeHistory(WithUserMessage(history, UserMessage(r.prompt)) + r.msgs);
        TrimKeepsNewest(whole);
        history := TrimHistory(whole, MAX_HISTORY);
      }
    }

    method DrainTodoList(env: Rounds) returns (rounds: nat, exit: Exit)
      requires Valid()
      modifies this`history, todo
      ensures Valid()
      ensures Drained(todo.View(), rounds, exit) == DrainAll(old(todo.View()), env)
      ensures history == HistoryAfter(old(history), First(env, rounds))
    {
      hide Todo.Run, Todo.Consistent, WithoutHead, Committed, DrainFrom;
      var errorRetries := 0;
      var rewakes := 0;
      rounds := 0;
      while true
        invariant Valid() && rewakes <= MAX_REWAKES && errorRetries < MAX_ERRORS
        invariant DrainFrom(todo.View(), env, rounds, rewakes, errorRetries) == DrainAll(old(todo.View()), env)
        invariant history == HistoryAfter(old(history), First(env, rounds))
        decreases MAX_REWAKES - rewakes, MAX_ERRORS - errorRetries
      {
        DrainUnfold(todo.View(), env, rounds, rewakes, errorRetries);
        var ok, _ := RunOnce(env(rounds));
        assert First(env, rounds + 1)[..rounds] == First(env, rounds);
        rounds := rounds + 1;
        if !ok {
          errorRetries := errorRetries + 1;
          if errorRetries >= MAX_ERRORS {
            DropHead();
            return rounds, GaveUp;
          }
          continue;
        }
        errorRetries := 0;
        var empty := todo.IsEmpty();
        if empty {
          return rounds, Cleared;
        }
        rewakes := rewakes + 1;
        if rewakes > MAX_REWAKES {
          return rounds, Stalled;
        }
      }
    }

    /** Removes the first listed item, if the queue holds any. */
    method DropHead()
      requires todo.Valid()
      modifies todo
      ensures todo.Valid() && todo.View() == WithoutHead(old(todo.View()))
    {
      var items := todo.List();
      if |items| > 0 {
        ListedFirstIsHead(todo.View(), items);
        HeadRemoved(todo.View(), items[0].id);
        var _ := todo.Complete(items[0].id);
      } else {
        assert todo.View().items.Keys == {};
      }
    }

    /** One pass of the polling loop; `s.stalled` is the version that the last drain left behind. */
    method Pass(s: Loop, p: Poll) returns (next: Loop)
      requires Valid() && s.q == todo.View()
      modifies this`history, todo
      ensures Valid() && next == PollOnce(s, p) && todo.View() == next.q
      ensures history == HistoryAfter(old(history), PollRounds(s, p))
    {
      hide DrainAll, Todo.Run, Todo.Consistent, HistoryAfter;
      HistoryAfterNone(history);
      assert First(p.rounds, 0) == [];
      var stalledVersion, starts := s.stalled, s.starts;
      var version, rounds := 0, 0;
      Perform(p.idle);
      var empty := todo.IsEmpty();
      if !empty {
        Perform(p.check);
        version := todo.Version();
        if version != stalledVersion {
          starts := starts + [version];
          var exit;
          rounds, exit := DrainTodoList(p.rounds);
          Perform(p.settle);
          empty := todo.IsEmpty();
          if !empty {
            Perform(p.record);
            stalledVersion := todo.Version();
          }
        }
      }
      next := Loop(todo.View(), stalledVersion, starts, s.rounds + rounds);
    }

    /** The polling loop over a whole run; one `Poll` says what happens around each pass. */
    method Run(polls: seq<Poll>) returns (s: Loop)
      requires Valid() && todo.View() == Todo.EMPTY_QUEUE
      modifies this`history, todo
      ensures Valid() && s == PollAll(IDLE_LOOP, polls) && todo.View() == s.q
      ensures history == HistoryAfter(old(history), RoundsRun(IDLE_LOOP, polls))
      ensures s.rounds == |RoundsRun(IDLE_LOOP, polls)|
      ensures s.rounds <= 30 * TotalAdds(IDLE_LOOP, polls) && todo.nextID == TotalAdds(IDLE_LOOP, polls)
    {
      hide TotalAdds, PollOnce, PollRounds, HistoryAfter, Todo.Consistent;
      s := IDLE_LOOP;
      ghost var run: seq<Round> := [];
      HistoryAfterNone(history);
      for i := 0 to |polls|
        invariant Valid() && s.q == todo.View()
        invariant PollAll(s, polls[i..]) == PollAll(IDLE_LOOP, polls)
        invariant history == HistoryAfter(old(history), run)
        invariant run + RoundsRun(s, polls[i..]) == RoundsRun(IDLE_LOOP, polls)
      {
        HistoryAfterBoth(old(history), run, PollRounds(s, polls[i]));
        run := run + PollRounds(s, polls[i]);
        s := Pass(s, polls[i]);
      }
      assert run == RoundsRun(IDLE_LOOP, polls);
      RoundsCounted(IDLE_LOOP, polls);
      RoundsBoundedByAdds(polls);
    }
  }

  lemma ListedFirstIsHead(q: Todo.Queue, items: seq<Todo.Item>)
    requires Todo.Consistent(q) && Listing(Todo.ItemKey, q.items, items) && items != []
    ensures IsHead(q, items[0].id)
  {
    hide KeyLess, Numbered;
    assert Stored(Todo.ItemKey, q.items, items[0]);
    forall other | other in q.items
      ensures KeyAtMost(Todo.ItemKey(items[0]), Todo.ItemKey(q.items[other]))
    {
      assert Stored(Todo.ItemKey, q.items, q.items[other]);
      assert q.items[other] in items;
    }
  }

  lemma HeadRemoved(q: Todo.Queue, id: string)
    requires Todo.Consistent(q) && IsHead(q, id)
    ensures WithoutHead(q) == Todo.Completed(q, id)
  {
    hide IsHead;
    forall other | IsHead(q, other)
      ensures other == id
    {
      HeadUnique(q, other, id);
    }
  }
}

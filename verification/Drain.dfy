/**
 The drain loop and the polling loop of the main agent (internal/agent/main/agent.go),
 as functions of the model's outcomes and of what producers do to the queue meanwhile.
 */
module Drain {
  import opened Sorting
  import opened Todo
  import opened History

  const MAX_REWAKES := 5
  const MAX_ERRORS := 5

  /**
   One model round: whether it succeeded, the messages of the run, the activation
   prompt, and everything done to the queue up to the check that follows it.
   */
  datatype Round = Round(ok: bool, prompt: string, msgs: seq<Message>, ops: seq<Op>)

  type Rounds = nat -> Round

  datatype Exit = Cleared | Stalled | GaveUp

  datatype Drained = Drained(q: Queue, rounds: nat, exit: Exit)

  ghost predicate IsHead(q: Queue, id: string) {
    id in q.items && forall other :: other in q.items ==> KeyAtMost(ItemKey(q.items[id]), ItemKey(q.items[other]))
  }

  /** The queue without the item that `List` puts first, if there is any item. */
  ghost function WithoutHead(q: Queue): Queue {
    if exists id :: IsHead(q, id) then
      var id :| IsHead(q, id);
      Completed(q, id)
    else q
  }

  lemma HeadUnique(q: Queue, a: string, b: string)
    requires Consistent(q) && IsHead(q, a) && IsHead(q, b)
    ensures a == b
  {
    KeyOrder(ItemKey(q.items[a]), ItemKey(q.items[b]), ItemKey(q.items[a]));
  }

  /** Any item leads to a head that is listed no later. */
  lemma {:induction false} HeadBelow(q: Queue, ids: set<string>, id: string) returns (head: string)
    requires id in ids && ids <= q.items.Keys
    ensures head in ids && forall other :: other in ids ==> KeyAtMost(ItemKey(q.items[head]), ItemKey(q.items[other]))
    decreases ids
  {
    hide KeyAtMost, KeyLess;
    var rest := ids - {id};
    KeyOrder(ItemKey(q.items[id]), ItemKey(q.items[id]), ItemKey(q.items[id]));
    if rest == {} {
      assert ids == {id};
      return id;
    }
    var next :| next in rest;
    var other := HeadBelow(q, rest, next);
    head := if KeyAtMost(ItemKey(q.items[id]), ItemKey(q.items[other])) then id else other;
    forall x | x in ids
      ensures KeyAtMost(ItemKey(q.items[head]), ItemKey(q.items[x]))
    {
      KeyOrder(ItemKey(q.items[id]), ItemKey(q.items[other]), ItemKey(q.items[x]));
      KeyOrder(ItemKey(q.items[other]), ItemKey(q.items[id]), ItemKey(q.items[x]));
    }
  }

  /** Giving up shortens every non-empty queue by exactly its first listed item. */
  lemma WithoutHeadRemovesOne(q: Queue)
    requires Consistent(q) && q.items != map[]
    ensures exists id :: IsHead(q, id) && WithoutHead(q) == Completed(q, id)
  {
    var id :| id in q.items;
    var head := HeadBelow(q, q.items.Keys, id);
    assert IsHead(q, head);
  }

  // ------------------------------------------------- the drain, counter by counter

  ghost function DrainFrom(q: Queue, env: Rounds, i: nat, rewakes: nat, errors: nat): Drained
    requires rewakes <= MAX_REWAKES && errors < MAX_ERRORS
    decreases MAX_REWAKES - rewakes, MAX_ERRORS - errors
  {
    var q' := Run(q, env(i).ops);
    if !env(i).ok then
      if errors + 1 >= MAX_ERRORS then Drained(WithoutHead(q'), i + 1, GaveUp)
      else DrainFrom(q', env, i + 1, rewakes, errors + 1)
    else if q'.items == map[] then Drained(q', i + 1, Cleared)
    else if rewakes + 1 > MAX_REWAKES then Drained(q', i + 1, Stalled)
    else DrainFrom(q', env, i + 1, rewakes + 1, 0)
  }

  /** One turn of the loop, outcome by outcome. */
  lemma DrainUnfold(q: Queue, env: Rounds, i: nat, rewakes: nat, errors: nat)
    requires rewakes <= MAX_REWAKES && errors < MAX_ERRORS
    ensures var q' := Run(q, env(i).ops);
            var d := DrainFrom(q, env, i, rewakes, errors);
            && (!env(i).ok && errors + 1 >= MAX_ERRORS ==> d == Drained(WithoutHead(q'), i + 1, GaveUp))
            && (!env(i).ok && errors + 1 < MAX_ERRORS ==> d == DrainFrom(q', env, i + 1, rewakes, errors + 1))
            && (env(i).ok && q'.items == map[] ==> d == Drained(q', i + 1, Cleared))
            && (env(i).ok && q'.items != map[] && rewakes + 1 > MAX_REWAKES ==> d == Drained(q', i + 1, Stalled))
            && (env(i).ok && q'.items != map[] && rewakes + 1 <= MAX_REWAKES ==>
                  d == DrainFrom(q', env, i + 1, rewakes + 1, 0))
  {
    hide WithoutHead, Run;
  }

  ghost function DrainAll(q: Queue, env: Rounds): Drained {
    DrainFrom(q, env, 0, 0, 0)
  }

  // ------------------------------------------------- the drain, by its outcome history

  /** The queue after the first `k` rounds. */
  function QueueAfter(q: Queue, env: Rounds, k: nat): Queue {
    if k == 0 then q else Run(QueueAfter(q, env, k - 1), env(k - 1).ops)
  }

  function Successes(env: Rounds, k: nat): nat {
    if k == 0 then 0 else Successes(env, k - 1) + (if env(k - 1).ok then 1 else 0)
  }

  predicate FailedLast(env: Rounds, k: nat, n: nat) {
    n <= k && forall j: nat :: k - n <= j < k ==> !env(j).ok
  }

  /** What the rounds so far call for: stopping, and how. */
  ghost predicate StopsWith(q: Queue, env: Rounds, k: nat, exit: Exit)
    requires 0 < k
  {
    match exit
    case Cleared => env(k - 1).ok && QueueAfter(q, env, k).items == map[]
    case Stalled => env(k - 1).ok && QueueAfter(q, env, k).items != map[] && Successes(env, k) == MAX_REWAKES + 1
    case GaveUp => FailedLast(env, k, MAX_ERRORS)
  }

  /** Rounds `errors` back from `k` failed, and the one before them, if any, did not. */
  ghost predicate Trailing(env: Rounds, k: nat, errors: nat) {
    FailedLast(env, k, errors) && (errors < k ==> env(k - errors - 1).ok)
  }

  ghost predicate NeverStopped(q: Queue, env: Rounds, k: nat) {
    forall m, exit :: 0 < m <= k ==> !StopsWith(q, env, m, exit)
  }

  /** `d` is how a drain ends that has run `i` rounds already: at the first stop after them. */
  ghost predicate EndsAfter(q: Queue, env: Rounds, i: nat, d: Drained) {
    && i < d.rounds && StopsWith(q, env, d.rounds, d.exit) && NeverStopped(q, env, d.rounds - 1)
    && d.q == (if d.exit.GaveUp? then WithoutHead(QueueAfter(q, env, d.rounds)) else QueueAfter(q, env, d.rounds))
  }

  lemma EndsEarlier(q: Queue, env: Rounds, i: nat, d: Drained)
    ensures EndsAfter(q, env, i + 1, d) ==> EndsAfter(q, env, i, d)
  {
    hide WithoutHead, QueueAfter, StopsWith, NeverStopped;
  }

  lemma EndsNow(q: Queue, env: Rounds, i: nat, exit: Exit)
    requires StopsWith(q, env, i + 1, exit) && NeverStopped(q, env, i)
    ensures var q' := QueueAfter(q, env, i + 1);
            EndsAfter(q, env, i, Drained(if exit.GaveUp? then WithoutHead(q') else q', i + 1, exit))
  {
    hide WithoutHead, QueueAfter, StopsWith, NeverStopped;
  }

  lemma {:induction false} DrainFollowsHistory(q: Queue, env: Rounds, i: nat, rewakes: nat, errors: nat)
    requires rewakes <= MAX_REWAKES && errors < MAX_ERRORS
    requires rewakes == Successes(env, i) && Trailing(env, i, errors) && NeverStopped(q, env, i)
    ensures EndsAfter(q, env, i, DrainFrom(QueueAfter(q, env, i), env, i, rewakes, errors))
    decreases MAX_REWAKES - rewakes, MAX_ERRORS - errors
  {
    var q' := QueueAfter(q, env, i + 1);
    assert q' == Run(QueueAfter(q, env, i), env(i).ops);
    hide WithoutHead, QueueAfter, NeverStopped, Trailing, Run, StopsWith, EndsAfter, Successes;
    if !env(i).ok {
      FailureStep(q, env, i, rewakes, errors);
      if errors + 1 < MAX_ERRORS {
        DrainFollowsHistory(q, env, i + 1, rewakes, errors + 1);
        EndsEarlier(q, env, i, DrainFrom(q', env, i + 1, rewakes, errors + 1));
      } else {
        EndsNow(q, env, i, GaveUp);
      }
    } else {
      SuccessStep(q, env, i, rewakes, errors);
      if q'.items == map[] {
        EndsNow(q, env, i, Cleared);
      } else if rewakes == MAX_REWAKES {
        EndsNow(q, env, i, Stalled);
      } else {
        DrainFollowsHistory(q, env, i + 1, rewakes + 1, 0);
        EndsEarlier(q, env, i, DrainFrom(q', env, i + 1, rewakes + 1, 0));
      }
    }
  }

  lemma FailureStep(q: Queue, env: Rounds, i: nat, rewakes: nat, errors: nat)
    requires errors < MAX_ERRORS && !env(i).ok
    requires rewakes == Successes(env, i) && Trailing(env, i, errors) && NeverStopped(q, env, i)
    ensures rewakes == Successes(env, i + 1) && Trailing(env, i + 1, errors + 1)
    ensures errors + 1 < MAX_ERRORS ==> NeverStopped(q, env, i + 1)
    ensures errors + 1 == MAX_ERRORS ==> StopsWith(q, env, i + 1, GaveUp)
  {
    hide QueueAfter;
    if errors + 1 < MAX_ERRORS <= i + 1 {
      assert env(i - errors - 1).ok;
    }
  }

  lemma SuccessStep(q: Queue, env: Rounds, i: nat, rewakes: nat, errors: nat)
    requires rewakes <= MAX_REWAKES && env(i).ok
    requires rewakes == Successes(env, i) && NeverStopped(q, env, i)
    ensures rewakes + 1 == Successes(env, i + 1) && Trailing(env, i + 1, 0)
    ensures var empty := QueueAfter(q, env, i + 1).items == map[];
            && (empty ==> StopsWith(q, env, i + 1, Cleared))
            && (!empty && rewakes == MAX_REWAKES ==> StopsWith(q, env, i + 1, Stalled))
            && (!empty && rewakes < MAX_REWAKES ==> NeverStopped(q, env, i + 1))
  {
    hide QueueAfter;
    assert !FailedLast(env, i + 1, MAX_ERRORS);
  }

  /**
   A drain ends at the first round whose outcome history calls for it: the list seen
   empty after a success, six successes, or five failures in a row; only the last
   removes the first listed item.
   */
  lemma DrainStopsFirst(q: Queue, env: Rounds)
    ensures var d := DrainAll(q, env);
            && 0 < d.rounds && StopsWith(q, env, d.rounds, d.exit) && NeverStopped(q, env, d.rounds - 1)
            && d.q == (if d.exit.GaveUp? then WithoutHead(QueueAfter(q, env, d.rounds))
                       else QueueAfter(q, env, d.rounds))
  {
    DrainFollowsHistory(q, env, 0, 0, 0);
  }

  lemma {:induction false} DrainRoundsFrom(q: Queue, env: Rounds, i: nat, rewakes: nat, errors: nat)
    requires rewakes <= MAX_REWAKES && errors < MAX_ERRORS
    ensures i < DrainFrom(q, env, i, rewakes, errors).rounds
                <= i + (MAX_REWAKES - rewakes) * MAX_ERRORS + MAX_ERRORS - errors
    decreases MAX_REWAKES - rewakes, MAX_ERRORS - errors
  {
    hide WithoutHead;
    var q' := Run(q, env(i).ops);
    if !env(i).ok {
      if errors + 1 < MAX_ERRORS {
        DrainRoundsFrom(q', env, i + 1, rewakes, errors + 1);
      }
    } else if q'.items != map[] && rewakes + 1 <= MAX_REWAKES {
      DrainRoundsFrom(q', env, i + 1, rewakes + 1, 0);
    }
  }

  /** Against any outcomes a drain takes at most 30 rounds. */
  lemma DrainBound(q: Queue, env: Rounds)
    ensures 1 <= DrainAll(q, env).rounds <= 30
  {
    DrainRoundsFrom(q, env, 0, 0, 0);
  }

  /** The bound is attained on any queue nobody touches: four failures before each success. */
  lemma DrainBoundAttained(q: Queue)
    requires q.items != map[]
    ensures DrainAll(q, i => Round(i % 5 == 4, "", [], [])).rounds == 30
  {
    SlowestFrom(q, 0);
  }

  lemma {:induction false} SlowestFrom(q: Queue, rewakes: nat)
    requires q.items != map[] && rewakes <= MAX_REWAKES
    ensures DrainFrom(q, i => Round(i % 5 == 4, "", [], []), 5 * rewakes, rewakes, 0).rounds == 30
    decreases MAX_REWAKES - rewakes
  {
    var env: Rounds := i => Round(i % 5 == 4, "", [], []);
    var k := 5 * rewakes;
    FourFailures(q, env, k, rewakes);
    assert env(k + 4).ok && Run(q, []) == q;
    if rewakes < MAX_REWAKES {
      SlowestFrom(q, rewakes + 1);
    }
  }

  lemma FourFailures(q: Queue, env: Rounds, k: nat, rewakes: nat)
    requires rewakes <= MAX_REWAKES
    requires forall j: nat :: k <= j < k + 4 ==> !env(j).ok && env(j).ops == []
    ensures DrainFrom(q, env, k, rewakes, 0) == DrainFrom(q, env, k + 4, rewakes, 4)
  {
    hide WithoutHead;
    assert Run(q, []) == q;
    assert DrainFrom(q, env, k, rewakes, 0) == DrainFrom(q, env, k + 1, rewakes, 1);
    assert DrainFrom(q, env, k + 1, rewakes, 1) == DrainFrom(q, env, k + 2, rewakes, 2);
    assert DrainFrom(q, env, k + 2, rewakes, 2) == DrainFrom(q, env, k + 3, rewakes, 3);
  }

  // ------------------------------------------------- the polling loop

  /**
   One pass of the polling loop: what happens to the queue before the emptiness check,
   between it and the version check, during the drain's rounds, between the drain's
   return and the second emptiness check, and before the version is recorded.
   */
  datatype Poll = Poll(idle: seq<Op>, check: seq<Op>, rounds: Rounds, settle: seq<Op>, record: seq<Op>)

  /** The queue, the stalled version, the version at each drain's start, and the rounds run. */
  datatype Loop = Loop(q: Queue, stalled: nat, starts: seq<nat>, rounds: nat)

  ghost function PollOnce(s: Loop, p: Poll): Loop {
    var q1 := Run(s.q, p.idle);
    if q1.items == map[] then s.(q := q1) else
      var q2 := Run(q1, p.check);
      if q2.nextID == s.stalled then s.(q := q2) else
        var d := DrainAll(q2, p.rounds);
        var q3 := Run(d.q, p.settle);
        var q4 := if q3.items == map[] then q3 else Run(q3, p.record);
        Loop(q4, if q3.items == map[] then s.stalled else q4.nextID, s.starts + [q2.nextID], s.rounds + d.rounds)
  }

  ghost function PollAll(s: Loop, polls: seq<Poll>): Loop
    decreases |polls|
  {
    if polls == [] then s else PollAll(PollOnce(s, polls[0]), polls[1..])
  }

  const IDLE_LOOP := Loop(EMPTY_QUEUE, 0, [], 0)

  function LastStart(s: Loop): nat {
    if s.starts == [] then 0 else s.starts[|s.starts| - 1]
  }

  /** Until something is added again, the last drain's version blocks the next drain. */
  ghost predicate Guarded(s: Loop) {
    && s.stalled <= s.q.nextID && LastStart(s) <= s.q.nextID
    && (LastStart(s) <= s.stalled || s.q.items == map[] || LastStart(s) < s.q.nextID)
    && (forall i, j :: 0 <= i < j < |s.starts| ==> s.starts[i] < s.starts[j])
    && (forall i :: 0 <= i < |s.starts| ==> 0 < s.starts[i])
    && s.rounds <= 30 * |s.starts|
  }

  /** The version never runs backwards, and an empty queue grows only by an `Add`. */
  lemma {:induction false} VersionGrows(q: Queue, ops: seq<Op>)
    ensures q.nextID <= Run(q, ops).nextID
    ensures q.items == map[] && Run(q, ops).items != map[] ==> q.nextID < Run(q, ops).nextID
    decreases |ops|
  {
    if ops != [] {
      VersionGrows(Apply(q, ops[0]), ops[1..]);
    }
  }

  lemma {:induction false} DrainVersion(q: Queue, env: Rounds, i: nat, rewakes: nat, errors: nat)
    requires rewakes <= MAX_REWAKES && errors < MAX_ERRORS
    ensures q.nextID <= DrainFrom(q, env, i, rewakes, errors).q.nextID
    decreases MAX_REWAKES - rewakes, MAX_ERRORS - errors
  {
    var q' := Run(q, env(i).ops);
    VersionGrows(q, env(i).ops);
    if !env(i).ok {
      if errors + 1 < MAX_ERRORS {
        DrainVersion(q', env, i + 1, rewakes, errors + 1);
      }
    } else if q'.items != map[] && rewakes + 1 <= MAX_REWAKES {
      DrainVersion(q', env, i + 1, rewakes + 1, 0);
    }
  }

  lemma PollKeepsGuard(s: Loop, p: Poll)
    requires Guarded(s)
    ensures Guarded(PollOnce(s, p))
  {
    hide Run, DrainAll;
    var q1 := Run(s.q, p.idle);
    VersionGrows(s.q, p.idle);
    if q1.items != map[] {
      var q2 := Run(q1, p.check);
      VersionGrows(q1, p.check);
      if q2.nextID != s.stalled {
        var d := DrainAll(q2, p.rounds);
        DrainBound(q2, p.rounds);
        assert q2.nextID <= d.q.nextID by {
          DrainAllVersion(q2, p.rounds);
        }
        VersionGrows(d.q, p.settle);
        VersionGrows(Run(d.q, p.settle), p.record);
      }
    }
  }

  lemma DrainAllVersion(q: Queue, env: Rounds)
    ensures q.nextID <= DrainAll(q, env).q.nextID
  {
    DrainVersion(q, env, 0, 0, 0);
  }

  lemma {:induction false} PollAllKeepsGuard(s: Loop, polls: seq<Poll>)
    requires Guarded(s)
    ensures Guarded(PollAll(s, polls))
    decreases |polls|
  {
    hide Guarded, PollOnce;
    if polls != [] {
      PollKeepsGuard(s, polls[0]);
      PollAllKeepsGuard(PollOnce(s, polls[0]), polls[1..]);
    }
  }

  /** No item waits that the last drain has not seen, or given up on. */
  predicate Quiet(s: Loop) {
    s.q.items == map[] || s.stalled == s.q.nextID
  }

  lemma NothingAdded(q: Queue, ops: seq<Op>)
    requires AddCalls(ops) == 0
    ensures Run(q, ops).nextID == q.nextID && (q.items == map[] ==> Run(q, ops).items == map[])
  {
    VersionCountsAdds(q, ops);
    VersionGrows(q, ops);
  }

  /**
   After any pass of the polling loop, whether it drained or not, the next pass starts a
   drain only if something was added in between: a list the model cannot clear is not
   retried.
   */
  lemma DrainNeedsAdd(s: Loop, p: Poll, next: Poll)
    ensures Quiet(PollOnce(s, p))
    ensures PollOnce(PollOnce(s, p), next).starts != PollOnce(s, p).starts ==>
              AddCalls(next.idle) + AddCalls(next.check) > 0
  {
    hide Run, DrainAll;
    var t := PollOnce(s, p);
    if AddCalls(next.idle) == 0 && AddCalls(next.check) == 0 {
      NothingAdded(t.q, next.idle);
      NothingAdded(Run(t.q, next.idle), next.check);
    }
  }

  /**
   And it does drain then: the pass after any pass drains exactly if it finds the list
   non-empty and something was added since the pass before recorded the version.
   */
  lemma DrainsIffAdd(s: Loop, p: Poll, next: Poll)
    requires Guarded(s)
    ensures var t := PollOnce(s, p);
            var found := Run(t.q, next.idle);
            if found.items != map[] && AddCalls(next.idle) + AddCalls(next.check) > 0
            then PollOnce(t, next).starts == t.starts + [Run(found, next.check).nextID]
            else PollOnce(t, next).starts == t.starts
  {
    hide Run, DrainAll;
    var t := PollOnce(s, p);
    var found := Run(t.q, next.idle);
    PollKeepsGuard(s, p);
    DrainNeedsAdd(s, p, next);
    VersionCountsAdds(t.q, next.idle);
    VersionCountsAdds(found, next.check);
    VersionGrows(t.q, next.idle);
  }

  /** Every state of the polling loop is guarded, so this holds from the start on. */
  lemma PollingIsGuarded(polls: seq<Poll>)
    ensures Guarded(PollAll(IDLE_LOOP, polls))
  {
    PollAllKeepsGuard(IDLE_LOOP, polls);
  }

  lemma {:induction false} IncreasingCount(xs: seq<nat>)
    requires forall i, j :: 0 <= i < j < |xs| ==> xs[i] < xs[j]
    requires forall i :: 0 <= i < |xs| ==> 0 < xs[i]
    ensures xs != [] ==> |xs| <= xs[|xs| - 1]
  {
    if xs != [] {
      IncreasingCount(xs[..|xs| - 1]);
    }
  }

  // ------------------------------------------------- the rounds of a whole run

  function First(env: Rounds, k: nat): seq<Round> {
    seq(k, i requires 0 <= i < k => env(i))
  }

  /** The rounds that one pass of the polling loop runs. */
  ghost function PollRounds(s: Loop, p: Poll): seq<Round> {
    var q1 := Run(s.q, p.idle);
    var q2 := Run(q1, p.check);
    First(p.rounds, if q1.items == map[] || q2.nextID == s.stalled then 0 else DrainAll(q2, p.rounds).rounds)
  }

  ghost function RoundsRun(s: Loop, polls: seq<Poll>): seq<Round>
    decreases |polls|
  {
    if polls == [] then [] else PollRounds(s, polls[0]) + RoundsRun(PollOnce(s, polls[0]), polls[1..])
  }

  lemma {:induction false} RoundsCounted(s: Loop, polls: seq<Poll>)
    ensures PollAll(s, polls).rounds == s.rounds + |RoundsRun(s, polls)|
    decreases |polls|
  {
    hide Run, DrainAll;
    if polls != [] {
      RoundsCounted(PollOnce(s, polls[0]), polls[1..]);
    }
  }

  // ------------------------------------------------- counting the `Add` calls

  /** The `Add` calls made during the first `k` rounds. */
  function RoundAdds(env: Rounds, k: nat): nat {
    if k == 0 then 0 else RoundAdds(env, k - 1) + AddCalls(env(k - 1).ops)
  }

  lemma {:induction false} QueueVersion(q: Queue, env: Rounds, k: nat)
    ensures QueueAfter(q, env, k).nextID == q.nextID + RoundAdds(env, k)
  {
    if k > 0 {
      QueueVersion(q, env, k - 1);
      VersionCountsAdds(QueueAfter(q, env, k - 1), env(k - 1).ops);
    }
  }

  /** The `Add` calls made during one pass of the polling loop. */
  ghost function PollAdds(s: Loop, p: Poll): nat {
    var q1 := Run(s.q, p.idle);
    var q2 := Run(q1, p.check);
    var d := DrainAll(q2, p.rounds);
    AddCalls(p.idle)
    + (if q1.items == map[] then 0 else AddCalls(p.check))
    + (if q1.items == map[] || q2.nextID == s.stalled then 0 else
         RoundAdds(p.rounds, d.rounds) + AddCalls(p.settle)
         + (if Run(d.q, p.settle).items == map[] then 0 else AddCalls(p.record)))
  }

  ghost function TotalAdds(s: Loop, polls: seq<Poll>): nat
    decreases |polls|
  {
    if polls == [] then 0 else PollAdds(s, polls[0]) + TotalAdds(PollOnce(s, polls[0]), polls[1..])
  }

  lemma PollVersion(s: Loop, p: Poll)
    ensures PollOnce(s, p).q.nextID == s.q.nextID + PollAdds(s, p)
  {
    hide Run, DrainAll, QueueAfter, StopsWith, NeverStopped, RoundAdds, AddCalls;
    var q1 := Run(s.q, p.idle);
    var q2 := Run(q1, p.check);
    var d := DrainAll(q2, p.rounds);
    VersionCountsAdds(s.q, p.idle);
    VersionCountsAdds(q1, p.check);
    DrainStopsFirst(q2, p.rounds);
    QueueVersion(q2, p.rounds, d.rounds);
    VersionCountsAdds(d.q, p.settle);
    VersionCountsAdds(Run(d.q, p.settle), p.record);
  }

  /** Drains, rounds and settling included, the version counts every `Add` call of a run. */
  lemma {:induction false} VersionCountsAllAdds(s: Loop, polls: seq<Poll>)
    ensures PollAll(s, polls).q.nextID == s.q.nextID + TotalAdds(s, polls)
    decreases |polls|
  {
    hide PollOnce, PollAdds;
    if polls != [] {
      PollVersion(s, polls[0]);
      VersionCountsAllAdds(PollOnce(s, polls[0]), polls[1..]);
    }
  }

  /**
   Over any number of polls, whatever the producers and the model do: each drain starts
   at a strictly larger version, so drains are at most as many as `Add` calls, and model
   rounds at most thirty times as many.
   */
  lemma RoundsBoundedByAdds(polls: seq<Poll>)
    ensures var s, adds := PollAll(IDLE_LOOP, polls), TotalAdds(IDLE_LOOP, polls);
            && (forall i, j :: 0 <= i < j < |s.starts| ==> s.starts[i] < s.starts[j])
            && |s.starts| <= adds && s.rounds <= 30 * adds && s.q.nextID == adds
  {
    hide PollAll, TotalAdds;
    PollAllKeepsGuard(IDLE_LOOP, polls);
    IncreasingCount(PollAll(IDLE_LOOP, polls).starts);
    VersionCountsAllAdds(IDLE_LOOP, polls);
  }
}

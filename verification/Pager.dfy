/**
 The backwards pager over a chat's message history (internal/tool/qq/getter.go).
 */
module Pager {
  import opened Wrappers
  import opened Sorting

  const PAGE_SIZE := 50
  const MAX_FETCH := 500
  const DEFAULT_COUNT := 20
  const MAX_COUNT := 100

  datatype HistoryMessage = HistoryMessage(
    messageID: int,
    messageSeq: int,
    time: int,
    userID: int,
    nickName: string,
    content: string
  )

  datatype Output = Output(messageID: int, time: int, userID: int, nickName: string, content: string)

  /** A provider's answer to its `call`-th request, for messages before a sequence number; None is an error. */
  type Provider = (nat, int, int) -> Option<seq<HistoryMessage>>

  const NEWEST_FIRST: (HistoryMessage, HistoryMessage) -> bool :=
    (a: HistoryMessage, b: HistoryMessage) => a.time >= b.time

  // ------------------------------------------------- the loops, as functions

  /** What has been collected: the messages, and the non-zero ids among them. */
  datatype Collected = Collected(all: seq<HistoryMessage>, seen: set<int>)

  function Collect(c: Collected, page: seq<HistoryMessage>): Collected
    decreases |page|
  {
    if page == [] then c
    else if page[0].messageID == 0 then Collect(c.(all := c.all + [page[0]]), page[1..])
    else if page[0].messageID in c.seen then Collect(c, page[1..])
    else Collect(Collected(c.all + [page[0]], c.seen + {page[0].messageID}), page[1..])
  }

  /** The messages collected, the number of provider calls made, and of messages that came in all. */
  datatype Fetched = Fetched(all: Option<seq<HistoryMessage>>, calls: nat, total: nat)

  /** No reason to ask for a page before `oldest`, or no way to. */
  predicate Ends(startTime: int, prevSeq: int, total: int, oldest: HistoryMessage) {
    oldest.time < startTime || total >= MAX_FETCH || oldest.messageSeq <= 0 || oldest.messageSeq == prevSeq
  }

  function FetchPages(
    p: Provider, startTime: int, call: nat, c: Collected, nextSeq: int, prevSeq: int, total: nat): Fetched
    requires total < MAX_FETCH
    decreases MAX_FETCH - total
  {
    match p(call, nextSeq, PAGE_SIZE)
    case None => Fetched(None, call + 1, total)
    case Some(raw) =>
      if raw == [] then Fetched(Some(c.all), call + 1, total) else
        SortPermutes(NEWEST_FIRST, raw);
        var page := SortBy(NEWEST_FIRST, raw);
        var c' := Collect(c, page);
        var oldest := page[|page| - 1];
        if Ends(startTime, prevSeq, total + |page|, oldest) then Fetched(Some(c'.all), call + 1, total + |page|)
        else FetchPages(p, startTime, call + 1, c', oldest.messageSeq, oldest.messageSeq, total + |page|)
  }

  function FetchAll(p: Provider, startTime: int): Fetched {
    FetchPages(p, startTime, 0, Collected([], {}), 0, 0, 0)
  }

  predicate Inside(m: HistoryMessage, startTime: int, endTime: int) {
    startTime <= m.time <= endTime
  }

  function InWindow(ms: seq<HistoryMessage>, startTime: int, endTime: int): seq<HistoryMessage> {
    if ms == [] then [] else
      var rest := InWindow(ms[..|ms| - 1], startTime, endTime);
      if Inside(ms[|ms| - 1], startTime, endTime) then rest + [ms[|ms| - 1]] else rest
  }

  function TextOnly(ms: seq<HistoryMessage>): seq<Output> {
    if ms == [] then [] else
      var m := ms[|ms| - 1];
      var rest := TextOnly(ms[..|ms| - 1]);
      if m.content == "" then rest else rest + [Output(m.messageID, m.time, m.userID, m.nickName, m.content)]
  }

  function NormalizeCount(count: int): int {
    if count <= 0 then DEFAULT_COUNT else if count > MAX_COUNT then MAX_COUNT else count
  }

  // ------------------------------------------------- the loops, as the code runs them

  method CollectPage(c: Collected, page: seq<HistoryMessage>) returns (c': Collected)
    ensures c' == Collect(c, page)
  {
    var all, seen := c.all, c.seen;
    for i := 0 to |page|
      invariant Collect(Collected(all, seen), page[i..]) == Collect(c, page)
    {
      var m := page[i];
      assert page[i..][1..] == page[i + 1..];
      if m.messageID != 0 {
        if m.messageID in seen {
          continue;
        }
        seen := seen + {m.messageID};
      }
      all := all + [m];
    }
    c' := Collected(all, seen);
  }

  method FetchInTimeRange(p: Provider, startTime: int, endTime: int, clock: int)
    returns (selected: Option<seq<HistoryMessage>>, calls: nat)
    ensures calls == FetchAll(p, startTime).calls <= MAX_FETCH
    ensures selected.Some? ==>
              forall m :: m in selected.value ==> startTime <= m.time <= if endTime == 0 then clock else endTime
    ensures selected == match FetchAll(p, startTime).all
                        case None => None
                        case Some(all) => Some(InWindow(all, startTime, if endTime == 0 then clock else endTime))
  {
    FetchCallsBound(p, startTime, 0, Collected([], {}), 0, 0, 0);
    hide Collect, SortBy;
    var c := Collected([], {});
    var nextSeq, prevSeq, total := 0, 0, 0;
    calls := 0;
    while true
      invariant total < MAX_FETCH
      invariant FetchPages(p, startTime, calls, c, nextSeq, prevSeq, total) == FetchAll(p, startTime)
      decreases MAX_FETCH - total
    {
      var answer := p(calls, nextSeq, PAGE_SIZE);
      if answer.None? {
        calls := calls + 1;
        return None, calls;
      }
      if |answer.value| == 0 {
        calls := calls + 1;
        break;
      }
      SortPermutes(NEWEST_FIRST, answer.value);
      var page := SortBy(NEWEST_FIRST, answer.value);
      c := CollectPage(c, page);
      total := total + |page|;
      calls := calls + 1;
      var oldest := page[|page| - 1];
      if oldest.time < startTime || total >= MAX_FETCH {
        break;
      }
      nextSeq := oldest.messageSeq;
      if nextSeq <= 0 || nextSeq == prevSeq {
        break;
      }
      prevSeq := nextSeq;
    }
    var window := SelectWindow(c.all, startTime, if endTime == 0 then clock else endTime);
    WindowInside(c.all, startTime, if endTime == 0 then clock else endTime);
    selected := Some(window);
  }

  method SelectWindow(all: seq<HistoryMessage>, startTime: int, endTime: int) returns (out: seq<HistoryMessage>)
    ensures out == InWindow(all, startTime, endTime)
  {
    out := [];
    for i := 0 to |all|
      invariant out == InWindow(all[..i], startTime, endTime)
    {
      assert all[..i + 1][..i] == all[..i];
      if all[i].time >= startTime && all[i].time <= endTime {
        out := out + [all[i]];
      }
    }
    assert all[..|all|] == all;
  }

  method BuildHistoryOutput(raw: seq<HistoryMessage>) returns (out: seq<Output>)
    ensures out == TextOnly(SortBy(NEWEST_FIRST, raw))
  {
    var sorted := SortBy(NEWEST_FIRST, raw);
    out := [];
    for i := 0 to |sorted|
      invariant out == TextOnly(sorted[..i])
    {
      var m := sorted[i];
      assert sorted[..i + 1][..i] == sorted[..i];
      if m.content == "" {
        continue;
      }
      out := out + [Output(m.messageID, m.time, m.userID, m.nickName, m.content)];
    }
    assert sorted[..|sorted|] == sorted;
  }

  lemma {:induction false} WindowInside(ms: seq<HistoryMessage>, startTime: int, endTime: int)
    ensures forall m :: m in InWindow(ms, startTime, endTime) ==> startTime <= m.time <= endTime
  {
    if ms != [] {
      WindowInside(ms[..|ms| - 1], startTime, endTime);
    }
  }

  // ------------------------------------------------- safety, for any provider

  lemma {:induction false} FetchCallsBound(
    p: Provider, startTime: int, call: nat, c: Collected, nextSeq: int, prevSeq: int, total: nat)
    requires total < MAX_FETCH
    ensures FetchPages(p, startTime, call, c, nextSeq, prevSeq, total).calls <= call + MAX_FETCH - total
    decreases MAX_FETCH - total
  {
    hide Collect, SortBy;
    var answer := p(call, nextSeq, PAGE_SIZE);
    if answer.Some? && answer.value != [] {
      SortPermutes(NEWEST_FIRST, answer.value);
      var page := SortBy(NEWEST_FIRST, answer.value);
      var oldest := page[|page| - 1];
      if !Ends(startTime, prevSeq, total + |page|, oldest) {
        FetchCallsBound(p, startTime, call + 1, Collect(c, page), oldest.messageSeq, oldest.messageSeq, total + |page|);
      }
    }
  }

  /** No non-zero message id twice. */
  ghost predicate DistinctIds(ms: seq<HistoryMessage>) {
    forall i, j :: 0 <= i < j < |ms| && ms[i].messageID != 0 ==> ms[i].messageID != ms[j].messageID
  }

  ghost predicate SeenAll(c: Collected) {
    DistinctIds(c.all)
    && (forall i :: 0 <= i < |c.all| && c.all[i].messageID != 0 ==> c.all[i].messageID in c.seen)
  }

  lemma {:induction false} CollectDistinct(c: Collected, page: seq<HistoryMessage>)
    requires SeenAll(c)
    ensures SeenAll(Collect(c, page))
    decreases |page|
  {
    if page != [] {
      if page[0].messageID == 0 {
        CollectDistinct(c.(all := c.all + [page[0]]), page[1..]);
      } else if page[0].messageID in c.seen {
        CollectDistinct(c, page[1..]);
      } else {
        CollectDistinct(Collected(c.all + [page[0]], c.seen + {page[0].messageID}), page[1..]);
      }
    }
  }

  lemma {:induction false} FetchDistinct(
    p: Provider, startTime: int, call: nat, c: Collected, nextSeq: int, prevSeq: int, total: nat)
    requires total < MAX_FETCH && SeenAll(c)
    ensures var r := FetchPages(p, startTime, call, c, nextSeq, prevSeq, total).all; r.Some? ==> DistinctIds(r.value)
    decreases MAX_FETCH - total
  {
    hide Collect, SortBy, DistinctIds;
    var answer := p(call, nextSeq, PAGE_SIZE);
    if answer.Some? && answer.value != [] {
      SortPermutes(NEWEST_FIRST, answer.value);
      var page := SortBy(NEWEST_FIRST, answer.value);
      CollectDistinct(c, page);
      var oldest := page[|page| - 1];
      if !Ends(startTime, prevSeq, total + |page|, oldest) {
        FetchDistinct(p, startTime, call + 1, Collect(c, page), oldest.messageSeq, oldest.messageSeq, total + |page|);
      }
    }
  }

  /** `out` holds the messages at the rising positions `at`, all inside the window. */
  ghost predicate Sifted(
    ms: seq<HistoryMessage>, startTime: int, endTime: int, at: seq<nat>, out: seq<HistoryMessage>)
  {
    && |at| == |out| && (forall i, j :: 0 <= i < j < |at| ==> at[i] < at[j])
    && forall i :: 0 <= i < |at| ==> at[i] < |ms| && out[i] == ms[at[i]] && Inside(out[i], startTime, endTime)
  }

  lemma SiftedSnoc(
    ms: seq<HistoryMessage>, m: HistoryMessage, startTime: int, endTime: int, at: seq<nat>, out: seq<HistoryMessage>)
    requires Sifted(ms, startTime, endTime, at, out)
    ensures Sifted(ms + [m], startTime, endTime, at, out)
    ensures Inside(m, startTime, endTime) ==> Sifted(ms + [m], startTime, endTime, at + [|ms|], out + [m])
  {
    hide Inside;
  }

  lemma NothingSifted(startTime: int, endTime: int)
    ensures Sifted([], startTime, endTime, [], InWindow([], startTime, endTime))
  {
  }

  lemma WindowSnoc(ms: seq<HistoryMessage>, m: HistoryMessage, startTime: int, endTime: int)
    ensures InWindow(ms + [m], startTime, endTime)
            == if Inside(m, startTime, endTime) then InWindow(ms, startTime, endTime) + [m]
               else InWindow(ms, startTime, endTime)
  {
    assert (ms + [m])[..|ms|] == ms;
  }

  /** Where in `ms` the messages that survive the window filter come from, in order. */
  lemma {:induction false} WindowShape(ms: seq<HistoryMessage>, startTime: int, endTime: int) returns (at: seq<nat>)
    ensures Sifted(ms, startTime, endTime, at, InWindow(ms, startTime, endTime))
  {
    hide *;
    at := [];
    if ms == [] {
      NothingSifted(startTime, endTime);
    } else {
      var before, m := ms[..|ms| - 1], ms[|ms| - 1];
      assert ms == before + [m];
      at := WindowShape(before, startTime, endTime);
      WindowSnoc(before, m, startTime, endTime);
      SiftedSnoc(before, m, startTime, endTime, at, InWindow(before, startTime, endTime));
      if Inside(m, startTime, endTime) {
        at := at + [|before|];
      }
    }
  }

  /** No message of the window is filtered out. */
  lemma {:induction false} WindowKeeps(ms: seq<HistoryMessage>, startTime: int, endTime: int, k: nat)
    requires k < |ms| && Inside(ms[k], startTime, endTime)
    ensures ms[k] in InWindow(ms, startTime, endTime)
  {
    hide Inside;
    if k < |ms| - 1 {
      WindowKeeps(ms[..|ms| - 1], startTime, endTime, k);
    }
  }

  /** Whatever a provider answers, the selected messages lie in the window and repeat no non-zero id. */
  lemma FetchSafety(p: Provider, startTime: int, endTime: int)
    requires FetchAll(p, startTime).all.Some?
    ensures var selected := InWindow(FetchAll(p, startTime).all.value, startTime, endTime);
            && FetchAll(p, startTime).calls <= MAX_FETCH
            && (forall m :: m in selected ==> startTime <= m.time <= endTime)
            && DistinctIds(selected)
  {
    FetchCallsBound(p, startTime, 0, Collected([], {}), 0, 0, 0);
    FetchDistinct(p, startTime, 0, Collected([], {}), 0, 0, 0);
    hide FetchPages, InWindow;
    var at := WindowShape(FetchAll(p, startTime).all.value, startTime, endTime);
  }

  lemma {:induction false} FetchFailsFrom(
    p: Provider, startTime: int, fails: nat -> bool, call: nat, c: Collected, nextSeq: int, prevSeq: int, total: nat)
    requires total < MAX_FETCH && forall call: nat, before :: p(call, before, PAGE_SIZE).None? <==> fails(call)
    ensures var r := FetchPages(p, startTime, call, c, nextSeq, prevSeq, total);
            && call < r.calls && (r.all.None? <==> fails(r.calls - 1))
            && forall k: nat :: call <= k < r.calls - 1 ==> !fails(k)
    decreases MAX_FETCH - total
  {
    hide Collect, SortBy;
    var answer := p(call, nextSeq, PAGE_SIZE);
    if answer.Some? && answer.value != [] {
      SortPermutes(NEWEST_FIRST, answer.value);
      var page := SortBy(NEWEST_FIRST, answer.value);
      var oldest := page[|page| - 1];
      if !Ends(startTime, prevSeq, total + |page|, oldest) {
        FetchFailsFrom(p, startTime, fails, call + 1, Collect(c, page), oldest.messageSeq, oldest.messageSeq,
                       total + |page|);
      }
    }
  }

  /** A fetch stops at the first call that fails and then fails itself, and fails for no other reason. */
  lemma FetchFailsIff(p: Provider, startTime: int, fails: nat -> bool)
    requires forall call: nat, before :: p(call, before, PAGE_SIZE).None? <==> fails(call)
    ensures var r := FetchAll(p, startTime);
            && 0 < r.calls && (r.all.None? <==> fails(r.calls - 1)) && forall k: nat :: k < r.calls - 1 ==> !fails(k)
  {
    FetchFailsFrom(p, startTime, fails, 0, Collected([], {}), 0, 0, 0);
  }

  /** A provider that gives the same answer whatever is asked for is asked twice at most. */
  lemma StuckProvider(raw: seq<HistoryMessage>, startTime: int)
    ensures FetchAll((call, before, count) => Some(raw), startTime).calls <= 2
  {
    hide Collect, SortBy;
    if raw != [] {
      SortPermutes(NEWEST_FIRST, raw);
      var p: Provider := (call, before, count) => Some(raw);
      var page := SortBy(NEWEST_FIRST, raw);
      var oldest, c := page[|page| - 1], Collect(Collected([], {}), page);
      if !Ends(startTime, 0, |page|, oldest) {
        assert FetchAll(p, startTime) == FetchPages(p, startTime, 1, c, oldest.messageSeq, oldest.messageSeq, |page|);
        assert Ends(startTime, oldest.messageSeq, |page| + |page|, oldest);
      }
    }
  }

  /** Nothing but repeated ids is dropped from a page, and nothing is added. */
  lemma {:induction false} CollectKeeps(c: Collected, page: seq<HistoryMessage>)
    ensures var c' := Collect(c, page);
            && c.all <= c'.all && c.seen <= c'.seen
            && (forall m :: m in page ==> m in c'.all || (m.messageID != 0 && m.messageID in c'.seen))
            && (forall m :: m in c'.all ==> m in c.all || m in page)
            && (forall id :: id in c'.seen ==> id in c.seen || exists m :: m in c'.all && m.messageID == id)
    decreases |page|
  {
    if page != [] {
      var m := page[0];
      assert page == [m] + page[1..];
      var next := if m.messageID == 0 then c.(all := c.all + [m])
                  else if m.messageID in c.seen then c
                  else Collected(c.all + [m], c.seen + {m.messageID});
      CollectKeeps(next, page[1..]);
      assert m in next.all || (m.messageID != 0 && m.messageID in c.seen);
      assert forall x :: x in next.all ==> x in c.all || x == m;
    }
  }

  // ------------------------------------------------- completeness, for a lawful provider

  /** A chat log, newest first: positive strictly falling numbers, times that never rise, distinct ids. */
  ghost predicate LawfulLog(log: seq<HistoryMessage>) {
    && (forall i :: 0 <= i < |log| ==> 0 < log[i].messageSeq && log[i].messageID != 0)
    && (forall i, j :: 0 <= i < j < |log| ==>
          log[j].messageSeq < log[i].messageSeq && log[j].time <= log[i].time && log[i].messageID != log[j].messageID)
  }

  /** The log from the first message numbered below `before`. */
  function Below(log: seq<HistoryMessage>, before: int): seq<HistoryMessage> {
    if log == [] || log[0].messageSeq < before then log else Below(log[1..], before)
  }

  function Take(ms: seq<HistoryMessage>, n: int): seq<HistoryMessage> {
    if n <= 0 then [] else if |ms| <= n then ms else ms[..n]
  }

  /** The newest `count` messages, before a positive sequence number if one is given. */
  function NewestBefore(log: seq<HistoryMessage>, before: int, count: int): seq<HistoryMessage> {
    Take(if before > 0 then Below(log, before) else log, count)
  }

  /** The chat's log at each call: between calls new messages may arrive at its head. */
  type Logs = nat -> seq<HistoryMessage>

  ghost predicate EndsWith(log: seq<HistoryMessage>, tail: seq<HistoryMessage>) {
    |tail| <= |log| && log[|log| - |tail|..] == tail
  }

  ghost predicate Growing(logs: Logs) {
    forall call: nat :: LawfulLog(logs(call)) && EndsWith(logs(call + 1), logs(call))
  }

  /** Messages of one second come in the order of the log; all others may come in any order. */
  ghost predicate TiesInOrder(raw: seq<HistoryMessage>) {
    forall i, j :: 0 <= i < j < |raw| && raw[i].time == raw[j].time ==> raw[j].messageSeq < raw[i].messageSeq
  }

  /** An answer with exactly the wanted messages, oldest first, newest first or shuffled. */
  ghost predicate Delivers(answer: Option<seq<HistoryMessage>>, wanted: seq<HistoryMessage>) {
    answer.Some? && multiset(answer.value) == multiset(wanted) && TiesInOrder(answer.value)
  }

  /** Every call is answered with the newest messages wanted, of the log at that call. */
  ghost predicate Lawful(p: Provider, logs: Logs) {
    Growing(logs)
    && forall call, before, count :: Delivers(p(call, before, count), NewestBefore(logs(call), before, count))
  }

  lemma NewestFirstIsPreorder()
    ensures TotalPreorder(NEWEST_FIRST)
  {
  }

  lemma {:induction false} FallingUnique(a: seq<HistoryMessage>, b: seq<HistoryMessage>)
    requires forall x :: x in a <==> x in b
    requires forall i, j :: 0 <= i < j < |a| ==> a[j].messageSeq < a[i].messageSeq
    requires forall i, j :: 0 <= i < j < |b| ==> b[j].messageSeq < b[i].messageSeq
    ensures a == b
    decreases |a|
  {
    assert a != [] ==> a[0] in b;
    assert b != [] ==> b[0] in a;
    if a != [] {
      assert a[0] == b[0];
      forall x
        ensures x in a[1..] <==> x in b[1..]
      {
        FallingTail(a, x);
        FallingTail(b, x);
      }
      FallingUnique(a[1..], b[1..]);
    }
  }

  lemma FallingTail(a: seq<HistoryMessage>, x: HistoryMessage)
    requires a != [] && forall i, j :: 0 <= i < j < |a| ==> a[j].messageSeq < a[i].messageSeq
    ensures x in a[1..] <==> x in a && x != a[0]
  {
  }

  /** The messages of a log are told apart, and their numbers follow their times. */
  lemma LogFacts(page: seq<HistoryMessage>, raw: seq<HistoryMessage>)
    requires LawfulLog(page) && multiset(raw) == multiset(page)
    ensures |raw| == |page|
    ensures forall i, j :: 0 <= i < j < |raw| ==> raw[i] != raw[j]
    ensures forall x, y :: x in raw && y in raw && y.time < x.time ==> y.messageSeq < x.messageSeq
  {
    assert |multiset(raw)| == |raw| && |multiset(page)| == |page|;
    forall x | x in raw
      ensures x in page
    {
      assert x in multiset(page);
    }
    forall i, j | 0 <= i < j < |raw|
      ensures raw[i] != raw[j]
    {
      if raw[i] == raw[j] {
        TwiceCounted(raw, i, j);
        hide LawfulLog;
        DistinctLog(page);
        DistinctMultiplicity(page, raw[i]);
      }
    }
  }

  lemma DistinctLog(page: seq<HistoryMessage>)
    requires LawfulLog(page)
    ensures forall i, j :: 0 <= i < j < |page| ==> page[i] != page[j]
  {
  }

  /**
   Whatever order a part of the log comes in, the sort puts it into the order of the log,
   exactly if messages of one second come in that order.
   */
  lemma SortsToLogIff(raw: seq<HistoryMessage>, page: seq<HistoryMessage>)
    requires LawfulLog(page) && multiset(raw) == multiset(page)
    ensures SortBy(NEWEST_FIRST, raw) == page <==> TiesInOrder(raw)
  {
    hide SortBy;
    LogFacts(page, raw);
    if SortBy(NEWEST_FIRST, raw) == page {
      forall i, j | 0 <= i < j < |raw| && raw[i].time == raw[j].time
        ensures raw[j].messageSeq < raw[i].messageSeq
      {
        var p, q := SortStable(NEWEST_FIRST, raw, i, j);
      }
    }
    if TiesInOrder(raw) {
      SortedFalls(raw);
      forall x
        ensures x in SortBy(NEWEST_FIRST, raw) <==> x in page
      {
        SortMembers(NEWEST_FIRST, raw, x);
        assert x in raw <==> x in multiset(raw);
        assert x in page <==> x in multiset(page);
      }
      FallingUnique(SortBy(NEWEST_FIRST, raw), page);
    }
  }

  lemma SortedFalls(raw: seq<HistoryMessage>)
    requires TiesInOrder(raw)
    requires forall i, j :: 0 <= i < j < |raw| ==> raw[i] != raw[j]
    requires forall x, y :: x in raw && y in raw && y.time < x.time ==> y.messageSeq < x.messageSeq
    ensures var sorted := SortBy(NEWEST_FIRST, raw);
            forall p, q :: 0 <= p < q < |sorted| ==> sorted[q].messageSeq < sorted[p].messageSeq
  {
    hide SortBy;
    var sorted := SortBy(NEWEST_FIRST, raw);
    NewestFirstIsPreorder();
    SortSorts(NEWEST_FIRST, raw);
    forall p, q | 0 <= p < q < |sorted|
      ensures sorted[q].messageSeq < sorted[p].messageSeq
    {
      SortMembers(NEWEST_FIRST, raw, sorted[p]);
      SortMembers(NEWEST_FIRST, raw, sorted[q]);
      assert NEWEST_FIRST(sorted[p], sorted[q]);
      if sorted[p].time == sorted[q].time {
        TieFalls(raw, p, q);
      }
    }
  }

  lemma TieFalls(raw: seq<HistoryMessage>, p: nat, q: nat)
    requires TiesInOrder(raw) && forall i, j :: 0 <= i < j < |raw| ==> raw[i] != raw[j]
    requires p < q < |SortBy(NEWEST_FIRST, raw)|
    requires SortBy(NEWEST_FIRST, raw)[p].time == SortBy(NEWEST_FIRST, raw)[q].time
    ensures SortBy(NEWEST_FIRST, raw)[q].messageSeq < SortBy(NEWEST_FIRST, raw)[p].messageSeq
  {
    hide SortBy;
    var sorted := SortBy(NEWEST_FIRST, raw);
    SortMembers(NEWEST_FIRST, raw, sorted[p]);
    SortMembers(NEWEST_FIRST, raw, sorted[q]);
    var i :| 0 <= i < |raw| && raw[i] == sorted[p];
    var j :| 0 <= j < |raw| && raw[j] == sorted[q];
    DistinctAfterSort(NEWEST_FIRST, raw, p, q);
    if j < i {
      var p', q' := SortStable(NEWEST_FIRST, raw, j, i);
      if p' < q {
        DistinctAfterSort(NEWEST_FIRST, raw, p', q);
      } else if q < p' {
        DistinctAfterSort(NEWEST_FIRST, raw, q, p');
      }
      DistinctAfterSort(NEWEST_FIRST, raw, p, q');
    }
  }

  /** When no two messages share a second, any order at all will do. */
  lemma AnyOrderDelivers(raw: seq<HistoryMessage>, wanted: seq<HistoryMessage>)
    requires LawfulLog(wanted) && multiset(raw) == multiset(wanted)
    requires forall i, j :: 0 <= i < j < |wanted| ==> wanted[j].time < wanted[i].time
    ensures Delivers(Some(raw), wanted)
  {
    LogFacts(wanted, raw);
    forall i, j | 0 <= i < j < |raw|
      ensures raw[i].time != raw[j].time
    {
      assert raw[i] in multiset(wanted) && raw[j] in multiset(wanted);
    }
  }

  lemma {:induction false} LaterLog(logs: Logs, call: nat)
    requires Growing(logs)
    ensures LawfulLog(logs(0)) && LawfulLog(logs(call)) && EndsWith(logs(call), logs(0))
  {
    hide LawfulLog;
    if call > 0 {
      LaterLog(logs, call - 1);
      var first, earlier, later := logs(0), logs(call - 1), logs(call);
      assert EndsWith(logs(call - 1 + 1), earlier);
      assert later[|later| - |first|..] == later[|later| - |earlier|..][|earlier| - |first|..];
    }
  }

  /** Messages that arrived since do not show up below a number that was in the log before. */
  lemma BelowGrown(logs: Logs, call: nat, n: nat)
    requires Growing(logs) && 0 < n <= |logs(0)|
    ensures Below(logs(call), logs(0)[n - 1].messageSeq) == logs(0)[n..]
  {
    LaterLog(logs, call);
    var arrived := |logs(call)| - |logs(0)|;
    assert logs(call)[arrived..][n - 1] == logs(0)[n - 1] && logs(call)[arrived..][n..] == logs(0)[n..];
    BelowNth(logs(call), arrived + n);
  }

  lemma {:induction false} BelowNth(log: seq<HistoryMessage>, n: nat)
    requires LawfulLog(log) && 0 < n <= |log|
    ensures Below(log, log[n - 1].messageSeq) == log[n..]
  {
    if n == 1 {
      assert Below(log[1..], log[0].messageSeq) == log[1..];
    } else {
      BelowNth(log[1..], n - 1);
      assert log[1..][n - 2] == log[n - 1] && log[1..][n - 1..] == log[n..];
    }
  }

  ghost function IdsOf(ms: seq<HistoryMessage>): set<int> {
    set m | m in ms :: m.messageID
  }

  /** Collecting the next page of a lawful log appends the whole page. */
  lemma {:induction false} CollectNext(log: seq<HistoryMessage>, n: nat, k: nat)
    requires LawfulLog(log) && n <= k <= |log|
    ensures Collect(Collected(log[..n], IdsOf(log[..n])), log[n..k]) == Collected(log[..k], IdsOf(log[..k]))
    decreases k - n
  {
    if n < k {
      assert log[n..k][1..] == log[n + 1..k];
      assert log[..n + 1] == log[..n] + [log[n]];
      assert IdsOf(log[..n + 1]) == IdsOf(log[..n]) + {log[n].messageID};
      assert log[n].messageID !in IdsOf(log[..n]);
      CollectNext(log, n + 1, k);
    }
  }

  /** How far a lawful fetch gets: to the end of the log, to the cap, or past the window. */
  ghost predicate Reaches(log: seq<HistoryMessage>, startTime: int, k: nat) {
    k <= |log| && k <= MAX_FETCH && (k == |log| || k == MAX_FETCH || (0 < k && log[k - 1].time < startTime))
  }

  ghost function MarkSeq(log: seq<HistoryMessage>, n: nat): int
    requires n <= |log|
  {
    if n == 0 then 0 else log[n - 1].messageSeq
  }

  /** How much of the log `j` full pages reach. */
  function PagesReach(log: seq<HistoryMessage>, j: nat): (n: nat)
    ensures n <= |log|
  {
    if |log| <= 50 * j then |log| else 50 * j
  }

  lemma FirstLogLawful(p: Provider, logs: Logs)
    requires Lawful(p, logs)
    ensures LawfulLog(logs(0))
  {
  }

  lemma PartIsLawful(log: seq<HistoryMessage>, n: nat, k: nat)
    requires LawfulLog(log) && n <= k <= |log|
    ensures LawfulLog(log[n..k])
  {
  }

  lemma PageBelow(logs: Logs, j: nat, n: nat)
    requires Growing(logs) && n <= |logs(0)| && (n == 0 ==> j == 0)
    ensures NewestBefore(logs(j), MarkSeq(logs(0), n), PAGE_SIZE) == Take(logs(0)[n..], PAGE_SIZE)
  {
    if n > 0 {
      assert 0 < MarkSeq(logs(0), n) by {
        LaterLog(logs, 0);
      }
      hide LawfulLog, Below, Take, Growing;
      BelowGrown(logs, j, n);
    } else {
      assert logs(0)[0..] == logs(0);
    }
  }

  /** The answer to the `j`-th request, sorted, is the `j`-th page of the log. */
  lemma LawfulPage(p: Provider, logs: Logs, j: nat)
    requires Lawful(p, logs) && (0 < j ==> logs(0) != [])
    ensures var log := logs(0);
            var n, k := PagesReach(log, j), PagesReach(log, j + 1);
            var answer := p(j, MarkSeq(log, n), PAGE_SIZE);
            n <= k && answer.Some? && |answer.value| == k - n && SortBy(NEWEST_FIRST, answer.value) == log[n..k]
  {
    hide NewestBefore, LawfulLog, Growing, EndsWith, SortBy, TiesInOrder;
    var log := logs(0);
    var n, k := PagesReach(log, j), PagesReach(log, j + 1);
    PageBelow(logs, j, n);
    LaterLog(logs, 0);
    PartIsLawful(log, n, k);
    assert Take(log[n..], PAGE_SIZE) == log[n..k];
    var answer := p(j, MarkSeq(log, n), PAGE_SIZE);
    assert Delivers(answer, log[n..k]);
    SortsToLogIff(answer.value, log[n..k]);
    LogFacts(log[n..k], answer.value);
  }

  /** The oldest message of a page, and why paging can go on from it. */
  lemma PageEnd(log: seq<HistoryMessage>, n: nat, k: nat)
    requires LawfulLog(log) && n < k <= |log|
    ensures log[n..k] != [] && log[n..k][k - n - 1] == log[k - 1]
    ensures MarkSeq(log, k) == log[k - 1].messageSeq
    ensures 0 < MarkSeq(log, k) && MarkSeq(log, k) != MarkSeq(log, n)
  {
  }

  /** One turn of the paging loop on an answer that sorts to `page`. */
  lemma FetchUnfold(
    p: Provider, startTime: int, call: nat, c: Collected, nextSeq: int, prevSeq: int, total: nat,
    raw: seq<HistoryMessage>, page: seq<HistoryMessage>)
    requires total < MAX_FETCH && p(call, nextSeq, PAGE_SIZE) == Some(raw)
    requires SortBy(NEWEST_FIRST, raw) == page && |raw| == |page|
    ensures var r := FetchPages(p, startTime, call, c, nextSeq, prevSeq, total);
            if page == [] then r == Fetched(Some(c.all), call + 1, total) else
              var oldest, c' := page[|page| - 1], Collect(c, page);
              if Ends(startTime, prevSeq, total + |page|, oldest)
              then r == Fetched(Some(c'.all), call + 1, total + |page|)
              else r == FetchPages(p, startTime, call + 1, c', oldest.messageSeq, oldest.messageSeq, total + |page|)
  {
    hide Collect, SortBy;
  }

  /** No page is asked for once one has gone back past `startTime`, or the log is used up. */
  ghost predicate NeverTooMany(log: seq<HistoryMessage>, startTime: int, calls: nat) {
    forall j: nat :: 0 < j < calls ==> 50 * (j - 1) < |log| && log[PagesReach(log, j) - 1].time >= startTime
  }

  lemma {:induction false} LawfulFetchFrom(p: Provider, logs: Logs, startTime: int, j: nat)
    returns (k: nat)
    requires Lawful(p, logs) && PagesReach(logs(0), j) < MAX_FETCH && (0 < j ==> logs(0) != [])
    requires NeverTooMany(logs(0), startTime, j + 1)
    ensures Reaches(logs(0), startTime, k)
    ensures var log := logs(0);
            var n := PagesReach(log, j);
            var c := Collected(log[..n], IdsOf(log[..n]));
            var r := FetchPages(p, startTime, j, c, MarkSeq(log, n), MarkSeq(log, n), n);
            r.all == Some(log[..k]) && NeverTooMany(log, startTime, r.calls)
    decreases |logs(0)| - PagesReach(logs(0), j)
  {
    hide Lawful, SortBy, Collect, FetchPages, IdsOf, MarkSeq, LawfulLog;
    FirstLogLawful(p, logs);
    var log := logs(0);
    var n, e := PagesReach(log, j), PagesReach(log, j + 1);
    LawfulPage(p, logs, j);
    var raw := p(j, MarkSeq(log, n), PAGE_SIZE).value;
    var c := Collected(log[..n], IdsOf(log[..n]));
    FetchUnfold(p, startTime, j, c, MarkSeq(log, n), MarkSeq(log, n), n, raw, log[n..e]);
    if e == n {
      return n;
    }
    CollectNext(log, n, e);
    PageEnd(log, n, e);
    if log[e - 1].time < startTime || e >= MAX_FETCH {
      return e;
    }
    k := LawfulFetchFrom(p, logs, startTime, j + 1);
  }

  lemma {:induction false} WindowAppend(a: seq<HistoryMessage>, b: seq<HistoryMessage>, startTime: int, endTime: int)
    ensures InWindow(a + b, startTime, endTime) == InWindow(a, startTime, endTime) + InWindow(b, startTime, endTime)
    decreases |b|
  {
    if b == [] {
      assert a + b == a;
    } else {
      WindowAppend(a, b[..|b| - 1], startTime, endTime);
      assert (a + b)[..|a + b| - 1] == a + b[..|b| - 1];
    }
  }

  lemma {:induction false} WindowEmpty(ms: seq<HistoryMessage>, startTime: int, endTime: int)
    requires forall m :: m in ms ==> m.time < startTime
    ensures InWindow(ms, startTime, endTime) == []
  {
    if ms != [] {
      WindowEmpty(ms[..|ms| - 1], startTime, endTime);
    }
  }

  /**
   Against a lawful provider the pager selects exactly the messages of the window among
   the newest 500 of the log as it was at the first call, each once and newest first,
   whatever arrives while it pages.
   */
  lemma LawfulFetch(p: Provider, logs: Logs, startTime: int, endTime: int)
    requires Lawful(p, logs)
    ensures FetchAll(p, startTime).all.Some?
    ensures InWindow(FetchAll(p, startTime).all.value, startTime, endTime)
            == InWindow(Take(logs(0), MAX_FETCH), startTime, endTime)
    ensures NeverTooMany(logs(0), startTime, FetchAll(p, startTime).calls)
  {
    LaterLog(logs, 0);
    var log := logs(0);
    assert log[..0] == [] && IdsOf(log[..0]) == {};
    var k := LawfulFetchFrom(p, logs, startTime, 0);
    hide FetchPages, InWindow, Lawful;
    var newest := Take(log, MAX_FETCH);
    if k < |newest| {
      assert newest == log[..k] + newest[k..];
      assert forall i :: k <= i < |newest| ==> newest[i] == log[i];
      WindowAppend(log[..k], newest[k..], startTime, endTime);
      WindowEmpty(newest[k..], startTime, endTime);
    } else {
      assert newest == log[..k];
    }
  }

  /** The selection misses nothing exactly when no message of the window is older than the newest 500. */
  lemma LawfulFetchCompleteIff(p: Provider, logs: Logs, startTime: int, endTime: int)
    requires Lawful(p, logs)
    ensures FetchAll(p, startTime).all.Some?
    ensures InWindow(FetchAll(p, startTime).all.value, startTime, endTime) == InWindow(logs(0), startTime, endTime)
            <==> forall i :: MAX_FETCH <= i < |logs(0)| ==> !Inside(logs(0)[i], startTime, endTime)
  {
    LawfulFetch(p, logs, startTime, endTime);
    hide FetchPages, FetchAll, InWindow, Lawful, Inside, Take;
    var log := logs(0);
    var newest := Take(log, MAX_FETCH);
    var rest := log[|newest|..];
    assert log == newest + rest by {
      TakePrefix(log, MAX_FETCH);
    }
    WindowAppend(newest, rest, startTime, endTime);
    WindowEmptyIff(rest, startTime, endTime);
    OlderThanTaken(log, startTime, endTime);
  }

  lemma TakePrefix(ms: seq<HistoryMessage>, n: nat)
    ensures |Take(ms, n)| == (if |ms| <= n then |ms| else n) && ms == Take(ms, n) + ms[|Take(ms, n)|..]
  {
  }

  lemma WindowEmptyIff(ms: seq<HistoryMessage>, startTime: int, endTime: int)
    ensures InWindow(ms, startTime, endTime) == [] <==> forall i :: 0 <= i < |ms| ==> !Inside(ms[i], startTime, endTime)
  {
    hide InWindow, Inside;
    var at := WindowShape(ms, startTime, endTime);
    if |at| > 0 {
      assert Inside(ms[at[0]], startTime, endTime);
    } else {
      forall i | 0 <= i < |ms|
        ensures !Inside(ms[i], startTime, endTime)
      {
        if Inside(ms[i], startTime, endTime) {
          WindowKeeps(ms, startTime, endTime, i);
        }
      }
    }
  }

  lemma OlderThanTaken(log: seq<HistoryMessage>, startTime: int, endTime: int)
    ensures var rest := log[|Take(log, MAX_FETCH)|..];
            (forall i :: 0 <= i < |rest| ==> !Inside(rest[i], startTime, endTime))
            <==> (forall i :: MAX_FETCH <= i < |log| ==> !Inside(log[i], startTime, endTime))
  {
    hide Inside;
    var rest := log[|Take(log, MAX_FETCH)|..];
    if |log| > MAX_FETCH {
      assert forall i :: MAX_FETCH <= i < |log| ==> log[i] == rest[i - MAX_FETCH];
      assert forall i :: 0 <= i < |rest| ==> rest[i] == log[MAX_FETCH + i];
    }
  }

  // ------------------------------------------------- completeness, in whatever order pages come

  /** Every call is answered with the messages wanted, in any order, ties included. */
  ghost predicate Shuffled(p: Provider, logs: Logs) {
    Growing(logs)
    && forall call, before, count :: Permutes(p(call, before, count), NewestBefore(logs(call), before, count))
  }

  ghost predicate Permutes(answer: Option<seq<HistoryMessage>>, wanted: seq<HistoryMessage>) {
    answer.Some? && multiset(answer.value) == multiset(wanted)
  }

  /** Exactly the first `n` messages of the log have been collected, in some order, each once. */
  ghost predicate Holds(log: seq<HistoryMessage>, n: nat, c: Collected)
    requires n <= |log|
  {
    && SeenAll(c) && (forall x :: x in c.all <==> x in log[..n])
    && (forall id :: id in c.seen ==> exists x :: x in c.all && x.messageID == id)
  }

  /** A page that begins within what has been collected adds what it reaches beyond. */
  lemma CollectShuffled(log: seq<HistoryMessage>, n: nat, s: nat, e: nat, c: Collected, page: seq<HistoryMessage>)
    requires LawfulLog(log) && s <= n <= e <= |log| && Holds(log, n, c)
    requires forall x :: x in page <==> x in log[s..e]
    ensures Holds(log, e, Collect(c, page))
  {
    var c' := Collect(c, page);
    CollectDistinct(c, page);
    CollectKeeps(c, page);
    hide Collect, SeenAll;
    forall x
      ensures x in c'.all <==> x in log[..e]
    {
      PrefixParts(log, n, s, e, x);
      if x in page && x !in c'.all {
        var y :| y in c'.all && y.messageID == x.messageID;
        PrefixParts(log, n, s, e, y);
        SameMessage(log, e, x, y);
      }
    }
  }

  lemma PrefixParts(log: seq<HistoryMessage>, n: nat, s: nat, e: nat, x: HistoryMessage)
    requires s <= n <= e <= |log|
    ensures x in log[..e] <==> x in log[..n] || x in log[s..e]
  {
    assert log[..e] == log[..s] + log[s..e];
    assert log[..e] == log[..n] + log[n..e];
    assert log[s..e] == log[s..n] + log[n..e];
  }

  lemma SameMessage(log: seq<HistoryMessage>, e: nat, x: HistoryMessage, y: HistoryMessage)
    requires LawfulLog(log) && e <= |log| && x in log[..e] && y in log[..e] && x.messageID == y.messageID
    ensures x == y
  {
  }

  /** The answer to a request below the message at `m`, and what is last in it once sorted. */
  lemma ShuffledPage(p: Provider, logs: Logs, call: nat, s: nat, nextSeq: int) returns (m: nat)
    requires Shuffled(p, logs) && s <= |logs(0)| && nextSeq == MarkSeq(logs(0), s) && (s == 0 ==> call == 0)
    ensures var log := logs(0);
            var e, answer := PageTo(log, s), p(call, nextSeq, PAGE_SIZE);
            && answer.Some? && |answer.value| == e - s
            && var page := SortBy(NEWEST_FIRST, answer.value);
               && |page| == e - s && (forall x :: x in page <==> x in log[s..e])
               && (s < e ==> s <= m < e && page[e - s - 1] == log[m] && log[m].time == log[e - 1].time)
  {
    var log := logs(0);
    var e, answer := PageTo(log, s), p(call, nextSeq, PAGE_SIZE);
    assert Permutes(answer, NewestBefore(logs(call), nextSeq, PAGE_SIZE));
    hide NewestBefore, Growing, SortBy, LawfulLog;
    LaterLog(logs, 0);
    PageBelow(logs, call, s);
    assert Take(log[s..], PAGE_SIZE) == log[s..e];
    m := LastOfPage(log, s, e, answer.value);
  }

  function PageTo(log: seq<HistoryMessage>, s: nat): (e: nat)
    requires s <= |log|
    ensures s <= e <= |log|
  {
    if |log| <= s + 50 then |log| else s + 50
  }

  lemma LastOfPage(log: seq<HistoryMessage>, s: nat, e: nat, raw: seq<HistoryMessage>) returns (m: nat)
    requires LawfulLog(log) && s <= e <= |log| && multiset(raw) == multiset(log[s..e])
    ensures |raw| == e - s
    ensures var page := SortBy(NEWEST_FIRST, raw);
            && |page| == e - s && (forall x :: x in page <==> x in log[s..e])
            && (s < e ==> s <= m < e && page[e - s - 1] == log[m] && log[m].time == log[e - 1].time)
  {
    hide SortBy;
    var page := SortBy(NEWEST_FIRST, raw);
    SortPermutes(NEWEST_FIRST, raw);
    NewestFirstIsPreorder();
    SortSorts(NEWEST_FIRST, raw);
    assert |multiset(raw)| == |raw| && |multiset(log[s..e])| == e - s;
    forall x
      ensures x in page <==> x in log[s..e]
    {
      assert x in page <==> x in multiset(page);
      assert x in log[s..e] <==> x in multiset(log[s..e]);
    }
    m := s;
    if s < e {
      var last := page[e - s - 1];
      assert last in page;
      m :| s <= m < e && log[m] == last;
      assert log[s..e][e - 1 - s] == log[e - 1] && log[e - 1] in page;
      var j :| 0 <= j < |page| && page[j] == log[e - 1];
      assert j < e - s - 1 ==> NEWEST_FIRST(page[j], last);
    }
  }

  lemma {:induction false} ShuffledFetchFrom(
    p: Provider, logs: Logs, startTime: int, call: nat, s: nat, n: nat, c: Collected, total: nat)
    returns (k: nat, c': Collected)
    requires Shuffled(p, logs) && total < MAX_FETCH
    requires s <= n <= |logs(0)| && n <= s + 49 && (s == 0 ==> call == 0 && n == 0) && Holds(logs(0), n, c)
    ensures k <= |logs(0)| && Holds(logs(0), k, c')
    ensures var r := FetchPages(p, startTime, call, c, MarkSeq(logs(0), s), MarkSeq(logs(0), s), total);
            && r.all == Some(c'.all)
            && (k == |logs(0)| || (0 < k && logs(0)[k - 1].time < startTime) || r.total >= MAX_FETCH)
    decreases |logs(0)| - s
  {
    hide *;
    var log := logs(0);
    var e, mark := PageTo(log, s), MarkSeq(log, s);
    var m := ShuffledPage(p, logs, call, s, mark);
    var raw := p(call, mark, PAGE_SIZE).value;
    var page := SortBy(NEWEST_FIRST, raw);
    FetchUnfold(p, startTime, call, c, mark, mark, total, raw, page);
    PageReach(log, s, n);
    if e == s {
      return n, c;
    }
    FirstShuffledLawful(p, logs);
    CollectShuffled(log, n, s, e, c, page);
    c' := Collect(c, page);
    MarkAfter(log, s, m);
    EndsMeans(startTime, mark, total + |page|, log[m]);
    if log[m].time < startTime || total + |page| >= MAX_FETCH {
      return e, c';
    }
    k, c' := ShuffledFetchFrom(p, logs, startTime, call + 1, m + 1, e, c', total + |page|);
  }

  lemma FirstShuffledLawful(p: Provider, logs: Logs)
    requires Shuffled(p, logs)
    ensures LawfulLog(logs(0))
  {
  }

  lemma PageReach(log: seq<HistoryMessage>, s: nat, n: nat)
    requires s <= n <= |log| && n <= s + 49
    ensures n <= PageTo(log, s) <= s + 50 && (PageTo(log, s) == s ==> s == n == |log|)
  {
  }

  lemma MarkAfter(log: seq<HistoryMessage>, s: nat, m: nat)
    requires LawfulLog(log) && s <= m < |log|
    ensures MarkSeq(log, m + 1) == log[m].messageSeq && 0 < log[m].messageSeq && log[m].messageSeq != MarkSeq(log, s)
  {
  }

  lemma EndsMeans(startTime: int, prevSeq: int, total: int, oldest: HistoryMessage)
    requires 0 < oldest.messageSeq && oldest.messageSeq != prevSeq
    ensures Ends(startTime, prevSeq, total, oldest) <==> oldest.time < startTime || total >= MAX_FETCH
  {
  }

  lemma NothingHeld(log: seq<HistoryMessage>)
    ensures Holds(log, 0, Collected([], {})) && MarkSeq(log, 0) == 0
  {
  }

  /**
   Whatever order a provider gives its pages in, messages of one second included, a fetch
   selects the window's messages of a prefix of the log, each once; and if fewer than 500
   messages came in all, repeated ones counted, it misses none of the window.
   */
  lemma ShuffledFetch(p: Provider, logs: Logs, startTime: int, endTime: int)
    requires Shuffled(p, logs)
    ensures FetchAll(p, startTime).all.Some?
    ensures var selected := InWindow(FetchAll(p, startTime).all.value, startTime, endTime);
            && DistinctIds(selected)
            && (forall m :: m in selected ==> m in logs(0) && startTime <= m.time <= endTime)
            && (FetchAll(p, startTime).total < 500 ==>
                  forall m :: m in logs(0) && startTime <= m.time <= endTime ==> m in selected)
  {
    hide *;
    var log := logs(0);
    NothingHeld(log);
    FetchAllStarts(p, startTime);
    var k, c := ShuffledFetchFrom(p, logs, startTime, 0, 0, 0, Collected([], {}), 0);
    FetchSafety(p, startTime, endTime);
    FirstShuffledLawful(p, logs);
    forall m
      ensures m in InWindow(c.all, startTime, endTime) <==> m in c.all && startTime <= m.time <= endTime
      ensures m in c.all ==> m in log
      ensures m in log && startTime <= m.time && (k == |log| || (0 < k && log[k - 1].time < startTime)) ==> m in c.all
    {
      WindowMember(c.all, startTime, endTime, m);
      HeldMember(log, k, c, m);
      if m in log && startTime <= m.time && (k == |log| || (0 < k && log[k - 1].time < startTime)) {
        StillReached(log, k, startTime, m);
      }
    }
  }

  lemma FetchAllStarts(p: Provider, startTime: int)
    ensures FetchAll(p, startTime) == FetchPages(p, startTime, 0, Collected([], {}), 0, 0, 0) && MAX_FETCH == 500
  {
  }

  lemma HeldMember(log: seq<HistoryMessage>, k: nat, c: Collected, m: HistoryMessage)
    requires k <= |log| && Holds(log, k, c)
    ensures (m in c.all <==> m in log[..k]) && (m in log[..k] ==> m in log)
  {
    hide SeenAll;
  }

  lemma StillReached(log: seq<HistoryMessage>, k: nat, startTime: int, m: HistoryMessage)
    requires LawfulLog(log) && k <= |log| && m in log && startTime <= m.time
    requires k == |log| || (0 < k && log[k - 1].time < startTime)
    ensures m in log[..k]
  {
    var i :| 0 <= i < |log| && log[i] == m;
    assert log[..k][i] == m;
  }

  lemma {:induction false} WindowMember(ms: seq<HistoryMessage>, startTime: int, endTime: int, m: HistoryMessage)
    ensures m in InWindow(ms, startTime, endTime) <==> m in ms && startTime <= m.time <= endTime
  {
    if ms != [] {
      WindowMember(ms[..|ms| - 1], startTime, endTime, m);
      assert ms == ms[..|ms| - 1] + [ms[|ms| - 1]];
    }
  }

  // ------------------------------------------------- what is shown

  /** `out` shows, in order, the messages of `ms` at the rising positions `at`. */
  ghost predicate Shows(ms: seq<HistoryMessage>, at: seq<nat>, out: seq<Output>) {
    && |at| == |out| && (forall i, j :: 0 <= i < j < |at| ==> at[i] < at[j])
    && forall i :: 0 <= i < |at| ==> at[i] < |ms| && ShowsOne(ms[at[i]], out[i])
  }

  predicate ShowsOne(m: HistoryMessage, o: Output) {
    && o.messageID == m.messageID && o.time == m.time && o.userID == m.userID
    && o.nickName == m.nickName && o.content == m.content
  }

  lemma ShowsSnoc(ms: seq<HistoryMessage>, m: HistoryMessage, at: seq<nat>, out: seq<Output>)
    requires Shows(ms, at, out)
    ensures Shows(ms + [m], at, out)
    ensures Shows(ms + [m], at + [|ms|], out + [Output(m.messageID, m.time, m.userID, m.nickName, m.content)])
  {
  }

  /** The positions up to `n` whose message has text and a time from `startTime` to `endTime`. */
  ghost predicate Selects(ms: seq<HistoryMessage>, startTime: int, endTime: int, at: seq<nat>) {
    forall k: nat :: k in at <==> k < |ms| && SelectsOne(ms[k], startTime, endTime)
  }

  predicate SelectsOne(m: HistoryMessage, startTime: int, endTime: int) {
    m.content != "" && startTime <= m.time <= endTime
  }

  lemma SelectsSnoc(ms: seq<HistoryMessage>, m: HistoryMessage, startTime: int, endTime: int, at: seq<nat>)
    requires Selects(ms, startTime, endTime, at)
    ensures Selects(ms + [m], startTime, endTime, if SelectsOne(m, startTime, endTime) then at + [|ms|] else at)
  {
    hide SelectsOne;
    var all, at' := ms + [m], if SelectsOne(m, startTime, endTime) then at + [|ms|] else at;
    forall k: nat
      ensures k in at' <==> k < |all| && SelectsOne(all[k], startTime, endTime)
    {
      assert k < |ms| ==> all[k] == ms[k];
      assert k in at ==> k < |ms|;
    }
  }

  lemma TextSnoc(ms: seq<HistoryMessage>, m: HistoryMessage)
    ensures TextOnly(ms + [m]) == if m.content == "" then TextOnly(ms)
                                  else TextOnly(ms) + [Output(m.messageID, m.time, m.userID, m.nickName, m.content)]
  {
    assert (ms + [m])[..|ms|] == ms;
  }

  lemma NothingShown(startTime: int, endTime: int)
    ensures Shows([], [], TextOnly([])) && HasText([], [])
    ensures Shows([], [], TextOnly(InWindow([], startTime, endTime))) && Selects([], startTime, endTime, [])
  {
  }

  /** Filtering by the window and then by text shows exactly the messages with text in the window. */
  lemma {:induction false} WindowTextShows(ms: seq<HistoryMessage>, startTime: int, endTime: int)
    returns (at: seq<nat>)
    ensures Shows(ms, at, TextOnly(InWindow(ms, startTime, endTime))) && Selects(ms, startTime, endTime, at)
  {
    hide *;
    at := [];
    if ms == [] {
      NothingShown(startTime, endTime);
    } else {
      var before, m := ms[..|ms| - 1], ms[|ms| - 1];
      assert ms == before + [m];
      at := WindowTextShows(before, startTime, endTime);
      WindowSnoc(before, m, startTime, endTime);
      TextSnoc(InWindow(before, startTime, endTime), m);
      ShowsSnoc(before, m, at, TextOnly(InWindow(before, startTime, endTime)));
      SelectsSnoc(before, m, startTime, endTime, at);
      SelectsOneMeans(m, startTime, endTime);
      if SelectsOne(m, startTime, endTime) {
        at := at + [|before|];
      }
    }
  }

  lemma SelectsOneMeans(m: HistoryMessage, startTime: int, endTime: int)
    ensures SelectsOne(m, startTime, endTime) <==> m.content != "" && Inside(m, startTime, endTime)
  {
  }

  /** `at` holds exactly the positions of the messages with text. */
  ghost predicate HasText(ms: seq<HistoryMessage>, at: seq<nat>) {
    forall k: nat :: k in at <==> k < |ms| && ms[k].content != ""
  }

  lemma HasTextSnoc(ms: seq<HistoryMessage>, m: HistoryMessage, at: seq<nat>)
    requires HasText(ms, at)
    ensures HasText(ms + [m], if m.content != "" then at + [|ms|] else at)
  {
    var all, at' := ms + [m], if m.content != "" then at + [|ms|] else at;
    forall k: nat
      ensures k in at' <==> k < |all| && all[k].content != ""
    {
      assert k < |ms| ==> all[k] == ms[k];
      assert k in at ==> k < |ms|;
    }
  }

  /** Filtering by text alone shows exactly the messages with text. */
  lemma {:induction false} TextShows(ms: seq<HistoryMessage>) returns (at: seq<nat>)
    ensures Shows(ms, at, TextOnly(ms)) && HasText(ms, at)
  {
    hide *;
    at := [];
    if ms == [] {
      NothingShown(0, 0);
    } else {
      var before, m := ms[..|ms| - 1], ms[|ms| - 1];
      assert ms == before + [m];
      at := TextShows(before);
      TextSnoc(before, m);
      ShowsSnoc(before, m, at, TextOnly(before));
      HasTextSnoc(before, m, at);
      if m.content != "" {
        at := at + [|before|];
      }
    }
  }

  /** The selection is already newest first, so the final sort keeps it as it is. */
  lemma LawfulOutput(log: seq<HistoryMessage>, startTime: int, endTime: int)
    requires LawfulLog(log)
    ensures var selected := InWindow(Take(log, MAX_FETCH), startTime, endTime);
            TextOnly(SortBy(NEWEST_FIRST, selected)) == TextOnly(selected)
  {
    hide InWindow, SortBy, TextOnly, Inside;
    var newest := Take(log, MAX_FETCH);
    var at := WindowShape(newest, startTime, endTime);
    SortFixes(NEWEST_FIRST, InWindow(newest, startTime, endTime));
  }

  // ------------------------------------------------- the tool

  datatype Input = Input(targetType: string, targetID: int, count: int, startTime: int, endTime: int)

  predicate ValidInput(i: Input) {
    && (i.targetType == "private" || i.targetType == "group")
    && i.targetID > 0
    && !(i.startTime > 0 && i.endTime > 0 && i.startTime > i.endTime)
  }

  /** The message at position `k` of the log, newest first, is one that a valid request asks for. */
  predicate Wanted(log: seq<HistoryMessage>, i: Input, clock: int, k: nat) {
    && k < |log| && log[k].content != ""
    && if i.startTime > 0 || i.endTime > 0
       then k < 500 && i.startTime <= log[k].time && log[k].time <= (if i.endTime == 0 then clock else i.endTime)
       else k < (if i.count <= 0 then 20 else if i.count > 100 then 100 else i.count)
  }

  function RawHistory(p: Provider, i: Input, clock: int): Option<seq<HistoryMessage>> {
    if i.startTime > 0 || i.endTime > 0 then
      match FetchAll(p, i.startTime).all
      case None => None
      case Some(all) => Some(InWindow(all, i.startTime, if i.endTime == 0 then clock else i.endTime))
    else p(0, 0, NormalizeCount(i.count))
  }

  function History(p: Provider, i: Input, clock: int): Result<seq<Output>> {
    if !ValidInput(i) || RawHistory(p, i, clock).None? then Failure
    else Success(TextOnly(SortBy(NEWEST_FIRST, RawHistory(p, i, clock).value)))
  }

  /** For any provider, what is shown of a list is its messages with text, newest first. */
  ghost predicate ShowsNewestFirst(raw: seq<HistoryMessage>, out: seq<Output>) {
    exists newest: seq<HistoryMessage>, at: seq<nat> ::
      multiset(newest) == multiset(raw) && Falls(newest) && Shows(newest, at, out) && HasText(newest, at)
  }

  ghost predicate Falls(ms: seq<HistoryMessage>) {
    forall i, j :: 0 <= i < j < |ms| ==> ms[j].time <= ms[i].time
  }

  lemma SortedShows(raw: seq<HistoryMessage>)
    ensures var out := TextOnly(SortBy(NEWEST_FIRST, raw));
            ShowsNewestFirst(raw, out) && forall i, j :: 0 <= i < j < |out| ==> out[j].time <= out[i].time
  {
    hide SortBy, TextOnly;
    var newest := SortBy(NEWEST_FIRST, raw);
    SortPermutes(NEWEST_FIRST, raw);
    NewestFirstIsPreorder();
    SortSorts(NEWEST_FIRST, raw);
    assert Falls(newest) by {
      assert forall i, j :: 0 <= i < j < |newest| ==> NEWEST_FIRST(newest[i], newest[j]);
    }
    var at := TextShows(newest);
  }

  method GetMessageHistory(p: Provider, i: Input, clock: int) returns (r: Result<seq<Output>>)
    ensures r == History(p, i, clock)
    ensures (i.targetType != "private" && i.targetType != "group") || i.targetID <= 0 ==> r.Failure?
    ensures i.startTime > 0 && i.endTime > 0 && i.startTime > i.endTime ==> r.Failure?
    ensures r.Success? ==> RawHistory(p, i, clock).Some? && ShowsNewestFirst(RawHistory(p, i, clock).value, r.value)
    ensures r.Success? ==> forall i, j :: 0 <= i < j < |r.value| ==> r.value[j].time <= r.value[i].time
  {
    hide FetchAll, InWindow, SortBy, TextOnly, ShowsNewestFirst;
    if (i.targetType != "private" && i.targetType != "group") || i.targetID <= 0
       || (i.startTime > 0 && i.endTime > 0 && i.startTime > i.endTime) {
      return Failure;
    }
    var raw: Option<seq<HistoryMessage>>;
    if i.startTime > 0 || i.endTime > 0 {
      var calls;
      raw, calls := FetchInTimeRange(p, i.startTime, i.endTime, clock);
    } else {
      raw := p(0, 0, NormalizeCount(i.count));
    }
    if raw.None? {
      return Failure;
    }
    SortedShows(raw.value);
    var out := BuildHistoryOutput(raw.value);
    r := Success(out);
  }

  /**
   Against a lawful provider the tool answers every valid request, in the order of the log
   as it was at the first call, with exactly the messages asked for that have text.
   */
  lemma LawfulHistory(p: Provider, logs: Logs, i: Input, clock: int)
    requires Lawful(p, logs) && ValidInput(i)
    ensures History(p, i, clock).Success?
    ensures exists at :: Shows(logs(0), at, History(p, i, clock).value)
                         && forall k: nat :: k in at <==> Wanted(logs(0), i, clock, k)
  {
    hide *;
    var log := logs(0);
    if i.startTime > 0 || i.endTime > 0 {
      var endTime := if i.endTime == 0 then clock else i.endTime;
      RangeAnswer(p, logs, i, clock);
      var at := WindowTextShows(Take(log, MAX_FETCH), i.startTime, endTime);
      WindowPositions(log, i, clock, at);
      ShowsPrefix(log, MAX_FETCH, at, TextOnly(InWindow(Take(log, MAX_FETCH), i.startTime, endTime)));
    } else {
      var n := NormalizeCount(i.count);
      CountAnswer(p, logs, i, clock);
      var at := TextShows(Take(log, n));
      CountPositions(log, i, clock, at);
      ShowsPrefix(log, n, at, TextOnly(Take(log, n)));
    }
  }

  lemma RangeAnswer(p: Provider, logs: Logs, i: Input, clock: int)
    requires Lawful(p, logs) && ValidInput(i) && (i.startTime > 0 || i.endTime > 0)
    ensures var endTime := if i.endTime == 0 then clock else i.endTime;
            History(p, i, clock) == Success(TextOnly(InWindow(Take(logs(0), MAX_FETCH), i.startTime, endTime)))
  {
    var endTime := if i.endTime == 0 then clock else i.endTime;
    LaterLog(logs, 0);
    hide FetchAll, InWindow, SortBy, TextOnly, Lawful, LawfulLog, EndsWith, Take, NeverTooMany;
    LawfulFetch(p, logs, i.startTime, endTime);
    LawfulOutput(logs(0), i.startTime, endTime);
  }

  lemma CountAnswer(p: Provider, logs: Logs, i: Input, clock: int)
    requires Lawful(p, logs) && ValidInput(i) && i.startTime <= 0 && i.endTime <= 0
    ensures History(p, i, clock) == Success(TextOnly(Take(logs(0), NormalizeCount(i.count))))
  {
    SortedCountAnswer(p, logs, NormalizeCount(i.count));
    hide Lawful, SortBy, TextOnly, Take, NormalizeCount;
  }

  lemma CountPositions(log: seq<HistoryMessage>, i: Input, clock: int, at: seq<nat>)
    requires i.startTime <= 0 && i.endTime <= 0 && HasText(Take(log, NormalizeCount(i.count)), at)
    ensures forall k: nat :: k in at <==> Wanted(log, i, clock, k)
  {
    var n := NormalizeCount(i.count);
    assert forall k: nat :: k < |Take(log, n)| ==> Take(log, n)[k] == log[k];
  }

  lemma SortedCountAnswer(p: Provider, logs: Logs, n: nat)
    requires Lawful(p, logs)
    ensures p(0, 0, n).Some? && SortBy(NEWEST_FIRST, p(0, 0, n).value) == Take(logs(0), n)
  {
    hide LawfulLog, SortBy, TiesInOrder;
    LaterLog(logs, 0);
    assert Delivers(p(0, 0, n), NewestBefore(logs(0), 0, n));
    var k := if |logs(0)| <= n then |logs(0)| else n;
    assert Take(logs(0), n) == logs(0)[0..k];
    PartIsLawful(logs(0), 0, k);
    SortsToLogIff(p(0, 0, n).value, Take(logs(0), n));
  }

  lemma ShowsPrefix(log: seq<HistoryMessage>, n: int, at: seq<nat>, out: seq<Output>)
    requires Shows(Take(log, n), at, out)
    ensures Shows(log, at, out)
  {
    assert forall k: nat :: k < |Take(log, n)| ==> Take(log, n)[k] == log[k];
  }

  lemma WindowPositions(log: seq<HistoryMessage>, i: Input, clock: int, at: seq<nat>)
    requires i.startTime > 0 || i.endTime > 0
    requires Selects(Take(log, MAX_FETCH), i.startTime, if i.endTime == 0 then clock else i.endTime, at)
    ensures forall k: nat :: k in at <==> Wanted(log, i, clock, k)
  {
    assert forall k: nat :: k < |Take(log, MAX_FETCH)| ==> Take(log, MAX_FETCH)[k] == log[k];
  }

  /** A message of the log that a time-range request asks for. */
  predicate InRange(m: HistoryMessage, i: Input, clock: int) {
    m.content != "" && i.startTime <= m.time && m.time <= (if i.endTime == 0 then clock else i.endTime)
  }

  /**
   And for a provider that answers in any order: as long as fewer than 500 messages came
   in, a time range is answered with exactly its messages with text, each once, and times
   that never rise.
   */
  lemma ShuffledHistory(p: Provider, logs: Logs, i: Input, clock: int)
    requires Shuffled(p, logs) && ValidInput(i) && (i.startTime > 0 || i.endTime > 0)
    requires FetchAll(p, i.startTime).total < 500
    ensures History(p, i, clock).Success?
    ensures AnswersRange(logs(0), i, clock, History(p, i, clock).value)
  {
    hide *;
    var raw := ShuffledRaw(p, logs, i, clock);
    AnswersFrom(logs(0), i, clock, raw);
  }

  ghost predicate IsShown(m: HistoryMessage, out: seq<Output>) {
    exists j :: 0 <= j < |out| && ShowsOne(m, out[j])
  }

  ghost predicate IsAskedFor(log: seq<HistoryMessage>, i: Input, clock: int, o: Output) {
    exists m :: m in log && InRange(m, i, clock) && ShowsOne(m, o)
  }

  /** Exactly the messages of the range, each once, newest first. */
  ghost predicate AnswersRange(log: seq<HistoryMessage>, i: Input, clock: int, out: seq<Output>) {
    && (forall m :: m in log && InRange(m, i, clock) ==> IsShown(m, out))
    && (forall j :: 0 <= j < |out| ==> IsAskedFor(log, i, clock, out[j]))
    && forall j, k :: 0 <= j < k < |out| ==> out[j].messageID != out[k].messageID && out[k].time <= out[j].time
  }

  lemma AnswersFrom(log: seq<HistoryMessage>, i: Input, clock: int, raw: seq<HistoryMessage>)
    requires DistinctIds(raw) && forall m :: m in raw ==> m.messageID != 0
    requires forall m :: m in raw && m.content != "" <==> m in log && InRange(m, i, clock)
    ensures AnswersRange(log, i, clock, TextOnly(SortBy(NEWEST_FIRST, raw)))
  {
    hide Shows, HasText, Falls, SortBy, TextOnly, DistinctIds, ShowsOne, InRange;
    var newest := SortBy(NEWEST_FIRST, raw);
    var at := SortedTextShows(raw);
    var out := TextOnly(newest);
    forall m | m in log && InRange(m, i, clock)
      ensures IsShown(m, out)
    {
      var j := ShownAt(newest, at, out, m);
    }
    forall j | 0 <= j < |out|
      ensures IsAskedFor(log, i, clock, out[j])
    {
      var m := ShownFrom(newest, at, out, j);
      assert m in log && InRange(m, i, clock);
    }
    hide IsShown, IsAskedFor;
    forall j, k | 0 <= j < k < |out|
      ensures out[j].messageID != out[k].messageID && out[k].time <= out[j].time
    {
      ShownOnce(newest, at, out, j, k);
    }
  }

  /** What such a provider's range comes to before sorting and dropping what has no text. */
  lemma ShuffledRaw(p: Provider, logs: Logs, i: Input, clock: int) returns (raw: seq<HistoryMessage>)
    requires Shuffled(p, logs) && ValidInput(i) && (i.startTime > 0 || i.endTime > 0)
    requires FetchAll(p, i.startTime).total < 500
    ensures History(p, i, clock) == Success(TextOnly(SortBy(NEWEST_FIRST, raw)))
    ensures DistinctIds(raw) && forall m :: m in raw ==> m.messageID != 0
    ensures forall m :: m in raw && m.content != "" <==> m in logs(0) && InRange(m, i, clock)
  {
    hide FetchAll, InWindow, SortBy, TextOnly, Shuffled, DistinctIds, LawfulLog;
    var endTime := if i.endTime == 0 then clock else i.endTime;
    ShuffledFetch(p, logs, i.startTime, endTime);
    raw := InWindow(FetchAll(p, i.startTime).all.value, i.startTime, endTime);
    FirstShuffledLawful(p, logs);
    forall m | m in logs(0)
      ensures m.messageID != 0
    {
      LogIdNotZero(logs(0), m);
    }
  }

  lemma LogIdNotZero(log: seq<HistoryMessage>, m: HistoryMessage)
    requires LawfulLog(log) && m in log
    ensures m.messageID != 0
  {
  }

  /** Sorting a list without repeated ids and keeping what has text: where it all comes from. */
  lemma SortedTextShows(raw: seq<HistoryMessage>) returns (at: seq<nat>)
    requires DistinctIds(raw) && forall m :: m in raw ==> m.messageID != 0
    ensures var newest := SortBy(NEWEST_FIRST, raw);
            && Shows(newest, at, TextOnly(newest)) && HasText(newest, at) && Falls(newest)
            && (forall x :: x in newest <==> x in raw)
            && forall j, k :: 0 <= j < k < |newest| ==> newest[j].messageID != newest[k].messageID
  {
    hide SortBy, TextOnly, Shows, HasText;
    var newest := SortBy(NEWEST_FIRST, raw);
    at := TextShows(newest);
    NewestFirstIsPreorder();
    SortSorts(NEWEST_FIRST, raw);
    assert Falls(newest) by {
      assert forall j, k :: 0 <= j < k < |newest| ==> NEWEST_FIRST(newest[j], newest[k]);
    }
    forall x
      ensures x in newest <==> x in raw
    {
      SortMembers(NEWEST_FIRST, raw, x);
    }
    hide Falls;
    forall j, k | 0 <= j < k < |newest|
      ensures newest[j].messageID != newest[k].messageID
    {
      assert newest[j] in newest && newest[k] in newest;
      DistinctAfterSort(NEWEST_FIRST, raw, j, k);
      OneOfEachId(raw, newest[j], newest[k]);
    }
  }

  lemma OneOfEachId(raw: seq<HistoryMessage>, x: HistoryMessage, y: HistoryMessage)
    requires DistinctIds(raw) && x in raw && y in raw && x != y && x.messageID != 0
    ensures x.messageID != y.messageID
  {
    var i :| 0 <= i < |raw| && raw[i] == x;
    var j :| 0 <= j < |raw| && raw[j] == y;
  }

  lemma ShownAt(newest: seq<HistoryMessage>, at: seq<nat>, out: seq<Output>, m: HistoryMessage) returns (j: nat)
    requires Shows(newest, at, out) && HasText(newest, at) && m in newest && m.content != ""
    ensures j < |out| && ShowsOne(m, out[j])
  {
    hide ShowsOne;
    var k: nat :| k < |newest| && newest[k] == m;
    assert k in at;
    j :| j < |at| && at[j] == k;
  }

  lemma ShownFrom(newest: seq<HistoryMessage>, at: seq<nat>, out: seq<Output>, j: nat) returns (m: HistoryMessage)
    requires Shows(newest, at, out) && HasText(newest, at) && j < |out|
    ensures m in newest && m.content != "" && ShowsOne(m, out[j])
  {
    hide ShowsOne;
    assert at[j] in at;
    m := newest[at[j]];
  }

  lemma ShownOnce(newest: seq<HistoryMessage>, at: seq<nat>, out: seq<Output>, j: nat, k: nat)
    requires Shows(newest, at, out) && Falls(newest) && j < k < |out|
    requires forall j, k :: 0 <= j < k < |newest| ==> newest[j].messageID != newest[k].messageID
    ensures out[j].messageID != out[k].messageID && out[k].time <= out[j].time
  {
    assert ShowsOne(newest[at[j]], out[j]) && ShowsOne(newest[at[k]], out[k]);
  }
}

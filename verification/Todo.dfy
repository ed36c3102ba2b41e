/**
 The todo queue (internal/tool/todo/store.go): its operations as functions on a queue
 value, laws of whole runs, and the in-place store proved against those functions.
 */
module Todo {
  import opened Wrappers
  import opened Text
  import opened Sorting

  datatype Item = Item(
    id: string,
    content: string,
    context: string,
    source: string,
    targetType: string,
    targetID: int,
    userID: int,
    createdAt: int
  )

  datatype Queue = Queue(items: map<string, Item>, nextID: nat)

  const EMPTY_QUEUE := Queue(map[], 0)

  const ITEM_PREFIX := "item-"

  function ItemKey(x: Item): Key {
    Key(x.createdAt, x.id)
  }

  /** The entry that `Add` stores; `clock` is the current Unix second. */
  function Stamped(q: Queue, item: Item, clock: int): Item {
    item.(id := Id(ITEM_PREFIX, q.nextID + 1), createdAt := if item.createdAt == 0 then clock else item.createdAt)
  }

  function Added(q: Queue, item: Item, clock: int): Queue {
    Queue(q.items[Id(ITEM_PREFIX, q.nextID + 1) := Stamped(q, item, clock)], q.nextID + 1)
  }

  function Completed(q: Queue, id: string): Queue {
    q.(items := q.items - {id})
  }

  // ------------------------------------------------- whole runs

  datatype Op = Add(item: Item, clock: int) | Complete(id: string)

  function Apply(q: Queue, op: Op): Queue {
    match op
    case Add(item, clock) => Added(q, item, clock)
    case Complete(id) => Completed(q, id)
  }

  function Run(q: Queue, ops: seq<Op>): Queue
    decreases |ops|
  {
    if ops == [] then q else Run(Apply(q, ops[0]), ops[1..])
  }

  /** Keys are the ids of their items, and every id was handed out by this queue. */
  ghost predicate Consistent(q: Queue) {
    forall id :: id in q.items ==> q.items[id].id == id && Numbered(ITEM_PREFIX, id, q.nextID)
  }

  lemma ApplyConsistent(q: Queue, op: Op)
    requires Consistent(q)
    ensures Consistent(Apply(q, op)) && q.nextID <= Apply(q, op).nextID <= q.nextID + 1
  {
    hide Id;
    var r := Apply(q, op);
    forall id | id in r.items
      ensures r.items[id].id == id && Numbered(ITEM_PREFIX, id, r.nextID)
    {
    }
  }

  lemma {:induction false} RunConsistent(q: Queue, ops: seq<Op>)
    requires Consistent(q)
    ensures Consistent(Run(q, ops)) && q.nextID <= Run(q, ops).nextID
    decreases |ops|
  {
    hide Consistent, Apply;
    if ops != [] {
      ApplyConsistent(q, ops[0]);
      RunConsistent(Apply(q, ops[0]), ops[1..]);
    }
  }

  function AddCalls(ops: seq<Op>): nat {
    if ops == [] then 0 else AddCalls(ops[1..]) + (if ops[0].Add? then 1 else 0)
  }

  /** The version counts the `Add` calls. */
  lemma {:induction false} VersionCountsAdds(q: Queue, ops: seq<Op>)
    ensures Run(q, ops).nextID == q.nextID + AddCalls(ops)
    decreases |ops|
  {
    if ops != [] {
      VersionCountsAdds(Apply(q, ops[0]), ops[1..]);
    }
  }

  /** An id that was handed out and completed never names an item again. */
  lemma {:induction false} CompletedStaysGone(q: Queue, ops: seq<Op>, id: string)
    requires Numbered(ITEM_PREFIX, id, q.nextID) && id !in q.items
    ensures id !in Run(q, ops).items
    decreases |ops|
  {
    hide Numbered, Id;
    if ops != [] {
      if ops[0].Add? {
        NextIdIsFresh(ITEM_PREFIX, q.nextID);
        NumberedGrows(ITEM_PREFIX, id, q.nextID, q.nextID + 1);
      }
      CompletedStaysGone(Apply(q, ops[0]), ops[1..], id);
    }
  }

  /** The clock of an `Add` whose item carries no creation time of its own. */
  ghost predicate ClockedFrom(ops: seq<Op>, last: int) {
    forall i :: 0 <= i < |ops| && ops[i].Add? ==>
      ops[i].item.createdAt == 0 && last <= ops[i].clock
      && forall j :: 0 <= j < i && ops[j].Add? ==> ops[j].clock <= ops[i].clock
  }

  /** Later ids carry creation times that are no earlier, and none lies beyond `last`. */
  ghost predicate AddOrdered(q: Queue, last: int) {
    && (forall i: nat :: Id(ITEM_PREFIX, i) in q.items ==>
          q.items[Id(ITEM_PREFIX, i)].createdAt <= last && i <= q.nextID)
    && (forall i: nat, j: nat :: i < j && Id(ITEM_PREFIX, i) in q.items && Id(ITEM_PREFIX, j) in q.items ==>
          q.items[Id(ITEM_PREFIX, i)].createdAt <= q.items[Id(ITEM_PREFIX, j)].createdAt)
  }

  lemma AddKeepsOrder(q: Queue, item: Item, clock: int, last: int)
    requires AddOrdered(q, last) && item.createdAt == 0 && last <= clock
    ensures AddOrdered(Added(q, item, clock), clock)
  {
    hide Id;
    var r := Added(q, item, clock);
    forall i: nat | Id(ITEM_PREFIX, i) in r.items
      ensures r.items[Id(ITEM_PREFIX, i)].createdAt <= clock && i <= r.nextID
      ensures i <= q.nextID ==>
                Id(ITEM_PREFIX, i) in q.items && r.items[Id(ITEM_PREFIX, i)] == q.items[Id(ITEM_PREFIX, i)]
    {
      if Id(ITEM_PREFIX, i) == Id(ITEM_PREFIX, r.nextID) {
        IdInjective(ITEM_PREFIX, i, r.nextID);
      }
    }
  }

  /** With store-assigned times and a clock that never runs backwards, later ids are never earlier. */
  lemma {:induction false} RunAddOrdered(q: Queue, ops: seq<Op>, last: int) returns (last': int)
    requires AddOrdered(q, last) && ClockedFrom(ops, last)
    ensures AddOrdered(Run(q, ops), last')
    decreases |ops|
  {
    hide Id, AddOrdered;
    if ops == [] {
      return last;
    }
    var next := last;
    match ops[0] {
      case Add(item, clock) =>
        AddKeepsOrder(q, item, clock, last);
        next := clock;
      case Complete(id) =>
        CompleteKeepsOrder(q, id, last);
    }
    assert ClockedFrom(ops[1..], next) by {
      assert forall i :: 0 <= i < |ops| - 1 ==> ops[1..][i] == ops[i + 1];
    }
    last' := RunAddOrdered(Apply(q, ops[0]), ops[1..], next);
  }

  lemma CompleteKeepsOrder(q: Queue, id: string, last: int)
    requires AddOrdered(q, last)
    ensures AddOrdered(Completed(q, id), last)
  {
    hide Id;
  }

  /**
   Where `List` puts two items relative to the order they were added in: the earlier one
   comes first unless both share a second and its numeral sorts after the other's.
   */
  lemma ListVersusAddOrder(q: Queue, i: nat, j: nat, last: int)
    requires Consistent(q) && AddOrdered(q, last)
    requires i < j && Id(ITEM_PREFIX, i) in q.items && Id(ITEM_PREFIX, j) in q.items
    ensures var a, b := q.items[Id(ITEM_PREFIX, i)], q.items[Id(ITEM_PREFIX, j)];
            KeyLess(ItemKey(a), ItemKey(b)) <==> a.createdAt < b.createdAt || Less(Decimal(i), Decimal(j))
    ensures |Decimal(i)| == |Decimal(j)| ==>
              KeyLess(ItemKey(q.items[Id(ITEM_PREFIX, i)]), ItemKey(q.items[Id(ITEM_PREFIX, j)]))
  {
    LessSamePrefix(ITEM_PREFIX, Decimal(i), Decimal(j));
    if |Decimal(i)| == |Decimal(j)| {
      DecimalOrder(i, j);
    }
  }

  /** `n` calls of `Add` with the same item at the same clock reading. */
  function SameSecond(item: Item, clock: int, n: nat): seq<Op> {
    seq(n, _ => Add(item, clock))
  }

  /** They number their entries on from the version, give all one time, and keep older entries. */
  lemma {:induction false} SameSecondRun(q: Queue, item: Item, clock: int, n: nat)
    ensures var r := Run(q, SameSecond(item, clock, n));
            && r.nextID == q.nextID + n
            && (forall k: nat :: q.nextID < k <= r.nextID ==>
                  Id(ITEM_PREFIX, k) in r.items
                  && r.items[Id(ITEM_PREFIX, k)].createdAt == (if item.createdAt == 0 then clock else item.createdAt))
            && (forall k: nat :: k <= q.nextID && Id(ITEM_PREFIX, k) in q.items ==>
                  Id(ITEM_PREFIX, k) in r.items && r.items[Id(ITEM_PREFIX, k)] == q.items[Id(ITEM_PREFIX, k)])
    decreases n
  {
    hide Id;
    if n > 0 {
      assert SameSecond(item, clock, n)[1..] == SameSecond(item, clock, n - 1);
      var next := Added(q, item, clock);
      SameSecondRun(next, item, clock, n - 1);
      forall k: nat | k <= q.nextID && Id(ITEM_PREFIX, k) in q.items
        ensures Id(ITEM_PREFIX, k) in next.items && next.items[Id(ITEM_PREFIX, k)] == q.items[Id(ITEM_PREFIX, k)]
      {
        if Id(ITEM_PREFIX, k) == Id(ITEM_PREFIX, next.nextID) {
          IdInjective(ITEM_PREFIX, k, next.nextID);
        }
      }
    }
  }

  /** Ten items added to an empty queue within one second: the tenth is listed before the second. */
  lemma TenthBeforeSecond(item: Item, clock: int)
    ensures var q := Run(EMPTY_QUEUE, SameSecond(item, clock, 10));
            && Id(ITEM_PREFIX, 2) in q.items && Id(ITEM_PREFIX, 10) in q.items
            && KeyLess(ItemKey(q.items[Id(ITEM_PREFIX, 10)]), ItemKey(q.items[Id(ITEM_PREFIX, 2)]))
  {
    SameSecondRun(EMPTY_QUEUE, item, clock, 10);
    RunConsistent(EMPTY_QUEUE, SameSecond(item, clock, 10));
    LessSamePrefix(ITEM_PREFIX, Decimal(10), Decimal(2));
    assert Decimal(10) == "10" && Decimal(2) == "2";
    hide Run;
  }

  // ------------------------------------------------- the store

  class Store {
    var items: map<string, Item>
    var nextID: nat

    function View(): Queue
      reads this
    {
      Queue(items, nextID)
    }

    ghost predicate Valid()
      reads this
    {
      Consistent(View())
    }

    constructor ()
      ensures Valid() && View() == EMPTY_QUEUE
    {
      items := map[];
      nextID := 0;
    }

    method Add(item: Item, clock: int) returns (r: Item)
      requires Valid()
      modifies this
      ensures Valid() && View() == Added(old(View()), item, clock)
      ensures r == items[Id(ITEM_PREFIX, nextID)] && Id(ITEM_PREFIX, nextID) !in old(items)
      ensures nextID == old(nextID) + 1 && r.id == Id(ITEM_PREFIX, nextID) && items == old(items)[r.id := r]
      ensures r.createdAt == if item.createdAt == 0 then clock else item.createdAt
      ensures r.content == item.content && r.context == item.context && r.source == item.source
      ensures r.targetType == item.targetType && r.targetID == item.targetID && r.userID == item.userID
    {
      ApplyConsistent(View(), Op.Add(item, clock));
      NextIdIsFresh(ITEM_PREFIX, nextID);
      nextID := nextID + 1;
      r := item.(id := Id(ITEM_PREFIX, nextID));
      if r.createdAt == 0 {
        r := r.(createdAt := clock);
      }
      items := items[r.id := r];
    }

    method List() returns (out: seq<Item>)
      requires Valid()
      ensures Listing(ItemKey, items, out) && |out| == |items|
      ensures forall x :: x in out <==> x.id in items && items[x.id] == x
      ensures forall i, j :: 0 <= i < j < |out| ==>
                out[i].createdAt < out[j].createdAt
                || (out[i].createdAt == out[j].createdAt && Less(out[i].id, out[j].id))
    {
      hide Less, SortBy;
      var ids := Enumerate(items.Keys);
      out := [];
      for i := 0 to |ids|
        invariant |out| == i
        invariant forall k :: 0 <= k < i ==> out[k] == items[ids[k]]
      {
        out := out + [items[ids[i]]];
      }
      EnumeratedValues(ItemKey, items, ids, out);
      SortedValuesList(ItemKey, items, out);
      SortPermutes(ByKey(ItemKey), out);
      out := SortBy(ByKey(ItemKey), out);
    }

    method Complete(id: string) returns (r: Option<Item>)
      requires Valid()
      modifies this
      ensures Valid() && View() == Completed(old(View()), id)
      ensures r == if id in old(items) then Some(old(items)[id]) else None
    {
      ApplyConsistent(View(), Op.Complete(id));
      if id in items {
        r := Some(items[id]);
        items := items - {id};
      } else {
        r := None;
        assert items - {id} == items;
      }
    }

    method IsEmpty() returns (r: bool)
      ensures r <==> items == map[]
    {
      r := |items| == 0;
    }

    method Version() returns (r: nat)
      ensures r == nextID
    {
      r := nextID;
    }
  }
}

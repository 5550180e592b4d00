// The question history the chat page keeps: one item per answered question,
// stamped with the time of the answer, and the seven-day expiry filter applied
// when the history is loaded and whenever an item is appended.
module History {
  import opened JsText

  /** One answered question as the page stores it. Times are milliseconds. */
  datatype HistoryItem = HistoryItem(
    question: string,
    answer: string,
    timestamp: int,
    videoId: Option<string>,
    category: string)

  /** Seven days in milliseconds. */
  const ExpirationTime: int := 7 * 24 * 60 * 60 * 1000

  /** An item survives the filter when it is at most `ExpirationTime` old at `now`. */
  predicate IsFresh(item: HistoryItem, now: int) {
    now - item.timestamp <= ExpirationTime
  }

  /** The expiry filter: the items still fresh at `now`, in their order. */
  function Expire(items: seq<HistoryItem>, now: int): seq<HistoryItem> {
    if items == [] then []
    else (if IsFresh(items[0], now) then [items[0]] else []) + Expire(items[1..], now)
  }

  /** Filtering a concatenation filters each part, so the kept items keep their relative order. */
  lemma {:induction false} ExpireAppend(a: seq<HistoryItem>, b: seq<HistoryItem>, now: int)
    ensures Expire(a + b, now) == Expire(a, now) + Expire(b, now)
  {
    if a == [] {
      assert a + b == b;
    } else {
      var head := if IsFresh(a[0], now) then [a[0]] else [];
      assert (a + b)[0] == a[0] && (a + b)[1..] == a[1..] + b;
      ExpireAppend(a[1..], b, now);
      calc {
        Expire(a + b, now);
        head + Expire(a[1..] + b, now);
        head + (Expire(a[1..], now) + Expire(b, now));
        (head + Expire(a[1..], now)) + Expire(b, now);
        Expire(a, now) + Expire(b, now);
      }
    }
  }

  /** The filter keeps exactly the fresh items and never grows the history. */
  lemma {:induction false} ExpireMembers(items: seq<HistoryItem>, now: int)
    ensures |Expire(items, now)| <= |items|
    ensures forall x :: x in Expire(items, now) <==> x in items && IsFresh(x, now)
  {
    if items != [] {
      ExpireMembers(items[1..], now);
      assert items == [items[0]] + items[1..];
    }
  }

  /** A history whose items are all fresh passes the filter unchanged. */
  lemma {:induction false} ExpireAllFresh(items: seq<HistoryItem>, now: int)
    requires forall i :: 0 <= i < |items| ==> IsFresh(items[i], now)
    ensures Expire(items, now) == items
  {
    if items != [] {
      ExpireAllFresh(items[1..], now);
    }
  }

  /** Filtering twice at the same time is filtering once. */
  lemma ExpireIdempotent(items: seq<HistoryItem>, now: int)
    ensures Expire(Expire(items, now), now) == Expire(items, now)
  {
    var kept := Expire(items, now);
    ExpireMembers(items, now);
    forall i | 0 <= i < |kept|
      ensures IsFresh(kept[i], now)
    {
      assert kept[i] in kept;
    }
    ExpireAllFresh(kept, now);
  }

  /** Filtering at `now` and then at a later time is filtering at the later time:
      what is stale stays stale. */
  lemma {:induction false} ExpireLater(items: seq<HistoryItem>, now: int, later: int)
    requires now <= later
    ensures Expire(Expire(items, now), later) == Expire(items, later)
  {
    if items != [] {
      ExpireLater(items[1..], now, later);
      var head := if IsFresh(items[0], now) then [items[0]] else [];
      ExpireAppend(head, Expire(items[1..], now), later);
      assert [items[0]][1..] == [];
    }
  }

  /** The boundary: an item exactly `ExpirationTime` old is kept and one a
      millisecond older is dropped. */
  lemma ExpireBoundary(items: seq<HistoryItem>, now: int)
    ensures forall x :: x in items && x.timestamp == now - ExpirationTime ==> x in Expire(items, now)
    ensures forall x :: x in items && x.timestamp == now - ExpirationTime - 1 ==> x !in Expire(items, now)
  {
    ExpireMembers(items, now);
  }
}

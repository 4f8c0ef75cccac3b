/**
 * The New Year API server: the midnight-longitude helper behind /time, and
 * the in-memory wish store behind GET /wishes and POST /wish. The store is a
 * bounded double-ended queue of capacity 50, modelled as a ring buffer over
 * a fixed array, that drops its oldest wish when a new one arrives while full.
 */
module Backend {
  import opened Wrappers
  import opened Calendar
  import opened MidnightLongitude
  import Sorting

  /** The maximum number of wishes kept (the deque's maxlen). */
  const Capacity := 50
  /** The longest accepted message, in characters. */
  const MaxMessageLength := 200

  /** The request body of POST /wish; the name and region may be null. */
  datatype WishCreate = WishCreate(name: Option<string>, message: string, region: Option<string>)

  /** A stored wish; its timestamp is the server's UTC clock in microseconds since the epoch. */
  datatype Wish = Wish(name: string, message: string, region: Option<string>, timestamp: int)

  /** The outcome of POST /wish: the stored wish, or an HTTP error. */
  datatype PostResult = Created(wish: Wish) | HttpError(status: int, detail: string)

  /**
   * calculate_midnight_longitude: the raw value (12 - h) * 15 - 180 brought
   * into range by the normalising loops. Only hour, minute and second are
   * read; the first loop never runs and the second runs at most once.
   */
  method CalculateMidnightLongitude(dt: DateTime) returns (longitude: real, ghost firstLoopRuns: nat, ghost secondLoopRuns: nat)
    requires ValidClock(dt.hour, dt.minute, dt.second)
    ensures longitude == LongitudeAt(dt.hour, dt.minute, dt.second)
    ensures firstLoopRuns == 0 && secondLoopRuns <= 1
  {
    var hours := dt.hour as real + dt.minute as real / 60.0 + dt.second as real / 3600.0;
    longitude := (12.0 - hours) * 15.0 - 180.0;
    longitude, firstLoopRuns, secondLoopRuns := Normalize(longitude);
    LongitudeAtPieces(dt.hour, dt.minute, dt.second);
  }

  /**
   * The deque after appending w: the new wish goes last and, when the store
   * already holds Capacity wishes, the oldest one is dropped.
   */
  function Appended(wishes: seq<Wish>, w: Wish): (r: seq<Wish>)
    requires |wishes| <= Capacity
    ensures |r| <= Capacity && |r| >= 1 && r[|r| - 1] == w
    ensures |wishes| < Capacity ==> |r| == |wishes| + 1 && r[..|wishes|] == wishes
    ensures |wishes| == Capacity ==> |r| == Capacity && r[..Capacity - 1] == wishes[1..]
  {
    if |wishes| < Capacity then wishes + [w] else wishes[1..] + [w]
  }

  /** The buffer slot of the i-th oldest wish when the oldest sits in slot `start`. */
  function Slot(start: nat, i: nat): (k: nat)
    ensures k < Capacity
  {
    (start + i) % Capacity
  }

  /** Distinct ring positions are distinct slots. */
  lemma RingDistinct(start: nat, i: nat, j: nat)
    requires start < Capacity && i < j < Capacity
    ensures Slot(start, i) != Slot(start, j)
  {
  }

  /** Advancing the oldest slot by one shifts every ring position by one, and the last position wraps to the old slot. */
  lemma RingShift(start: nat, i: nat)
    requires start < Capacity && i < Capacity
    ensures Slot(Slot(start, 1), i) == Slot(start, i + 1)
    ensures i == Capacity - 1 ==> Slot(start, i + 1) == start
  {
  }

  /** Writing into the free slot after the newest wish appends it to the ring and keeps the rest. */
  lemma RingAppendRoom(before: seq<Wish>, after: seq<Wish>, start: nat, count: nat, contents: seq<Wish>, w: Wish)
    requires |before| == Capacity && start < Capacity && count < Capacity && |contents| == count
    requires forall i :: 0 <= i < count ==> contents[i] == before[Slot(start, i)]
    requires after == before[Slot(start, count) := w]
    ensures forall i :: 0 <= i < count + 1 ==> (contents + [w])[i] == after[Slot(start, i)]
  {
    forall i | 0 <= i < count ensures after[Slot(start, i)] == before[Slot(start, i)] {
      RingDistinct(start, i, count);
    }
  }

  /** Overwriting the oldest slot of a full ring and advancing the start drops the oldest wish and appends the new one. */
  lemma RingAppendFull(before: seq<Wish>, after: seq<Wish>, start: nat, contents: seq<Wish>, w: Wish)
    requires |before| == Capacity && start < Capacity && |contents| == Capacity
    requires forall i :: 0 <= i < Capacity ==> contents[i] == before[Slot(start, i)]
    requires after == before[start := w]
    ensures forall i :: 0 <= i < Capacity ==> (contents[1..] + [w])[i] == after[Slot(Slot(start, 1), i)]
  {
    forall i | 0 <= i < Capacity ensures (contents[1..] + [w])[i] == after[Slot(Slot(start, 1), i)] {
      RingShift(start, i);
      if i < Capacity - 1 {
        RingDistinct(start, 0, i + 1);
        assert Slot(start, 0) == start;
        assert (contents[1..] + [w])[i] == contents[i + 1] == before[Slot(start, i + 1)];
      }
    }
  }

  /** The sort key of sorted(..., key=timestamp, reverse=True): descending timestamp. */
  function NewestFirstKey(w: Wish): int {
    -w.timestamp
  }

  /** Python's xs[:limit]: a negative limit counts back from the end. */
  function TakePrefix<T>(xs: seq<T>, limit: int): (r: seq<T>)
    ensures |r| == if limit >= 0 then (if limit <= |xs| then limit else |xs|)
                   else (if |xs| + limit >= 0 then |xs| + limit else 0)
    ensures r == xs[..|r|]
  {
    if limit >= 0 then (if limit <= |xs| then xs[..limit] else xs)
    else if |xs| + limit >= 0 then xs[..|xs| + limit]
    else []
  }

  /** The response of GET /wishes for the stored wishes, oldest first. */
  function LatestWishes(wishes: seq<Wish>, limit: int): seq<Wish> {
    TakePrefix(Sorting.SortBy(wishes, NewestFirstKey), limit)
  }

  /**
   * GET /wishes returns newest first; wishes with equal timestamps keep their
   * insertion order; it holds min(limit, n) of them for a non-negative limit,
   * and they form the start of a rearrangement of the whole store.
   */
  lemma LatestWishesFacts(wishes: seq<Wish>, limit: int)
    ensures var r := LatestWishes(wishes, limit);
      forall i, j :: 0 <= i < j < |r| ==> r[i].timestamp >= r[j].timestamp
    ensures limit >= 0 ==> |LatestWishes(wishes, limit)| == if limit <= |wishes| then limit else |wishes|
    ensures var all := Sorting.SortBy(wishes, NewestFirstKey);
      multiset(all) == multiset(wishes) && LatestWishes(wishes, limit) == all[..|LatestWishes(wishes, limit)|]
    ensures forall k :: Sorting.WithKey(Sorting.SortBy(wishes, NewestFirstKey), NewestFirstKey, k)
                        == Sorting.WithKey(wishes, NewestFirstKey, k)
  {
    Sorting.SortByFacts(wishes, NewestFirstKey);
    var all := Sorting.SortBy(wishes, NewestFirstKey);
    var r := LatestWishes(wishes, limit);
    forall i, j | 0 <= i < j < |r| ensures r[i].timestamp >= r[j].timestamp {
      assert r[i] == all[i] && r[j] == all[j];
      assert NewestFirstKey(all[i]) <= NewestFirstKey(all[j]);
    }
  }

  /**
   * post_wish's validation and defaulting: a message of more than 200
   * characters is refused with 400 "Message too long"; otherwise the wish
   * keeps message and region, is named "Anonymous" when the name is null or
   * empty, and carries the current time.
   */
  function ValidateWish(req: WishCreate, now: int): (r: PostResult)
    ensures r.HttpError? <==> |req.message| > MaxMessageLength
    ensures r.HttpError? ==> r.status == 400 && r.detail == "Message too long"
    ensures r.Created? ==> r.wish.message == req.message && r.wish.region == req.region
                           && r.wish.timestamp == now
    ensures r.Created? ==> (r.wish.name == "Anonymous" <==> req.name in {None, Some(""), Some("Anonymous")})
    ensures r.Created? && req.name.Some? && req.name.value != "" ==> r.wish.name == req.name.value
  {
    if |req.message| > MaxMessageLength then HttpError(400, "Message too long")
    else
      var name := if req.name.None? || req.name.value == "" then "Anonymous" else req.name.value;
      Created(Wish(name, req.message, req.region, now))
  }

  /** The wish store, a deque(maxlen=50) kept as a ring buffer. */
  class WishStore {
    var buffer: array<Wish>
    /** The slot of the oldest wish. */
    var start: nat
    var count: nat
    /** The stored wishes, oldest first. */
    ghost var Contents: seq<Wish>

    ghost predicate Valid()
      reads this, buffer
    {
      buffer.Length == Capacity && start < Capacity && count <= Capacity && |Contents| == count
      && forall i :: 0 <= i < count ==> Contents[i] == buffer[Slot(start, i)]
    }

    constructor ()
      ensures Valid() && fresh(buffer) && Contents == []
    {
      buffer := new Wish[Capacity](_ => Wish("", "", None, 0));
      start, count := 0, 0;
      Contents := [];
    }

    /** wishes_db.append(w): the oldest wish is dropped when the store is full. */
    method Append(w: Wish)
      requires Valid()
      modifies this, buffer
      ensures Valid() && buffer == old(buffer)
      ensures Contents == Appended(old(Contents), w)
    {
      if count < Capacity {
        ghost var before := buffer[..];
        buffer[Slot(start, count)] := w;
        assert buffer[..] == before[Slot(start, count) := w];
        RingAppendRoom(before, buffer[..], start, count, Contents, w);
        count := count + 1;
        Contents := Contents + [w];
      } else {
        ghost var before := buffer[..];
        buffer[start] := w;
        assert buffer[..] == before[start := w];
        RingAppendFull(before, buffer[..], start, Contents, w);
        start := Slot(start, 1);
        Contents := Contents[1..] + [w];
      }
    }

    /** get_wishes(limit): the stored wishes newest first, cut to limit; the store is not changed. */
    method GetWishes(limit: int) returns (result: seq<Wish>)
      requires Valid()
      ensures result == LatestWishes(Contents, limit)
      ensures forall i, j :: 0 <= i < j < |result| ==> result[i].timestamp >= result[j].timestamp
      ensures limit >= 0 ==> |result| == if limit <= count then limit else count
    {
      var items: seq<Wish> := [];
      var i := 0;
      while i < count
        invariant 0 <= i <= count
        invariant items == Contents[..i]
      {
        items := items + [buffer[Slot(start, i)]];
        i := i + 1;
      }
      assert items == Contents;
      result := LatestWishes(items, limit);
      LatestWishesFacts(items, limit);
    }

    /**
     * post_wish: an overlong message is refused and the store left as it was;
     * otherwise the new wish is appended and returned.
     */
    method PostWish(req: WishCreate, now: int) returns (r: PostResult)
      requires Valid()
      modifies this, buffer
      ensures Valid() && buffer == old(buffer)
      ensures r == ValidateWish(req, now)
      ensures r.HttpError? ==> Contents == old(Contents)
      ensures r.Created? ==> Contents == Appended(old(Contents), r.wish)
    {
      r := ValidateWish(req, now);
      if r.Created? {
        Append(r.wish);
      }
    }
  }

  /** A message of exactly 200 characters is accepted; one of 201 is refused. */
  lemma MessageLengthBoundary(name: Option<string>, region: Option<string>, now: int)
    ensures ValidateWish(WishCreate(name, seq(200, _ => 'x'), region), now).Created?
    ensures ValidateWish(WishCreate(name, seq(201, _ => 'x'), region), now).HttpError?
  {
  }

  /**
   * The store never holds more than 50 wishes, however many are posted, and
   * it holds the last ones posted, in the order they came.
   */
  lemma StoreBounded(wishes: seq<Wish>, posted: seq<Wish>)
    requires |wishes| <= Capacity
    ensures |AppendAll(wishes, posted)| == if |wishes| + |posted| <= Capacity then |wishes| + |posted| else Capacity
    ensures |posted| <= Capacity ==>
      AppendAll(wishes, posted)[|AppendAll(wishes, posted)| - |posted|..] == posted
  {
    StoreLength(wishes, posted);
    if |posted| <= Capacity {
      StoreTail(wishes, posted);
    }
  }

  lemma {:induction false} StoreLength(wishes: seq<Wish>, posted: seq<Wish>)
    requires |wishes| <= Capacity
    ensures |AppendAll(wishes, posted)| == if |wishes| + |posted| <= Capacity then |wishes| + |posted| else Capacity
    decreases |posted|
  {
    if posted != [] {
      var front := posted[..|posted| - 1];
      StoreLength(wishes, front);
    }
  }

  /** s ends with t. */
  predicate EndsWith(s: seq<Wish>, t: seq<Wish>) {
    |t| <= |s| && forall i :: 0 <= i < |t| ==> s[|s| - |t| + i] == t[i]
  }

  lemma {:induction false} StoreTail(wishes: seq<Wish>, posted: seq<Wish>)
    requires |wishes| <= Capacity && |posted| <= Capacity
    ensures EndsWith(AppendAll(wishes, posted), posted)
    decreases |posted|
  {
    if posted != [] {
      var front := posted[..|posted| - 1];
      var last := posted[|posted| - 1];
      StoreTail(wishes, front);
      AppendedKeepsTail(AppendAll(wishes, front), front, last);
      assert front + [last] == posted;
    }
  }

  /** Appending to a store that ends with `tail` gives one that ends with `tail` followed by the new wish. */
  lemma AppendedKeepsTail(before: seq<Wish>, tail: seq<Wish>, w: Wish)
    requires |before| <= Capacity && |tail| < Capacity && EndsWith(before, tail)
    ensures EndsWith(Appended(before, w), tail + [w])
  {
    var after := Appended(before, w);
    if |before| < Capacity {
      assert after == before + [w];
    } else {
      assert after == before[1..] + [w];
    }
  }

  /** The store after appending each of `posted` in turn. */
  function AppendAll(wishes: seq<Wish>, posted: seq<Wish>): (r: seq<Wish>)
    requires |wishes| <= Capacity
    ensures |r| <= Capacity
    decreases |posted|
  {
    if posted == [] then wishes
    else Appended(AppendAll(wishes, posted[..|posted| - 1]), posted[|posted| - 1])
  }
}

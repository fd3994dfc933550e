/** The mutable cache of internal/cache/cache.go: a map into a recency list. */
module LruCache {
  import opened Common
  import opened LruSpec
  import Sums

  /** A list element; the item it carries is never changed after insertion. */
  class Element {
    const entry: Entry

    constructor (entry: Entry)
      ensures this.entry == entry
    {
      this.entry := entry;
    }
  }

  function Values(elements: seq<Element>): (s: seq<Entry>)
    ensures |s| == |elements|
    ensures forall i :: 0 <= i < |s| ==> s[i] == elements[i].entry
  {
    seq(|elements|, i requires 0 <= i < |elements| => elements[i].entry)
  }

  /** Unlink one element from the list, leaving the order of the others. */
  function Unlink(elements: seq<Element>, element: Element): seq<Element> {
    if elements == [] then []
    else if elements[0] == element then elements[1..]
    else [elements[0]] + Unlink(elements[1..], element)
  }

  lemma {:induction false} UnlinkIsWithout(elements: seq<Element>, element: Element)
    requires UniqueKeys(Values(elements)) && element in elements
    ensures Values(Unlink(elements, element)) == Without(Values(elements), element.entry.key)
  {
    var s := Values(elements);
    assert s[1..] == Values(elements[1..]);
    FirstIsUnique(s);
    if elements[0] == element {
      WithoutAbsent(s[1..], element.entry.key);
    } else {
      var i :| 0 <= i < |elements| && elements[i] == element;
      assert s[1..][i - 1] == element.entry;
      UnlinkIsWithout(elements[1..], element);
      ValuesCons(elements[0], Unlink(elements[1..], element));
    }
  }

  lemma FirstIsUnique(s: seq<Entry>)
    requires UniqueKeys(s) && s != []
    ensures UniqueKeys(s[1..]) && forall e :: e in s[1..] ==> e.key != s[0].key
  {
  }

  lemma {:induction false} UnlinkFacts(elements: seq<Element>, element: Element)
    ensures forall e :: e in Unlink(elements, element) ==> e in elements
    ensures forall e :: e in elements && e != element ==> e in Unlink(elements, element)
  {
    if elements != [] && elements[0] != element {
      UnlinkFacts(elements[1..], element);
      assert elements == [elements[0]] + elements[1..];
    }
  }

  /** The map leads from every key to the one list element that carries it. */
  ghost predicate Indexes(items: map<string, Element>, elements: seq<Element>) {
    && (forall e :: e in elements ==> e.entry.key in items && items[e.entry.key] == e)
    && (forall k :: k in items ==> items[k] in elements && items[k].entry.key == k)
  }

  lemma IndexesUnlink(items: map<string, Element>, elements: seq<Element>, element: Element)
    requires Indexes(items, elements) && element in elements && UniqueKeys(Values(elements))
    ensures Indexes(items - {element.entry.key}, Unlink(elements, element))
    ensures Indexes(items, [element] + Unlink(elements, element))
  {
    UnlinkIsWithout(elements, element);
    UnlinkFacts(elements, element);
    WithoutFacts(Values(elements), element.entry.key);
    var rest := Unlink(elements, element);
    forall e | e in rest ensures e.entry.key != element.entry.key {
      var i :| 0 <= i < |rest| && rest[i] == e;
      assert Values(rest)[i] in Values(rest);
    }
  }

  /** What unlinking an element does to the map, the list and the byte count. */
  lemma Unlinked(items: map<string, Element>, elements: seq<Element>, element: Element)
    requires Indexes(items, elements) && element in elements && UniqueKeys(Values(elements))
    ensures var key, rest := element.entry.key, Values(Unlink(elements, element));
            && Indexes(items - {key}, Unlink(elements, element))
            && rest == Without(Values(elements), key) && UniqueKeys(rest)
            && Bytes(Values(elements)) == element.entry.size + Bytes(rest)
  {
    var s, key := Values(elements), element.entry.key;
    UnlinkIsWithout(elements, element);
    IndexesUnlink(items, elements, element);
    WithoutUnique(s, key);
    var i :| 0 <= i < |elements| && elements[i] == element;
    FoundAt(s, i);
    FindSplit(s, key);
  }

  lemma {:induction false} FoundAt(s: seq<Entry>, i: nat)
    requires UniqueKeys(s) && i < |s|
    ensures Find(s, s[i].key) == Some(s[i])
  {
    if i > 0 {
      FoundAt(s[1..], i - 1);
    }
  }

  /** Moving an element to the front only reorders the list. */
  lemma MovedToFront(items: map<string, Element>, elements: seq<Element>, element: Element)
    requires Indexes(items, elements) && element in elements && UniqueKeys(Values(elements))
    ensures var moved := [element] + Unlink(elements, element);
            && Indexes(items, moved)
            && Values(moved) == [element.entry] + Without(Values(elements), element.entry.key)
            && UniqueKeys(Values(moved)) && Bytes(Values(moved)) == Bytes(Values(elements))
  {
    Unlinked(items, elements, element);
    IndexesUnlink(items, elements, element);
    BackInFront(Values(elements), element.entry);
    ValuesCons(element, Unlink(elements, element));
  }

  lemma BackInFront(s: seq<Entry>, e: Entry)
    requires UniqueKeys(s)
    ensures UniqueKeys([e] + Without(s, e.key)) && Bytes([e] + Without(s, e.key)) == e.size + Bytes(Without(s, e.key))
  {
    WithoutFacts(s, e.key);
    ConsFacts(e, Without(s, e.key));
  }

  lemma ValuesCons(element: Element, elements: seq<Element>)
    ensures Values([element] + elements) == [element.entry] + Values(elements)
  {
  }

  lemma IndexesCons(items: map<string, Element>, elements: seq<Element>, element: Element)
    requires Indexes(items, elements) && element.entry.key !in items
    ensures Indexes(items[element.entry.key := element], [element] + elements)
  {
    var more := items[element.entry.key := element];
    forall k | k in more ensures more[k] in [element] + elements && more[k].entry.key == k {
      assert k in items || k == element.entry.key;
    }
  }

  lemma {:induction false} KeyCount(s: seq<Entry>)
    requires UniqueKeys(s)
    ensures |set e | e in s :: e.key| == |s|
  {
    if s != [] {
      KeyCount(s[1..]);
      var rest := set e | e in s[1..] :: e.key;
      assert s == [s[0]] + s[1..];
      forall e | e in s[1..] ensures e.key != s[0].key {
        var i :| 0 <= i < |s[1..]| && s[1..][i] == e;
        assert s[i + 1] == e;
      }
      assert (set e | e in s :: e.key) == rest + {s[0].key};
    }
  }

  /** The size accounted for a response, summed over its header map in any order. */
  method MeasureResponse(key: string, response: Response) returns (size: nat)
    ensures size == ResponseSize(key, response)
  {
    size := |key| + |response.body|;
    var names := response.header.Keys;
    ghost var rest := LineSizes(response.header);
    while names != {}
      invariant names <= response.header.Keys
      invariant rest == map name | name in names :: LineSizes(response.header)[name]
      invariant size + Sums.Total(rest) == ResponseSize(key, response)
      decreases names
    {
      var name :| name in names;
      Sums.TotalSplit(rest, name);
      size := size + name.Length();
      var values, i := response.header[name], 0;
      ghost var before := size;
      while i < |values|
        invariant 0 <= i <= |values|
        invariant size == before + Lengths(values[..i])
      {
        assert values[..i + 1][..i] == values[..i];
        size := size + |values[i]|;
        i := i + 1;
      }
      assert values[..i] == values;
      rest := rest - {name};
      names := names - {name};
    }
    assert rest == map[];
  }

  class Cache {
    var items: map<string, Element>
    var lru: seq<Element>
    var bytes: int
    const maxEntries: int
    const maxBytes: int

    ghost function Contents(): seq<Entry>
      reads this
    {
      Values(lru)
    }

    /** The map and the list hold the same elements, and the byte count is exact. */
    ghost predicate Linked()
      reads this
    {
      && maxEntries > 0 && maxBytes > 0
      && UniqueKeys(Contents())
      && Indexes(items, lru)
      && bytes == Bytes(Contents())
    }

    ghost function Limits(): Bounds
      requires maxEntries > 0 && maxBytes > 0
    {
      Bounds(maxEntries, maxBytes)
    }

    ghost predicate Valid()
      reads this
    {
      Linked() && Within(Contents(), Limits()) && Measured(Contents())
    }

    constructor (maxEntries: int, maxBytes: int)
      requires maxEntries > 0 && maxBytes > 0
      ensures Valid() && Contents() == []
      ensures this.maxEntries == maxEntries && this.maxBytes == maxBytes
    {
      items, lru, bytes := map[], [], 0;
      this.maxEntries, this.maxBytes := maxEntries, maxBytes;
    }

    lemma ItemCount()
      requires Linked()
      ensures |items| == |lru|
    {
      KeyCount(Contents());
      assert items.Keys == set e | e in Contents() :: e.key by {
        forall k | k in items ensures k in (set e | e in Contents() :: e.key) {
          var i :| 0 <= i < |lru| && lru[i] == items[k];
          assert Contents()[i] in Contents();
        }
      }
      assert |items.Keys| == |items|;
    }

    lemma BoundsReached()
      requires Linked()
      ensures (|items| > maxEntries || bytes > maxBytes) <==> !Within(Contents(), Limits())
    {
      ItemCount();
    }

    lemma Indexed(key: string)
      requires Linked()
      ensures key in items <==> Find(Contents(), key).Some?
      ensures key in items ==> Find(Contents(), key).value == items[key].entry
    {
      FindFacts(Contents(), key);
      if key in items {
        var i :| 0 <= i < |lru| && lru[i] == items[key];
        assert Contents()[i] in Contents();
      }
      if Find(Contents(), key).Some? {
        var i :| 0 <= i < |lru| && Contents()[i] == Find(Contents(), key).value;
        assert lru[i] in lru;
      }
    }

    method Remove(element: Element)
      requires Linked() && element in lru
      modifies this
      ensures Linked()
      ensures items == old(items) - {element.entry.key}
      ensures lru == Unlink(old(lru), element)
      ensures Contents() == Without(old(Contents()), element.entry.key)
    {
      var entry := element.entry;
      Unlinked(items, lru, element);
      items := items - {entry.key};
      bytes := bytes - entry.size;
      lru := Unlink(lru, element);
    }

    method MoveToFront(element: Element)
      requires Linked() && element in lru
      modifies this
      ensures Linked()
      ensures items == old(items)
      ensures Contents() == [element.entry] + Without(old(Contents()), element.entry.key)
    {
      MovedToFront(items, lru, element);
      lru := [element] + Unlink(lru, element);
    }

    /** Lookup: an expired entry is removed, a live one becomes the most recent. */
    method Get(key: string, now: int) returns (response: Response, hit: bool)
      requires Valid()
      modifies this
      ensures Valid()
      ensures Contents() == LruSpec.Get(old(Contents()), key, now).entries
      ensures LruSpec.Get(old(Contents()), key, now).hit == if hit then Some(response) else None
    {
      GetKeeps(Contents(), key, now, Limits());
      response, hit := Take(key, now);
    }

    method Take(key: string, now: int) returns (response: Response, hit: bool)
      requires Linked()
      modifies this
      ensures Linked()
      ensures Contents() == LruSpec.Get(old(Contents()), key, now).entries
      ensures LruSpec.Get(old(Contents()), key, now).hit == if hit then Some(response) else None
    {
      Indexed(key);
      if key !in items {
        return Response(0, map[], "", 0), false;
      }
      var element := items[key];
      var entry := element.entry;
      if !(now < entry.expiresAt) {
        Remove(element);
        return Response(0, map[], "", 0), false;
      }
      MoveToFront(element);
      return entry.response, true;
    }

    /** Insertion: storedAt is the clock read before the lock, now the one under it. */
    method Set(key: string, response: Response, ttl: int, storedAt: int, now: int) returns (accepted: bool)
      requires Valid()
      modifies this
      ensures Valid()
      ensures accepted <==> ttl > 0 && Footprint(key, response) <= maxBytes
      ensures Contents() == LruSpec.Set(old(Contents()), Store(key, response, ttl, storedAt, now), Limits())
      ensures accepted ==> Contents() != [] && Contents()[0] == EntryOf(Store(key, response, ttl, storedAt, now))
    {
      ghost var op := Store(key, response, ttl, storedAt, now);
      AcceptedIff(op, Limits());
      if ttl <= 0 {
        return false;
      }
      var stamped := response.(stored := storedAt);
      var size := MeasureResponse(key, response);
      if size > maxBytes {
        return false;
      }
      var element := new Element(Entry(key, stamped, now + ttl, size));
      assert element.entry == EntryOf(op);
      Replace(element);
      ghost var full := Contents();
      Evict();
      TrimKeepsNewest(full, Limits());
      SetMeasured(old(Contents()), op, Limits());
      return true;
    }

    method Len() returns (count: int)
      requires Valid()
      ensures count == |Contents()| <= maxEntries
    {
      ItemCount();
      count := |items|;
    }

    /** The accounted size is the length of everything held. */
    method ByteCount() returns (size: int)
      requires Valid()
      ensures size == Held(Contents()) <= maxBytes
    {
      HeldIsBytes(Contents());
      size := bytes;
    }

    /** Drop any element with the same key and push the new one to the front. */
    method Replace(element: Element)
      requires Linked()
      modifies this
      ensures Linked()
      ensures Contents() == [element.entry] + Without(old(Contents()), element.entry.key)
    {
      var entry := element.entry;
      Indexed(entry.key);
      WithoutFacts(Contents(), entry.key);
      FindFacts(Contents(), entry.key);
      if entry.key in items {
        Remove(items[entry.key]);
      } else {
        WithoutAbsent(Contents(), entry.key);
      }
      PushFront(element);
    }

    method PushFront(element: Element)
      requires Linked() && element.entry.key !in items
      modifies this
      ensures Linked()
      ensures Contents() == [element.entry] + old(Contents())
    {
      ghost var rest := Contents();
      Indexed(element.entry.key);
      FindFacts(rest, element.entry.key);
      ConsFacts(element.entry, rest);
      IndexesCons(items, lru, element);
      lru := [element] + lru;
      items := items[element.entry.key := element];
      bytes := bytes + element.entry.size;
      assert Contents() == [element.entry] + rest;
    }

    /** Evict from the back until both bounds hold. */
    method Evict()
      requires Linked()
      modifies this
      ensures Linked()
      ensures Contents() == Trim(old(Contents()), Limits())
    {
      BoundsReached();
      while |items| > maxEntries || bytes > maxBytes
        invariant Linked()
        invariant (|items| > maxEntries || bytes > maxBytes) <==> !Within(Contents(), Limits())
        invariant Trim(Contents(), Limits()) == Trim(old(Contents()), Limits())
        decreases |lru|
      {
        DropLast();
        BoundsReached();
      }
    }

    /** The eviction step: unlink the element at the back of the list. */
    method DropLast()
      requires Linked() && lru != []
      modifies this
      ensures Linked()
      ensures Contents() == old(Contents())[..|old(lru)| - 1] && |lru| == |old(lru)| - 1
    {
      var last := lru[|lru| - 1];
      WithoutLast(Contents());
      Remove(last);
    }
  }

  lemma ConsFacts(e: Entry, s: seq<Entry>)
    requires UniqueKeys(s) && forall x :: x in s ==> x.key != e.key
    ensures UniqueKeys([e] + s) && Bytes([e] + s) == e.size + Bytes(s)
  {
    BytesCons(e, s);
  }

  lemma {:induction false} WithoutLast(s: seq<Entry>)
    requires UniqueKeys(s) && s != []
    ensures Without(s, s[|s| - 1].key) == s[..|s| - 1]
  {
    if |s| > 1 {
      WithoutLast(s[1..]);
      assert s[..|s| - 1] == [s[0]] + s[1..][..|s| - 2];
    }
  }

  /** The handler's pattern of use: look up, and store the fetched response on a miss. */
  method ServeThrough(cache: Cache, a: Access) returns (hit: bool)
    requires cache.Valid()
    modifies cache
    ensures cache.Valid()
    ensures cache.Contents() == Serve(old(cache.Contents()), a, cache.Limits())
    ensures hit <==> Get(old(cache.Contents()), a.key, a.now).hit.Some?
  {
    var response;
    response, hit := cache.Get(a.key, a.now);
    if !hit && a.fetched.Some? {
      var op := a.fetched.value;
      var accepted := cache.Set(op.key, op.response, op.ttl, op.storedAt, op.now);
    }
  }
}

/** Collection helpers (packages/model/src/utils.ts). A mapper returning `undefined` is a
    mapper returning `None`; a `Record` is the list of its entries in enumeration order. */
module Utils {
  import opened Values

  // ---------------------------------------------------------------------------------------
  // filterMap

  /** Map every element, then drop the `undefined` results: the reference behaviour. */
  function MapThenFilter<A, B>(values: seq<A>, mapper: A -> Option<B>): seq<B>
  {
    if values == [] then []
    else
      MapThenFilter(values[..|values| - 1], mapper)
        + (match mapper(values[|values| - 1]) case Some(b) => [b] case None => [])
  }

  /** `filterMap`: pushes each defined mapped value, in order. */
  method FilterMap<A, B>(values: seq<A>, mapper: A -> Option<B>) returns (mappedValues: seq<B>)
    ensures mappedValues == MapThenFilter(values, mapper)
  {
    mappedValues := [];
    for i := 0 to |values|
      invariant mappedValues == MapThenFilter(values[..i], mapper)
    {
      assert values[..i + 1][..i] == values[..i];
      var mappedValue := mapper(values[i]);
      if mappedValue.Some? {
        mappedValues := mappedValues + [mappedValue.value];
      }
    }
    assert values[..|values|] == values;
  }

  /** Filter-mapping distributes over concatenation, so the kept values keep their order. */
  lemma {:induction false} MapThenFilterAppend<A, B>(xs: seq<A>, ys: seq<A>, mapper: A -> Option<B>)
    ensures MapThenFilter(xs + ys, mapper) == MapThenFilter(xs, mapper) + MapThenFilter(ys, mapper)
    decreases |ys|
  {
    if ys == [] {
      assert xs + ys == xs;
    } else {
      var init := ys[..|ys| - 1];
      assert (xs + ys)[..|xs + ys| - 1] == xs + init;
      assert (xs + ys)[|xs + ys| - 1] == ys[|ys| - 1];
      MapThenFilterAppend(xs, init, mapper);
    }
  }

  /** A value is kept exactly when some element maps to it, and the output is never longer
      than the input. */
  lemma {:induction false} MapThenFilterContents<A, B>(values: seq<A>, mapper: A -> Option<B>)
    ensures |MapThenFilter(values, mapper)| <= |values|
    ensures forall b :: b in MapThenFilter(values, mapper) <==> exists i :: 0 <= i < |values| && mapper(values[i]) == Some(b)
  {
    if values != [] {
      var init := values[..|values| - 1];
      MapThenFilterContents(init, mapper);
      forall b ensures b in MapThenFilter(values, mapper) <==> exists i :: 0 <= i < |values| && mapper(values[i]) == Some(b) {
        if exists i :: 0 <= i < |values| && mapper(values[i]) == Some(b) {
          var i :| 0 <= i < |values| && mapper(values[i]) == Some(b);
          if i < |init| {
            assert init[i] == values[i];
          }
        }
        if b in MapThenFilter(init, mapper) {
          var i :| 0 <= i < |init| && mapper(init[i]) == Some(b);
          assert values[i] == init[i];
        }
      }
    }
  }

  /** With a mapper that never returns `undefined`, filter-mapping is mapping. */
  lemma {:induction false} MapThenFilterTotal<A, B>(values: seq<A>, mapper: A -> Option<B>)
    requires forall x :: mapper(x).Some?
    ensures MapThenFilter(values, mapper) == seq(|values|, i requires 0 <= i < |values| => mapper(values[i]).value)
  {
    if values != [] {
      var init := values[..|values| - 1];
      MapThenFilterTotal(init, mapper);
    }
  }

  // ---------------------------------------------------------------------------------------
  // filterMapObject

  function Keys<B>(entries: seq<(string, B)>): set<string>
  {
    set i | 0 <= i < |entries| :: entries[i].0
  }

  /** No key occurs twice, as in a JavaScript object. */
  predicate DistinctKeys<B>(entries: seq<(string, B)>)
  {
    forall i, j :: 0 <= i < j < |entries| ==> entries[i].0 != entries[j].0
  }

  lemma KeysCons<B>(entry: (string, B), rest: seq<(string, B)>)
    ensures Keys([entry] + rest) == {entry.0} + Keys(rest)
    ensures DistinctKeys([entry] + rest) <==> entry.0 !in Keys(rest) && DistinctKeys(rest)
  {
    var r := [entry] + rest;
    assert forall i :: 1 <= i < |r| ==> r[i] == rest[i - 1];
    forall k | k in Keys(rest) ensures k in Keys(r) {
      var i :| 0 <= i < |rest| && rest[i].0 == k;
      assert r[i + 1].0 == k;
    }
    forall k | k in Keys(r) ensures k in {entry.0} + Keys(rest) {
      var i :| 0 <= i < |r| && r[i].0 == k;
      if i > 0 { assert rest[i - 1].0 == k; }
    }
    assert r[0] == entry;
    if DistinctKeys(r) {
      forall i | 0 <= i < |rest| ensures rest[i].0 != entry.0 {
        assert r[0].0 != r[i + 1].0;
      }
      forall i, j | 0 <= i < j < |rest| ensures rest[i].0 != rest[j].0 {
        assert r[i + 1].0 != r[j + 1].0;
      }
    }
  }

  /** `object[key] = value`: overwrites an existing key where it stands, or appends it. */
  function Assign<B>(entries: seq<(string, B)>, key: string, value: B): (r: seq<(string, B)>)
    ensures Keys(r) == Keys(entries) + {key}
    ensures DistinctKeys(entries) ==> DistinctKeys(r)
    ensures key !in Keys(entries) ==> r == entries + [(key, value)]
    ensures (key, value) in r
    ensures key in Keys(entries) ==> |r| == |entries|
  {
    if entries == [] then
      assert [(key, value)][0].0 == key;
      [(key, value)]
    else
      assert entries == [entries[0]] + entries[1..];
      KeysCons(entries[0], entries[1..]);
      if entries[0].0 == key then
        KeysCons((key, value), entries[1..]);
        [(key, value)] + entries[1..]
      else
        var rest := Assign(entries[1..], key, value);
        KeysCons(entries[0], rest);
        assert key !in Keys(entries) ==> [entries[0]] + rest == entries + [(key, value)];
        [entries[0]] + rest
  }

  /** The object `filterMapObject` builds, entry by entry, stated as a function. */
  function MapEntries<A, B>(record: seq<(string, A)>, mapper: (string, A) -> Option<B>): seq<(string, B)>
  {
    if record == [] then []
    else
      var (fieldName, fieldValue) := record[|record| - 1];
      var mapped := MapEntries(record[..|record| - 1], mapper);
      match mapper(fieldName, fieldValue)
      case Some(b) => Assign(mapped, fieldName, b)
      case None => mapped
  }

  /** `filterMapObject`: assigns each defined mapped value under its field name. */
  method FilterMapObject<A, B>(record: seq<(string, A)>, mapper: (string, A) -> Option<B>)
    returns (mappedObject: seq<(string, B)>)
    ensures mappedObject == MapEntries(record, mapper)
  {
    mappedObject := [];
    for i := 0 to |record|
      invariant mappedObject == MapEntries(record[..i], mapper)
    {
      assert record[..i + 1][..i] == record[..i];
      var (fieldName, fieldValue) := record[i];
      var mappedValue := mapper(fieldName, fieldValue);
      if mappedValue.Some? {
        mappedObject := Assign(mappedObject, fieldName, mappedValue.value);
      }
    }
    assert record[..|record|] == record;
  }

  /** A key is kept exactly when some entry under it maps to a defined value, so the result's
      keys are among the input's; the result is again an object (no key twice). */
  lemma {:induction false} MapEntriesKeys<A, B>(record: seq<(string, A)>, mapper: (string, A) -> Option<B>)
    ensures forall k :: k in Keys(MapEntries(record, mapper)) <==>
      exists i :: 0 <= i < |record| && record[i].0 == k && mapper(record[i].0, record[i].1).Some?
    ensures Keys(MapEntries(record, mapper)) <= Keys(record)
    ensures DistinctKeys(MapEntries(record, mapper))
  {
    if record != [] {
      var init := record[..|record| - 1];
      MapEntriesKeys(init, mapper);
      assert forall i :: 0 <= i < |init| ==> init[i] == record[i];
    }
  }

  /** On an object (distinct keys) `filterMapObject` is filter-mapping its entries, keeping
      each key with its mapped value in enumeration order. */
  lemma {:induction false} MapEntriesOfObject<A, B>(record: seq<(string, A)>, mapper: (string, A) -> Option<B>)
    requires DistinctKeys(record)
    ensures MapEntries(record, mapper) == MapThenFilter(record, EntryMapper(mapper))
  {
    if record != [] {
      var init := record[..|record| - 1];
      assert DistinctKeys(init) by {
        assert forall i :: 0 <= i < |init| ==> init[i] == record[i];
      }
      MapEntriesOfObject(init, mapper);
      MapEntriesKeys(init, mapper);
      var last := record[|record| - 1];
      assert last.0 !in Keys(init) by {
        assert forall i :: 0 <= i < |init| ==> init[i].0 == record[i].0 != last.0;
      }
    }
  }

  /** The entry-wise mapper: keep the key with the mapped value. */
  function EntryMapper<A, B>(mapper: (string, A) -> Option<B>): ((string, A)) -> Option<(string, B)>
  {
    (entry: (string, A)) =>
      match mapper(entry.0, entry.1)
      case Some(b) => Some((entry.0, b))
      case None => None
  }

  // ---------------------------------------------------------------------------------------
  // containsKey

  /** `containsKey`: whether some pair has the given key (`Array.prototype.some`). */
  function ContainsKey<A(==), B>(keyValuePairs: seq<(A, B)>, lookup: A): (r: bool)
    ensures r <==> exists i :: 0 <= i < |keyValuePairs| && keyValuePairs[i].0 == lookup
  {
    if keyValuePairs == [] then false
    else if keyValuePairs[0].0 == lookup then true
    else
      var r := ContainsKey(keyValuePairs[1..], lookup);
      assert forall i :: 1 <= i < |keyValuePairs| ==> keyValuePairs[i] == keyValuePairs[1..][i - 1];
      r
  }
}

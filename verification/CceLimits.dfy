/**
 Where the 32-bit counts of src/cce.rs wrap: what is lost from 2^32 array items or map entries on, and only from there.
 */
module CceLimits {
  import opened Types
  import opened KeyedSort
  import opened Cce
  import opened CceDecoder
  import opened CceCanon

  // ----- Prefix-freedom -----

  /** A length of 2^32 or more wraps in the count: the array's encoding starts with a shorter array's. */
  lemma {:induction false} OversizeArrayBreaksPrefixFreedom(nfc: Nfc, items: seq<Value>)
    requires |items| >= TWO_32 && Encodable(nfc, Arr(items))
    ensures var short := items[..|items| % TWO_32];
            && Encodable(nfc, Arr(short)) && Canon(nfc, Arr(short)) != Canon(nfc, Arr(items))
            && Encoding(nfc, Arr(items))
            == Encoding(nfc, Arr(short)) + EncodingOfItems(nfc, items[|items| % TWO_32..])
  {
    var n := |items| % TWO_32;
    assert items == items[..n] + items[n..];
    OversizeSplit(nfc, items[..n], items[n..]);
  }

  lemma {:induction false} OversizeSplit(nfc: Nfc, short: seq<Value>, rest: seq<Value>)
    requires rest != [] && LengthBytes(|short| + |rest|) == LengthBytes(|short|)
    requires Encodable(nfc, Arr(short + rest))
    ensures Encodable(nfc, Arr(short)) && Canon(nfc, Arr(short)) != Canon(nfc, Arr(short + rest))
    ensures Encoding(nfc, Arr(short + rest)) == Encoding(nfc, Arr(short)) + EncodingOfItems(nfc, rest)
  {
    ItemErrors(nfc, short + rest);
    ItemErrors(nfc, short);
    assert forall x | x in short :: x in short + rest;
    EncodingOfConcat(nfc, short, rest);
    ArrayBytes(LengthBytes(|short|), EncodingOfItems(nfc, short), EncodingOfItems(nfc, rest));
    assert |CanonItems(nfc, short)| != |CanonItems(nfc, short + rest)|;
  }

  lemma {:induction false} ArrayBytes(len: Bytes, x: Bytes, y: Bytes)
    ensures [TAG_ARRAY] + len + (x + y) == [TAG_ARRAY] + len + x + y
  {
  }

  lemma {:induction false} EncodingOfConcat(nfc: Nfc, xs: seq<Value>, ys: seq<Value>)
    ensures EncodingOfItems(nfc, xs + ys) == EncodingOfItems(nfc, xs) + EncodingOfItems(nfc, ys)
  {
    var x, y := EncodingOfItems(nfc, xs), EncodingOfItems(nfc, ys);
    if xs == [] {
      assert xs + ys == ys && [] + y == y;
    } else {
      EncodingOfConcat(nfc, xs[1..], ys);
      assert (xs + ys)[1..] == xs[1..] + ys;
      ConcatStep(EncodingOfItems(nfc, xs + ys), Encoding(nfc, xs[0]), EncodingOfItems(nfc, xs[1..]), x, y);
    }
  }

  /** The smallest input of that family: 2^32 nulls encode to an empty array followed by 2^32 zero bytes. */
  lemma {:induction false} ManyNullsCollideWithEmptyArray(nfc: Nfc)
    ensures var nulls := seq(TWO_32, _ => Null);
            && Encodable(nfc, Arr(nulls))
            && Encoding(nfc, Arr(nulls)) == Encoding(nfc, Arr([])) + EncodingOfItems(nfc, nulls)
  {
    var nulls: seq<Value> := seq(TWO_32, _ => Null);
    ItemErrors(nfc, nulls);
    OversizeArrayBreaksPrefixFreedom(nfc, nulls);
    assert nulls[..0] == [] && nulls[0..] == nulls;
  }

  /** So does the count of a map: its encoding starts with that of the map of its first entries in key order. */
  lemma {:induction false} OversizeMapBreaksPrefixFreedom(nfc: Nfc, entries: seq<Entry>)
    requires |entries| >= TWO_32 && Encodable(nfc, Obj(entries))
    ensures var sorted, n := SortEntries(nfc, entries), |entries| % TWO_32;
            var short := sorted[..n];
            && Encodable(nfc, Obj(short)) && Canon(nfc, Obj(short)) != Canon(nfc, Obj(entries))
            && Encoding(nfc, Obj(entries)) == Encoding(nfc, Obj(short)) + Flat(Pairs(nfc, sorted[n..]))
  {
    hide Encodable, Sort, Pairs, Flat, CanonEntries, SortEntries, LengthBytes;
    var sorted, n := SortEntries(nfc, entries), |entries| % TWO_32;
    var short, rest := sorted[..n], sorted[n..];
    SortEntriesFacts(nfc, entries);
    SortedFront(nfc, entries, n);
    SameCount(n, |entries|);
    assert sorted == short + rest;
    FlatOfConcat(nfc, short, rest);
    MapBytes(LengthBytes(n), Flat(Pairs(nfc, short)), Flat(Pairs(nfc, rest)));
    LongerMapDiffers(nfc, short, entries);
  }

  lemma {:induction false} SortedFront(nfc: Nfc, entries: seq<Entry>, n: nat)
    requires Encodable(nfc, Obj(entries)) && n <= |entries|
    ensures var short := SortEntries(nfc, entries)[..n];
            Encodable(nfc, Obj(short)) && Sort(Pairs(nfc, short)) == Pairs(nfc, short)
  {
    hide Sort, CanonEntries, SortEntries;
    var sorted := SortEntries(nfc, entries);
    var short := sorted[..n];
    var all, front := Pairs(nfc, sorted), Pairs(nfc, short);
    SortEntriesFacts(nfc, entries);
    DistinctPairs(nfc, entries);
    SortSorted(Pairs(nfc, entries));
    SortDistinct(Pairs(nfc, entries));
    SortedStrictly(all);
    assert StrictlySorted(all) && DistinctKeys(all);
    forall i | 0 <= i < n
      ensures front[i] == all[i]
    {
      EntriesAt(nfc, sorted, i);
      EntriesAt(nfc, short, i);
    }
    SortOfSorted(front);
    DistinctPairs(nfc, short);
    EntryErrors(nfc, entries);
    EntryErrors(nfc, short);
    assert forall e | e in short :: e in sorted;
  }

  lemma {:induction false} SortOfSorted<T>(ps: seq<Keyed<T>>)
    requires StrictlySorted(ps) && DistinctKeys(ps)
    ensures Sort(ps) == ps
  {
    SortElements(ps);
    SortSorted(ps);
    SortDistinct(ps);
    SortedStrictly(Sort(ps));
    StrictlySortedUnique(Sort(ps), ps);
  }

  lemma {:induction false} FlatHead(nfc: Nfc, es: seq<Entry>)
    requires es != []
    ensures Flat(Pairs(nfc, es))
            == EncodedString(nfc, es[0].key) + Encoding(nfc, es[0].value) + Flat(Pairs(nfc, es[1..]))
  {
    assert Pairs(nfc, es)[1..] == Pairs(nfc, es[1..]);
  }

  lemma {:induction false} FlatOfConcat(nfc: Nfc, xs: seq<Entry>, ys: seq<Entry>)
    ensures Flat(Pairs(nfc, xs + ys)) == Flat(Pairs(nfc, xs)) + Flat(Pairs(nfc, ys))
  {
    if xs == [] {
      assert xs + ys == ys && [] + Flat(Pairs(nfc, ys)) == Flat(Pairs(nfc, ys));
    } else {
      FlatOfConcat(nfc, xs[1..], ys);
      assert (xs + ys)[1..] == xs[1..] + ys && (xs + ys)[0] == xs[0];
      FlatJoins(nfc, xs, xs + ys, Flat(Pairs(nfc, ys)));
    }
  }

  lemma {:induction false} FlatJoins(nfc: Nfc, xs: seq<Entry>, zs: seq<Entry>, y: Bytes)
    requires xs != [] && zs != [] && zs[0] == xs[0]
    requires Flat(Pairs(nfc, zs[1..])) == Flat(Pairs(nfc, xs[1..])) + y
    ensures Flat(Pairs(nfc, zs)) == Flat(Pairs(nfc, xs)) + y
  {
    hide EncodedString, Encoding, Pairs, Flat;
    FlatHead(nfc, xs);
    FlatHead(nfc, zs);
    var head := EncodedString(nfc, xs[0].key) + Encoding(nfc, xs[0].value);
    ConcatStep(Flat(Pairs(nfc, zs)), head, Flat(Pairs(nfc, xs[1..])), Flat(Pairs(nfc, xs)), y);
  }

  lemma {:induction false} SameCount(n: nat, len: nat)
    requires n == len % TWO_32
    ensures LengthBytes(n) == LengthBytes(len)
  {
  }

  lemma {:induction false} LongerMapDiffers(nfc: Nfc, short: seq<Entry>, entries: seq<Entry>)
    requires |short| != |entries|
    ensures Canon(nfc, Obj(short)) != Canon(nfc, Obj(entries))
  {
    assert |Seconds(Sort(CanonEntries(nfc, short)))| != |Seconds(Sort(CanonEntries(nfc, entries)))|;
  }

  lemma {:induction false} MapBytes(len: Bytes, x: Bytes, y: Bytes)
    ensures [TAG_MAP] + len + (x + y) == [TAG_MAP] + len + x + y
  {
  }

  // ----- Injectivity -----

  /** Every array and map, at every depth, has fewer than `bound` elements. */
  predicate Below(v: Value, bound: nat)
  {
    match v
    case Arr(items) => |items| < bound && forall x | x in items :: Below(x, bound)
    case Obj(entries) => |entries| < bound && forall e | e in entries :: Below(e.value, bound)
    case _ => true
  }

  lemma {:induction false} BelowIsSmall(v: Value, bound: nat)
    requires Below(v, bound) && bound <= TWO_32
    ensures Small(v)
    decreases v
  {
    match v
    case Arr(items) =>
      forall x | x in items ensures Small(x) { BelowIsSmall(x, bound); }
    case Obj(entries) =>
      forall e | e in entries ensures Small(e.value) { BelowIsSmall(e.value, bound); }
    case _ =>
  }

  /** The encodings of values that differ canonically differ, as long as no container reaches the bound. */
  ghost predicate InjectiveBelow(nfc: Nfc, bound: nat)
  {
    forall a, b | Encodable(nfc, a) && Encodable(nfc, b) && Below(a, bound) && Below(b, bound) ::
      Encoding(nfc, a) == Encoding(nfc, b) ==> Canon(nfc, a) == Canon(nfc, b)
  }

  /**
   When the count of `[[]] + items` wraps to zero, these two arrays have one encoding: read as empty, the
   first inner array hands its elements, and then `last`, to an array that opens with its first element.
   */
  lemma {:induction false} WrappedArraysCollide(nfc: Nfc, items: seq<Value>, last: Value)
    requires (|items| + 1) % TWO_32 == 0 && Encodable(nfc, Arr(items)) && Encodable(nfc, last)
    ensures var a, b := Arr([Arr([Arr([])] + items), last]), Arr([Arr([]), Arr(items + [last])]);
            && Encodable(nfc, a) && Encodable(nfc, b)
            && Encoding(nfc, a) == Encoding(nfc, b) && Canon(nfc, a) != Canon(nfc, b)
  {
    var empty := Arr([]);
    var a, b := Arr([Arr([empty] + items), last]), Arr([empty, Arr(items + [last])]);
    ItemErrors(nfc, items);
    ItemErrors(nfc, [empty] + items);
    ItemErrors(nfc, items + [last]);
    ItemErrors(nfc, a.items);
    ItemErrors(nfc, b.items);
    var e, xs, z := [TAG_ARRAY] + LengthBytes(0), EncodingOfItems(nfc, items), Encoding(nfc, last);
    assert Encoding(nfc, empty) == e;
    TwoItems(nfc, a.items[0], last);
    TwoItems(nfc, empty, b.items[1]);
    InnerEncodings(nfc, items, last);
    assert e + (e + xs) + z == e + (e + (xs + z));
    assert Canon(nfc, a.items[0]) != Canon(nfc, empty);
    ItemsAt(nfc, a.items, 0);
    ItemsAt(nfc, b.items, 0);
  }

  lemma {:induction false} InnerEncodings(nfc: Nfc, items: seq<Value>, last: Value)
    requires (|items| + 1) % TWO_32 == 0
    ensures var e, xs := [TAG_ARRAY] + LengthBytes(0), EncodingOfItems(nfc, items);
            && Encoding(nfc, Arr([Arr([])] + items)) == e + (e + xs)
            && Encoding(nfc, Arr(items + [last])) == e + (xs + Encoding(nfc, last))
  {
    hide LittleEndian;
    var empty := Arr([]);
    assert Encoding(nfc, empty) == [TAG_ARRAY] + LengthBytes(0);
    assert LengthBytes(|items| + 1) == LengthBytes(0);
    assert ([empty] + items)[1..] == items;
    EncodingOfConcat(nfc, items, [last]);
    assert EncodingOfItems(nfc, [last]) == Encoding(nfc, last) + EncodingOfItems(nfc, []) == Encoding(nfc, last);
  }

  lemma {:induction false} TwoItems(nfc: Nfc, x: Value, y: Value)
    ensures Encoding(nfc, Arr([x, y])) == [TAG_ARRAY] + LengthBytes(2) + (Encoding(nfc, x) + Encoding(nfc, y))
  {
    var items := [x, y];
    assert items[1..] == [y] && [y][1..] == [];
    assert EncodingOfItems(nfc, [y]) == Encoding(nfc, y) + EncodingOfItems(nfc, []) == Encoding(nfc, y);
    assert EncodingOfItems(nfc, items) == Encoding(nfc, x) + EncodingOfItems(nfc, items[1..]);
  }

  /** Injectivity holds for containers below 2^32 elements and fails as soon as one may have 2^32. */
  lemma {:induction false} InjectiveExactlyBelow(nfc: Nfc, bound: nat)
    ensures InjectiveBelow(nfc, bound) <==> bound <= TWO_32
  {
    if bound <= TWO_32 {
      forall a, b | Encodable(nfc, a) && Encodable(nfc, b) && Below(a, bound) && Below(b, bound)
        ensures Encoding(nfc, a) == Encoding(nfc, b) ==> Canon(nfc, a) == Canon(nfc, b)
      {
        BelowIsSmall(a, bound);
        BelowIsSmall(b, bound);
        EncodingsEqualExactly(nfc, a, b);
      }
    } else {
      var nulls: seq<Value> := seq(TWO_32 - 1, _ => Null);
      ItemErrors(nfc, nulls);
      WrappedArraysCollide(nfc, nulls, Null);
      CollidingAreBelow(nulls, bound);
    }
  }

  lemma {:induction false} CollidingAreBelow(nulls: seq<Value>, bound: nat)
    requires |nulls| + 1 < bound && 2 < bound && forall x | x in nulls :: x == Null
    ensures Below(Arr([Arr([Arr([])] + nulls), Null]), bound) && Below(Arr([Arr([]), Arr(nulls + [Null])]), bound)
  {
    assert Below(Arr([Arr([])] + nulls), bound) && Below(Arr(nulls + [Null]), bound);
  }

  /** Two such payloads share an event id: their preimages are equal. */
  lemma {:induction false} OversizePayloadsShareAnId(nfc: Nfc, eventType: Bytes, typeVersion: u32, cause: Option<Bytes>)
    ensures var nulls := seq(TWO_32 - 1, _ => Null);
            var a, b := Arr([Arr([Arr([])] + nulls), Null]), Arr([Arr([]), Arr(nulls + [Null])]);
            && Canon(nfc, a) != Canon(nfc, b)
            && Preimage(nfc, eventType, typeVersion, cause, a) == Preimage(nfc, eventType, typeVersion, cause, b)
  {
    var nulls: seq<Value> := seq(TWO_32 - 1, _ => Null);
    ItemErrors(nfc, nulls);
    WrappedArraysCollide(nfc, nulls, Null);
  }
}

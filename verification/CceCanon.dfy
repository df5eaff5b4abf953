/** Which values encode alike, which fail to encode, and what an event id pins down (src/cce.rs). */
module CceCanon {
  import opened Types
  import opened KeyedSort
  import opened Cce
  import opened CceDecoder

  // ----- Which values encode alike -----

  /**
   Values that differ only by the order of map entries at any depth, by NFC-equivalent strings, or
   by the representation of zero and NaN.
   */
  ghost predicate Same(nfc: Nfc, a: Value, b: Value)
  {
    match (a, b)
    case (Float(x), Float(y)) => x == y || (IsNan(x) && IsNan(y)) || (IsZero(x) && IsZero(y))
    case (Str(s), Str(t)) => nfc(s) == nfc(t)
    case (Arr(xs), Arr(ys)) => |xs| == |ys| && forall i | 0 <= i < |xs| :: Same(nfc, xs[i], ys[i])
    case (Obj(xs), Obj(ys)) => |xs| == |ys| && exists p, q :: Inverse(p, q, |xs|) && SameVia(nfc, xs, ys, p)
    case _ => a == b
  }

  /** `p` and `q` are permutations of 0..n-1, each undoing the other. */
  ghost predicate Inverse(p: seq<nat>, q: seq<nat>, n: nat)
  {
    && |p| == |q| == n
    && (forall i | 0 <= i < n :: p[i] < n && q[p[i]] == i)
    && (forall j | 0 <= j < n :: q[j] < n && p[q[j]] == j)
  }

  ghost predicate SameVia(nfc: Nfc, xs: seq<Entry>, ys: seq<Entry>, p: seq<nat>)
  {
    && |p| == |xs| == |ys|
    && (forall i | 0 <= i < |p| :: p[i] < |ys|)
    && forall i | 0 <= i < |xs| :: SameKey(nfc, xs[i], ys[p[i]]) && Same(nfc, xs[i].value, ys[p[i]].value)
  }

  lemma {:induction false} DistinctPairs(nfc: Nfc, es: seq<Entry>)
    ensures !HasDuplicateKeys(nfc, es) <==> DistinctKeys(Pairs(nfc, es))
    ensures !HasDuplicateKeys(nfc, es) <==> DistinctKeys(CanonEntries(nfc, es))
  {
    forall i, j | 0 <= i < j < |es|
      ensures SameKey(nfc, es[i], es[j]) <==> Pairs(nfc, es)[i].key == Pairs(nfc, es)[j].key
      ensures SameKey(nfc, es[i], es[j]) <==> CanonEntries(nfc, es)[i].key == CanonEntries(nfc, es)[j].key
    {
      EntriesAt(nfc, es, i);
      EntriesAt(nfc, es, j);
      EncodedStringInjective(nfc, es[i].key, es[j].key);
    }
  }

  lemma {:induction false} EncodedStringInjective(nfc: Nfc, s: Bytes, t: Bytes)
    ensures EncodedString(nfc, s) == EncodedString(nfc, t) <==> nfc(s) == nfc(t)
  {
    var x, y := EncodedString(nfc, s), EncodedString(nfc, t);
    assert x[5..] == nfc(s) && y[5..] == nfc(t);
  }

  /** Such values encode to identical bytes, or both fail. */
  lemma {:induction false} SameEncodesAlike(nfc: Nfc, a: Value, b: Value)
    requires Same(nfc, a, b) && Encodable(nfc, a)
    ensures Encodable(nfc, b) && Encoding(nfc, a) == Encoding(nfc, b)
    decreases a
  {
    match (a, b)
    case (Arr(xs), Arr(ys)) =>
      ItemErrors(nfc, xs);
      ItemErrors(nfc, ys);
      forall i | 0 <= i < |xs|
        ensures Encodable(nfc, ys[i]) && Encoding(nfc, xs[i]) == Encoding(nfc, ys[i])
      {
        SameEncodesAlike(nfc, xs[i], ys[i]);
      }
      SameItems(nfc, xs, ys);
    case (Obj(xs), Obj(ys)) =>
      var p, q :| Inverse(p, q, |xs|) && SameVia(nfc, xs, ys, p);
      EntryErrors(nfc, xs);
      forall i | 0 <= i < |xs|
        ensures Encodable(nfc, ys[p[i]].value)
        ensures Encoding(nfc, xs[i].value) == Encoding(nfc, ys[p[i]].value)
      {
        assert xs[i] in xs;
        SameEncodesAlike(nfc, xs[i].value, ys[p[i]].value);
      }
      SameEntries(nfc, xs, ys, p, q);
    case _ =>
  }

  lemma {:induction false} SameItems(nfc: Nfc, xs: seq<Value>, ys: seq<Value>)
    requires |xs| == |ys| && forall i | 0 <= i < |xs| :: Encoding(nfc, xs[i]) == Encoding(nfc, ys[i])
    ensures EncodingOfItems(nfc, xs) == EncodingOfItems(nfc, ys)
  {
    if xs != [] {
      SameItems(nfc, xs[1..], ys[1..]);
    }
  }

  lemma {:induction false} DuplicatesCarryOver(nfc: Nfc, xs: seq<Entry>, ys: seq<Entry>, p: seq<nat>, q: seq<nat>)
    requires |xs| == |ys| && Inverse(p, q, |xs|) && HasDuplicateKeys(nfc, ys)
    requires forall i | 0 <= i < |xs| :: SameKey(nfc, xs[i], ys[p[i]])
    ensures HasDuplicateKeys(nfc, xs)
  {
    var j, k :| 0 <= j < k < |ys| && SameKey(nfc, ys[j], ys[k]);
    assert p[q[j]] == j && p[q[k]] == k;
    assert SameKey(nfc, xs[q[j]], xs[q[k]]) && SameKey(nfc, xs[q[k]], xs[q[j]]);
    assert q[j] < q[k] || q[k] < q[j];
  }

  lemma {:induction false} SameEntries(nfc: Nfc, xs: seq<Entry>, ys: seq<Entry>, p: seq<nat>, q: seq<nat>)
    requires |xs| == |ys| && Inverse(p, q, |xs|)
    requires forall i | 0 <= i < |xs| ::
               SameKey(nfc, xs[i], ys[p[i]]) && StringError(nfc, xs[i].key).None?
               && Encodable(nfc, ys[p[i]].value) && Encoding(nfc, xs[i].value) == Encoding(nfc, ys[p[i]].value)
    requires !HasDuplicateKeys(nfc, xs)
    ensures Encodable(nfc, Obj(ys)) && Encoding(nfc, Obj(xs)) == Encoding(nfc, Obj(ys))
  {
    forall j | 0 <= j < |ys|
      ensures StringError(nfc, ys[j].key).None? && Encodable(nfc, ys[j].value)
    {
      assert p[q[j]] == j;
    }
    EntryErrors(nfc, ys);
    if HasDuplicateKeys(nfc, ys) {
      DuplicatesCarryOver(nfc, xs, ys, p, q);
    }
    var us, vs := Pairs(nfc, xs), Pairs(nfc, ys);
    forall i | 0 <= i < |xs|
      ensures us[i] == vs[p[i]]
    {
      EntriesAt(nfc, xs, i);
      EntriesAt(nfc, ys, p[i]);
    }
    DistinctPairs(nfc, xs);
    DistinctPairs(nfc, ys);
    PermutedAlike(us, vs, p, q);
  }

  lemma {:induction false} PermutedAlike<T>(us: seq<Keyed<T>>, vs: seq<Keyed<T>>, p: seq<nat>, q: seq<nat>)
    requires |us| == |vs| && Inverse(p, q, |us|) && forall i | 0 <= i < |us| :: us[i] == vs[p[i]]
    requires DistinctKeys(us) && DistinctKeys(vs)
    ensures Sort(us) == Sort(vs)
  {
    forall x
      ensures x in us <==> x in vs
    {
      if x in us { var i :| 0 <= i < |us| && us[i] == x; }
      if x in vs { var j :| 0 <= j < |vs| && vs[j] == x; assert us[q[j]] == vs[p[q[j]]]; }
    }
    SortedAlike(us, vs);
  }

  lemma {:induction false} SortedAlike<T>(us: seq<Keyed<T>>, vs: seq<Keyed<T>>)
    requires DistinctKeys(us) && DistinctKeys(vs) && forall x :: x in us <==> x in vs
    ensures Sort(us) == Sort(vs)
  {
    SortElements(us);
    SortElements(vs);
    SortSorted(us);
    SortSorted(vs);
    SortDistinct(us);
    SortDistinct(vs);
    SortedStrictly(Sort(us));
    SortedStrictly(Sort(vs));
    StrictlySortedUnique(Sort(us), Sort(vs));
  }

  /** Values with one canonical form differ only in those ways. */
  lemma {:induction false} CanonSame(nfc: Nfc, a: Value, b: Value)
    requires Encodable(nfc, a) && Encodable(nfc, b) && Canon(nfc, a) == Canon(nfc, b)
    ensures Same(nfc, a, b)
    decreases a
  {
    hide EncodedString, Sort, Seconds, Inverse, CanonItems, CanonEntries;
    match (a, b)
    case (Arr(xs), Arr(ys)) =>
      ItemErrors(nfc, xs);
      ItemErrors(nfc, ys);
      assert |xs| == |CanonItems(nfc, xs)| == |CanonItems(nfc, ys)| == |ys|;
      forall i | 0 <= i < |xs|
        ensures Same(nfc, xs[i], ys[i])
      {
        ItemsAt(nfc, xs, i);
        ItemsAt(nfc, ys, i);
        CanonSame(nfc, xs[i], ys[i]);
      }
    case (Obj(xs), Obj(ys)) =>
      EntryErrors(nfc, xs);
      EntryErrors(nfc, ys);
      SortedCanonEntriesEqual(nfc, xs, ys);
      DistinctPairs(nfc, xs);
      DistinctPairs(nfc, ys);
      var p, q := SortedPermutation(CanonEntries(nfc, xs), CanonEntries(nfc, ys));
      forall i | 0 <= i < |xs|
        ensures SameKey(nfc, xs[i], ys[p[i]]) && Same(nfc, xs[i].value, ys[p[i]].value)
      {
        EntriesAt(nfc, xs, i);
        EntriesAt(nfc, ys, p[i]);
        assert xs[i] in xs && ys[p[i]] in ys;
        CanonSame(nfc, xs[i].value, ys[p[i]].value);
      }
      assert SameVia(nfc, xs, ys, p);
    case _ =>
  }

  /** Lists without equal keys that sort alike are permutations of each other. */
  lemma {:induction false} SortedPermutation<T>(us: seq<Keyed<T>>, vs: seq<Keyed<T>>) returns (p: seq<nat>, q: seq<nat>)
    requires |us| == |vs| && Sort(us) == Sort(vs) && DistinctKeys(us) && DistinctKeys(vs)
    ensures Inverse(p, q, |us|) && forall i | 0 <= i < |us| :: us[i] == vs[p[i]]
  {
    SameSortSameElements(us, vs);
    p := PositionsIn(us, vs);
    q := PositionsIn(vs, us);
    MutualPositions(us, vs, p, q);
  }

  lemma {:induction false} SameSortSameElements<T>(us: seq<Keyed<T>>, vs: seq<Keyed<T>>)
    requires Sort(us) == Sort(vs)
    ensures forall x :: x in us <==> x in vs
  {
    SortElements(us);
    SortElements(vs);
    forall x
      ensures x in us <==> x in vs
    {
      assert x in us <==> x in Sort(us);
      assert x in vs <==> x in Sort(vs);
    }
  }

  lemma {:induction false} SortedCanonEntriesEqual(nfc: Nfc, xs: seq<Entry>, ys: seq<Entry>)
    requires Canon(nfc, Obj(xs)) == Canon(nfc, Obj(ys))
    ensures |xs| == |ys| && Sort(CanonEntries(nfc, xs)) == Sort(CanonEntries(nfc, ys))
  {
    TagsFollow(nfc, xs);
    TagsFollow(nfc, ys);
    SortElements(CanonEntries(nfc, xs));
    SortElements(CanonEntries(nfc, ys));
    SecondsDetermine(Sort(CanonEntries(nfc, xs)), Sort(CanonEntries(nfc, ys)));
  }

  lemma {:induction false} SecondsDetermine(us: seq<Keyed<Entry>>, vs: seq<Keyed<Entry>>)
    requires (forall t | t in us :: Tagged(t)) && (forall t | t in vs :: Tagged(t)) && Seconds(us) == Seconds(vs)
    ensures us == vs
  {
    assert |us| == |Seconds(us)| == |Seconds(vs)| == |vs|;
    forall i | 0 <= i < |us|
      ensures us[i] == vs[i]
    {
      assert us[i].value == Seconds(us)[i] == Seconds(vs)[i] == vs[i].value;
      assert Tagged(us[i]) && Tagged(vs[i]);
    }
  }

  lemma {:induction false} MutualPositions<T>(us: seq<Keyed<T>>, vs: seq<Keyed<T>>, p: seq<nat>, q: seq<nat>)
    requires DistinctKeys(us) && DistinctKeys(vs) && |us| == |vs| == |p| == |q|
    requires forall i | 0 <= i < |p| :: p[i] < |vs| && vs[p[i]] == us[i]
    requires forall j | 0 <= j < |q| :: q[j] < |us| && us[q[j]] == vs[j]
    ensures Inverse(p, q, |us|)
  {
  }

  /** The encoded key is a function of the canonical entry it tags. */
  ghost predicate Tagged(t: Keyed<Entry>)
  {
    t.key == [TAG_STRING] + LengthBytes(|t.value.key|) + t.value.key
  }

  lemma {:induction false} TagsFollow(nfc: Nfc, es: seq<Entry>)
    ensures forall t | t in CanonEntries(nfc, es) :: Tagged(t)
  {
    forall i | 0 <= i < |es|
      ensures Tagged(CanonEntries(nfc, es)[i])
    {
      EntriesAt(nfc, es, i);
    }
  }

  lemma {:induction false} PositionsIn<T>(us: seq<T>, vs: seq<T>) returns (p: seq<nat>)
    requires forall x | x in us :: x in vs
    ensures |p| == |us| && forall i | 0 <= i < |us| :: p[i] < |vs| && vs[p[i]] == us[i]
  {
    p := [];
    while |p| < |us|
      invariant |p| <= |us| && forall i | 0 <= i < |p| :: p[i] < |vs| && vs[p[i]] == us[i]
    {
      assert us[|p|] in vs;
      var k: nat :| k < |vs| && vs[k] == us[|p|];
      p := p + [k];
    }
  }

  /** Exactly the values that are `Same` encode to the same bytes. */
  lemma {:induction false} EncodingsEqualExactly(nfc: Nfc, a: Value, b: Value)
    requires Encodable(nfc, a) && Small(a) && Encodable(nfc, b) && Small(b)
    ensures Encoding(nfc, a) == Encoding(nfc, b) <==> Same(nfc, a, b)
    ensures Canon(nfc, a) == Canon(nfc, b) <==> Same(nfc, a, b)
  {
    if Encoding(nfc, a) == Encoding(nfc, b) {
      EncodingPrefixFree(nfc, a, [], b, []);
      CanonSame(nfc, a, b);
    }
    if Same(nfc, a, b) {
      SameEncodesAlike(nfc, a, b);
      EncodingPrefixFree(nfc, a, [], b, []);
    }
    if Canon(nfc, a) == Canon(nfc, b) {
      CanonSame(nfc, a, b);
    }
  }

  // ----- When encoding fails -----

  /** No u64 above the i64 range and no oversized string, at any depth. */
  ghost predicate WithinLimits(nfc: Nfc, v: Value)
  {
    match v
    case Uint(_) => false
    case Str(s) => |nfc(s)| <= MAX_STRING_BYTES
    case Arr(items) => forall x | x in items :: WithinLimits(nfc, x)
    case Obj(entries) => forall e | e in entries :: |nfc(e.key)| <= MAX_STRING_BYTES && WithinLimits(nfc, e.value)
    case _ => true
  }

  /** Some map, at some depth, has two keys that normalise to the same string. */
  ghost predicate HasDuplicatesWithin(nfc: Nfc, v: Value)
  {
    match v
    case Arr(items) => exists x :: x in items && HasDuplicatesWithin(nfc, x)
    case Obj(entries) =>
      HasDuplicateKeys(nfc, entries) || exists e :: e in entries && HasDuplicatesWithin(nfc, e.value)
    case _ => false
  }

  /** The encoder succeeds exactly on values within the limits and without duplicate keys. */
  lemma {:induction false} EncodableExactly(nfc: Nfc, v: Value)
    ensures Encodable(nfc, v) <==> WithinLimits(nfc, v) && !HasDuplicatesWithin(nfc, v)
    decreases v
  {
    match v
    case Arr(items) =>
      ItemErrors(nfc, items);
      forall x | x in items
        ensures Encodable(nfc, x) <==> WithinLimits(nfc, x) && !HasDuplicatesWithin(nfc, x)
      {
        EncodableExactly(nfc, x);
      }
    case Obj(entries) =>
      EntryErrors(nfc, entries);
      forall e | e in entries
        ensures Encodable(nfc, e.value) <==> WithinLimits(nfc, e.value) && !HasDuplicatesWithin(nfc, e.value)
      {
        EncodableExactly(nfc, e.value);
      }
    case _ =>
  }

  /** Within the limits, `DuplicateKeys` arises exactly when two keys of one map normalise alike. */
  lemma {:induction false} DuplicateKeysExactly(nfc: Nfc, v: Value)
    ensures FirstError(nfc, v) == Some(DuplicateKeys) ==> HasDuplicatesWithin(nfc, v)
    ensures WithinLimits(nfc, v) ==> (FirstError(nfc, v) == Some(DuplicateKeys) <==> HasDuplicatesWithin(nfc, v))
    decreases v
  {
    EncodableExactly(nfc, v);
    match v
    case Arr(items) => FailingItem(nfc, items);
    case Obj(entries) => FailingEntry(nfc, entries);
    case _ =>
  }

  lemma {:induction false} FailingItem(nfc: Nfc, items: seq<Value>)
    ensures FirstItemError(nfc, items) == Some(DuplicateKeys)
            ==> exists x :: x in items && HasDuplicatesWithin(nfc, x)
    ensures (forall x | x in items :: WithinLimits(nfc, x))
            ==> FirstItemError(nfc, items).None? || FirstItemError(nfc, items) == Some(DuplicateKeys)
    decreases items
  {
    if items != [] {
      DuplicateKeysExactly(nfc, items[0]);
      EncodableExactly(nfc, items[0]);
      FailingItem(nfc, items[1..]);
      assert items[0] in items;
      assert forall x :: x in items <==> x == items[0] || x in items[1..];
    }
  }

  lemma {:induction false} FailingEntry(nfc: Nfc, entries: seq<Entry>)
    ensures FirstEntryError(nfc, entries) == Some(DuplicateKeys)
            ==> exists e :: e in entries && HasDuplicatesWithin(nfc, e.value)
    ensures (forall e | e in entries :: |nfc(e.key)| <= MAX_STRING_BYTES && WithinLimits(nfc, e.value))
            ==> FirstEntryError(nfc, entries).None? || FirstEntryError(nfc, entries) == Some(DuplicateKeys)
    decreases entries
  {
    if entries != [] {
      DuplicateKeysExactly(nfc, entries[0].value);
      EncodableExactly(nfc, entries[0].value);
      FailingEntry(nfc, entries[1..]);
      assert entries[0] in entries;
      assert forall x :: x in entries <==> x == entries[0] || x in entries[1..];
    }
  }

  // ----- Event ids -----

  /** The bytes that are hashed into an event id. */
  function Preimage(nfc: Nfc, eventType: Bytes, typeVersion: u32, cause: Option<Bytes>, payload: Value): Bytes
  {
    CCE_PREFIX + (EncodedString(nfc, eventType) + (EncodedInt(typeVersion)
    + (EncodedOptionalBytes(cause) + Encoding(nfc, payload))))
  }

  lemma {:induction false} Cancel(a: Bytes, x: Bytes, b: Bytes, y: Bytes)
    requires |a| == |b| && a + x == b + y
    ensures a == b && x == y
  {
    assert a == (a + x)[..|a|] && b == (b + y)[..|b|];
    assert x == (a + x)[|a|..] && y == (b + y)[|b|..];
  }

  lemma {:induction false} StringPrefixFree(nfc: Nfc, s: Bytes, x: Bytes, t: Bytes, y: Bytes)
    requires StringError(nfc, s).None? && StringError(nfc, t).None?
    requires EncodedString(nfc, s) + x == EncodedString(nfc, t) + y
    ensures nfc(s) == nfc(t) && x == y
  {
    DecodeBlobBytes(TAG_STRING, nfc(s), x);
    DecodeBlobBytes(TAG_STRING, nfc(t), y);
  }

  lemma {:induction false} IntPrefixFree(i: u32, x: Bytes, j: u32, y: Bytes)
    requires EncodedInt(i) + x == EncodedInt(j) + y
    ensures i == j && x == y
  {
    Cancel(EncodedInt(i), x, EncodedInt(j), y);
    assert EncodedInt(i)[1..] == LittleEndian(i, 8) && EncodedInt(j)[1..] == LittleEndian(j, 8);
    PowersOf256();
    LittleEndianRoundTrip(i, 8);
    LittleEndianRoundTrip(j, 8);
  }

  /** A cause is absent or a 32-byte id. */
  predicate IsCause(c: Option<Bytes>)
  {
    c.Some? ==> |c.value| == 32
  }

  /** An absent value and byte strings below 2^32 bytes are told apart, and so is what follows them. */
  lemma {:induction false} OptionalBytesPrefixFree(c: Option<Bytes>, x: Bytes, d: Option<Bytes>, y: Bytes)
    requires (c.Some? ==> |c.value| < TWO_32) && (d.Some? ==> |d.value| < TWO_32)
    requires EncodedOptionalBytes(c) + x == EncodedOptionalBytes(d) + y
    ensures c == d && x == y
  {
    var u, v := EncodedOptionalBytes(c), EncodedOptionalBytes(d);
    assert (u + x)[0] == u[0] && (v + y)[0] == v[0];
    assert c.Some? <==> d.Some?;
    if c.Some? {
      DecodeBlobBytes(TAG_BYTES, c.value, x);
      DecodeBlobBytes(TAG_BYTES, d.value, y);
    } else {
      Cancel(u, x, v, y);
    }
  }

  /** Two floats encode alike exactly when they are one bit pattern, both NaN, or both a zero. */
  lemma {:induction false} FloatsEncodeAlikeExactly(x: u64, y: u64)
    ensures EncodedFloat(x) == EncodedFloat(y) <==> x == y || (IsNan(x) && IsNan(y)) || (IsZero(x) && IsZero(y))
  {
    hide CanonicalBits, IsNan, IsZero, LittleEndian, FromLittleEndian, Pow256;
    CanonicalAlikeExactly(x, y);
    PowersOf256();
    LittleEndianRoundTrip(CanonicalBits(x), 8);
    LittleEndianRoundTrip(CanonicalBits(y), 8);
    assert EncodedFloat(x)[1..] == LittleEndian(CanonicalBits(x), 8);
    assert EncodedFloat(y)[1..] == LittleEndian(CanonicalBits(y), 8);
  }

  lemma {:induction false} CanonicalAlikeExactly(x: u64, y: u64)
    ensures CanonicalBits(x) == CanonicalBits(y) <==> x == y || (IsNan(x) && IsNan(y)) || (IsZero(x) && IsZero(y))
  {
  }

  /** Two preimages are equal exactly when type, version, cause and canonical payload are. */
  lemma {:induction false} PreimagesEqualExactly(nfc: Nfc,
                                                 t: Bytes, m: u32, c: Option<Bytes>, a: Value,
                                                 u: Bytes, n: u32, d: Option<Bytes>, b: Value)
    requires StringError(nfc, t).None? && IsCause(c) && Encodable(nfc, a) && Small(a)
    requires StringError(nfc, u).None? && IsCause(d) && Encodable(nfc, b) && Small(b)
    ensures Preimage(nfc, t, m, c, a) == Preimage(nfc, u, n, d, b)
       <==> nfc(t) == nfc(u) && m == n && c == d && Canon(nfc, a) == Canon(nfc, b)
  {
    var a1, b1 := Encoding(nfc, a), Encoding(nfc, b);
    var a2, b2 := EncodedOptionalBytes(c) + a1, EncodedOptionalBytes(d) + b1;
    var a3, b3 := EncodedInt(m) + a2, EncodedInt(n) + b2;
    var a4, b4 := EncodedString(nfc, t) + a3, EncodedString(nfc, u) + b3;
    if Preimage(nfc, t, m, c, a) == Preimage(nfc, u, n, d, b) {
      Cancel(CCE_PREFIX, a4, CCE_PREFIX, b4);
      StringPrefixFree(nfc, t, a3, u, b3);
      IntPrefixFree(m, a2, n, b2);
      OptionalBytesPrefixFree(c, a1, d, b1);
    }
    EncodingsEqualExactly(nfc, a, b);
  }
}

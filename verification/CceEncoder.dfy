/** The encoders of src/cce.rs, appending to a mutable buffer, proved against module `Cce`. */
module CceEncoder {
  import opened Types
  import opened KeyedSort
  import opened Cce
  import opened CceCanon
  import opened CceSpec

  class Buffer {
    var bytes: Bytes

    constructor ()
      ensures bytes == []
    {
      bytes := [];
    }

    method Push(b: byte)
      modifies this
      ensures bytes == old(bytes) + [b]
    {
      bytes := bytes + [b];
    }

    method Extend(bs: Bytes)
      modifies this
      ensures bytes == old(bytes) + bs
    {
      bytes := bytes + bs;
    }
  }

  function Outcome(e: Option<CceError>): Result<Unit, CceError>
  {
    if e.Some? then Err(e.value) else Ok(Unit)
  }

  method EncodeString(nfc: Nfc, out: Buffer, s: Bytes) returns (r: Result<Unit, CceError>)
    modifies out
    ensures r == Outcome(StringError(nfc, s))
    ensures out.bytes == if r.Ok? then old(out.bytes) + EncodedString(nfc, s) else old(out.bytes)
    ensures r == if |nfc(s)| > 67_108_864 then Err(StringTooLarge(|nfc(s)|)) else Ok(Unit)
    ensures r.Ok? ==> IsText(nfc, s, EncodedString(nfc, s))
  {
    hide IsText;
    if StringError(nfc, s).None? {
      TextBytes(nfc, s);
    }
    var bytes := nfc(s);
    if |bytes| > MAX_STRING_BYTES {
      return Err(StringTooLarge(|bytes|));
    }
    out.Push(TAG_STRING);
    out.Extend(LengthBytes(|bytes|));
    out.Extend(bytes);
    return Ok(Unit);
  }

  method EncodeI64(out: Buffer, i: i64)
    modifies out
    ensures out.bytes == old(out.bytes) + EncodedInt(i)
  {
    out.Push(TAG_INT);
    out.Extend(LittleEndian(ToBits(i), 8));
  }

  method EncodeF64(out: Buffer, bits: u64)
    modifies out
    ensures out.bytes == old(out.bytes) + EncodedFloat(bits)
  {
    out.Push(TAG_FLOAT);
    out.Extend(LittleEndian(CanonicalBits(bits), 8));
  }

  method EncodeOptionalBytes(out: Buffer, b: Option<Bytes>)
    modifies out
    ensures out.bytes == old(out.bytes) + EncodedOptionalBytes(b)
  {
    match b {
      case None => out.Push(TAG_NULL);
      case Some(x) =>
        out.Push(TAG_BYTES);
        out.Extend(LengthBytes(|x|));
        out.Extend(x);
    }
  }

  /** `sort_unstable_by` on the encoded keys. */
  method SortPairs(pairs: seq<Keyed<Bytes>>) returns (sorted: seq<Keyed<Bytes>>)
    ensures sorted == Sort(pairs)
    ensures multiset(sorted) == multiset(pairs) && InByteOrder(sorted)
  {
    SortMultiset(pairs);
    SortInByteOrder(pairs);
    hide InByteOrder;
    sorted := [];
    var i := |pairs|;
    while i > 0
      invariant 0 <= i <= |pairs| && sorted == Sort(pairs[i..])
    {
      i := i - 1;
      sorted := Insert(pairs[i], sorted);
    }
    assert pairs[0..] == pairs;
  }

  /** The encoder's check for equal neighbours finds exactly the maps with duplicate keys. */
  method CheckDuplicates(nfc: Nfc, ghost entries: seq<Entry>, pairs: seq<Keyed<Bytes>>)
    returns (r: Result<Unit, CceError>)
    requires pairs == Sort(Pairs(nfc, entries))
    ensures r == if HasDuplicateKeys(nfc, entries) then Err(DuplicateKeys) else Ok(Unit)
  {
    hide Sort, Pairs, LexLess, HasDuplicateKeys;
    SortSorted(Pairs(nfc, entries));
    SortDistinct(Pairs(nfc, entries));
    DistinctPairs(nfc, entries);
    var i := 0;
    while i + 1 < |pairs|
      invariant 0 <= i
      invariant forall k | 0 <= k < i && k + 1 < |pairs| :: pairs[k].key != pairs[k + 1].key
    {
      if pairs[i].key == pairs[i + 1].key {
        return Err(DuplicateKeys);
      }
      i := i + 1;
    }
    SortedStrictly(pairs);
    return Ok(Unit);
  }

  method EncodeValue(nfc: Nfc, out: Buffer, v: Value) returns (r: Result<Unit, CceError>)
    modifies out
    ensures r == Outcome(FirstError(nfc, v))
    ensures r.Ok? ==> out.bytes == old(out.bytes) + Encoding(nfc, v) && Prescribed(nfc, v, Encoding(nfc, v))
    ensures r.Err? ==> StopsWith(nfc, v, r.error)
    decreases v, 2
  {
    hide Prescribed, StopsWith;
    WhatIsPrescribed(nfc, v);
    match v {
      case Null =>
        out.Push(TAG_NULL);
        return Ok(Unit);
      case Bool(b) =>
        out.Push(TAG_BOOL);
        out.Push(if b then 1 else 0);
        return Ok(Unit);
      case Int(i) =>
        EncodeI64(out, i);
        return Ok(Unit);
      case Uint(u) =>
        return Err(U64Overflow(u));
      case Float(bits) =>
        EncodeF64(out, bits);
        return Ok(Unit);
      case Str(s) =>
        r := EncodeString(nfc, out, s);
      case Arr(_) =>
        r := EncodeArray(nfc, out, v);
      case Obj(_) =>
        r := EncodeMap(nfc, out, v);
    }
  }

  lemma {:induction false} WhatIsPrescribed(nfc: Nfc, v: Value)
    ensures match FirstError(nfc, v)
      case None => Prescribed(nfc, v, Encoding(nfc, v))
      case Some(e) => StopsWith(nfc, v, e)
  {
    hide Prescribed, StopsWith, Passes;
    FirstErrorIsPrescribed(nfc, v);
    if Encodable(nfc, v) {
      EncodingIsPrescribed(nfc, v);
    }
  }

  lemma {:induction false} HeaderConcat(before: Bytes, tag: byte, len: Bytes, body: Bytes)
    ensures before + [tag] + len + body == before + ([tag] + len + body)
  {
  }

  method EncodeArray(nfc: Nfc, out: Buffer, v: Value) returns (r: Result<Unit, CceError>)
    requires v.Arr?
    modifies out
    ensures r == Outcome(FirstError(nfc, v))
    ensures r.Ok? ==> out.bytes == old(out.bytes) + Encoding(nfc, v)
    decreases v, 1
  {
    hide Prescribed, StopsWith, EncodingOfItems;
    out.Push(TAG_ARRAY);
    out.Extend(LengthBytes(|v.items|));
    r := EncodeItems(nfc, out, v);
    HeaderConcat(old(out.bytes), TAG_ARRAY, LengthBytes(|v.items|), EncodingOfItems(nfc, v.items));
  }

  method EncodeMap(nfc: Nfc, out: Buffer, v: Value) returns (r: Result<Unit, CceError>)
    requires v.Obj?
    modifies out
    ensures r == Outcome(FirstError(nfc, v))
    ensures r.Ok? ==> out.bytes == old(out.bytes) + Encoding(nfc, v) && Prescribed(nfc, v, Encoding(nfc, v))
    ensures r.Err? ==> StopsWith(nfc, v, r.error)
    decreases v, 1
  {
    hide Prescribed, StopsWith, InByteOrder;
    WhatIsPrescribed(nfc, v);
    var outcome, pairs := EncodePairs(nfc, v);
    if outcome.Err? {
      return outcome;
    }
    pairs := SortPairs(pairs);
    r := CheckDuplicates(nfc, v.entries, pairs);
    if r.Ok? {
      out.Push(TAG_MAP);
      out.Extend(LengthBytes(|pairs|));
      AppendPairs(out, pairs);
      HeaderConcat(old(out.bytes), TAG_MAP, LengthBytes(|pairs|), Flat(pairs));
    }
  }

  /** The loop over an array's items. */
  method EncodeItems(nfc: Nfc, out: Buffer, v: Value) returns (r: Result<Unit, CceError>)
    requires v.Arr?
    modifies out
    ensures r == Outcome(FirstItemError(nfc, v.items))
    ensures r.Ok? ==> out.bytes == old(out.bytes) + EncodingOfItems(nfc, v.items)
    decreases v, 0
  {
    hide Prescribed, StopsWith, Encoding, FirstError;
    var items, i := v.items, 0;
    while i < |items|
      invariant 0 <= i <= |items|
      invariant FirstItemError(nfc, items) == FirstItemError(nfc, items[i..])
      invariant out.bytes + EncodingOfItems(nfc, items[i..]) == old(out.bytes) + EncodingOfItems(nfc, items)
    {
      ghost var before := out.bytes;
      r := EncodeValue(nfc, out, items[i]);
      if r.Err? {
        return;
      }
      ConcatStep(before + EncodingOfItems(nfc, items[i..]), before, Encoding(nfc, items[i]), out.bytes,
                 EncodingOfItems(nfc, items[i + 1..]));
      i := i + 1;
    }
    return Ok(Unit);
  }

  /** The loop that encodes every key and value of a map into its own buffer. */
  method EncodePairs(nfc: Nfc, v: Value) returns (r: Result<Unit, CceError>, pairs: seq<Keyed<Bytes>>)
    requires v.Obj?
    ensures r == Outcome(FirstEntryError(nfc, v.entries))
    ensures r.Ok? ==> pairs == Pairs(nfc, v.entries)
    decreases v, 0
  {
    hide EncodedString, Encoding, FirstError, FirstEntryError, StringError, Pairs, Prescribed, StopsWith, IsText,
         Paired;
    var entries, i := v.entries, 0;
    pairs := [];
    NothingPaired(nfc, entries);
    while i < |entries|
      invariant 0 <= i <= |entries| && Paired(nfc, entries, i, pairs)
    {
      var keyBytes := new Buffer();
      var valBytes := new Buffer();
      PairOneMore(nfc, entries, i, pairs);
      r := EncodeString(nfc, keyBytes, entries[i].key);
      if r.Err? {
        return;
      }
      r := EncodeValue(nfc, valBytes, entries[i].value);
      if r.Err? {
        return;
      }
      assert keyBytes.bytes == EncodedString(nfc, entries[i].key);
      assert valBytes.bytes == Encoding(nfc, entries[i].value);
      pairs := pairs + [Keyed(keyBytes.bytes, valBytes.bytes)];
      i := i + 1;
    }
    AllPaired(nfc, entries, pairs);
    return Ok(Unit), pairs;
  }

  /** The first `i` entries are encoded without an error, as `pairs`. */
  ghost predicate Paired(nfc: Nfc, entries: seq<Entry>, i: nat, pairs: seq<Keyed<Bytes>>)
    requires i <= |entries|
  {
    && pairs + Pairs(nfc, entries[i..]) == Pairs(nfc, entries)
    && FirstEntryError(nfc, entries) == FirstEntryError(nfc, entries[i..])
  }

  lemma {:induction false} NothingPaired(nfc: Nfc, entries: seq<Entry>)
    ensures Paired(nfc, entries, 0, [])
  {
    assert entries[0..] == entries && [] + Pairs(nfc, entries) == Pairs(nfc, entries);
  }

  lemma {:induction false} PairOneMore(nfc: Nfc, entries: seq<Entry>, i: nat, pairs: seq<Keyed<Bytes>>)
    requires i < |entries| && Paired(nfc, entries, i, pairs)
    ensures var k, e := StringError(nfc, entries[i].key), FirstError(nfc, entries[i].value);
            var pair := Keyed(EncodedString(nfc, entries[i].key), Encoding(nfc, entries[i].value));
            && (k.Some? ==> FirstEntryError(nfc, entries) == k)
            && (k.None? && e.Some? ==> FirstEntryError(nfc, entries) == e)
            && (k.None? && e.None? ==> Paired(nfc, entries, i + 1, pairs + [pair]))
  {
    hide EncodedString, Encoding, FirstError, StringError;
    assert entries[i..][1..] == entries[i + 1..];
  }

  lemma {:induction false} AllPaired(nfc: Nfc, entries: seq<Entry>, pairs: seq<Keyed<Bytes>>)
    requires Paired(nfc, entries, |entries|, pairs)
    ensures pairs == Pairs(nfc, entries) && FirstEntryError(nfc, entries).None?
  {
    assert entries[|entries|..] == [] && pairs + [] == pairs;
  }

  method AppendPairs(out: Buffer, pairs: seq<Keyed<Bytes>>)
    modifies out
    ensures out.bytes == old(out.bytes) + Flat(pairs)
  {
    var i := 0;
    while i < |pairs|
      invariant 0 <= i <= |pairs| && out.bytes + Flat(pairs[i..]) == old(out.bytes) + Flat(pairs)
    {
      ghost var before := out.bytes;
      out.Extend(pairs[i].key);
      out.Extend(pairs[i].value);
      Regroup(before, pairs[i].key, pairs[i].value, Flat(pairs[i + 1..]));
      Regroup([], pairs[i].key, pairs[i].value, Flat(pairs[i + 1..]));
      i := i + 1;
    }
  }

  /** The id is the hash of the preimage; the type's string error comes before the payload's. */
  method DeriveEventId(nfc: Nfc, hash: Bytes -> Bytes, eventType: Bytes, typeVersion: u32, cause: Option<Bytes>,
                       payload: Value) returns (r: Result<Bytes, CceError>)
    ensures StringError(nfc, eventType).Some? ==> r == Err(StringError(nfc, eventType).value)
    ensures StringError(nfc, eventType).None? && FirstError(nfc, payload).Some?
            ==> r == Err(FirstError(nfc, payload).value)
    ensures StringError(nfc, eventType).None? && FirstError(nfc, payload).None?
            ==> r == Ok(hash(Preimage(nfc, eventType, typeVersion, cause, payload)))
    ensures r.Ok? ==> PrescribedPreimage(nfc, eventType, typeVersion, cause, payload,
                                         Preimage(nfc, eventType, typeVersion, cause, payload))
  {
    hide PrescribedPreimage, Prescribed, StopsWith, IsText;
    if StringError(nfc, eventType).None? && Encodable(nfc, payload) {
      PreimageIsPrescribed(nfc, eventType, typeVersion, cause, payload);
    }
    var buf := new Buffer();
    buf.Extend(CCE_PREFIX);
    assert buf.bytes == CCE_PREFIX;
    var e := EncodeString(nfc, buf, eventType);
    if e.Err? {
      return Err(e.error);
    }
    EncodeI64(buf, typeVersion);
    EncodeOptionalBytes(buf, cause);
    e := EncodeValue(nfc, buf, payload);
    if e.Err? {
      return Err(e.error);
    }
    PreimageBytes(CCE_PREFIX, EncodedString(nfc, eventType), EncodedInt(typeVersion), EncodedOptionalBytes(cause),
                  Encoding(nfc, payload));
    return Ok(hash(buf.bytes));
  }

  lemma {:induction false} PreimageBytes(p: Bytes, a: Bytes, b: Bytes, c: Bytes, d: Bytes)
    ensures p + a + b + c + d == p + (a + (b + (c + d)))
  {
    Regroup(p + a, b, c, d);
  }
}

/**
 What the Canonical Content Encoding prescribes (sections 2 to 4 of its specification, fossic-cce-v1), byte by byte and
 without a sorting algorithm, and that the encoding is that.
 */
module CceSpec {
  import opened Types
  import opened KeyedSort
  import opened Cce
  import opened CceCanon

  /** A 32-bit count, little-endian, of which multiples of 2^32 are lost. */
  predicate IsCount(c: Bytes, n: nat)
  {
    var d: seq<int> := c;
    |d| == 4 && d[0] + 0x100 * d[1] + 0x1_0000 * d[2] + 0x100_0000 * d[3] == n % 0x1_0000_0000
  }

  /** A 64-bit word, little-endian. */
  predicate IsWord(c: Bytes, w: u64)
  {
    var d: seq<int> := c;
    |d| == 8
    && d[0] + 0x100 * d[1] + 0x1_0000 * d[2] + 0x100_0000 * d[3] + 0x1_0000_0000 * d[4] + 0x100_0000_0000 * d[5]
       + 0x1_0000_0000_0000 * d[6] + 0x100_0000_0000_0000 * d[7] == w
  }

  /** One quiet NaN and one zero stand for all of them; every other float keeps its bits. */
  predicate IsCanonicalFloat(bits: u64, w: u64)
  {
    if 0x7FF0_0000_0000_0000 < bits < 0x8000_0000_0000_0000 || 0xFFF0_0000_0000_0000 < bits
    then w == 0x7FF8_0000_0000_0000
    else if bits == 0x8000_0000_0000_0000 then w == 0
    else w == bits
  }

  predicate IsText(nfc: Nfc, s: Bytes, b: Bytes)
  {
    |nfc(s)| <= 67_108_864 && |b| >= 5 && b[0] == 4 && IsCount(b[1..5], |nfc(s)|) && b[5..] == nfc(s)
  }

  function Concat(parts: seq<Bytes>): Bytes
  {
    if parts == [] then [] else parts[0] + Concat(parts[1..])
  }

  function Interleave(keys: seq<Bytes>, values: seq<Bytes>): Bytes
    requires |keys| == |values|
  {
    if keys == [] then [] else keys[0] + values[0] + Interleave(keys[1..], values[1..])
  }

  ghost predicate ArrayLayout(items: seq<Value>, parts: seq<Bytes>, b: Bytes)
  {
    |parts| == |items| && |b| >= 5 && b[0] == 6 && IsCount(b[1..5], |items|) && b[5..] == Concat(parts)
  }

  /** `es` are the entries in strictly ascending order of their encoded keys. */
  ghost predicate MapLayout(entries: seq<Entry>, es: seq<Entry>, keys: seq<Bytes>, values: seq<Bytes>, b: Bytes)
  {
    && multiset(es) == multiset(entries) && |keys| == |values| == |es|
    && (forall i, j | 0 <= i < j < |keys| :: ByteBefore(keys[i], keys[j]))
    && |b| >= 5 && b[0] == 7 && IsCount(b[1..5], |entries|) && b[5..] == Interleave(keys, values)
  }

  /** `b` is the encoding that the specification prescribes for `v`. */
  ghost predicate Prescribed(nfc: Nfc, v: Value, b: Bytes)
  {
    match v
    case Null => b == [0]
    case Bool(t) => b == [1, if t then 1 else 0]
    case Int(i) => |b| == 9 && b[0] == 2 && IsWord(b[1..], if i < 0 then i + 0x1_0000_0000_0000_0000 else i)
    case Uint(_) => false
    case Float(bits) => |b| == 9 && b[0] == 3 && exists w: u64 :: IsCanonicalFloat(bits, w) && IsWord(b[1..], w)
    case Str(s) => IsText(nfc, s, b)
    case Arr(items) =>
      exists parts: seq<Bytes> :: ArrayLayout(items, parts, b) && forall i | 0 <= i < |items| ::
        Prescribed(nfc, items[i], parts[i])
    case Obj(entries) =>
      exists es: seq<Entry>, keys: seq<Bytes>, values: seq<Bytes> ::
        && MapLayout(entries, es, keys, values, b)
        && forall i | 0 <= i < |es| && es[i] in entries ::
             IsText(nfc, es[i].key, keys[i]) && Prescribed(nfc, es[i].value, values[i])
  }

  lemma {:induction false} CountBytes(n: nat)
    ensures IsCount(LengthBytes(n), n)
  {
    PowersOf256();
    LittleEndianRoundTrip(n % TWO_32, 4);
    var c := LengthBytes(n);
    assert c[1..][1..] == c[2..] && c[2..][1..] == c[3..] && c[3..][1..] == [];
    assert FromLittleEndian(c[3..]) == c[3] + 256 * FromLittleEndian([]) == c[3];
    assert FromLittleEndian(c[2..]) == c[2] + 256 * FromLittleEndian(c[3..]);
    assert FromLittleEndian(c[1..]) == c[1] + 256 * FromLittleEndian(c[2..]);
  }

  lemma {:induction false} WordBytes(w: u64)
    ensures IsWord(LittleEndian(w, 8), w)
  {
    PowersOf256();
    LittleEndianRoundTrip(w, 8);
    hide LittleEndian;
    var c := LittleEndian(w, 8);
    assert c[1..][1..] == c[2..] && c[2..][1..] == c[3..] && c[3..][1..] == c[4..] && c[4..][1..] == c[5..];
    assert c[5..][1..] == c[6..] && c[6..][1..] == c[7..] && c[7..][1..] == [];
    assert FromLittleEndian(c[7..]) == c[7] + 256 * FromLittleEndian([]) == c[7];
    assert FromLittleEndian(c[6..]) == c[6] + 256 * FromLittleEndian(c[7..]);
    assert FromLittleEndian(c[5..]) == c[5] + 256 * FromLittleEndian(c[6..]);
    assert FromLittleEndian(c[4..]) == c[4] + 256 * FromLittleEndian(c[5..]);
    assert FromLittleEndian(c[3..]) == c[3] + 256 * FromLittleEndian(c[4..]);
    assert FromLittleEndian(c[2..]) == c[2] + 256 * FromLittleEndian(c[3..]);
    assert FromLittleEndian(c[1..]) == c[1] + 256 * FromLittleEndian(c[2..]);
  }

  lemma {:induction false} TextBytes(nfc: Nfc, s: Bytes)
    requires StringError(nfc, s).None?
    ensures IsText(nfc, s, EncodedString(nfc, s))
  {
    hide LittleEndian, IsCount;
    CountBytes(|nfc(s)|);
    var b := EncodedString(nfc, s);
    assert b[1..5] == LengthBytes(|nfc(s)|) && b[5..] == nfc(s);
  }

  lemma {:induction false} Header(tag: byte, n: nat, body: Bytes)
    ensures var b := [tag] + LengthBytes(n) + body;
            |b| >= 5 && b[0] == tag && IsCount(b[1..5], n) && b[5..] == body
  {
    hide LittleEndian, IsCount;
    CountBytes(n);
    var b := [tag] + LengthBytes(n) + body;
    assert b[1..5] == LengthBytes(n) && b[5..] == body;
  }

  function PartsOf(nfc: Nfc, items: seq<Value>): (parts: seq<Bytes>)
    ensures |parts| == |items| && forall i | 0 <= i < |items| :: parts[i] == Encoding(nfc, items[i])
  {
    seq(|items|, i requires 0 <= i < |items| => Encoding(nfc, items[i]))
  }

  lemma {:induction false} ConcatIsEncoding(nfc: Nfc, items: seq<Value>)
    ensures Concat(PartsOf(nfc, items)) == EncodingOfItems(nfc, items)
  {
    if items != [] {
      ConcatIsEncoding(nfc, items[1..]);
      assert PartsOf(nfc, items)[1..] == PartsOf(nfc, items[1..]);
    }
  }

  function KeysOf(ps: seq<Keyed<Bytes>>): (keys: seq<Bytes>)
    ensures |keys| == |ps| && forall i | 0 <= i < |ps| :: keys[i] == ps[i].key
  {
    seq(|ps|, i requires 0 <= i < |ps| => ps[i].key)
  }

  function ValuesOf(ps: seq<Keyed<Bytes>>): (values: seq<Bytes>)
    ensures |values| == |ps| && forall i | 0 <= i < |ps| :: values[i] == ps[i].value
  {
    seq(|ps|, i requires 0 <= i < |ps| => ps[i].value)
  }

  lemma {:induction false} InterleaveIsFlat(ps: seq<Keyed<Bytes>>)
    ensures Interleave(KeysOf(ps), ValuesOf(ps)) == Flat(ps)
  {
    if ps != [] {
      InterleaveIsFlat(ps[1..]);
      assert KeysOf(ps)[1..] == KeysOf(ps[1..]) && ValuesOf(ps)[1..] == ValuesOf(ps[1..]);
    }
  }

  lemma {:induction false} InsertEntryMultiset(nfc: Nfc, e: Entry, es: seq<Entry>)
    ensures multiset(InsertEntry(nfc, e, es)) == multiset(es) + multiset{e}
  {
    if es != [] && LexLess(EncodedString(nfc, es[0].key), EncodedString(nfc, e.key)) {
      InsertEntryMultiset(nfc, e, es[1..]);
      assert es == [es[0]] + es[1..];
    }
  }

  lemma {:induction false} SortEntriesMultiset(nfc: Nfc, entries: seq<Entry>)
    ensures multiset(SortEntries(nfc, entries)) == multiset(entries)
  {
    if entries != [] {
      SortEntriesMultiset(nfc, entries[1..]);
      InsertEntryMultiset(nfc, entries[0], SortEntries(nfc, entries[1..]));
      assert entries == [entries[0]] + entries[1..];
    }
  }

  /** Distinct keys sort into strictly ascending byte order. */
  lemma {:induction false} KeysAscend(nfc: Nfc, entries: seq<Entry>)
    requires !HasDuplicateKeys(nfc, entries)
    ensures var ps := Sort(Pairs(nfc, entries)); forall i, j | 0 <= i < j < |ps| :: ByteBefore(ps[i].key, ps[j].key)
  {
    hide Sort, Pairs, LexLess, ByteBefore;
    DistinctPairs(nfc, entries);
    SortDistinct(Pairs(nfc, entries));
    SortInByteOrder(Pairs(nfc, entries));
  }

  lemma {:induction false} MapBytes(nfc: Nfc, entries: seq<Entry>)
    requires !HasDuplicateKeys(nfc, entries)
    ensures var es := SortEntries(nfc, entries);
            var ps := Pairs(nfc, es);
            MapLayout(entries, es, KeysOf(ps), ValuesOf(ps), Encoding(nfc, Obj(entries)))
  {
    hide Sort, Pairs, LexLess, ByteBefore, SortEntries, CanonEntries, Interleave, Flat, LengthBytes, IsCount;
    var ps := Pairs(nfc, SortEntries(nfc, entries));
    SortEntriesFacts(nfc, entries);
    SortEntriesMultiset(nfc, entries);
    KeysAscend(nfc, entries);
    InterleaveIsFlat(ps);
    Header(TAG_MAP, |entries|, Flat(ps));
  }

  /** Every encodable value is encoded as prescribed. */
  lemma {:induction false} EncodingIsPrescribed(nfc: Nfc, v: Value)
    requires Encodable(nfc, v)
    ensures Prescribed(nfc, v, Encoding(nfc, v))
    decreases v
  {
    hide LittleEndian, LengthBytes, IsCount, IsWord, Concat, MapLayout, IsText;
    match v
    case Int(i) =>
      WordBytes(ToBits(i));
      assert EncodedInt(i)[1..] == LittleEndian(ToBits(i), 8);
    case Float(bits) =>
      WordBytes(CanonicalBits(bits));
      assert EncodedFloat(bits)[1..] == LittleEndian(CanonicalBits(bits), 8);
      assert IsCanonicalFloat(bits, CanonicalBits(bits));
    case Str(s) => TextBytes(nfc, s);
    case Arr(items) => ArrayIsPrescribed(nfc, v);
    case Obj(entries) => MapIsPrescribed(nfc, v);
    case _ =>
  }

  lemma {:induction false} ArrayIsPrescribed(nfc: Nfc, v: Value)
    requires v.Arr? && Encodable(nfc, v)
    ensures Prescribed(nfc, v, Encoding(nfc, v))
    decreases v, 0
  {
    hide LittleEndian, LengthBytes, IsCount, Concat;
    var items := v.items;
    ItemErrors(nfc, items);
    var parts := PartsOf(nfc, items);
    ConcatIsEncoding(nfc, items);
    Header(TAG_ARRAY, |items|, EncodingOfItems(nfc, items));
    assert ArrayLayout(items, parts, Encoding(nfc, v));
    forall i | 0 <= i < |items| ensures Prescribed(nfc, items[i], parts[i]) {
      assert items[i] in items;
      EncodingIsPrescribed(nfc, items[i]);
    }
  }

  lemma {:induction false} MapIsPrescribed(nfc: Nfc, v: Value)
    requires v.Obj? && Encodable(nfc, v)
    ensures Prescribed(nfc, v, Encoding(nfc, v))
    decreases v, 0
  {
    hide MapLayout, IsText, Pairs, Sort, SortEntries;
    var entries := v.entries;
    EntryErrors(nfc, entries);
    var es := SortEntries(nfc, entries);
    var ps := Pairs(nfc, es);
    MapBytes(nfc, entries);
    forall i | 0 <= i < |es| && es[i] in entries
      ensures IsText(nfc, es[i].key, KeysOf(ps)[i]) && Prescribed(nfc, es[i].value, ValuesOf(ps)[i])
    {
      EntriesAt(nfc, es, i);
      TextBytes(nfc, es[i].key);
      EncodingIsPrescribed(nfc, es[i].value);
    }
  }

  // ----- Errors -----

  /** The encoder, which meets values in order and checks a map's keys for duplicates last, stops on `v` with `e`. */
  ghost predicate StopsWith(nfc: Nfc, v: Value, e: CceError)
  {
    match v
    case Uint(u) => e == U64Overflow(u)
    case Str(s) => |nfc(s)| > 67_108_864 && e == StringTooLarge(|nfc(s)|)
    case Arr(items) =>
      exists i :: 0 <= i < |items| && StopsWith(nfc, items[i], e) && forall x | x in items[..i] :: Passes(nfc, x)
    case Obj(entries) =>
      || (exists i :: 0 <= i < |entries| && EntryStopsAt(nfc, entries, i, e))
      || ((forall x | x in entries :: |nfc(x.key)| <= 67_108_864 && Passes(nfc, x.value))
          && (exists i, j :: 0 <= i < j < |entries| && nfc(entries[i].key) == nfc(entries[j].key))
          && e == DuplicateKeys)
    case _ => false
  }

  ghost predicate EntryStopsAt(nfc: Nfc, entries: seq<Entry>, i: nat, e: CceError)
    requires i < |entries|
    decreases entries
  {
    && (forall x | x in entries[..i] :: |nfc(x.key)| <= 67_108_864 && Passes(nfc, x.value))
    && if |nfc(entries[i].key)| > 67_108_864 then e == StringTooLarge(|nfc(entries[i].key)|)
       else StopsWith(nfc, entries[i].value, e)
  }

  /** No u64 above the i64 range, no oversized string, no duplicate keys, at any depth. */
  ghost predicate Passes(nfc: Nfc, v: Value)
  {
    WithinLimits(nfc, v) && !HasDuplicatesWithin(nfc, v)
  }

  lemma {:induction false} PassesExactly(nfc: Nfc, v: Value)
    ensures Passes(nfc, v) <==> Encodable(nfc, v)
  {
    EncodableExactly(nfc, v);
  }

  lemma {:induction false} FirstErrorIsPrescribed(nfc: Nfc, v: Value)
    ensures match FirstError(nfc, v) case None => Passes(nfc, v) case Some(e) => StopsWith(nfc, v, e)
    decreases v
  {
    EncodableExactly(nfc, v);
    match v
    case Arr(items) => if FirstError(nfc, v).Some? { ItemStops(nfc, items); }
    case Obj(entries) => if FirstError(nfc, v).Some? { EntryStops(nfc, entries); }
    case _ =>
  }

  lemma {:induction false} ItemStops(nfc: Nfc, items: seq<Value>)
    requires FirstItemError(nfc, items).Some?
    ensures exists i :: 0 <= i < |items| && StopsWith(nfc, items[i], FirstItemError(nfc, items).value)
                        && forall x | x in items[..i] :: Passes(nfc, x)
    decreases items
  {
    hide Passes, StopsWith;
    FirstErrorIsPrescribed(nfc, items[0]);
    if FirstError(nfc, items[0]).Some? {
      assert items[..0] == [];
    } else {
      ItemStops(nfc, items[1..]);
      var e := FirstItemError(nfc, items).value;
      var i :| 0 <= i < |items[1..]| && StopsWith(nfc, items[1..][i], e)
               && forall x | x in items[1..][..i] :: Passes(nfc, x);
      assert items[..i + 1] == [items[0]] + items[1..][..i] && items[i + 1] == items[1..][i];
    }
  }

  lemma {:induction false} EntryStops(nfc: Nfc, entries: seq<Entry>)
    requires FirstError(nfc, Obj(entries)).Some?
    ensures StopsWith(nfc, Obj(entries), FirstError(nfc, Obj(entries)).value)
    decreases entries, 1
  {
    EntryErrors(nfc, entries);
    if FirstEntryError(nfc, entries).Some? {
      FirstEntryStops(nfc, entries);
    } else {
      forall x | x in entries ensures Passes(nfc, x.value) { EncodableExactly(nfc, x.value); }
    }
  }

  lemma {:induction false} FirstEntryStops(nfc: Nfc, entries: seq<Entry>)
    requires FirstEntryError(nfc, entries).Some?
    ensures exists i :: 0 <= i < |entries| && EntryStopsAt(nfc, entries, i, FirstEntryError(nfc, entries).value)
    decreases entries, 0
  {
    hide Passes, StopsWith;
    var e := FirstEntryError(nfc, entries).value;
    FirstErrorIsPrescribed(nfc, entries[0].value);
    if StringError(nfc, entries[0].key).Some? || FirstError(nfc, entries[0].value).Some? {
      assert entries[..0] == [] && EntryStopsAt(nfc, entries, 0, e);
    } else {
      FirstEntryStops(nfc, entries[1..]);
      var i :| 0 <= i < |entries[1..]| && EntryStopsAt(nfc, entries[1..], i, e);
      assert entries[..i + 1] == [entries[0]] + entries[1..][..i] && entries[i + 1] == entries[1..][i];
      assert EntryStopsAt(nfc, entries, i + 1, e);
    }
  }

  // ----- The preimage of an event id (section 4) -----

  datatype IdParts = IdParts(eventType: Bytes, typeVersion: Bytes, cause: Bytes, payload: Bytes)

  /** "fossic-cce-v1", a NUL, and the four parts. */
  predicate IdLayout(parts: IdParts, b: Bytes)
  {
    b == [0x66, 0x6F, 0x73, 0x73, 0x69, 0x63, 0x2D, 0x63, 0x63, 0x65, 0x2D, 0x76, 0x31, 0x00]
         + (parts.eventType + (parts.typeVersion + (parts.cause + parts.payload)))
  }

  predicate IsOptionalBytes(c: Option<Bytes>, b: Bytes)
  {
    match c
    case None => b == [0]
    case Some(x) => |b| >= 5 && b[0] == 5 && IsCount(b[1..5], |x|) && b[5..] == x
  }

  ghost predicate PrescribedPreimage(nfc: Nfc, eventType: Bytes, typeVersion: u32, cause: Option<Bytes>, payload: Value,
                                     b: Bytes)
  {
    exists parts ::
      && IdLayout(parts, b) && IsText(nfc, eventType, parts.eventType)
      && |parts.typeVersion| == 9 && parts.typeVersion[0] == 2 && IsWord(parts.typeVersion[1..], typeVersion)
      && IsOptionalBytes(cause, parts.cause) && Prescribed(nfc, payload, parts.payload)
  }

  lemma {:induction false} PreimageIsPrescribed(nfc: Nfc, eventType: Bytes, typeVersion: u32, cause: Option<Bytes>,
                                                payload: Value)
    requires StringError(nfc, eventType).None? && Encodable(nfc, payload)
    ensures PrescribedPreimage(nfc, eventType, typeVersion, cause, payload,
                               Preimage(nfc, eventType, typeVersion, cause, payload))
  {
    hide Prescribed, IsText, IsWord, IsCount, LengthBytes, LittleEndian;
    var parts := IdParts(EncodedString(nfc, eventType), EncodedInt(typeVersion), EncodedOptionalBytes(cause),
                         Encoding(nfc, payload));
    TextBytes(nfc, eventType);
    WordBytes(typeVersion);
    assert EncodedInt(typeVersion)[1..] == LittleEndian(typeVersion, 8);
    if cause.Some? {
      Header(TAG_BYTES, |cause.value|, cause.value);
    }
    EncodingIsPrescribed(nfc, payload);
    assert IdLayout(parts, Preimage(nfc, eventType, typeVersion, cause, payload));
  }
}

/**
 Canonical Content Encoding (src/cce.rs).

 `Encoding` is the byte string a value encodes to, `FirstError` the error that stops the encoder,
 `Canon` the canonical form that a value shares with all the values it may be confused with.  The
 imperative encoders append to a mutable buffer, as the source does, and are proved against these functions.

 Unicode normalisation is the parameter `nfc`, a function from UTF-8 bytes to UTF-8 bytes.
 */
module Cce {
  import opened Types
  import opened KeyedSort

  /** `serde_json::Value`; a number is an i64, else a u64 above the i64 range, else a float. */
  datatype Value =
    | Null
    | Bool(b: bool)
    | Int(i: i64)
    | Uint(u: u64)
    | Float(bits: u64)
    | Str(s: Bytes)
    | Arr(items: seq<Value>)
    | Obj(entries: seq<Entry>)

  datatype Entry = Entry(key: Bytes, value: Value)

  datatype CceError = U64Overflow(u: u64) | StringTooLarge(len: nat) | DuplicateKeys

  type Nfc = Bytes -> Bytes

  const TAG_NULL: byte := 0
  const TAG_BOOL: byte := 1
  const TAG_INT: byte := 2
  const TAG_FLOAT: byte := 3
  const TAG_STRING: byte := 4
  const TAG_BYTES: byte := 5
  const TAG_ARRAY: byte := 6
  const TAG_MAP: byte := 7

  const MAX_STRING_BYTES := 64 * 1024 * 1024

  /** The ASCII bytes of "fossic-cce-v1" and a NUL. */
  const CCE_PREFIX: Bytes := [102, 111, 115, 115, 105, 99, 45, 99, 99, 101, 45, 118, 49, 0]

  // ----- Fixed-width integers -----

  function Pow256(k: nat): nat
  {
    if k == 0 then 1 else 256 * Pow256(k - 1)
  }

  function LittleEndian(n: nat, k: nat): (r: Bytes)
    ensures |r| == k
  {
    if k == 0 then [] else [n % 256] + LittleEndian(n / 256, k - 1)
  }

  function FromLittleEndian(b: Bytes): nat
  {
    if b == [] then 0 else b[0] + 256 * FromLittleEndian(b[1..])
  }

  lemma {:induction false} LittleEndianRoundTrip(n: nat, k: nat)
    requires n < Pow256(k)
    ensures FromLittleEndian(LittleEndian(n, k)) == n
  {
    if k != 0 {
      LittleEndianRoundTrip(n / 256, k - 1);
      assert LittleEndian(n, k)[1..] == LittleEndian(n / 256, k - 1);
    }
  }

  lemma {:induction false} FromLittleEndianBound(b: Bytes)
    ensures FromLittleEndian(b) < Pow256(|b|)
  {
    if b != [] {
      FromLittleEndianBound(b[1..]);
    }
  }

  lemma {:induction false} PowersOf256()
    ensures Pow256(4) == TWO_32 && Pow256(8) == TWO_64
  {
    assert Pow256(1) == 256;
    assert Pow256(2) == 0x1_0000;
    assert Pow256(3) == 0x100_0000;
    assert Pow256(4) == TWO_32;
    assert Pow256(5) == 0x100_0000_0000;
    assert Pow256(6) == 0x1_0000_0000_0000;
    assert Pow256(7) == 0x100_0000_0000_0000;
  }

  /** A length written as `(len as u32).to_le_bytes()`: the cast truncates. */
  function LengthBytes(len: nat): (r: Bytes)
    ensures |r| == 4
  {
    LittleEndian(len % TWO_32, 4)
  }

  /** Two's complement. */
  function ToBits(i: i64): u64
  {
    if i < 0 then i + TWO_64 else i
  }

  function FromBits(u: u64): i64
  {
    if u >= TWO_63 then u - TWO_64 else u
  }

  // ----- Floats -----

  predicate IsNan(bits: u64)
  {
    bits % TWO_63 > 0x7FF0_0000_0000_0000
  }

  predicate IsZero(bits: u64)
  {
    bits % TWO_63 == 0
  }

  function CanonicalBits(bits: u64): u64
  {
    if IsNan(bits) then 0x7FF8_0000_0000_0000 else if IsZero(bits) then 0 else bits
  }

  // ----- The encoding as a function -----

  function EncodedString(nfc: Nfc, s: Bytes): Bytes
  {
    [TAG_STRING] + LengthBytes(|nfc(s)|) + nfc(s)
  }

  function EncodedInt(i: i64): Bytes
  {
    [TAG_INT] + LittleEndian(ToBits(i), 8)
  }

  function EncodedFloat(bits: u64): Bytes
  {
    [TAG_FLOAT] + LittleEndian(CanonicalBits(bits), 8)
  }

  function EncodedOptionalBytes(b: Option<Bytes>): Bytes
  {
    match b
    case None => [TAG_NULL]
    case Some(x) => [TAG_BYTES] + LengthBytes(|x|) + x
  }

  /** The bytes of `v`; only meaningful when `FirstError` is `None`. */
  function Encoding(nfc: Nfc, v: Value): Bytes
  {
    match v
    case Null => [TAG_NULL]
    case Bool(b) => [TAG_BOOL, if b then 1 else 0]
    case Int(i) => EncodedInt(i)
    case Uint(_) => []
    case Float(bits) => EncodedFloat(bits)
    case Str(s) => EncodedString(nfc, s)
    case Arr(items) => [TAG_ARRAY] + LengthBytes(|items|) + EncodingOfItems(nfc, items)
    case Obj(entries) => [TAG_MAP] + LengthBytes(|entries|) + Flat(Sort(Pairs(nfc, entries)))
  }

  function EncodingOfItems(nfc: Nfc, items: seq<Value>): Bytes
  {
    if items == [] then [] else Encoding(nfc, items[0]) + EncodingOfItems(nfc, items[1..])
  }

  function Pairs(nfc: Nfc, entries: seq<Entry>): (r: seq<Keyed<Bytes>>)
    ensures |r| == |entries|
  {
    if entries == [] then []
    else [Keyed(EncodedString(nfc, entries[0].key), Encoding(nfc, entries[0].value))] + Pairs(nfc, entries[1..])
  }

  function Flat(ps: seq<Keyed<Bytes>>): Bytes
  {
    if ps == [] then [] else ps[0].key + ps[0].value + Flat(ps[1..])
  }

  predicate SameKey(nfc: Nfc, a: Entry, b: Entry)
  {
    nfc(a.key) == nfc(b.key)
  }

  predicate HasDuplicateKeys(nfc: Nfc, entries: seq<Entry>)
  {
    exists i, j :: 0 <= i < j < |entries| && SameKey(nfc, entries[i], entries[j])
  }

  function StringError(nfc: Nfc, s: Bytes): Option<CceError>
  {
    if |nfc(s)| > MAX_STRING_BYTES then Some(StringTooLarge(|nfc(s)|)) else None
  }

  /** The error that stops the encoder on `v`, in the order the encoder meets them. */
  function FirstError(nfc: Nfc, v: Value): Option<CceError>
  {
    match v
    case Uint(u) => Some(U64Overflow(u))
    case Str(s) => StringError(nfc, s)
    case Arr(items) => FirstItemError(nfc, items)
    case Obj(entries) =>
      var e := FirstEntryError(nfc, entries);
      if e.Some? then e
      else if HasDuplicateKeys(nfc, entries) then Some(DuplicateKeys)
      else None
    case _ => None
  }

  function FirstItemError(nfc: Nfc, items: seq<Value>): Option<CceError>
  {
    if items == [] then None
    else
      var e := FirstError(nfc, items[0]);
      if e.Some? then e else FirstItemError(nfc, items[1..])
  }

  function FirstEntryError(nfc: Nfc, entries: seq<Entry>): Option<CceError>
  {
    if entries == [] then None
    else
      var k := StringError(nfc, entries[0].key);
      if k.Some? then k
      else
        var e := FirstError(nfc, entries[0].value);
        if e.Some? then e else FirstEntryError(nfc, entries[1..])
  }

  predicate Encodable(nfc: Nfc, v: Value)
  {
    FirstError(nfc, v).None?
  }

  /** Every array and map, at every depth, has a length that fits the 32-bit count. */
  predicate Small(v: Value)
  {
    match v
    case Arr(items) => |items| < TWO_32 && forall x | x in items :: Small(x)
    case Obj(entries) => |entries| < TWO_32 && forall e | e in entries :: Small(e.value)
    case _ => true
  }

  // ----- Canonical form -----

  /** NFC strings, canonical floats, map entries in the order of their encoded keys. */
  function Canon(nfc: Nfc, v: Value): Value
  {
    match v
    case Float(bits) => Float(CanonicalBits(bits))
    case Str(s) => Str(nfc(s))
    case Arr(items) => Arr(CanonItems(nfc, items))
    case Obj(entries) => Obj(Seconds(Sort(CanonEntries(nfc, entries))))
    case _ => v
  }

  function CanonItems(nfc: Nfc, items: seq<Value>): (r: seq<Value>)
    ensures |r| == |items|
  {
    if items == [] then [] else [Canon(nfc, items[0])] + CanonItems(nfc, items[1..])
  }

  /** Canonical entries, each tagged with its encoded key. */
  function CanonEntries(nfc: Nfc, entries: seq<Entry>): (r: seq<Keyed<Entry>>)
    ensures |r| == |entries|
  {
    if entries == [] then []
    else [Keyed(EncodedString(nfc, entries[0].key), Entry(nfc(entries[0].key), Canon(nfc, entries[0].value)))]
         + CanonEntries(nfc, entries[1..])
  }

  function Seconds(ps: seq<Keyed<Entry>>): (r: seq<Entry>)
    ensures |r| == |ps|
    ensures forall i | 0 <= i < |ps| :: r[i] == ps[i].value
  {
    if ps == [] then [] else [ps[0].value] + Seconds(ps[1..])
  }

  /** The entries in the order of their encoded keys, by insertion sort. */
  function SortEntries(nfc: Nfc, entries: seq<Entry>): (r: seq<Entry>)
    ensures |r| == |entries|
  {
    if entries == [] then [] else InsertEntry(nfc, entries[0], SortEntries(nfc, entries[1..]))
  }

  function InsertEntry(nfc: Nfc, e: Entry, es: seq<Entry>): (r: seq<Entry>)
    ensures |r| == |es| + 1
  {
    if es == [] || !LexLess(EncodedString(nfc, es[0].key), EncodedString(nfc, e.key)) then [e] + es
    else [es[0]] + InsertEntry(nfc, e, es[1..])
  }

  /** Sorting the encoded pairs or the canonical entries is sorting the entries. */
  lemma {:induction false} SortEntriesFacts(nfc: Nfc, entries: seq<Entry>)
    ensures Sort(Pairs(nfc, entries)) == Pairs(nfc, SortEntries(nfc, entries))
    ensures Sort(CanonEntries(nfc, entries)) == CanonEntries(nfc, SortEntries(nfc, entries))
    ensures forall e :: e in SortEntries(nfc, entries) <==> e in entries
  {
    if entries != [] {
      var e, es := entries[0], SortEntries(nfc, entries[1..]);
      SortEntriesFacts(nfc, entries[1..]);
      InsertEntryFacts(nfc, e, es);
      assert forall x :: x in entries <==> x == e || x in entries[1..];
    }
  }

  lemma {:induction false} InsertEntryFacts(nfc: Nfc, e: Entry, es: seq<Entry>)
    ensures Insert(Keyed(EncodedString(nfc, e.key), Encoding(nfc, e.value)), Pairs(nfc, es))
         == Pairs(nfc, InsertEntry(nfc, e, es))
    ensures Insert(Keyed(EncodedString(nfc, e.key), Entry(nfc(e.key), Canon(nfc, e.value))), CanonEntries(nfc, es))
         == CanonEntries(nfc, InsertEntry(nfc, e, es))
    ensures forall x :: x in InsertEntry(nfc, e, es) <==> x == e || x in es
  {
    if es != [] {
      InsertEntryFacts(nfc, e, es[1..]);
      assert forall x :: x in es <==> x == es[0] || x in es[1..];
    }
  }

  lemma {:induction false} EntriesAt(nfc: Nfc, entries: seq<Entry>, i: nat)
    requires i < |entries|
    ensures Pairs(nfc, entries)[i] == Keyed(EncodedString(nfc, entries[i].key), Encoding(nfc, entries[i].value))
    ensures CanonEntries(nfc, entries)[i] ==
            Keyed(EncodedString(nfc, entries[i].key), Entry(nfc(entries[i].key), Canon(nfc, entries[i].value)))
  {
    if i > 0 {
      EntriesAt(nfc, entries[1..], i - 1);
    }
  }

  lemma {:induction false} ItemsAt(nfc: Nfc, items: seq<Value>, i: nat)
    requires i < |items|
    ensures CanonItems(nfc, items)[i] == Canon(nfc, items[i])
  {
    if i > 0 {
      ItemsAt(nfc, items[1..], i - 1);
    }
  }

  lemma {:induction false} ItemErrors(nfc: Nfc, items: seq<Value>)
    ensures FirstItemError(nfc, items).None? <==> forall x | x in items :: Encodable(nfc, x)
  {
    if items != [] {
      ItemErrors(nfc, items[1..]);
      assert items[0] in items;
      assert forall x :: x in items <==> x == items[0] || x in items[1..];
    }
  }

  lemma {:induction false} EntryErrors(nfc: Nfc, entries: seq<Entry>)
    ensures FirstEntryError(nfc, entries).None?
       <==> forall e | e in entries :: StringError(nfc, e.key).None? && Encodable(nfc, e.value)
  {
    if entries != [] {
      EntryErrors(nfc, entries[1..]);
      assert entries == [entries[0]] + entries[1..];
    }
  }

  lemma {:induction false} Regroup(a: Bytes, b: Bytes, c: Bytes, d: Bytes)
    ensures a + b + c + d == a + (b + (c + d))
  {
  }

  lemma {:induction false} ConcatStep(whole: Bytes, head: Bytes, tail: Bytes, x: Bytes, y: Bytes)
    requires whole == head + (tail + y) && x == head + tail
    ensures whole == x + y
  {
  }
}

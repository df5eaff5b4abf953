/** A decoder for CCE (src/cce.rs), and what it shows: encodings are prefix-free and determine the canonical form. */
module CceDecoder {
  import opened Types
  import opened KeyedSort
  import opened Cce

  // ----- The decoder -----

  /** Reads a four-byte count. */
  function DecodeLength(b: Bytes): (r: Option<(nat, Bytes)>)
    ensures r.Some? ==> |r.value.1| < |b|
  {
    if |b| < 4 then None else Some((FromLittleEndian(b[..4]), b[4..]))
  }

  /** Reads a tag, a count and that many bytes. */
  function DecodeBlob(tag: byte, b: Bytes): (r: Option<(Bytes, Bytes)>)
    ensures r.Some? ==> |r.value.1| < |b|
  {
    if b == [] || b[0] != tag then None
    else match DecodeLength(b[1..])
      case None => None
      case Some((n, rest)) => if |rest| < n then None else Some((rest[..n], rest[n..]))
  }

  function DecodeWord(b: Bytes): (r: Option<(u64, Bytes)>)
    ensures r.Some? ==> |r.value.1| < |b|
  {
    if |b| < 8 then None
    else
      FromLittleEndianBound(b[..8]);
      PowersOf256();
      Some((FromLittleEndian(b[..8]), b[8..]))
  }

  function DecodeScalar(b: Bytes): (r: Option<(Value, Bytes)>)
    requires b != []
    ensures r.Some? ==> |r.value.1| < |b|
  {
    if b[0] == TAG_NULL then Some((Null, b[1..]))
    else if b[0] == TAG_BOOL then if |b| < 2 then None else Some((Bool(b[1] == 1), b[2..]))
    else if b[0] == TAG_INT then
      match DecodeWord(b[1..])
      case None => None
      case Some((w, rest)) => Some((Int(FromBits(w)), rest))
    else if b[0] == TAG_FLOAT then
      match DecodeWord(b[1..])
      case None => None
      case Some((w, rest)) => Some((Float(w), rest))
    else
      match DecodeBlob(TAG_STRING, b)
      case None => None
      case Some((s, rest)) => Some((Str(s), rest))
  }

  function Decode(b: Bytes): (r: Option<(Value, Bytes)>)
    ensures r.Some? ==> |r.value.1| < |b|
    decreases |b|, 0
  {
    if b == [] then None
    else if b[0] == TAG_ARRAY then
      match DecodeLength(b[1..])
      case None => None
      case Some((n, rest)) =>
        match DecodeItems(rest, n)
        case None => None
        case Some((items, rest')) => Some((Arr(items), rest'))
    else if b[0] == TAG_MAP then
      match DecodeLength(b[1..])
      case None => None
      case Some((n, rest)) =>
        match DecodeEntries(rest, n)
        case None => None
        case Some((entries, rest')) => Some((Obj(entries), rest'))
    else DecodeScalar(b)
  }

  function DecodeItems(b: Bytes, n: nat): (r: Option<(seq<Value>, Bytes)>)
    ensures r.Some? ==> |r.value.1| <= |b|
    decreases |b|, n
  {
    if n == 0 then Some(([], b))
    else match Decode(b)
      case None => None
      case Some((v, rest)) =>
        match DecodeItems(rest, n - 1)
        case None => None
        case Some((items, rest')) => Some(([v] + items, rest'))
  }

  function DecodeEntries(b: Bytes, n: nat): (r: Option<(seq<Entry>, Bytes)>)
    ensures r.Some? ==> |r.value.1| <= |b|
    decreases |b|, n
  {
    if n == 0 then Some(([], b))
    else match DecodeBlob(TAG_STRING, b)
      case None => None
      case Some((k, rest)) =>
        match Decode(rest)
        case None => None
        case Some((v, rest')) =>
          match DecodeEntries(rest', n - 1)
          case None => None
          case Some((entries, rest'')) => Some(([Entry(k, v)] + entries, rest''))
  }

  lemma {:induction false} DecodeLengthBytes(n: nat, rest: Bytes)
    requires n < TWO_32
    ensures DecodeLength(LengthBytes(n) + rest) == Some((n, rest))
  {
    var b := LengthBytes(n);
    PowersOf256();
    LittleEndianRoundTrip(n, 4);
    assert (b + rest)[..4] == b && (b + rest)[4..] == rest;
  }

  lemma {:induction false} DecodeWordBytes(w: u64, rest: Bytes)
    ensures DecodeWord(LittleEndian(w, 8) + rest) == Some((w, rest))
  {
    var b := LittleEndian(w, 8);
    PowersOf256();
    LittleEndianRoundTrip(w, 8);
    assert (b + rest)[..8] == b && (b + rest)[8..] == rest;
  }

  lemma {:induction false} DecodeBlobBytes(tag: byte, x: Bytes, rest: Bytes)
    requires |x| < TWO_32
    ensures DecodeBlob(tag, [tag] + LengthBytes(|x|) + x + rest) == Some((x, rest))
  {
    var b := [tag] + LengthBytes(|x|) + x + rest;
    assert b[1..] == LengthBytes(|x|) + (x + rest);
    DecodeLengthBytes(|x|, x + rest);
    assert (x + rest)[..|x|] == x && (x + rest)[|x|..] == rest;
  }

  lemma {:induction false} DecodeHeader(tag: byte, n: nat, body: Bytes, rest: Bytes)
    requires n < TWO_32
    ensures var b := [tag] + LengthBytes(n) + body + rest;
            b[0] == tag && DecodeLength(b[1..]) == Some((n, body + rest))
  {
    var b := [tag] + LengthBytes(n) + body + rest;
    assert b[1..] == LengthBytes(n) + (body + rest);
    DecodeLengthBytes(n, body + rest);
  }

  // ----- Decoding undoes encoding -----

  /** Decoding an encoding gives the canonical form back and leaves what follows it. */
  lemma {:induction false} DecodeEncoding(nfc: Nfc, v: Value, rest: Bytes)
    requires Encodable(nfc, v) && Small(v)
    ensures Decode(Encoding(nfc, v) + rest) == Some((Canon(nfc, v), rest))
    decreases v, 2
  {
    var b := Encoding(nfc, v) + rest;
    match v
    case Null => assert b[1..] == rest;
    case Bool(_) => assert b[2..] == rest;
    case Int(i) =>
      assert b[1..] == LittleEndian(ToBits(i), 8) + rest;
      DecodeWordBytes(ToBits(i), rest);
    case Uint(_) =>
    case Float(bits) =>
      assert b[1..] == LittleEndian(CanonicalBits(bits), 8) + rest;
      DecodeWordBytes(CanonicalBits(bits), rest);
    case Str(s) => DecodeBlobBytes(TAG_STRING, nfc(s), rest);
    case Arr(items) =>
      var body := EncodingOfItems(nfc, items);
      ItemErrors(nfc, items);
      DecodeEncodedItems(nfc, items, rest);
      DecodeHeader(TAG_ARRAY, |items|, body, rest);
      DecodeArrayStep(b, |items|, body + rest, CanonItems(nfc, items), rest);
    case Obj(entries) =>
      DecodeEncodedMap(nfc, v, rest);
  }

  lemma {:induction false} DecodeEncodedItems(nfc: Nfc, items: seq<Value>, rest: Bytes)
    requires forall x | x in items :: Encodable(nfc, x) && Small(x)
    ensures DecodeItems(EncodingOfItems(nfc, items) + rest, |items|) == Some((CanonItems(nfc, items), rest))
    decreases items
  {
    if items == [] {
      assert EncodingOfItems(nfc, items) + rest == rest;
    } else {
      var tail := EncodingOfItems(nfc, items[1..]) + rest;
      assert EncodingOfItems(nfc, items) + rest == Encoding(nfc, items[0]) + tail;
      DecodeEncoding(nfc, items[0], tail);
      DecodeEncodedItems(nfc, items[1..], rest);
    }
  }

  lemma {:induction false} DecodeEncodedMap(nfc: Nfc, v: Value, rest: Bytes)
    requires v.Obj? && Encodable(nfc, v) && Small(v)
    ensures Decode(Encoding(nfc, v) + rest) == Some((Canon(nfc, v), rest))
    decreases v, 1, |v.entries| + 1
  {
    var es := SortEntries(nfc, v.entries);
    EntryErrors(nfc, v.entries);
    SortEntriesFacts(nfc, v.entries);
    DecodeEncodedEntries(nfc, v, es, rest);
    var flat := Flat(Pairs(nfc, es));
    DecodeHeader(TAG_MAP, |es|, flat, rest);
    DecodeMapStep([TAG_MAP] + LengthBytes(|es|) + flat + rest, |es|, flat + rest, Seconds(CanonEntries(nfc, es)), rest);
  }

  lemma {:induction false} DecodeArrayStep(b: Bytes, n: nat, mid: Bytes, items: seq<Value>, rest: Bytes)
    requires b != [] && b[0] == TAG_ARRAY && DecodeLength(b[1..]) == Some((n, mid))
    requires DecodeItems(mid, n) == Some((items, rest))
    ensures Decode(b) == Some((Arr(items), rest))
  {
  }

  lemma {:induction false} DecodeMapStep(b: Bytes, n: nat, mid: Bytes, cs: seq<Entry>, rest: Bytes)
    requires b != [] && b[0] == TAG_MAP && DecodeLength(b[1..]) == Some((n, mid))
    requires DecodeEntries(mid, n) == Some((cs, rest))
    ensures Decode(b) == Some((Obj(cs), rest))
  {
  }

  lemma {:induction false} DecodeEntriesStep(b: Bytes, afterKey: Bytes, tail: Bytes, n: nat, cs: seq<Entry>,
                                             rest: Bytes)
    requires cs != []
    requires DecodeBlob(TAG_STRING, b) == Some((cs[0].key, afterKey))
    requires Decode(afterKey) == Some((cs[0].value, tail))
    requires DecodeEntries(tail, n) == Some((cs[1..], rest))
    ensures DecodeEntries(b, n + 1) == Some((cs, rest))
  {
    hide DecodeBlob, Decode;
    assert cs == [Entry(cs[0].key, cs[0].value)] + cs[1..];
  }

  /** What the first entry contributes to the encoding and to the canonical entries. */
  lemma {:induction false} EncodedEntriesStep(nfc: Nfc, es: seq<Entry>, rest: Bytes)
    requires es != []
    ensures Flat(Pairs(nfc, es)) + rest
         == EncodedString(nfc, es[0].key) + (Encoding(nfc, es[0].value) + (Flat(Pairs(nfc, es[1..])) + rest))
    ensures var cs := Seconds(CanonEntries(nfc, es));
            && cs != [] && cs[0] == Entry(nfc(es[0].key), Canon(nfc, es[0].value))
            && cs[1..] == Seconds(CanonEntries(nfc, es[1..]))
  {
    var k, v, t := EncodedString(nfc, es[0].key), Encoding(nfc, es[0].value), Flat(Pairs(nfc, es[1..]));
    assert Pairs(nfc, es)[1..] == Pairs(nfc, es[1..]);
    assert CanonEntries(nfc, es)[1..] == CanonEntries(nfc, es[1..]);
    assert Flat(Pairs(nfc, es)) == k + v + t;
    Regroup(k, v, t, rest);
  }

  lemma {:induction false} DecodeEncodedEntries(nfc: Nfc, v: Value, es: seq<Entry>, rest: Bytes)
    requires v.Obj?
    requires forall e | e in es ::
               e in v.entries && StringError(nfc, e.key).None? && Encodable(nfc, e.value) && Small(e.value)
    ensures DecodeEntries(Flat(Pairs(nfc, es)) + rest, |es|) == Some((Seconds(CanonEntries(nfc, es)), rest))
    decreases v, 1, |es|
  {
    if es == [] {
      assert Flat(Pairs(nfc, es)) + rest == rest;
    } else {
      var tail := Flat(Pairs(nfc, es[1..])) + rest;
      DecodeEncodedEntries(nfc, v, es[1..], rest);
      DecodeEncodedEntry(nfc, v, es[0], tail);
      EncodedEntriesStep(nfc, es, rest);
      DecodeEntriesStep(Flat(Pairs(nfc, es)) + rest, Encoding(nfc, es[0].value) + tail, tail, |es| - 1,
                        Seconds(CanonEntries(nfc, es)), rest);
    }
  }

  lemma {:induction false} DecodeEncodedEntry(nfc: Nfc, v: Value, e: Entry, tail: Bytes)
    requires v.Obj? && e in v.entries
    requires StringError(nfc, e.key).None? && Encodable(nfc, e.value) && Small(e.value)
    ensures var afterKey := Encoding(nfc, e.value) + tail;
            && DecodeBlob(TAG_STRING, EncodedString(nfc, e.key) + afterKey) == Some((nfc(e.key), afterKey))
            && Decode(afterKey) == Some((Canon(nfc, e.value), tail))
    decreases v, 0
  {
    DecodeBlobBytes(TAG_STRING, nfc(e.key), Encoding(nfc, e.value) + tail);
    DecodeEncoding(nfc, e.value, tail);
  }

  /** Prefix-free, and injective up to canonical form. */
  lemma {:induction false} EncodingPrefixFree(nfc: Nfc, a: Value, x: Bytes, b: Value, y: Bytes)
    requires Encodable(nfc, a) && Small(a) && Encodable(nfc, b) && Small(b)
    requires Encoding(nfc, a) + x == Encoding(nfc, b) + y
    ensures Canon(nfc, a) == Canon(nfc, b) && x == y
  {
    DecodeEncoding(nfc, a, x);
    DecodeEncoding(nfc, b, y);
  }
}

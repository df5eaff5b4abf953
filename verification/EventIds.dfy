/**
 The free ids of `Appends` stand for the hashed ids of src/cce.rs: as long as distinct preimages do not collide, they
 are equal exactly when the bytes that are hashed are.
 */
module EventIds {
  import opened Types
  import opened Cce
  import opened CceCanon
  import opened Appends

  /** The 32 bytes of an id, different for different ids. */
  ghost predicate IsDigest(digest: EventId -> Bytes)
  {
    (forall id :: |digest(id)| == 32) && forall a, b :: digest(a) == digest(b) ==> a == b
  }

  function Digested(digest: EventId -> Bytes, cause: Option<EventId>): Option<Bytes>
  {
    match cause case None => None case Some(id) => Some(digest(id))
  }

  lemma {:induction false} IdsAgreeWithPreimages(nfc: Nfc, digest: EventId -> Bytes,
                                                 t: Bytes, m: u32, c: Option<EventId>, a: Value,
                                                 u: Bytes, n: u32, d: Option<EventId>, b: Value)
    requires IsDigest(digest) && Small(a) && Small(b)
    requires DeriveId(nfc, t, m, c, a).Ok? && DeriveId(nfc, u, n, d, b).Ok?
    ensures DeriveId(nfc, t, m, c, a) == DeriveId(nfc, u, n, d, b)
       <==> Preimage(nfc, t, m, Digested(digest, c), a) == Preimage(nfc, u, n, Digested(digest, d), b)
  {
    hide Preimage;
    IdsEqualExactly(nfc, t, m, c, a, u, n, d, b);
    PreimagesEqualExactly(nfc, t, m, Digested(digest, c), a, u, n, Digested(digest, d), b);
  }
}

/** Filter identifiers (chain/events/filter/store.go, FilterID and newFilterID).
    A FilterID is 32 bytes, the size of a hash in the host system; a fresh one
    carries the 16 bytes of a random UUID in front and zeros behind. The random
    source is not part of this model: the UUID bytes are a parameter. */
module FilterIds {

  newtype Byte = b: int | 0 <= b < 256

  const IdLength := 32
  const UuidLength := 16

  type Uuid = s: seq<Byte> | |s| == UuidLength witness seq(UuidLength, _ => 0)

  type FilterID = s: seq<Byte> | |s| == IdLength witness seq(IdLength, _ => 0)

  /** The identifier a UUID yields: a zeroed 32-byte buffer into which as many
      bytes of the UUID are copied as fit (Go's `copy` takes the shorter length). */
  function NewFilterID(uuid: Uuid): (id: FilterID)
    ensures id[..UuidLength] == uuid
    ensures forall i :: UuidLength <= i < IdLength ==> id[i] == 0
  {
    seq(IdLength, i requires 0 <= i < IdLength =>
      if i < UuidLength then uuid[i] else 0)
  }

  /** The shape every generated identifier has: its last 16 bytes are zero. */
  predicate IsGenerated(id: FilterID) {
    forall i :: UuidLength <= i < IdLength ==> id[i] == 0
  }

  /** The UUID an identifier was built from. */
  function UuidOf(id: FilterID): Uuid {
    id[..UuidLength]
  }

  /** UuidOf undoes NewFilterID. */
  lemma UuidOfNewFilterID(uuid: Uuid)
    ensures IsGenerated(NewFilterID(uuid))
    ensures UuidOf(NewFilterID(uuid)) == uuid
  {
  }

  /** Every identifier of the generated shape is NewFilterID of its own UUID,
      so generated identifiers and UUIDs are in one-to-one correspondence. */
  lemma NewFilterIDOfUuid(id: FilterID)
    requires IsGenerated(id)
    ensures NewFilterID(UuidOf(id)) == id
  {
    var back := NewFilterID(UuidOf(id));
    forall i | 0 <= i < IdLength
      ensures back[i] == id[i]
    {
      if i < UuidLength {
        assert back[i] == back[..UuidLength][i];
      }
    }
  }

  /** Distinct UUIDs give distinct identifiers: two filters collide only if
      their UUIDs do. */
  lemma NewFilterIDInjective(a: Uuid, b: Uuid)
    requires a != b
    ensures NewFilterID(a) != NewFilterID(b)
  {
    UuidOfNewFilterID(a);
    UuidOfNewFilterID(b);
  }
}

/** Identity-based equality shared by the three aggregates. An aggregate is
    identified by its class and by the string value of its id record (a
    BookId, a BorrowerId or an Isbn, each a one-string record compared by
    value). */
module AggregateIdentity {
  import opened Wrappers

  datatype AggregateKind = BookKind | BorrowerKind | CatalogEntryKind

  datatype Identity = Identity(kind: AggregateKind, id: string)

  /** equals: the other object is non-null, of the same class and has an
      equal id; no other state takes part. The same-reference shortcut is
      covered, since an object has its own class and id. */
  predicate Equals(self: Identity, other: Option<Identity>) {
    other.Some? && other.value.kind == self.kind && other.value.id == self.id
  }

  /** Integers of a Java `int`: arithmetic modulo 2^32, read as signed. */
  function Wrap32(x: int): (r: int)
    ensures -0x8000_0000 <= r < 0x8000_0000
    ensures (r - x) % 0x1_0000_0000 == 0
  {
    var m := x % 0x1_0000_0000;
    if m < 0x8000_0000 then m else m - 0x1_0000_0000
  }

  /** String.hashCode: s[0]*31^(n-1) + ... + s[n-1], in 32-bit arithmetic,
      computed as the left fold h := 31*h + c. */
  function StringHash(s: string): (h: int)
    ensures -0x8000_0000 <= h < 0x8000_0000
  {
    if s == [] then 0 else Wrap32(31 * StringHash(s[..|s| - 1]) + s[|s| - 1] as int)
  }

  /** hashCode: Objects.hash(id) = 31 * 1 + id.hashCode(), where the hash of a
      one-string record is the hash of its string, as OpenJDK computes it. */
  function HashCode(self: Identity): (h: int)
    ensures -0x8000_0000 <= h < 0x8000_0000
  {
    Wrap32(31 + StringHash(self.id))
  }

  // ---------------------------------------------------------------------------
  // Properties
  // ---------------------------------------------------------------------------

  /** Equality is reflexive, and null is never equal. */
  lemma EqualsReflexive(a: Identity)
    ensures Equals(a, Some(a))
    ensures !Equals(a, None)
  {
  }

  /** Equality is symmetric and transitive. */
  lemma EqualsIsEquivalence(a: Identity, b: Identity, c: Identity)
    ensures Equals(a, Some(b)) <==> Equals(b, Some(a))
    ensures Equals(a, Some(b)) && Equals(b, Some(c)) ==> Equals(a, Some(c))
  {
  }

  /** Aggregates of different classes are never equal, even with equal ids. */
  lemma DifferentKindsNeverEqual(a: Identity, b: Identity)
    requires a.kind != b.kind
    ensures !Equals(a, Some(b))
  {
  }

  /** Equal aggregates have equal hash codes. */
  lemma EqualsImpliesSameHash(a: Identity, b: Identity)
    requires Equals(a, Some(b))
    ensures HashCode(a) == HashCode(b)
  {
  }

  /** The 32-bit hash of the empty id is 31, and of "a" is 31 + 97. */
  lemma HashCodeExamples()
    ensures HashCode(Identity(BookKind, "")) == 31
    ensures HashCode(Identity(BookKind, "a")) == 128
  {
    assert "a"[..0] == [];
  }
}

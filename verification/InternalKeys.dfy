/** Internal keys of the storage engine: a user key, a sequence number and a value type,
    ordered by user key ascending, then by the packed tag (sequence and type) descending.

    The engine never looks inside a user key except through the user comparator, so a user key is
    modelled by its rank, a real number: every total order on countably many byte strings embeds
    in the reals.  Module KeyBytes proves this for the bytewise comparator. */
module InternalKeys {
  type UserKey = real

  type Byte = b: int | 0 <= b < 256
  type Bytes = seq<Byte>

  const MAX_SEQUENCE := 0x1_00_0000_0000_0000 - 1

  type SequenceNumber = s: int | 0 <= s <= MAX_SEQUENCE

  datatype ValueType = Deletion | Value

  datatype IKey = IKey(user: UserKey, sequence: SequenceNumber, kind: ValueType)

  datatype Entry = Entry(key: IKey, value: Bytes)

  datatype Option<T> = None | Some(value: T)

  function Tag(k: IKey): int {
    k.sequence * 256 + if k.kind == Value then 1 else 0
  }

  /** The internal key order. */
  predicate Less(a: IKey, b: IKey) {
    a.user < b.user || (a.user == b.user && Tag(a) > Tag(b))
  }

  /** The key a lookup at snapshot s seeks to: the first possible key of `user` visible at s. */
  function LookupKey(user: UserKey, s: SequenceNumber): IKey {
    IKey(user, s, Value)
  }

  ghost predicate Sorted(es: seq<Entry>) {
    forall i, j :: 0 <= i < j < |es| ==> Less(es[i].key, es[j].key)
  }

  /** Position r splits es into the entries below t and the entries at or above t. */
  ghost predicate IsLowerBound(es: seq<Entry>, t: IKey, r: nat) {
    && r <= |es|
    && (forall j :: 0 <= j < r ==> Less(es[j].key, t))
    && (forall j :: r <= j < |es| ==> !Less(es[j].key, t))
  }

  /** The lower bound exists for every target. */
  ghost function LowerBoundOf(es: seq<Entry>, t: IKey): (r: nat)
    requires Sorted(es)
    ensures IsLowerBound(es, t, r)
  {
    if es == [] || !Less(es[0].key, t) then 0 else 1 + LowerBoundOf(es[1..], t)
  }

  /** A lookup key lies at or before exactly the entries of later users and the entries of its own
      user that are visible at its snapshot. */
  lemma LookupKeySplits(user: UserKey, s: SequenceNumber, k: IKey)
    ensures Less(k, LookupKey(user, s)) <==> k.user < user || (k.user == user && k.sequence > s)
  {
  }
}

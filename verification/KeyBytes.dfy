/** Keys as bytes: the bytewise order, internal keys with their packed tags, and the short keys that
    separate blocks.  Byte strings embed in the reals in order, which is why the rest of the model may
    take the rank of a key for the key. */
module KeyBytes {
  import opened InternalKeys
  import opened Coding

  // ----- User keys -----

  predicate BytesLess(a: Bytes, b: Bytes) {
    b != [] && (a == [] || a[0] < b[0] || (a[0] == b[0] && BytesLess(a[1..], b[1..])))
  }

  /** The place of a string, read as digits after the point in base 257, and of a tail after it. */
  function Place(a: Bytes, tail: real): (r: real)
    requires 0.0 <= tail < 1.0 / 257.0
    ensures 0.0 <= r < 1.0 && (a != [] ==> r >= 1.0 / 257.0)
  {
    if a == [] then tail
    else
      var digit: int := a[0];
      ((digit + 1) as real + Place(a[1..], tail)) / 257.0
  }

  lemma {:induction false} PlaceOrders(a: Bytes, s: real, b: Bytes, t: real)
    requires 0.0 <= s < 1.0 / 257.0 && 0.0 <= t < 1.0 / 257.0
    ensures Place(a, s) < Place(b, t) <==> BytesLess(a, b) || (a == b && s < t)
    decreases |a|
  {
    if a != [] && b != [] {
      PlaceOrders(a[1..], s, b[1..], t);
      assert a == b <==> a[0] == b[0] && a[1..] == b[1..];
      var x: int, y: int := a[0], b[0];
      if x < y {
        assert (x + 1) as real + 1.0 <= (y + 1) as real;
      } else if y < x {
        assert (y + 1) as real + 1.0 <= (x + 1) as real;
      }
    }
  }

  function Rank(a: Bytes): real {
    Place(a, 0.0)
  }

  /** The rank of a byte string tells its place in the bytewise order, and the string. */
  lemma {:induction false} RankOrders(a: Bytes, b: Bytes)
    ensures Rank(a) < Rank(b) <==> BytesLess(a, b)
    ensures Rank(a) == Rank(b) <==> a == b
  {
    PlaceOrders(a, 0.0, b, 0.0);
    PlaceOrders(b, 0.0, a, 0.0);
    LessOrMore(a, b);
  }

  lemma {:induction false} LessOrMore(a: Bytes, b: Bytes)
    ensures a == b || BytesLess(a, b) || BytesLess(b, a)
    ensures !(BytesLess(a, b) && BytesLess(b, a)) && (a == b ==> !BytesLess(a, b))
    decreases |a|
  {
    if a != [] && b != [] {
      LessOrMore(a[1..], b[1..]);
      assert a[0] == b[0] && a[1..] == b[1..] ==> a == b;
    }
  }

  lemma {:induction false} LessSame(p: Bytes, a: Bytes, b: Bytes)
    ensures BytesLess(p + a, p + b) <==> BytesLess(a, b)
  {
    if p == [] {
      assert p + a == a && p + b == b;
    } else {
      assert (p + a)[1..] == p[1..] + a && (p + b)[1..] == p[1..] + b;
      LessSame(p[1..], a, b);
    }
  }

  /** Where two strings first differ decides. */
  lemma LessAt(a: Bytes, b: Bytes, n: nat)
    requires n <= |a| && n <= |b| && a[..n] == b[..n]
    ensures BytesLess(a, b) <==> BytesLess(a[n..], b[n..])
  {
    assert a == a[..n] + a[n..] && b == a[..n] + b[n..];
    LessSame(a[..n], a[n..], b[n..]);
  }

  /** Compare two slices: a negative number, zero or a positive number. */
  method Compare(a: Bytes, b: Bytes) returns (r: int)
    ensures r < 0 <==> BytesLess(a, b)
    ensures r == 0 <==> a == b
    ensures r > 0 <==> BytesLess(b, a)
  {
    var minLen := if |a| < |b| then |a| else |b|;
    var i := 0;
    while i < minLen && a[i] == b[i]
      invariant i <= minLen && a[..i] == b[..i]
    {
      assert a[..i + 1] == a[..i] + [a[i]] && b[..i + 1] == b[..i] + [b[i]];
      i := i + 1;
    }
    LessAt(a, b, i);
    LessAt(b, a, i);
    LessOrMore(a, b);
    if i < minLen {
      r := if a[i] < b[i] then -1 else 1;
    } else if |a| < |b| {
      r := -1;
    } else if |a| > |b| {
      r := 1;
    } else {
      assert a == a[..i] && b == b[..i];
      r := 0;
    }
  }

  /** The first byte that differs is raised, if that leaves it below the limit's, and ends the key. */
  function ShortSeparator(start: Bytes, limit: Bytes): Bytes {
    if start == [] || limit == [] then start
    else if start[0] == limit[0] then [start[0]] + ShortSeparator(start[1..], limit[1..])
    else
      var byte: int := start[0];
      if byte + 1 < limit[0] then [byte + 1] else start
  }

  /** The first byte that can be raised is raised, and ends the key. */
  function ShortSuccessor(key: Bytes): Bytes {
    if key == [] then key
    else
      var byte: int := key[0];
      if byte != 255 then [byte + 1] else [key[0]] + ShortSuccessor(key[1..])
  }

  lemma {:induction false} SeparatorPast(start: Bytes, limit: Bytes, n: nat)
    requires n <= |start| && n <= |limit| && start[..n] == limit[..n]
    ensures ShortSeparator(start, limit) == start[..n] + ShortSeparator(start[n..], limit[n..])
  {
    if n == 0 {
      assert start[0..] == start && limit[0..] == limit;
    } else {
      var m := n - 1;
      assert start[m] == start[..n][m] && limit[m] == limit[..n][m];
      assert start[..m] == start[..n][..m] && limit[..m] == limit[..n][..m];
      SeparatorPast(start, limit, m);
      assert start[m..][1..] == start[n..] && limit[m..][1..] == limit[n..];
      OneFurther(start, m, ShortSeparator(start[n..], limit[n..]));
    }
  }

  lemma {:induction false} SuccessorPast(key: Bytes, n: nat)
    requires n <= |key| && forall j :: 0 <= j < n ==> key[j] == 255
    ensures ShortSuccessor(key) == key[..n] + ShortSuccessor(key[n..])
  {
    if n == 0 {
      assert key[0..] == key;
    } else {
      SuccessorPast(key, n - 1);
      assert key[n - 1..][1..] == key[n..];
      OneFurther(key, n - 1, ShortSuccessor(key[n..]));
    }
  }

  lemma OneFurther(a: Bytes, m: nat, b: Bytes)
    requires m < |a|
    ensures a[..m] + ([a[m]] + b) == a[..m + 1] + b
  {
  }

  /** Shorten a key, staying below a limit when it is below. */
  method FindShortestSeparator(start: Bytes, limit: Bytes) returns (r: Bytes)
    ensures |r| <= |start| && (r == start || BytesLess(start, r))
    ensures BytesLess(start, limit) ==> BytesLess(r, limit)
    ensures r != start ==> BytesLess(r, limit)
    ensures r == ShortSeparator(start, limit)
  {
    var minLength := if |start| < |limit| then |start| else |limit|;
    var diff := 0;
    while diff < minLength && start[diff] == limit[diff]
      invariant diff <= minLength && start[..diff] == limit[..diff]
    {
      assert start[..diff + 1] == start[..diff] + [start[diff]] && limit[..diff + 1] == limit[..diff] + [limit[diff]];
      diff := diff + 1;
    }
    r := start;
    SeparatorPast(start, limit, diff);
    assert start == start[..diff] + start[diff..];
    if diff < minLength {
      var byte: int := start[diff];
      if byte < 255 && byte + 1 < limit[diff] {
        r := start[..diff] + [byte + 1];
        assert r[..diff] == start[..diff] && r[diff..] == [byte + 1];
        LessAt(start, r, diff);
        LessAt(r, limit, diff);
      }
    }
  }

  /** Shorten a key to one that is no smaller. */
  method FindShortSuccessor(key: Bytes) returns (r: Bytes)
    ensures |r| <= |key| && (r == key || BytesLess(key, r))
    ensures (exists i :: 0 <= i < |key| - 1 && key[i] != 255) ==> |r| < |key|
    ensures r == ShortSuccessor(key)
  {
    for i := 0 to |key|
      invariant forall j :: 0 <= j < i ==> key[j] == 255
    {
      var byte: int := key[i];
      if byte != 255 {
        r := key[..i] + [byte + 1];
        assert r[..i] == key[..i] && r[i..] == [byte + 1];
        LessAt(key, r, i);
        SuccessorPast(key, i);
        return;
      }
    }
    SuccessorPast(key, |key|);
    r := key;
  }

  // ----- Internal keys -----

  const MAX_TAG := MAX_SEQUENCE * 256 + 1

  /** A user key and its tag. */
  predicate IsInternal(k: Bytes) {
    |k| >= 8
  }

  function UserOf(k: Bytes): Bytes
    requires IsInternal(k)
  {
    k[..|k| - 8]
  }

  function TagOf(k: Bytes): (t: nat)
    requires IsInternal(k)
    ensures t < U64
  {
    DecodeFixed64(k[|k| - 8..])
  }

  function InternalKeyBytes(user: Bytes, tag: nat): (k: Bytes)
    requires tag < U64
    ensures IsInternal(k) && UserOf(k) == user && TagOf(k) == tag
  {
    var k := user + Fixed64(tag);
    assert k[|k| - 8..] == Fixed64(tag) + [];
    Fixed64RoundTrip(tag, []);
    k
  }

  predicate InternalLess(a: Bytes, b: Bytes)
    requires IsInternal(a) && IsInternal(b)
  {
    BytesLess(UserOf(a), UserOf(b)) || (UserOf(a) == UserOf(b) && TagOf(a) > TagOf(b))
  }

  method InternalCompare(a: Bytes, b: Bytes) returns (r: int)
    requires IsInternal(a) && IsInternal(b)
    ensures r < 0 <==> InternalLess(a, b)
    ensures r > 0 <==> InternalLess(b, a)
    ensures r == 0 <==> UserOf(a) == UserOf(b) && TagOf(a) == TagOf(b)
  {
    LessOrMore(UserOf(a), UserOf(b));
    r := Compare(a[..|a| - 8], b[..|b| - 8]);
    if r == 0 {
      var anum := DecodeFixed64(a[|a| - 8..]);
      var bnum := DecodeFixed64(b[|b| - 8..]);
      if anum > bnum {
        r := -1;
      } else if anum < bnum {
        r := 1;
      }
    }
  }

  /** The rank of an internal key; other strings are below all. */
  function InternalRank(k: Bytes): real {
    if IsInternal(k) then Place(UserOf(k), TailOf(TagOf(k))) else -1.0
  }

  function TailOf(tag: nat): (t: real)
    requires tag < U64
    ensures 0.0 <= t < 1.0 / 257.0
  {
    (U64 - 1 - tag) as real / (257 * U64) as real
  }

  lemma TailOrders(s: nat, t: nat)
    requires s < U64 && t < U64
    ensures TailOf(s) < TailOf(t) <==> s > t
  {
    var a, b := (U64 - 1 - s) as real, (U64 - 1 - t) as real;
    assert a < b <==> s > t;
  }

  lemma InternalRankOrders(a: Bytes, b: Bytes)
    requires IsInternal(a) && IsInternal(b)
    ensures InternalRank(a) < InternalRank(b) <==> InternalLess(a, b)
  {
    PlaceOrders(UserOf(a), TailOf(TagOf(a)), UserOf(b), TailOf(TagOf(b)));
    TailOrders(TagOf(a), TagOf(b));
  }

  /** An internal key as bytes; parsing it. */
  function Encoded(user: Bytes, sequence: SequenceNumber, kind: ValueType): (k: Bytes)
    ensures IsInternal(k)
  {
    InternalKeyBytes(user, Tag(IKey(Rank(user), sequence, kind)))
  }

  method ParseInternalKey(k: Bytes) returns (r: Option<(Bytes, SequenceNumber, ValueType)>)
    ensures r.Some? ==> k == Encoded(r.value.0, r.value.1, r.value.2)
    ensures r.None? ==> forall user, sequence, kind :: k != Encoded(user, sequence, kind)
  {
    hide Fixed64, DecodeFixed64, Rank;
    if |k| < 8 {
      return None;
    }
    var num := DecodeFixed64(k[|k| - 8..]);
    var c := num % 256;
    if c > 1 {
      forall user, sequence, kind ensures k != Encoded(user, sequence, kind) {
        assert TagOf(Encoded(user, sequence, kind)) % 256 <= 1;
      }
      return None;
    }
    var user, kind := k[..|k| - 8], if c == 1 then Value else Deletion;
    r := Some((user, num / 256, kind));
    Fixed64Unique(k[|k| - 8..]);
    assert k == user + k[|k| - 8..];
  }

  /** The order of the bytes is the order of the keys that the rest of the model uses. */
  lemma EncodedOrder(u: Bytes, s: SequenceNumber, kind: ValueType, u': Bytes, s': SequenceNumber, kind': ValueType)
    ensures InternalLess(Encoded(u, s, kind), Encoded(u', s', kind')) <==> Less(IKey(Rank(u), s, kind), IKey(Rank(u'), s', kind'))
  {
    RankOrders(u, u');
  }

  // ----- Keys between blocks -----

  /** The key that stands in the index between two keys: the first with the shorter user, if there is one. */
  function SeparatorOf(start: Bytes, limit: Bytes): Bytes {
    if IsInternal(start) && IsInternal(limit) then Shortened(start, ShortSeparator(UserOf(start), UserOf(limit))) else start
  }

  function SuccessorOf(key: Bytes): Bytes {
    if IsInternal(key) then Shortened(key, ShortSuccessor(UserOf(key))) else key
  }

  function Shortened(key: Bytes, user: Bytes): Bytes
    requires IsInternal(key)
  {
    if |user| < |UserOf(key)| && BytesLess(UserOf(key), user) then InternalKeyBytes(user, MAX_TAG) else key
  }

  /** A key that may stand in the index between two keys: from `start` on, and before every key of a later
      user, and before `limit`. */
  method InternalSeparator(start: Bytes, limit: Bytes) returns (r: Bytes)
    requires IsInternal(start) && IsInternal(limit) && InternalLess(start, limit)
    ensures IsInternal(r) && |r| <= |start| && (r == start || InternalLess(start, r)) && InternalLess(r, limit)
    ensures r == start || (BytesLess(UserOf(start), UserOf(r)) && BytesLess(UserOf(r), UserOf(limit)))
    ensures r == SeparatorOf(start, limit)
  {
    var userStart, userLimit := start[..|start| - 8], limit[..|limit| - 8];
    var tmp := FindShortestSeparator(userStart, userLimit);
    var c := Compare(userStart, tmp);
    r := start;
    if |tmp| < |userStart| && c < 0 {
      // The largest tag makes it the first key of that user
      r := InternalKeyBytes(tmp, MAX_TAG);
    }
  }

  method InternalSuccessor(key: Bytes) returns (r: Bytes)
    requires IsInternal(key)
    ensures IsInternal(r) && |r| <= |key| && (r == key || InternalLess(key, r))
    ensures r == key || BytesLess(UserOf(key), UserOf(r))
    ensures r == SuccessorOf(key)
  {
    var userKey := key[..|key| - 8];
    var tmp := FindShortSuccessor(userKey);
    var c := Compare(userKey, tmp);
    r := key;
    if |tmp| < |userKey| && c < 0 {
      r := InternalKeyBytes(tmp, MAX_TAG);
    }
  }
}

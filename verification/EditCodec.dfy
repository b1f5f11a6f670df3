/** Version edits as records of the manifest: tagged items, one after the other. */
module EditCodec {
  import opened InternalKeys
  import opened Coding

  const NUM_LEVELS := 7

  datatype FileRecord = FileRecord(number: nat, fileSize: nat, smallest: Bytes, largest: Bytes)

  datatype Edit = Edit(comparator: Option<Bytes>, logNumber: Option<nat>, prevLogNumber: Option<nat>, nextFileNumber: Option<nat>,
                       lastSequence: Option<nat>, compactPointers: seq<(nat, Bytes)>, deletedFiles: set<(nat, nat)>,
                       newFiles: seq<(nat, FileRecord)>)

  /** One tagged item. */
  datatype Item =
    | Comparator(name: Bytes)
    | LogNumber(n: nat)
    | PrevLogNumber(n: nat)
    | NextFileNumber(n: nat)
    | LastSequence(n: nat)
    | CompactPointer(level: nat, key: Bytes)
    | DeletedFile(level: nat, number: nat)
    | NewFile(level: nat, file: FileRecord)

  predicate FileFits(f: FileRecord) {
    f.number < U64 && f.fileSize < U64 && |f.smallest| < U32 && |f.largest| < U32
  }

  predicate ItemFits(item: Item) {
    match item
    case Comparator(name) => |name| < U32
    case LogNumber(n) => n < U64
    case PrevLogNumber(n) => n < U64
    case NextFileNumber(n) => n < U64
    case LastSequence(n) => n < U64
    case CompactPointer(level, key) => level < NUM_LEVELS && |key| < U32
    case DeletedFile(level, number) => level < NUM_LEVELS && number < U64
    case NewFile(level, f) => level < NUM_LEVELS && FileFits(f)
  }

  function TagOf(item: Item): nat {
    match item
    case Comparator(_) => 1
    case LogNumber(_) => 2
    case NextFileNumber(_) => 3
    case LastSequence(_) => 4
    case CompactPointer(_, _) => 5
    case DeletedFile(_, _) => 6
    case NewFile(_, _) => 7
    case PrevLogNumber(_) => 9
  }

  function Payload(item: Item): Bytes {
    match item
    case Comparator(name) => LengthPrefixed(name)
    case LogNumber(n) => Varint(n)
    case PrevLogNumber(n) => Varint(n)
    case NextFileNumber(n) => Varint(n)
    case LastSequence(n) => Varint(n)
    case CompactPointer(level, key) => Varint(level) + LengthPrefixed(key)
    case DeletedFile(level, number) => Varint(level) + Varint(number)
    case NewFile(level, f) => Varint(level) + FileBytes(f)
  }

  function FileBytes(f: FileRecord): Bytes {
    Varint(f.number) + (Varint(f.fileSize) + (LengthPrefixed(f.smallest) + LengthPrefixed(f.largest)))
  }

  function ItemBytes(item: Item): Bytes {
    Varint(TagOf(item)) + Payload(item)
  }

  function AllBytes(items: seq<Item>): Bytes {
    if items == [] then [] else AllBytes(items[..|items| - 1]) + ItemBytes(items[|items| - 1])
  }

  // ----- Reading one item -----

  function ReadNumber(bs: Bytes): Option<(nat, Bytes)> {
    var w := ReadWord(bs, 10, U64);
    if w.None? then None else Some((w.value.0, bs[w.value.1..]))
  }

  function ReadSmall(bs: Bytes): Option<(nat, Bytes)> {
    var w := ReadWord(bs, 5, U32);
    if w.None? then None else Some((w.value.0, bs[w.value.1..]))
  }

  function ReadLevel(bs: Bytes): Option<(nat, Bytes)> {
    var w := ReadSmall(bs);
    if w.None? || w.value.0 >= NUM_LEVELS then None else w
  }

  function ReadFile(bs: Bytes): Option<(FileRecord, Bytes)> {
    var number := ReadNumber(bs);
    if number.None? then None
    else
      var size := ReadNumber(number.value.1);
      if size.None? then None
      else
        var smallest := ReadLengthPrefixed(size.value.1);
        if smallest.None? then None
        else
          var largest := ReadLengthPrefixed(smallest.value.1);
          if largest.None? then None
          else Some((FileRecord(number.value.0, size.value.0, smallest.value.0, largest.value.0), largest.value.1))
  }

  function NumberItem(tag: nat, n: nat): Item {
    if tag == 2 then LogNumber(n) else if tag == 3 then NextFileNumber(n) else if tag == 4 then LastSequence(n) else PrevLogNumber(n)
  }

  function ReadPayload(tag: nat, bs: Bytes): Option<(Item, Bytes)> {
    if tag == 1 then
      var name := ReadLengthPrefixed(bs);
      if name.None? then None else Some((Comparator(name.value.0), name.value.1))
    else if tag == 2 || tag == 3 || tag == 4 || tag == 9 then
      var n := ReadNumber(bs);
      if n.None? then None
      else
        Some((NumberItem(tag, n.value.0), n.value.1))
    else if tag == 5 || tag == 6 || tag == 7 then
      var level := ReadLevel(bs);
      if level.None? then None
      else if tag == 5 then
        var key := ReadLengthPrefixed(level.value.1);
        if key.None? then None else Some((CompactPointer(level.value.0, key.value.0), key.value.1))
      else if tag == 6 then
        var number := ReadNumber(level.value.1);
        if number.None? then None else Some((DeletedFile(level.value.0, number.value.0), number.value.1))
      else
        var f := ReadFile(level.value.1);
        if f.None? then None else Some((NewFile(level.value.0, f.value.0), f.value.1))
    else None
  }

  function ReadItem(bs: Bytes): (r: Option<(Item, Bytes)>)
    ensures r.Some? ==> |r.value.1| < |bs|
  {
    var tag := ReadSmall(bs);
    if tag.None? then None
    else
      PayloadConsumes(tag.value.0, tag.value.1);
      ReadPayload(tag.value.0, tag.value.1)
  }

  lemma PayloadConsumes(tag: nat, bs: Bytes)
    ensures ReadPayload(tag, bs).Some? ==> |ReadPayload(tag, bs).value.1| <= |bs|
  {
    hide ReadWord;
  }

  // ----- Reading all items -----

  function WithItem(e: Edit, item: Item): Edit {
    match item
    case Comparator(name) => e.(comparator := Some(name))
    case LogNumber(n) => e.(logNumber := Some(n))
    case PrevLogNumber(n) => e.(prevLogNumber := Some(n))
    case NextFileNumber(n) => e.(nextFileNumber := Some(n))
    case LastSequence(n) => e.(lastSequence := Some(n))
    case CompactPointer(level, key) => e.(compactPointers := e.compactPointers + [(level, key)])
    case DeletedFile(level, number) => e.(deletedFiles := e.deletedFiles + {(level, number)})
    case NewFile(level, f) => e.(newFiles := e.newFiles + [(level, f)])
  }

  function WithItems(e: Edit, items: seq<Item>): Edit {
    if items == [] then e else WithItem(WithItems(e, items[..|items| - 1]), items[|items| - 1])
  }

  /** Decode items into an edit; None for a tag, a level or a payload that is no good. */
  function ReadItems(e: Edit, bs: Bytes): Option<Edit>
    decreases |bs|
  {
    if bs == [] then Some(e)
    else
      var item := ReadItem(bs);
      if item.None? then None else ReadItems(WithItem(e, item.value.0), item.value.1)
  }

  /** What is left of an edit that is cleared: the compaction pointers. */
  function Cleared(e: Edit): Edit {
    Edit(None, None, None, None, None, e.compactPointers, {}, [])
  }

  // ----- Round trips -----

  lemma NumberRoundTrip(n: nat, rest: Bytes)
    requires n < U64
    ensures ReadNumber(Varint(n) + rest) == Some((n, rest))
  {
    hide Varint, ReadVarint;
    VarintFits(n);
    VarintRoundTrip(n, rest, 10);
    assert (Varint(n) + rest)[|Varint(n)|..] == rest;
  }

  lemma SmallRoundTrip(n: nat, rest: Bytes)
    requires n < U32
    ensures ReadSmall(Varint(n) + rest) == Some((n, rest))
  {
    hide Varint, ReadVarint;
    VarintFits(n);
    VarintRoundTrip(n, rest, 5);
    assert (Varint(n) + rest)[|Varint(n)|..] == rest;
  }

  lemma FileRoundTrip(f: FileRecord, rest: Bytes)
    requires FileFits(f)
    ensures ReadFile(FileBytes(f) + rest) == Some((f, rest))
  {
    hide Varint, LengthPrefixed, ReadLengthPrefixed, ReadNumber;
    var a, b, c, d := Varint(f.number), Varint(f.fileSize), LengthPrefixed(f.smallest), LengthPrefixed(f.largest);
    assert FileBytes(f) + rest == a + (b + (c + (d + rest)));
    NumberRoundTrip(f.number, b + (c + (d + rest)));
    NumberRoundTrip(f.fileSize, c + (d + rest));
    LengthPrefixedRoundTrip(f.smallest, d + rest);
    LengthPrefixedRoundTrip(f.largest, rest);
  }

  lemma PayloadRoundTrip(item: Item, rest: Bytes)
    requires ItemFits(item)
    ensures ReadPayload(TagOf(item), Payload(item) + rest) == Some((item, rest))
  {
    hide Varint, LengthPrefixed, ReadLengthPrefixed, ReadNumber, ReadSmall, FileBytes, ReadFile;
    match item
    case Comparator(name) => LengthPrefixedRoundTrip(name, rest);
    case LogNumber(n) => NumberRoundTrip(n, rest);
    case PrevLogNumber(n) => NumberRoundTrip(n, rest);
    case NextFileNumber(n) => NumberRoundTrip(n, rest);
    case LastSequence(n) => NumberRoundTrip(n, rest);
    case CompactPointer(level, key) =>
      assert Payload(item) + rest == Varint(level) + (LengthPrefixed(key) + rest);
      SmallRoundTrip(level, LengthPrefixed(key) + rest);
      LengthPrefixedRoundTrip(key, rest);
    case DeletedFile(level, number) =>
      assert Payload(item) + rest == Varint(level) + (Varint(number) + rest);
      SmallRoundTrip(level, Varint(number) + rest);
      NumberRoundTrip(number, rest);
    case NewFile(level, f) =>
      assert Payload(item) + rest == Varint(level) + (FileBytes(f) + rest);
      SmallRoundTrip(level, FileBytes(f) + rest);
      FileRoundTrip(f, rest);
  }

  lemma ItemRoundTrip(item: Item, rest: Bytes)
    requires ItemFits(item)
    ensures ReadItem(ItemBytes(item) + rest) == Some((item, rest))
  {
    hide Varint, Payload, ReadPayload, ReadSmall;
    assert ItemBytes(item) + rest == Varint(TagOf(item)) + (Payload(item) + rest);
    SmallRoundTrip(TagOf(item), Payload(item) + rest);
    PayloadRoundTrip(item, rest);
  }

  ghost predicate AllFit(items: seq<Item>) {
    forall i :: 0 <= i < |items| ==> ItemFits(items[i])
  }

  /** Reading written items, and what follows them, adds them to the edit. */
  lemma {:induction false} ItemsRoundTrip(e: Edit, items: seq<Item>, rest: Bytes)
    requires AllFit(items)
    ensures ReadItems(e, AllBytes(items) + rest) == ReadItems(WithItems(e, items), rest)
    decreases |items|
  {
    if items == [] {
      assert AllBytes(items) + rest == rest;
    } else {
      hide ItemBytes, ReadItem, WithItem, ItemFits;
      var n := |items| - 1;
      var last := ItemBytes(items[n]);
      assert AllBytes(items) + rest == AllBytes(items[..n]) + (last + rest);
      ItemsRoundTrip(e, items[..n], last + rest);
      ItemRoundTrip(items[n], rest);
    }
  }

  // ----- The items of an edit -----

  /** The item of a number, if it is there. */
  function NumberItems(o: Option<nat>, tag: nat): seq<Item> {
    if o.None? then [] else [NumberItem(tag, o.value)]
  }

  function ComparatorItems(o: Option<Bytes>): seq<Item> {
    if o.None? then [] else [Comparator(o.value)]
  }

  /** The items of an edit, with its deleted files in some order. */
  function ItemsOf(e: Edit, order: seq<(nat, nat)>): seq<Item> {
    Scalars(e) + Pointers(e.compactPointers) + Deletions(order) + Additions(e.newFiles)
  }

  function Scalars(e: Edit): seq<Item> {
    ComparatorItems(e.comparator) + NumberItems(e.logNumber, 2) + NumberItems(e.prevLogNumber, 9)
    + NumberItems(e.nextFileNumber, 3) + NumberItems(e.lastSequence, 4)
  }

  function Pointers(ps: seq<(nat, Bytes)>): (items: seq<Item>)
    ensures |items| == |ps| && forall i :: 0 <= i < |ps| ==> items[i] == CompactPointer(ps[i].0, ps[i].1)
  {
    seq(|ps|, i requires 0 <= i < |ps| => CompactPointer(ps[i].0, ps[i].1))
  }

  function Deletions(order: seq<(nat, nat)>): (items: seq<Item>)
    ensures |items| == |order| && forall i :: 0 <= i < |order| ==> items[i] == DeletedFile(order[i].0, order[i].1)
  {
    seq(|order|, i requires 0 <= i < |order| => DeletedFile(order[i].0, order[i].1))
  }

  function Additions(fs: seq<(nat, FileRecord)>): (items: seq<Item>)
    ensures |items| == |fs| && forall i :: 0 <= i < |fs| ==> items[i] == NewFile(fs[i].0, fs[i].1)
  {
    seq(|fs|, i requires 0 <= i < |fs| => NewFile(fs[i].0, fs[i].1))
  }

  /** Set iteration goes through the pairs in ascending order. */
  predicate Before(a: (nat, nat), b: (nat, nat)) {
    a.0 < b.0 || (a.0 == b.0 && a.1 < b.1)
  }

  ghost predicate Enumerates(order: seq<(nat, nat)>, s: set<(nat, nat)>) {
    && (forall p :: p in s <==> p in order)
    && (forall i, j :: 0 <= i < j < |order| ==> Before(order[i], order[j]))
  }

  lemma {:induction false} WithItemsAppend(e: Edit, a: seq<Item>, b: seq<Item>)
    ensures WithItems(e, a + b) == WithItems(WithItems(e, a), b)
    decreases |b|
  {
    if b == [] {
      assert a + b == a;
    } else {
      hide WithItem;
      var n := |b| - 1;
      assert (a + b)[..|a| + n] == a + b[..n];
      WithItemsAppend(e, a, b[..n]);
    }
  }

  lemma {:induction false} PointersAdd(e: Edit, ps: seq<(nat, Bytes)>)
    ensures WithItems(e, Pointers(ps)) == e.(compactPointers := e.compactPointers + ps)
    decreases |ps|
  {
    if ps != [] {
      var n := |ps| - 1;
      assert Pointers(ps)[..n] == Pointers(ps[..n]);
      PointersAdd(e, ps[..n]);
      assert ps == ps[..n] + [(ps[n].0, ps[n].1)];
      assert e.compactPointers + ps == e.compactPointers + ps[..n] + [(ps[n].0, ps[n].1)];
    } else {
      assert e.compactPointers + ps == e.compactPointers;
    }
  }

  lemma {:induction false} DeletionsAdd(e: Edit, order: seq<(nat, nat)>)
    ensures WithItems(e, Deletions(order)) == e.(deletedFiles := e.deletedFiles + set p | p in order)
    decreases |order|
  {
    if order != [] {
      var n := |order| - 1;
      assert Deletions(order)[..n] == Deletions(order[..n]);
      DeletionsAdd(e, order[..n]);
      assert order == order[..n] + [(order[n].0, order[n].1)];
      assert (set p | p in order) == (set p | p in order[..n]) + {(order[n].0, order[n].1)};
    }
  }

  lemma {:induction false} AdditionsAdd(e: Edit, fs: seq<(nat, FileRecord)>)
    ensures WithItems(e, Additions(fs)) == e.(newFiles := e.newFiles + fs)
    decreases |fs|
  {
    if fs != [] {
      var n := |fs| - 1;
      assert Additions(fs)[..n] == Additions(fs[..n]);
      AdditionsAdd(e, fs[..n]);
      assert fs == fs[..n] + [(fs[n].0, fs[n].1)];
      assert e.newFiles + fs == e.newFiles + fs[..n] + [(fs[n].0, fs[n].1)];
    } else {
      assert e.newFiles + fs == e.newFiles;
    }
  }

  lemma OneAdds(e: Edit, item: Item)
    ensures WithItems(e, [item]) == WithItem(e, item)
  {
    assert [item][..0] == [];
    assert WithItems(e, [item][..0]) == e;
  }

  lemma ScalarsAdd(d: Edit, e: Edit)
    requires d == Cleared(d)
    ensures WithItems(d, Scalars(e)) == e.(compactPointers := d.compactPointers, deletedFiles := {}, newFiles := [])
  {
    hide WithItems, WithItem, NumberItems;
    var a, b, c := ComparatorItems(e.comparator), NumberItems(e.logNumber, 2), NumberItems(e.prevLogNumber, 9);
    var f, g := NumberItems(e.nextFileNumber, 3), NumberItems(e.lastSequence, 4);
    WithItemsAppend(d, a + b + c + f, g);
    WithItemsAppend(d, a + b + c, f);
    WithItemsAppend(d, a + b, c);
    WithItemsAppend(d, a, b);
    var d1 := WithComparator(d, e.comparator);
    if e.comparator.Some? {
      OneAdds(d, Comparator(e.comparator.value));
    } else {
      NoneAdds(d);
    }
    var d2 := NumberAdds(d1, e.logNumber, 2);
    var d3 := NumberAdds(d2, e.prevLogNumber, 9);
    var d4 := NumberAdds(d3, e.nextFileNumber, 3);
    var d5 := NumberAdds(d4, e.lastSequence, 4);
    ScalarFields(d, e);
  }

  function WithComparator(e: Edit, o: Option<Bytes>): Edit {
    if o.None? then e else WithItem(e, Comparator(o.value))
  }

  function WithNumber(e: Edit, o: Option<nat>, tag: nat): Edit {
    if o.None? then e else WithItem(e, NumberItem(tag, o.value))
  }

  lemma ScalarFields(d: Edit, e: Edit)
    requires d == Cleared(d)
    ensures var d3 := WithNumber(WithNumber(WithComparator(d, e.comparator), e.logNumber, 2), e.prevLogNumber, 9);
        WithNumber(WithNumber(d3, e.nextFileNumber, 3), e.lastSequence, 4) ==
        e.(compactPointers := d.compactPointers, deletedFiles := {}, newFiles := [])
  {
  }

  lemma NumberAdds(e: Edit, o: Option<nat>, tag: nat) returns (r: Edit)
    ensures r == WithItems(e, NumberItems(o, tag)) == WithNumber(e, o, tag)
  {
    r := WithItems(e, NumberItems(o, tag));
    if o.Some? {
      OneAdds(e, NumberItem(tag, o.value));
    }
  }

  lemma NoneAdds(e: Edit)
    ensures WithItems(e, []) == e
  {
  }

  ghost predicate Fits(e: Edit) {
    && (e.comparator.Some? ==> |e.comparator.value| < U32)
    && (e.logNumber.Some? ==> e.logNumber.value < U64) && (e.prevLogNumber.Some? ==> e.prevLogNumber.value < U64)
    && (e.nextFileNumber.Some? ==> e.nextFileNumber.value < U64) && (e.lastSequence.Some? ==> e.lastSequence.value < U64)
    && (forall p :: p in e.compactPointers ==> p.0 < NUM_LEVELS && |p.1| < U32)
    && (forall p :: p in e.deletedFiles ==> p.0 < NUM_LEVELS && p.1 < U64)
    && (forall p :: p in e.newFiles ==> p.0 < NUM_LEVELS && FileFits(p.1))
  }

  /** Decoding an encoded edit into another gives it back, after the compaction pointers that the other held:
      clearing an edit does not clear those. */
  lemma EditRoundTrip(d: Edit, e: Edit, order: seq<(nat, nat)>)
    requires Fits(e) && Enumerates(order, e.deletedFiles)
    ensures ReadItems(Cleared(d), AllBytes(ItemsOf(e, order))) == Some(e.(compactPointers := d.compactPointers + e.compactPointers))
  {
    hide WithItems, AllBytes, ReadItems, ItemBytes, WithItem;
    var items, c := ItemsOf(e, order), Cleared(d);
    ItemsFit(e, order);
    ItemsRoundTrip(c, items, []);
    assert AllBytes(items) + [] == AllBytes(items);
    WithItemsAppend(c, Scalars(e) + Pointers(e.compactPointers) + Deletions(order), Additions(e.newFiles));
    WithItemsAppend(c, Scalars(e) + Pointers(e.compactPointers), Deletions(order));
    WithItemsAppend(c, Scalars(e), Pointers(e.compactPointers));
    ScalarsAdd(c, e);
    var e1 := WithItems(c, Scalars(e));
    PointersAdd(e1, e.compactPointers);
    var e2 := WithItems(e1, Pointers(e.compactPointers));
    DeletionsAdd(e2, order);
    var e3 := WithItems(e2, Deletions(order));
    AdditionsAdd(e3, e.newFiles);
    assert {} + (set p | p in order) == e.deletedFiles;
    assert e3 == e.(compactPointers := d.compactPointers + e.compactPointers, newFiles := []);
    assert [] + e.newFiles == e.newFiles;
    NothingMore(WithItems(c, items));
  }

  lemma ItemsFit(e: Edit, order: seq<(nat, nat)>)
    requires Fits(e) && Enumerates(order, e.deletedFiles)
    ensures AllFit(ItemsOf(e, order))
  {
    hide FileFits;
    assert forall i :: 0 <= i < |order| ==> order[i] in order;
    assert forall i :: 0 <= i < |e.newFiles| ==> e.newFiles[i] in e.newFiles;
    assert forall i :: 0 <= i < |e.compactPointers| ==> e.compactPointers[i] in e.compactPointers;
    assert AllFit(Scalars(e)) && AllFit(Pointers(e.compactPointers)) && AllFit(Deletions(order)) && AllFit(Additions(e.newFiles));
  }

  lemma NothingMore(e: Edit)
    ensures ReadItems(e, []) == Some(e)
  {
  }

  /** So it gives back just that edit exactly when the other held no compaction pointers. */
  lemma FreshRoundTrip(d: Edit, e: Edit, order: seq<(nat, nat)>)
    requires Fits(e) && Enumerates(order, e.deletedFiles)
    ensures ReadItems(Cleared(d), AllBytes(ItemsOf(e, order))) == Some(e) <==> d.compactPointers == []
  {
    EditRoundTrip(d, e, order);
    hide ReadItems, AllBytes, ItemsOf;
    if d.compactPointers == [] {
      assert d.compactPointers + e.compactPointers == e.compactPointers;
    } else {
      assert |d.compactPointers + e.compactPointers| != |e.compactPointers|;
    }
  }

  // ----- Writing -----

  method PutLengthPrefixedSlice(dst: Bytes, s: Bytes) returns (r: Bytes)
    requires |s| < U32
    ensures r == dst + LengthPrefixed(s)
  {
    hide Varint;
    r := PutVarint32(dst, |s|);
    r := r + s;
  }

  method PutFile(dst: Bytes, f: FileRecord) returns (r: Bytes)
    requires FileFits(f)
    ensures r == dst + FileBytes(f)
  {
    hide Varint, LengthPrefixed;
    r := PutVarint64(dst, f.number);
    r := PutVarint64(r, f.fileSize);
    r := PutLengthPrefixedSlice(r, f.smallest);
    r := PutLengthPrefixedSlice(r, f.largest);
  }

  method PutPayload(dst: Bytes, item: Item) returns (r: Bytes)
    requires ItemFits(item)
    ensures r == dst + Payload(item)
  {
    hide Varint, LengthPrefixed, FileBytes, FileFits;
    match item {
      case Comparator(name) => r := PutLengthPrefixedSlice(dst, name);
      case LogNumber(n) => r := PutVarint64(dst, n);
      case PrevLogNumber(n) => r := PutVarint64(dst, n);
      case NextFileNumber(n) => r := PutVarint64(dst, n);
      case LastSequence(n) => r := PutVarint64(dst, n);
      case CompactPointer(level, key) =>
        r := PutVarint32(dst, level);
        r := PutLengthPrefixedSlice(r, key);
      case DeletedFile(level, number) =>
        r := PutVarint32(dst, level);
        r := PutVarint64(r, number);
      case NewFile(level, f) =>
        r := PutVarint32(dst, level);
        r := PutFile(r, f);
    }
  }

  /** Append one item to what has been encoded so far. */
  method PutItem(sofar: Bytes, item: Item, ghost dst: Bytes, ghost items: seq<Item>) returns (r: Bytes)
    requires ItemFits(item) && sofar == dst + AllBytes(items)
    ensures r == dst + AllBytes(items + [item])
  {
    hide Varint, Payload, ItemFits;
    r := PutVarint32(sofar, TagOf(item));
    r := PutPayload(r, item);
    hide TagOf;
    assert (items + [item])[..|items|] == items;
    assert r == dst + (AllBytes(items) + ItemBytes(item));
  }

  method GetLevel(input: Bytes) returns (r: Option<(nat, Bytes)>)
    ensures r == ReadLevel(input)
  {
    hide ReadVarint;
    r := GetVarint32(input);
    if r.Some? && r.value.0 >= NUM_LEVELS {
      r := None;
    }
  }

  method GetFile(input: Bytes) returns (r: Option<(FileRecord, Bytes)>)
    ensures r == ReadFile(input)
  {
    hide ReadVarint, ReadLengthPrefixed;
    var number := GetVarint64(input);
    if number.None? {
      return None;
    }
    var size := GetVarint64(number.value.1);
    if size.None? {
      return None;
    }
    var smallest := GetLengthPrefixedSlice(size.value.1);
    if smallest.None? {
      return None;
    }
    var largest := GetLengthPrefixedSlice(smallest.value.1);
    if largest.None? {
      return None;
    }
    r := Some((FileRecord(number.value.0, size.value.0, smallest.value.0, largest.value.0), largest.value.1));
  }

  // ----- The class -----

  class VersionEdit {
    // None when the source's flag for the field is not set
    var comparator: Option<Bytes>
    var logNumber: Option<nat>
    var prevLogNumber: Option<nat>
    var nextFileNumber: Option<nat>
    var lastSequence: Option<nat>
    var compactPointers: seq<(nat, Bytes)>
    var deletedFiles: set<(nat, nat)>
    var newFiles: seq<(nat, FileRecord)>

    function Contents(): Edit
      reads this
    {
      Edit(comparator, logNumber, prevLogNumber, nextFileNumber, lastSequence, compactPointers, deletedFiles, newFiles)
    }

    constructor ()
      ensures Contents() == Edit(None, None, None, None, None, [], {}, [])
    {
      comparator, logNumber, prevLogNumber, nextFileNumber, lastSequence := None, None, None, None, None;
      compactPointers, deletedFiles, newFiles := [], {}, [];
    }

    /** Everything but the compaction pointers is cleared. */
    method Clear()
      modifies this
      ensures Contents() == Cleared(old(Contents()))
    {
      comparator, logNumber, prevLogNumber, lastSequence, nextFileNumber := None, None, None, None, None;
      deletedFiles := {};
      newFiles := [];
    }

    /** Append the edit, its deleted files in ascending order. */
    method EncodeTo(dst: Bytes) returns (r: Bytes, ghost order: seq<(nat, nat)>)
      requires Fits(Contents())
      ensures Enumerates(order, deletedFiles) && r == dst + AllBytes(ItemsOf(Contents(), order))
    {
      r := EncodeScalars(dst);
      ghost var items := Scalars(Contents());
      r := EncodePointers(r, dst, items);
      items := items + Pointers(compactPointers);
      r, order := EncodeDeletions(r, dst, items);
      items := items + Deletions(order);
      r := EncodeAdditions(r, dst, items);
    }

    method EncodeScalars(dst: Bytes) returns (r: Bytes)
      requires Fits(Contents())
      ensures r == dst + AllBytes(Scalars(Contents()))
    {
      hide ItemBytes, FileFits, AllBytes;
      ghost var e := Contents();
      ghost var items := ComparatorItems(comparator);
      NoBytes();
      r := dst;
      if comparator.Some? {
        r := PutItem(r, Comparator(comparator.value), dst, []);
        assert [] + [Comparator(comparator.value)] == items;
      }
      r := EncodeNumber(r, logNumber, 2, dst, items);
      items := items + NumberItems(logNumber, 2);
      r := EncodeNumber(r, prevLogNumber, 9, dst, items);
      items := items + NumberItems(prevLogNumber, 9);
      r := EncodeNumber(r, nextFileNumber, 3, dst, items);
      items := items + NumberItems(nextFileNumber, 3);
      r := EncodeNumber(r, lastSequence, 4, dst, items);
    }

    method EncodeNumber(sofar: Bytes, o: Option<nat>, tag: nat, ghost dst: Bytes, ghost items: seq<Item>) returns (r: Bytes)
      requires (o.Some? ==> o.value < U64) && sofar == dst + AllBytes(items)
      ensures r == dst + AllBytes(items + NumberItems(o, tag))
    {
      hide AllBytes;
      r := sofar;
      if o.Some? {
        r := PutItem(r, NumberItem(tag, o.value), dst, items);
      } else {
        assert items + [] == items;
      }
    }

    lemma NoBytes()
      ensures AllBytes([]) == []
    {
    }

    method EncodePointers(sofar: Bytes, ghost dst: Bytes, ghost items: seq<Item>) returns (r: Bytes)
      requires Fits(Contents()) && sofar == dst + AllBytes(items)
      ensures r == dst + AllBytes(items + Pointers(compactPointers))
    {
      hide AllBytes, FileFits;
      r := sofar;
      assert items + Pointers(compactPointers[..0]) == items;
      for i := 0 to |compactPointers|
        invariant r == dst + AllBytes(items + Pointers(compactPointers[..i]))
      {
        var p := compactPointers[i];
        assert p in compactPointers;
        r := PutItem(r, CompactPointer(p.0, p.1), dst, items + Pointers(compactPointers[..i]));
        assert items + Pointers(compactPointers[..i + 1]) == items + Pointers(compactPointers[..i]) + [CompactPointer(p.0, p.1)];
      }
      assert compactPointers[..|compactPointers|] == compactPointers;
    }

    method EncodeDeletions(sofar: Bytes, ghost dst: Bytes, ghost items: seq<Item>) returns (r: Bytes, ghost order: seq<(nat, nat)>)
      requires Fits(Contents()) && sofar == dst + AllBytes(items)
      ensures Enumerates(order, deletedFiles) && r == dst + AllBytes(items + Deletions(order))
    {
      hide AllBytes, FileFits;
      r, order := sofar, [];
      var rest := deletedFiles;
      assert items + Deletions(order) == items;
      while rest != {}
        invariant rest <= deletedFiles
        invariant forall p :: p in deletedFiles <==> p in rest || p in order
        invariant forall i, j :: 0 <= i < j < |order| ==> Before(order[i], order[j])
        invariant forall i, p :: 0 <= i < |order| && p in rest ==> Before(order[i], p)
        invariant r == dst + AllBytes(items + Deletions(order))
        decreases rest
      {
        FirstExists(rest);
        var p :| p in rest && forall q :: q in rest ==> q == p || Before(p, q);
        r := PutItem(r, DeletedFile(p.0, p.1), dst, items + Deletions(order));
        assert items + Deletions(order + [p]) == items + Deletions(order) + [DeletedFile(p.0, p.1)];
        ghost var was := order;
        order := order + [p];
        rest := rest - {p};
        assert forall q :: q in order <==> q in was || q == p;
      }
    }

    method EncodeAdditions(sofar: Bytes, ghost dst: Bytes, ghost items: seq<Item>) returns (r: Bytes)
      requires Fits(Contents()) && sofar == dst + AllBytes(items)
      ensures r == dst + AllBytes(items + Additions(newFiles))
    {
      hide AllBytes, FileFits;
      r := sofar;
      assert items + Additions(newFiles[..0]) == items;
      for i := 0 to |newFiles|
        invariant r == dst + AllBytes(items + Additions(newFiles[..i]))
      {
        var f := newFiles[i];
        assert f in newFiles;
        r := PutItem(r, NewFile(f.0, f.1), dst, items + Additions(newFiles[..i]));
        assert items + Additions(newFiles[..i + 1]) == items + Additions(newFiles[..i]) + [NewFile(f.0, f.1)];
      }
      assert newFiles[..|newFiles|] == newFiles;
    }

    /** Decode an edit into this one.  After an error this one is left partly filled. */
    method DecodeFrom(src: Bytes) returns (ok: bool)
      modifies this
      ensures ok <==> ReadItems(Cleared(old(Contents())), src).Some?
      ensures ok ==> Contents() == ReadItems(Cleared(old(Contents())), src).value
    {
      hide ReadPayload, ReadSmall;
      Clear();
      var input := src;
      while input != []
        invariant ReadItems(Cleared(old(Contents())), src) == ReadItems(Contents(), input)
        decreases |input|
      {
        var tag := GetVarint32(input);
        ReadStep(Contents(), input);
        if tag.None? {
          return false;  // invalid tag
        }
        var rest := DecodeItem(tag.value.0, tag.value.1);
        if rest.None? {
          return false;
        }
        input := rest.value;
      }
      ok := true;
    }

    lemma ReadStep(e: Edit, bs: Bytes)
      requires bs != []
      ensures (ReadVarint(bs, 5).None? ==> ReadItems(e, bs) == None)
      ensures ReadVarint(bs, 5).Some? ==>
          var w := ReadWord(bs, 5, U32).value;
          var item := ReadPayload(w.0, bs[w.1..]);
          && ReadItems(e, bs) == (if item.None? then None else ReadItems(WithItem(e, item.value.0), item.value.1))
          && (item.Some? ==> |item.value.1| < |bs|)
    {
      hide ReadPayload;
      if ReadVarint(bs, 5).Some? {
        var w := ReadWord(bs, 5, U32).value;
        PayloadConsumes(w.0, bs[w.1..]);
      }
    }

    /** Decode what follows a tag into the field that the tag stands for. */
    method DecodeItem(tag: nat, input: Bytes) returns (rest: Option<Bytes>)
      modifies this
      ensures var item := ReadPayload(tag, input);
          if item.None? then rest == None
          else rest == Some(item.value.1) && Contents() == WithItem(old(Contents()), item.value.0)
    {
      hide ReadVarint, ReadLengthPrefixed, ReadFile;
      rest := None;
      if tag == 1 {
        var str := GetLengthPrefixedSlice(input);
        if str.Some? {
          comparator := Some(str.value.0);
          rest := Some(str.value.1);
        }
      } else if tag == 2 || tag == 3 || tag == 4 || tag == 9 {
        var n := GetVarint64(input);
        if n.Some? {
          if tag == 2 {
            logNumber := Some(n.value.0);
          } else if tag == 9 {
            prevLogNumber := Some(n.value.0);
          } else if tag == 3 {
            nextFileNumber := Some(n.value.0);
          } else {
            lastSequence := Some(n.value.0);
          }
          rest := Some(n.value.1);
        }
      } else if tag == 5 || tag == 6 || tag == 7 {
        var level := GetLevel(input);
        if level.Some? {
          if tag == 5 {
            var key := GetLengthPrefixedSlice(level.value.1);
            if key.Some? {
              compactPointers := compactPointers + [(level.value.0, key.value.0)];
              rest := Some(key.value.1);
            }
          } else if tag == 6 {
            var number := GetVarint64(level.value.1);
            if number.Some? {
              deletedFiles := deletedFiles + {(level.value.0, number.value.0)};
              rest := Some(number.value.1);
            }
          } else {
            var f := GetFile(level.value.1);
            if f.Some? {
              newFiles := newFiles + [(level.value.0, f.value.0)];
              rest := Some(f.value.1);
            }
          }
        }
      }
    }
  }

  lemma FirstExists(s: set<(nat, nat)>)
    requires s != {}
    ensures exists p :: p in s && forall q :: q in s ==> q == p || Before(p, q)
  {
    var a :| a in s;
    var others := s - {a};
    assert forall q :: q in s ==> q == a || q in others;
    if others != {} {
      FirstExists(others);
      var b :| b in others && forall q :: q in others ==> q == b || Before(b, q);
      var first := if Before(a, b) then a else b;
      assert first in s && forall q :: q in s ==> q == first || Before(first, q);
    }
  }

  /** Encode an edit and decode it into another: what EditRoundTrip says. */
  method EncodeAndDecode(e: VersionEdit, d: VersionEdit) returns (bytes: Bytes, ok: bool)
    requires Fits(e.Contents()) && d != e
    modifies d
    ensures ok && d.Contents() == e.Contents().(compactPointers := old(d.compactPointers) + e.compactPointers)
  {
    hide ReadItems, AllBytes, ItemsOf, Fits;
    ghost var order;
    bytes, order := e.EncodeTo([]);
    EditRoundTrip(d.Contents(), e.Contents(), order);
    assert bytes == AllBytes(ItemsOf(e.Contents(), order));
    ok := d.DecodeFrom(bytes);
  }
}

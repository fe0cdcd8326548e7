/** Browsing the keys table: SCAN to the end, sort, cut one page; and following the pages. */
module Paging {
  import opened Decimal
  import opened Display
  import opened Errors
  import opened RedisStore
  import opened RowWrites
  import opened StatementLaws
  import opened Statements
  import opened Utf8
  import opened Wrappers

  const MAX_ROWS := 500

  // --- sorting --------------------------------------------------------------------------

  /** The order of Rust strings: bytes, left to right. */
  predicate BytesAtMost(a: Bytes, b: Bytes) {
    a == [] || (b != [] && (a[0] < b[0] || (a[0] == b[0] && BytesAtMost(a[1..], b[1..]))))
  }

  predicate AtMost(a: string, b: string) {
    BytesAtMost(Encode(a), Encode(b))
  }

  lemma {:induction false} BytesOrder(a: Bytes, b: Bytes, c: Bytes)
    ensures BytesAtMost(a, b) || BytesAtMost(b, a)
    ensures BytesAtMost(a, b) && BytesAtMost(b, c) ==> BytesAtMost(a, c)
    ensures BytesAtMost(a, b) && BytesAtMost(b, a) ==> a == b
  {
    if a != [] && b != [] {
      BytesOrder(a[1..], b[1..], if c == [] then [] else c[1..]);
      assert a == [a[0]] + a[1..] && b == [b[0]] + b[1..];
    }
  }

  lemma StringOrder(a: string, b: string, c: string)
    ensures AtMost(a, b) || AtMost(b, a)
    ensures AtMost(a, b) && AtMost(b, c) ==> AtMost(a, c)
    ensures AtMost(a, b) && AtMost(b, a) ==> a == b
  {
    BytesOrder(Encode(a), Encode(b), Encode(c));
    EncodeInjective(a, b);
  }

  ghost predicate IsSorted(keys: seq<string>) {
    forall i, j | 0 <= i < j < |keys| :: AtMost(keys[i], keys[j])
  }

  function Insert(key: string, keys: seq<string>): seq<string> {
    if keys == [] || AtMost(key, keys[0]) then [key] + keys
    else [keys[0]] + Insert(key, keys[1..])
  }

  function Sort(keys: seq<string>): seq<string> {
    if keys == [] then [] else Insert(keys[0], Sort(keys[1..]))
  }

  lemma LeastFirst(first: string, rest: seq<string>)
    requires IsSorted(rest) && forall k | k in rest :: AtMost(first, k)
    ensures IsSorted([first] + rest)
  {
    hide AtMost;
  }

  lemma {:induction false} InsertSorts(key: string, keys: seq<string>)
    requires IsSorted(keys)
    ensures IsSorted(Insert(key, keys)) && multiset(Insert(key, keys)) == multiset(keys) + multiset{key}
  {
    hide AtMost, IsSorted;
    if keys == [] || AtMost(key, keys[0]) {
      forall k | k in keys ensures AtMost(key, k) {
        FirstIsLeast(keys, k);
        StringOrder(key, keys[0], k);
      }
      LeastFirst(key, keys);
    } else {
      FirstSplitsOff(keys);
      var rest := Insert(key, keys[1..]);
      InsertSorts(key, keys[1..]);
      StringOrder(key, keys[0], key);
      forall k | k in rest ensures AtMost(keys[0], k) {
        assert k in multiset(rest);
        if k != key {
          FirstIsLeast(keys, k);
        }
      }
      LeastFirst(keys[0], rest);
    }
  }

  lemma {:induction false} SortSorts(keys: seq<string>)
    ensures IsSorted(Sort(keys)) && multiset(Sort(keys)) == multiset(keys)
  {
    if keys != [] {
      SortSorts(keys[1..]);
      InsertSorts(keys[0], Sort(keys[1..]));
      assert keys == [keys[0]] + keys[1..];
    }
  }

  /** The order of the keys: a prefix comes first, and otherwise the first byte that differs decides. */
  lemma {:induction false} FirstDifferenceDecides(a: Bytes, b: Bytes)
    ensures BytesAtMost(a, b) <==>
            a <= b || exists k: nat :: k < |a| && k < |b| && a[..k] == b[..k] && a[k] < b[k]
  {
    if a != [] && b != [] {
      if a[0] == b[0] {
        FirstDifferenceDecides(a[1..], b[1..]);
        TailsDiffer(a, b);
        assert a[1..] <= b[1..] <==> a <= b by {
          assert a == [a[0]] + a[1..] && b == [b[0]] + b[1..];
        }
      } else if a[0] < b[0] {
        assert a[..0] == b[..0];
      } else {
        FrontsDiffer(a, b);
      }
    }
  }

  lemma FrontsDiffer(a: Bytes, b: Bytes)
    requires a != [] && b != [] && a[0] != b[0]
    ensures forall k: nat | 0 < k <= |a| && k <= |b| :: a[..k] != b[..k]
  {
    forall k: nat | 0 < k <= |a| && k <= |b| ensures a[..k] != b[..k] {
      assert a[..k][0] == a[0] && b[..k][0] == b[0];
    }
  }

  lemma TailsDiffer(a: Bytes, b: Bytes)
    requires a != [] && b != [] && a[0] == b[0]
    ensures (exists k: nat :: k < |a| && k < |b| && a[..k] == b[..k] && a[k] < b[k]) <==>
            (exists k: nat :: k < |a[1..]| && k < |b[1..]| && a[1..][..k] == b[1..][..k] && a[1..][k] < b[1..][k])
  {
    if k: nat :| k < |a| && k < |b| && a[..k] == b[..k] && a[k] < b[k] {
      assert a[1..][..k - 1] == a[..k][1..] == b[..k][1..] == b[1..][..k - 1];
      assert a[1..][k - 1] < b[1..][k - 1];
    }
    if k: nat :| k < |a[1..]| && k < |b[1..]| && a[1..][..k] == b[1..][..k] && a[1..][k] < b[1..][k] {
      assert a[..k + 1] == [a[0]] + a[1..][..k] && b[..k + 1] == [b[0]] + b[1..][..k];
      assert a[k + 1] < b[k + 1];
    }
  }

  lemma FirstIsLeast(keys: seq<string>, key: string)
    requires IsSorted(keys) && key in multiset(keys)
    ensures keys != [] && AtMost(keys[0], key)
  {
    var i :| 0 <= i < |keys| && keys[i] == key;
    StringOrder(key, key, key);
  }

  lemma FirstSplitsOff(keys: seq<string>)
    requires keys != []
    ensures keys == [keys[0]] + keys[1..] && multiset(keys[1..]) == multiset(keys) - multiset{keys[0]}
    ensures keys[0] in multiset(keys) && (IsSorted(keys) ==> IsSorted(keys[1..]))
  {
    assert keys == [keys[0]] + keys[1..];
  }

  /** Sorting has one answer, so any sort of the keys is this one. */
  lemma {:induction false} SortedIsUnique(a: seq<string>, b: seq<string>)
    requires IsSorted(a) && IsSorted(b) && multiset(a) == multiset(b)
    ensures a == b
  {
    hide AtMost, IsSorted;
    assert |a| == |multiset(a)| == |multiset(b)| == |b|;
    if a != [] {
      FirstSplitsOff(a);
      FirstSplitsOff(b);
      FirstIsLeast(a, b[0]);
      FirstIsLeast(b, a[0]);
      StringOrder(a[0], b[0], a[0]);
      SortedIsUnique(a[1..], b[1..]);
    }
  }

  // --- SCAN answers ---------------------------------------------------------------------

  datatype RedisValue =
    | NilValue
    | IntValue(n: int)
    | BulkValue(bytes: Bytes)
    | ArrayValue(items: seq<RedisValue>)
    | OtherValue

  /** The answer to one SCAN, of any shape, or the failure of the command. */
  datatype ScanReply = Replied(value: RedisValue) | Failed(kind: ErrorKind)

  /** The cursor is an integer or its decimal text; any other answer reads as 0, the end. */
  function NextCursor(reply: RedisValue): int {
    if !reply.ArrayValue? || reply.items == [] then 0
    else match reply.items[0]
      case IntValue(n) => n
      case BulkValue(bytes) => ParseI64(Lossy(bytes)).GetOr(0)
      case _ => 0
  }

  function BatchKeys(reply: RedisValue): seq<string> {
    if reply.ArrayValue? && |reply.items| > 1 && reply.items[1].ArrayValue? then BulkTexts(reply.items[1].items) else []
  }

  /** The bulk strings among the items, decoded lossily. */
  function BulkTexts(items: seq<RedisValue>): seq<string> {
    if items == [] then []
    else
      var last := items[|items| - 1];
      BulkTexts(items[..|items| - 1]) + if last.BulkValue? then [Lossy(last.bytes)] else []
  }

  method ReadBatch(items: seq<RedisValue>) returns (keys: seq<string>)
    ensures keys == BulkTexts(items)
  {
    keys := [];
    for i := 0 to |items|
      invariant keys == BulkTexts(items[..i])
    {
      assert items[..i + 1][..i] == items[..i];
      if items[i].BulkValue? {
        keys := keys + [Lossy(items[i].bytes)];
      }
    }
    assert items[..|items|] == items;
  }

  method ReadReply(reply: RedisValue) returns (next: int, keys: seq<string>)
    ensures next == NextCursor(reply) && keys == BatchKeys(reply)
  {
    next, keys := 0, [];
    if reply.ArrayValue? {
      if reply.items != [] {
        match reply.items[0]
        case IntValue(n) => next := n;
        case BulkValue(bytes) => next := ParseI64(Lossy(bytes)).GetOr(0);
        case _ =>
      }
      if |reply.items| > 1 && reply.items[1].ArrayValue? {
        keys := ReadBatch(reply.items[1].items);
      }
    }
  }

  /** Every key of the batches up to the cursor 0; a failed or missing answer fails the browse. */
  function Collected(replies: seq<ScanReply>): Result<seq<string>, ErrorKind> {
    if replies == [] then Err(Connection)
    else match replies[0]
      case Failed(kind) => Err(kind)
      case Replied(value) =>
        if NextCursor(value) == 0 then Ok(BatchKeys(value))
        else
          var rest := Collected(replies[1..]);
          if rest.Err? then rest else Ok(BatchKeys(value) + rest.value)
  }

  /** Of a batch the bulk strings are taken, in order, and all else is passed over. */
  lemma {:induction false} BatchItems(items: seq<RedisValue>, others: seq<RedisValue>)
    ensures BulkTexts(items + others) == BulkTexts(items) + BulkTexts(others)
    ensures forall bytes :: BulkTexts([BulkValue(bytes)]) == [Lossy(bytes)]
    ensures forall item: RedisValue | !item.BulkValue? :: BulkTexts([item]) == []
    decreases |others|
  {
    hide Lossy;
    forall item: RedisValue ensures [item][..0] == [] {
    }
    if others == [] {
      assert items + others == items && BulkTexts(items) + [] == BulkTexts(items);
    } else {
      var front := others[..|others| - 1];
      BatchItems(items, front);
      assert (items + others)[..|items + others| - 1] == items + front;
    }
  }

  /** A reply of any other shape has no keys, and anything but a number for its cursor ends the scan. */
  lemma MalformedReplies(reply: RedisValue)
    ensures !reply.ArrayValue? || |reply.items| < 2 || !reply.items[1].ArrayValue? ==> BatchKeys(reply) == []
    ensures
      NextCursor(reply) ==
      if !reply.ArrayValue? || reply.items == [] then 0
      else if reply.items[0].IntValue? then reply.items[0].n
      else if reply.items[0].BulkValue? && ParseI64(Lossy(reply.items[0].bytes)).Some? then
        ParseI64(Lossy(reply.items[0].bytes)).value
      else 0
  {
    hide Lossy, ParseI64;
  }

  // --- whole scans ------------------------------------------------------------------------

  /** One step of a scan as Redis means it: the cursor to go on from, 0 at the end, and keys. */
  datatype ScanPart = ScanPart(cursor: nat, keys: seq<Bytes>)

  /** A scan runs to its end: the cursor 0 comes with the last part and no other. */
  predicate IsWhole(scan: seq<ScanPart>) {
    scan != [] && forall i | 0 <= i < |scan| :: scan[i].cursor == 0 <==> i == |scan| - 1
  }

  function Texts(keys: seq<Bytes>): seq<string> {
    if keys == [] then [] else Texts(keys[..|keys| - 1]) + [Lossy(keys[|keys| - 1])]
  }

  function AllKeys(scan: seq<ScanPart>): seq<string> {
    if scan == [] then [] else Texts(scan[0].keys) + AllKeys(scan[1..])
  }

  function Bulks(keys: seq<Bytes>): (items: seq<RedisValue>)
    ensures |items| == |keys| && forall i | 0 <= i < |keys| :: items[i] == BulkValue(keys[i])
  {
    seq(|keys|, i requires 0 <= i < |keys| => BulkValue(keys[i]))
  }

  /** A reply that carries a part: the cursor as decimal text or, where it fits, as an integer. */
  ghost predicate Carries(reply: ScanReply, part: ScanPart) {
    && reply.Replied? && reply.value.ArrayValue? && |reply.value.items| == 2
    && reply.value.items[1] == ArrayValue(Bulks(part.keys))
    && (|| reply.value.items[0] == BulkValue(Encode(Print(part.cursor)))
        || (part.cursor <= I64_MAX && reply.value.items[0] == IntValue(part.cursor)))
  }

  ghost predicate Delivers(replies: seq<ScanReply>, scan: seq<ScanPart>) {
    |replies| == |scan| && forall i | 0 <= i < |scan| :: Carries(replies[i], scan[i])
  }

  /**
   A part is read as it was meant, with one exception: Redis cursors are
   unsigned 64-bit, and one above the signed range reads as 0.
   */
  lemma PartRead(reply: ScanReply, part: ScanPart)
    requires Carries(reply, part)
    ensures reply.Replied?
    ensures NextCursor(reply.value) == if part.cursor <= I64_MAX then part.cursor else 0
    ensures BatchKeys(reply.value) == Texts(part.keys)
  {
    LossyOfValid(Print(part.cursor));
    ParsePrint(part.cursor);
    BulkTextsAreTexts(part.keys);
    hide Encode, Print, ParseI64, Lossy, BulkTexts;
  }

  lemma {:induction false} BulkTextsAreTexts(keys: seq<Bytes>)
    ensures BulkTexts(Bulks(keys)) == Texts(keys)
  {
    hide Lossy, Bulks;
    if keys != [] {
      var front := keys[..|keys| - 1];
      BulkTextsAreTexts(front);
      assert Bulks(keys)[..|keys| - 1] == Bulks(front);
    }
  }

  /** No key comes after a cursor that the browse cannot read. */
  ghost predicate LosesNothing(scan: seq<ScanPart>) {
    forall i | 0 <= i < |scan| && scan[i].cursor > I64_MAX :: AllKeys(scan[i + 1..]) == []
  }

  /**
   The browse of a whole scan collects a front of its keys, and all of them if and
   only if no key comes after a cursor above the signed range.
   */
  lemma {:induction false} CollectsAllExactly(replies: seq<ScanReply>, scan: seq<ScanPart>)
    requires IsWhole(scan) && Delivers(replies, scan)
    ensures Collected(replies).Ok? && Collected(replies).value <= AllKeys(scan)
    ensures Collected(replies) == Ok(AllKeys(scan)) <==> LosesNothing(scan)
    decreases |scan|
  {
    hide NextCursor, BatchKeys, Carries;
    var rest := scan[1..];
    assert Carries(replies[0], scan[0]);
    PartRead(replies[0], scan[0]);
    if scan[0].cursor == 0 {
      assert rest == [] && AllKeys(rest) == [];
      FrontOfSum(Texts(scan[0].keys), [], []);
    } else if scan[0].cursor > I64_MAX {
      StopLosesRest(scan);
      FrontOfSum(Texts(scan[0].keys), [], AllKeys(rest));
    } else {
      RestIsWhole(replies, scan);
      CollectsAllExactly(replies[1..], rest);
      LosesNothingStep(scan);
      FrontOfSum(Texts(scan[0].keys), Collected(replies[1..]).value, AllKeys(rest));
    }
  }

  lemma FrontOfSum(first: seq<string>, part: seq<string>, whole: seq<string>)
    requires part <= whole
    ensures first + part <= first + whole && (first + part == first + whole <==> part == whole)
    ensures first + [] == first
  {
    assert |first + part| == |first + whole| <==> |part| == |whole|;
  }

  lemma RestIsWhole(replies: seq<ScanReply>, scan: seq<ScanPart>)
    requires IsWhole(scan) && Delivers(replies, scan) && scan[0].cursor != 0
    ensures IsWhole(scan[1..]) && Delivers(replies[1..], scan[1..])
  {
    hide Carries;
    assert forall i | 0 <= i < |scan| - 1 :: scan[1..][i] == scan[i + 1] && replies[1..][i] == replies[i + 1];
  }

  lemma LosesNothingStep(scan: seq<ScanPart>)
    requires scan != [] && scan[0].cursor <= I64_MAX
    ensures LosesNothing(scan) <==> LosesNothing(scan[1..])
  {
    var rest := scan[1..];
    if LosesNothing(rest) {
      forall i | 0 <= i < |scan| && scan[i].cursor > I64_MAX ensures AllKeys(scan[i + 1..]) == [] {
        assert scan[i] == rest[i - 1] && scan[i + 1..] == rest[i..];
      }
    }
    if LosesNothing(scan) {
      forall i | 0 <= i < |rest| && rest[i].cursor > I64_MAX ensures AllKeys(rest[i + 1..]) == [] {
        assert rest[i] == scan[i + 1] && rest[i + 1..] == scan[i + 2..];
      }
    }
  }

  lemma StopLosesRest(scan: seq<ScanPart>)
    requires scan != [] && scan[0].cursor > I64_MAX
    ensures LosesNothing(scan) <==> AllKeys(scan[1..]) == []
  {
    if AllKeys(scan[1..]) == [] {
      forall i | 0 <= i < |scan| && scan[i].cursor > I64_MAX ensures AllKeys(scan[i + 1..]) == [] {
        NoKeysLater(scan[1..], i);
        assert scan[1..][i..] == scan[i + 1..];
      }
    }
  }

  lemma {:induction false} NoKeysLater(scan: seq<ScanPart>, i: nat)
    requires i <= |scan| && AllKeys(scan) == []
    ensures AllKeys(scan[i..]) == []
  {
    if i == 0 {
      assert scan[0..] == scan;
    } else {
      NoKeysLater(scan[1..], i - 1);
      assert scan[1..][i - 1..] == scan[i..];
    }
  }

  /** A scan of one key, all of which is lost. */
  lemma HugeCursorLoses(cursor: nat, key: Bytes, replies: seq<ScanReply>)
    requires cursor > I64_MAX && Delivers(replies, [ScanPart(cursor, []), ScanPart(0, [key])])
    ensures Collected(replies) == Ok([]) && AllKeys([ScanPart(cursor, []), ScanPart(0, [key])]) == [Lossy(key)]
  {
    var first, last := ScanPart(cursor, []), ScanPart(0, [key]);
    hide NextCursor, BatchKeys, Carries, Lossy;
    assert Carries(replies[0], first);
    PartRead(replies[0], first);
    assert Texts([]) == [] && Texts([key]) == [] + [Lossy(key)] by {
      assert [key][..0] == [];
    }
    assert [first, last][1..] == [last] && [last][1..] == [] && AllKeys([]) == [];
    assert AllKeys([last]) == [Lossy(key)] + [];
    hide Collected;
  }

  // --- one page -------------------------------------------------------------------------

  function Min(a: nat, b: nat): nat {
    if a < b then a else b
  }

  function SaturatingAdd(a: nat, b: nat): nat {
    Min(a + b, USIZE_MAX)
  }

  /** `skip(offset)` and `take(limit)`. */
  function Cut(keys: seq<string>, offset: nat, limit: Option<nat>): seq<string> {
    var rest := keys[Min(offset, |keys|)..];
    if limit.Some? then rest[..Min(limit.value, |rest|)] else rest
  }

  datatype Row = Row(key: string, kind: string, value: Option<string>) {
    function Capped(): Row {
      Row(CapCell(key), CapCell(kind), if value.Some? then Some(CapCell(value.value)) else None)
    }
  }

  /** What a row's own commands find: the type of its key and a preview of its value. */
  type Fetch = string -> (string, Option<string>)

  function Rows(fetch: Fetch, keys: seq<string>): (rows: seq<Row>)
    ensures |rows| == |keys|
    ensures forall i | 0 <= i < |keys| :: rows[i] == Row(keys[i], fetch(keys[i]).0, fetch(keys[i]).1)
  {
    seq(|keys|, i requires 0 <= i < |keys| => Row(keys[i], fetch(keys[i]).0, fetch(keys[i]).1))
  }

  function AllCapped(rows: seq<Row>): (r: seq<Row>)
    ensures |r| == |rows| && forall i | 0 <= i < |rows| :: r[i] == rows[i].Capped()
  {
    seq(|rows|, i requires 0 <= i < |rows| => rows[i].Capped())
  }

  /** A browse result: display rows, the same rows in full, and what the host pages and replays by. */
  datatype Page = Page(rows: seq<Row>, fullRows: seq<Row>, hasMore: bool, truncated: bool, statement: string)

  function PageOf(fetch: Fetch, keys: seq<string>, offset: nat, limit: Option<nat>): Page {
    var cut := Cut(keys, offset, limit);
    var shown := Rows(fetch, cut[..Min(|cut|, MAX_ROWS)]);
    Page(AllCapped(shown), shown, SaturatingAdd(offset, |shown|) < |keys|, |cut| > MAX_ROWS, SelectText(offset, limit))
  }

  /** What is collected before reply `next` put in front of what the rest gives. */
  function From(keys: seq<string>, replies: seq<ScanReply>, next: nat): Result<seq<string>, ErrorKind>
    requires next <= |replies|
  {
    var rest := Collected(replies[next..]);
    if rest.Err? then rest else Ok(keys + rest.value)
  }

  lemma FromStart(replies: seq<ScanReply>)
    ensures From([], replies, 0) == Collected(replies)
  {
    assert replies[0..] == replies;
    var all := Collected(replies);
    if all.Ok? {
      assert [] + all.value == all.value;
    }
  }

  lemma FromNext(keys: seq<string>, replies: seq<ScanReply>, next: nat)
    requires next < |replies|
    ensures
      From(keys, replies, next) ==
      match replies[next]
      case Failed(kind) => Err(kind)
      case Replied(value) =>
        if NextCursor(value) == 0 then Ok(keys + BatchKeys(value))
        else From(keys + BatchKeys(value), replies, next + 1)
  {
    hide NextCursor, BatchKeys;
    assert replies[next..][1..] == replies[next + 1..];
    var rest := Collected(replies[next + 1..]);
    if rest.Ok? && replies[next].Replied? {
      var batch := BatchKeys(replies[next].value);
      assert keys + (batch + rest.value) == (keys + batch) + rest.value;
    }
  }

  method BrowsePage(replies: seq<ScanReply>, fetch: Fetch, offset: nat, limit: Option<nat>)
    returns (r: Result<(seq<Row>, nat), ErrorKind>)
    ensures Collected(replies).Err? ==> r == Err(Collected(replies).error)
    ensures Collected(replies).Ok? ==>
      r == Ok((Rows(fetch, Cut(Sort(Collected(replies).value), offset, limit)), |Collected(replies).value|))
    ensures r.Ok? ==>
      && |r.value.0| == PageLength(r.value.1, offset, limit)
      && forall i | 0 <= i < |r.value.0| ::
           && offset + i < |Sort(Collected(replies).value)|
           && r.value.0[i].key == Sort(Collected(replies).value)[offset + i]
  {
    hide NextCursor, BatchKeys, Cut, Sort, Collected, From;
    var keys: seq<string> := [];
    var next := 0;
    FromStart(replies);
    while true
      invariant 0 <= next <= |replies|
      invariant Collected(replies) == From(keys, replies, next)
      decreases |replies| - next
    {
      if next == |replies| {
        FromEnd(keys, replies);
        return Err(Connection);
      }
      FromNext(keys, replies, next);
      if replies[next].Failed? {
        return Err(replies[next].kind);
      }
      var cursor, batch := ReadReply(replies[next].value);
      keys := keys + batch;
      next := next + 1;
      if cursor == 0 {
        break;
      }
    }
    SortSorts(keys);
    var sorted := Sort(keys);
    assert |multiset(sorted)| == |multiset(keys)|;
    var page := Cut(sorted, offset, limit);
    var rows: seq<Row> := [];
    for i := 0 to |page|
      invariant rows == Rows(fetch, page[..i])
    {
      var (kind, value) := fetch(page[i]);
      rows := rows + [Row(page[i], kind, value)];
    }
    assert page[..|page|] == page;
    CutIs(sorted, offset, limit);
    return Ok((rows, |sorted|));
  }

  lemma FromEnd(keys: seq<string>, replies: seq<ScanReply>)
    ensures From(keys, replies, |replies|) == Err(Connection)
  {
  }

  method RunSelect(replies: seq<ScanReply>, fetch: Fetch, offset: nat, limit: Option<nat>)
    returns (r: Result<Page, ErrorKind>)
    ensures r == if Collected(replies).Err? then Err(Collected(replies).error)
                 else Ok(PageOf(fetch, Sort(Collected(replies).value), offset, limit))
  {
    hide Collected, Sort, Cut, SelectText;
    var browsed := BrowsePage(replies, fetch, offset, limit);
    if browsed.Err? {
      return Err(browsed.error);
    }
    var (rows, total) := browsed.value;
    SortSorts(Collected(replies).value);
    assert |multiset(Sort(Collected(replies).value))| == total;
    var shown := if |rows| < MAX_ROWS then |rows| else MAX_ROWS;
    var hasMore := SaturatingAdd(offset, shown) < total;
    var statement := SelectStatement(offset, limit);
    var page := Finalize(rows, hasMore, statement);
    ghost var cut := Cut(Sort(Collected(replies).value), offset, limit);
    assert rows[..shown] == Rows(fetch, cut[..shown]);
    return Ok(page);
  }

  /** The wire result: at most MAX_ROWS rows, shown with capped cells and kept in full. */
  method Finalize(fullRows: seq<Row>, hasMore: bool, statement: string) returns (page: Page)
    ensures
      var kept := fullRows[..Min(|fullRows|, MAX_ROWS)];
      page == Page(AllCapped(kept), kept, hasMore, |fullRows| > MAX_ROWS, statement)
  {
    var truncated := |fullRows| > MAX_ROWS;
    var shown := if truncated then fullRows[..MAX_ROWS] else fullRows;
    assert shown == fullRows[..Min(|fullRows|, MAX_ROWS)];
    page := Page(AllCapped(shown), shown, hasMore, truncated, statement);
  }

  // --- the page, row by row -----------------------------------------------------------------

  /** How many of `n` keys a page from `offset` may show: what is left, within the limit if there is one. */
  function PageLength(n: nat, offset: nat, limit: Option<nat>): nat {
    var left: nat := if offset < n then n - offset else 0;
    if limit.Some? && limit.value < left then limit.value else left
  }

  lemma CutIs(keys: seq<string>, offset: nat, limit: Option<nat>)
    ensures |Cut(keys, offset, limit)| == PageLength(|keys|, offset, limit)
    ensures forall i | 0 <= i < |Cut(keys, offset, limit)| :: Cut(keys, offset, limit)[i] == keys[offset + i]
  {
  }

  /**
   A page, row by row: the keys from the offset on, as many as the limit and 500
   allow, each with its own type and preview, shown in cells of at most 300
   characters; `truncated` when it is the 500 that cut it.
   */
  lemma PageIs(fetch: Fetch, keys: seq<string>, offset: nat, limit: Option<nat>)
    ensures
      var page := PageOf(fetch, keys, offset, limit);
      var length := PageLength(|keys|, offset, limit);
      && |page.rows| == |page.fullRows| == (if length < 500 then length else 500)
      && (page.truncated <==> length > 500)
      && (forall i | 0 <= i < |page.fullRows| ::
            page.fullRows[i] == Row(keys[offset + i], fetch(keys[offset + i]).0, fetch(keys[offset + i]).1))
      && (forall i | 0 <= i < |page.rows| ::
            && page.rows[i].key == CapCell(page.fullRows[i].key)
            && page.rows[i].kind == CapCell(page.fullRows[i].kind)
            && (page.fullRows[i].value == None ==> page.rows[i].value == None)
            && (page.fullRows[i].value.Some? ==> page.rows[i].value == Some(CapCell(page.fullRows[i].value.value))))
  {
    CutIs(keys, offset, limit);
    hide Cut, CapCell;
  }

  // --- what a page shows ------------------------------------------------------------------

  /** TYPE and preview of a key on a store at rest; `collection` previews what is not a string. */
  function FetchPreview(store: Store, collection: Content -> Option<string>, key: string): (string, Option<string>) {
    var k := Encode(key);
    (TypeName(store, k),
     if k !in store then None
     else match store[k]
       case Str(bytes) => Some(Preview(bytes))
       case Other(_, _) => collection(store[k]))
  }

  /** The type shown is the key's own, `none` for a key that is gone, and only a string is previewed as one. */
  lemma FetchIs(store: Store, collection: Content -> Option<string>, key: string)
    ensures
      var (kind, value) := FetchPreview(store, collection, key);
      var k := Encode(key);
      if k !in store then kind == "none" && value == None
      else if store[k].Str? then kind == "string" && value.Some?
      else kind != "string" && kind != "none" && value == collection(store[k])
  {
    hide Encode, Preview;
  }

  /**
   From the browse to the edit: a row of a string key shows the stored value, to
   the byte, exactly when the update guard lets it be edited and it is at most
   1024 bytes long.
   */
  lemma PageShowsEditable(
    store: Store, collection: Content -> Option<string>, keys: seq<string>, offset: nat, limit: Option<nat>, i: nat
  )
    requires
      var page := PageOf(key => FetchPreview(store, collection, key), keys, offset, limit);
      && i < |page.rows| && Encode(page.fullRows[i].key) in store && store[Encode(page.fullRows[i].key)].Str?
    ensures
      var page := PageOf(key => FetchPreview(store, collection, key), keys, offset, limit);
      var stored := store[Encode(page.fullRows[i].key)].bytes;
      && page.rows[i].kind == "string" && page.rows[i].value.Some?
      && (Encode(page.rows[i].value.value) == stored <==> |stored| <= 1024 && EditableText(stored).Some?)
  {
    var page := PageOf(key => FetchPreview(store, collection, key), keys, offset, limit);
    BrowseShowsEditable(store[Encode(page.fullRows[i].key)].bytes);
    hide Encode, EditableText, Preview, Cut;
  }

  // --- following the pages --------------------------------------------------------------

  predicate MakesProgress(limit: Option<nat>) {
    limit.Some? ==> limit.value > 0
  }

  /** Saturating arithmetic decides `has_more` as unbounded arithmetic would. */
  lemma HasMoreIsExact(fetch: Fetch, keys: seq<string>, offset: nat, limit: Option<nat>)
    requires |keys| <= USIZE_MAX
    ensures
      var page := PageOf(fetch, keys, offset, limit);
      var n := |page.fullRows|;
      && (page.hasMore <==> offset + n < |keys|)
      && (offset <= |keys| ==> offset + n <= |keys| && page.fullRows == Rows(fetch, keys[offset..offset + n]))
      && (page.hasMore && MakesProgress(limit) ==> page.fullRows != [])
  {
    if offset <= |keys| {
      var n := |PageOf(fetch, keys, offset, limit).fullRows|;
      var cut := Cut(keys, offset, limit);
      assert cut[..Min(|cut|, MAX_ROWS)] == keys[offset..offset + n];
    }
  }

  /** Every page browses the same keys, each with a scan of its own. */
  ghost predicate Serves(browse: nat -> seq<ScanReply>, keys: seq<string>) {
    forall offset: nat ::
      Collected(browse(offset)).Ok? && multiset(Collected(browse(offset)).value) == multiset(keys)
  }

  /**
   What a host sees that starts at `offset` and goes on by the rows shown while
   there is more. The page at each offset scans again, in whatever order.
   */
  ghost function Follow(
    browse: nat -> seq<ScanReply>, keys: seq<string>, fetch: Fetch, offset: nat, limit: Option<nat>
  ): seq<Row>
    requires |keys| <= USIZE_MAX && offset <= |keys| && MakesProgress(limit) && Serves(browse, keys)
    decreases |keys| - offset
  {
    var page := PageOf(fetch, Sort(Collected(browse(offset)).value), offset, limit);
    SameKeysSameSort(Collected(browse(offset)).value, keys);
    HasMoreIsExact(fetch, Sort(keys), offset, limit);
    if page.hasMore then page.fullRows + Follow(browse, keys, fetch, offset + |page.fullRows|, limit)
    else page.fullRows
  }

  /** Pages of the same keys are cut from the same sorted list, however each scan came. */
  lemma SameKeysSameSort(collected: seq<string>, keys: seq<string>)
    requires multiset(collected) == multiset(keys)
    ensures Sort(collected) == Sort(keys) && |Sort(keys)| == |keys|
  {
    SortSorts(collected);
    SortSorts(keys);
    SortedIsUnique(Sort(collected), Sort(keys));
    assert |multiset(Sort(keys))| == |multiset(keys)|;
  }

  lemma {:induction false} FollowFrom(
    browse: nat -> seq<ScanReply>, keys: seq<string>, fetch: Fetch, offset: nat, limit: Option<nat>
  )
    requires |keys| <= USIZE_MAX && offset <= |keys| && MakesProgress(limit) && Serves(browse, keys)
    ensures |Sort(keys)| == |keys|
    ensures Follow(browse, keys, fetch, offset, limit) == Rows(fetch, Sort(keys)[offset..])
    decreases |keys| - offset
  {
    hide PageOf, Sort, Collected;
    SameKeysSameSort(Collected(browse(offset)).value, keys);
    var sorted := Sort(keys);
    var page := PageOf(fetch, sorted, offset, limit);
    HasMoreIsExact(fetch, sorted, offset, limit);
    var next := offset + |page.fullRows|;
    hide Serves;
    RowsConcat(fetch, sorted, offset, next);
    if page.hasMore {
      FollowFrom(browse, keys, fetch, next, limit);
    } else {
      assert sorted[next..] == [];
    }
  }

  lemma RowsConcat(fetch: Fetch, keys: seq<string>, i: nat, j: nat)
    requires i <= j <= |keys|
    ensures Rows(fetch, keys[i..]) == Rows(fetch, keys[i..j]) + Rows(fetch, keys[j..])
  {
    assert keys[i..] == keys[i..j] + keys[j..];
  }

  /** Each page's replies deliver a whole scan of the keys. */
  ghost predicate ScansAll(browse: nat -> seq<ScanReply>, scans: nat -> seq<ScanPart>, keys: seq<string>) {
    forall offset: nat {:trigger scans(offset)} ::
      && IsWhole(scans(offset)) && Delivers(browse(offset), scans(offset))
      && multiset(AllKeys(scans(offset))) == multiset(keys)
  }

  lemma WholeScansServe(browse: nat -> seq<ScanReply>, scans: nat -> seq<ScanPart>, keys: seq<string>)
    requires ScansAll(browse, scans, keys) && forall offset: nat :: LosesNothing(scans(offset))
    ensures Serves(browse, keys)
  {
    hide Collected, LosesNothing, Delivers, IsWhole, AllKeys;
    forall offset: nat
      ensures Collected(browse(offset)).Ok? && multiset(Collected(browse(offset)).value) == multiset(keys)
    {
      assert LosesNothing(scans(offset));
      CollectsAllExactly(browse(offset), scans(offset));
    }
  }

  /**
   Paging completeness, over a fixed collection of keys that every page scans
   anew: with any page size of at least one, or none, following the pages ends,
   and shows one row for each key of the collection, in sorted order, each as
   often as the scans return it. The condition is that no scan has a key after a
   cursor above the signed range.
   */
  lemma PagesAreComplete(
    browse: nat -> seq<ScanReply>, scans: nat -> seq<ScanPart>, keys: seq<string>, fetch: Fetch, limit: Option<nat>
  )
    requires ScansAll(browse, scans, keys) && forall offset: nat :: LosesNothing(scans(offset))
    requires |keys| <= USIZE_MAX && MakesProgress(limit)
    ensures Serves(browse, keys)
    ensures IsSorted(Sort(keys)) && multiset(Sort(keys)) == multiset(keys)
    ensures Follow(browse, keys, fetch, 0, limit) == Rows(fetch, Sort(keys))
  {
    hide Collected, Follow, Rows, IsSorted, ScansAll, LosesNothing, Serves;
    WholeScansServe(browse, scans, keys);
    SortSorts(keys);
    FollowFrom(browse, keys, fetch, 0, limit);
    assert Sort(keys)[0..] == Sort(keys);
  }

  /** And only then: a browse whose scan loses a key shows fewer rows than there are keys, and says it is all. */
  lemma LosingPageIsShort(replies: seq<ScanReply>, scan: seq<ScanPart>, fetch: Fetch)
    requires IsWhole(scan) && Delivers(replies, scan) && !LosesNothing(scan)
    ensures Collected(replies).Ok?
    ensures |Collected(replies).value| < |AllKeys(scan)|
    ensures
      var page := PageOf(fetch, Sort(Collected(replies).value), 0, None);
      |page.fullRows| < |AllKeys(scan)| && (page.hasMore ==> page.truncated)
  {
    hide Collected, AllKeys, LosesNothing, Sort;
    CollectsAllExactly(replies, scan);
    var found := Collected(replies).value;
    assert Collected(replies) == Ok(found) && found != AllKeys(scan);
    SameKeysSameSort(found, found);
  }

  /** A page size of zero gets nowhere: no rows, and more of them announced for ever. */
  lemma ZeroLimitStalls(fetch: Fetch, keys: seq<string>, offset: nat)
    requires |keys| <= USIZE_MAX
    ensures PageOf(fetch, keys, offset, Some(0)).fullRows == []
    ensures PageOf(fetch, keys, offset, Some(0)).hasMore <==> offset < |keys|
  {
    HasMoreIsExact(fetch, keys, offset, Some(0));
  }

  /** Executing the statement a page reports asks for that very page. */
  lemma PageStatementAsksAgain(fetch: Fetch, keys: seq<string>, offset: nat, limit: Option<nat>)
    requires offset <= USIZE_MAX && (limit.Some? ==> limit.value <= USIZE_MAX)
    ensures ParseStatement(PageOf(fetch, keys, offset, limit).statement) == Ok(SelectKeys(offset, limit))
  {
    SelectRoundTrip(offset, limit);
    hide ParseStatement, SelectText, Cut;
  }
}

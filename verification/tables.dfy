/** The pattern both entry tables are decoded with: `(0..count).map(|_| decode)`
    gives `count` results, each decoded from where the previous one left the
    stream, and `collect::<Result<Vec<_>, _>>()` pulls them in order, stopping
    at the first error. When every entry occupies the same number of bytes the
    outcome is fixed by the entries at the slots `i * size`. */
module Tables {
  import opened Bytes
  import opened Errors
  import opened ElfParsing

  /** The lazily mapped range: item `i` is decoded from the stream that item
      `i - 1` left behind, whether that item succeeded or not. */
  function Items<T>(parse: ContextDecoder<T>, input: seq<Byte>, e: Endianess, w: ArchitectureWidth, count: nat)
    : (r: seq<Result<T>>)
    ensures |r| == count
    ensures count > 0 ==> r[0] == parse(input, e, w)
    decreases count
  {
    if count == 0 then []
    else
      var first := parse(input, e, w);
      [first] + Items(parse, first.rest, e, w, count - 1)
  }

  /** Each later item is decoded from the stream its predecessor left. */
  lemma {:induction false} ItemsThreadTheStream<T>(
    parse: ContextDecoder<T>, input: seq<Byte>, e: Endianess, w: ArchitectureWidth, count: nat, i: nat)
    requires 0 < i < count
    ensures Items(parse, input, e, w, count)[i] == parse(Items(parse, input, e, w, count)[i - 1].rest, e, w)
    decreases i
  {
    var first := parse(input, e, w);
    var tail := Items(parse, first.rest, e, w, count - 1);
    assert Items(parse, input, e, w, count) == [first] + tail;
    if i > 1 {
      ItemsThreadTheStream(parse, first.rest, e, w, count - 1, i - 1);
    }
  }

  /** All of the first `k` items succeeded. */
  predicate AllOk<T>(items: seq<Result<T>>, k: nat)
    requires k <= |items|
  {
    forall i :: 0 <= i < k ==> items[i].Ok?
  }

  /** Collecting pulls the items in order. The first error is the result, and
      the stream stays where that item left it; otherwise the values in order,
      with the stream where the last item left it. */
  function Collect<T>(items: seq<Result<T>>, input: seq<Byte>): (r: Result<seq<T>>)
    ensures r.Ok? <==> AllOk(items, |items|)
    ensures r.Ok? ==> |r.value| == |items| && forall i :: 0 <= i < |items| ==> r.value[i] == items[i].value
    ensures r.Ok? ==> r.rest == if |items| == 0 then input else items[|items| - 1].rest
    ensures r.Err? ==> exists k :: 0 <= k < |items| && AllOk(items, k) && items[k].Err?
                                   && r == Err(items[k].error, items[k].rest)
    decreases |items|
  {
    if |items| == 0 then Ok([], input)
    else
      match items[0]
      case Err(error, rest) => Err(error, rest)
      case Ok(first, rest) =>
        var more :- Collect(items[1..], rest);
        Ok([first] + more.value, more.rest)
  }

  /** The decoder always consumes `size` bytes when it succeeds. */
  ghost predicate FixedSize<T>(parse: ContextDecoder<T>, e: Endianess, w: ArchitectureWidth, size: nat)
  {
    forall s :: parse(s, e, w).Ok? ==> |s| >= size && parse(s, e, w).rest == s[size..]
  }

  /** Where slot `i` starts: `i` whole slots in. Defined by repeated
      addition so that the table proofs stay linear. */
  function Offset(i: nat, size: nat): nat
  {
    if i == 0 then 0 else Offset(i - 1, size) + size
  }

  lemma {:induction false} OffsetIsProduct(i: nat, size: nat)
    ensures Offset(i, size) == i * size
  {
    if i > 0 {
      OffsetIsProduct(i - 1, size);
      assert (i - 1) * size + size == i * size;
    }
  }

  /** The decode of the entry in slot `i`; a slot past the end of the input
      is missing. */
  function Slot<T>(parse: ContextDecoder<T>, input: seq<Byte>, e: Endianess, w: ArchitectureWidth, size: nat, i: nat)
    : Result<T>
  {
    if Offset(i, size) <= |input| then parse(input[Offset(i, size)..], e, w) else Err(MissingData, [])
  }

  /** Slot `i + 1` of the input is slot `i` of what the first slot leaves. */
  lemma {:induction false} SlotAfterFirst<T>(
    parse: ContextDecoder<T>, input: seq<Byte>, e: Endianess, w: ArchitectureWidth, size: nat, i: nat)
    requires |input| >= size
    ensures Offset(i + 1, size) == size + Offset(i, size)
    ensures Slot(parse, input, e, w, size, i + 1) == Slot(parse, input[size..], e, w, size, i)
  {
    OffsetShift(i, size);
    if Offset(i + 1, size) <= |input| {
      assert input[Offset(i + 1, size)..] == input[size..][Offset(i, size)..];
    }
  }

  lemma {:induction false} OffsetShift(i: nat, size: nat)
    ensures Offset(i + 1, size) == size + Offset(i, size)
  {
    if i > 0 {
      OffsetShift(i - 1, size);
    }
  }

  /** While the earlier items succeed, each item is the entry in its slot,
      and the stream has advanced by whole slots. */
  lemma {:induction false} ItemsAreSlots<T>(
    parse: ContextDecoder<T>, input: seq<Byte>, e: Endianess, w: ArchitectureWidth, count: nat, size: nat, k: nat)
    requires FixedSize(parse, e, w, size)
    requires k < count
    requires AllOk(Items(parse, input, e, w, count), k)
    ensures Offset(k, size) <= |input|
    ensures Items(parse, input, e, w, count)[k] == Slot(parse, input, e, w, size, k)
    decreases k
  {
    var items := Items(parse, input, e, w, count);
    if k > 0 {
      var first := parse(input, e, w);
      assert items[0] == first && first.Ok?;
      var tail := Items(parse, first.rest, e, w, count - 1);
      assert items == [first] + tail;
      assert first.rest == input[size..];
      assert AllOk(tail, k - 1) by {
        forall i | 0 <= i < k - 1 ensures tail[i].Ok? {
          assert tail[i] == items[i + 1];
        }
      }
      ItemsAreSlots(parse, first.rest, e, w, count - 1, size, k - 1);
      SlotAfterFirst(parse, input, e, w, size, k - 1);
    }
  }

  /** Every item that follows only successes is the entry in its slot. */
  lemma ItemsUpToFailureAreSlots<T>(
    parse: ContextDecoder<T>, input: seq<Byte>, e: Endianess, w: ArchitectureWidth, count: nat, size: nat)
    requires FixedSize(parse, e, w, size)
    ensures var items := Items(parse, input, e, w, count);
      forall k :: 0 <= k < count && AllOk(items, k) ==> items[k] == Slot(parse, input, e, w, size, k)
  {
    var items := Items(parse, input, e, w, count);
    forall k | 0 <= k < count && AllOk(items, k)
      ensures items[k] == Slot(parse, input, e, w, size, k)
    {
      ItemsAreSlots(parse, input, e, w, count, size, k);
    }
  }

  /** The table is read completely exactly when every slot decodes. */
  lemma TableOkIffSlotsOk<T>(
    parse: ContextDecoder<T>, input: seq<Byte>, e: Endianess, w: ArchitectureWidth, count: nat, size: nat)
    requires FixedSize(parse, e, w, size)
    ensures Collect(Items(parse, input, e, w, count), input).Ok?
        <==> forall i :: 0 <= i < count ==> Slot(parse, input, e, w, size, i).Ok?
  {
    var items := Items(parse, input, e, w, count);
    var r := Collect(items, input);
    if r.Ok? {
      ItemsUpToFailureAreSlots(parse, input, e, w, count, size);
      forall i | 0 <= i < count ensures Slot(parse, input, e, w, size, i).Ok? {
        assert AllOk(items, i);
      }
    } else {
      var k :| 0 <= k < count && AllOk(items, k) && items[k].Err? && r == Err(items[k].error, items[k].rest);
      ItemsAreSlots(parse, input, e, w, count, size, k);
    }
  }

  /** A complete table holds the slot values in order and ends the stream
      after the last slot. */
  lemma TableValues<T>(
    parse: ContextDecoder<T>, input: seq<Byte>, e: Endianess, w: ArchitectureWidth, count: nat, size: nat)
    requires FixedSize(parse, e, w, size)
    requires Collect(Items(parse, input, e, w, count), input).Ok?
    ensures var r := Collect(Items(parse, input, e, w, count), input);
      && |input| >= Offset(count, size) && r.rest == input[Offset(count, size)..]
      && |r.value| == count
      && forall i :: 0 <= i < count ==> Slot(parse, input, e, w, size, i).Ok? && r.value[i] == Slot(parse, input, e, w, size, i).value
  {
    var items := Items(parse, input, e, w, count);
    ItemsUpToFailureAreSlots(parse, input, e, w, count, size);
    forall i | 0 <= i < count ensures items[i] == Slot(parse, input, e, w, size, i) {
      assert AllOk(items, i);
    }
    if count > 0 {
      ItemsAreSlots(parse, input, e, w, count, size, count - 1);
      assert input[Offset(count - 1, size)..][size..] == input[Offset(count, size)..];
    }
  }

  /** A property every successful decode has, every value of a complete
      table has. */
  lemma TableKeeps<T>(
    parse: ContextDecoder<T>, input: seq<Byte>, e: Endianess, w: ArchitectureWidth, count: nat, size: nat,
    p: T -> bool)
    requires FixedSize(parse, e, w, size)
    requires forall s :: parse(s, e, w).Ok? ==> p(parse(s, e, w).value)
    requires Collect(Items(parse, input, e, w, count), input).Ok?
    ensures var r := Collect(Items(parse, input, e, w, count), input);
      forall i :: 0 <= i < count ==> p(r.value[i])
  {
    TableValues(parse, input, e, w, count, size);
  }

  /** An incomplete table fails with the error of the first failing slot,
      exactly where that slot left the stream; later slots are not read. */
  lemma TableFirstFailure<T>(
    parse: ContextDecoder<T>, input: seq<Byte>, e: Endianess, w: ArchitectureWidth, count: nat, size: nat)
    requires FixedSize(parse, e, w, size)
    requires Collect(Items(parse, input, e, w, count), input).Err?
    ensures var r := Collect(Items(parse, input, e, w, count), input);
      exists k :: (&& 0 <= k < count
                   && (forall i :: 0 <= i < k ==> Slot(parse, input, e, w, size, i).Ok?)
                   && Slot(parse, input, e, w, size, k) == Err(r.error, r.rest))
  {
    var items := Items(parse, input, e, w, count);
    var r := Collect(items, input);
    ItemsUpToFailureAreSlots(parse, input, e, w, count, size);
    var k :| 0 <= k < count && AllOk(items, k) && items[k].Err? && r == Err(items[k].error, items[k].rest);
    forall i | 0 <= i < k ensures Slot(parse, input, e, w, size, i).Ok? {
      assert AllOk(items, i);
    }
  }

  /** No entries to read: an empty table and nothing consumed. */
  lemma EmptyTable<T>(parse: ContextDecoder<T>, input: seq<Byte>, e: Endianess, w: ArchitectureWidth)
    ensures Collect(Items(parse, input, e, w, 0), input) == Ok([], input)
  {
  }
}

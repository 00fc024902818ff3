/** The byte layout of a legacy `.arc` string-table patch, as pure functions
    over the whole buffer and a read offset: the reference definitions the
    imperative decoder in module Dispatcher is proved against, and the
    properties of that layout. */
module Layout {
  import opened Bytes

  datatype Option<T> = None | Some(value: T)

  /** The only error `read_exact` on an in-memory cursor reports. */
  datatype IoError = UnexpectedEof

  /** How a deserializer ends: it returns `Ok`, it returns `Err` (through
      `?`), or the `assert_eq!` on the length-extension byte panics with
      the byte it found. */
  datatype Outcome<T> = Ok(value: T) | Err(error: IoError) | Panic(left: byte)

  /** How `main` ends, independently of what it decoded. */
  datatype Exit = Success | Failed(error: IoError) | Panicked(left: byte)

  function ExitOf<T>(o: Outcome<T>): Exit
  {
    match o
    case Ok(_) => Success
    case Err(e) => Failed(e)
    case Panic(x) => Panicked(x)
  }

  /** `MagicHeader`: the 8 marker bytes, the item count and an opaque
      32-bit value kept verbatim. */
  datatype MagicHeader = MagicHeader(header: seq<byte>, itemCount: u32, assumeMagicNumber: u32)

  /** `StringTableItem`: `data` is the Shift-JIS text, as the complemented
      bytes that are handed to `SHIFT_JIS.decode`. */
  datatype StringTableItem = StringTableItem(id: u32, length: byte, assumeLengthExt: byte, data: seq<byte>)

  const HeaderSize: nat := 16
  /** id (4 bytes), length (1 byte), length extension (1 byte). */
  const ItemFixedSize: nat := 6

  /** The header at offset `p`: bytes 0-7 the marker, 8-11 the item count,
      12-15 the magic number. A header always takes HeaderSize bytes. */
  function ParseHeader(d: seq<byte>, p: nat): Outcome<MagicHeader>
    requires p <= |d|
  {
    if |d| - p < HeaderSize then Err(UnexpectedEof)
    else Ok(MagicHeader(d[p..p + 8], LeU32(d[p + 8..p + 12]), LeU32(d[p + 12..p + 16])))
  }

  /** The bytes an item occupies: its fixed fields and its text, nothing
      for alignment. */
  function ItemSize(it: StringTableItem): nat
  {
    ItemFixedSize + it.length as int
  }

  /** Where `StringTableItem::deserialize` leaves the cursor that started
      at `p`: past the text on success, past the length extension when the
      `assert_eq!` panics, at the end of the buffer after a short read. */
  function ItemEnd(r: Outcome<StringTableItem>, p: nat, len: nat): nat
  {
    match r
    case Ok(it) => p + ItemSize(it)
    case Panic(_) => p + ItemFixedSize
    case Err(_) => len
  }

  /** The item at offset `p`; it ends ItemSize bytes further on. The
      length extension byte is checked as soon as the fixed fields are in,
      before the text is read; the text is complemented before it is
      decoded. */
  function ParseItem(d: seq<byte>, p: nat): (r: Outcome<StringTableItem>)
    requires p <= |d|
    ensures r.Ok? ==> p + ItemSize(r.value) <= |d|
  {
    if |d| - p < ItemFixedSize then Err(UnexpectedEof)
    else if d[p + 5] != 0 then Panic(d[p + 5])
    else
      var n := d[p + 4] as int;
      if |d| - (p + ItemFixedSize) < n then Err(UnexpectedEof)
      else
        var text := Complement(d[p + ItemFixedSize..p + ItemFixedSize + n]);
        Ok(StringTableItem(LeU32(d[p..p + 4]), d[p + 4], d[p + 5], text))
  }

  /** The items decoded before stopping, and how the run stopped (with the
      end offset when all were decoded). */
  datatype Run = Run(items: seq<StringTableItem>, status: Outcome<nat>)

  /** A run preceded by one more decoded item. */
  function Prepend(it: StringTableItem, r: Run): Run
  {
    Run([it] + r.items, r.status)
  }

  /** A successful run followed by the outcome of reading one more item. */
  function Extend(r: Run, o: Outcome<StringTableItem>): Run
    requires r.status.Ok?
  {
    match o
    case Ok(it) => Run(r.items + [it], Ok(r.status.value + ItemSize(it)))
    case Err(e) => Run(r.items, Err(e))
    case Panic(x) => Run(r.items, Panic(x))
  }

  /** `k` items back to back from offset `p`; the first failing item ends
      the run. */
  function ParseItems(d: seq<byte>, p: nat, k: nat): Run
    requires p <= |d|
    decreases k
  {
    if k == 0 then Run([], Ok(p))
    else
      match ParseItem(d, p)
      case Ok(it) => Prepend(it, ParseItems(d, p + ItemSize(it), k - 1))
      case Err(e) => Run([], Err(e))
      case Panic(x) => Run([], Panic(x))
  }

  /** What `main` writes out: the header once it is decoded, every item
      decoded before the run stopped, and how it stopped. */
  datatype Transcript = Transcript(header: Option<MagicHeader>, items: seq<StringTableItem>, exit: Exit)

  /** The whole decode: a header at offset 0, then `item_count` items. */
  function Decode(d: seq<byte>): Transcript
  {
    match ParseHeader(d, 0)
    case Ok(h) =>
      var run := ParseItems(d, HeaderSize, h.itemCount as nat);
      Transcript(Some(h), run.items, ExitOf(run.status))
    case Err(e) => Transcript(None, [], Failed(e))
    case Panic(x) => Transcript(None, [], Panicked(x))
  }

  /** Total size of items laid out back to back. */
  function Span(items: seq<StringTableItem>): nat
  {
    if items == [] then 0 else ItemSize(items[0]) + Span(items[1..])
  }

  /** Item `j` of `items` is the item found right after items 0..j-1,
      starting at offset `p`. */
  ghost predicate LaidOut(d: seq<byte>, p: nat, items: seq<StringTableItem>)
  {
    forall j :: 0 <= j < |items| ==>
      p + Span(items[..j]) <= |d| &&
      ParseItem(d, p + Span(items[..j])) == Ok(items[j])
  }

  /** A slice of a slice is a slice of the original. */
  lemma SliceOfSlice(d: seq<byte>, p: nat, q: nat, i: nat, j: nat)
    requires p <= q <= |d| && i <= j <= q - p
    ensures d[p..q][i..j] == d[p + i..p + j]
  {
    forall k | 0 <= k < j - i
      ensures d[p..q][i..j][k] == d[p + i..p + j][k]
    {
    }
  }

  /** The three parts of a concatenation are its slices. */
  lemma PartsOfConcat(a: seq<byte>, b: seq<byte>, c: seq<byte>)
    ensures (a + b + c)[..|a|] == a
    ensures (a + b + c)[|a|..|a| + |b|] == b
    ensures (a + b + c)[|a| + |b|..] == c
  {
  }

  /** The two halves of a concatenation found at `p` are found at `p` and
      right after the first. */
  lemma SplitSlice(d: seq<byte>, p: nat, a: seq<byte>, b: seq<byte>)
    requires p + |a| + |b| <= |d| && d[p..p + |a| + |b|] == a + b
    ensures d[p..p + |a|] == a && d[p + |a|..p + |a| + |b|] == b
  {
    assert a + b + [] == a + b;
    PartsOfConcat(a, b, []);
    SliceOfSlice(d, p, p + |a| + |b|, 0, |a|);
    SliceOfSlice(d, p, p + |a| + |b|, |a|, |a| + |b|);
  }

  // ---------------------------------------------------------------------
  // Header

  /** The header is the 16 bytes at `p`, field by field; it fails exactly
      when fewer than 16 bytes remain. */
  lemma HeaderFields(d: seq<byte>, p: nat)
    requires p <= |d|
    ensures ParseHeader(d, p).Ok? <==> |d| - p >= 16
    ensures ParseHeader(d, p).Err? <==> |d| - p < 16
    ensures ParseHeader(d, p).Ok? ==>
      var h := ParseHeader(d, p).value;
      p + HeaderSize <= |d| && |h.header| == 8 && h.header == d[p..p + 8] &&
      h.itemCount == LeU32(d[p + 8..p + 12]) && h.assumeMagicNumber == LeU32(d[p + 12..p + 16])
  {
  }

  /** The bytes of a header: the inverse of ParseHeader. */
  function HeaderImage(h: MagicHeader): seq<byte>
  {
    h.header + U32Le(h.itemCount) + U32Le(h.assumeMagicNumber)
  }

  /** A header is read back from its 16 bytes, and a decoded header is
      exactly the bytes it was read from: the two directions of the
      round trip. */
  lemma HeaderRoundTrip(d: seq<byte>, p: nat, h: MagicHeader)
    requires p <= |d| && |h.header| == 8
    ensures ParseHeader(d, p) == Ok(h) <==> p + 16 <= |d| && d[p..p + 16] == HeaderImage(h)
  {
    if p + 16 <= |d| {
      var img := HeaderImage(h);
      var c, m := U32Le(h.itemCount), U32Le(h.assumeMagicNumber);
      PartsOfConcat(h.header, c, m);
      SliceOfSlice(d, p, p + 16, 0, 8);
      SliceOfSlice(d, p, p + 16, 8, 12);
      SliceOfSlice(d, p, p + 16, 12, 16);
      if d[p..p + 16] == img {
        LeU32OfU32Le(h.itemCount);
        LeU32OfU32Le(h.assumeMagicNumber);
      }
      if ParseHeader(d, p) == Ok(h) {
        U32LeOfLeU32(d[p + 8..p + 12]);
        U32LeOfLeU32(d[p + 12..p + 16]);
        assert d[p..p + 16] == d[p..p + 8] + d[p + 8..p + 12] + d[p + 12..p + 16];
      }
    }
  }

  // ---------------------------------------------------------------------
  // Items

  /** The fixed fields of a decoded item are its first six bytes; the
      extension byte is zero; its text is the complement of the `length`
      bytes that follow, handed to the decoder; the item ends right after
      them, with no padding counted. */
  lemma ItemFields(d: seq<byte>, p: nat)
    requires p <= |d|
    requires ParseItem(d, p).Ok?
    ensures var it := ParseItem(d, p).value; var q := p + ItemSize(it);
      q == p + 6 + d[p + 4] as int && q <= |d| &&
      it.id == LeU32(d[p..p + 4]) && it.length == d[p + 4] && it.assumeLengthExt == d[p + 5] == 0 &&
      it.data == Complement(d[p + 6..q]) && |it.data| == it.length as int
  {
  }

  /** Which failure an item read ends with: too few bytes for the fixed
      fields is an EOF error; otherwise a non-zero extension byte panics,
      whether or not the text is complete; otherwise too few bytes for the
      text is an EOF error. */
  lemma ItemFailures(d: seq<byte>, p: nat)
    requires p <= |d|
    ensures |d| - p < 6 ==> ParseItem(d, p) == Err(UnexpectedEof)
    ensures |d| - p >= 6 && d[p + 5] != 0 ==> ParseItem(d, p) == Panic(d[p + 5])
    ensures |d| - p >= 6 && d[p + 5] == 0 && |d| - p < 6 + d[p + 4] as int ==>
      ParseItem(d, p) == Err(UnexpectedEof)
    ensures ParseItem(d, p).Ok? <==>
      |d| - p >= 6 && d[p + 5] == 0 && |d| - p >= 6 + d[p + 4] as int
  {
  }

  /** A text short enough for the one-byte `length` field. */
  type Plain = s: seq<byte> | |s| < 0x100

  /** The bytes of an item whose text, once complemented, is `plain`: the
      inverse of ParseItem. */
  function ItemImage(id: u32, plain: Plain): seq<byte>
  {
    U32Le(id) + [|plain| as byte, 0] + Complement(plain)
  }

  /** The item decoded from an item image. */
  function ImageItem(id: u32, plain: Plain): StringTableItem
  {
    StringTableItem(id, |plain| as byte, 0, plain)
  }

  /** An item image is decoded back to its id and text, whatever follows it. */
  lemma ItemRoundTrip(d: seq<byte>, p: nat, id: u32, plain: Plain)
    requires p + 6 + |plain| <= |d| && d[p..p + 6 + |plain|] == ItemImage(id, plain)
    ensures ParseItem(d, p) == Ok(ImageItem(id, plain))
    ensures ItemSize(ImageItem(id, plain)) == 6 + |plain|
  {
    var n := |plain|;
    var q := p + 6 + n;
    var fixed: seq<byte> := [n as byte, 0];
    PartsOfConcat(U32Le(id), fixed, Complement(plain));
    SliceOfSlice(d, p, q, 0, 4);
    SliceOfSlice(d, p, q, 4, 6);
    SliceOfSlice(d, p, q, 6, 6 + n);
    assert d[p + 4..p + 6] == fixed;
    assert d[p + 4] == d[p + 4..p + 6][0] == n as byte;
    assert d[p + 5] == d[p + 4..p + 6][1] == 0;
    LeU32OfU32Le(id);
    ComplementInvolution(plain);
    assert Complement(d[p + 6..q]) == plain;
    assert LeU32(d[p..p + 4]) == id;
    assert d[p + 4] as int == n;
  }

  /** A decoded item is the image of its id and of its complemented text:
      the other direction of the round trip. */
  lemma ItemImageOfParse(d: seq<byte>, p: nat)
    requires p <= |d| && ParseItem(d, p).Ok?
    ensures var it := ParseItem(d, p).value; var q := p + ItemSize(it);
      var plain := Complement(d[p + 6..q]);
      |plain| == it.length as int && d[p..q] == ItemImage(it.id, plain) && it == ImageItem(it.id, plain)
  {
    var it := ParseItem(d, p).value;
    var q := p + ItemSize(it);
    var raw := d[p + 6..q];
    var plain := Complement(raw);
    ComplementInvolution(raw);
    U32LeOfLeU32(d[p..p + 4]);
    assert (|plain| as byte) == d[p + 4];
    assert d[p..q] == d[p..p + 4] + [d[p + 4], d[p + 5]] + raw;
  }

  /** Worked example: id 1, length 2, text 0xBE 0xBD, which complements to
      the Shift-JIS bytes of "AB". */
  lemma ItemExample()
    ensures ParseItem([0x01, 0x00, 0x00, 0x00, 0x02, 0x00, 0xBE, 0xBD], 0)
      == Ok(StringTableItem(1, 2, 0, [0x41, 0x42]))
  {
    var d: seq<byte> := [0x01, 0x00, 0x00, 0x00, 0x02, 0x00, 0xBE, 0xBD];
    assert Complement(d[6..8]) == [0x41, 0x42];
  }

  /** Worked example: a stored text ending in 0xF5 0xFF decodes from bytes
      ending in a line feed and a NUL. */
  lemma TerminatedItemExample()
    ensures ParseItem([0x07, 0x00, 0x00, 0x00, 0x03, 0x00, 0xBE, 0xF5, 0xFF], 0)
      == Ok(StringTableItem(7, 3, 0, [0x41, 0x0A, 0x00]))
  {
    var d: seq<byte> := [0x07, 0x00, 0x00, 0x00, 0x03, 0x00, 0xBE, 0xF5, 0xFF];
    assert Complement(d[6..9]) == [0x41, 0x0A, 0x00];
  }

  /** Worked example: an item of length 0 takes just its six fixed bytes
      and hands the decoder no bytes at all. */
  lemma EmptyItemExample()
    ensures ParseItem([0x2A, 0x00, 0x00, 0x00, 0x00, 0x00, 0x99], 0)
      == Ok(StringTableItem(42, 0, 0, []))
  {
    var d: seq<byte> := [0x2A, 0x00, 0x00, 0x00, 0x00, 0x00, 0x99];
    assert Complement(d[6..6]) == [];
  }

  /** Worked example: a non-zero extension byte panics even though the
      text it announces is missing. */
  lemma ReservedByteExample()
    ensures ParseItem([0x01, 0x00, 0x00, 0x00, 0x10, 0x01], 0) == Panic(0x01)
  {
  }

  // ---------------------------------------------------------------------
  // The item loop

  /** An item followed by items laid out right after it are laid out. */
  lemma LaidOutCons(d: seq<byte>, p: nat, it: StringTableItem, rest: seq<StringTableItem>)
    requires p <= |d| && ParseItem(d, p) == Ok(it)
    requires LaidOut(d, p + ItemSize(it), rest)
    ensures LaidOut(d, p, [it] + rest)
    ensures Span([it] + rest) == ItemSize(it) + Span(rest)
  {
    var items := [it] + rest;
    assert items[1..] == rest;
    forall j | 0 <= j < |items|
      ensures p + Span(items[..j]) <= |d|
      ensures ParseItem(d, p + Span(items[..j])) == Ok(items[j])
    {
      if j > 0 {
        assert items[..j][0] == it && items[..j][1..] == rest[..j - 1];
        assert Span(items[..j]) == ItemSize(it) + Span(rest[..j - 1]);
        assert items[j] == rest[j - 1];
      }
    }
  }

  /** A run whose first item decodes is that item in front of the run
      that starts right after it. */
  lemma ItemsCons(d: seq<byte>, p: nat, k: nat, it: StringTableItem)
    requires p <= |d| && k > 0 && ParseItem(d, p) == Ok(it)
    ensures p + ItemSize(it) <= |d|
    ensures ParseItems(d, p, k) == Prepend(it, ParseItems(d, p + ItemSize(it), k - 1))
  {
  }

  /** Reading one more item after a run with an item in front of it. */
  lemma ExtendPrepend(it: StringTableItem, r: Run, o: Outcome<StringTableItem>)
    requires r.status.Ok?
    ensures Extend(Prepend(it, r), o) == Prepend(it, Extend(r, o))
  {
    if o.Ok? {
      assert [it] + (r.items + [o.value]) == ([it] + r.items) + [o.value];
    }
  }

  /** A successful run of `k` items followed by one more read: the run of
      `k + 1` items either has that item appended or stops with its
      failure after the first `k`. This is the step of `main`'s loop. */
  lemma {:induction false} ItemsSnoc(d: seq<byte>, p: nat, k: nat)
    requires p <= |d| && ParseItems(d, p, k).status.Ok?
    ensures ParseItems(d, p, k).status.value <= |d|
    ensures var r := ParseItems(d, p, k);
      ParseItems(d, p, k + 1) == Extend(r, ParseItem(d, r.status.value))
    decreases k
  {
    if k > 0 {
      var it := ParseItem(d, p).value;
      var q := p + ItemSize(it);
      ItemsSnoc(d, q, k - 1);
      var rest := ParseItems(d, q, k - 1);
      ExtendPrepend(it, rest, ParseItem(d, rest.status.value));
    }
  }

  /** Once a run has stopped, asking for more items changes nothing: the
      first failing item aborts the whole decode. */
  lemma {:induction false} ItemsAfterStop(d: seq<byte>, p: nat, k: nat, m: nat)
    requires p <= |d| && k <= m && !ParseItems(d, p, k).status.Ok?
    ensures ParseItems(d, p, m) == ParseItems(d, p, k)
    decreases k
  {
    if ParseItem(d, p).Ok? {
      var it := ParseItem(d, p).value;
      ItemsAfterStop(d, p + ItemSize(it), k - 1, m - 1);
    }
  }

  /** A run of `k` items from `p` stays within the buffer, and when it
      succeeds it has exactly `k` items and ends right after them. */
  lemma {:induction false} ItemsCount(d: seq<byte>, p: nat, k: nat)
    requires p <= |d|
    ensures var r := ParseItems(d, p, k);
      p + Span(r.items) <= |d| &&
      (r.status.Ok? ==> |r.items| == k && r.status.value == p + Span(r.items))
    decreases k
  {
    var r := ParseItems(d, p, k);
    if k != 0 && ParseItem(d, p).Ok? {
      var it := ParseItem(d, p).value;
      var q := p + ItemSize(it);
      ItemsCount(d, q, k - 1);
      var rest := ParseItems(d, q, k - 1);
      assert r == Run([it] + rest.items, rest.status);
      assert ([it] + rest.items)[1..] == rest.items;
    }
  }

  /** The items of a run are laid out back to back from `p`, in the order
      they occur in the buffer. */
  lemma {:induction false} ItemsLaidOut(d: seq<byte>, p: nat, k: nat)
    requires p <= |d|
    ensures LaidOut(d, p, ParseItems(d, p, k).items)
    decreases k
  {
    var r := ParseItems(d, p, k);
    if k != 0 && ParseItem(d, p).Ok? {
      var it := ParseItem(d, p).value;
      var q := p + ItemSize(it);
      ItemsLaidOut(d, q, k - 1);
      var rest := ParseItems(d, q, k - 1);
      assert r == Run([it] + rest.items, rest.status);
      LaidOutCons(d, p, it, rest.items);
    }
  }

  /** A run that fails has fewer than `k` items, and the item right after
      them is the one whose failure it reports: the first failing item
      ends the run. */
  lemma {:induction false} ItemsStop(d: seq<byte>, p: nat, k: nat)
    requires p <= |d|
    ensures var r := ParseItems(d, p, k);
      !r.status.Ok? ==>
        |r.items| < k && p + Span(r.items) <= |d| &&
        ExitOf(ParseItem(d, p + Span(r.items))) == ExitOf(r.status)
    decreases k
  {
    var r := ParseItems(d, p, k);
    if k != 0 && ParseItem(d, p).Ok? {
      var it := ParseItem(d, p).value;
      var q := p + ItemSize(it);
      ItemsStop(d, q, k - 1);
      var rest := ParseItems(d, q, k - 1);
      assert r == Run([it] + rest.items, rest.status);
      assert ([it] + rest.items)[1..] == rest.items;
    }
  }

  /** An item to lay out: its id and its text before complementing. */
  datatype Entry = Entry(id: u32, plain: Plain)

  /** Consecutive item images, one per entry. */
  function TableImage(es: seq<Entry>): seq<byte>
  {
    if es == [] then [] else ItemImage(es[0].id, es[0].plain) + TableImage(es[1..])
  }

  /** The items decoded from consecutive item images. */
  function ImageItems(es: seq<Entry>): (items: seq<StringTableItem>)
    ensures |items| == |es|
  {
    if es == [] then [] else [ImageItem(es[0].id, es[0].plain)] + ImageItems(es[1..])
  }

  /** The item images of `es` are found one after the other from `p`. */
  ghost predicate ImagesAt(d: seq<byte>, p: nat, es: seq<Entry>)
    decreases |es|
  {
    es == [] ||
    var img := ItemImage(es[0].id, es[0].plain);
    p + |img| <= |d| && d[p..p + |img|] == img && ImagesAt(d, p + |img|, es[1..])
  }

  /** A table image found at `p` is its item images found one after the other. */
  lemma {:induction false} TableImageAt(d: seq<byte>, p: nat, es: seq<Entry>)
    requires p + |TableImage(es)| <= |d| && d[p..p + |TableImage(es)|] == TableImage(es)
    ensures ImagesAt(d, p, es)
    decreases |es|
  {
    if es != [] {
      var img := ItemImage(es[0].id, es[0].plain);
      var tail := TableImage(es[1..]);
      SplitSlice(d, p, img, tail);
      TableImageAt(d, p + |img|, es[1..]);
    }
  }

  /** The first of the item images found at `p` is decoded back, and the
      rest are found right after it. */
  lemma ImageStep(d: seq<byte>, p: nat, es: seq<Entry>)
    requires p <= |d| && es != [] && ImagesAt(d, p, es)
    ensures var it := ImageItem(es[0].id, es[0].plain);
      ParseItem(d, p) == Ok(it) && ItemSize(it) == |ItemImage(es[0].id, es[0].plain)| &&
      p + ItemSize(it) <= |d| && ImagesAt(d, p + ItemSize(it), es[1..])
  {
    ItemRoundTrip(d, p, es[0].id, es[0].plain);
  }

  /** Item images found one after the other are decoded back, all of them
      and in order, and the run ends right after the last one. */
  lemma {:induction false} ItemsOfImages(d: seq<byte>, p: nat, es: seq<Entry>)
    requires p <= |d| && ImagesAt(d, p, es)
    ensures var r := ParseItems(d, p, |es|);
      r.items == ImageItems(es) && r.status.Ok? && r.status.value == p + |TableImage(es)|
    decreases |es|
  {
    if es != [] {
      var it := ImageItem(es[0].id, es[0].plain);
      ImageStep(d, p, es);
      ItemsCons(d, p, |es|, it);
      assert |es[1..]| == |es| - 1;
      ItemsOfImages(d, p + ItemSize(it), es[1..]);
    }
  }

  /** Consecutive item images are decoded back, all of them and in order. */
  lemma ItemsRoundTrip(d: seq<byte>, p: nat, es: seq<Entry>)
    requires p + |TableImage(es)| <= |d| && d[p..p + |TableImage(es)|] == TableImage(es)
    ensures var r := ParseItems(d, p, |es|);
      r.items == ImageItems(es) && r.status.Ok? && r.status.value == p + |TableImage(es)|
  {
    TableImageAt(d, p, es);
    ItemsOfImages(d, p, es);
  }

  // ---------------------------------------------------------------------
  // The whole decode

  /** A buffer shorter than a header yields nothing but the EOF error. */
  lemma ShortHeaderFails(d: seq<byte>)
    requires |d| < 16
    ensures Decode(d) == Transcript(None, [], Failed(UnexpectedEof))
  {
  }

  /** A successful decode: the header is the first 16 bytes, exactly
      `item_count` items follow, laid out back to back from offset 16 and
      within the buffer. */
  lemma DecodeSuccess(d: seq<byte>)
    requires Decode(d).exit == Success
    ensures var t := Decode(d);
      |d| >= 16 && t.header.Some? &&
      ParseHeader(d, 0) == Ok(t.header.value) &&
      |t.items| == t.header.value.itemCount as int &&
      16 + Span(t.items) <= |d| && LaidOut(d, 16, t.items)
  {
    var k := ParseHeader(d, 0).value.itemCount as nat;
    ItemsCount(d, 16, k);
    ItemsLaidOut(d, 16, k);
  }

  /** A failed decode after the header: fewer than `item_count` items were
      decoded, laid out from offset 16, and the item right after them is
      the one that failed, with the failure reported. */
  lemma DecodeFailure(d: seq<byte>)
    requires Decode(d).exit != Success && Decode(d).header.Some?
    ensures var t := Decode(d);
      |t.items| < t.header.value.itemCount as int &&
      16 + Span(t.items) <= |d| && LaidOut(d, 16, t.items) &&
      ExitOf(ParseItem(d, 16 + Span(t.items))) == t.exit
  {
    var k := ParseHeader(d, 0).value.itemCount as nat;
    ItemsLaidOut(d, 16, k);
    ItemsStop(d, 16, k);
  }

  /** A buffer that starts with a header image followed by `item_count`
      item images decodes to that header and those items, whatever comes
      after them. */
  lemma DecodeImage(d: seq<byte>, h: MagicHeader, es: seq<Entry>)
    requires |h.header| == 8 && |es| == h.itemCount as int
    requires 16 + |TableImage(es)| <= |d|
    requires d[0..16] == HeaderImage(h) && d[16..16 + |TableImage(es)|] == TableImage(es)
    ensures Decode(d) == Transcript(Some(h), ImageItems(es), Success)
  {
    HeaderRoundTrip(d, 0, h);
    ItemsRoundTrip(d, 16, es);
  }

  /** A header image, `item_count` item images and anything after them
      decode to that header and those items. */
  lemma DecodeRoundTrip(h: MagicHeader, es: seq<Entry>, rest: seq<byte>)
    requires |h.header| == 8 && |es| == h.itemCount as int
    ensures Decode(HeaderImage(h) + TableImage(es) + rest)
      == Transcript(Some(h), ImageItems(es), Success)
  {
    var hi, ti := HeaderImage(h), TableImage(es);
    PartsOfConcat(hi, ti, rest);
    DecodeImage(hi + ti + rest, h, es);
  }

}

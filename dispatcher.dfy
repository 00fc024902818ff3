/** The decoder of `data_dispatcher` as the Rust code runs it: each
    deserializer reads its fields one `read_exact` at a time from a shared
    cursor, and `main` reads the header and then `item_count` items. Each
    method is proved against the layout functions of module Layout. */
module Dispatcher {
  import opened Bytes
  import opened IoCursor
  import opened Layout

  /** `MagicHeader::deserialize`: the 8 marker bytes, then the item count,
      then the magic number. On success the cursor is 16 bytes further on;
      on a short read it is at the end of the buffer. */
  method DeserializeMagicHeader(c: Cursor) returns (r: Outcome<MagicHeader>)
    requires c.Valid()
    modifies c
    ensures c.Valid()
    ensures r == ParseHeader(c.data, old(c.pos))
    ensures r.Ok? ==> c.pos == old(c.pos) + HeaderSize
    ensures r.Err? ==> c.pos == |c.data|
  {
    var header := new byte[8];
    var ok := c.ReadExact(header);
    if !ok {
      return Err(UnexpectedEof);
    }

    var itemCountBytes := new byte[4];
    ok := c.ReadExact(itemCountBytes);
    if !ok {
      return Err(UnexpectedEof);
    }
    var itemCount := LeU32(itemCountBytes[..]);

    var magicNumberBytes := new byte[4];
    ok := c.ReadExact(magicNumberBytes);
    if !ok {
      return Err(UnexpectedEof);
    }
    var magicNumber := LeU32(magicNumberBytes[..]);

    return Ok(MagicHeader(header[..], itemCount, magicNumber));
  }

  /** `StringTableItem::deserialize`: id, length and length extension, the
      `assert_eq!` on the extension, then `length` bytes complemented in
      place and handed to the Shift-JIS decoder. On success the cursor is
      just past the text; after the panic it is just past the extension
      byte; on a short read it is at the end of the buffer. */
  method DeserializeStringTableItem(c: Cursor) returns (r: Outcome<StringTableItem>)
    requires c.Valid()
    modifies c
    ensures c.Valid()
    ensures r == ParseItem(c.data, old(c.pos))
    ensures c.pos == ItemEnd(r, old(c.pos), |c.data|)
  {
    ghost var p, d := c.pos, c.data;
    ItemFailures(d, p);

    var idBytes := new byte[4];
    var ok := c.ReadExact(idBytes);
    if !ok {
      return Err(UnexpectedEof);
    }
    var id := LeU32(idBytes[..]);
    assert c.pos == p + 4;

    var lengthBytes := new byte[1];
    ok := c.ReadExact(lengthBytes);
    if !ok {
      return Err(UnexpectedEof);
    }
    var length := lengthBytes[0];
    assert c.pos == p + 5;

    var lengthExtBytes := new byte[1];
    ok := c.ReadExact(lengthExtBytes);
    if !ok {
      return Err(UnexpectedEof);
    }
    var lengthExt := lengthExtBytes[0];
    assert c.pos == p + 6;
    assert id == LeU32(d[p..p + 4]) && length == d[p + 4] && lengthExt == d[p + 5];
    if lengthExt != 0x00 {
      return Panic(lengthExt);
    }

    var rawData := new byte[length as int];
    ok := c.ReadExact(rawData);
    if !ok {
      return Err(UnexpectedEof);
    }
    ghost var raw := rawData[..];
    assert rawData.Length == length as int;
    assert raw == d[p + 6..p + 6 + length as int];
    ComplementInPlace(rawData);
    var data := rawData[..];
    ItemFields(d, p);

    return Ok(StringTableItem(id, length, lengthExt, data));
  }

  /** `main` with the file I/O and the printing taken out: a cursor over
      the whole buffer, the header, then `item_count` items. The
      transcript is what `main` writes out, in order, and how it stops. */
  method DecodePatch(buffer: seq<byte>) returns (t: Transcript)
    ensures t == Decode(buffer)
  {
    var cursor := new Cursor(buffer);
    var magicHeader := DeserializeMagicHeader(cursor);
    if !magicHeader.Ok? {
      return Transcript(None, [], ExitOf(magicHeader));
    }
    var header := magicHeader.value;

    ghost var start := cursor.pos;
    var items: seq<StringTableItem> := [];
    var i: u32 := 0;
    while i < header.itemCount
      invariant cursor.Valid() && cursor.data == buffer
      invariant i <= header.itemCount
      invariant ParseItems(buffer, start, i as nat) == Run(items, Ok(cursor.pos))
    {
      ItemsSnoc(buffer, start, i as nat);
      var item := DeserializeStringTableItem(cursor);
      if !item.Ok? {
        ItemsAfterStop(buffer, start, i as nat + 1, header.itemCount as nat);
        return Transcript(Some(header), items, ExitOf(item));
      }
      items := items + [item.value];
      i := i + 1;
    }
    return Transcript(Some(header), items, Success);
  }
}

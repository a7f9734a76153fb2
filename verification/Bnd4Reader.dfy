/** The BND4 reader: what a buffer means, and the methods that compute it. */
module Bnd4Reading {
  import opened Bytes
  import opened Format
  import opened Reading
  import opened Texts
  import opened Binder
  import opened BinderReading
  import opened HashTableCodec
  import opened Bnd4
  import opened Bnd4Writing
  import HashIndex

  // ------------------------------------------------------------------ parsing as a function

  datatype Flags = Flags(unk04: bool, unk05: bool, be: bool, bitBig: bool)
  datatype Sizes = Sizes(count: int, version: bytes, entrySize: int)
  datatype Shape = Shape(unicode: bool, format: byte, extended: byte)

  function ParseFlags(buf: bytes): Result<Flags> {
    var _ :- ExpectBytes(buf, 0, MAGIC);
    var unk04 :- GetBool(buf, 4);
    var unk05 :- GetBool(buf, 5);
    var _ :- ExpectByte(buf, 6, {0});
    var _ :- ExpectByte(buf, 7, {0});
    var _ :- ExpectByte(buf, 8, {0});
    var be :- GetBool(buf, 9);
    var notBitBig :- GetBool(buf, 10);
    var _ :- ExpectByte(buf, 11, {0});
    Ok(Flags(unk04, unk05, be, !notBitBig))
  }

  function ParseSizes(env: Env, buf: bytes, be: bool): Result<Sizes> {
    var count :- GetSInt(buf, 12, be, 4);
    var _ :- ExpectSInt(buf, 16, be, 8, HEAD_SIZE);
    var version :- GetFixedText(env.sjis, buf, 24, VERSION_SIZE);
    var entrySize :- GetSInt(buf, 32, be, 8);
    Ok(Sizes(count, version, entrySize))
  }

  function ParseShape(buf: bytes, be: bool, bitBig: bool): Result<Shape> {
    var _ :- GetSInt(buf, 40, be, 8);
    var unicode :- GetBool(buf, 48);
    var raw :- GetUInt(buf, 49, false, 1);
    var extended :- ExpectByte(buf, 50, EXTENDED_OPTIONS);
    var _ :- ExpectByte(buf, 51, {0});
    var _ :- ExpectSInt(buf, 52, be, 4, 0);
    Ok(Shape(unicode, ReadFormat(raw % 256, bitBig), extended % 256))
  }

  /** The table offset must be zero without an index; with one, the table's markers must be there. */
  function CheckTable(buf: bytes, be: bool, extended: byte): Result<()> {
    var off :- GetSInt(buf, 56, be, 8);
    if extended == HASHED then
      var p :- SeekTo(buf, off);
      var _ :- GetSInt(buf, p, be, 8);
      var _ :- GetSInt(buf, p + 8, be, 4);
      var _ :- ExpectByte(buf, p + 12, {0x10});
      var _ :- ExpectByte(buf, p + 13, {0x08});
      var _ :- ExpectByte(buf, p + 14, {0x08});
      var _ :- ExpectByte(buf, p + 15, {0x00});
      Ok(())
    else if off != 0 then Err(BadMagic)
    else Ok(())
  }

  datatype Header = Header(flags: Flags, sizes: Sizes, shape: Shape)

  function GeoOf(h: Header): Geometry {
    Geometry(true, h.shape.format, h.flags.bitBig, h.flags.be)
  }

  function ParseHeader(env: Env, buf: bytes): (r: Result<Header>)
    ensures r.Ok? ==> r.value.sizes.count >= 0
  {
    var flags :- ParseFlags(buf);
    var sizes :- ParseSizes(env, buf, flags.be);
    var shape :- ParseShape(buf, flags.be, flags.bitBig);
    var _ :- CheckTable(buf, flags.be, shape.extended);
    var h := Header(flags, sizes, shape);
    if sizes.entrySize != EntrySize(GeoOf(h)) then Err(BadMagic)
    else if sizes.count < 0 then Err(OutOfRange)
    else Ok(h)
  }

  function ArchiveOf(h: Header, files: seq<BinderFile>): Archive {
    Archive(Some(h.sizes.version), h.shape.format, h.flags.unk04, h.flags.unk05, h.flags.be, h.flags.bitBig,
            h.shape.unicode, h.shape.extended, files)
  }

  function ParseArchive(env: Env, buf: bytes): Result<Archive> {
    var h :- ParseHeader(env, buf);
    var hs :- ParseEntries(NameCodec(env, h.shape.unicode, h.flags.be), h.shape.unicode, buf, GeoOf(h), HEAD_SIZE, h.sizes.count);
    var files :- ExtractAll(env, buf, hs, h.sizes.count);
    Ok(ArchiveOf(h, files))
  }

  // ------------------------------------------------------------------ the reading methods

  method ReadFlags(rd: BinaryReader) returns (r: Result<Flags>)
    requires rd.Valid() && rd.pos == 0
    modifies rd`pos
    ensures rd.Valid()
    ensures r == ParseFlags(rd.buf)
    ensures r.Ok? ==> rd.pos == 12
  {
    hide GetBool, ExpectByte, ExpectBytes;
    var _ :- rd.AssertBytes(MAGIC);
    var unk04 :- rd.ReadBool();
    var unk05 :- rd.ReadBool();
    var _ :- rd.AssertByte({0});
    var _ :- rd.AssertByte({0});
    var _ :- rd.AssertByte({0});
    var be :- rd.ReadBool();
    var notBitBig :- rd.ReadBool();
    var _ :- rd.AssertByte({0});
    return Ok(Flags(unk04, unk05, be, !notBitBig));
  }

  method ReadSizes(rd: BinaryReader, env: Env) returns (r: Result<Sizes>)
    requires rd.Valid() && rd.pos == 12
    modifies rd`pos
    ensures rd.Valid()
    ensures r == ParseSizes(env, rd.buf, rd.bigEndian)
    ensures r.Ok? ==> rd.pos == 40
  {
    hide GetSInt, ExpectSInt, GetFixedText;
    var count :- rd.ReadSInt(4);
    var _ :- rd.AssertSInt(8, HEAD_SIZE);
    var version :- ReadFixedText(rd, env.sjis, VERSION_SIZE);
    var entrySize :- rd.ReadSInt(8);
    return Ok(Sizes(count, version, entrySize));
  }

  method ReadShape(rd: BinaryReader, bitBig: bool) returns (r: Result<Shape>)
    requires rd.Valid() && rd.pos == 40
    modifies rd`pos
    ensures rd.Valid()
    ensures r == ParseShape(rd.buf, rd.bigEndian, bitBig)
    ensures r.Ok? ==> rd.pos == 56
  {
    hide GetSInt, ExpectSInt, GetBool, GetUInt, ExpectByte;
    var _ :- rd.ReadSInt(8);
    var unicode :- rd.ReadBool();
    var raw :- rd.ReadByte();
    var extended :- rd.AssertByte(EXTENDED_OPTIONS);
    var _ :- rd.AssertByte({0});
    var _ :- rd.AssertSInt(4, 0);
    return Ok(Shape(unicode, ReadFormat(raw % 256, bitBig), extended % 256));
  }

  method ReadTable(rd: BinaryReader, extended: byte) returns (r: Result<()>)
    requires rd.Valid() && rd.pos == 56
    modifies rd`pos
    ensures rd.Valid()
    ensures r == CheckTable(rd.buf, rd.bigEndian, extended)
    ensures r.Ok? ==> rd.pos == 64
  {
    hide GetSInt, ExpectByte;
    var off :- rd.ReadSInt(8);
    if extended == HASHED {
      var back := rd.pos;
      var _ :- rd.Seek(off);
      var _ :- rd.ReadSInt(8);
      var _ :- rd.ReadSInt(4);
      var _ :- rd.AssertByte({0x10});
      var _ :- rd.AssertByte({0x08});
      var _ :- rd.AssertByte({0x08});
      var _ :- rd.AssertByte({0x00});
      rd.pos := back;
    } else if off != 0 {
      return Err(BadMagic);
    }
    return Ok(());
  }

  method ReadArchive(env: Env, buf: bytes) returns (r: Result<Archive>)
    ensures r == ParseArchive(env, buf)
  {
    hide ParseFlags, ParseSizes, ParseShape, CheckTable, ParseEntries, ExtractAll, EntrySize;
    var rd := new BinaryReader(buf);
    var flags :- ReadFlags(rd);
    rd.bigEndian := flags.be;
    var sizes :- ReadSizes(rd, env);
    var shape :- ReadShape(rd, flags.bitBig);
    var _ :- ReadTable(rd, shape.extended);
    var h := Header(flags, sizes, shape);
    if sizes.entrySize != EntrySize(GeoOf(h)) {
      return Err(BadMagic);
    }
    if sizes.count < 0 {
      return Err(OutOfRange);
    }
    var hs :- ReadEntries(rd, NameCodec(env, shape.unicode, flags.be), shape.unicode, GeoOf(h), sizes.count);
    var files :- ReadAllData(rd, env, hs);
    return Ok(ArchiveOf(h, files));
  }
}

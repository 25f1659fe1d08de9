/** Database records: an append buffer, and the packed form with its one-byte header size
    (db/src/libchidb/record.c). */
module Records {
  import opened Bytes

  type i8 = x: int | -0x80 <= x < 0x80
  type i16 = x: int | -0x8000 <= x < 0x8000

  /** A two's complement number as an unsigned one, and back. */
  function Unsigned(x: int, span: nat): int {
    if x < 0 then x + span else x
  }

  function Signed(x: nat, span: nat): int {
    if x < span / 2 then x else x - span
  }

  datatype Value = Null | Int8(i: i8) | Int16(j: i16) | Int32(k: i32) | Text(s: seq<byte>)
  {
    /** The type code stored for the field. */
    function Code(): nat {
      match this
      case Null => 0
      case Int8(_) => 1
      case Int16(_) => 2
      case Int32(_) => 4
      case Text(s) => 13 + 2 * |s|
    }

    function Payload(): seq<byte> {
      match this
      case Null => []
      case Int8(v) => [Unsigned(v, 0x100)]
      case Int16(v) => Enc2(Unsigned(v, 0x1_0000))
      case Int32(v) => Enc4(Unsigned(v, 0x1_0000_0000))
      case Text(s) => s
    }

    /** The field in the packed header: a text code as a varint, any other as one byte. */
    function Tag(): seq<byte>
      requires Code() < VARINT_LIMIT
    {
      if Text? then EncVar(Code()) else [Code()]
    }

    function TagSize(): nat { if Text? then 4 else 1 }
  }

  function Codes(vs: seq<Value>): (c: seq<nat>)
    ensures |c| == |vs| && forall i :: 0 <= i < |vs| ==> c[i] == vs[i].Code()
  {
    seq(|vs|, i requires 0 <= i < |vs| => vs[i].Code())
  }

  /** The data of the first n fields. */
  function Payloads(vs: seq<Value>, n: nat): seq<byte>
    requires n <= |vs|
  {
    if n == 0 then [] else Payloads(vs, n - 1) + vs[n - 1].Payload()
  }

  function HeaderSize(vs: seq<Value>, n: nat): nat
    requires n <= |vs|
  {
    if n == 0 then 1 else HeaderSize(vs, n - 1) + vs[n - 1].TagSize()
  }

  predicate Taggable(vs: seq<Value>) {
    forall i :: 0 <= i < |vs| ==> vs[i].Code() < VARINT_LIMIT
  }

  function Tags(vs: seq<Value>, n: nat): (t: seq<byte>)
    requires Taggable(vs) && n <= |vs|
    ensures |t| + 1 == HeaderSize(vs, n)
  {
    if n == 0 then [] else Tags(vs, n - 1) + vs[n - 1].Tag()
  }

  /** Where field i starts in the data. */
  function Start(vs: seq<Value>, i: nat): nat
    requires i <= |vs|
  {
    |Payloads(vs, i)|
  }

  /** The offsets the buffer notes: 0 for a NULL. */
  function Offsets(vs: seq<Value>): (o: seq<nat>)
    ensures |o| == |vs|
  {
    seq(|vs|, i requires 0 <= i < |vs| => if vs[i].Null? then 0 else Start(vs, i))
  }

  /** The size of the buffer: it starts with 1024 bytes and grows by as many, once per append. */
  function SizeAfter(vs: seq<Value>, n: nat): nat
    requires n <= |vs|
  {
    if n == 0 then 1024 else Grown(SizeAfter(vs, n - 1), Start(vs, n - 1), vs[n - 1])
  }

  function Grown(size: nat, used: nat, v: Value): nat {
    if used + |v.Payload()| > size then (size + 1024) % 0x1_0000 else size
  }

  /** The value fits behind used bytes after at most one growth. */
  predicate Fits(size: nat, used: nat, v: Value) {
    used + |v.Payload()| <= Grown(size, used, v)
  }

  /** What comes later changes nothing for the first n fields. */
  lemma {:induction false} Prefix(vs: seq<Value>, v: Value, n: nat)
    requires n <= |vs|
    ensures Payloads(vs + [v], n) == Payloads(vs, n)
    ensures HeaderSize(vs + [v], n) == HeaderSize(vs, n)
    ensures SizeAfter(vs + [v], n) == SizeAfter(vs, n)
  {
    if n > 0 {
      Prefix(vs, v, n - 1);
    }
  }

  lemma Snoc(vs: seq<Value>, v: Value)
    ensures Payloads(vs + [v], |vs| + 1) == Payloads(vs, |vs|) + v.Payload()
    ensures HeaderSize(vs + [v], |vs| + 1) == HeaderSize(vs, |vs|) + v.TagSize()
    ensures SizeAfter(vs + [v], |vs| + 1) == Grown(SizeAfter(vs, |vs|), Start(vs, |vs|), v)
  {
    hide Grown, Value.Payload, Value.TagSize;
    Prefix(vs, v, |vs|);
  }

  lemma SnocCodes(vs: seq<Value>, v: Value)
    ensures Codes(vs + [v]) == Codes(vs) + [v.Code()]
  {
    hide Value.Code;
  }

  lemma SnocOffsets(vs: seq<Value>, v: Value)
    ensures Offsets(vs + [v]) == Offsets(vs) + [if v.Null? then 0 else Start(vs, |vs|)]
  {
    hide Payloads;
    forall i | 0 <= i <= |vs|
      ensures Start(vs + [v], i) == Start(vs, i)
    {
      Prefix(vs, v, i);
    }
  }

  lemma {:induction false} StartsGrow(vs: seq<Value>, i: nat, n: nat)
    requires i <= n <= |vs|
    ensures Start(vs, i) <= Start(vs, n) && HeaderSize(vs, i) + (n - i) <= HeaderSize(vs, n)
    decreases n
  {
    if i < n {
      StartsGrow(vs, i, n - 1);
    }
  }

  /** No append overruns the buffer as long as every string has at most 1024 bytes and all data
      together at most 64512; its size stays a multiple of 1024 that holds the data. */
  lemma {:induction false} SmallValuesFit(vs: seq<Value>, n: nat)
    requires n <= |vs| && Start(vs, |vs|) <= 64512
    requires forall j :: 0 <= j < |vs| ==> |vs[j].Payload()| <= 1024
    ensures SizeAfter(vs, n) % 1024 == 0 && Start(vs, n) <= SizeAfter(vs, n) && 1024 <= SizeAfter(vs, n) <= 64512
    ensures n < |vs| ==> Fits(SizeAfter(vs, n), Start(vs, n), vs[n])
  {
    hide Value.Payload, Grown, Fits;
    if n > 0 {
      SmallValuesFit(vs, n - 1);
      StartsGrow(vs, n, |vs|);
      GrowthKeeps(SizeAfter(vs, n - 1), Start(vs, n - 1), vs[n - 1]);
    }
    if n < |vs| {
      StartsGrow(vs, n + 1, |vs|);
      OneGrowth(SizeAfter(vs, n), Start(vs, n), vs[n]);
    }
  }

  /** As long as every value so far has fitted, the buffer is a whole number of blocks that hold the
      data. */
  lemma {:induction false} SizeKept(vs: seq<Value>, n: nat)
    requires n <= |vs| && forall j :: 0 <= j < n ==> Fits(SizeAfter(vs, j), Start(vs, j), vs[j])
    ensures SizeAfter(vs, n) % 1024 == 0 && 1024 <= SizeAfter(vs, n) <= 64512 && Start(vs, n) <= SizeAfter(vs, n)
  {
    hide Value.Payload, Grown, Fits, Payloads;
    StartStep(vs, n);
    if n > 0 {
      SizeKept(vs, n - 1);
      GrowthKeeps(SizeAfter(vs, n - 1), Start(vs, n - 1), vs[n - 1]);
    }
  }

  lemma StartStep(vs: seq<Value>, n: nat)
    requires n <= |vs|
    ensures Start(vs, n) == if n == 0 then 0 else Start(vs, n - 1) + |vs[n - 1].Payload()|
  {
    hide Value.Payload;
  }

  lemma GrowthKeeps(size: nat, used: nat, v: Value)
    requires size % 1024 == 0 && 1024 <= size <= 64512 && used <= size && Fits(size, used, v)
    ensures var g := Grown(size, used, v);
            g % 1024 == 0 && used + |v.Payload()| <= g && 1024 <= g <= 64512
  {
    hide Value.Payload;
  }

  /** The buffer grows once, however much is missing, and at 64512 bytes its size wraps to nothing.  So
      the next value overruns it exactly when it is longer than the room that is left and, up to that
      size, one growth. */
  lemma AppendFitsIff(vs: seq<Value>, v: Value)
    requires forall j :: 0 <= j < |vs| ==> Fits(SizeAfter(vs, j), Start(vs, j), vs[j])
    ensures var size, used := SizeAfter(vs, |vs|), Start(vs, |vs|);
            Fits(size, used, v) <==> |v.Payload()| <= size - used + if size < 64512 then 1024 else 0
  {
    hide Value.Payload;
    SizeKept(vs, |vs|);
    OneGrowth(SizeAfter(vs, |vs|), Start(vs, |vs|), v);
  }

  lemma OneGrowth(size: nat, used: nat, v: Value)
    requires size % 1024 == 0 && 1024 <= size <= 64512 && used <= size
    ensures Fits(size, used, v) <==> |v.Payload()| <= size - used + if size < 64512 then 1024 else 0
  {
    hide Value.Payload;
  }

  /** A finished record. */
  datatype Record = Record(nfields: nat, types: seq<nat>, offsets: seq<nat>, data: seq<byte>, packedLen: nat)

  function RecordOf(vs: seq<Value>): Record {
    Record(|vs|, Codes(vs), Offsets(vs), Payloads(vs, |vs|), HeaderSize(vs, |vs|) % 0x100 + Start(vs, |vs|))
  }

  class RecordBuffer {
    const types: array<nat>
    const offsets: array<nat>
    var data: array<byte>
    var bufSize: nat
    var field: nat
    var offset: nat
    var headerSize: nat
    ghost var values: seq<Value>  // what has been appended

    ghost predicate Valid()
      reads this, types, offsets, data
    {
      && types != offsets && types.Length == offsets.Length <= 0xFF
      && field == |values| <= types.Length
      && types[..field] == Codes(values)
      && offsets[..field] == Offsets(values)
      && data.Length == bufSize == SizeAfter(values, field) < 0x1_0000
      && offset == Start(values, field) <= bufSize
      && data[..offset] == Payloads(values, field)
      && headerSize == HeaderSize(values, field) % 0x100
    }

    /** chidb_DBRecord_create_empty */
    constructor (nfields: nat)
      requires nfields <= 0xFF
      ensures Valid() && values == [] && types.Length == nfields
      ensures fresh(types) && fresh(offsets) && fresh(data)
    {
      types := new nat[nfields](_ => 0);
      offsets := new nat[nfields](_ => 0);
      data := new byte[1024](_ => 0);
      bufSize := 1024;
      field := 0;
      offset := 0;
      headerSize := 1;
      values := [];
    }

    /** Room for n more bytes, by one growth at most. */
    method Reserve(n: nat)
      requires data.Length == bufSize && offset <= bufSize
      requires offset + n <= if offset + n > bufSize then (bufSize + 1024) % 0x1_0000 else bufSize
      modifies this`data, this`bufSize
      ensures data.Length == bufSize ==
          if offset + n > old(bufSize) then (old(bufSize) + 1024) % 0x1_0000 else old(bufSize)
      ensures data == old(data) || fresh(data)
      ensures data[..offset] == old(data[..offset])
    {
      if offset + n > bufSize {
        bufSize := (bufSize + 1024) % 0x1_0000;
        var grown := new byte[bufSize](i requires 0 <= i reads this, data => if i < data.Length then data[i] else 0);
        data := grown;
      }
    }

    /** The bytes of one value behind the others. */
    method Write(bytes: seq<byte>)
      requires data.Length == bufSize && offset <= bufSize
      requires offset + |bytes| <= if offset + |bytes| > bufSize then (bufSize + 1024) % 0x1_0000 else bufSize
      modifies this`data, this`bufSize, this`offset, data
      ensures offset == old(offset) + |bytes| <= bufSize && (data == old(data) || fresh(data))
      ensures data.Length == bufSize == if offset > old(bufSize) then (old(bufSize) + 1024) % 0x1_0000 else old(bufSize)
      ensures data[..offset] == old(data[..offset]) + bytes
    {
      Reserve(|bytes|);
      Blit(data, offset, bytes);
      offset := offset + |bytes|;
      assert data[..offset] == old(data[..offset]) + bytes;
    }

    /** The append functions: the type and place of one value noted, and its bytes written. */
    method Append(v: Value)
      requires Valid() && field < types.Length && Fits(bufSize, offset, v)
      modifies this, types, offsets, data
      ensures Valid() && values == old(values) + [v] && (data == old(data) || fresh(data))
    {
      hide Value.Payload, Value.Code, Value.TagSize, Payloads, Codes, Offsets, HeaderSize, SizeAfter;
      Snoc(values, v);
      SnocCodes(values, v);
      SnocOffsets(values, v);
      offsets[field] := if v.Null? then 0 else offset;
      types[field] := v.Code();
      Write(v.Payload());
      headerSize := (headerSize + v.TagSize()) % 0x100;
      field := field + 1;
      values := values + [v];
    }

    /** chidb_DBRecord_finalize */
    method Finalize() returns (r: Record)
      requires Valid()
      ensures r == RecordOf(values)
    {
      r := Record(field, types[..field], offsets[..field], data[..offset], headerSize + offset);
    }
  }

  const NOT_VALID := -1

  /** chidb_DBRecord_getType on the stored code; the subtraction is unsigned. */
  function TypeOf(code: u32): (t: int)
    ensures t == -1 <==> code % 2 == 0 && code !in {0, 2, 4}
    ensures code % 2 == 1 && code != 1 ==> t == 13
    ensures code in {0, 1, 2, 4} ==> t == code
  {
    if code in {0, 1, 2, 4} then code
    else if (code - 13) % 0x1_0000_0000 % 2 == 0 then 13
    else NOT_VALID
  }

  /** The bytes of a value: its type code, and its data with the high byte first, a negative number as
      one larger by 256, 65536 or 2^32.  A packed code has one byte, or four groups of seven bits if it
      is that of a text. */
  lemma ValuePlaces(v: Value)
    requires v.Code() < VARINT_LIMIT
    ensures var p, t := v.Payload(), v.Tag();
            match v
            case Null => v.Code() == 0 && p == [] && t == [0]
            case Int8(i) => v.Code() == 1 && t == [1] && |p| == 1 && p[0] as int == if i < 0 then i + 256 else i
            case Int16(j) =>
              && v.Code() == 2 && t == [2] && |p| == 2
              && (p[0] as int) * 256 + p[1] == if j < 0 then j + 65536 else j
            case Int32(k) =>
              && v.Code() == 4 && t == [4] && |p| == 4
              && (p[0] as int) * 0x100_0000 + (p[1] as int) * 0x1_0000 + (p[2] as int) * 0x100 + p[3]
                 == if k < 0 then k + 0x1_0000_0000 else k
            case Text(s) =>
              && v.Code() == 13 + 2 * |s| && p == s
              && |t| == 4 && t[0] >= 0x80 && t[1] >= 0x80 && t[2] >= 0x80 && t[3] < 0x80
              && (t[0] as int - 0x80) * 0x20_0000 + (t[1] as int - 0x80) * 0x4000 + (t[2] as int - 0x80) * 0x80 + t[3]
                 == v.Code()
  {
    match v
    case Null =>
    case Int8(_) =>
    case Int16(j) => BigEndian(Unsigned(j, 0x1_0000));
    case Int32(k) => BigEndian(Unsigned(k, 0x1_0000_0000));
    case Text(_) => GroupsInOrder(v.Code());
  }

  lemma TypeOfCode(v: Value)
    requires v.Code() < VARINT_LIMIT
    ensures TypeOf(v.Code()) == if v.Text? then 13 else v.Code()
  {
  }

  predicate Packable(vs: seq<Value>) {
    Taggable(vs) && HeaderSize(vs, |vs|) <= 0xFF && Start(vs, |vs|) < 0x1_0000_0000
  }

  /** The packed form: the header with its size in front, then the data. */
  function Packed(vs: seq<Value>): (b: seq<byte>)
    requires Packable(vs)
  {
    [HeaderSize(vs, |vs|)] + Tags(vs, |vs|) + Payloads(vs, |vs|)
  }

  lemma {:induction false} TagsGrow(vs: seq<Value>, i: nat, n: nat)
    requires Taggable(vs) && i <= n <= |vs|
    ensures |Tags(vs, i)| <= |Tags(vs, n)| && Tags(vs, n)[..|Tags(vs, i)|] == Tags(vs, i)
    decreases n
  {
    hide Value.Tag;
    if i < n {
      TagsGrow(vs, i, n - 1);
    }
  }

  lemma {:induction false} PayloadsPrefix(vs: seq<Value>, i: nat, n: nat)
    requires i <= n <= |vs|
    ensures Start(vs, i) <= Start(vs, n) && Payloads(vs, n)[..Start(vs, i)] == Payloads(vs, i)
    decreases n
  {
    hide Value.Payload;
    if i < n {
      PayloadsPrefix(vs, i, n - 1);
    }
  }

  /** Where the tag of field i lies in the packed form. */
  lemma TagAt(vs: seq<Value>, i: nat)
    requires Packable(vs) && i < |vs|
    ensures HeaderSize(vs, i) + vs[i].TagSize() == HeaderSize(vs, i + 1) <= HeaderSize(vs, |vs|) <= |Packed(vs)|
    ensures Packed(vs)[HeaderSize(vs, i)..HeaderSize(vs, i + 1)] == vs[i].Tag()
  {
    hide Value.Tag, Value.TagSize;
    TagsGrow(vs, i, i + 1);
    TagsGrow(vs, i + 1, |vs|);
    var t := Tags(vs, |vs|);
    assert t[..|Tags(vs, i + 1)|][|Tags(vs, i)|..] == vs[i].Tag();
    assert Packed(vs)[1..1 + |t|] == t;
  }

  /** The data of field i. */
  lemma PayloadAt(vs: seq<Value>, i: nat)
    requires i < |vs|
    ensures Start(vs, i) + |vs[i].Payload()| == Start(vs, i + 1) <= Start(vs, |vs|)
    ensures Payloads(vs, |vs|)[Start(vs, i)..Start(vs, i + 1)] == vs[i].Payload()
  {
    hide Value.Payload;
    PayloadsPrefix(vs, i + 1, |vs|);
    assert Payloads(vs, i + 1)[Start(vs, i)..] == vs[i].Payload();
  }

  /** One tag of the header. */
  method PutTag(p: array<byte>, pos: nat, code: u32, ghost v: Value) returns (next: nat)
    requires code == v.Code() < VARINT_LIMIT && pos + v.TagSize() <= p.Length
    modifies p
    ensures next == pos + v.TagSize() && p[..next] == old(p[..pos]) + v.Tag()
  {
    TypeOfCode(v);
    if TypeOf(code) == 13 {
      PutVar(p, pos, code);
      next := pos + 4;
    } else {
      p[pos] := code;
      next := pos + 1;
    }
    assert p[..next] == old(p[..pos]) + v.Tag();
  }

  /** chidb_DBRecord_pack */
  method Pack(r: Record, ghost vs: seq<Value>) returns (p: array<byte>)
    requires Packable(vs) && r == RecordOf(vs)
    ensures fresh(p) && p[..] == Packed(vs)
  {
    hide Payloads, HeaderSize, Tags, Value.Tag, Value.TagSize, Value.Code;
    HeaderStarts(vs);
    p := new byte[r.packedLen](_ => 0);
    p[0] := (r.packedLen - |r.data|) % 0x100;
    var headerPos := 1;
    var i := 0;
    while i < r.nfields
      invariant 0 <= i <= r.nfields && headerPos == HeaderSize(vs, i) <= HeaderSize(vs, |vs|)
      invariant p[..headerPos] == [HeaderSize(vs, |vs|)] + Tags(vs, i)
    {
      TagAt(vs, i);
      TagStep(vs, i);
      headerPos := PutTag(p, headerPos, r.types[i], vs[i]);
      i := i + 1;
    }
    assert p[0] == p[..headerPos][0];
    Blit(p, p[0], r.data);
    assert p[..] == [HeaderSize(vs, |vs|)] + Tags(vs, |vs|) + r.data;
  }

  lemma HeaderStarts(vs: seq<Value>)
    requires Taggable(vs)
    ensures HeaderSize(vs, 0) == 1 && Tags(vs, 0) == [] && HeaderSize(vs, |vs|) >= 1
  {
    StartsGrow(vs, 0, |vs|);
  }

  lemma TagStep(vs: seq<Value>, i: nat)
    requires Taggable(vs) && i < |vs|
    ensures Tags(vs, i + 1) == Tags(vs, i) + vs[i].Tag() && HeaderSize(vs, i + 1) == HeaderSize(vs, i) + vs[i].TagSize()
  {
  }

  lemma ReadTag(raw: seq<byte>, pos: nat, v: Value)
    requires v.Code() < VARINT_LIMIT && pos + v.TagSize() <= |raw| && raw[pos..pos + v.TagSize()] == v.Tag()
    ensures raw[pos] >= 0x80 <==> v.Text?
    ensures if v.Text? then pos + 4 <= |raw| && DecVar(raw, pos) == v.Code() else raw[pos] == v.Code()
  {
    assert raw[pos] == raw[pos..pos + v.TagSize()][0];
    if v.Text? {
      DecLocal(raw, pos, EncVar(v.Code()));
      DecVarEncVar(v.Code());
    }
  }

  /** The type codes of a packed header. */
  method ReadTypes(raw: seq<byte>, ghost vs: seq<Value>) returns (types: seq<nat>)
    requires Packable(vs) && Packed(vs) <= raw
    ensures types == Codes(vs)
  {
    hide HeaderSize, Tags, Payloads, Packed, Value.Tag, Value.TagSize, Value.Code;
    PackedParts(vs);
    types := [];
    var headerSize := raw[0];
    var headerPos := 1;
    ghost var i := 0;
    while headerPos < headerSize
      invariant 0 <= i <= |vs| && headerPos == HeaderSize(vs, i) && headerSize == HeaderSize(vs, |vs|)
      invariant types == Codes(vs)[..i]
      decreases |vs| - i
    {
      if i == |vs| { assert false; }
      TagAt(vs, i);
      StartsGrow(vs, i, |vs|);
      assert raw[headerPos..HeaderSize(vs, i + 1)] == vs[i].Tag();
      ReadTag(raw, headerPos, vs[i]);
      TagIs(vs[i]);
      if raw[headerPos] >= 0x80 {
        types := types + [DecVar(raw, headerPos)];
        headerPos := headerPos + 4;
      } else {
        types := types + [raw[headerPos]];
        headerPos := headerPos + 1;
      }
      i := i + 1;
    }
    StartsGrow(vs, i, |vs|);
  }

  lemma TagIs(v: Value)
    ensures v.TagSize() == if v.Text? then 4 else 1
  {
  }

  lemma PackedParts(vs: seq<Value>)
    requires Packable(vs)
    ensures |Packed(vs)| == HeaderSize(vs, |vs|) + Start(vs, |vs|) && HeaderSize(vs, 0) == 1 <= HeaderSize(vs, |vs|)
    ensures Packed(vs)[0] == HeaderSize(vs, |vs|) && Packed(vs)[HeaderSize(vs, |vs|)..] == Payloads(vs, |vs|)
  {
    hide Payloads;
    StartsGrow(vs, 0, |vs|);
  }

  /** The bytes a field of this type takes. */
  method FieldSize(code: u32, ghost v: Value) returns (size: nat)
    requires code == v.Code() < VARINT_LIMIT
    ensures size == |v.Payload()|
  {
    TypeOfCode(v);
    var t := TypeOf(code);
    size := 0;
    if t == 1 {
      size := 1;
    } else if t == 2 {
      size := 2;
    } else if t == 4 {
      size := 4;
    } else if t == 13 {
      size := (code - 13) / 2;
    }
  }

  /** chidb_DBRecord_unpack of what Pack wrote, whatever follows it: the same types and data; a NULL
      now notes the place it would have. */
  method Unpack(raw: seq<byte>, ghost vs: seq<Value>) returns (r: Record)
    requires Packable(vs) && Packed(vs) <= raw
    ensures r == RecordOf(vs).(offsets := Starts(vs))
  {
    hide HeaderSize, Tags, Payloads, Packed, Value.Payload, Value.Tag, Value.TagSize, Value.Code;
    PackedParts(vs);
    var types := ReadTypes(raw, vs);
    var offset, offsets, i := 0, [], 0;
    StartZero(vs);
    while i < |types|
      invariant 0 <= i <= |vs| && offset == Start(vs, i) && offsets == Starts(vs)[..i]
    {
      PayloadAt(vs, i);
      offsets := offsets + [offset];
      var size := FieldSize(types[i], vs[i]);
      offset := offset + size;
      i := i + 1;
    }
    assert offsets == Starts(vs);
    var data := raw[raw[0]..raw[0] + offset];
    assert data == Payloads(vs, |vs|);
    r := Record(|types|, types, offsets, data, raw[0] + offset);
  }

  lemma StartZero(vs: seq<Value>)
    ensures Start(vs, 0) == 0
  {
  }

  function Starts(vs: seq<Value>): (o: seq<nat>)
    ensures |o| == |vs|
  {
    seq(|vs|, i requires 0 <= i < |vs| => Start(vs, i))
  }

  function GetInt8(r: Record, i: nat): i8
    requires i < |r.offsets| && r.offsets[i] < |r.data|
  {
    Signed(r.data[r.offsets[i]], 0x100)
  }

  function GetInt16(r: Record, i: nat): i16
    requires i < |r.offsets| && r.offsets[i] + 2 <= |r.data|
  {
    Signed(Dec2(r.data, r.offsets[i]), 0x1_0000)
  }

  function GetInt32(r: Record, i: nat): i32
    requires i < |r.offsets| && r.offsets[i] + 4 <= |r.data|
  {
    Signed(Dec4(r.data, r.offsets[i]), 0x1_0000_0000)
  }

  function StringLength(r: Record, i: nat): nat
    requires i < |r.types| && r.types[i] >= 13
  {
    (r.types[i] - 13) / 2
  }

  function GetString(r: Record, i: nat): seq<byte>
    requires i < |r.types| == |r.offsets| && r.types[i] >= 13 && r.offsets[i] + StringLength(r, i) <= |r.data|
  {
    r.data[r.offsets[i]..r.offsets[i] + StringLength(r, i)]
  }

  /** The getter for the type of the field. */
  function Get(r: Record, i: nat): Value
    requires i < |r.types| == |r.offsets|
    requires r.types[i] == 1 ==> r.offsets[i] + 1 <= |r.data|
    requires r.types[i] == 2 ==> r.offsets[i] + 2 <= |r.data|
    requires r.types[i] == 4 ==> r.offsets[i] + 4 <= |r.data|
    requires r.types[i] >= 13 ==> r.offsets[i] + StringLength(r, i) <= |r.data|
  {
    var t := r.types[i];
    if t == 1 then Int8(GetInt8(r, i)) else if t == 2 then Int16(GetInt16(r, i))
    else if t == 4 then Int32(GetInt32(r, i)) else if t >= 13 then Text(GetString(r, i)) else Null
  }

  /** The getters give back every appended value, from the finished record and from the unpacked
      one, and never read outside the data. */
  lemma GettersInvert(vs: seq<Value>, i: nat, unpacked: bool)
    requires i < |vs|
    ensures var r := if unpacked then RecordOf(vs).(offsets := Starts(vs)) else RecordOf(vs);
            && (r.types[i] == 1 ==> r.offsets[i] + 1 <= |r.data|)
            && (r.types[i] == 2 ==> r.offsets[i] + 2 <= |r.data|)
            && (r.types[i] == 4 ==> r.offsets[i] + 4 <= |r.data|)
            && (r.types[i] >= 13 ==> r.offsets[i] + StringLength(r, i) <= |r.data|)
            && Get(r, i) == vs[i]
  {
    hide Payloads, HeaderSize;
    PayloadAt(vs, i);
    var d, at := Payloads(vs, |vs|), Start(vs, i);
    ReadPayload(d, at, vs[i]);
  }

  lemma ReadPayload(d: seq<byte>, at: nat, v: Value)
    requires at + |v.Payload()| <= |d| && d[at..at + |v.Payload()|] == v.Payload()
    ensures match v
            case Null => true
            case Int8(x) => Signed(d[at], 0x100) == x
            case Int16(x) => Signed(Dec2(d, at), 0x1_0000) == x
            case Int32(x) => Signed(Dec4(d, at), 0x1_0000_0000) == x
            case Text(s) => d[at..at + |s|] == s
  {
    match v
    case Int8(x) =>
      assert d[at] == d[at..at + 1][0];
    case Int16(x) =>
      assert d[at] == d[at..at + 2][0] && d[at + 1] == d[at..at + 2][1];
      Dec2Enc2(Unsigned(x, 0x1_0000));
    case Int32(x) =>
      DecLocal(d, at, Enc4(Unsigned(x, 0x1_0000_0000)));
      Dec4Enc4(Unsigned(x, 0x1_0000_0000));
    case _ =>
  }

  lemma {:induction false} SameTags(raw: seq<byte>, vs: seq<Value>, ws: seq<Value>, i: nat)
    requires Packable(vs) && Packed(vs) <= raw && Packable(ws) && Packed(ws) <= raw && i <= |vs|
    ensures i <= |ws| && HeaderSize(ws, i) == HeaderSize(vs, i)
    ensures forall j :: 0 <= j < i ==> vs[j].Code() == ws[j].Code()
  {
    hide Payloads, HeaderSize, Packed, Value.Tag, Value.TagSize, Value.Code;
    PackedParts(vs);
    PackedParts(ws);
    if i > 0 {
      SameTags(raw, vs, ws, i - 1);
      TagAt(vs, i - 1);
      StartsGrow(vs, i - 1, |vs|);
      StartsGrow(ws, i - 1, |ws|);
      assert HeaderSize(ws, |ws|) == raw[0] == HeaderSize(vs, |vs|);
      assert HeaderSize(ws, i - 1) < HeaderSize(ws, |ws|);
      assert i - 1 < |ws|;
      TagAt(ws, i - 1);
      TagIs(vs[i - 1]);
      TagIs(ws[i - 1]);
      ReadTag(raw, HeaderSize(vs, i - 1), vs[i - 1]);
      ReadTag(raw, HeaderSize(vs, i - 1), ws[i - 1]);
    }
  }

  lemma CodeGivesSize(v: Value, w: Value)
    requires v.Code() == w.Code()
    ensures |v.Payload()| == |w.Payload()|
  {
  }

  lemma {:induction false} SameStarts(vs: seq<Value>, ws: seq<Value>, i: nat)
    requires i <= |vs| == |ws| && forall j :: 0 <= j < |vs| ==> vs[j].Code() == ws[j].Code()
    ensures Start(vs, i) == Start(ws, i)
  {
    hide Value.Code, Value.Payload;
    if i > 0 {
      SameStarts(vs, ws, i - 1);
      CodeGivesSize(vs[i - 1], ws[i - 1]);
    }
  }

  /** The packed form can be read in one way only: no packed record is the beginning of another. */
  lemma PackedInjective(raw: seq<byte>, vs: seq<Value>, ws: seq<Value>)
    requires Packable(vs) && Packed(vs) <= raw && Packable(ws) && Packed(ws) <= raw
    ensures vs == ws
  {
    hide Payloads, HeaderSize, Packed, Tags, Value.Tag, Value.TagSize, Value.Code, Value.Payload, Get;
    SameTags(raw, vs, ws, |vs|);
    SameTags(raw, ws, vs, |ws|);
    forall i | 0 <= i <= |vs|
      ensures Start(vs, i) == Start(ws, i)
    {
      SameStarts(vs, ws, i);
    }
    PackedParts(vs);
    PackedParts(ws);
    assert raw[HeaderSize(vs, |vs|)..][..Start(vs, |vs|)] == Payloads(vs, |vs|);
    assert raw[HeaderSize(vs, |vs|)..][..Start(vs, |vs|)] == Payloads(ws, |ws|);
    assert RecordOf(vs).(offsets := Starts(vs)) == RecordOf(ws).(offsets := Starts(ws));
    forall i | 0 <= i < |vs|
      ensures vs[i] == ws[i]
    {
      GettersInvert(vs, i, true);
      GettersInvert(ws, i, true);
    }
  }
}

// Encodings of numbers, strings, options and lists, and what reading them back yields.
module Encodings {
  import opened Options

  newtype byte = x: int | 0 <= x < 256

  datatype Error = EndOfInput | Overflow | BadHeader | BadString | BadTag | BadColumn | BadModule

  /** What reading from a buffer yields: a value and what remains of the buffer, or an error. */
  datatype Read<+T> = Ok(value: T, rest: seq<byte>) | Err(error: Error)

  const UINT_LIMIT: nat := 0x1_0000_0000_0000_0000

  // ---------------------------------------------------------------------------
  // Unsigned numbers, seven bits at a time
  // ---------------------------------------------------------------------------

  const MAX_VARINT_LEN: nat := 10

  function EncodeUvarint(v: nat): seq<byte> {
    if v < 128 then [v as byte] else [(v % 128 + 128) as byte] + EncodeUvarint(v / 128)
  }

  /** Decode a number of which i bytes have been read already. */
  function DecodeUvarint(bs: seq<byte>, i: nat): Read<nat>
    requires i <= MAX_VARINT_LEN
    decreases MAX_VARINT_LEN - i
  {
    if i == MAX_VARINT_LEN then Err(Overflow)
    else if bs == [] then Err(EndOfInput)
    else if bs[0] < 128 then
      if i == MAX_VARINT_LEN - 1 && bs[0] > 1 then Err(Overflow) else Ok(bs[0] as nat, bs[1..])
    else
      match DecodeUvarint(bs[1..], i + 1)
      case Ok(v, rest) => Ok((bs[0] as nat - 128) + 128 * v, rest)
      case Err(e) => Err(e)
  }

  // The numbers which can still be read after i bytes.
  function Limit(i: nat): nat
    requires i < MAX_VARINT_LEN
    decreases MAX_VARINT_LEN - i
  {
    if i == MAX_VARINT_LEN - 1 then 2 else 128 * Limit(i + 1)
  }

  lemma LimitIsUint()
    ensures Limit(0) == UINT_LIMIT
  {
    assert Limit(8) == 256;
    assert Limit(6) == 128 * Limit(7) == 128 * 128 * 256;
    assert Limit(4) == 128 * Limit(5) == 128 * 128 * Limit(6);
    assert Limit(2) == 128 * Limit(3) == 128 * 128 * Limit(4);
    assert Limit(0) == 128 * Limit(1) == 128 * 128 * Limit(2);
  }

  lemma {:induction false} UvarintFrom(v: nat, i: nat, rest: seq<byte>)
    requires i < MAX_VARINT_LEN && v < Limit(i)
    ensures DecodeUvarint(EncodeUvarint(v) + rest, i) == Ok(v, rest)
    decreases MAX_VARINT_LEN - i
  {
    var bs := EncodeUvarint(v) + rest;
    if v < 128 {
      assert bs[1..] == rest;
    } else {
      var low := (v % 128 + 128) as byte;
      assert bs == [low] + (EncodeUvarint(v / 128) + rest);
      UvarintFrom(v / 128, i + 1, rest);
      assert bs[0] == low && bs[1..] == EncodeUvarint(v / 128) + rest;
    }
  }

  /** Every 64-bit number is read back from its encoding, of which nothing remains. */
  lemma UvarintRoundTrip(v: nat, rest: seq<byte>)
    requires v < UINT_LIMIT
    ensures DecodeUvarint(EncodeUvarint(v) + rest, 0) == Ok(v, rest)
  {
    LimitIsUint();
    UvarintFrom(v, 0, rest);
  }

  // What the bytes of a number are, and which bytes are read as what.

  /** The number whose digits to base 128, least significant first, are the lower seven bits of some bytes. */
  function Digits(bs: seq<byte>): nat {
    if bs == [] then 0 else bs[0] as nat % 128 + 128 * Digits(bs[1..])
  }

  /** Whether each of the first n bytes announces another one. */
  predicate Continues(bs: seq<byte>, n: nat) {
    n <= |bs| && forall k :: 0 <= k < n ==> bs[k] >= 128
  }

  /** A number is written as its digits, all but the last of which announce another one. */
  lemma {:induction false} EncodedDigits(v: nat)
    ensures var bs := EncodeUvarint(v);
      && Digits(bs) == v && bs != [] && Continues(bs, |bs| - 1) && bs[|bs| - 1] < 128
      && (|bs| > 1 ==> bs[|bs| - 1] > 0)
  {
    if v >= 128 {
      EncodedDigits(v / 128);
      var low, rest := (v % 128 + 128) as byte, EncodeUvarint(v / 128);
      assert ([low] + rest)[1..] == rest;
    } else {
      assert [v as byte][1..] == [];
    }
  }

  /** A number below 128 is written as that one byte. */
  lemma EncodedByte(v: nat)
    requires v < 128
    ensures EncodeUvarint(v) == [v as byte]
  {
  }

  /** Bytes up to the first which announces no other are read as their digits, if those fit 64 bits. */
  lemma {:induction false} DecodedDigits(bs: seq<byte>, i: nat, n: nat)
    requires n < |bs| && Continues(bs, n) && bs[n] < 128 && i + n < MAX_VARINT_LEN
    ensures DecodeUvarint(bs, i) ==
            if i + n == 9 && bs[n] > 1 then Err(Overflow) else Ok(Digits(bs[..n + 1]), bs[n + 1..])
    decreases n
  {
    assert bs[..n + 1][1..] == bs[1..][..n];
    if n == 0 {
      assert bs[..1] == [bs[0]] && bs[1..][..0] == [];
    } else {
      DecodedDigits(bs[1..], i + 1, n - 1);
      assert bs[1..][n..] == bs[n + 1..];
    }
  }

  /** If there is none among ten bytes, the number is too large; if there is none at all, it is incomplete. */
  lemma {:induction false} DecodedUnfinished(bs: seq<byte>, i: nat)
    requires i <= MAX_VARINT_LEN && Continues(bs, if |bs| <= 10 - i then |bs| else 10 - i)
    ensures DecodeUvarint(bs, i) == Err(if |bs| < 10 - i then EndOfInput else Overflow)
    decreases MAX_VARINT_LEN - i
  {
    if bs != [] && i < MAX_VARINT_LEN {
      DecodedUnfinished(bs[1..], i + 1);
    }
  }

  /** Nothing read is ever too large for 64 bits. */
  lemma {:induction false} DecodedBelow(bs: seq<byte>, i: nat)
    requires i < MAX_VARINT_LEN
    ensures DecodeUvarint(bs, i).Ok? ==> DecodeUvarint(bs, i).value < Limit(i)
    decreases MAX_VARINT_LEN - i
  {
    if bs != [] && bs[0] >= 128 && i + 1 < MAX_VARINT_LEN {
      DecodedBelow(bs[1..], i + 1);
    }
    LimitAtLeast(i);
  }

  lemma {:induction false} LimitAtLeast(i: nat)
    requires i < MAX_VARINT_LEN
    ensures i < MAX_VARINT_LEN - 1 ==> Limit(i) >= 256
    decreases MAX_VARINT_LEN - i
  {
    if i < MAX_VARINT_LEN - 1 {
      LimitAtLeast(i + 1);
    }
  }

  // ---------------------------------------------------------------------------
  // Strings and options
  // ---------------------------------------------------------------------------

  function EncodeString(s: seq<byte>): seq<byte> {
    EncodeUvarint(|s|) + s
  }

  function DecodeString(bs: seq<byte>): Read<seq<byte>> {
    match DecodeUvarint(bs, 0)
    case Err(e) => Err(e)
    case Ok(n, rest) => if n > |rest| then Err(BadString) else Ok(rest[..n], rest[n..])
  }

  lemma StringRoundTrip(s: seq<byte>, rest: seq<byte>)
    requires |s| < UINT_LIMIT
    ensures DecodeString(EncodeString(s) + rest) == Ok(s, rest)
  {
    hide EncodeUvarint, DecodeUvarint;
    UvarintRoundTrip(|s|, s + rest);
    assert EncodeString(s) + rest == EncodeUvarint(|s|) + (s + rest);
    assert (s + rest)[..|s|] == s && (s + rest)[|s|..] == rest;
  }

  /** A string is read if and only if as many bytes are left as announced. */
  lemma DecodedString(n: nat, bs: seq<byte>)
    requires n < UINT_LIMIT
    ensures DecodeString(EncodeUvarint(n) + bs) == if n <= |bs| then Ok(bs[..n], bs[n..]) else Err(BadString)
  {
    hide EncodeUvarint, DecodeUvarint;
    UvarintRoundTrip(n, bs);
  }

  function EncodeOption(o: Option<nat>): seq<byte> {
    match o
    case None => EncodeUvarint(0)
    case Some(v) => EncodeUvarint(1) + EncodeUvarint(v)
  }

  function DecodeOption(bs: seq<byte>): Read<Option<nat>> {
    match DecodeUvarint(bs, 0)
    case Err(e) => Err(e)
    case Ok(tag, rest) =>
      if tag == 0 then Ok(None, rest)
      else if tag == 1 then
        match DecodeUvarint(rest, 0)
        case Err(e) => Err(e)
        case Ok(v, rest') => Ok(Some(v), rest')
      else Err(BadTag)
  }

  lemma OptionRoundTrip(o: Option<nat>, rest: seq<byte>)
    requires o.Some? ==> o.value < UINT_LIMIT
    ensures DecodeOption(EncodeOption(o) + rest) == Ok(o, rest)
  {
    hide EncodeUvarint, DecodeUvarint;
    match o
    case None => UvarintRoundTrip(0, rest);
    case Some(v) =>
      UvarintRoundTrip(1, EncodeUvarint(v) + rest);
      UvarintRoundTrip(v, rest);
      assert EncodeOption(o) + rest == EncodeUvarint(1) + (EncodeUvarint(v) + rest);
  }

  /** An option starts with 0 or 1, and nothing else. */
  lemma DecodedOption(tag: nat, bs: seq<byte>)
    requires tag < UINT_LIMIT
    ensures DecodeOption(EncodeUvarint(tag) + bs).Err? <==> tag >= 2 || (tag == 1 && DecodeUvarint(bs, 0).Err?)
    ensures tag >= 2 ==> DecodeOption(EncodeUvarint(tag) + bs) == Err(BadTag)
  {
    hide EncodeUvarint, DecodeUvarint;
    UvarintRoundTrip(tag, bs);
  }

  // ---------------------------------------------------------------------------
  // Column descriptors
  // ---------------------------------------------------------------------------

  datatype ColumnDescriptor = ColumnDescriptor(name: seq<byte>, bitwidth: Option<nat>)

  ghost predicate DescriptorFits(d: ColumnDescriptor) {
    |d.name| < UINT_LIMIT && (d.bitwidth.Some? ==> d.bitwidth.value < UINT_LIMIT)
  }

  function EncodeDescriptor(d: ColumnDescriptor): seq<byte> {
    EncodeString(d.name) + EncodeOption(d.bitwidth)
  }

  function DecodeDescriptor(bs: seq<byte>): Read<ColumnDescriptor> {
    match DecodeString(bs)
    case Err(e) => Err(e)
    case Ok(name, rest) =>
      match DecodeOption(rest)
      case Err(e) => Err(e)
      case Ok(bitwidth, rest') => Ok(ColumnDescriptor(name, bitwidth), rest')
  }

  lemma DescriptorRoundTrip(d: ColumnDescriptor, rest: seq<byte>)
    requires DescriptorFits(d)
    ensures DecodeDescriptor(EncodeDescriptor(d) + rest) == Ok(d, rest)
  {
    hide EncodeString, DecodeString, EncodeOption, DecodeOption;
    StringRoundTrip(d.name, EncodeOption(d.bitwidth) + rest);
    OptionRoundTrip(d.bitwidth, rest);
    assert EncodeDescriptor(d) + rest == EncodeString(d.name) + (EncodeOption(d.bitwidth) + rest);
  }

  function EncodeItems(ds: seq<ColumnDescriptor>): seq<byte> {
    if ds == [] then [] else EncodeDescriptor(ds[0]) + EncodeItems(ds[1..])
  }

  function DecodeItems(n: nat, bs: seq<byte>): Read<seq<ColumnDescriptor>> {
    if n == 0 then Ok([], bs)
    else
      match DecodeDescriptor(bs)
      case Err(e) => Err(e)
      case Ok(d, rest) =>
        match DecodeItems(n - 1, rest)
        case Err(e) => Err(e)
        case Ok(ds, rest') => Ok([d] + ds, rest')
  }

  function EncodeDescriptors(ds: seq<ColumnDescriptor>): seq<byte> {
    EncodeUvarint(|ds|) + EncodeItems(ds)
  }

  function DecodeDescriptors(bs: seq<byte>): Read<seq<ColumnDescriptor>> {
    match DecodeUvarint(bs, 0)
    case Err(e) => Err(e)
    case Ok(n, rest) => DecodeItems(n, rest)
  }

  lemma {:induction false} ItemsRoundTrip(ds: seq<ColumnDescriptor>, rest: seq<byte>)
    requires forall d :: d in ds ==> DescriptorFits(d)
    ensures DecodeItems(|ds|, EncodeItems(ds) + rest) == Ok(ds, rest)
  {
    hide EncodeDescriptor, DecodeDescriptor, DescriptorFits;
    if ds == [] {
      assert EncodeItems(ds) + rest == rest;
    } else {
      DescriptorRoundTrip(ds[0], EncodeItems(ds[1..]) + rest);
      ItemsRoundTrip(ds[1..], rest);
      assert EncodeItems(ds) + rest == EncodeDescriptor(ds[0]) + (EncodeItems(ds[1..]) + rest);
      assert ds == [ds[0]] + ds[1..];
    }
  }

  lemma DescriptorsRoundTrip(ds: seq<ColumnDescriptor>, rest: seq<byte>)
    requires |ds| < UINT_LIMIT && forall d :: d in ds ==> DescriptorFits(d)
    ensures DecodeDescriptors(EncodeDescriptors(ds) + rest) == Ok(ds, rest)
  {
    hide EncodeUvarint, DecodeUvarint, EncodeItems, DecodeItems, DescriptorFits;
    UvarintRoundTrip(|ds|, EncodeItems(ds) + rest);
    ItemsRoundTrip(ds, rest);
    assert EncodeDescriptors(ds) + rest == EncodeUvarint(|ds|) + (EncodeItems(ds) + rest);
  }
}

/** Encodings of entire traces, given one for columns. */
module TraceCodec {
  import opened Options
  import opened Encodings

  type Column = seq<nat>

  /**
   * How the columns of a given bitwidth and height are encoded. Not all columns can be represented at
   * all bitwidths.
   */
  datatype ColumnCodec = ColumnCodec(
    fits: (nat, Column) -> bool,
    encode: (nat, Column) -> seq<byte>,
    decode: (nat, nat, seq<byte>) -> Read<Column>)

  ghost predicate RoundTrips(codec: ColumnCodec) {
    forall width: nat, column: Column, rest: seq<byte> :: codec.fits(width, column) ==>
      codec.decode(width, |column|, codec.encode(width, column) + rest) == Ok(column, rest)
  }

  datatype ModuleDescriptor = ModuleDescriptor(name: seq<byte>, columns: seq<ColumnDescriptor>, replicated: bool)

  datatype Module = Module(height: nat, descriptor: ModuleDescriptor, columns: seq<Column>)

  type Shard = seq<Module>

  type Trace = seq<Shard>

  const MAX_UINT: nat := UINT_LIMIT - 1

  /** The bitwidth of a column, where none at all stands for the largest. */
  function WidthOf(d: ColumnDescriptor): nat {
    if d.bitwidth.Some? then d.bitwidth.value else MAX_UINT
  }

  /** A module as constructed: one column per descriptor, all of them of its height. */
  ghost predicate ModuleFits(codec: ColumnCodec, m: Module) {
    && HeaderFits(m)
    && |m.columns| == |m.descriptor.columns|
    && (m.columns == [] ==> m.height == 0)
    && forall i :: 0 <= i < |m.columns| ==>
         && |m.columns[i]| == m.height
         && (match m.descriptor.columns[i].bitwidth
             case Some(width) => codec.fits(width, m.columns[i])
             case None => codec.fits(0xFFFF_FFFF_FFFF_FFFF, m.columns[i]))
  }

  function EncodeColumns(codec: ColumnCodec, ds: seq<ColumnDescriptor>, columns: seq<Column>): seq<byte> {
    if ds == [] || columns == [] then []
    else codec.encode(WidthOf(ds[0]), columns[0]) + EncodeColumns(codec, ds[1..], columns[1..])
  }

  function DecodeColumns(codec: ColumnCodec, ds: seq<ColumnDescriptor>, height: nat, bs: seq<byte>): Read<seq<Column>> {
    if ds == [] then Ok([], bs)
    else
      match codec.decode(WidthOf(ds[0]), height, bs)
      case Err(e) => Err(e)
      case Ok(column, rest) =>
        match DecodeColumns(codec, ds[1..], height, rest)
        case Err(e) => Err(e)
        case Ok(columns, rest') => Ok([column] + columns, rest')
  }

  lemma ColumnRoundTrip(codec: ColumnCodec, width: nat, column: Column, rest: seq<byte>)
    requires RoundTrips(codec) && codec.fits(width, column)
    ensures codec.decode(width, |column|, codec.encode(width, column) + rest) == Ok(column, rest)
  {
  }

  lemma {:induction false} ColumnsRoundTrip(
    codec: ColumnCodec, ds: seq<ColumnDescriptor>, columns: seq<Column>, height: nat, rest: seq<byte>)
    requires RoundTrips(codec) && |ds| == |columns|
    requires forall i :: 0 <= i < |columns| ==> |columns[i]| == height
    requires forall i :: 0 <= i < |columns| ==>
               match ds[i].bitwidth
               case Some(width) => codec.fits(width, columns[i])
               case None => codec.fits(0xFFFF_FFFF_FFFF_FFFF, columns[i])
    ensures DecodeColumns(codec, ds, height, EncodeColumns(codec, ds, columns) + rest) == Ok(columns, rest)
  {
    hide DescriptorFits, RoundTrips;
    if ds == [] {
      assert EncodeColumns(codec, ds, columns) + rest == rest;
    } else {
      var head, tail := codec.encode(WidthOf(ds[0]), columns[0]), EncodeColumns(codec, ds[1..], columns[1..]);
      ColumnsRoundTrip(codec, ds[1..], columns[1..], height, rest);
      ColumnRoundTrip(codec, WidthOf(ds[0]), columns[0], tail + rest);
      assert EncodeColumns(codec, ds, columns) + rest == head + (tail + rest);
      assert columns == [columns[0]] + columns[1..];
    }
  }

  /** A column is written and read at its declared width, and at the largest one where none is declared. */
  lemma OneColumn(codec: ColumnCodec, d: ColumnDescriptor, column: Column, height: nat, bs: seq<byte>)
    ensures EncodeColumns(codec, [d], [column]) ==
            codec.encode(if d.bitwidth == None then 0xFFFF_FFFF_FFFF_FFFF else d.bitwidth.value, column)
    ensures var r := codec.decode(if d.bitwidth == None then 0xFFFF_FFFF_FFFF_FFFF else d.bitwidth.value, height, bs);
            DecodeColumns(codec, [d], height, bs) == if r.Ok? then Ok([r.value], r.rest) else Err(r.error)
  {
    assert [d][1..] == [] && [column][1..] == [];
    assert EncodeColumns(codec, [], []) == [];
    match codec.decode(WidthOf(d), height, bs)
    case Err(_) =>
    case Ok(c, rest) =>
      assert DecodeColumns(codec, [], height, rest) == Ok([], rest);
      assert [c] + [] == [c];
  }

  // ---------------------------------------------------------------------------
  // Modules
  // ---------------------------------------------------------------------------

  function EncodeModule(codec: ColumnCodec, m: Module): seq<byte> {
    EncodeString(m.descriptor.name) + EncodeDescriptors(m.descriptor.columns)
    + EncodeUvarint(if m.descriptor.replicated then 1 else 0) + EncodeUvarint(m.height)
    + EncodeColumns(codec, m.descriptor.columns, m.columns)
  }

  /** Everything about a module besides its columns. */
  datatype Header = Header(descriptor: ModuleDescriptor, height: nat)

  function DecodeHeader(bs: seq<byte>): Read<Header> {
    match DecodeString(bs)
    case Err(e) => Err(e)
    case Ok(name, rest1) =>
      match DecodeDescriptors(rest1)
      case Err(e) => Err(e)
      case Ok(columns, rest2) =>
        match DecodeUvarint(rest2, 0)
        case Err(e) => Err(e)
        case Ok(metadata, rest3) =>
          match DecodeUvarint(rest3, 0)
          case Err(e) => Err(e)
          case Ok(height, rest4) => Ok(Header(ModuleDescriptor(name, columns, metadata != 0), height), rest4)
  }

  /** Construct a module from its columns, the height being theirs. */
  function Assemble(descriptor: ModuleDescriptor, columns: seq<Column>): Option<Module> {
    if |columns| != |descriptor.columns| then None
    else if columns == [] then Some(Module(0, descriptor, columns))
    else if forall c :: c in columns ==> |c| == |columns[0]| then Some(Module(|columns[0]|, descriptor, columns))
    else None
  }

  /** A module has one column per descriptor, all of which have its height. */
  lemma AssembledIff(descriptor: ModuleDescriptor, columns: seq<Column>)
    ensures Assemble(descriptor, columns).Some? <==>
              |columns| == |descriptor.columns| && forall c, d :: c in columns && d in columns ==> |c| == |d|
    ensures Assemble(descriptor, columns).Some? ==>
              var m := Assemble(descriptor, columns).value;
              && m.descriptor == descriptor && m.columns == columns
              && (columns == [] ==> m.height == 0) && forall c :: c in columns ==> |c| == m.height
  {
    assert columns != [] ==> columns[0] in columns;
  }

  function DecodeModule(codec: ColumnCodec, bs: seq<byte>): Read<Module> {
    match DecodeHeader(bs)
    case Err(e) => Err(e)
    case Ok(header, rest) =>
      match DecodeColumns(codec, header.descriptor.columns, header.height, rest)
      case Err(e) => Err(e)
      case Ok(columns, rest') =>
        match Assemble(header.descriptor, columns)
        case None => Err(BadModule)
        case Some(m) => Ok(m, rest')
  }

  ghost predicate HeaderFits(m: Module) {
    && |m.descriptor.name| < UINT_LIMIT && |m.descriptor.columns| < UINT_LIMIT && m.height < UINT_LIMIT
    && forall d :: d in m.descriptor.columns ==> DescriptorFits(d)
  }

  /** Any metadata other than 0 says that a module is replicated. */
  lemma HeaderRoundTrip(m: Module, metadata: nat, rest: seq<byte>)
    requires HeaderFits(m) && metadata < UINT_LIMIT && (m.descriptor.replicated <==> metadata != 0)
    ensures var d := m.descriptor;
            DecodeHeader(EncodeString(d.name) + (EncodeDescriptors(d.columns) +
              (EncodeUvarint(metadata) + (EncodeUvarint(m.height) + rest))))
            == Ok(Header(d, m.height), rest)
  {
    hide EncodeUvarint, DecodeUvarint, EncodeString, DecodeString, EncodeDescriptors, DecodeDescriptors;
    var d := m.descriptor;
    var tail3 := EncodeUvarint(m.height) + rest;
    var tail2 := EncodeUvarint(metadata) + tail3;
    var tail1 := EncodeDescriptors(d.columns) + tail2;
    StringRoundTrip(d.name, tail1);
    DescriptorsRoundTrip(d.columns, tail2);
    UvarintRoundTrip(metadata, tail3);
    UvarintRoundTrip(m.height, rest);
  }

  lemma EncodedModule(codec: ColumnCodec, m: Module, rest: seq<byte>)
    ensures var d := m.descriptor;
            EncodeModule(codec, m) + rest ==
            EncodeString(d.name) + (EncodeDescriptors(d.columns) +
              (EncodeUvarint(if d.replicated then 1 else 0) + (EncodeUvarint(m.height) +
                (EncodeColumns(codec, d.columns, m.columns) + rest))))
  {
    hide EncodeUvarint, EncodeString, EncodeDescriptors, EncodeColumns;
  }

  lemma ModuleRoundTrip(codec: ColumnCodec, m: Module, rest: seq<byte>)
    requires RoundTrips(codec) && ModuleFits(codec, m)
    ensures DecodeModule(codec, EncodeModule(codec, m) + rest) == Ok(m, rest)
  {
    hide EncodeUvarint, EncodeString, EncodeDescriptors, DecodeHeader, EncodeColumns, DecodeColumns, DescriptorFits;
    var d := m.descriptor;
    var body := EncodeColumns(codec, d.columns, m.columns) + rest;
    HeaderRoundTrip(m, if d.replicated then 1 else 0, body);
    EncodedModule(codec, m, rest);
    ColumnsRoundTrip(codec, d.columns, m.columns, m.height, rest);
    assert Assemble(d, m.columns) == Some(m);
  }

  // ---------------------------------------------------------------------------
  // Traces
  // ---------------------------------------------------------------------------

  const MAGIC: seq<byte> := [114, 116, 114, 97, 99, 101, 0, 2]

  function EncodeShard(codec: ColumnCodec, s: Shard): seq<byte> {
    if s == [] then [] else EncodeModule(codec, s[0]) + EncodeShard(codec, s[1..])
  }

  function DecodeShard(codec: ColumnCodec, n: nat, bs: seq<byte>): Read<Shard> {
    if n == 0 then Ok([], bs)
    else
      match DecodeModule(codec, bs)
      case Err(e) => Err(e)
      case Ok(m, rest) =>
        match DecodeShard(codec, n - 1, rest)
        case Err(e) => Err(e)
        case Ok(s, rest') => Ok([m] + s, rest')
  }

  lemma {:induction false} ShardRoundTrip(codec: ColumnCodec, s: Shard, rest: seq<byte>)
    requires RoundTrips(codec) && forall m :: m in s ==> ModuleFits(codec, m)
    ensures DecodeShard(codec, |s|, EncodeShard(codec, s) + rest) == Ok(s, rest)
  {
    hide EncodeModule, DecodeModule, ModuleFits, RoundTrips;
    if s == [] {
      assert EncodeShard(codec, s) + rest == rest;
    } else {
      ModuleRoundTrip(codec, s[0], EncodeShard(codec, s[1..]) + rest);
      ShardRoundTrip(codec, s[1..], rest);
      assert EncodeShard(codec, s) + rest == EncodeModule(codec, s[0]) + (EncodeShard(codec, s[1..]) + rest);
      assert s == [s[0]] + s[1..];
    }
  }

  function EncodeShards(codec: ColumnCodec, tr: Trace): seq<byte> {
    if tr == [] then [] else EncodeShard(codec, tr[0]) + EncodeShards(codec, tr[1..])
  }

  function DecodeShards(codec: ColumnCodec, n: nat, width: nat, bs: seq<byte>): Read<Trace> {
    if n == 0 then Ok([], bs)
    else
      match DecodeShard(codec, width, bs)
      case Err(e) => Err(e)
      case Ok(s, rest) =>
        match DecodeShards(codec, n - 1, width, rest)
        case Err(e) => Err(e)
        case Ok(tr, rest') => Ok([s] + tr, rest')
  }

  lemma {:induction false} ShardsRoundTrip(codec: ColumnCodec, tr: Trace, width: nat, rest: seq<byte>)
    requires RoundTrips(codec)
    requires forall s :: s in tr ==> |s| == width && forall m :: m in s ==> ModuleFits(codec, m)
    ensures DecodeShards(codec, |tr|, width, EncodeShards(codec, tr) + rest) == Ok(tr, rest)
  {
    hide EncodeShard, DecodeShard, ModuleFits, RoundTrips;
    if tr == [] {
      assert EncodeShards(codec, tr) + rest == rest;
    } else {
      ShardRoundTrip(codec, tr[0], EncodeShards(codec, tr[1..]) + rest);
      ShardsRoundTrip(codec, tr[1..], width, rest);
      assert EncodeShards(codec, tr) + rest == EncodeShard(codec, tr[0]) + (EncodeShards(codec, tr[1..]) + rest);
      assert tr == [tr[0]] + tr[1..];
    }
  }

  /** Traces which can be encoded: there is at least one shard, and all have equally many modules. */
  ghost predicate TraceFits(codec: ColumnCodec, tr: Trace) {
    && 0 < |tr| < UINT_LIMIT && |tr[0]| < UINT_LIMIT
    && forall s :: s in tr ==> |s| == |tr[0]| && forall m :: m in s ==> ModuleFits(codec, m)
  }

  function EncodeTrace(codec: ColumnCodec, tr: Trace): seq<byte>
    requires tr != []
  {
    MAGIC + EncodeUvarint(|tr|) + EncodeUvarint(|tr[0]|) + EncodeShards(codec, tr)
  }

  function DecodeTrace(codec: ColumnCodec, bs: seq<byte>): Read<Trace> {
    if |bs| < |MAGIC| || bs[..|MAGIC|] != MAGIC then Err(BadHeader)
    else
      match DecodeUvarint(bs[|MAGIC|..], 0)
      case Err(e) => Err(e)
      case Ok(n, rest1) =>
        match DecodeUvarint(rest1, 0)
        case Err(e) => Err(e)
        case Ok(width, rest2) => DecodeShards(codec, n, width, rest2)
  }

  /** A trace is read back from its encoding, whatever comes after that. */
  lemma TraceRoundTrip(codec: ColumnCodec, tr: Trace, rest: seq<byte>)
    requires RoundTrips(codec) && TraceFits(codec, tr)
    ensures DecodeTrace(codec, EncodeTrace(codec, tr) + rest) == Ok(tr, rest)
  {
    hide EncodeUvarint, DecodeUvarint, EncodeShards, DecodeShards, ModuleFits, RoundTrips;
    var tail2 := EncodeShards(codec, tr) + rest;
    var tail1 := EncodeUvarint(|tr[0]|) + tail2;
    var bs := EncodeTrace(codec, tr) + rest;
    assert bs == MAGIC + (EncodeUvarint(|tr|) + tail1);
    assert bs[..|MAGIC|] == MAGIC && bs[|MAGIC|..] == EncodeUvarint(|tr|) + tail1;
    UvarintRoundTrip(|tr|, tail1);
    UvarintRoundTrip(|tr[0]|, tail2);
    ShardsRoundTrip(codec, tr, |tr[0]|, rest);
  }

  lemma EncodedDescriptor(d: ColumnDescriptor, name: byte)
    requires d.name == [name] && (d.bitwidth.Some? ==> d.bitwidth.value < 128)
    ensures EncodeDescriptors([d]) ==
            [1, 1, name] + (if d.bitwidth.Some? then [1, d.bitwidth.value as byte] else [0])
  {
    EncodedByte(0);
    EncodedByte(1);
    assert EncodeString(d.name) == [1, name];
    assert EncodeItems([d]) == EncodeDescriptor(d) by {
      assert [d][1..] == [];
      assert EncodeItems([]) == [];
    }
  }

  /** The bytes of a module called m with one column called x. */
  lemma EncodedSmallModule(codec: ColumnCodec, width: Option<nat>, column: Column, replicated: bool)
    requires |column| < 128 && (width.Some? ==> width.value < 128)
    ensures EncodeModule(codec, SmallModule(width, column, replicated)) ==
              [1, 109] + [1, 1, 120] + (if width.Some? then [1, width.value as byte] else [0])
              + [if replicated then 1 else 0] + [|column| as byte]
              + codec.encode(if width.Some? then width.value else 0xFFFF_FFFF_FFFF_FFFF, column)
  {
    var d := ColumnDescriptor([120], width);
    EncodedDescriptor(d, 120);
    OneColumn(codec, d, column, 0, []);
    EncodedByte(1);
    EncodedByte(|column|);
    EncodedByte(0);
    assert EncodeString([109]) == [1, 109];
    hide EncodeColumns, EncodeUvarint, EncodeString, EncodeDescriptors;
  }

  function SmallModule(width: Option<nat>, column: Column, replicated: bool): Module {
    Module(|column|, ModuleDescriptor([109], [ColumnDescriptor([120], width)], replicated), [column])
  }

  /** A trace starts with its header and the numbers of shards and of modules in each. */
  lemma EncodedSmallTrace(codec: ColumnCodec, m: Module)
    ensures EncodeTrace(codec, [[m]]) == [114, 116, 114, 97, 99, 101, 0, 2] + [1] + [1] + EncodeModule(codec, m)
  {
    EncodedByte(1);
    SingleModule(codec, m);
    hide EncodeModule, EncodeUvarint, EncodeShards;
  }

  lemma SingleModule(codec: ColumnCodec, m: Module)
    ensures EncodeShards(codec, [[m]]) == EncodeModule(codec, m)
  {
    hide EncodeModule;
    assert [m][1..] == [] && [[m]][1..] == [];
    assert EncodeShard(codec, []) == [] && EncodeShards(codec, []) == [];
    assert EncodeShard(codec, [m]) == EncodeModule(codec, m);
  }

  /** Nothing which starts otherwise is a trace. */
  lemma DecodedHeader(codec: ColumnCodec, bs: seq<byte>)
    ensures DecodeTrace(codec, bs) == Err(BadHeader) || [114, 116, 114, 97, 99, 101, 0, 2] <= bs
  {
  }

  /** Two traces with the same encoding are the same. */
  lemma EncodingInjective(codec: ColumnCodec, tr: Trace, other: Trace)
    requires RoundTrips(codec) && TraceFits(codec, tr) && TraceFits(codec, other)
    requires EncodeTrace(codec, tr) == EncodeTrace(codec, other)
    ensures tr == other
  {
    hide EncodeTrace, DecodeTrace, TraceFits, RoundTrips;
    TraceRoundTrip(codec, tr, []);
    TraceRoundTrip(codec, other, []);
  }

  /** A module without columns cannot keep a height of its own. */
  lemma EmptyModuleLosesHeight(codec: ColumnCodec, m: Module, rest: seq<byte>)
    requires |m.descriptor.name| < UINT_LIMIT && 0 < m.height < UINT_LIMIT
    requires m.columns == [] && m.descriptor.columns == []
    ensures DecodeModule(codec, EncodeModule(codec, m) + rest) == Ok(m.(height := 0), rest)
  {
    assert EncodeColumns(codec, [], []) == [];
    hide EncodeUvarint, EncodeString, EncodeDescriptors, DecodeHeader, EncodeColumns;
    assert [] + rest == rest;
    HeaderRoundTrip(m, if m.descriptor.replicated then 1 else 0, rest);
    EncodedModule(codec, m, rest);
  }
}

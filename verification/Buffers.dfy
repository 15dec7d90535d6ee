// Writing to and reading from a byte buffer.
module Buffers {
  import opened Options
  import opened Encodings
  import opened TraceCodec

  /** What was read from a buffer, and what remains of it, is what decoding says; or else the error is. */
  ghost predicate Yields<T>(r: Read<T>, value: T, err: Option<Error>, rest: seq<byte>) {
    match r
    case Ok(v, rest') => err == None && value == v && rest == rest'
    case Err(e) => err == Some(e)
  }

  // A number of which some digits are known already.
  function Continue(x: nat, scale: nat, r: Read<nat>): Read<nat> {
    match r
    case Ok(v, rest) => Ok(x + scale * v, rest)
    case Err(e) => Err(e)
  }

  lemma ContinueDigit(x: nat, scale: nat, digit: nat, r: Read<nat>)
    ensures Continue(x + scale * digit, scale * 128, r) == Continue(x, scale, Continue(digit, 128, r))
  {
    if r.Ok? {
      assert (scale * 128) * r.value == scale * (128 * r.value);
      assert scale * (digit + 128 * r.value) == scale * digit + scale * (128 * r.value);
    }
  }

  lemma ContinueNothing(r: Read<nat>)
    ensures Continue(0, 1, r) == r
  {
  }

  lemma TooManyDigits(x: nat, scale: nat, bs: seq<byte>)
    ensures Continue(x, scale, DecodeUvarint(bs, MAX_VARINT_LEN)) == Err(Overflow)
  {
  }

  // What a byte, if there is one, adds to a number of which some digits are known already.
  lemma ReadDigit(x: nat, scale: nat, bs: seq<byte>, i: nat)
    requires i < MAX_VARINT_LEN
    ensures Continue(x, scale, DecodeUvarint(bs, i)) ==
            if bs == [] then Err(EndOfInput)
            else if bs[0] >= 128 then
              Continue(x + scale * (bs[0] as nat - 128), scale * 128, DecodeUvarint(bs[1..], i + 1))
            else if i == MAX_VARINT_LEN - 1 && bs[0] > 1 then Err(Overflow)
            else Ok(x + scale * bs[0] as nat, bs[1..])
  {
    if bs != [] && bs[0] >= 128 {
      assert DecodeUvarint(bs, i) == Continue(bs[0] as nat - 128, 128, DecodeUvarint(bs[1..], i + 1));
      ContinueDigit(x, scale, bs[0] as nat - 128, DecodeUvarint(bs[1..], i + 1));
    }
  }

  class Buffer {
    var data: seq<byte>

    constructor (data: seq<byte>)
      ensures this.data == data
    {
      this.data := data;
    }

    method Write(bs: seq<byte>)
      modifies this
      ensures data == old(data) + bs
    {
      data := data + bs;
    }

    /** Take the next n bytes, or as many as there are. */
    method Next(n: nat) returns (bs: seq<byte>)
      modifies this
      ensures if n <= |old(data)| then bs == old(data)[..n] && data == old(data)[n..] else bs == old(data) && data == []
    {
      if n <= |data| {
        bs := data[..n];
        data := data[n..];
      } else {
        bs := data;
        data := [];
      }
    }

    method WriteUvarint(value: nat)
      modifies this
      ensures data == old(data) + EncodeUvarint(value)
      ensures value < 128 ==> data == old(data) + [value as byte]
    {
      var x := value;
      var bytes: seq<byte> := [];
      while x >= 128
        invariant bytes + EncodeUvarint(x) == EncodeUvarint(value)
      {
        var low := (x % 128 + 128) as byte;
        assert EncodeUvarint(x) == [low] + EncodeUvarint(x / 128);
        bytes := bytes + [low];
        x := x / 128;
      }
      bytes := bytes + [x as byte];
      Write(bytes);
    }

    method ReadUvarint() returns (value: nat, err: Option<Error>)
      modifies this
      ensures Yields(DecodeUvarint(old(data), 0), value, err, data)
    {
      hide DecodeUvarint, Continue;
      var x: nat, scale: nat := 0, 1;
      ContinueNothing(DecodeUvarint(data, 0));
      for i := 0 to MAX_VARINT_LEN
        invariant DecodeUvarint(old(data), 0) == Continue(x, scale, DecodeUvarint(data, i))
      {
        ReadDigit(x, scale, data, i);
        if data == [] {
          return x, Some(EndOfInput);
        }
        var b := data[0] as nat;
        data := data[1..];
        if b < 128 {
          if i == MAX_VARINT_LEN - 1 && b > 1 {
            return x, Some(Overflow);
          }
          return x + scale * b, None;
        }
        x := x + scale * (b - 128);
        scale := scale * 128;
      }
      TooManyDigits(x, scale, data);
      return x, Some(Overflow);
    }

    method WriteString(s: seq<byte>)
      modifies this
      ensures data == old(data) + EncodeString(s)
    {
      WriteUvarint(|s|);
      Write(s);
    }

    method ReadString() returns (s: seq<byte>, err: Option<Error>)
      modifies this
      ensures Yields(DecodeString(old(data)), s, err, data)
    {
      var length;
      length, err := ReadUvarint();
      if err.Some? {
        return [], err;
      } else if length > |data| {
        return [], Some(BadString);
      }
      s := Next(length);
    }

    method WriteOption(o: Option<nat>)
      modifies this
      ensures data == old(data) + EncodeOption(o)
    {
      if o.None? {
        WriteUvarint(0);
      } else {
        WriteUvarint(1);
        WriteUvarint(o.value);
      }
    }

    method ReadOption() returns (o: Option<nat>, err: Option<Error>)
      modifies this
      ensures Yields(DecodeOption(old(data)), o, err, data)
    {
      hide DecodeUvarint;
      var tag;
      tag, err := ReadUvarint();
      if err.Some? {
        return None, err;
      }
      match tag {
        case 0 =>
          return None, None;
        case 1 =>
          var value;
          value, err := ReadUvarint();
          if err.Some? {
            return None, err;
          }
          return Some(value), None;
        case _ =>
          return None, Some(BadTag);
      }
    }

    method WriteDescriptors(ds: seq<ColumnDescriptor>)
      modifies this
      ensures data == old(data) + EncodeDescriptors(ds)
    {
      hide EncodeUvarint, EncodeString, EncodeOption;
      WriteUvarint(|ds|);
      ghost var start := data;
      assert ds[0..] == ds;
      for i := 0 to |ds|
        invariant data + EncodeItems(ds[i..]) == start + EncodeItems(ds)
      {
        assert ds[i..][1..] == ds[i + 1..];
        ghost var before, item := data, EncodeDescriptor(ds[i]);
        WriteString(ds[i].name);
        WriteOption(ds[i].bitwidth);
        assert data == before + item;
        assert before + (item + EncodeItems(ds[i + 1..])) == data + EncodeItems(ds[i + 1..]);
      }
      assert data + [] == data;
    }

    method ReadDescriptor() returns (d: ColumnDescriptor, err: Option<Error>)
      modifies this
      ensures Yields(DecodeDescriptor(old(data)), d, err, data)
    {
      hide DecodeString, DecodeOption;
      var r := new Reader(this);
      var name := r.Str();
      var bitwidth := r.OptionUint();
      return ColumnDescriptor(name, bitwidth), r.err;
    }

    method ReadDescriptors() returns (ds: seq<ColumnDescriptor>, err: Option<Error>)
      modifies this
      ensures Yields(DecodeDescriptors(old(data)), ds, err, data)
    {
      hide DecodeUvarint, DecodeDescriptor;
      var n;
      n, err := ReadUvarint();
      if err.Some? {
        return [], err;
      }
      ghost var start := data;
      ds := [];
      PrependNothing(DecodeItems(n, start));
      for i := 0 to n
        invariant err == None && DecodeItems(n, start) == Prepend(ds, DecodeItems(n - i, data))
      {
        ghost var before := data;
        var d;
        d, err := ReadDescriptor();
        if err.Some? {
          return [], err;
        }
        PrependNext(ds, d, DecodeItems(n - i - 1, data));
        ds := ds + [d];
      }
      PrependAll(ds, data);
    }
  }

  function Prepend<T>(xs: seq<T>, r: Read<seq<T>>): Read<seq<T>> {
    match r
    case Ok(ys, rest) => Ok(xs + ys, rest)
    case Err(e) => Err(e)
  }

  lemma PrependNothing<T>(r: Read<seq<T>>)
    ensures Prepend([], r) == r
  {
    if r.Ok? {
      assert [] + r.value == r.value;
    }
  }

  lemma PrependAll<T>(xs: seq<T>, rest: seq<byte>)
    ensures Prepend(xs, Ok([], rest)) == Ok(xs, rest)
  {
    assert xs + [] == xs;
  }

  lemma PrependNext<T>(xs: seq<T>, x: T, r: Read<seq<T>>)
    ensures Prepend(xs + [x], r) == Prepend(xs, Prepend([x], r))
  {
    if r.Ok? {
      assert xs + [x] + r.value == xs + ([x] + r.value);
    }
  }

  /** A buffer with a sticky error: once a read fails, nothing more is read, and its error is kept. */
  class Reader {
    const buf: Buffer
    var err: Option<Error>

    constructor (buf: Buffer)
      ensures this.buf == buf && err == None
    {
      this.buf := buf;
      err := None;
    }

    method Uvarint() returns (value: nat)
      modifies this, buf
      ensures old(err).Some? ==> err == old(err) && value == 0 && buf.data == old(buf.data)
      ensures old(err).None? ==> Yields(DecodeUvarint(old(buf.data), 0), value, err, buf.data)
    {
      if err.Some? {
        return 0;
      }
      value, err := buf.ReadUvarint();
    }

    method Str() returns (value: seq<byte>)
      modifies this, buf
      ensures old(err).Some? ==> err == old(err) && value == [] && buf.data == old(buf.data)
      ensures old(err).None? ==> Yields(DecodeString(old(buf.data)), value, err, buf.data)
    {
      if err.Some? {
        return [];
      }
      value, err := buf.ReadString();
    }

    method OptionUint() returns (value: Option<nat>)
      modifies this, buf
      ensures old(err).Some? ==> err == old(err) && value == None && buf.data == old(buf.data)
      ensures old(err).None? ==> Yields(DecodeOption(old(buf.data)), value, err, buf.data)
    {
      if err.Some? {
        return None;
      }
      value, err := buf.ReadOption();
    }

    method Descriptors() returns (value: seq<ColumnDescriptor>)
      modifies this, buf
      ensures old(err).Some? ==> err == old(err) && value == [] && buf.data == old(buf.data)
      ensures old(err).None? ==> Yields(DecodeDescriptors(old(buf.data)), value, err, buf.data)
    {
      if err.Some? {
        return [];
      }
      value, err := buf.ReadDescriptors();
    }
  }

  // ---------------------------------------------------------------------------
  // Modules and traces
  // ---------------------------------------------------------------------------

  method MarshalModule(codec: ColumnCodec, buffer: Buffer, m: Module)
    requires |m.columns| == |m.descriptor.columns|
    modifies buffer
    ensures buffer.data == old(buffer.data) + EncodeModule(codec, m)
  {
    hide EncodeUvarint, EncodeString, EncodeDescriptors;
    var metadata := 0;
    if m.descriptor.replicated {
      metadata := 1;
    }
    var ds := m.descriptor.columns;
    buffer.WriteString(m.descriptor.name);
    buffer.WriteDescriptors(ds);
    buffer.WriteUvarint(metadata);
    buffer.WriteUvarint(m.height);
    ghost var start := buffer.data;
    assert ds[0..] == ds && m.columns[0..] == m.columns;
    for i := 0 to |ds|
      invariant buffer.data + EncodeColumns(codec, ds[i..], m.columns[i..])
             == start + EncodeColumns(codec, ds, m.columns)
    {
      assert ds[i..][1..] == ds[i + 1..] && m.columns[i..][1..] == m.columns[i + 1..];
      ghost var before, item := buffer.data, codec.encode(WidthOf(ds[i]), m.columns[i]);
      ghost var tail := EncodeColumns(codec, ds[i + 1..], m.columns[i + 1..]);
      buffer.Write(codec.encode(WidthOf(ds[i]), m.columns[i]));
      assert before + (item + tail) == buffer.data + tail;
    }
    assert buffer.data + [] == buffer.data;
  }

  method UnmarshalModule(codec: ColumnCodec, buffer: Buffer) returns (m: Module, err: Option<Error>)
    modifies buffer
    ensures Yields(DecodeModule(codec, old(buffer.data)), m, err, buffer.data)
  {
    hide DecodeUvarint, DecodeString, DecodeDescriptors;
    var none := Module(0, ModuleDescriptor([], [], false), []);
    var r := new Reader(buffer);
    var name := r.Str();
    var descriptors := r.Descriptors();
    var metadata := r.Uvarint();
    var height := r.Uvarint();
    if r.err.Some? {
      return none, r.err;
    }
    ghost var start := buffer.data;
    var columns: seq<Column> := [];
    PrependNothing(DecodeColumns(codec, descriptors, height, start));
    assert descriptors[0..] == descriptors;
    for cid := 0 to |descriptors|
      invariant DecodeColumns(codec, descriptors, height, start) ==
                Prepend(columns, DecodeColumns(codec, descriptors[cid..], height, buffer.data))
    {
      assert descriptors[cid..][1..] == descriptors[cid + 1..];
      match codec.decode(WidthOf(descriptors[cid]), height, buffer.data) {
        case Err(e) =>
          return none, Some(e);
        case Ok(column, rest) =>
          PrependNext(columns, column, DecodeColumns(codec, descriptors[cid + 1..], height, rest));
          buffer.data := rest;
          columns := columns + [column];
      }
    }
    PrependAll(columns, buffer.data);
    var assembled := Assemble(ModuleDescriptor(name, descriptors, metadata != 0), columns);
    if assembled.None? {
      return none, Some(BadModule);
    }
    return assembled.value, None;
  }

  /** Encode a trace, unless it has no shards or they differ in width. */
  method MarshalBinary(codec: ColumnCodec, tr: Trace) returns (r: Option<seq<byte>>)
    requires forall s, m :: s in tr && m in s ==> |m.columns| == |m.descriptor.columns|
    ensures r == if tr != [] && forall s :: s in tr ==> |s| == |tr[0]| then Some(EncodeTrace(codec, tr)) else None
    ensures r.Some? ==> [114, 116, 114, 97, 99, 101, 0, 2] <= r.value
  {
    hide EncodeUvarint, EncodeModule;
    if tr == [] {
      return None;
    }
    var buffer := new Buffer([]);
    var width := |tr[0]|;
    buffer.Write(MAGIC);
    buffer.WriteUvarint(|tr|);
    buffer.WriteUvarint(width);
    ghost var start := buffer.data;
    assert [] + MAGIC == MAGIC;
    assert tr[0..] == tr;
    for i := 0 to |tr|
      invariant fresh(buffer) && forall k :: 0 <= k < i ==> |tr[k]| == width
      invariant buffer.data + EncodeShards(codec, tr[i..]) == start + EncodeShards(codec, tr)
    {
      if |tr[i]| != width {
        assert tr[i] in tr;
        return None;
      }
      assert tr[i..][1..] == tr[i + 1..];
      ghost var before := buffer.data;
      MarshalShard(codec, buffer, tr[i]);
      assert before + (EncodeShard(codec, tr[i]) + EncodeShards(codec, tr[i + 1..])) ==
             buffer.data + EncodeShards(codec, tr[i + 1..]);
    }
    assert buffer.data + [] == buffer.data;
    return Some(buffer.data);
  }

  method MarshalShard(codec: ColumnCodec, buffer: Buffer, s: Shard)
    requires forall m :: m in s ==> |m.columns| == |m.descriptor.columns|
    modifies buffer
    ensures buffer.data == old(buffer.data) + EncodeShard(codec, s)
  {
    hide EncodeModule;
    assert s[0..] == s;
    for mid := 0 to |s|
      invariant buffer.data + EncodeShard(codec, s[mid..]) == old(buffer.data) + EncodeShard(codec, s)
    {
      assert s[mid] in s && s[mid..][1..] == s[mid + 1..];
      ghost var before := buffer.data;
      MarshalModule(codec, buffer, s[mid]);
      assert before + (EncodeModule(codec, s[mid]) + EncodeShard(codec, s[mid + 1..])) ==
             buffer.data + EncodeShard(codec, s[mid + 1..]);
    }
    assert buffer.data + [] == buffer.data;
  }

  method UnmarshalShard(codec: ColumnCodec, buffer: Buffer, nModules: nat) returns (s: Shard, err: Option<Error>)
    modifies buffer
    ensures Yields(DecodeShard(codec, nModules, old(buffer.data)), s, err, buffer.data)
  {
    hide DecodeModule;
    s := [];
    err := None;
    PrependNothing(DecodeShard(codec, nModules, buffer.data));
    for mid := 0 to nModules
      invariant err == None
      invariant DecodeShard(codec, nModules, old(buffer.data))
             == Prepend(s, DecodeShard(codec, nModules - mid, buffer.data))
    {
      var m;
      m, err := UnmarshalModule(codec, buffer);
      if err.Some? {
        return [], err;
      }
      PrependNext(s, m, DecodeShard(codec, nModules - mid - 1, buffer.data));
      s := s + [m];
    }
    PrependAll(s, buffer.data);
  }

  /** Decode a trace. What comes after it is ignored. */
  method UnmarshalBinary(codec: ColumnCodec, data: seq<byte>) returns (tr: Trace, err: Option<Error>)
    ensures match DecodeTrace(codec, data)
            case Ok(t, _) => err == None && tr == t
            case Err(e) => err == Some(e)
    ensures !([114, 116, 114, 97, 99, 101, 0, 2] <= data) ==> err == Some(BadHeader)
  {
    hide DecodeUvarint, DecodeShard;
    var buffer := new Buffer(data);
    var magic := buffer.Next(|MAGIC|);
    if |magic| != |MAGIC| || magic != MAGIC {
      return [], Some(BadHeader);
    }
    var nShards, nModules;
    nShards, err := buffer.ReadUvarint();
    if err.Some? {
      return [], err;
    }
    nModules, err := buffer.ReadUvarint();
    if err.Some? {
      return [], err;
    }
    ghost var start := buffer.data;
    tr := [];
    PrependNothing(DecodeShards(codec, nShards, nModules, start));
    for shard := 0 to nShards
      invariant fresh(buffer) && err == None
      invariant DecodeShards(codec, nShards, nModules, start) ==
                Prepend(tr, DecodeShards(codec, nShards - shard, nModules, buffer.data))
    {
      var ith;
      ith, err := UnmarshalShard(codec, buffer, nModules);
      if err.Some? {
        return [], err;
      }
      PrependNext(tr, ith, DecodeShards(codec, nShards - shard - 1, nModules, buffer.data));
      tr := tr + [ith];
    }
    PrependAll(tr, buffer.data);
  }

  /** Unmarshalling what was marshalled yields the same trace. */
  method RoundTrip(codec: ColumnCodec, tr: Trace) returns (again: Trace)
    requires RoundTrips(codec) && TraceFits(codec, tr)
    ensures again == tr
  {
    hide ModuleFits, EncodeTrace, DecodeTrace, RoundTrips;
    forall s, m | s in tr && m in s ensures |m.columns| == |m.descriptor.columns| {
      FitsHasColumns(codec, tr, s, m);
    }
    var data := MarshalBinary(codec, tr);
    TraceRoundTrip(codec, tr, []);
    assert data.value + [] == data.value;
    var err;
    again, err := UnmarshalBinary(codec, data.value);
  }

  lemma FitsHasColumns(codec: ColumnCodec, tr: Trace, s: Shard, m: Module)
    requires TraceFits(codec, tr) && s in tr && m in s
    ensures |m.columns| == |m.descriptor.columns|
  {
    assert ModuleFits(codec, m);
  }
}

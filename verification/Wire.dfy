/** The generated wire codec: what Marshal writes, what Unmarshal and skip read, and the laws
    between them. Both generated messages share the same reader, so they are one datatype here. */
module Wire {
  import opened Bytes
  import opened Varint

  datatype Message =
    | TxResult(height: int64, txIndex: uint32, msgIndex: uint32, ethTxIndex: int32,
               failed: bool, gasUsed: uint64, cumulativeGasUsed: uint64)
    | Web3Tx(typedDataChainID: uint64, feePayer: seq<byte>, feePayerSig: Option<seq<byte>>)

  const FRESH_TX_RESULT := TxResult(0, 0, 0, 0, false, 0, 0)
  /** None is Go's nil slice. */
  const FRESH_WEB3_TX := Web3Tx(0, [], None)

  // ----- writing -----

  function VarintField(tag: byte, v: uint64): seq<byte> {
    if v == 0 then [] else [tag] + EncodeVarint(v)
  }

  function BytesField(tag: byte, bs: seq<byte>): seq<byte> {
    if bs == [] then [] else [tag] + EncodeVarint(|bs|) + bs
  }

  function SigBytes(sig: Option<seq<byte>>): seq<byte> {
    if sig.None? then [] else sig.value
  }

  function Bit(b: bool): uint64 { if b then 1 else 0 }

  /** A scalar field on the wire: its tag byte and its value as a uint64. */
  datatype Scalar64 = Scalar64(tag: byte, v: uint64)

  function ScalarFields(m: Message): seq<Scalar64>
    requires m.TxResult?
  {
    [Scalar64(0x08, U64(m.height)), Scalar64(0x10, m.txIndex), Scalar64(0x18, m.msgIndex),
     Scalar64(0x20, U64(m.ethTxIndex)), Scalar64(0x28, Bit(m.failed)), Scalar64(0x30, m.gasUsed),
     Scalar64(0x38, m.cumulativeGasUsed)]
  }

  function EncodeScalars(fs: seq<Scalar64>): seq<byte> {
    if fs == [] then [] else VarintField(fs[0].tag, fs[0].v) + EncodeScalars(fs[1..])
  }

  /** The bytes of a message: fields in ascending order, zero values left out. */
  function Encode(m: Message): seq<byte> {
    if m.TxResult? then EncodeScalars(ScalarFields(m))
    else
      VarintField(0x08, m.typedDataChainID)
      + (BytesField(0x12, m.feePayer) + BytesField(0x1a, SigBytes(m.feePayerSig)))
  }

  function FieldSize(v: nat): nat { if v == 0 then 0 else 1 + Sov(v) }

  function BytesSize(l: nat): nat { if l > 0 then 1 + l + Sov(l) else 0 }

  /** The generated Size method. */
  function Size(m: Message): nat {
    match m
    case TxResult(height, txIndex, msgIndex, ethTxIndex, failed, gasUsed, cumulativeGasUsed) =>
      FieldSize(U64(height)) + FieldSize(txIndex) + FieldSize(msgIndex) + FieldSize(U64(ethTxIndex))
      + (if failed then 2 else 0) + FieldSize(gasUsed) + FieldSize(cumulativeGasUsed)
    case Web3Tx(id, feePayer, sig) =>
      FieldSize(id) + BytesSize(|feePayer|) + BytesSize(|SigBytes(sig)|)
  }

  lemma VarintFieldSize(tag: byte, v: uint64)
    ensures |VarintField(tag, v)| == FieldSize(v)
  {
    SovIsLength(v);
  }

  lemma BytesFieldSize(tag: byte, bs: seq<byte>)
    ensures |BytesField(tag, bs)| == BytesSize(|bs|)
  {
    SovIsLength(|bs|);
  }

  /** The number of bytes of the fields from number k on. */
  function SuffixSize(fs: seq<Scalar64>, k: nat): nat
    requires k <= |fs|
  {
    |EncodeScalars(fs[k..])|
  }

  lemma ScalarsSize(fs: seq<Scalar64>, k: nat)
    requires k < |fs|
    ensures SuffixSize(fs, k) == FieldSize(fs[k].v) + SuffixSize(fs, k + 1)
  {
    assert fs[k..][1..] == fs[k + 1..];
    VarintFieldSize(fs[k].tag, fs[k].v);
  }

  lemma SevenScalarsSize(fs: seq<Scalar64>)
    requires |fs| == 7
    ensures |EncodeScalars(fs)|
         == FieldSize(fs[0].v) + FieldSize(fs[1].v) + FieldSize(fs[2].v) + FieldSize(fs[3].v)
            + FieldSize(fs[4].v) + FieldSize(fs[5].v) + FieldSize(fs[6].v)
  {
    assert fs[0..] == fs;
    assert SuffixSize(fs, 0) == |EncodeScalars(fs)| && SuffixSize(fs, 7) == 0;
    hide FieldSize, SuffixSize;
    ScalarsSize(fs, 0);
    ScalarsSize(fs, 1);
    ScalarsSize(fs, 2);
    ScalarsSize(fs, 3);
    ScalarsSize(fs, 4);
    ScalarsSize(fs, 5);
    ScalarsSize(fs, 6);
  }

  lemma TxResultSize(m: Message)
    requires m.TxResult?
    ensures Size(m) == |EncodeScalars(ScalarFields(m))|
  {
    assert FieldSize(Bit(m.failed)) == if m.failed then 2 else 0;
    hide FieldSize, U64, EncodeScalars, Bit;
    SevenScalarsSize(ScalarFields(m));
  }

  lemma SizeIsLength(m: Message)
    ensures Size(m) == |Encode(m)|
  {
    if m.TxResult? {
      TxResultSize(m);
    } else {
      VarintFieldSize(0x08, m.typedDataChainID);
      BytesFieldSize(0x12, m.feePayer);
      BytesFieldSize(0x1a, SigBytes(m.feePayerSig));
      hide FieldSize, BytesSize, VarintField, BytesField;
    }
  }

  // ----- skipping one record -----

  /** Where one tag with its payload ends, and the group depth after it. */
  datatype Item = Item(next: int, depth: nat, err: Option<Error>)

  /** An index moved forward, as an int64. */
  function Ahead(j: nat, n: nat): (r: int)
    requires j < TWO_63 && n < TWO_63
    ensures r >= 0 ==> r == j + n < TWO_63
  {
    I64(j + n)
  }

  function SkipItem(d: Buffer, i: nat, depth: nat): (r: Item)
    requires i < |d|
    ensures r.err.None? && r.next >= 0 ==> i < r.next < TWO_63
  {
    var t := ReadVarint(d[i..], 0);
    var j := i + t.used;
    if t.err.Some? then Item(j, depth, t.err)
    else
      var wireType := U64(t.raw) % 8;
      if wireType == 0 then
        var v := ReadVarint(d[j..], 0);
        Item(j + v.used, depth, v.err)
      else if wireType == 1 then Item(Ahead(j, 8), depth, None)
      else if wireType == 2 then
        var v := ReadVarint(d[j..], 0);
        if v.err.Some? then Item(j, depth, v.err)
        else if I64(v.raw) < 0 then Item(j, depth, Some(InvalidLength))
        else Item(Ahead(j + v.used, I64(v.raw)), depth, None)
      else if wireType == 3 then Item(j, depth + 1, None)
      else if wireType == 4 then
        if depth == 0 then Item(j, depth, Some(UnexpectedEndOfGroup)) else Item(j, depth - 1, None)
      else if wireType == 5 then Item(Ahead(j, 4), depth, None)
      else Item(j, depth, Some(IllegalWireType))
  }

  datatype Skipped = Skipped(n: nat, err: Option<Error>)

  /** skip: from index i, inside depth open groups, to the end of the record. The result may lie
      beyond the buffer; the caller checks. */
  function Skip(d: Buffer, i: nat, depth: nat): (r: Skipped)
    ensures r.err.None? ==> i < r.n < TWO_63
    decreases if i < |d| then |d| - i else 0
  {
    if i >= |d| then Skipped(0, Some(UnexpectedEOF))
    else
      var it := SkipItem(d, i, depth);
      if it.err.Some? then Skipped(0, it.err)
      else if it.next < 0 then Skipped(0, Some(InvalidLength))
      else if it.depth == 0 then Skipped(it.next, None)
      else Skip(d, it.next, it.depth)
  }

  // ----- reading -----

  datatype FieldKind = Unknown | Scalar | Delimited

  function KindOf(m: Message, num: int): FieldKind {
    if m.TxResult? then (if 1 <= num <= 7 then Scalar else Unknown)
    else if num == 1 then Scalar
    else if num == 2 || num == 3 then Delimited
    else Unknown
  }

  /** The field num after its varint loop gathered raw. Only the bool waits for the loop to succeed. */
  function SetScalar(m: Message, num: int, raw: nat, ok: bool): (r: Message)
    requires KindOf(m, num) == Scalar
    ensures r.TxResult? == m.TxResult?
  {
    if m.Web3Tx? then m.(typedDataChainID := U64(raw))
    else if num == 1 then m.(height := I64(raw))
    else if num == 2 then m.(txIndex := U32(raw))
    else if num == 3 then m.(msgIndex := U32(raw))
    else if num == 4 then m.(ethTxIndex := I32(raw))
    else if num == 5 then (if ok then m.(failed := U64(raw) != 0) else m)
    else if num == 6 then m.(gasUsed := U64(raw))
    else m.(cumulativeGasUsed := U64(raw))
  }

  function SetDelimited(m: Message, num: int, bs: seq<byte>): (r: Message)
    requires KindOf(m, num) == Delimited
    ensures r.TxResult? == m.TxResult?
  {
    if num == 2 then m.(feePayer := bs) else m.(feePayerSig := Some(bs))
  }

  /** The tag of a record: field number and wire type, as the switch sees them. */
  datatype Header = Header(num: int, wireType: int, used: nat, err: Option<Error>)

  function ReadHeader(s: Buffer): (r: Header)
    ensures r.used <= |s|
    ensures r.err.None? ==> r.used >= 1 && r.num > 0
  {
    var t := ReadVarint(s, 0);
    var num := I32(U64(t.raw) / 8);
    var wireType := U64(t.raw) % 8;
    Header(num, wireType, t.used,
           if t.err.Some? then t.err
           else if wireType == 4 then Some(EndGroupForNonGroup)
           else if num <= 0 then Some(IllegalTag)
           else None)
  }

  /** What one round of the Unmarshal loop does. */
  datatype Step = Step(m: Message, used: nat, err: Option<Error>)

  function ScalarField(s: Buffer, m: Message, h: Header): (r: Step)
    requires h.used <= |s| && KindOf(m, h.num) == Scalar
    ensures h.used <= r.used <= |s|
    ensures r.m.TxResult? == m.TxResult?
  {
    if h.wireType != 0 then Step(m, h.used, Some(WrongWireType))
    else
      var v := ReadVarint(s[h.used..], 0);
      Step(SetScalar(m, h.num, v.raw, v.err.None?), h.used + v.used, v.err)
  }

  function DelimitedField(s: Buffer, base: nat, m: Message, h: Header): (r: Step)
    requires h.used <= |s| && base + |s| < TWO_63 && KindOf(m, h.num) == Delimited
    ensures h.used <= r.used <= |s|
    ensures r.m.TxResult? == m.TxResult?
  {
    if h.wireType != 2 then Step(m, h.used, Some(WrongWireType))
    else
      var v := ReadVarint(s[h.used..], 0);
      var from := h.used + v.used;
      if v.err.Some? then Step(m, from, v.err)
      else
        var length := I64(v.raw);
        var post := I64(base + from + length);
        if length < 0 || post < 0 then Step(m, from, Some(InvalidLength))
        else if post > base + |s| then Step(m, from, Some(UnexpectedEOF))
        else Step(SetDelimited(m, h.num, s[from..from + length]), from + length, None)
  }

  /** An unknown field is read again from its tag on by skip. */
  function UnknownField(s: Buffer, base: nat, m: Message): (r: Step)
    requires base + |s| < TWO_63
    ensures r.err.None? ==> 1 <= r.used <= |s|
    ensures r.m == m
  {
    var k := Skip(s, 0, 0);
    var post := I64(base + k.n);
    if k.err.Some? then Step(m, 0, k.err)
    else if post < 0 then Step(m, 0, Some(InvalidLength))
    else if post > base + |s| then Step(m, 0, Some(UnexpectedEOF))
    else Step(m, k.n, None)
  }

  /** One record at the front of s; s starts at index base of the whole input. */
  function Record(s: Buffer, base: nat, m: Message): (r: Step)
    requires s != [] && base + |s| < TWO_63
    ensures r.err.None? ==> 1 <= r.used <= |s|
    ensures r.m.TxResult? == m.TxResult?
  {
    var h := ReadHeader(s);
    if h.err.Some? then Step(m, h.used, h.err)
    else match KindOf(m, h.num)
      case Scalar => ScalarField(s, m, h)
      case Delimited => DelimitedField(s, base, m, h)
      case Unknown => UnknownField(s, base, m)
  }

  datatype Outcome = Outcome(m: Message, err: Option<Error>)

  /** Unmarshal merges into its receiver m, which keeps what was read before an error. */
  function Unmarshal(s: Buffer, base: nat, m: Message): (r: Outcome)
    requires base + |s| < TWO_63
    ensures r.m.TxResult? == m.TxResult?
    decreases |s|
  {
    if s == [] then Outcome(m, None)
    else
      var r := Record(s, base, m);
      if r.err.Some? then Outcome(r.m, r.err)
      else Unmarshal(s[r.used..], base + r.used, r.m)
  }

  // ----- a decoded prefix is not affected by what follows it -----

  lemma SkipItemExtend(d: Buffer, t: seq<byte>, i: nat, depth: nat)
    requires i < |d| && |d| + |t| < TWO_63
    requires SkipItem(d, i, depth).err != Some(UnexpectedEOF)
    ensures SkipItem(d + t, i, depth) == SkipItem(d, i, depth)
  {
    hide ReadVarint, I64;
    var a := ReadVarint(d[i..], 0);
    ReadExtend(d[i..], t, 0);
    assert (d + t)[i..] == d[i..] + t;
    var j := i + a.used;
    assert (d + t)[j..] == d[j..] + t;
    var wireType := U64(a.raw) % 8;
    if a.err.None? && (wireType == 0 || wireType == 2) {
      ReadExtend(d[j..], t, 0);
    }
  }

  lemma {:induction false} SkipExtend(d: Buffer, t: seq<byte>, i: nat, depth: nat)
    requires |d| + |t| < TWO_63
    requires Skip(d, i, depth).err != Some(UnexpectedEOF)
    ensures Skip(d + t, i, depth) == Skip(d, i, depth)
    decreases if i < |d| then |d| - i else 0
  {
    SkipItemExtend(d, t, i, depth);
    var it := SkipItem(d, i, depth);
    if it.err.None? && it.next >= 0 && it.depth != 0 {
      SkipExtend(d, t, it.next, it.depth);
    }
  }

  lemma HeaderExtend(s: Buffer, t: seq<byte>)
    requires |s| + |t| < TWO_63 && ReadHeader(s).err != Some(UnexpectedEOF)
    ensures ReadHeader(s + t) == ReadHeader(s)
  {
    ReadExtend(s, t, 0);
    hide ReadVarint;
  }

  lemma ScalarExtend(s: Buffer, t: seq<byte>, m: Message, h: Header)
    requires h.used <= |s| && |s| + |t| < TWO_63 && KindOf(m, h.num) == Scalar
    requires ScalarField(s, m, h).err != Some(UnexpectedEOF)
    ensures ScalarField(s + t, m, h) == ScalarField(s, m, h)
  {
    hide SetScalar, ReadVarint;
    if h.wireType == 0 {
      assert (s + t)[h.used..] == s[h.used..] + t;
      ReadExtend(s[h.used..], t, 0);
    }
  }

  lemma DelimitedExtend(s: Buffer, t: seq<byte>, base: nat, m: Message, h: Header)
    requires h.used <= |s| && base + |s| + |t| < TWO_63 && KindOf(m, h.num) == Delimited
    requires DelimitedField(s, base, m, h).err != Some(UnexpectedEOF)
    ensures DelimitedField(s + t, base, m, h) == DelimitedField(s, base, m, h)
  {
    hide SetDelimited, ReadVarint;
    if h.wireType == 2 {
      assert (s + t)[h.used..] == s[h.used..] + t;
      ReadExtend(s[h.used..], t, 0);
      if DelimitedField(s, base, m, h).err.None? {
        var v := ReadVarint(s[h.used..], 0);
        var from := h.used + v.used;
        assert (s + t)[from..from + I64(v.raw)] == s[from..from + I64(v.raw)];
      }
    }
  }

  lemma UnknownExtend(s: Buffer, t: seq<byte>, base: nat, m: Message)
    requires base + |s| + |t| < TWO_63
    requires UnknownField(s, base, m).err != Some(UnexpectedEOF)
    ensures UnknownField(s + t, base, m) == UnknownField(s, base, m)
  {
    SkipExtend(s, t, 0, 0);
    hide Skip;
  }

  /** Whether a record parses or fails, bytes after it change nothing, unless it is the end that came too early. */
  lemma RecordExtend(s: Buffer, t: seq<byte>, base: nat, m: Message)
    requires s != [] && base + |s| + |t| < TWO_63
    requires Record(s, base, m).err != Some(UnexpectedEOF)
    ensures Record(s + t, base, m) == Record(s, base, m)
  {
    hide ReadHeader, ScalarField, DelimitedField, UnknownField;
    var h := ReadHeader(s);
    HeaderExtend(s, t);
    if h.err.None? {
      match KindOf(m, h.num)
      case Scalar => ScalarExtend(s, t, m, h);
      case Delimited => DelimitedExtend(s, t, base, m, h);
      case Unknown => UnknownExtend(s, t, base, m);
    }
  }

  /** If a decodes, decoding a followed by b is decoding b into the result of decoding a. */
  lemma {:induction false} UnmarshalAppend(a: Buffer, b: seq<byte>, base: nat, m: Message)
    requires base + |a| + |b| < TWO_63
    requires Unmarshal(a, base, m).err.None?
    ensures Unmarshal(a + b, base, m) == Unmarshal(b, base + |a|, Unmarshal(a, base, m).m)
    decreases |a|
  {
    hide Record;
    if a == [] {
      assert a + b == b;
    } else {
      RecordExtend(a, b, base, m);
      var r := Record(a, base, m);
      assert (a + b)[r.used..] == a[r.used..] + b;
      assert Unmarshal(a, base, m) == Unmarshal(a[r.used..], base + r.used, r.m);
      assert Unmarshal(a + b, base, m) == Unmarshal(a[r.used..] + b, base + r.used, r.m);
      hide Unmarshal;
      UnmarshalAppend(a[r.used..], b, base + r.used, r.m);
    }
  }

  /** Two runs agree on the receiver and on whether they fail; only the kind of error may differ. */
  predicate Agree(x: Outcome, y: Outcome) {
    x.m == y.m && x.err.None? == y.err.None?
  }

  lemma DelimitedBase(s: Buffer, base: nat, base': nat, m: Message, h: Header)
    requires h.used <= |s| && base + |s| < TWO_63 && base' + |s| < TWO_63 && KindOf(m, h.num) == Delimited
    ensures DelimitedField(s, base, m, h).m == DelimitedField(s, base', m, h).m
    ensures DelimitedField(s, base, m, h).used == DelimitedField(s, base', m, h).used
    ensures DelimitedField(s, base, m, h).err.None? == DelimitedField(s, base', m, h).err.None?
  {
    hide ReadVarint, SetDelimited, I64;
    if h.wireType == 2 {
      var v := ReadVarint(s[h.used..], 0);
      var from, length := h.used + v.used, I64(v.raw);
      I64Id(base + from + length);
      I64Id(base' + from + length);
    }
  }

  lemma UnknownBase(s: Buffer, base: nat, base': nat, m: Message)
    requires base + |s| < TWO_63 && base' + |s| < TWO_63
    ensures UnknownField(s, base, m).used == UnknownField(s, base', m).used
    ensures UnknownField(s, base, m).err.None? == UnknownField(s, base', m).err.None?
  {}

  lemma RecordBase(s: Buffer, base: nat, base': nat, m: Message)
    requires s != [] && base + |s| < TWO_63 && base' + |s| < TWO_63
    ensures Record(s, base, m).m == Record(s, base', m).m
    ensures Record(s, base, m).used == Record(s, base', m).used
    ensures Record(s, base, m).err.None? == Record(s, base', m).err.None?
  {
    hide ReadHeader, ScalarField, DelimitedField, UnknownField;
    var h := ReadHeader(s);
    if h.err.None? {
      if KindOf(m, h.num) == Delimited {
        DelimitedBase(s, base, base', m, h);
      } else if KindOf(m, h.num) == Unknown {
        UnknownBase(s, base, base', m);
      }
    }
  }

  /** Where a message starts in the input only decides which error is reported. */
  lemma {:induction false} UnmarshalBase(s: Buffer, base: nat, base': nat, m: Message)
    requires base + |s| < TWO_63 && base' + |s| < TWO_63
    ensures Agree(Unmarshal(s, base, m), Unmarshal(s, base', m))
    decreases |s|
  {
    hide Record;
    if s != [] {
      RecordBase(s, base, base', m);
      var r := Record(s, base, m);
      if r.err.None? {
        UnmarshalBase(s[r.used..], base + r.used, base' + r.used, r.m);
      }
    }
  }

  /** Concatenation is merging: the last value of every field wins. */
  lemma ConcatenationLaw(a: Buffer, b: Buffer, m: Message)
    requires |a| + |b| < TWO_63
    requires Unmarshal(a, 0, m).err.None?
    ensures Agree(Unmarshal(a + b, 0, m), Unmarshal(b, 0, Unmarshal(a, 0, m).m))
  {
    hide Unmarshal;
    UnmarshalAppend(a, b, 0, m);
    UnmarshalBase(b, |a|, 0, Unmarshal(a, 0, m).m);
  }

  /** Any error but a premature end is final: it is reported, with the same receiver, whatever follows. */
  lemma {:induction false} ErrorsAreFinal(a: Buffer, b: seq<byte>, base: nat, m: Message)
    requires base + |a| + |b| < TWO_63
    requires Unmarshal(a, base, m).err.Some? && Unmarshal(a, base, m).err != Some(UnexpectedEOF)
    ensures Unmarshal(a + b, base, m) == Unmarshal(a, base, m)
    decreases |a|
  {
    hide Record;
    RecordExtend(a, b, base, m);
    var r := Record(a, base, m);
    if r.err.None? {
      assert (a + b)[r.used..] == a[r.used..] + b;
      ErrorsAreFinal(a[r.used..], b, base + r.used, r.m);
    }
  }

  /** A premature end is not: one more byte can mend it. */
  lemma PrematureEndIsNotFinal(m: Message)
    ensures Unmarshal([0x08], 0, m).err == Some(UnexpectedEOF)
    ensures Unmarshal([0x08] + [0x01], 0, m) == Outcome(SetScalar(m, 1, 1, true), None)
  {
    assert EncodeVarint(8) == [0x08] && EncodeVarint(1) == [0x01];
    ScalarRecord(8, 1, [], 0, m);
    assert [0x08] + ([0x01] + []) == [0x08] + [0x01];
    hide SetScalar;
    UnmarshalStep([0x08] + [0x01], [], 0, m, SetScalar(m, 1, 1, true));
    assert ReadVarint([0x08], 0) == Scan(8, 1, None);
    assert [0x08][1..] == [];
  }

  // ----- round trip -----

  lemma HeaderOfTag(tag: uint64, rest: seq<byte>)
    requires |EncodeVarint(tag)| + |rest| < TWO_63
    requires tag % 8 != 4 && I32(tag / 8) > 0
    ensures ReadHeader(EncodeVarint(tag) + rest) == Header(I32(tag / 8), tag % 8, |EncodeVarint(tag)|, None)
  {
    hide EncodeVarint, ReadVarint, I32;
    ReadEncoded(tag, rest);
  }

  /** A scalar record under any tag whose truncated field number names a scalar field sets that field. */
  lemma ScalarRecord(tag: uint64, v: uint64, rest: seq<byte>, base: nat, m: Message)
    requires tag % 8 == 0 && I32(tag / 8) > 0 && KindOf(m, I32(tag / 8)) == Scalar
    requires base + |EncodeVarint(tag)| + |EncodeVarint(v)| + |rest| < TWO_63
    ensures var s := EncodeVarint(tag) + (EncodeVarint(v) + rest);
            s != [] && Record(s, base, m) ==
            Step(SetScalar(m, I32(tag / 8), v, true), |EncodeVarint(tag)| + |EncodeVarint(v)|, None)
  {
    hide EncodeVarint, ReadVarint, I32, I64, SetScalar, ReadHeader;
    EncodeDenotes(tag);
    HeaderOfTag(tag, EncodeVarint(v) + rest);
    ReadEncoded(v, rest);
    assert (EncodeVarint(tag) + (EncodeVarint(v) + rest))[|EncodeVarint(tag)|..] == EncodeVarint(v) + rest;
  }

  lemma DelimitedRecord(tag: uint64, bs: seq<byte>, rest: seq<byte>, base: nat, m: Message)
    requires tag % 8 == 2 && I32(tag / 8) > 0 && KindOf(m, I32(tag / 8)) == Delimited
    requires base + |EncodeVarint(tag)| + |EncodeVarint(|bs|)| + |bs| + |rest| < TWO_63
    ensures var s := EncodeVarint(tag) + (EncodeVarint(|bs|) + (bs + rest));
            s != [] && Record(s, base, m) ==
            Step(SetDelimited(m, I32(tag / 8), bs), |EncodeVarint(tag)| + |EncodeVarint(|bs|)| + |bs|, None)
  {
    hide EncodeVarint, ReadVarint, I32, I64, SetDelimited, ReadHeader;
    EncodeDenotes(tag);
    var t, e := EncodeVarint(tag), EncodeVarint(|bs|);
    I64Id(|bs|);
    I64Id(base + |t| + |e| + |bs|);
    var s := t + (e + (bs + rest));
    HeaderOfTag(tag, e + (bs + rest));
    ReadEncoded(|bs|, bs + rest);
    assert s[|t|..] == e + (bs + rest);
    var from := |t| + |e|;
    assert s[from..from + |bs|] == bs;
  }

  /** One successful round of the loop. */
  lemma UnmarshalStep(r: seq<byte>, rest: seq<byte>, base: nat, m: Message, m': Message)
    requires r != [] && base + |r| + |rest| < TWO_63
    requires Record(r + rest, base, m) == Step(m', |r|, None)
    ensures Unmarshal(r + rest, base, m) == Unmarshal(rest, base + |r|, m')
  {
    hide Record;
    assert (r + rest)[|r|..] == rest;
  }

  lemma DecodeVarintField(tag: byte, v: uint64, rest: seq<byte>, base: nat, m: Message)
    requires tag < 128 && tag % 8 == 0 && tag > 0 && KindOf(m, tag / 8) == Scalar
    requires base + |VarintField(tag, v)| + |rest| < TWO_63
    ensures Unmarshal(VarintField(tag, v) + rest, base, m)
         == Unmarshal(rest, base + |VarintField(tag, v)|, if v == 0 then m else SetScalar(m, tag / 8, v, true))
  {
    hide Record, SetScalar, Unmarshal;
    if v == 0 {
      assert VarintField(tag, v) + rest == rest;
    } else {
      assert EncodeVarint(tag) == [tag];
      hide EncodeVarint;
      ScalarRecord(tag, v, rest, base, m);
      assert VarintField(tag, v) + rest == EncodeVarint(tag) + (EncodeVarint(v) + rest);
      UnmarshalStep(VarintField(tag, v), rest, base, m, SetScalar(m, tag / 8, v, true));
    }
  }

  lemma Regroup(a: seq<byte>, b: seq<byte>, c: seq<byte>, d: seq<byte>)
    ensures a + b + c + d == a + (b + (c + d))
  {}

  lemma DecodeBytesField(tag: byte, bs: seq<byte>, rest: seq<byte>, base: nat, m: Message)
    requires tag < 128 && tag % 8 == 2 && tag > 7 && KindOf(m, tag / 8) == Delimited
    requires base + |BytesField(tag, bs)| + |rest| < TWO_63
    ensures Unmarshal(BytesField(tag, bs) + rest, base, m)
         == Unmarshal(rest, base + |BytesField(tag, bs)|, if bs == [] then m else SetDelimited(m, tag / 8, bs))
  {
    hide Record, SetDelimited, Unmarshal;
    if bs == [] {
      assert BytesField(tag, bs) + rest == rest;
    } else {
      assert EncodeVarint(tag) == [tag];
      hide EncodeVarint;
      DelimitedRecord(tag, bs, rest, base, m);
      Regroup([tag], EncodeVarint(|bs|), bs, rest);
      UnmarshalStep(BytesField(tag, bs), rest, base, m, SetDelimited(m, tag / 8, bs));
    }
  }

  /** m0 with every field that is set in m. */
  function Merge(m0: Message, m: Message): Message
    requires m0.TxResult? == m.TxResult?
  {
    match m
    case TxResult(height, txIndex, msgIndex, ethTxIndex, failed, gasUsed, cumulativeGasUsed) =>
      TxResult(if height != 0 then height else m0.height,
               if txIndex != 0 then txIndex else m0.txIndex,
               if msgIndex != 0 then msgIndex else m0.msgIndex,
               if ethTxIndex != 0 then ethTxIndex else m0.ethTxIndex,
               failed || m0.failed,
               if gasUsed != 0 then gasUsed else m0.gasUsed,
               if cumulativeGasUsed != 0 then cumulativeGasUsed else m0.cumulativeGasUsed)
    case Web3Tx(id, feePayer, sig) =>
      Web3Tx(if id != 0 then id else m0.typedDataChainID,
             if feePayer != [] then feePayer else m0.feePayer,
             if SigBytes(sig) != [] then sig else m0.feePayerSig)
  }

  /** A tag byte of a TxResult field. */
  predicate ScalarTag(tag: byte) {
    tag % 8 == 0 && 1 <= tag / 8 <= 7
  }

  predicate ScalarTags(fs: seq<Scalar64>) {
    forall k :: 0 <= k < |fs| ==> ScalarTag(fs[k].tag)
  }

  function SetIfNonZero(m: Message, f: Scalar64): (r: Message)
    requires m.TxResult? && ScalarTag(f.tag)
    ensures r.TxResult?
  {
    if f.v == 0 then m else SetScalar(m, f.tag / 8, f.v, true)
  }

  /** m with every non-zero field of the list set, in order. */
  function SetScalars(m: Message, fs: seq<Scalar64>): (r: Message)
    requires m.TxResult? && ScalarTags(fs)
    ensures r.TxResult?
    decreases |fs|
  {
    if fs == [] then m else SetScalars(SetIfNonZero(m, fs[0]), fs[1..])
  }

  lemma {:induction false} DecodeScalars(fs: seq<Scalar64>, rest: seq<byte>, base: nat, m: Message)
    requires m.TxResult? && ScalarTags(fs)
    requires base + |EncodeScalars(fs)| + |rest| < TWO_63
    ensures Unmarshal(EncodeScalars(fs) + rest, base, m)
         == Unmarshal(rest, base + |EncodeScalars(fs)|, SetScalars(m, fs))
  {
    hide VarintField, Unmarshal, SetScalar, Record;
    if fs == [] {
      assert EncodeScalars(fs) + rest == rest;
    } else {
      var f := fs[0];
      var e, t := VarintField(f.tag, f.v), EncodeScalars(fs[1..]);
      assert EncodeScalars(fs) + rest == e + (t + rest);
      DecodeVarintField(f.tag, f.v, t + rest, base, m);
      DecodeScalars(fs[1..], rest, base + |e|, SetIfNonZero(m, f));
    }
  }

  /** m0 with field k of m, unless it is zero. */
  function MergeField(m0: Message, m: Message, k: nat): (r: Message)
    requires m.TxResult? && m0.TxResult? && k < 7
    ensures r.TxResult?
  {
    if k == 0 then (if m.height == 0 then m0 else m0.(height := m.height))
    else if k == 1 then (if m.txIndex == 0 then m0 else m0.(txIndex := m.txIndex))
    else if k == 2 then (if m.msgIndex == 0 then m0 else m0.(msgIndex := m.msgIndex))
    else if k == 3 then (if m.ethTxIndex == 0 then m0 else m0.(ethTxIndex := m.ethTxIndex))
    else if k == 4 then (if !m.failed then m0 else m0.(failed := true))
    else if k == 5 then (if m.gasUsed == 0 then m0 else m0.(gasUsed := m.gasUsed))
    else if m.cumulativeGasUsed == 0 then m0 else m0.(cumulativeGasUsed := m.cumulativeGasUsed)
  }

  lemma SetScalarIsMergeField(m0: Message, m: Message, k: nat)
    requires m.TxResult? && m0.TxResult? && k < 7
    ensures ScalarTag(ScalarFields(m)[k].tag)
    ensures SetIfNonZero(m0, ScalarFields(m)[k]) == MergeField(m0, m, k)
  {
    SignedBack(m.height, m.ethTxIndex);
    hide I64, I32;
  }

  lemma SetScalarsFrom(m0: Message, m: Message, k: nat)
    requires m.TxResult? && m0.TxResult? && k < 7
    ensures ScalarTags(ScalarFields(m))
    ensures SetScalars(m0, ScalarFields(m)[k..]) == SetScalars(MergeField(m0, m, k), ScalarFields(m)[k + 1..])
  {
    var fs := ScalarFields(m);
    assert fs[k..][1..] == fs[k + 1..];
    SetScalarIsMergeField(m0, m, k);
    hide MergeField, SetIfNonZero;
  }

  /** m0 with the fields of m from number k on. */
  function MergeFrom(m0: Message, m: Message, k: nat): (r: Message)
    requires m.TxResult? && m0.TxResult? && k <= 7
    ensures r.TxResult?
    decreases 7 - k
  {
    if k == 7 then m0 else MergeFrom(MergeField(m0, m, k), m, k + 1)
  }

  lemma {:induction false} SetScalarsMerges(m0: Message, m: Message, k: nat)
    requires m.TxResult? && m0.TxResult? && k <= 7
    ensures ScalarTags(ScalarFields(m))
    ensures SetScalars(m0, ScalarFields(m)[k..]) == MergeFrom(m0, m, k)
    decreases 7 - k
  {
    if k < 7 {
      SetScalarsFrom(m0, m, k);
      hide MergeField, ScalarFields;
      SetScalarsMerges(MergeField(m0, m, k), m, k + 1);
    }
  }

  lemma MergeFromAll(m0: Message, m: Message)
    requires m.TxResult? && m0.TxResult?
    ensures MergeFrom(m0, m, 0) == Merge(m0, m)
  {}

  lemma DecodeEncodedTxResult(m: Message, m0: Message)
    requires m.TxResult? && m0.TxResult? && |Encode(m)| < TWO_63
    ensures Unmarshal(Encode(m), 0, m0) == Outcome(Merge(m0, m), None)
  {
    hide Encode, Merge, ScalarFields, EncodeScalars, SetScalars, ScalarTags, Unmarshal;
    AllScalars(m0, m);
    DecodeScalars(ScalarFields(m), [], 0, m0);
    assert Encode(m) + [] == Encode(m);
    EndOfInput(|Encode(m)|, Merge(m0, m));
  }

  lemma AllScalars(m0: Message, m: Message)
    requires m.TxResult? && m0.TxResult?
    ensures Encode(m) == EncodeScalars(ScalarFields(m)) && ScalarTags(ScalarFields(m))
    ensures SetScalars(m0, ScalarFields(m)) == Merge(m0, m)
  {
    hide Merge, MergeFrom, EncodeScalars, SetScalars, ScalarTags;
    SetScalarsMerges(m0, m, 0);
    MergeFromAll(m0, m);
    assert ScalarFields(m)[0..] == ScalarFields(m);
  }

  lemma EndOfInput(base: nat, m: Message)
    requires base < TWO_63
    ensures Unmarshal([], base, m) == Outcome(m, None)
  {}

  lemma DecodeEncodedWeb3Tx(m: Message, m0: Message)
    requires m.Web3Tx? && m0.Web3Tx? && |Encode(m)| < TWO_63
    ensures Unmarshal(Encode(m), 0, m0) == Outcome(Merge(m0, m), None)
  {
    hide VarintField, BytesField, Record, EncodeVarint;
    var sig := SigBytes(m.feePayerSig);
    var f3 := BytesField(0x1a, sig);
    var f2 := BytesField(0x12, m.feePayer) + f3;
    var e := Encode(m);
    var m1 := if m.typedDataChainID == 0 then m0 else m0.(typedDataChainID := m.typedDataChainID);
    var m2 := if m.feePayer == [] then m1 else m1.(feePayer := m.feePayer);
    var m3 := if sig == [] then m2 else m2.(feePayerSig := Some(sig));
    assert Unmarshal([], |e|, m3) == Outcome(m3, None) && m3 == Merge(m0, m);
    assert m1 == if m.typedDataChainID == 0 then m0 else SetScalar(m0, 1, m.typedDataChainID, true);
    assert m2 == if m.feePayer == [] then m1 else SetDelimited(m1, 2, m.feePayer);
    assert m3 == if sig == [] then m2 else SetDelimited(m2, 3, sig);
    hide Unmarshal, Merge, SetScalar, SetDelimited;
    DecodeVarintField(0x08, m.typedDataChainID, f2, 0, m0);
    DecodeBytesField(0x12, m.feePayer, f3, |e| - |f2|, m1);
    DecodeBytesField(0x1a, sig, [], |e| - |f3|, m2);
    assert f3 + [] == f3;
  }

  /** Decoding an encoded message merges it into the receiver, whatever the receiver held. */
  lemma DecodeMerges(m: Message, m0: Message)
    requires m0.TxResult? == m.TxResult? && |Encode(m)| < TWO_63
    ensures Unmarshal(Encode(m), 0, m0) == Outcome(Merge(m0, m), None)
  {
    if m.TxResult? {
      DecodeEncodedTxResult(m, m0);
    } else {
      DecodeEncodedWeb3Tx(m, m0);
    }
  }

  /** Every TxResult survives the wire, negative height and index included. */
  lemma TxResultRoundTrip(m: Message)
    requires m.TxResult?
    ensures |Encode(m)| <= 68
    ensures Unmarshal(Encode(m), 0, FRESH_TX_RESULT) == Outcome(m, None)
  {
    Encode64Length(U64(m.height));
    Encode64Length(m.txIndex);
    Encode64Length(m.msgIndex);
    Encode64Length(U64(m.ethTxIndex));
    Encode64Length(m.gasUsed);
    Encode64Length(m.cumulativeGasUsed);
    SizeIsLength(m);
    SovIsLength(U64(m.height));
    SovIsLength(m.txIndex);
    SovIsLength(m.msgIndex);
    SovIsLength(U64(m.ethTxIndex));
    SovIsLength(m.gasUsed);
    SovIsLength(m.cumulativeGasUsed);
    DecodeMerges(m, FRESH_TX_RESULT);
  }

  /** An empty signature comes back as nil; everything else comes back as it was. */
  lemma Web3TxRoundTrip(m: Message)
    requires m.Web3Tx? && |Encode(m)| < TWO_63
    ensures Unmarshal(Encode(m), 0, FRESH_WEB3_TX)
         == Outcome(m.(feePayerSig := if SigBytes(m.feePayerSig) == [] then None else m.feePayerSig), None)
  {
    DecodeMerges(m, FRESH_WEB3_TX);
  }

  /** Into a used receiver the round trip gives the message back exactly when the receiver has no
      field set that the message leaves out. */
  lemma RoundTripIntoUsedReceiver(m: Message, m0: Message)
    requires m.TxResult? && m0.TxResult?
    ensures |Encode(m)| < TWO_63
    ensures Unmarshal(Encode(m), 0, m0).m == m <==>
            && (m.height == 0 ==> m0.height == 0) && (m.txIndex == 0 ==> m0.txIndex == 0)
            && (m.msgIndex == 0 ==> m0.msgIndex == 0) && (m.ethTxIndex == 0 ==> m0.ethTxIndex == 0)
            && (!m.failed ==> !m0.failed) && (m.gasUsed == 0 ==> m0.gasUsed == 0)
            && (m.cumulativeGasUsed == 0 ==> m0.cumulativeGasUsed == 0)
  {
    TxResultRoundTrip(m);
    DecodeMerges(m, m0);
  }

  // ----- unknown records -----

  /** A record as another version of the schema may write it. A group may close with any field number. */
  datatype Rec =
    | VarintRec(num: nat, v: uint64)
    | Fixed64Rec(num: nat, bs: seq<byte>)
    | BytesRec(num: nat, bs: seq<byte>)
    | GroupRec(num: nat, items: seq<Rec>, endNum: nat)
    | Fixed32Rec(num: nat, bs: seq<byte>)

  const TWO_61: int := 0x2000_0000_0000_0000

  predicate Fits(r: Rec) {
    r.num < TWO_61 &&
    match r
    case VarintRec(_, _) => true
    case Fixed64Rec(_, bs) => |bs| == 8
    case BytesRec(_, bs) => |bs| < TWO_63
    case GroupRec(_, items, endNum) => endNum < TWO_61 && forall x | x in items :: Fits(x)
    case Fixed32Rec(_, bs) => |bs| == 4
  }

  function WireTypeOf(r: Rec): byte {
    match r
    case VarintRec(_, _) => 0
    case Fixed64Rec(_, _) => 1
    case BytesRec(_, _) => 2
    case GroupRec(_, _, _) => 3
    case Fixed32Rec(_, _) => 5
  }

  function EncodeTag(num: nat, wireType: byte): seq<byte> { EncodeVarint(num * 8 + wireType) }

  function Payload(r: Rec): seq<byte>
    decreases r, 0
  {
    match r
    case VarintRec(_, v) => EncodeVarint(v)
    case Fixed64Rec(_, bs) => bs
    case BytesRec(_, bs) => EncodeVarint(|bs|) + bs
    case GroupRec(_, items, endNum) => EncodeRecs(items) + EncodeTag(endNum, 4)
    case Fixed32Rec(_, bs) => bs
  }

  function EncodeRec(r: Rec): seq<byte>
    decreases r, 1
  {
    EncodeTag(r.num, WireTypeOf(r)) + Payload(r)
  }

  function EncodeRecs(rs: seq<Rec>): seq<byte> {
    if rs == [] then [] else EncodeRec(rs[0]) + EncodeRecs(rs[1..])
  }

  /** d holds e at index i. */
  predicate At(d: seq<byte>, i: nat, e: seq<byte>) {
    i + |e| <= |d| && d[i..i + |e|] == e
  }

  lemma AtSplit(d: seq<byte>, i: nat, a: seq<byte>, b: seq<byte>)
    requires At(d, i, a + b)
    ensures At(d, i, a) && At(d, i + |a|, b)
  {
    var s := d[i..i + |a + b|];
    assert d[i..i + |a|] == s[..|a|] && d[i + |a|..i + |a| + |b|] == s[|a|..];
  }

  lemma ReadAt(d: seq<byte>, i: nat, v: uint64)
    requires At(d, i, EncodeVarint(v))
    ensures ReadVarint(d[i..], 0) == Scan(v, |EncodeVarint(v)|, None)
  {
    var e := EncodeVarint(v);
    assert d[i..] == e + d[i + |e|..];
    ReadEncoded(v, d[i + |e|..]);
  }

  /** skip, once it stands at index i. */
  function After(d: Buffer, i: nat, depth: nat): Skipped {
    if depth == 0 then Skipped(i, None) else Skip(d, i, depth)
  }

  lemma SkipTag(d: Buffer, i: nat, num: nat, wireType: byte)
    requires wireType < 8 && num < TWO_61 && At(d, i, EncodeTag(num, wireType))
    ensures i < |d| && |EncodeTag(num, wireType)| >= 1
    ensures ReadVarint(d[i..], 0) == Scan(num * 8 + wireType, |EncodeTag(num, wireType)|, None)
  {
    ReadAt(d, i, num * 8 + wireType);
    EncodeDenotes(num * 8 + wireType);
  }

  lemma SkipStep(d: Buffer, i: nat, depth: nat, next: nat, depth': nat)
    requires i < |d| && SkipItem(d, i, depth) == Item(next, depth', None)
    ensures Skip(d, i, depth) == After(d, next, depth')
  {}

  /** One item whose tag takes n bytes and whose payload takes p bytes of length prefix and len bytes. */
  lemma ItemOfTag(d: Buffer, i: nat, num: nat, wireType: byte, n: nat, p: nat, len: nat, depth: nat)
    requires i < |d| && i + n + p + len <= |d| && num < TWO_61
    requires ReadVarint(d[i..], 0) == Scan(num * 8 + wireType, n, None)
    requires wireType in {0, 1, 2, 5}
    requires wireType == 0 ==> len == 0 && ReadVarint(d[i + n..], 0).err.None? && ReadVarint(d[i + n..], 0).used == p
    requires wireType == 1 ==> p == 0 && len == 8
    requires wireType == 2 ==> ReadVarint(d[i + n..], 0) == Scan(len, p, None)
    requires wireType == 5 ==> p == 0 && len == 4
    ensures SkipItem(d, i, depth) == Item(i + n + p + len, depth, None)
  {
    hide ReadVarint, I64;
    I64Id(i + n + 8);
    I64Id(i + n + 4);
    I64Id(len);
    I64Id(i + n + p + len);
    assert (num * 8 + wireType) % 8 == wireType;
  }

  lemma SkipBytesItem(d: Buffer, i: nat, num: nat, bs: seq<byte>, depth: nat)
    requires num < TWO_61 && |bs| < TWO_63
    requires At(d, i, EncodeTag(num, 2) + (EncodeVarint(|bs|) + bs))
    ensures i < |d|
    ensures SkipItem(d, i, depth) == Item(i + |EncodeTag(num, 2) + (EncodeVarint(|bs|) + bs)|, depth, None)
  {
    var tag, e := EncodeTag(num, 2), EncodeVarint(|bs|);
    hide ReadVarint, EncodeVarint, EncodeTag, SkipItem;
    assert |tag + (e + bs)| == |tag| + |e| + |bs| && i + |tag| + |e| + |bs| <= |d|;
    hide At;
    AtSplit(d, i, tag, e + bs);
    AtSplit(d, i + |tag|, e, bs);
    SkipTag(d, i, num, 2);
    assert e == EncodeVarint(|bs|) && At(d, i + |tag|, EncodeVarint(|bs|));
    ReadAt(d, i + |tag|, |bs|);
    ItemOfTag(d, i, num, 2, |tag|, |e|, |bs|, depth);
  }

  lemma SkipPlainItem(d: Buffer, i: nat, r: Rec, depth: nat)
    requires Fits(r) && !r.GroupRec? && At(d, i, EncodeRec(r))
    ensures i < |d| && SkipItem(d, i, depth) == Item(i + |EncodeRec(r)|, depth, None)
  {
    hide ReadVarint, EncodeVarint, EncodeTag, SkipItem;
    if r.BytesRec? {
      SkipBytesItem(d, i, r.num, r.bs, depth);
    } else {
      var tag, payload := EncodeTag(r.num, WireTypeOf(r)), Payload(r);
      AtSplit(d, i, tag, payload);
      SkipTag(d, i, r.num, WireTypeOf(r));
      if r.VarintRec? {
        ReadAt(d, i + |tag|, r.v);
        ItemOfTag(d, i, r.num, 0, |tag|, |payload|, 0, depth);
      } else {
        ItemOfTag(d, i, r.num, WireTypeOf(r), |tag|, 0, |payload|, depth);
      }
    }
  }

  lemma SkipGroupItem(d: Buffer, i: nat, num: nat, wireType: byte, depth: nat)
    requires wireType == 3 || (wireType == 4 && depth > 0)
    requires num < TWO_61 && At(d, i, EncodeTag(num, wireType))
    ensures i < |d|
    ensures SkipItem(d, i, depth)
         == Item(i + |EncodeTag(num, wireType)|, if wireType == 3 then depth + 1 else depth - 1, None)
  {
    hide ReadVarint, EncodeVarint;
    SkipTag(d, i, num, wireType);
  }

  /** skip passes over exactly one record, at any depth; groups may nest to any depth. */
  lemma {:induction false} SkipRec(d: Buffer, i: nat, r: Rec, depth: nat)
    requires Fits(r) && At(d, i, EncodeRec(r))
    ensures Skip(d, i, depth) == After(d, i + |EncodeRec(r)|, depth)
    decreases r, 1
  {
    hide SkipItem, EncodeTag;
    if r.GroupRec? {
      var tag, body, end := EncodeTag(r.num, 3), EncodeRecs(r.items), EncodeTag(r.endNum, 4);
      var j := i + |tag|;
      AtSplit(d, i, tag, body + end);
      AtSplit(d, j, body, end);
      SkipGroupItem(d, i, r.num, 3, depth);
      SkipStep(d, i, depth, j, depth + 1);
      SkipRecs(d, j, r.items, depth + 1);
      SkipGroupItem(d, j + |body|, r.endNum, 4, depth + 1);
      SkipStep(d, j + |body|, depth + 1, j + |body| + |end|, depth);
    } else {
      SkipPlainItem(d, i, r, depth);
      SkipStep(d, i, depth, i + |EncodeRec(r)|, depth);
    }
  }

  lemma {:induction false} SkipRecs(d: Buffer, i: nat, rs: seq<Rec>, depth: nat)
    requires (forall x | x in rs :: Fits(x)) && At(d, i, EncodeRecs(rs)) && depth > 0
    ensures Skip(d, i, depth) == Skip(d, i + |EncodeRecs(rs)|, depth)
    decreases rs, 0
  {
    hide SkipItem, Skip, EncodeRec, Fits;
    if rs != [] {
      AtSplit(d, i, EncodeRec(rs[0]), EncodeRecs(rs[1..]));
      SkipRec(d, i, rs[0], depth);
      SkipRecs(d, i + |EncodeRec(rs[0])|, rs[1..], depth);
    }
  }

  /** A record the message does not know: its number, cut to an int32, is positive and names no field. */
  predicate Foreign(m: Message, r: Rec) {
    I32(r.num) > 0 && KindOf(m, I32(r.num)) == Unknown
  }

  lemma ForeignHeader(r: Rec, rest: seq<byte>)
    requires Fits(r) && I32(r.num) > 0 && |EncodeRec(r)| + |rest| < TWO_63
    ensures EncodeRec(r) + rest != []
    ensures ReadHeader(EncodeRec(r) + rest).err.None? && ReadHeader(EncodeRec(r) + rest).num == I32(r.num)
  {
    var tag := r.num * 8 + WireTypeOf(r);
    EncodeDenotes(tag);
    assert EncodeRec(r) == EncodeVarint(tag) + Payload(r) && 0 <= tag < TWO_64 && tag / 8 == r.num && tag % 8 != 4;
    hide I32, EncodeVarint, EncodeRec, Payload, Fits, WireTypeOf, ReadHeader;
    assert EncodeRec(r) + rest == EncodeVarint(tag) + (Payload(r) + rest);
    HeaderOfTag(tag, Payload(r) + rest);
  }

  lemma ForeignRecord(r: Rec, rest: seq<byte>, base: nat, m: Message)
    requires Fits(r) && Foreign(m, r) && base + |EncodeRec(r)| + |rest| < TWO_63
    ensures EncodeRec(r) + rest != []
    ensures Record(EncodeRec(r) + rest, base, m) == Step(m, |EncodeRec(r)|, None)
  {
    hide EncodeRec, ReadHeader, I32, Fits, Skip, KindOf, ScalarField, DelimitedField;
    var s := EncodeRec(r) + rest;
    assert At(s, 0, EncodeRec(r));
    SkipRec(s, 0, r, 0);
    ForeignHeader(r, rest);
    I64Id(base + |EncodeRec(r)|);
    hide At, I64;
  }

  /** Records a message does not know, balanced groups included, change nothing. */
  lemma {:induction false} ForeignRecordsAreIgnored(rs: seq<Rec>, b: seq<byte>, base: nat, m: Message)
    requires forall x | x in rs :: Fits(x) && Foreign(m, x)
    requires base + |EncodeRecs(rs)| + |b| < TWO_63
    ensures Unmarshal(EncodeRecs(rs) + b, base, m) == Unmarshal(b, base + |EncodeRecs(rs)|, m)
  {
    hide Record, EncodeRec, Foreign, Fits;
    if rs == [] {
      assert EncodeRecs(rs) + b == b;
    } else {
      var e, rest := EncodeRec(rs[0]), EncodeRecs(rs[1..]);
      assert EncodeRecs(rs) + b == e + (rest + b);
      ForeignRecord(rs[0], rest + b, base, m);
      assert (e + (rest + b))[|e|..] == rest + b;
      ForeignRecordsAreIgnored(rs[1..], b, base + |e|, m);
    }
  }

  /** Inserting them between two parts of a valid message changes neither the value nor the success. */
  lemma InsertionLaw(a: Buffer, rs: seq<Rec>, b: Buffer, m: Message)
    requires |a| + |EncodeRecs(rs)| + |b| < TWO_63
    requires Unmarshal(a, 0, m).err.None?
    requires forall x | x in rs :: Fits(x) && Foreign(m, x)
    ensures Agree(Unmarshal(a + EncodeRecs(rs) + b, 0, m), Unmarshal(a + b, 0, m))
  {
    hide Unmarshal, EncodeRecs, Fits;
    var m' := Unmarshal(a, 0, m).m;
    assert a + EncodeRecs(rs) + b == a + (EncodeRecs(rs) + b);
    ConcatenationLaw(a, EncodeRecs(rs) + b, m);
    ConcatenationLaw(a, b, m);
    ForeignRecordsAreIgnored(rs, b, 0, m');
    UnmarshalBase(b, |EncodeRecs(rs)|, 0, m');
  }

  /** Field numbers are cut to 32 bits before they are looked up: a record 2^32 above a known scalar
      field sets that field, and one whose cut number is not positive is refused. */
  lemma FieldNumberIsTruncated(num: nat, v: uint64, m: Message)
    requires num < TWO_61
    ensures var s := EncodeTag(num, 0) + EncodeVarint(v);
            && |s| < TWO_63
            && (I32(num) > 0 && KindOf(m, I32(num)) == Scalar
                ==> Unmarshal(s, 0, m) == Outcome(SetScalar(m, I32(num), v, true), None))
            && (I32(num) <= 0 ==> Unmarshal(s, 0, m) == Outcome(m, Some(IllegalTag)))
  {
    Encode64Length(num * 8);
    Encode64Length(v);
    hide EncodeVarint, I32, SetScalar, KindOf, Unmarshal;
    if I32(num) > 0 {
      if KindOf(m, I32(num)) == Scalar {
        CutNumberSets(num, v, m);
      }
    } else {
      CutNumberIsRefused(num, v, m);
    }
  }

  lemma CutNumberSets(num: nat, v: uint64, m: Message)
    requires num < TWO_61 && I32(num) > 0 && KindOf(m, I32(num)) == Scalar
    requires |EncodeTag(num, 0)| + |EncodeVarint(v)| < TWO_63
    ensures Unmarshal(EncodeTag(num, 0) + EncodeVarint(v), 0, m) == Outcome(SetScalar(m, I32(num), v, true), None)
  {
    hide EncodeVarint, I32, SetScalar, Record;
    var t, e := EncodeVarint(num * 8), EncodeVarint(v);
    assert num * 8 / 8 == num && t + (e + []) == t + e == (t + e) + [];
    ScalarRecord(num * 8, v, [], 0, m);
    UnmarshalStep(t + e, [], 0, m, SetScalar(m, I32(num), v, true));
  }

  lemma CutNumberIsRefused(num: nat, v: uint64, m: Message)
    requires num < TWO_61 && I32(num) <= 0
    requires |EncodeTag(num, 0)| + |EncodeVarint(v)| < TWO_63
    ensures Unmarshal(EncodeTag(num, 0) + EncodeVarint(v), 0, m) == Outcome(m, Some(IllegalTag))
  {
    hide I32, ReadVarint, ScalarField, DelimitedField, UnknownField;
    var t, e := EncodeVarint(num * 8), EncodeVarint(v);
    EncodeDenotes(num * 8);
    hide EncodeVarint;
    ReadEncoded(num * 8, e);
    assert num * 8 / 8 == num && num * 8 % 8 == 0;
    assert ReadHeader(t + e) == Header(I32(num), 0, |t|, Some(IllegalTag));
    hide ReadHeader;
    assert Record(t + e, 0, m) == Step(m, |t|, Some(IllegalTag));
  }

  // ----- the format, field by field -----

  /** The records of the Protocol Buffers encoding specification, section "Message Structure": a tag with
      the field number and the wire type, then the payload. */
  lemma RecordFormat(num: nat, v: uint64, bs: seq<byte>, items: seq<Rec>, endNum: nat)
    ensures EncodeRec(VarintRec(num, v)) == EncodeVarint(num * 8 + 0) + EncodeVarint(v)
    ensures EncodeRec(Fixed64Rec(num, bs)) == EncodeVarint(num * 8 + 1) + bs
    ensures EncodeRec(BytesRec(num, bs)) == EncodeVarint(num * 8 + 2) + (EncodeVarint(|bs|) + bs)
    ensures EncodeRec(GroupRec(num, items, endNum)) == EncodeVarint(num * 8 + 3) + (EncodeRecs(items) + EncodeVarint(endNum * 8 + 4))
    ensures EncodeRec(Fixed32Rec(num, bs)) == EncodeVarint(num * 8 + 5) + bs
    ensures EncodeRecs([]) == []
  {
    hide EncodeVarint;
  }

  lemma {:induction false} EncodeRecsConcat(a: seq<Rec>, b: seq<Rec>)
    ensures EncodeRecs(a + b) == EncodeRecs(a) + EncodeRecs(b)
  {
    if a == [] {
      assert a + b == b;
    } else {
      EncodeRecsConcat(a[1..], b);
      assert (a + b)[1..] == a[1..] + b && (a + b)[0] == a[0];
      assert EncodeRecs(a + b) == EncodeRec(a[0]) + EncodeRecs(a[1..] + b);
      assert EncodeRecs(a) == EncodeRec(a[0]) + EncodeRecs(a[1..]);
      hide EncodeRec, EncodeRecs;
      Associative(EncodeRec(a[0]), EncodeRecs(a[1..]), EncodeRecs(b));
    }
  }

  lemma Associative(a: seq<byte>, b: seq<byte>, c: seq<byte>)
    ensures (a + b) + c == a + (b + c)
  {}

  /** A record, unless its value is the default. */
  lemma ScalarFieldIsRec(num: nat, v: uint64)
    requires 1 <= num <= 15
    ensures VarintField(num * 8, v) == EncodeRecs(if v == 0 then [] else [VarintRec(num, v)])
  {
    assert EncodeVarint(num * 8) == [num * 8];
    hide EncodeVarint;
    RecordFormat(num, v, [], [], 0);
    assert EncodeRecs([VarintRec(num, v)]) == EncodeRec(VarintRec(num, v)) + EncodeRecs([]);
  }

  lemma BytesFieldIsRec(num: nat, bs: seq<byte>)
    requires 1 <= num <= 15
    ensures BytesField(num * 8 + 2, bs) == EncodeRecs(if bs == [] then [] else [BytesRec(num, bs)])
  {
    assert EncodeVarint(num * 8 + 2) == [num * 8 + 2];
    hide EncodeVarint;
    RecordFormat(num, 0, bs, [], 0);
    assert EncodeRecs([BytesRec(num, bs)]) == EncodeRec(BytesRec(num, bs)) + EncodeRecs([]);
  }

  /** What is written for an ExtensionOptionsWeb3Tx: these records in this order, defaults left out. */
  lemma Web3TxFormat(m: Message)
    requires m.Web3Tx?
    ensures Encode(m) == EncodeRecs((if m.typedDataChainID == 0 then [] else [VarintRec(1, m.typedDataChainID)])
                                    + ((if m.feePayer == [] then [] else [BytesRec(2, m.feePayer)])
                                       + (if m.feePayerSig in {None, Some([])} then [] else [BytesRec(3, m.feePayerSig.value)])))
  {
    hide EncodeRecs, EncodeVarint, VarintField, BytesField;
    ScalarFieldIsRec(1, m.typedDataChainID);
    BytesFieldIsRec(2, m.feePayer);
    BytesFieldIsRec(3, SigBytes(m.feePayerSig));
    var a := if m.typedDataChainID == 0 then [] else [VarintRec(1, m.typedDataChainID)];
    var b := if m.feePayer == [] then [] else [BytesRec(2, m.feePayer)];
    var c := if SigBytes(m.feePayerSig) == [] then [] else [BytesRec(3, SigBytes(m.feePayerSig))];
    EncodeRecsConcat(b, c);
    EncodeRecsConcat(a, b + c);
  }

  /** A scalar that is not zero. */
  function Present(num: nat, v: uint64): seq<Rec> { if v == 0 then [] else [VarintRec(num, v)] }

  /** What is written for a TxResult: these records in this order, zeros left out, signed values modulo 2^64. */
  lemma TxResultFormat(m: Message)
    requires m.TxResult?
    ensures Encode(m) == EncodeRecs((if m.height == 0 then [] else [VarintRec(1, m.height % 0x1_0000_0000_0000_0000)])
                                    + ((if m.txIndex == 0 then [] else [VarintRec(2, m.txIndex)])
                                    + ((if m.msgIndex == 0 then [] else [VarintRec(3, m.msgIndex)])
                                    + ((if m.ethTxIndex == 0 then [] else [VarintRec(4, m.ethTxIndex % 0x1_0000_0000_0000_0000)])
                                    + ((if m.failed then [VarintRec(5, 1)] else [])
                                    + ((if m.gasUsed == 0 then [] else [VarintRec(6, m.gasUsed)])
                                    + (if m.cumulativeGasUsed == 0 then [] else [VarintRec(7, m.cumulativeGasUsed)])))))))
  {
    SignedBack(m.height, m.ethTxIndex);
    var h, e, f := U64(m.height), U64(m.ethTxIndex), Bit(m.failed);
    var fs := ScalarFields(m);
    assert fs == [Scalar64(8, h), Scalar64(16, m.txIndex), Scalar64(24, m.msgIndex), Scalar64(32, e), Scalar64(40, f),
                  Scalar64(48, m.gasUsed), Scalar64(56, m.cumulativeGasUsed)];
    hide EncodeVarint, VarintField, EncodeRecs;
    ScalarsAreRecs(fs, 1);
    FieldsInOrder(fs);
    hide EncodeScalars, RecsOf;
  }

  /** The records of scalar fields numbered from num on. */
  function RecsOf(fs: seq<Scalar64>, num: nat): seq<Rec> {
    if fs == [] then [] else Present(num, fs[0].v) + RecsOf(fs[1..], num + 1)
  }

  lemma {:induction false} ScalarsAreRecs(fs: seq<Scalar64>, num: nat)
    requires 1 <= num && num + |fs| <= 16 && forall k :: 0 <= k < |fs| ==> fs[k].tag == (num + k) * 8
    ensures EncodeScalars(fs) == EncodeRecs(RecsOf(fs, num))
  {
    hide EncodeVarint, VarintField;
    if fs != [] {
      ScalarsAreRecs(fs[1..], num + 1);
      assert fs[0].tag == num * 8;
      ScalarFieldIsRec(num, fs[0].v);
      var first, rest := Present(num, fs[0].v), RecsOf(fs[1..], num + 1);
      assert RecsOf(fs, num) == first + rest;
      assert EncodeScalars(fs) == VarintField(fs[0].tag, fs[0].v) + EncodeScalars(fs[1..]);
      hide EncodeRecs, RecsOf, EncodeScalars;
      EncodeRecsConcat(first, rest);
    }
  }

  lemma FieldsInOrder(fs: seq<Scalar64>)
    requires |fs| == 7
    ensures RecsOf(fs, 1) == Present(1, fs[0].v) + (Present(2, fs[1].v) + (Present(3, fs[2].v) + (Present(4, fs[3].v)
                             + (Present(5, fs[4].v) + (Present(6, fs[5].v) + Present(7, fs[6].v))))))
  {
    hide Present;
    FromField(fs, 0);
    FromField(fs, 1);
    FromField(fs, 2);
    FromField(fs, 3);
    FromField(fs, 4);
    FromField(fs, 5);
    FromField(fs, 6);
    assert fs[0..] == fs && fs[7..] == [] && RecsOf([], 8) == [];
    hide RecsOf;
  }

  lemma FromField(fs: seq<Scalar64>, k: nat)
    requires k < |fs|
    ensures RecsOf(fs[k..], k + 1) == Present(k + 1, fs[k].v) + RecsOf(fs[k + 1..], k + 2)
  {
    assert fs[k..][1..] == fs[k + 1..];
  }

  /** Reading one scalar record, whatever the receiver holds. */
  lemma ReadOneScalar(num: nat, v: uint64, m: Message)
    requires 1 <= num <= 15 && KindOf(m, num) == Scalar
    ensures |EncodeRec(VarintRec(num, v))| < TWO_63
    ensures Unmarshal(EncodeRec(VarintRec(num, v)), 0, m) == Outcome(SetScalar(m, num, v, true), None)
  {
    RecordFormat(num, v, [], [], 0);
    Encode64Length(num * 8);
    Encode64Length(v);
    var t, e := EncodeVarint(num * 8), EncodeVarint(v);
    assert num * 8 / 8 == num && I32(num) == num;
    hide EncodeVarint, EncodeRec, I32, SetScalar, Record, KindOf, Unmarshal;
    ScalarRecord(num * 8, v, [], 0, m);
    assert t + (e + []) == t + e == (t + e) + [];
    UnmarshalStep(t + e, [], 0, m, SetScalar(m, num, v, true));
    EndOfInput(|t + e|, SetScalar(m, num, v, true));
  }

  lemma ReadOneDelimited(num: nat, bs: seq<byte>, m: Message)
    requires 1 <= num <= 15 && KindOf(m, num) == Delimited && |bs| < TWO_63 - 20
    ensures |EncodeRec(BytesRec(num, bs))| < TWO_63
    ensures Unmarshal(EncodeRec(BytesRec(num, bs)), 0, m) == Outcome(SetDelimited(m, num, bs), None)
  {
    RecordFormat(num, 0, bs, [], 0);
    Encode64Length(num * 8 + 2);
    Encode64Length(|bs|);
    var t, e := EncodeVarint(num * 8 + 2), EncodeVarint(|bs|);
    assert (num * 8 + 2) / 8 == num && (num * 8 + 2) % 8 == 2 && I32(num) == num;
    hide EncodeVarint, EncodeRec, I32, SetDelimited, Record, KindOf, Unmarshal;
    DelimitedRecord(num * 8 + 2, bs, [], 0, m);
    assert t + (e + (bs + [])) == t + (e + bs) == (t + (e + bs)) + [];
    UnmarshalStep(t + (e + bs), [], 0, m, SetDelimited(m, num, bs));
    EndOfInput(|t + (e + bs)|, SetDelimited(m, num, bs));
  }

  /** Which number is which field of an ExtensionOptionsWeb3Tx, for every receiver. */
  lemma Web3TxFields(m: Message, v: uint64, bs: seq<byte>)
    requires m.Web3Tx? && |bs| < TWO_63 - 20
    ensures |EncodeRec(VarintRec(1, v))| < TWO_63 && |EncodeRec(BytesRec(2, bs))| < TWO_63 && |EncodeRec(BytesRec(3, bs))| < TWO_63
    ensures Unmarshal(EncodeRec(VarintRec(1, v)), 0, m) == Outcome(m.(typedDataChainID := v), None)
    ensures Unmarshal(EncodeRec(BytesRec(2, bs)), 0, m) == Outcome(m.(feePayer := bs), None)
    ensures Unmarshal(EncodeRec(BytesRec(3, bs)), 0, m) == Outcome(m.(feePayerSig := Some(bs)), None)
  {
    hide Unmarshal, EncodeRec;
    ReadOneScalar(1, v, m);
    ReadOneDelimited(2, bs, m);
    ReadOneDelimited(3, bs, m);
  }

  /** Which number is which field of a TxResult, for every receiver and every value on the wire. */
  lemma TxResultFields(m: Message, v: uint64)
    requires m.TxResult?
    ensures forall num: nat :: 1 <= num <= 7 ==> |EncodeRec(VarintRec(num, v))| < TWO_63
    ensures Unmarshal(EncodeRec(VarintRec(1, v)), 0, m)
         == Outcome(m.(height := if v < 0x8000_0000_0000_0000 then v else v - 0x1_0000_0000_0000_0000), None)
    ensures Unmarshal(EncodeRec(VarintRec(2, v)), 0, m) == Outcome(m.(txIndex := v % 0x1_0000_0000), None)
    ensures Unmarshal(EncodeRec(VarintRec(3, v)), 0, m) == Outcome(m.(msgIndex := v % 0x1_0000_0000), None)
    ensures var low := v % 0x1_0000_0000;
            Unmarshal(EncodeRec(VarintRec(4, v)), 0, m)
            == Outcome(m.(ethTxIndex := if low < 0x8000_0000 then low else low - 0x1_0000_0000), None)
    ensures Unmarshal(EncodeRec(VarintRec(5, v)), 0, m) == Outcome(m.(failed := v != 0), None)
    ensures Unmarshal(EncodeRec(VarintRec(6, v)), 0, m) == Outcome(m.(gasUsed := v), None)
    ensures Unmarshal(EncodeRec(VarintRec(7, v)), 0, m) == Outcome(m.(cumulativeGasUsed := v), None)
  {
    SetByNumber(m, v);
    hide Unmarshal, EncodeRec, SetScalar;
    forall num: nat | 1 <= num <= 7
      ensures |EncodeRec(VarintRec(num, v))| < TWO_63
      ensures Unmarshal(EncodeRec(VarintRec(num, v)), 0, m) == Outcome(SetScalar(m, num, v, true), None)
    {
      ReadOneScalar(num, v, m);
    }
  }

  lemma SetByNumber(m: Message, v: uint64)
    requires m.TxResult?
    ensures SetScalar(m, 1, v, true) == m.(height := if v < 0x8000_0000_0000_0000 then v else v - 0x1_0000_0000_0000_0000)
    ensures SetScalar(m, 2, v, true) == m.(txIndex := v % 0x1_0000_0000)
    ensures SetScalar(m, 3, v, true) == m.(msgIndex := v % 0x1_0000_0000)
    ensures var low := v % 0x1_0000_0000;
            SetScalar(m, 4, v, true) == m.(ethTxIndex := if low < 0x8000_0000 then low else low - 0x1_0000_0000)
    ensures SetScalar(m, 5, v, true) == m.(failed := v != 0)
    ensures SetScalar(m, 6, v, true) == m.(gasUsed := v)
    ensures SetScalar(m, 7, v, true) == m.(cumulativeGasUsed := v)
  {}

  // ----- what is refused -----

  /** The first record is refused. */
  lemma Refused(s: Buffer, m: Message, e: Error)
    requires s != [] && Record(s, 0, m).err == Some(e) && Record(s, 0, m).m == m
    ensures Unmarshal(s, 0, m) == Outcome(m, Some(e))
  {
    hide Record;
  }

  /** A scalar whose varint breaks off: what its bytes gave so far is stored, but for the bool. */
  lemma BrokenScalars(m: Message)
    ensures m.Web3Tx? ==> Unmarshal([0x08, 0x81], 0, m) == Outcome(m.(typedDataChainID := 1), Some(UnexpectedEOF))
    ensures m.TxResult? ==>
              && Unmarshal([0x08, 0x81], 0, m) == Outcome(m.(height := 1), Some(UnexpectedEOF))
              && Unmarshal([0x10, 0x81], 0, m) == Outcome(m.(txIndex := 1), Some(UnexpectedEOF))
              && Unmarshal([0x18, 0x81], 0, m) == Outcome(m.(msgIndex := 1), Some(UnexpectedEOF))
              && Unmarshal([0x20, 0x81], 0, m) == Outcome(m.(ethTxIndex := 1), Some(UnexpectedEOF))
              && Unmarshal([0x28, 0x81], 0, m) == Outcome(m, Some(UnexpectedEOF))
              && Unmarshal([0x30, 0x81], 0, m) == Outcome(m.(gasUsed := 1), Some(UnexpectedEOF))
              && Unmarshal([0x38, 0x81], 0, m) == Outcome(m.(cumulativeGasUsed := 1), Some(UnexpectedEOF))
  {
    if m.Web3Tx? {
      BrokenScalar(1, m);
    } else {
      BrokenScalar(1, m);
      BrokenScalar(2, m);
      BrokenScalar(3, m);
      BrokenScalar(4, m);
      BrokenScalar(5, m);
      BrokenScalar(6, m);
      BrokenScalar(7, m);
    }
    hide Unmarshal;
  }

  lemma BrokenScalar(num: nat, m: Message)
    requires 1 <= num <= 15 && KindOf(m, num) == Scalar
    ensures Unmarshal([num * 8, 0x81], 0, m) == Outcome(SetScalar(m, num, 1, false), Some(UnexpectedEOF))
  {
    var s: Buffer := [num * 8, 0x81];
    assert EncodeVarint(num * 8) == [num * 8] && [num * 8] + [0x81] == s;
    BrokenVarint();
    hide EncodeVarint, ReadVarint, Unmarshal, SetScalar;
    HeaderOfNumber(num, 0, [0x81]);
    assert s[1..] == [0x81];
    hide ReadHeader;
    assert Record(s, 0, m) == Step(SetScalar(m, num, 1, false), 2, Some(UnexpectedEOF));
    Stops(s, m);
  }

  lemma Stops(s: Buffer, m: Message)
    requires s != [] && Record(s, 0, m).err.Some?
    ensures Unmarshal(s, 0, m) == Outcome(Record(s, 0, m).m, Record(s, 0, m).err)
  {
    hide Record;
  }

  lemma BrokenVarint()
    ensures ReadVarint([0x81], 0) == Scan(1, 1, Some(UnexpectedEOF))
  {}

  lemma HeaderOfNumber(num: nat, wireType: nat, rest: seq<byte>)
    requires 1 <= num < TWO_31 && 0 <= wireType < 8 && |rest| < TWO_63 - 20
    ensures var t := EncodeVarint(num * 8 + wireType);
            && 1 <= |t| <= 10
            && ReadHeader(t + rest) == Header(num, wireType, |t|, if wireType == 4 then Some(EndGroupForNonGroup) else None)
  {
    var tag := num * 8 + wireType;
    Encode64Length(tag);
    assert tag / 8 == num && tag % 8 == wireType && I32(num) == num;
    hide EncodeVarint, ReadVarint, ReadHeader, I32;
    EncodeDenotes(tag);
    if wireType == 4 {
      HeaderOfEndGroup(tag, rest);
    } else {
      HeaderOfTag(tag, rest);
    }
  }

  lemma HeaderOfEndGroup(tag: uint64, rest: seq<byte>)
    requires |EncodeVarint(tag)| + |rest| < TWO_63 && tag % 8 == 4
    ensures ReadHeader(EncodeVarint(tag) + rest) == Header(I32(tag / 8), 4, |EncodeVarint(tag)|, Some(EndGroupForNonGroup))
  {
    hide EncodeVarint, ReadVarint, I32;
    ReadEncoded(tag, rest);
  }

  /** A record that begins with an end of group, and a known field with a wire type that is not its own. */
  lemma WrongWireTypes(num: nat, wireType: nat, rest: seq<byte>, m: Message)
    requires 1 <= num < TWO_31 && 0 <= wireType < 8 && |rest| < TWO_63 - 20
    ensures var s := EncodeVarint(num * 8 + wireType) + rest;
            && |s| < TWO_63
            && (wireType == 4 ==> Unmarshal(s, 0, m) == Outcome(m, Some(EndGroupForNonGroup)))
            && (m.TxResult? && num <= 7 && wireType !in {0, 4} ==> Unmarshal(s, 0, m) == Outcome(m, Some(WrongWireType)))
            && (m.Web3Tx? && num == 1 && wireType !in {0, 4} ==> Unmarshal(s, 0, m) == Outcome(m, Some(WrongWireType)))
            && (m.Web3Tx? && num in {2, 3} && wireType !in {2, 4} ==> Unmarshal(s, 0, m) == Outcome(m, Some(WrongWireType)))
  {
    var s := EncodeVarint(num * 8 + wireType) + rest;
    HeaderOfNumber(num, wireType, rest);
    hide EncodeVarint, ReadHeader, Unmarshal, SetScalar, SetDelimited, ReadVarint, UnknownField;
    var r := Record(s, 0, m);
    if r.err in {Some(EndGroupForNonGroup), Some(WrongWireType)} && r.m == m {
      Refused(s, m, r.err.value);
    }
  }

  /** The wire types 6 and 7 do not exist. */
  lemma IllegalWireTypes(num: nat, wireType: nat, rest: seq<byte>, m: Message)
    requires (m.TxResult? && 7 < num < TWO_31) || (m.Web3Tx? && 3 < num < TWO_31)
    requires wireType in {6, 7} && |rest| < TWO_63 - 20
    ensures |EncodeVarint(num * 8 + wireType) + rest| < TWO_63
    ensures Unmarshal(EncodeVarint(num * 8 + wireType) + rest, 0, m) == Outcome(m, Some(IllegalWireType))
  {
    var s := EncodeVarint(num * 8 + wireType) + rest;
    HeaderOfNumber(num, wireType, rest);
    hide EncodeVarint, Unmarshal, SetScalar, SetDelimited, ReadVarint, I32, I64;
    assert s[0..] == s;
    assert Skip(s, 0, 0) == Skipped(0, Some(IllegalWireType));
    hide ReadHeader, Skip;
    Refused(s, m, IllegalWireType);
  }

  /** A length-delimited field whose length is negative as an int64, wraps around, or goes beyond the end. */
  lemma BadLengths(num: nat, length: uint64, rest: seq<byte>, m: Message)
    requires m.Web3Tx? && num in {2, 3} && |rest| < TWO_63 - 40
    ensures var t, e := EncodeVarint(num * 8 + 2), EncodeVarint(length);
            var s := t + (e + rest);
            && |s| < TWO_63
            && (length >= 0x8000_0000_0000_0000 || |t| + |e| + length >= 0x8000_0000_0000_0000
                ==> Unmarshal(s, 0, m) == Outcome(m, Some(InvalidLength)))
            && (|t| + |e| + length < 0x8000_0000_0000_0000 && length > |rest|
                ==> Unmarshal(s, 0, m) == Outcome(m, Some(UnexpectedEOF)))
  {
    var t, e := EncodeVarint(num * 8 + 2), EncodeVarint(length);
    var s := t + (e + rest);
    Encode64Length(num * 8 + 2);
    Encode64Length(length);
    EncodeDenotes(num * 8 + 2);
    assert (num * 8 + 2) / 8 == num && (num * 8 + 2) % 8 == 2 && I32(num) == num;
    HeaderOfTag(num * 8 + 2, e + rest);
    ReadEncoded(length, rest);
    assert s[|t|..] == e + rest;
    hide EncodeVarint, ReadVarint, I32, Unmarshal, SetDelimited, ReadHeader;
    I64Id(length);
    I64Id(|t| + |e| + length);
    if Record(s, 0, m).err.Some? {
      Refused(s, m, Record(s, 0, m).err.value);
    }
  }

  /** Every number above those of the message's fields is skipped, with a payload of any wire type: a varint,
      eight bytes, any bytes with their length, an empty group, four bytes. */
  lemma UnknownNumbersAreSkipped(r: Rec, m: Message)
    requires (m.TxResult? && 7 < r.num < TWO_31) || (m.Web3Tx? && 3 < r.num < TWO_31)
    requires (r.VarintRec? || (r.Fixed64Rec? && |r.bs| == 8) || (r.BytesRec? && |r.bs| < TWO_63 - 20)
              || (r.GroupRec? && r.items == [] && r.endNum < TWO_31) || (r.Fixed32Rec? && |r.bs| == 4))
    ensures |EncodeRec(r)| < TWO_63 && Unmarshal(EncodeRec(r), 0, m) == Outcome(m, None)
  {
    hide EncodeRec, Unmarshal;
    ShortRecord(r);
    assert I32(r.num) == r.num;
    hide I32;
    assert Fits(r) && Foreign(m, r);
    hide Fits, Foreign;
    SkipOne(r, m);
  }

  lemma ShortRecord(r: Rec)
    requires r.num < TWO_31
    requires (r.VarintRec? || (r.Fixed64Rec? && |r.bs| == 8) || (r.BytesRec? && |r.bs| < TWO_63 - 20)
              || (r.GroupRec? && r.items == [] && r.endNum < TWO_31) || (r.Fixed32Rec? && |r.bs| == 4))
    ensures |EncodeRec(r)| < TWO_63
  {
    hide EncodeVarint;
    Encode64Length(r.num * 8 + WireTypeOf(r));
    match r {
      case VarintRec(_, v) => Encode64Length(v);
      case BytesRec(_, bs) => Encode64Length(|bs|);
      case GroupRec(num, _, endNum) =>
        Encode64Length(endNum * 8 + 4);
        RecordFormat(num, 0, [], [], endNum);
      case _ =>
    }
  }

  lemma SkipOne(r: Rec, m: Message)
    requires Fits(r) && Foreign(m, r) && |EncodeRec(r)| < TWO_63
    ensures Unmarshal(EncodeRec(r), 0, m) == Outcome(m, None)
  {
    assert EncodeRecs([r]) == EncodeRec(r);
    assert EncodeRec(r) + [] == EncodeRec(r);
    hide Fits, Foreign, EncodeRec, EncodeRecs, Unmarshal;
    ForeignRecordsAreIgnored([r], [], 0, m);
    EndOfInput(|EncodeRec(r)|, m);
  }
}

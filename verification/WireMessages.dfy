/** The generated message types as mutable receivers: Marshal fills a buffer from its end, Unmarshal
    and skip advance an index. Every method is tied to the functions of module Wire. */
module WireMessages {
  import opened Bytes
  import opened Varint
  import Wire

  // ----- writing -----

  /** Writes one scalar field, unless it is zero, so that it ends just before offset. */
  method PutScalar(a: array<byte>, offset: nat, tag: byte, v: uint64) returns (base: nat)
    requires Wire.FieldSize(v) <= offset <= a.Length
    modifies a
    ensures base == offset - Wire.FieldSize(v) && Wire.FieldSize(v) == |Wire.VarintField(tag, v)|
    ensures a[..] == Splice(old(a[..]), base, Wire.VarintField(tag, v))
  {
    Wire.VarintFieldSize(tag, v);
    hide Splice;
    base := offset;
    ghost var was := a[..];
    if v == 0 {
      SpliceNothing(was, offset);
    } else {
      base := PutVarint(a, offset, v);
      base := base - 1;
      SpliceTwice(was, base, [tag], EncodeVarint(v));
      SpliceOne(a[..], base, tag);
      a[base] := tag;
    }
  }

  lemma SuffixFits(fs: seq<Wire.Scalar64>, k: nat)
    requires k < |fs|
    ensures Wire.FieldSize(fs[k].v) + |Wire.EncodeScalars(fs[k + 1..])| == |Wire.EncodeScalars(fs[k..])|
         <= |Wire.EncodeScalars(fs)|
  {
    hide Wire.EncodeScalars, Wire.FieldSize;
    Wire.ScalarsSize(fs, k);
    if k > 0 {
      SuffixFits(fs, k - 1);
    } else {
      assert fs[0..] == fs;
    }
  }

  /** Field k of the list, written in front of the fields after it, which end at end. */
  method PutScalarBefore(a: array<byte>, offset: nat, end: nat, ghost was: seq<byte>,
                         ghost fs: seq<Wire.Scalar64>, ghost k: nat, tag: byte, v: uint64) returns (base: nat)
    requires k < |fs| && fs[k] == Wire.Scalar64(tag, v)
    requires |Wire.EncodeScalars(fs)| <= end <= a.Length == |was|
    requires offset == end - |Wire.EncodeScalars(fs[k + 1..])|
    requires a[..] == Splice(was, offset, Wire.EncodeScalars(fs[k + 1..]))
    modifies a
    ensures base == end - |Wire.EncodeScalars(fs[k..])|
    ensures a[..] == Splice(was, base, Wire.EncodeScalars(fs[k..]))
  {
    hide Splice;
    SuffixFits(fs, k);
    assert fs[k..][1..] == fs[k + 1..];
    assert Wire.EncodeScalars(fs[k..]) == Wire.VarintField(tag, v) + Wire.EncodeScalars(fs[k + 1..]);
    hide Wire.EncodeScalars;
    base := PutScalar(a, offset, tag, v);
    SpliceTwice(was, base, Wire.VarintField(tag, v), Wire.EncodeScalars(fs[k + 1..]));
  }

  // ----- skipping -----

  /** skip: the length of the record at the front of d, which may exceed d. */
  method SkipRecord(d: Buffer) returns (n: int, err: Option<Error>)
    ensures n >= 0 && Wire.Skipped(n, err) == Wire.Skip(d, 0, 0)
  {
    hide ReadVarint, I64;
    var i, depth := 0, 0;
    while i < |d|
      invariant i >= 0 && depth >= 0
      invariant Wire.Skip(d, 0, 0) == Wire.Skip(d, i, depth)
      decreases |d| - i
    {
      ghost var item := Wire.SkipItem(d, i, depth);
      var wire, j, e := DecodeVarint(d, i, 64);
      if e.Some? {
        return 0, e;
      }
      var next := j;
      var wireType := wire % 8;
      if wireType == 0 {
        var _, k, e' := DecodeVarint(d, j, 64);
        if e'.Some? {
          return 0, e';
        }
        next := k;
      } else if wireType == 1 {
        next := I64(j + 8);
      } else if wireType == 2 {
        var raw, k, e' := DecodeVarint(d, j, 64);
        if e'.Some? {
          return 0, e';
        }
        var length := I64(raw);
        SameI64(ReadVarint(d[j..], 0).raw);
        if length < 0 {
          return 0, Some(InvalidLength);
        }
        next := I64(k + length);
      } else if wireType == 3 {
        depth := depth + 1;
      } else if wireType == 4 {
        if depth == 0 {
          return 0, Some(UnexpectedEndOfGroup);
        }
        depth := depth - 1;
      } else if wireType == 5 {
        next := I64(j + 4);
      } else {
        return 0, Some(IllegalWireType);
      }
      assert item == Wire.Item(next, depth, None);
      i := next;
      if i < 0 {
        return 0, Some(InvalidLength);
      }
      if depth == 0 {
        return i, None;
      }
    }
    return 0, Some(UnexpectedEOF);
  }

  /** Cutting to 64 bits first does not change later conversions. */
  lemma SameI64(raw: nat)
    ensures I64(raw % TWO_64) == I64(raw) && U64(raw % TWO_64) == U64(raw)
  {}

  lemma SameI32(raw: nat)
    ensures I32(raw % TWO_32) == I32(raw) && U32(raw % TWO_32) == U32(raw)
  {}

  /** The tag of the record at index i. */
  method ReadTag(d: Buffer, i: nat) returns (num: int, wireType: int, next: nat, err: Option<Error>)
    requires i < |d|
    ensures var h := Wire.ReadHeader(d[i..]);
            num == h.num && wireType == h.wireType && next == i + h.used && err == h.err
  {
    hide ReadVarint, I32;
    var wire, j, e := DecodeVarint(d, i, 64);
    num, wireType, next, err := I32(wire / 8), wire % 8, j, e;
    if err.None? {
      if wireType == 4 {
        err := Some(EndGroupForNonGroup);
      } else if num <= 0 {
        err := Some(IllegalTag);
      }
    }
  }

  /** The default branch of the switch: rewind to preIndex and skip the whole record. */
  method SkipUnknown(d: Buffer, preIndex: nat, ghost m: Wire.Message) returns (next: nat, err: Option<Error>)
    requires preIndex < |d|
    ensures next >= preIndex
    ensures Wire.UnknownField(d[preIndex..], preIndex, m) == Wire.Step(m, next - preIndex, err)
  {
    hide I64, Wire.Skip;
    next := preIndex;
    var skippy, e := SkipRecord(d[preIndex..]);
    if e.Some? {
      return next, e;
    }
    var to := I64(preIndex + skippy);
    if skippy < 0 || to < 0 {
      return next, Some(InvalidLength);
    }
    if to > |d| {
      return next, Some(UnexpectedEOF);
    }
    I64Id(preIndex + skippy);
    next := to;
    err := None;
  }

  /** The value the loop invariant tracks after one successful round. */
  lemma Advance(d: Buffer, i: nat, next: nat, m: Wire.Message, m': Wire.Message)
    requires i < next <= |d|
    requires Wire.Record(d[i..], i, m) == Wire.Step(m', next - i, None)
    ensures Wire.Unmarshal(d[i..], i, m) == Wire.Unmarshal(d[next..], next, m')
  {
    hide Wire.Record;
    assert d[i..][next - i..] == d[next..];
  }

  // ----- TxResult -----

  lemma SevenFields(m: Wire.Message)
    requires m.TxResult?
    ensures var fs := Wire.ScalarFields(m);
            && |fs| == 7 && fs[0..] == fs && Wire.EncodeScalars(fs[7..]) == []
            && fs[0] == Wire.Scalar64(0x08, U64(m.height)) && fs[1] == Wire.Scalar64(0x10, m.txIndex)
            && fs[2] == Wire.Scalar64(0x18, m.msgIndex) && fs[3] == Wire.Scalar64(0x20, U64(m.ethTxIndex))
            && fs[4] == Wire.Scalar64(0x28, Wire.Bit(m.failed)) && fs[5] == Wire.Scalar64(0x30, m.gasUsed)
            && fs[6] == Wire.Scalar64(0x38, m.cumulativeGasUsed)
  {}

  class TxResult {
    var height: int64
    var txIndex: uint32
    var msgIndex: uint32
    var ethTxIndex: int32
    var failed: bool
    var gasUsed: uint64
    var cumulativeGasUsed: uint64

    function View(): Wire.Message
      reads this
    {
      Wire.TxResult(height, txIndex, msgIndex, ethTxIndex, failed, gasUsed, cumulativeGasUsed)
    }

    constructor ()
      ensures View() == Wire.FRESH_TX_RESULT
    {
      height, txIndex, msgIndex, ethTxIndex := 0, 0, 0, 0;
      failed, gasUsed, cumulativeGasUsed := false, 0, 0;
    }

    /** Writes the message so that it ends at end, which is where a slice of length end stops. */
    method MarshalToSizedBuffer(a: array<byte>, end: nat) returns (n: nat)
      requires Wire.Size(View()) <= end <= a.Length
      modifies a
      ensures n == Wire.Size(View()) == |Wire.Encode(View())|
      ensures a[..] == Splice(old(a[..]), end - n, Wire.Encode(View()))
    {
      hide Wire.ScalarFields, Wire.EncodeScalars, Wire.Size, U64, Splice;
      ghost var fs, was := Wire.ScalarFields(View()), a[..];
      var fail := if failed then 1 else 0;
      var h, t, m, e, g, c := U64(height), txIndex, msgIndex, U64(ethTxIndex), gasUsed, cumulativeGasUsed;
      SevenFields(View());
      Wire.SizeIsLength(View());
      SpliceNothing(was, end);
      hide View;
      var i := PutScalarBefore(a, end, end, was, fs, 6, 0x38, c);
      i := PutScalarBefore(a, i, end, was, fs, 5, 0x30, g);
      i := PutScalarBefore(a, i, end, was, fs, 4, 0x28, fail);
      i := PutScalarBefore(a, i, end, was, fs, 3, 0x20, e);
      i := PutScalarBefore(a, i, end, was, fs, 2, 0x18, m);
      i := PutScalarBefore(a, i, end, was, fs, 1, 0x10, t);
      i := PutScalarBefore(a, i, end, was, fs, 0, 0x08, h);
      n := end - i;
    }

    /** The allocated buffer is filled exactly: the backward writer ends at offset 0. */
    method Marshal() returns (a: array<byte>)
      ensures fresh(a) && a[..] == Wire.Encode(View())
    {
      a := new byte[Wire.Size(View())];
      var n := MarshalToSizedBuffer(a, a.Length);
    }

    /** One case of the switch: the varint of field num, starting at index j. */
    method ReadScalar(d: Buffer, j: nat, num: int) returns (next: nat, err: Option<Error>)
      requires j <= |d| && 1 <= num <= 7
      modifies this
      ensures var v := ReadVarint(d[j..], 0);
              View() == Wire.SetScalar(old(View()), num, v.raw, v.err.None?) && next == j + v.used && err == v.err
    {
      hide ReadVarint, I64, I32;
      var acc;
      SameI64(ReadVarint(d[j..], 0).raw);
      SameI32(ReadVarint(d[j..], 0).raw);
      if num == 1 {
        acc, next, err := DecodeVarint(d, j, 64);
        height := I64(acc);
      } else if num == 2 {
        acc, next, err := DecodeVarint(d, j, 32);
        txIndex := acc;
      } else if num == 3 {
        acc, next, err := DecodeVarint(d, j, 32);
        msgIndex := acc;
      } else if num == 4 {
        acc, next, err := DecodeVarint(d, j, 32);
        ethTxIndex := I32(acc);
      } else if num == 5 {
        acc, next, err := DecodeVarint(d, j, 64);
        if err.None? {
          failed := acc != 0;
        }
      } else if num == 6 {
        acc, next, err := DecodeVarint(d, j, 64);
        gasUsed := acc;
      } else {
        acc, next, err := DecodeVarint(d, j, 64);
        cumulativeGasUsed := acc;
      }
    }

    /** One round of the loop. */
    method ReadRecord(d: Buffer, preIndex: nat) returns (next: nat, err: Option<Error>)
      requires preIndex < |d|
      modifies this
      ensures next >= preIndex
      ensures Wire.Record(d[preIndex..], preIndex, old(View())) == Wire.Step(View(), next - preIndex, err)
    {
      hide ReadVarint, Wire.ReadHeader, Wire.SetScalar, Wire.UnknownField;
      var num, wireType, j, e := ReadTag(d, preIndex);
      if e.Some? {
        return j, e;
      }
      if num <= 7 {
        if wireType != 0 {
          return j, Some(WrongWireType);
        }
        assert d[preIndex..][j - preIndex..] == d[j..];
        next, err := ReadScalar(d, j, num);
      } else {
        next, err := SkipUnknown(d, preIndex, View());
      }
    }

    /** Merges d into the receiver; after an error the receiver holds what was read before it. */
    method Unmarshal(d: Buffer) returns (err: Option<Error>)
      modifies this
      ensures Wire.Outcome(View(), err) == Wire.Unmarshal(d, 0, old(View()))
    {
      hide Wire.Record;
      var i := 0;
      assert d[0..] == d;
      while i < |d|
        invariant i <= |d|
        invariant Wire.Unmarshal(d[i..], i, View()) == Wire.Unmarshal(d, 0, old(View()))
      {
        ghost var m := View();
        var next, e := ReadRecord(d, i);
        if e.Some? {
          return e;
        }
        Advance(d, i, next, m, View());
        i := next;
      }
      err := None;
    }
  }

  // ----- ExtensionOptionsWeb3Tx -----

  /** Content, length and tag of a string or bytes field, so that they end just before offset. */
  method PutContent(a: array<byte>, offset: nat, tag: byte, bs: seq<byte>) returns (base: nat)
    requires |bs| < TWO_63 && 1 + Sov(|bs|) + |bs| <= offset <= a.Length
    modifies a
    ensures base == offset - |bs| - Sov(|bs|) - 1 && Sov(|bs|) == |EncodeVarint(|bs|)|
    ensures a[..] == Splice(old(a[..]), base, [tag] + (EncodeVarint(|bs|) + bs))
  {
    hide Splice, Sov, EncodeVarint;
    ghost var was := a[..];
    CopyInto(a, offset - |bs|, bs);
    base := PutVarint(a, offset - |bs|, |bs|);
    base := base - 1;
    ThreeSplices(was, base, tag, EncodeVarint(|bs|), bs);
    ghost var sized := a[..];
    a[base] := tag;
    assert a[..] == sized[base := tag];
  }

  /** Writes a string or bytes field, unless it is empty, so that it ends just before offset. */
  method PutBytes(a: array<byte>, offset: nat, tag: byte, bs: seq<byte>) returns (base: nat)
    requires |bs| < TWO_63 && Wire.BytesSize(|bs|) <= offset <= a.Length
    modifies a
    ensures base == offset - Wire.BytesSize(|bs|) && Wire.BytesSize(|bs|) == |Wire.BytesField(tag, bs)|
    ensures a[..] == Splice(old(a[..]), base, Wire.BytesField(tag, bs))
  {
    BytesFieldParts(tag, bs);
    hide Sov, EncodeVarint, Wire.BytesField;
    if |bs| > 0 {
      hide Splice;
      base := PutContent(a, offset, tag, bs);
    } else {
      base := offset;
      SpliceNothing(a[..], offset);
    }
  }

  lemma ThreeSplices(was: seq<byte>, base: nat, tag: byte, e: seq<byte>, bs: seq<byte>)
    requires base + 1 + |e| + |bs| <= |was|
    ensures var copied := Splice(was, base + 1 + |e|, bs);
            Splice(copied, base + 1, e)[base := tag] == Splice(was, base, [tag] + (e + bs))
  {
    hide Splice;
    SpliceTwice(was, base + 1, e, bs);
    SpliceOne(Splice(was, base + 1, e + bs), base, tag);
    SpliceTwice(was, base, [tag], e + bs);
  }

  lemma BytesFieldParts(tag: byte, bs: seq<byte>)
    ensures Wire.BytesSize(|bs|) == |Wire.BytesField(tag, bs)|
    ensures bs == [] ==> Wire.BytesField(tag, bs) == []
    ensures bs != [] ==> Wire.BytesField(tag, bs) == [tag] + (EncodeVarint(|bs|) + bs)
                         && Wire.BytesSize(|bs|) == 1 + Sov(|bs|) + |bs|
  {
    Wire.BytesFieldSize(tag, bs);
  }

  /** Go's copy. */
  method CopyInto(a: array<byte>, base: nat, bs: seq<byte>)
    requires base + |bs| <= a.Length
    modifies a
    ensures a[..] == Splice(old(a[..]), base, bs)
  {
    forall k | 0 <= k < |bs| {
      a[base + k] := bs[k];
    }
  }

  class Web3Tx {
    var typedDataChainID: uint64
    var feePayer: Buffer
    var feePayerSig: Option<Buffer>

    function View(): Wire.Message
      reads this
    {
      Wire.Web3Tx(typedDataChainID, feePayer, feePayerSig)
    }

    constructor ()
      ensures View() == Wire.FRESH_WEB3_TX
    {
      typedDataChainID, feePayer, feePayerSig := 0, [], None;
    }

    method MarshalToSizedBuffer(a: array<byte>, end: nat) returns (n: nat)
      requires Wire.Size(View()) <= end <= a.Length
      modifies a
      ensures n == Wire.Size(View()) == |Wire.Encode(View())|
      ensures a[..] == Splice(old(a[..]), end - n, Wire.Encode(View()))
    {
      hide Wire.FieldSize, Wire.BytesSize, Wire.BytesField, Wire.VarintField, Splice;
      var sig := if feePayerSig.None? then [] else feePayerSig.value;
      ghost var was := a[..];
      ghost var f1, f2, f3 := Wire.VarintField(0x08, typedDataChainID), Wire.BytesField(0x12, feePayer), Wire.BytesField(0x1a, sig);
      var i3 := PutBytes(a, end, 0x1a, sig);
      var i2 := PutBytes(a, i3, 0x12, feePayer);
      SpliceTwice(was, i2, f2, f3);
      var i1 := PutScalar(a, i2, 0x08, typedDataChainID);
      SpliceTwice(was, i1, f1, f2 + f3);
      n := end - i1;
    }

    method Marshal() returns (a: array<byte>)
      ensures fresh(a) && a[..] == Wire.Encode(View())
    {
      a := new byte[Wire.Size(View())];
      var n := MarshalToSizedBuffer(a, a.Length);
    }

    /** A length-delimited field whose length prefix starts at index j. */
    method ReadDelimited(d: Buffer, preIndex: nat, j: nat, num: int) returns (next: nat, err: Option<Error>)
      requires preIndex < j <= |d| && (num == 2 || num == 3)
      modifies this
      ensures next >= preIndex
      ensures Wire.DelimitedField(d[preIndex..], preIndex, old(View()), Wire.Header(num, 2, j - preIndex, None))
           == Wire.Step(View(), next - preIndex, err)
    {
      hide ReadVarint, I64;
      assert d[preIndex..][j - preIndex..] == d[j..];
      var raw, from, e := DecodeVarint(d, j, 64);
      SameI64(ReadVarint(d[j..], 0).raw);
      if e.Some? {
        return from, e;
      }
      var length := I64(raw);
      if length < 0 {
        return from, Some(InvalidLength);
      }
      var postIndex := I64(from + length);
      if postIndex < 0 {
        return from, Some(InvalidLength);
      }
      if postIndex > |d| {
        return from, Some(UnexpectedEOF);
      }
      I64Id(from + length);
      assert d[preIndex..][from - preIndex..postIndex - preIndex] == d[from..postIndex];
      if num == 2 {
        feePayer := d[from..postIndex];
      } else {
        feePayerSig := Some(d[from..postIndex]);
      }
      return postIndex, None;
    }

    method ReadRecord(d: Buffer, preIndex: nat) returns (next: nat, err: Option<Error>)
      requires preIndex < |d|
      modifies this
      ensures next >= preIndex
      ensures Wire.Record(d[preIndex..], preIndex, old(View())) == Wire.Step(View(), next - preIndex, err)
    {
      hide ReadVarint, Wire.ReadHeader, Wire.UnknownField, Wire.DelimitedField;
      var num, wireType, j, e := ReadTag(d, preIndex);
      if e.Some? {
        return j, e;
      }
      if num == 1 {
        if wireType != 0 {
          return j, Some(WrongWireType);
        }
        assert d[preIndex..][j - preIndex..] == d[j..];
        typedDataChainID, next, err := DecodeVarint(d, j, 64);
      } else if num == 2 || num == 3 {
        if wireType != 2 {
          assert Wire.DelimitedField(d[preIndex..], preIndex, View(), Wire.ReadHeader(d[preIndex..]))
              == Wire.Step(View(), j - preIndex, Some(WrongWireType)) by {
            WrongWireTypeStep(d[preIndex..], preIndex, View(), Wire.ReadHeader(d[preIndex..]));
          }
          return j, Some(WrongWireType);
        }
        next, err := ReadDelimited(d, preIndex, j, num);
      } else {
        next, err := SkipUnknown(d, preIndex, View());
      }
    }

    method Unmarshal(d: Buffer) returns (err: Option<Error>)
      modifies this
      ensures Wire.Outcome(View(), err) == Wire.Unmarshal(d, 0, old(View()))
    {
      hide Wire.Record;
      var i := 0;
      assert d[0..] == d;
      while i < |d|
        invariant i <= |d|
        invariant Wire.Unmarshal(d[i..], i, View()) == Wire.Unmarshal(d, 0, old(View()))
      {
        ghost var m := View();
        var next, e := ReadRecord(d, i);
        if e.Some? {
          return e;
        }
        Advance(d, i, next, m, View());
        i := next;
      }
      err := None;
    }
  }

  lemma WrongWireTypeStep(s: Buffer, base: nat, m: Wire.Message, h: Wire.Header)
    requires h.used <= |s| && base + |s| < TWO_63 && Wire.KindOf(m, h.num) == Wire.Delimited
    requires h.wireType != 2
    ensures Wire.DelimitedField(s, base, m, h) == Wire.Step(m, h.used, Some(WrongWireType))
  {}
}

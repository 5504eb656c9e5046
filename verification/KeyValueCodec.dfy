/** The `KeyValue` record and its two storage encodings (src/storage/mvcc.rs). */
module KeyValues {
  import opened ByteStrings

  datatype KeyValue = KeyValue(
    key: Bytes,
    createRevision: i64,
    modRevision: i64,
    version: i64,
    value: Bytes,
    lease: i64)

  /** The four fixed-width fields both encodings start with. */
  function Header(kv: KeyValue): (b: Bytes)
    ensures |b| == 32
  {
    I64Le(kv.createRevision) + I64Le(kv.modRevision) + I64Le(kv.version) + I64Le(kv.lease)
  }

  /** Encoding stored in the `kv` tree: the key is the tree key and is not repeated. */
  function Encoded(kv: KeyValue): Bytes {
    Header(kv) + U32Le(|kv.value|) + kv.value
  }

  /** Encoding stored in the `kv_rev` tree. */
  function EncodedWithKey(kv: KeyValue): Bytes {
    Header(kv) + U32Le(|kv.key|) + kv.key + U32Le(|kv.value|) + kv.value
  }

  method Encode(kv: KeyValue) returns (buf: Bytes)
    ensures buf == Encoded(kv)
  {
    buf := [];
    buf := buf + I64Le(kv.createRevision);
    buf := buf + I64Le(kv.modRevision);
    buf := buf + I64Le(kv.version);
    buf := buf + I64Le(kv.lease);
    assert buf == Header(kv);
    buf := buf + U32Le(|kv.value|);
    buf := buf + kv.value;
  }

  method EncodeWithKey(kv: KeyValue) returns (buf: Bytes)
    ensures buf == EncodedWithKey(kv)
  {
    buf := [];
    buf := buf + I64Le(kv.createRevision);
    buf := buf + I64Le(kv.modRevision);
    buf := buf + I64Le(kv.version);
    buf := buf + I64Le(kv.lease);
    assert buf == Header(kv);
    buf := buf + U32Le(|kv.key|);
    buf := buf + kv.key;
    buf := buf + U32Le(|kv.value|);
    buf := buf + kv.value;
  }

  /** `KeyValue::decode`. The length test admits 32 to 35 bytes, but the length field is then read
      at bytes 32 to 35: on such data the code panics with an index out of bounds. */
  function Decode(key: Bytes, data: Bytes): Outcome<KeyValue> {
    if |data| < 32 then Failed
    else if |data| < 36 then Panicked
    else
      var valueLen := U32FromLe(data[32..36]);
      if 36 + valueLen > |data| then Failed
      else Done(KeyValue(key, I64FromLe(data[0..8]), I64FromLe(data[8..16]), I64FromLe(data[16..24]),
                         data[36..36 + valueLen], I64FromLe(data[24..32])))
  }

  /** `KeyValue::decode_with_key`. */
  function DecodeWithKey(data: Bytes): Outcome<KeyValue> {
    if |data| < 36 then Failed
    else
      var keyLen := U32FromLe(data[32..36]);
      if 36 + keyLen + 4 > |data| then Failed
      else
        var valOffset := 36 + keyLen;
        var valueLen := U32FromLe(data[valOffset..valOffset + 4]);
        if valOffset + 4 + valueLen > |data| then Failed
        else Done(KeyValue(data[36..36 + keyLen], I64FromLe(data[0..8]), I64FromLe(data[8..16]),
                           I64FromLe(data[16..24]), data[valOffset + 4..valOffset + 4 + valueLen],
                           I64FromLe(data[24..32])))
  }

  lemma HeaderFields(kv: KeyValue, rest: Bytes)
    ensures var data := Header(kv) + rest;
      && I64FromLe(data[0..8]) == kv.createRevision
      && I64FromLe(data[8..16]) == kv.modRevision
      && I64FromLe(data[16..24]) == kv.version
      && I64FromLe(data[24..32]) == kv.lease
      && data[32..] == rest
  {
    var data := Header(kv) + rest;
    assert data[0..8] == I64Le(kv.createRevision);
    assert data[8..16] == I64Le(kv.modRevision);
    assert data[16..24] == I64Le(kv.version);
    assert data[24..32] == I64Le(kv.lease);
    I64LeRoundTrip(kv.createRevision);
    I64LeRoundTrip(kv.modRevision);
    I64LeRoundTrip(kv.version);
    I64LeRoundTrip(kv.lease);
  }

  /** The bytes of a field that follows a length prefix. */
  lemma FieldBytes(data: Bytes, off: nat, len: Bytes, field: Bytes, rest: Bytes, n: nat)
    requires off <= |data| && |len| == 4 && data[off..] == len + field + rest && n <= |field|
    ensures data[off + 4..off + 4 + n] == field[..n]
  {
    SliceAt(data, off, 4, 4 + n);
    assert (len + field + rest)[4..4 + n] == field[..n];
  }

  /** Reading a length-prefixed field back: the length comes out modulo 2^32 and the bytes read are
      that many bytes of the field. */
  lemma FieldAt(data: Bytes, off: nat, field: Bytes, rest: Bytes)
    requires off <= |data| && data[off..] == U32Le(|field|) + field + rest
    ensures off + 4 + |field| <= |data|
    ensures U32FromLe(data[off..off + 4]) == |field| % TWO_32 <= |field|
    ensures forall n: nat :: n <= |field| ==> data[off + 4..off + 4 + n] == field[..n]
    ensures data[off + 4 + |field|..] == rest
  {
    var len := U32Le(|field|);
    Widths();
    LittleEndianRoundTrip(|field| % TWO_32, 4);
    assert |data[off..]| == 4 + |field| + |rest|;
    SliceAt(data, off, 0, 4);
    assert (len + field + rest)[0..4] == len;
    forall n: nat | n <= |field| ensures data[off + 4..off + 4 + n] == field[..n] {
      FieldBytes(data, off, len, field, rest, n);
    }
    SliceAt(data, off, 4, 4 + |field|);
    assert (len + field + rest)[4 + |field|..] == rest;
  }

  /** The `kv` codec inverts, trailing bytes included, exactly on values whose length survives the
      cast to `u32`. */
  lemma DecodeInvertsEncode(kv: KeyValue, rest: Bytes)
    ensures Decode(kv.key, Encoded(kv) + rest) == Done(kv) <==> |kv.value| < TWO_32
  {
    var body := U32Le(|kv.value|) + kv.value + rest;
    var data := Header(kv) + body;
    assert Encoded(kv) + rest == data;
    HeaderFields(kv, body);
    FieldAt(data, 32, kv.value, rest);
    assert kv.value[..|kv.value|] == kv.value;
  }

  lemma DecodeAfterHeader(data: Bytes, kv: KeyValue, rest: Bytes)
    requires |data| >= 32
    requires data[32..] == U32Le(|kv.key|) + kv.key + (U32Le(|kv.value|) + kv.value + rest)
    requires I64FromLe(data[0..8]) == kv.createRevision && I64FromLe(data[8..16]) == kv.modRevision
    requires I64FromLe(data[16..24]) == kv.version && I64FromLe(data[24..32]) == kv.lease
    ensures DecodeWithKey(data) == Done(kv) <==> |kv.key| < TWO_32 && |kv.value| < TWO_32
  {
    var tail := U32Le(|kv.value|) + kv.value + rest;
    FieldAt(data, 32, kv.key, tail);
    if |kv.key| < TWO_32 {
      var off := 36 + |kv.key|;
      assert data[36..off] == kv.key;
      FieldAt(data, off, kv.value, rest);
      assert kv.value[..|kv.value|] == kv.value;
    }
  }

  /** The `kv_rev` codec inverts, trailing bytes included, exactly when both lengths survive the cast. */
  lemma DecodeInvertsEncodeWithKey(kv: KeyValue, rest: Bytes)
    ensures DecodeWithKey(EncodedWithKey(kv) + rest) == Done(kv) <==> |kv.key| < TWO_32 && |kv.value| < TWO_32
  {
    var body := U32Le(|kv.key|) + kv.key + (U32Le(|kv.value|) + kv.value + rest);
    assert EncodedWithKey(kv) + rest == Header(kv) + body;
    HeaderFields(kv, body);
    DecodeAfterHeader(Header(kv) + body, kv, rest);
  }

  lemma ThreeParts(a: Bytes, b: Bytes, c: Bytes)
    ensures var all := a + b + c;
      all[..|a|] == a && all[|a|..|a| + |b|] == b && all[|a| + |b|..] == c
  {
  }

  /** Where the four numbers lie in both encodings. */
  lemma HeaderLayout(kv: KeyValue)
    ensures Encoded(kv)[..32] == EncodedWithKey(kv)[..32] == Header(kv)
    ensures Header(kv)[0..8] == I64Le(kv.createRevision) && Header(kv)[8..16] == I64Le(kv.modRevision)
    ensures Header(kv)[16..24] == I64Le(kv.version) && Header(kv)[24..32] == I64Le(kv.lease)
  {
    var h := Header(kv);
    ThreeParts(h, U32Le(|kv.value|), kv.value);
    ThreeParts(h, U32Le(|kv.key|), kv.key + U32Le(|kv.value|) + kv.value);
    assert EncodedWithKey(kv) == h + U32Le(|kv.key|) + (kv.key + U32Le(|kv.value|) + kv.value);
  }

  /** Where the value lies in the `kv` encoding: behind the numbers and its length. */
  lemma ValueLayout(kv: KeyValue)
    ensures var b := Encoded(kv); |b| == 36 + |kv.value| && b[32..36] == U32Le(|kv.value|) && b[36..] == kv.value
  {
    ThreeParts(Header(kv), U32Le(|kv.value|), kv.value);
  }

  /** Where key and value lie in the `kv_rev` encoding, each behind its length. */
  lemma KeyValueLayout(kv: KeyValue)
    ensures var b, n := EncodedWithKey(kv), 36 + |kv.key|;
      && |b| == n + 4 + |kv.value| && b[32..36] == U32Le(|kv.key|) && b[36..n] == kv.key
      && b[n..n + 4] == U32Le(|kv.value|) && b[n + 4..] == kv.value
  {
    var front := Header(kv) + U32Le(|kv.key|) + kv.key;
    ThreeParts(Header(kv), U32Le(|kv.key|), kv.key);
    ThreeParts(front, U32Le(|kv.value|), kv.value);
    FrontSlice(front, U32Le(|kv.value|) + kv.value, 32, 36);
    FrontSlice(front, U32Le(|kv.value|) + kv.value, 36, |front|);
    assert EncodedWithKey(kv) == front + (U32Le(|kv.value|) + kv.value);
  }

  lemma FrontSlice(a: Bytes, b: Bytes, i: nat, j: nat)
    requires i <= j <= |a|
    ensures (a + b)[i..j] == a[i..j]
  {
  }

  /** Whatever `decode` accepts is an encoding of the record it returns, followed by ignored bytes. */
  lemma DecodeSound(key: Bytes, data: Bytes)
    ensures Decode(key, data).Panicked? <==> 32 <= |data| < 36
    ensures forall kv :: Decode(key, data) == Done(kv) ==>
      kv.key == key && |kv.value| < TWO_32 && Encoded(kv) <= data
  {
    if Decode(key, data).Done? {
      var kv := Decode(key, data).value;
      HeaderInverse(data);
      U32LeInverse(data[32..36]);
      assert data[..36] == data[..32] + data[32..36];
      assert data[..36 + |kv.value|] == data[..36] + kv.value;
    }
  }

  lemma DecodeWithKeySound(data: Bytes)
    ensures forall kv :: DecodeWithKey(data) == Done(kv) ==>
      |kv.key| < TWO_32 && |kv.value| < TWO_32 && EncodedWithKey(kv) <= data
  {
    if DecodeWithKey(data).Done? {
      var kv := DecodeWithKey(data).value;
      var valOffset := 36 + |kv.key|;
      HeaderInverse(data);
      U32LeInverse(data[32..36]);
      U32LeInverse(data[valOffset..valOffset + 4]);
      assert data[..36] == data[..32] + data[32..36];
      assert data[..valOffset] == data[..36] + kv.key;
      assert data[..valOffset + 4] == data[..valOffset] + data[valOffset..valOffset + 4];
      assert data[..valOffset + 4 + |kv.value|] == data[..valOffset + 4] + kv.value;
    }
  }

  lemma HeaderInverse(data: Bytes)
    requires |data| >= 32
    ensures I64Le(I64FromLe(data[0..8])) + I64Le(I64FromLe(data[8..16])) + I64Le(I64FromLe(data[16..24]))
              + I64Le(I64FromLe(data[24..32])) == data[..32]
  {
    I64LeInverse(data[0..8]);
    I64LeInverse(data[8..16]);
    I64LeInverse(data[16..24]);
    I64LeInverse(data[24..32]);
  }

  // ---------------------------------------------------------------- revision keys

  /** `rev_key`: big-endian revision followed by the key. */
  function RevKey(revision: i64, key: Bytes): Bytes {
    I64Be(revision) + key
  }

  /** Where the revision and the key lie in a revision key. */
  lemma RevKeyLayout(revision: i64, key: Bytes)
    ensures RevKey(revision, key)[..8] == I64Be(revision) && RevKey(revision, key)[8..] == key
  {
  }

  lemma RevKeyInjective(r: i64, k: Bytes, r': i64, k': Bytes)
    requires RevKey(r, k) == RevKey(r', k')
    ensures r == r' && k == k'
  {
    assert RevKey(r, k)[..8] == I64Be(r) && RevKey(r', k')[..8] == I64Be(r');
    assert RevKey(r, k)[8..] == k && RevKey(r', k')[8..] == k';
    I64BeRoundTrip(r);
    I64BeRoundTrip(r');
  }

  /** On revisions of the same sign, byte order of revision keys is order by revision, then by key;
      and every negative revision sorts after every non-negative one. */
  lemma RevKeyOrder(r: i64, k: Bytes, r': i64, k': Bytes)
    ensures Less(RevKey(r, k), RevKey(r', k')) <==>
      Unsigned(r) < Unsigned(r') || (r == r' && Less(k, k'))
  {
    Widths();
    BigEndianOrder(Unsigned(r), Unsigned(r'), 8);
    if r == r' {
      LessAfterPrefix(I64Be(r), k, k');
    } else {
      I64BeRoundTrip(r);
      I64BeRoundTrip(r');
      LessByPrefix(I64Be(r), I64Be(r'), k, k');
    }
  }
}

/** Versioned encoding of cached values, and the placeholder for "no value". */
module Codecs {
  import opened Prelude

  /** A codec as its registry sees it; gob is version 1 and json version 2. */
  datatype Codec<!V> = Codec(version: Byte, encode: V -> Option<Bytes>, decode: Bytes -> Option<V>)

  /** The four bytes `\x00nil`. */
  const NIL_PLACEHOLDER: Bytes := [0, 110, 105, 108]

  predicate IsNilValue(data: Bytes) {
    |data| == 4 && data[0] == 0 && data[1] == 110 && data[2] == 105 && data[3] == 108
  }

  function EncodeWith<V>(codec: Codec<V>, value: V): Option<Bytes> {
    var payload := codec.encode(value);
    if payload.None? then None else Some([codec.version] + payload.value)
  }

  /** Data of an unknown version, or with an empty payload, goes to the legacy codec whole. */
  function DecodeWith<V>(byVersion: map<Byte, Codec<V>>, legacy: Codec<V>, data: Bytes): Option<V> {
    if data == [] then None
    else if data[0] in byVersion && |data| > 1 then byVersion[data[0]].decode(data[1..])
    else legacy.decode(data)
  }

  /** Encoded data is taken for the placeholder exactly when a codec of version 0 produces the payload "nil". */
  lemma NilConfusionIff<V>(codec: Codec<V>, value: V)
    requires EncodeWith(codec, value).Some?
    ensures IsNilValue(EncodeWith(codec, value).value) <==>
            codec.version == 0 && codec.encode(value).value == [110, 105, 108]
  {
    var data, payload := EncodeWith(codec, value).value, codec.encode(value).value;
    assert data[1..] == payload;
    if IsNilValue(data) {
      assert payload == [data[1], data[2], data[3]];
    }
  }

  /** What a registered codec encodes is decoded by that codec; an empty payload goes to the legacy codec. */
  lemma DecodesOwnEncoding<V>(byVersion: map<Byte, Codec<V>>, legacy: Codec<V>, codec: Codec<V>, value: V)
    requires codec.version in byVersion && byVersion[codec.version] == codec
    requires EncodeWith(codec, value).Some?
    ensures var payload := codec.encode(value).value;
            DecodeWith(byVersion, legacy, EncodeWith(codec, value).value) ==
            if payload != [] then codec.decode(payload) else legacy.decode([codec.version])
  {
    var data, payload := EncodeWith(codec, value).value, codec.encode(value).value;
    assert data[1..] == payload;
    if payload == [] {
      assert data == [codec.version];
    }
  }

  /** Bytes from before there were versions are still read, unless they start like the data of a registered codec. */
  lemma OldBytesDecode<V>(byVersion: map<Byte, Codec<V>>, legacy: Codec<V>, data: Bytes)
    requires data != [] && (data[0] !in byVersion || |data| == 1)
    ensures DecodeWith(byVersion, legacy, data) == legacy.decode(data)
    ensures DecodeWith(byVersion, legacy, []) == None
  {
  }
}

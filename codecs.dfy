/**
 * The outside codecs the fragment protocol is wired to, kept abstract.
 *
 * Each codec is a field of `Codecs`; nothing about it is known except the
 * laws stated by the ghost predicates below, which the lemmas that need them
 * take as preconditions. The protobuf messages are modelled as datatypes
 * holding the fields of the `DocumentPayload` and `QRContent` messages.
 */
module Codecs {
  import opened Wrappers
  import opened ByteRows

  /** A JSON value as produced by `json.loads`; numbers are kept as their text. */
  datatype Json =
    | JNull
    | JBool(b: bool)
    | JNumber(text: string)
    | JString(s: string)
    | JArray(items: seq<Json>)
    | JObject(fields: seq<(string, Json)>)

  /** The `DocumentPayload.DataType` enum field; proto3 keeps unknown values as numbers. */
  datatype DataType = Utf8String | UnknownDataType(code: int)

  /** The `DocumentPayload` protobuf message. An unset string field reads as "". */
  datatype PbDocumentPayload = PbDocumentPayload(content: Bytes, metadata: string, dataType: DataType)

  /** The `QRContent.QRMeta` protobuf message (uint64, uint32, uint32, uint32). */
  datatype PbQRMeta = PbQRMeta(documentHash: int, sequenceNumber: int, totalQrCodes: int, numEcc: int)

  /** The `QRContent` protobuf message. */
  datatype PbQRContent = PbQRContent(meta: PbQRMeta, docFragment: Bytes)

  const UINT32_LIMIT: int := 0x1_0000_0000
  const UINT64_LIMIT: int := 0x1_0000_0000_0000_0000

  /** The field values a `QRMeta` protobuf message can hold. */
  predicate MetaInRange(m: PbQRMeta) {
    && 0 <= m.documentHash < UINT64_LIMIT
    && 0 <= m.sequenceNumber < UINT32_LIMIT
    && 0 <= m.totalQrCodes < UINT32_LIMIT
    && 0 <= m.numEcc < UINT32_LIMIT
  }

  /**
   * The foreign functions. A `None` result is the exception the library
   * raises on malformed input.
   */
  datatype Codecs = Codecs(
    shake256: (Bytes, nat) -> Bytes,                 // hashlib.shake_256(x).digest(n)
    compress: Bytes -> Bytes,                        // zlib.compress(x, level=9)
    decompress: Bytes -> Option<Bytes>,              // zlib.decompress(x)
    jsonDumps: Json -> string,                       // json.dumps
    jsonLoads: string -> Option<Json>,               // json.loads
    utf8Encode: string -> Bytes,                     // str.encode("utf-8")
    utf8Decode: Bytes -> Option<string>,             // bytes.decode("utf-8")
    serializeDocument: PbDocumentPayload -> Bytes,   // DocumentPayload.SerializeToString
    parseDocument: Bytes -> Option<PbDocumentPayload>, // DocumentPayload.ParseFromString
    serializeContent: PbQRContent -> Bytes,          // QRContent.SerializeToString
    parseContent: Bytes -> Option<PbQRContent>,      // QRContent.ParseFromString
    b85Encode: Bytes -> Bytes,                       // base64.b85encode
    b85Decode: Bytes -> Option<Bytes>,               // base64.b85decode
    rsEncode: (Bytes, nat) -> Option<Bytes>,         // reedsolo.RSCodec(k).encode(x)
    rsDecode: (Bytes, seq<int>, nat) -> Option<Bytes> // RSCodec(k).decode(x, erase_pos, only_erasures=True)[0]
  )

  // -----------------------------------------------------------------------
  // Assumed laws of the foreign codecs

  /** SHAKE-256 (FIPS 202, section 6.2) returns exactly the requested number of bytes. */
  ghost predicate ShakeLength(c: Codecs) {
    forall x, n :: |c.shake256(x, n)| == n
  }

  /**
   * zlib (RFC 1950): output is never empty, the stream is self-delimiting and
   * `zlib.decompress` ignores bytes after its end, so NUL padding is harmless.
   */
  ghost predicate ZlibRoundTrip(c: Codecs) {
    && (forall x :: |c.compress(x)| > 0)
    && (forall x, k :: c.decompress(c.compress(x) + Zeros(k)) == Some(x))
  }

  /** `json.dumps` of a non-null value is a non-empty text that `json.loads` reads back. */
  ghost predicate JsonRoundTrip(c: Codecs) {
    forall j :: j != JNull ==> |c.jsonDumps(j)| > 0 && c.jsonLoads(c.jsonDumps(j)) == Some(j)
  }

  ghost predicate Utf8RoundTrip(c: Codecs) {
    forall s :: c.utf8Decode(c.utf8Encode(s)) == Some(s)
  }

  /** Protobuf parsing inverts serialisation of every message the schema can hold. */
  ghost predicate ProtobufRoundTrip(c: Codecs) {
    && (forall m :: c.parseDocument(c.serializeDocument(m)) == Some(m))
    && (forall m: PbQRContent :: MetaInRange(m.meta) ==> c.parseContent(c.serializeContent(m)) == Some(m))
  }

  /** base85 (RFC 1924 alphabet) decoding inverts encoding. */
  ghost predicate B85RoundTrip(c: Codecs) {
    forall x :: c.b85Decode(c.b85Encode(x)) == Some(x)
  }

  /**
   * Reed-Solomon over GF(2^8) with 0 < k < 255 parity symbols per 255-symbol
   * block encodes every message, into a codeword at least as long as the
   * message, whose length depends only on the message length. (With k = 255
   * a block holds no data.)
   */
  ghost predicate RsCodewords(c: Codecs) {
    && (forall x, k :: 0 < k < 255 ==> c.rsEncode(x, k).Some? && |x| <= |c.rsEncode(x, k).value|)
    && (forall x, y, k {:trigger c.rsEncode(x, k), c.rsEncode(y, k)} ::
          0 < k < 255 && |x| == |y| && c.rsEncode(x, k).Some? && c.rsEncode(y, k).Some? ==>
          |c.rsEncode(x, k).value| == |c.rsEncode(y, k).value|)
  }

  /**
   * The code is systematic: a message that fits one block, at most `255 - k`
   * symbols, is the prefix of its codeword. `reedsolo` encodes a longer
   * message block by block, each block followed by its own parity, so there
   * only the first block leads the codeword.
   */
  ghost predicate RsPrefix(c: Codecs) {
    forall x, k :: 0 < k < 255 && |x| <= 255 - k && c.rsEncode(x, k).Some? ==>
      |x| <= |c.rsEncode(x, k).value| && c.rsEncode(x, k).value[..|x|] == x
  }

  /**
   * `received` is the codeword `code` with at most `k` symbols, at the listed
   * positions (all within the codeword), replaced by arbitrary values.
   */
  ghost predicate Erased(code: Option<Bytes>, k: nat, erased: seq<int>, received: Bytes) {
    && 0 < k < 255
    && code.Some?
    && |erased| <= k
    && |received| == |code.value|
    && (forall p :: p in erased ==> 0 <= p < |received|)
    && forall i :: 0 <= i < |received| && i !in erased ==> received[i] == code.value[i]
  }

  /** Erasure decoding recovers the message from up to `k` erased positions. */
  ghost predicate RsRecoversErasures(c: Codecs) {
    forall x, k, erased, received {:trigger c.rsEncode(x, k), c.rsDecode(received, erased, k)} ::
      Erased(c.rsEncode(x, k), k, erased, received) ==> c.rsDecode(received, erased, k) == Some(x)
  }

  /** Every law at once. */
  ghost predicate Lawful(c: Codecs) {
    && ShakeLength(c)
    && ZlibRoundTrip(c)
    && JsonRoundTrip(c)
    && Utf8RoundTrip(c)
    && ProtobufRoundTrip(c)
    && B85RoundTrip(c)
    && RsCodewords(c)
    && RsRecoversErasures(c)
  }
}

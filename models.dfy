/**
 * The record types of qrdm: the per-code metadata `QRMeta`, the per-code
 * envelope `QRContent` and the document record `DocumentPayload`, with their
 * dump/parse pairs composed over the abstract codecs.
 */
module Models {
  import opened Wrappers
  import opened ByteRows
  import opened Codecs

  /** The exceptions raised by the records and the codecs underneath them. */
  datatype ModelError =
    | ValidationError        // pydantic rejects a field value
    | ValueOutOfRange        // protobuf refuses a value too wide for its field
    | B85DecodeError         // base64.b85decode
    | ProtobufDecodeError    // ParseFromString
    | JsonDecodeError        // json.loads
    | UnknownDataTypeError   // ValueError("Unknown data type")
    | UnicodeError           // bytes.decode("utf-8")
    | ZlibError              // zlib.decompress

  // -----------------------------------------------------------------------
  // QRMeta

  datatype QRMeta = QRMeta(documentHash: int, sequenceNumber: int, totalQrCodes: int, numEcc: int)

  /** The pydantic field bounds; nothing ties `sequenceNumber` to `totalQrCodes`. */
  predicate ValidQRMeta(m: QRMeta) {
    m.documentHash >= 0 && m.sequenceNumber >= 0 && m.totalQrCodes > 0 && m.numEcc >= 0
  }

  /** `QRMeta(...)`, validated by pydantic. */
  function NewQRMeta(documentHash: int, sequenceNumber: int, totalQrCodes: int, numEcc: int): (r: Result<QRMeta, ModelError>)
    ensures r.Ok? <==> documentHash >= 0 && sequenceNumber >= 0 && totalQrCodes > 0 && numEcc >= 0
    ensures r.Ok? ==> r.value == QRMeta(documentHash, sequenceNumber, totalQrCodes, numEcc)
    ensures r.Err? ==> r.error == ValidationError
  {
    var m := QRMeta(documentHash, sequenceNumber, totalQrCodes, numEcc);
    if ValidQRMeta(m) then Ok(m) else Err(ValidationError)
  }

  /** `QRMeta._to_proto`: the protobuf constructor refuses values its uint fields cannot hold. */
  function QRMetaToProto(m: QRMeta): (r: Result<PbQRMeta, ModelError>)
    ensures r.Ok? <==> MetaInRange(PbQRMeta(m.documentHash, m.sequenceNumber, m.totalQrCodes, m.numEcc))
    ensures r.Ok? ==> r.value == PbQRMeta(m.documentHash, m.sequenceNumber, m.totalQrCodes, m.numEcc)
  {
    var pb := PbQRMeta(m.documentHash, m.sequenceNumber, m.totalQrCodes, m.numEcc);
    if MetaInRange(pb) then Ok(pb) else Err(ValueOutOfRange)
  }

  /** `QRMeta._from_proto` */
  function QRMetaFromProto(pb: PbQRMeta): (r: Result<QRMeta, ModelError>)
    ensures r.Ok? ==> ValidQRMeta(r.value)
  {
    NewQRMeta(pb.documentHash, pb.sequenceNumber, pb.totalQrCodes, pb.numEcc)
  }

  // -----------------------------------------------------------------------
  // QRContent

  datatype QRContent = QRContent(meta: QRMeta, docFragment: Bytes)

  /** `QRContent(meta=meta)`: without a fragment the envelope carries empty bytes. */
  function QRContentOf(meta: QRMeta): (q: QRContent)
    ensures q.meta == meta && q.docFragment == []
  {
    QRContent(meta, [])
  }

  /** `QRContent._to_proto`: the fragment as it is, with the metadata converted as `QRMeta._to_proto` does. */
  function QRContentToProto(q: QRContent): (r: Result<PbQRContent, ModelError>)
    ensures r.Ok? <==> QRMetaToProto(q.meta).Ok?
    ensures r.Ok? ==> r.value.meta == QRMetaToProto(q.meta).value
    ensures r.Ok? ==> r.value.docFragment == q.docFragment && MetaInRange(r.value.meta)
  {
    var meta :- QRMetaToProto(q.meta);
    Ok(PbQRContent(meta, q.docFragment))
  }

  /** `QRContent.model_dump_protobuf_bytes` */
  function QRContentDumpProtobufBytes(q: QRContent, c: Codecs): Result<Bytes, ModelError> {
    var pb :- QRContentToProto(q);
    Ok(c.serializeContent(pb))
  }

  /** `QRContent.model_dump_b85_bytes`: base85 applied after the protobuf dump. */
  function QRContentDumpB85Bytes(q: QRContent, c: Codecs): Result<Bytes, ModelError> {
    var raw :- QRContentDumpProtobufBytes(q, c);
    Ok(c.b85Encode(raw))
  }

  /** `QRContent.model_validate_protobuf_bytes` */
  function QRContentValidateProtobufBytes(b: Bytes, c: Codecs): (r: Result<QRContent, ModelError>)
    ensures r.Ok? ==> ValidQRMeta(r.value.meta)
  {
    match c.parseContent(b)
    case None => Err(ProtobufDecodeError)
    case Some(pb) =>
      var meta :- QRMetaFromProto(pb.meta);
      Ok(QRContent(meta, pb.docFragment))
  }

  /** `QRContent.model_validate_b85_bytes`: the protobuf parse applied after base85 decoding. */
  function QRContentValidateB85Bytes(b: Bytes, c: Codecs): (r: Result<QRContent, ModelError>)
    ensures r.Ok? ==> ValidQRMeta(r.value.meta)
  {
    match c.b85Decode(b)
    case None => Err(B85DecodeError)
    case Some(raw) => QRContentValidateProtobufBytes(raw, c)
  }

  /**
   * Dumping an envelope fails exactly when a metadata field is too wide for
   * the protobuf schema, and parsing the dump gives the envelope back.
   */
  lemma QRContentRoundTrip(q: QRContent, c: Codecs)
    requires ProtobufRoundTrip(c) && B85RoundTrip(c)
    requires ValidQRMeta(q.meta)
    ensures QRContentDumpB85Bytes(q, c).Ok? <==>
      q.meta.documentHash < UINT64_LIMIT && q.meta.sequenceNumber < UINT32_LIMIT && q.meta.totalQrCodes < UINT32_LIMIT && q.meta.numEcc < UINT32_LIMIT
    ensures QRContentDumpB85Bytes(q, c).Ok? ==>
      QRContentValidateB85Bytes(QRContentDumpB85Bytes(q, c).value, c) == Ok(q)
  {
    var m := q.meta;
    var pbMeta := PbQRMeta(m.documentHash, m.sequenceNumber, m.totalQrCodes, m.numEcc);
    if MetaInRange(pbMeta) {
      var pb := PbQRContent(pbMeta, q.docFragment);
      assert QRContentToProto(q) == Ok(pb);
      assert c.parseContent(c.serializeContent(pb)) == Some(pb);
      assert c.b85Decode(c.b85Encode(c.serializeContent(pb))) == Some(c.serializeContent(pb));
    }
  }

  // -----------------------------------------------------------------------
  // DocumentPayload

  /** The document record; `metadata == JNull` is Python's `None`. */
  datatype DocumentPayload = DocumentPayload(content: string, metadata: Json)

  /**
   * `DocumentPayload._to_proto`: the data type is always UTF-8 text, and
   * absent metadata is serialised as no metadata string at all.
   */
  function DocumentToProto(d: DocumentPayload, c: Codecs): (pb: PbDocumentPayload)
    ensures pb.dataType == Utf8String
    ensures pb.content == c.utf8Encode(d.content)
    ensures JsonRoundTrip(c) ==> (pb.metadata == "" <==> d.metadata == JNull)
  {
    var metaStr := if d.metadata == JNull then "" else c.jsonDumps(d.metadata);
    PbDocumentPayload(c.utf8Encode(d.content), metaStr, Utf8String)
  }

  /** `DocumentPayload.model_dump_protobuf_bytes` */
  function DocumentDumpProtobufBytes(d: DocumentPayload, c: Codecs): Bytes {
    c.serializeDocument(DocumentToProto(d, c))
  }

  /** `DocumentPayload.model_dump_compressed_bytes`: zlib applied after the protobuf dump. */
  function DocumentDumpCompressedBytes(d: DocumentPayload, c: Codecs): Bytes {
    c.compress(DocumentDumpProtobufBytes(d, c))
  }

  /** Empty metadata parses as `None`; anything else goes through `json.loads`. */
  function MetadataFromProto(text: string, c: Codecs): (r: Result<Json, ModelError>)
    ensures |text| == 0 ==> r == Ok(JNull)
    ensures |text| > 0 ==> (r.Ok? <==> c.jsonLoads(text).Some?)
    ensures |text| > 0 && r.Ok? ==> c.jsonLoads(text) == Some(r.value)
  {
    if |text| > 0 then
      match c.jsonLoads(text)
      case None => Err(JsonDecodeError)
      case Some(j) => Ok(j)
    else Ok(JNull)
  }

  /**
   * The body of `model_validate_protobuf_bytes` after the parse: metadata is
   * read first, then any data type other than UTF-8 text is refused, then
   * the content is decoded.
   */
  function DocumentFromProto(pb: PbDocumentPayload, c: Codecs): (r: Result<DocumentPayload, ModelError>)
    ensures r.Ok? ==> pb.dataType == Utf8String
    ensures pb.dataType != Utf8String ==> r.Err?
    ensures pb.dataType != Utf8String && MetadataFromProto(pb.metadata, c).Ok? ==> r.error == UnknownDataTypeError
    ensures r.Ok? ==> c.utf8Decode(pb.content) == Some(r.value.content) && MetadataFromProto(pb.metadata, c) == Ok(r.value.metadata)
  {
    var meta :- MetadataFromProto(pb.metadata, c);
    if pb.dataType != Utf8String then Err(UnknownDataTypeError)
    else
      match c.utf8Decode(pb.content)
      case None => Err(UnicodeError)
      case Some(s) => Ok(DocumentPayload(s, meta))
  }

  /** `DocumentPayload.model_validate_protobuf_bytes` */
  function DocumentValidateProtobufBytes(b: Bytes, c: Codecs): Result<DocumentPayload, ModelError> {
    match c.parseDocument(b)
    case None => Err(ProtobufDecodeError)
    case Some(pb) => DocumentFromProto(pb, c)
  }

  /** `DocumentPayload.model_validate_compressed_bytes`: the protobuf parse applied after zlib. */
  function DocumentValidateCompressedBytes(b: Bytes, c: Codecs): Result<DocumentPayload, ModelError> {
    match c.decompress(b)
    case None => Err(ZlibError)
    case Some(raw) => DocumentValidateProtobufBytes(raw, c)
  }

  /** Parsing the protobuf dump of a document gives the document back. */
  lemma DocumentProtobufRoundTrip(d: DocumentPayload, c: Codecs)
    requires JsonRoundTrip(c) && Utf8RoundTrip(c) && ProtobufRoundTrip(c)
    ensures DocumentValidateProtobufBytes(DocumentDumpProtobufBytes(d, c), c) == Ok(d)
  {
    var pb := DocumentToProto(d, c);
    assert c.parseDocument(c.serializeDocument(pb)) == Some(pb);
    assert c.utf8Decode(c.utf8Encode(d.content)) == Some(d.content);
    if d.metadata != JNull {
      assert c.jsonLoads(c.jsonDumps(d.metadata)) == Some(d.metadata);
    }
    assert MetadataFromProto(pb.metadata, c) == Ok(d.metadata);
  }

  /**
   * Parsing the compressed dump gives the document back, whatever number of
   * NUL bytes was appended to it.
   */
  lemma DocumentCompressedRoundTrip(d: DocumentPayload, c: Codecs, padding: nat)
    requires JsonRoundTrip(c) && Utf8RoundTrip(c) && ProtobufRoundTrip(c) && ZlibRoundTrip(c)
    ensures DocumentValidateCompressedBytes(DocumentDumpCompressedBytes(d, c) + Zeros(padding), c) == Ok(d)
  {
    var raw := DocumentDumpProtobufBytes(d, c);
    assert c.decompress(c.compress(raw) + Zeros(padding)) == Some(raw);
    DocumentProtobufRoundTrip(d, c);
  }
}

/**
 * The encode side of the fragment protocol (`qrdm/qr/encode.py`): sizing a
 * code's payload, cutting the compressed document into equal NUL-padded
 * fragments, planning the parity codes, computing them column by column, and
 * stamping every fragment with its envelope metadata.
 */
module Encode {
  import opened Wrappers
  import opened ByteRows
  import opened Codecs
  import opened Models

  /** Sequence numbers travel as 32-bit unsigned integers. */
  const N_MAX_QRS: int := 0x1_0000_0000

  datatype EncodeFailure = TooManyCodes(expected: int) | EcConstructionFailed

  datatype EncodeError =
    | QREncodeError(failure: EncodeFailure)   // qrdm.exceptions.QREncodeError
    | SerializationError(cause: ModelError)   // an exception from dumping an envelope

  // -----------------------------------------------------------------------
  // Payload size

  /**
   * `((max_qr_bytes - PROTOBUF_RESERVED_LEN) // 5) * 4`: the largest multiple
   * of 4 whose base85 expansion (5 characters per 4 bytes) fits in what is
   * left of a code after the envelope's reserved bytes. Dafny's `/` by a
   * positive divisor floors, as Python's `//` does.
   */
  function PayloadSize(maxQrBytes: int, reservedLen: int): (size: int)
    ensures size % 4 == 0
    ensures (size / 4) * 5 <= maxQrBytes - reservedLen < (size / 4 + 1) * 5
  {
    var q := (maxQrBytes - reservedLen) / 5;
    assert (q * 4) / 4 == q;
    q * 4
  }

  // -----------------------------------------------------------------------
  // Fragmenting

  /** What `_split_file_content` yields, as a list. */
  function Chunks(content: Bytes, maximumLength: nat): seq<Bytes>
    requires maximumLength > 0
    decreases |content|
  {
    if |content| > maximumLength then
      [content[..maximumLength]] + Chunks(content[maximumLength..], maximumLength)
    else
      [content + Zeros(maximumLength - |content|)]
  }

  /**
   * There is always at least one chunk, every chunk has length exactly
   * `maximumLength`, and joined they give `content` followed by the fewest
   * NULs that reach a multiple of `maximumLength`; empty content gives one
   * all-NUL chunk.
   */
  lemma {:induction false} ChunksShape(content: Bytes, maximumLength: nat)
    requires maximumLength > 0
    ensures var chunks := Chunks(content, maximumLength);
      && |chunks| >= 1
      && Uniform(chunks, maximumLength)
      && |content| <= |chunks| * maximumLength
      && Join(chunks) == content + Zeros(|chunks| * maximumLength - |content|)
      && (content != [] ==> (|chunks| - 1) * maximumLength < |content|)
      && (content == [] ==> chunks == [Zeros(maximumLength)])
    decreases |content|
  {
    var m := maximumLength;
    var chunks := Chunks(content, m);
    if |content| > m {
      var rest := content[m..];
      ChunksShape(rest, m);
      var tail := Chunks(rest, m);
      assert chunks == [content[..m]] + tail;
      assert chunks[1..] == tail;
      assert |chunks| * m == m + |tail| * m;
      calc {
        Join(chunks);
        content[..m] + Join(tail);
        content[..m] + (rest + Zeros(|tail| * m - |rest|));
        { assert content[..m] + rest == content; }
        content + Zeros(|chunks| * m - |content|);
      }
    } else {
      assert chunks[1..] == [];
      assert Join(chunks) == chunks[0] + Join([]);
      assert content == [] ==> content + Zeros(m) == Zeros(m);
    }
  }

  /** `_split_file_content`: the loop that yields chunks while it shortens `content`. */
  method SplitFileContent(content: Bytes, maximumLength: nat) returns (chunks: seq<Bytes>)
    requires maximumLength > 0
    ensures chunks == Chunks(content, maximumLength)
  {
    var rest := content;
    chunks := [];
    while |rest| > maximumLength
      invariant chunks + Chunks(rest, maximumLength) == Chunks(content, maximumLength)
      decreases |rest|
    {
      assert Chunks(rest, maximumLength) == [rest[..maximumLength]] + Chunks(rest[maximumLength..], maximumLength);
      chunks := chunks + [rest[..maximumLength]];
      rest := rest[maximumLength..];
    }
    chunks := chunks + [rest + Zeros(maximumLength - |rest|)];
  }

  /** The fragments of `generate_qr_payloads`: one unpadded fragment if the blob fits, chunks otherwise. */
  function PayloadFragments(blob: Bytes, size: int): seq<Bytes>
    requires size > 0
  {
    if |blob| <= size then [blob] else Chunks(blob, size)
  }

  /**
   * A blob that fits is sent as itself, unpadded; a longer one as at least
   * two chunks of exactly `size` bytes. Either way the fragments have one
   * common length and join to the blob followed by NULs.
   */
  lemma PayloadFragmentsShape(blob: Bytes, size: int)
    requires size > 0
    ensures var f := PayloadFragments(blob, size);
      && |f| >= 1
      && Uniform(f, |f[0]|)
      && (|blob| <= size ==> f == [blob])
      && (|blob| > size ==> |f| >= 2 && Uniform(f, size))
      && |blob| <= |Join(f)|
      && Join(f) == blob + Zeros(|Join(f)| - |blob|)
  {
    var f := PayloadFragments(blob, size);
    if |blob| <= size {
      assert f[1..] == [];
      assert Join(f) == blob + Join([]);
      assert blob + Zeros(0) == blob;
    } else {
      ChunksShape(blob, size);
    }
  }

  // -----------------------------------------------------------------------
  // Parity planning

  datatype ParityPlan = ParityPlan(numEcc: nat, expectedCodes: int)

  lemma ProductNonNegative(a: nat, b: nat)
    ensures a * b >= 0
  {
  }

  /**
   * The parity count and the expected number of codes. `maxEcc` stands for
   * `ceil(256 * e / (1 + e))` and `eccFor(n)` for `ceil(n * e)` with
   * `e = EC_CODE_PROPORTION`, both floating point in the source.
   */
  function PlanParity(nRawFragments: nat, encodeEcCodes: bool, maxEcc: nat, eccFor: nat -> nat): (p: ParityPlan)
    requires maxEcc < 256
    ensures !encodeEcCodes ==> p.numEcc == 0 && p.expectedCodes == nRawFragments
    ensures encodeEcCodes ==> p.numEcc <= maxEcc && p.numEcc <= eccFor(nRawFragments)
    ensures encodeEcCodes ==> p.expectedCodes > nRawFragments
  {
    if encodeEcCodes then
      var numEcc := if maxEcc <= eccFor(nRawFragments) then maxEcc else eccFor(nRawFragments);
      var blocks := nRawFragments / (256 - numEcc);
      ProductNonNegative(blocks, numEcc);
      ParityPlan(numEcc, nRawFragments + (1 + blocks * numEcc))
    else
      ParityPlan(0, nRawFragments)
  }

  // -----------------------------------------------------------------------
  // Parity fragments

  /** `encoding_rs_codec.encode(group) for group in groups`, failing on the first `ValueError`. */
  function EncodeColumns(groups: seq<Bytes>, numEcc: nat, c: Codecs): (r: Option<seq<Bytes>>)
    ensures r.Some? <==> forall j :: 0 <= j < |groups| ==> c.rsEncode(groups[j], numEcc).Some?
    ensures r.Some? ==> |r.value| == |groups|
    ensures r.Some? ==> forall j :: 0 <= j < |groups| ==> c.rsEncode(groups[j], numEcc) == Some(r.value[j])
    decreases |groups|
  {
    if groups == [] then Some([])
    else
      match c.rsEncode(groups[0], numEcc)
      case None => None
      case Some(col) =>
        match EncodeColumns(groups[1..], numEcc, c)
        case None => None
        case Some(rest) => Some([col] + rest)
  }

  /**
   * `_generate_ec_fragments`: rows to columns, each column encoded, columns
   * back to rows; a codec `ValueError` becomes a `QREncodeError`.
   */
  function GenerateEcFragments(fragments: seq<Bytes>, numEcc: nat, c: Codecs): (r: Result<seq<Bytes>, EncodeError>)
    ensures r.Err? ==> r.error == QREncodeError(EcConstructionFailed)
    ensures r.Err? <==> EncodeColumns(Zip(fragments), numEcc, c).None?
  {
    match EncodeColumns(Zip(fragments), numEcc, c)
    case None => Err(QREncodeError(EcConstructionFailed))
    case Some(cols) => Ok(Zip(cols))
  }

  /** With a lawful codec, the encoded rows keep the width of the input rows and are at least as many. */
  lemma EcFragmentsShape(fragments: seq<Bytes>, numEcc: nat, width: nat, c: Codecs)
    requires RsCodewords(c) && 0 < numEcc < 255
    requires |fragments| > 0 && width > 0 && Uniform(fragments, width)
    ensures var r := GenerateEcFragments(fragments, numEcc, c);
      && r.Ok?
      && |fragments| <= |r.value|
      && Uniform(r.value, width)
  {
    var groups := Zip(fragments);
    ZipShape(fragments, width);
    var enc := EncodeColumns(groups, numEcc, c).value;
    var total := |enc[0]|;
    forall j | 0 <= j < width
      ensures |enc[j]| == total && |fragments| <= total
    {
      assert c.rsEncode(groups[j], numEcc) == Some(enc[j]);
      assert c.rsEncode(groups[0], numEcc) == Some(enc[0]);
    }
    MinLengthUniform(enc, total);
  }

  /**
   * When a column fits one Reed-Solomon block, at most `255 - numEcc` data
   * rows, a systematic codec also keeps the data rows as the first encoded rows.
   */
  lemma EcFragmentsKeepData(fragments: seq<Bytes>, numEcc: nat, width: nat, c: Codecs)
    requires RsCodewords(c) && RsPrefix(c) && 0 < numEcc < 255
    requires 0 < |fragments| <= 255 - numEcc && width > 0 && Uniform(fragments, width)
    ensures var r := GenerateEcFragments(fragments, numEcc, c);
      && r.Ok?
      && |fragments| <= |r.value|
      && Uniform(r.value, width)
      && r.value[..|fragments|] == fragments
  {
    EcFragmentsShape(fragments, numEcc, width, c);
    var n := |fragments|;
    var groups := Zip(fragments);
    ZipShape(fragments, width);
    var enc := EncodeColumns(groups, numEcc, c).value;
    forall j | 0 <= j < width
      ensures n <= |enc[j]| && enc[j][..n] == groups[j]
    {
      assert c.rsEncode(groups[j], numEcc) == Some(enc[j]);
    }
    MinLengthUniform(enc, |enc[0]|);
    var rows := Zip(enc);
    forall i | 0 <= i < n
      ensures rows[i] == fragments[i]
    {
      forall j | 0 <= j < width
        ensures rows[i][j] == fragments[i][j]
      {
        assert rows[i][j] == enc[j][i] == enc[j][..n][i];
      }
    }
  }

  // -----------------------------------------------------------------------
  // Document hash

  /** `int.from_bytes(b, "big")` */
  function FromBytesBE(b: Bytes): (n: nat)
    decreases |b|
  {
    if b == [] then 0 else FromBytesBE(b[..|b| - 1]) * 256 + b[|b| - 1] as nat
  }

  function Pow256(k: nat): (p: nat)
  {
    if k == 0 then 1 else 256 * Pow256(k - 1)
  }

  lemma {:induction false} FromBytesBEBound(b: Bytes)
    ensures FromBytesBE(b) < Pow256(|b|)
    decreases |b|
  {
    if b != [] {
      var init := b[..|b| - 1];
      FromBytesBEBound(init);
      assert FromBytesBE(init) + 1 <= Pow256(|init|);
      assert (FromBytesBE(init) + 1) * 256 <= Pow256(|init|) * 256;
    }
  }

  /** `int.from_bytes(shake_256(blob.strip(b"\0")).digest(8), "big")` */
  function DocumentHash(blob: Bytes, c: Codecs): (h: nat)
    ensures ShakeLength(c) ==> h < UINT64_LIMIT
  {
    var digest := c.shake256(StripNul(blob), 8);
    FromBytesBEBound(digest);
    assert Pow256(8) == UINT64_LIMIT;
    FromBytesBE(digest)
  }

  /** NUL padding after the blob never changes its hash. */
  lemma DocumentHashPadding(blob: Bytes, padding: nat, c: Codecs)
    ensures DocumentHash(blob + Zeros(padding), c) == DocumentHash(blob, c)
  {
    StripNulPadding(blob, padding);
  }

  // -----------------------------------------------------------------------
  // Envelopes

  /** Fragment `i` stamped with `(document_hash, i, total_qr_codes, num_ecc)`. */
  function Label(fragments: seq<Bytes>, documentHash: nat, numEcc: nat): seq<QRContent> {
    seq(|fragments|, i requires 0 <= i < |fragments| =>
      QRContent(QRMeta(documentHash, i, |fragments|, numEcc), fragments[i]))
  }

  /** `model_dump_b85_bytes` of every envelope, in order, stopping at the first failure. */
  function DumpAll(contents: seq<QRContent>, c: Codecs): (r: Result<seq<Bytes>, EncodeError>)
    ensures r.Ok? <==> forall i :: 0 <= i < |contents| ==> QRContentDumpB85Bytes(contents[i], c).Ok?
    ensures r.Ok? ==> |r.value| == |contents|
    ensures r.Ok? ==> forall i :: 0 <= i < |contents| ==> QRContentDumpB85Bytes(contents[i], c) == Ok(r.value[i])
    decreases |contents|
  {
    if contents == [] then Ok([])
    else
      var init :- DumpAll(contents[..|contents| - 1], c);
      match QRContentDumpB85Bytes(contents[|contents| - 1], c)
      case Err(e) => Err(SerializationError(e))
      case Ok(b) => Ok(init + [b])
  }

  // -----------------------------------------------------------------------
  // generate_qr_payloads

  /**
   * The inputs that come from data files and floating-point constants:
   * `QR_CAPACITIES[QR_SIZE][level]`, `PROTOBUF_RESERVED_LEN`, `max_ecc` and
   * `n -> ceil(n * EC_CODE_PROPORTION)`.
   */
  datatype EncodeParams = EncodeParams(maxQrBytes: int, reservedLen: int, maxEcc: nat, eccFor: nat -> nat)

  /**
   * A positive payload size (the fragmenting loop runs forever otherwise) and
   * a parity cap below 255, so that a Reed-Solomon block keeps room for data
   * (`ceil(256 * 0.2 / 1.2)` is 43).
   */
  predicate ValidParams(p: EncodeParams) {
    PayloadSize(p.maxQrBytes, p.reservedLen) > 0 && p.maxEcc < 255
  }

  datatype Plan = Plan(blob: Bytes, documentHash: nat, fragments: seq<Bytes>, parity: ParityPlan)

  /** Everything `generate_qr_payloads` computes before the size check. */
  function MakePlan(doc: DocumentPayload, encodeEcCodes: bool, p: EncodeParams, c: Codecs): Plan
    requires ValidParams(p)
  {
    var blob := DocumentDumpCompressedBytes(doc, c);
    var fragments := PayloadFragments(blob, PayloadSize(p.maxQrBytes, p.reservedLen));
    Plan(blob, DocumentHash(blob, c), fragments, PlanParity(|fragments|, encodeEcCodes, p.maxEcc, p.eccFor))
  }

  /** The data fragments followed by the parity fragments, if any. */
  function CodedFragments(plan: Plan, c: Codecs): Result<seq<Bytes>, EncodeError> {
    if plan.parity.numEcc > 0 then GenerateEcFragments(plan.fragments, plan.parity.numEcc, c)
    else Ok(plan.fragments)
  }

  /** What `generate_qr_payloads` returns or raises. */
  function QrPayloads(doc: DocumentPayload, encodeEcCodes: bool, p: EncodeParams, c: Codecs): (r: Result<seq<Bytes>, EncodeError>)
    requires ValidParams(p)
    ensures MakePlan(doc, encodeEcCodes, p, c).parity.expectedCodes >= N_MAX_QRS ==>
      r == Err(QREncodeError(TooManyCodes(MakePlan(doc, encodeEcCodes, p, c).parity.expectedCodes)))
  {
    var plan := MakePlan(doc, encodeEcCodes, p, c);
    if plan.parity.expectedCodes >= N_MAX_QRS then Err(QREncodeError(TooManyCodes(plan.parity.expectedCodes)))
    else
      var coded :- CodedFragments(plan, c);
      DumpAll(Label(coded, plan.documentHash, plan.parity.numEcc), c)
  }

  /**
   * Envelope `i` reads back as fragment `i` stamped with sequence number
   * `i`, the document hash, the parity count and the number of envelopes.
   */
  lemma EnvelopesLabelled(doc: DocumentPayload, encodeEcCodes: bool, p: EncodeParams, c: Codecs, envs: seq<Bytes>)
    requires ValidParams(p) && ProtobufRoundTrip(c) && B85RoundTrip(c)
    requires QrPayloads(doc, encodeEcCodes, p, c) == Ok(envs)
    ensures var plan := MakePlan(doc, encodeEcCodes, p, c);
      && plan.parity.expectedCodes < N_MAX_QRS
      && CodedFragments(plan, c).Ok?
      && |envs| == |CodedFragments(plan, c).value|
      && forall i :: 0 <= i < |envs| ==>
           QRContentValidateB85Bytes(envs[i], c) ==
           Ok(QRContent(QRMeta(plan.documentHash, i, |envs|, plan.parity.numEcc), CodedFragments(plan, c).value[i]))
  {
    var plan := MakePlan(doc, encodeEcCodes, p, c);
    var coded := CodedFragments(plan, c).value;
    var labels := Label(coded, plan.documentHash, plan.parity.numEcc);
    forall i | 0 <= i < |envs|
      ensures QRContentValidateB85Bytes(envs[i], c) ==
        Ok(QRContent(QRMeta(plan.documentHash, i, |envs|, plan.parity.numEcc), coded[i]))
    {
      QRContentRoundTrip(labels[i], c);
    }
  }

  /** `generate_qr_payloads` */
  method GenerateQrPayloads(doc: DocumentPayload, encodeEcCodes: bool, p: EncodeParams, c: Codecs)
    returns (r: Result<seq<Bytes>, EncodeError>)
    requires ValidParams(p)
    ensures r == QrPayloads(doc, encodeEcCodes, p, c)
  {
    var blob := DocumentDumpCompressedBytes(doc, c);
    var documentHash := DocumentHash(blob, c);
    var size := PayloadSize(p.maxQrBytes, p.reservedLen);
    var fragments: seq<Bytes>;
    if |blob| <= size {
      fragments := [blob];
    } else {
      fragments := SplitFileContent(blob, size);
    }
    var parity := PlanParity(|fragments|, encodeEcCodes, p.maxEcc, p.eccFor);
    ghost var plan := Plan(blob, documentHash, fragments, parity);
    assert plan == MakePlan(doc, encodeEcCodes, p, c);
    if parity.expectedCodes >= N_MAX_QRS {
      return Err(QREncodeError(TooManyCodes(parity.expectedCodes)));
    }
    if parity.numEcc > 0 {
      var coded := GenerateEcFragments(fragments, parity.numEcc, c);
      if coded.Err? {
        return Err(coded.error);
      }
      fragments := coded.value;
    }
    assert CodedFragments(plan, c) == Ok(fragments);
    r := DumpEnvelopes(fragments, documentHash, parity.numEcc, c);
  }

  /** The loop of `generate_qr_payloads` that builds and dumps one envelope per fragment. */
  method DumpEnvelopes(fragments: seq<Bytes>, documentHash: nat, numEcc: nat, c: Codecs)
    returns (r: Result<seq<Bytes>, EncodeError>)
    ensures r == DumpAll(Label(fragments, documentHash, numEcc), c)
  {
    var totalQrCodes := |fragments|;
    ghost var labels := Label(fragments, documentHash, numEcc);
    var qrContents: seq<Bytes> := [];
    for sequenceNumber := 0 to totalQrCodes
      invariant DumpAll(labels[..sequenceNumber], c) == Ok(qrContents)
    {
      var qrContent := QRContent(QRMeta(documentHash, sequenceNumber, totalQrCodes, numEcc), fragments[sequenceNumber]);
      ghost var prefix := labels[..sequenceNumber + 1];
      assert prefix[..sequenceNumber] == labels[..sequenceNumber];
      assert prefix[sequenceNumber] == qrContent;
      var dumped := QRContentDumpB85Bytes(qrContent, c);
      if dumped.Err? {
        DumpAllPrefixFails(labels, sequenceNumber + 1, c);
        return Err(SerializationError(dumped.error));
      }
      qrContents := qrContents + [dumped.value];
    }
    assert labels[..totalQrCodes] == labels;
    r := Ok(qrContents);
  }

  /** A failure while dumping a prefix is the failure of the whole dump. */
  lemma {:induction false} DumpAllPrefixFails(contents: seq<QRContent>, k: nat, c: Codecs)
    requires k <= |contents| && DumpAll(contents[..k], c).Err?
    ensures DumpAll(contents, c) == DumpAll(contents[..k], c)
    decreases |contents| - k
  {
    if k < |contents| {
      var longer := contents[..k + 1];
      assert longer[..|longer| - 1] == contents[..k];
      DumpAllPrefixFails(contents, k + 1, c);
    } else {
      assert contents[..k] == contents;
    }
  }
}

/**
 * The end-to-end property of the fragment protocol: with codecs that obey
 * their laws, decoding any scan that contains at least
 * `total_qr_codes - num_ecc` distinct envelopes of one encoding gives back
 * the encoded document.
 */
module RoundTrip {
  import opened Wrappers
  import opened ByteRows
  import opened Codecs
  import opened Models
  import opened Encode
  import opened Decode

  /** Column `j` of the parity-extended rows is the codeword of column `j` of the data rows. */
  lemma ParityColumns(fragments: seq<Bytes>, k: nat, w: nat, c: Codecs)
    requires RsCodewords(c) && 0 < k < 255
    requires |fragments| > 0 && w > 0 && Uniform(fragments, w)
    ensures GenerateEcFragments(fragments, k, c).Ok?
    ensures var coded := GenerateEcFragments(fragments, k, c).value;
      && |fragments| <= |coded| && Uniform(coded, w)
      && forall j :: 0 <= j < w ==> c.rsEncode(Zip(fragments)[j], k) == Some(Column(coded, j))
  {
    EcFragmentsShape(fragments, k, w, c);
    var coded := GenerateEcFragments(fragments, k, c).value;
    var groups := Zip(fragments);
    ZipShape(fragments, w);
    var cols := EncodeColumns(groups, k, c).value;
    assert coded == Zip(cols);
    assert c.rsEncode(groups[0], k) == Some(cols[0]);
    forall j | 0 <= j < |cols|
      ensures |cols[j]| == |cols[0]|
    {
      assert c.rsEncode(groups[j], k) == Some(cols[j]);
    }
    MinLengthUniform(cols, |cols[0]|);
    forall j | 0 <= j < w
      ensures c.rsEncode(groups[j], k) == Some(Column(coded, j))
    {
      assert c.rsEncode(groups[j], k) == Some(cols[j]);
      var col := Column(coded, j);
      forall i | 0 <= i < |col|
        ensures col[i] == cols[j][i]
      {
      }
      assert col == cols[j];
    }
  }

  /**
   * The fragments `generate_qr_payloads` encodes: data rows of one positive
   * width that join to the compressed blob and its NUL padding, followed,
   * when there is parity, by rows that extend every column to a codeword.
   */
  lemma CodedShape(doc: DocumentPayload, encodeEcCodes: bool, p: EncodeParams, c: Codecs)
    requires ValidParams(p) && RsCodewords(c) && ZlibRoundTrip(c)
    ensures var plan := MakePlan(doc, encodeEcCodes, p, c);
      && |plan.fragments| > 0 && |plan.fragments[0]| > 0
      && Uniform(plan.fragments, |plan.fragments[0]|)
      && |plan.blob| <= |Join(plan.fragments)|
      && Join(plan.fragments) == plan.blob + Zeros(|Join(plan.fragments)| - |plan.blob|)
      && plan.parity.numEcc < 255
  {
    var plan := MakePlan(doc, encodeEcCodes, p, c);
    PayloadFragmentsShape(plan.blob, PayloadSize(p.maxQrBytes, p.reservedLen));
    assert |plan.blob| > 0;
  }

  /** The coded rows: the data rows alone without parity, the parity-extended rows otherwise. */
  lemma CodedColumns(plan: Plan, w: nat, c: Codecs)
    requires RsCodewords(c) && plan.parity.numEcc < 255
    requires |plan.fragments| > 0 && w > 0 && Uniform(plan.fragments, w)
    ensures CodedFragments(plan, c).Ok?
    ensures var coded := CodedFragments(plan, c).value;
      && |plan.fragments| <= |coded| && Uniform(coded, w)
      && (plan.parity.numEcc == 0 ==> coded == plan.fragments)
      && (plan.parity.numEcc > 0 ==> forall j :: 0 <= j < w ==>
            c.rsEncode(Zip(plan.fragments)[j], plan.parity.numEcc) == Some(Column(coded, j)))
  {
    if plan.parity.numEcc > 0 {
      ParityColumns(plan.fragments, plan.parity.numEcc, w, c);
    }
  }

  /** Filled and sorted, the received rows of a coded block sit at their own indices, with zero rows where a code is missing. */
  lemma SortedReceived(d: ContentDict, coded: seq<Bytes>, w: nat)
    requires WellFormed(d) && |d.order| > 0
    requires First(d).meta.totalQrCodes == |coded| && Uniform(coded, w)
    requires forall k :: k in d.entries ==> 0 <= k < |coded| && d.entries[k].docFragment == coded[k]
    ensures |SortedPayloads(d)| == |coded| && Uniform(SortedPayloads(d), w)
    ensures forall i :: 0 <= i < |coded| && i in d.entries ==> SortedPayloads(d)[i] == coded[i]
  {
    MaxLengthIsWidth(d, coded, w);
    SortedPayloadsIndexed(d);
    var payloads := SortedPayloads(d);
    forall i | 0 <= i < |coded|
      ensures |payloads[i]| == w
      ensures i in d.entries ==> payloads[i] == coded[i]
    {
    }
  }

  /** The longest received fragment of a coded block is as long as every row. */
  lemma MaxLengthIsWidth(d: ContentDict, coded: seq<Bytes>, w: nat)
    requires WellFormed(d) && |d.order| > 0 && Uniform(coded, w)
    requires forall k :: k in d.entries ==> 0 <= k < |coded| && d.entries[k].docFragment == coded[k]
    ensures MaxFragmentLength(d.order, d.entries) == w
  {
    var maxLen := MaxFragmentLength(d.order, d.entries);
    var i :| 0 <= i < |d.order| && maxLen == |d.entries[d.order[i]].docFragment|;
    assert d.order[i] in d.entries;
  }

  /** Without parity codes nothing is missing from a complete scan, and the sorted rows are the coded rows. */
  lemma SortedComplete(d: ContentDict, coded: seq<Bytes>, w: nat)
    requires WellFormed(d) && |d.order| > 0
    requires First(d).meta.totalQrCodes == |coded| && Uniform(coded, w)
    requires forall k :: k in d.entries ==> 0 <= k < |coded| && d.entries[k].docFragment == coded[k]
    requires |d.entries| >= |coded|
    ensures SortedPayloads(d) == coded
  {
    SortedReceived(d, coded, w);
    MissingBelowSize(d.entries.Keys, |coded|);
    assert MissingBelow(d.entries.Keys, |coded|) == [];
  }

  /** Without parity codes, a complete scan joins to the data rows. */
  lemma JoinWithoutParity(d: ContentDict, c: Codecs, coded: seq<Bytes>, w: nat)
    requires WellFormed(d) && |d.order| > 0
    requires First(d).meta.totalQrCodes == |coded| && First(d).meta.numEcc == 0 && Uniform(coded, w)
    requires forall k :: k in d.entries ==> 0 <= k < |coded| && d.entries[k].docFragment == coded[k]
    requires |d.entries| >= |coded|
    ensures JoinedPayload(d, c) == Ok(Join(coded))
  {
    SortedComplete(d, coded, w);
  }

  /** A column of rows that agree with the coded rows off the dropped indices is an erasure of the coded column. */
  lemma ColumnErased(payloads: seq<Bytes>, coded: seq<Bytes>, dropped: seq<int>, w: nat, j: nat, numEcc: nat)
    requires 0 < numEcc < 255 && |dropped| <= numEcc
    requires |payloads| == |coded| > 0 && Uniform(payloads, w) && Uniform(coded, w) && j < w
    requires forall p :: p in dropped ==> 0 <= p < |coded|
    requires forall i :: 0 <= i < |coded| && i !in dropped ==> payloads[i] == coded[i]
    ensures Erased(Some(Column(coded, j)), numEcc, dropped, Zip(payloads)[j])
  {
    ZipShape(payloads, w);
  }

  /** The sorted rows differ from the coded rows only at the missing indices, of which there are at most `num_ecc`. */
  lemma SortedErasures(d: ContentDict, coded: seq<Bytes>, w: nat, numEcc: nat)
    requires WellFormed(d) && |d.order| > 0
    requires First(d).meta.totalQrCodes == |coded| && Uniform(coded, w)
    requires forall k :: k in d.entries ==> 0 <= k < |coded| && d.entries[k].docFragment == coded[k]
    requires |d.entries| >= |coded| - numEcc
    ensures |SortedPayloads(d)| == |coded| > 0 && Uniform(SortedPayloads(d), w)
    ensures |MissingBelow(d.entries.Keys, |coded|)| <= numEcc
    ensures forall i :: 0 <= i < |coded| && i !in MissingBelow(d.entries.Keys, |coded|) ==> SortedPayloads(d)[i] == coded[i]
  {
    SortedReceived(d, coded, w);
    MissingBelowSize(d.entries.Keys, |coded|);
    assert d.order[0] in d.entries;
  }

  /** Decoding the columns of rows erased at no more than `num_ecc` indices gives back the columns of the data rows. */
  lemma ColumnsDecode(payloads: seq<Bytes>, coded: seq<Bytes>, fragments: seq<Bytes>, dropped: seq<int>, w: nat, numEcc: nat, c: Codecs)
    requires RsRecoversErasures(c) && 0 < numEcc < 255 && |dropped| <= numEcc
    requires |payloads| == |coded| > 0 && w > 0 && Uniform(payloads, w) && Uniform(coded, w)
    requires |fragments| > 0 && Uniform(fragments, w)
    requires forall p :: p in dropped ==> 0 <= p < |coded|
    requires forall i :: 0 <= i < |coded| && i !in dropped ==> payloads[i] == coded[i]
    requires forall j :: 0 <= j < w ==> c.rsEncode(Zip(fragments)[j], numEcc) == Some(Column(coded, j))
    ensures DecodeColumns(Zip(payloads), dropped, numEcc, c) == Some(Zip(fragments))
  {
    ZipShape(payloads, w);
    var received := Zip(payloads);
    ZipShape(fragments, w);
    forall j | 0 <= j < w
      ensures c.rsDecode(received[j], dropped, numEcc) == Some(Zip(fragments)[j])
    {
      ColumnErased(payloads, coded, dropped, w, j, numEcc);
      assert Erased(c.rsEncode(Zip(fragments)[j], numEcc), numEcc, dropped, received[j]);
    }
    var fixed := DecodeColumns(received, dropped, numEcc, c).value;
    assert fixed == Zip(fragments);
  }

  /** With parity codes, erasure decoding of the sorted columns gives back the data rows. */
  lemma JoinWithParity(d: ContentDict, c: Codecs, coded: seq<Bytes>, fragments: seq<Bytes>, w: nat, numEcc: nat)
    requires WellFormed(d) && |d.order| > 0
    requires RsRecoversErasures(c) && 0 < numEcc < 255
    requires w > 0 && |fragments| > 0 && Uniform(fragments, w) && Uniform(coded, w)
    requires First(d).meta.totalQrCodes == |coded| && First(d).meta.numEcc == numEcc
    requires forall k :: k in d.entries ==> 0 <= k < |coded| && d.entries[k].docFragment == coded[k]
    requires |d.entries| >= |coded| - numEcc
    requires forall j :: 0 <= j < w ==> c.rsEncode(Zip(fragments)[j], numEcc) == Some(Column(coded, j))
    ensures JoinedPayload(d, c) == Ok(Join(fragments))
  {
    SortedErasures(d, coded, w, numEcc);
    ColumnsDecode(SortedPayloads(d), coded, fragments, MissingBelow(d.entries.Keys, |coded|), w, numEcc, c);
    ZipZip(fragments, w);
  }

  /** Contents of self-indexed labels carry their index, so equal sequence numbers mean equal contents. */
  lemma PickedConsistent(labels: seq<QRContent>, picked: seq<nat>, contents: seq<QRContent>)
    requires |contents| == |picked|
    requires forall i :: 0 <= i < |picked| ==> picked[i] < |labels| && contents[i] == labels[picked[i]]
    requires forall k :: 0 <= k < |labels| ==> labels[k].meta.sequenceNumber == k
    ensures forall i, j :: 0 <= i < |contents| && 0 <= j < |contents| && contents[i].meta.sequenceNumber == contents[j].meta.sequenceNumber ==>
      contents[i] == contents[j]
  {
  }

  /** The scanned contents carry exactly the picked indices as sequence numbers. */
  lemma PickedSeqNums(labels: seq<QRContent>, picked: seq<nat>, contents: seq<QRContent>)
    requires |contents| == |picked|
    requires forall i :: 0 <= i < |picked| ==> picked[i] < |labels| && contents[i] == labels[picked[i]]
    requires forall k :: 0 <= k < |labels| ==> labels[k].meta.sequenceNumber == k
    ensures SeqNums(contents) == set i | 0 <= i < |picked| :: picked[i]
  {
    var keys := set i | 0 <= i < |picked| :: picked[i];
    forall k
      ensures k in SeqNums(contents) <==> k in keys
    {
      if k in SeqNums(contents) {
        var i :| 0 <= i < |contents| && contents[i].meta.sequenceNumber == k;
      }
      if k in keys {
        var i :| 0 <= i < |picked| && picked[i] == k;
        assert contents[i].meta.sequenceNumber == k;
      }
    }
  }

  /**
   * Scanning envelopes that each read back as the content carrying their own
   * index, in any order and with repetitions, gives a dictionary of exactly
   * the scanned indices, each holding its own content.
   */
  lemma ScanParsed(envs: seq<Bytes>, labels: seq<QRContent>, scanned: seq<Bytes>, picked: seq<nat>, c: Codecs)
    requires |labels| == |envs|
    requires forall k :: 0 <= k < |envs| ==> QRContentValidateB85Bytes(envs[k], c) == Ok(labels[k])
    requires forall k :: 0 <= k < |labels| ==> labels[k].meta.sequenceNumber == k
    requires |scanned| == |picked| > 0
    requires forall i :: 0 <= i < |picked| ==> picked[i] < |envs| && scanned[i] == envs[picked[i]]
    ensures ParseAll(scanned, c).Ok?
    ensures var d := ParseAll(scanned, c).value;
      && |d.order| > 0 && First(d) == labels[picked[0]]
      && d.entries.Keys == (set i | 0 <= i < |picked| :: picked[i])
      && forall k :: k in d.entries ==> 0 <= k < |labels| && d.entries[k] == labels[k]
  {
    var contents := seq(|picked|, i requires 0 <= i < |picked| => labels[picked[i]]);
    PickedConsistent(labels, picked, contents);
    PickedSeqNums(labels, picked, contents);
    assert forall i :: 0 <= i < |scanned| ==> QRContentValidateB85Bytes(scanned[i], c) == Ok(contents[i]);
    ParseConsistent(scanned, contents, c);
    ParseKeys(scanned, contents, c);
    ParseFirstKey(scanned, contents, c);
    var d := ParseAll(scanned, c).value;
    forall k | k in d.entries
      ensures 0 <= k < |labels| && d.entries[k] == labels[k]
    {
      var i :| 0 <= i < |contents| && contents[i].meta.sequenceNumber == k;
    }
  }

  /** Whatever was encoded, a scan that misses at most `num_ecc` codes joins back to the data rows. */
  lemma DecodedJoin(d: ContentDict, c: Codecs, coded: seq<Bytes>, fragments: seq<Bytes>, w: nat, numEcc: nat)
    requires WellFormed(d) && |d.order| > 0
    requires RsRecoversErasures(c) && numEcc < 255
    requires w > 0 && |fragments| > 0 && Uniform(fragments, w) && Uniform(coded, w)
    requires First(d).meta.totalQrCodes == |coded| && First(d).meta.numEcc == numEcc
    requires forall k :: k in d.entries ==> 0 <= k < |coded| && d.entries[k].docFragment == coded[k]
    requires |d.entries| >= |coded| - numEcc
    requires numEcc == 0 ==> coded == fragments
    requires numEcc > 0 ==> forall j :: 0 <= j < w ==> c.rsEncode(Zip(fragments)[j], numEcc) == Some(Column(coded, j))
    ensures JoinedPayload(d, c) == Ok(Join(fragments))
  {
    if numEcc == 0 {
      JoinWithoutParity(d, c, coded, w);
    } else {
      JoinWithParity(d, c, coded, fragments, w, numEcc);
    }
  }

  /** What the encoder hands to the scanner: envelope `k` reads back as coded row `k`, labelled with `k`, the hash and the totals. */
  function Labels(plan: Plan, coded: seq<Bytes>): (labels: seq<QRContent>)
    ensures |labels| == |coded|
    ensures forall k :: 0 <= k < |coded| ==> labels[k] == QRContent(QRMeta(plan.documentHash, k, |coded|, plan.parity.numEcc), coded[k])
  {
    seq(|coded|, k requires 0 <= k < |coded| => QRContent(QRMeta(plan.documentHash, k, |coded|, plan.parity.numEcc), coded[k]))
  }

  /** The encode half of the round trip, with the laws it needs. */
  lemma EncodedBlock(doc: DocumentPayload, encodeEcCodes: bool, p: EncodeParams, c: Codecs, envs: seq<Bytes>)
    requires ValidParams(p) && RsCodewords(c) && ZlibRoundTrip(c) && ProtobufRoundTrip(c) && B85RoundTrip(c)
    requires QrPayloads(doc, encodeEcCodes, p, c) == Ok(envs)
    ensures var plan := MakePlan(doc, encodeEcCodes, p, c);
      && CodedFragments(plan, c).Ok?
      && var coded := CodedFragments(plan, c).value;
      && var w := |plan.fragments[0]|;
      && |plan.fragments| > 0 && w > 0 && Uniform(plan.fragments, w) && Uniform(coded, w)
      && |plan.blob| <= |Join(plan.fragments)|
      && Join(plan.fragments) == plan.blob + Zeros(|Join(plan.fragments)| - |plan.blob|)
      && plan.parity.numEcc < 255
      && (plan.parity.numEcc == 0 ==> coded == plan.fragments)
      && (plan.parity.numEcc > 0 ==> forall j :: 0 <= j < w ==>
            c.rsEncode(Zip(plan.fragments)[j], plan.parity.numEcc) == Some(Column(coded, j)))
      && |envs| == |coded|
      && forall k :: 0 <= k < |envs| ==> QRContentValidateB85Bytes(envs[k], c) == Ok(Labels(plan, coded)[k])
  {
    var plan := MakePlan(doc, encodeEcCodes, p, c);
    EnvelopesLabelled(doc, encodeEcCodes, p, c, envs);
    CodedShape(doc, encodeEcCodes, p, c);
    CodedColumns(plan, |plan.fragments[0]|, c);
  }

  /** A dictionary of labelled envelopes holds the coded rows under their indices and the encoder's totals in its first entry. */
  lemma LabelledDict(d: ContentDict, plan: Plan, coded: seq<Bytes>, first: nat)
    requires WellFormed(d) && |d.order| > 0 && first < |coded|
    requires First(d) == Labels(plan, coded)[first]
    requires forall k :: k in d.entries ==> 0 <= k < |coded| && d.entries[k] == Labels(plan, coded)[k]
    ensures First(d).meta == QRMeta(plan.documentHash, first, |coded|, plan.parity.numEcc)
    ensures forall k :: k in d.entries ==> 0 <= k < |coded| && d.entries[k].docFragment == coded[k]
  {
  }

  /**
   * Encoding `doc` with `generate_qr_payloads`, scanning any of the envelopes
   * (in any order, with repetitions) so that at most `num_ecc` of them are
   * never read, and decoding with `_parse_qr_contents` and
   * `_reconstruct_document_payload` gives back `doc`.
   */
  lemma EncodeDecodeRoundTrip(doc: DocumentPayload, encodeEcCodes: bool, p: EncodeParams, c: Codecs,
                              envs: seq<Bytes>, scanned: seq<Bytes>, picked: seq<nat>)
    requires ValidParams(p) && Lawful(c)
    requires QrPayloads(doc, encodeEcCodes, p, c) == Ok(envs)
    requires |scanned| == |picked| > 0
    requires forall i :: 0 <= i < |picked| ==> picked[i] < |envs| && scanned[i] == envs[picked[i]]
    requires |set i | 0 <= i < |picked| :: picked[i]| >= |envs| - MakePlan(doc, encodeEcCodes, p, c).parity.numEcc
    ensures ParseAll(scanned, c).Ok?
    ensures Reconstruct(ParseAll(scanned, c).value, c) == Ok(doc)
  {
    var plan := MakePlan(doc, encodeEcCodes, p, c);
    EncodedBlock(doc, encodeEcCodes, p, c, envs);
    var coded := CodedFragments(plan, c).value;
    var labels := Labels(plan, coded);
    ScanParsed(envs, labels, scanned, picked, c);
    var d := ParseAll(scanned, c).value;
    DictSize(d);
    LabelledDict(d, plan, coded, picked[0]);
    DecodedJoin(d, c, coded, plan.fragments, |plan.fragments[0]|, plan.parity.numEcc);
    var padding := |Join(plan.fragments)| - |plan.blob|;
    DocumentHashPadding(plan.blob, padding, c);
    DocumentCompressedRoundTrip(doc, c, padding);
    ReconstructSucceeds(d, c, Join(plan.fragments));
  }
}

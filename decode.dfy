/**
 * The decode side of the fragment protocol (`qrdm/qr/decode.py`): parsing the
 * scanned payloads into a dictionary keyed by sequence number, deciding
 * whether enough codes were read, filling the gaps with zero fragments,
 * running the erasure decoder column by column, and checking the digest.
 */
module Decode {
  import opened Wrappers
  import opened ByteRows
  import opened Codecs
  import opened Models
  import Encode

  datatype DecodeFailure =
    | CouldNotReadPayload
    | InsufficientPayloads(needed: int, got: nat)
    | ChecksumMismatch

  datatype DecodeError =
    | QRDecodeError(failure: DecodeFailure)   // qrdm.exceptions.QRDecodeError
    | EmptyContents                           // StopIteration from next(iter(...)) on an empty dict
    | ReedSolomonError                        // reedsolo gives up on a column
    | PayloadError(cause: ModelError)         // raised by model_validate_compressed_bytes

  // -----------------------------------------------------------------------
  // Integer sequences

  ghost predicate Ascending(s: seq<int>) {
    forall i, j :: 0 <= i < j < |s| ==> s[i] < s[j]
  }

  ghost predicate Distinct(s: seq<int>) {
    forall i, j :: 0 <= i < j < |s| ==> s[i] != s[j]
  }

  /** `range(n)` as a set. */
  function RangeSet(n: int): (r: set<int>)
    ensures forall x :: x in r <==> 0 <= x < n
    decreases if n > 0 then n else 0
  {
    if n <= 0 then {} else RangeSet(n - 1) + {n - 1}
  }

  lemma {:induction false} RangeSetSize(n: nat)
    ensures |RangeSet(n)| == n
  {
    if n > 0 {
      RangeSetSize(n - 1);
    }
  }

  lemma {:induction false} DistinctSize(s: seq<int>)
    requires Distinct(s)
    ensures |set x | x in s| == |s|
  {
    if s != [] {
      var init := s[..|s| - 1];
      DistinctSize(init);
      assert (set x | x in s) == (set x | x in init) + {s[|s| - 1]};
      assert s[|s| - 1] !in init;
    } else {
      assert (set x | x in s) == {};
    }
  }

  /** Adds `x` to an ascending sequence. */
  function InsertAscending(s: seq<int>, x: int): (r: seq<int>)
    requires Ascending(s) && x !in s
    ensures Ascending(r) && |r| == |s| + 1
    ensures forall y :: y in r <==> y in s || y == x
    decreases |s|
  {
    if s == [] || x < s[0] then [x] + s
    else
      var rest := InsertAscending(s[1..], x);
      assert forall y :: y in s[1..] ==> s[0] < y;
      assert forall j :: 0 <= j < |rest| ==> rest[j] in rest;
      [s[0]] + rest
  }

  /** `sorted(keys)` for distinct keys. */
  function SortInts(keys: seq<int>): (r: seq<int>)
    requires Distinct(keys)
    ensures Ascending(r) && |r| == |keys|
    ensures forall y :: y in r <==> y in keys
    decreases |keys|
  {
    if keys == [] then []
    else
      var init := keys[..|keys| - 1];
      assert forall y :: y in init ==> y in keys;
      InsertAscending(SortInts(init), keys[|keys| - 1])
  }

  lemma {:induction false} AscendingLower(s: seq<int>, i: nat)
    requires Ascending(s) && (forall j :: 0 <= j < |s| ==> s[j] >= 0) && i < |s|
    ensures s[i] >= i
  {
    if i > 0 {
      AscendingLower(s, i - 1);
    }
  }

  lemma {:induction false} AscendingUpper(s: seq<int>, i: nat)
    requires Ascending(s) && (forall j :: 0 <= j < |s| ==> s[j] < |s|) && i < |s|
    ensures s[i] <= i
    decreases |s| - i
  {
    if i + 1 < |s| {
      AscendingUpper(s, i + 1);
    }
  }

  /** An ascending sequence of the indices `0..n` is `[0, 1, ..., n - 1]`. */
  lemma SortedRange(s: seq<int>, n: nat)
    requires Ascending(s) && |s| == n
    requires forall x :: x in s <==> 0 <= x < n
    ensures forall i :: 0 <= i < n ==> s[i] == i
  {
    forall i | 0 <= i < n
      ensures s[i] == i
    {
      assert forall j :: 0 <= j < |s| ==> s[j] in s;
      AscendingLower(s, i);
      AscendingUpper(s, i);
    }
  }

  // -----------------------------------------------------------------------
  // The dictionary of decoded envelopes

  /** A Python dict from sequence number to envelope: its keys in insertion order, and its entries. */
  datatype ContentDict = ContentDict(order: seq<int>, entries: map<int, QRContent>)

  ghost predicate WellFormed(d: ContentDict) {
    && Distinct(d.order)
    && (forall k :: k in d.entries <==> k in d.order)
    && (forall i :: 0 <= i < |d.order| ==> d.order[i] in d.entries)
  }

  lemma DictSize(d: ContentDict)
    requires WellFormed(d)
    ensures |d.entries| == |d.order|
  {
    DistinctSize(d.order);
    forall x
      ensures x in d.entries.Keys <==> x in (set y | y in d.order)
    {
    }
    assert d.entries.Keys == set y | y in d.order;
  }

  /** `next(iter(d.values()))`: the entry of the first key inserted. */
  function First(d: ContentDict): (q: QRContent)
    requires WellFormed(d) && |d.order| > 0
    ensures q == d.entries[d.order[0]]
    ensures q in d.entries.Values
  {
    d.entries[d.order[0]]
  }

  /** `d[key] = value`: a new key goes last, an existing key keeps its place and takes the new value. */
  function Insert(d: ContentDict, key: int, value: QRContent): (r: ContentDict)
    requires WellFormed(d)
    ensures WellFormed(r)
    ensures r.entries == d.entries[key := value]
    ensures key in d.entries ==> r.order == d.order
    ensures key !in d.entries ==> r.order == d.order + [key]
  {
    if key in d.entries then ContentDict(d.order, d.entries[key := value])
    else ContentDict(d.order + [key], d.entries[key := value])
  }

  // -----------------------------------------------------------------------
  // _parse_qr_contents

  /** What `_parse_qr_contents` returns or raises: every decode parsed in turn and stored under its own sequence number. */
  function ParseAll(decodes: seq<Bytes>, c: Codecs): (r: Result<ContentDict, DecodeError>)
    ensures r.Ok? ==> WellFormed(r.value)
    ensures r.Ok? <==> forall i :: 0 <= i < |decodes| ==> QRContentValidateB85Bytes(decodes[i], c).Ok?
    ensures r.Err? ==> r.error == QRDecodeError(CouldNotReadPayload)
    decreases |decodes|
  {
    if decodes == [] then Ok(ContentDict([], map[]))
    else
      var init := decodes[..|decodes| - 1];
      assert forall i :: 0 <= i < |init| ==> init[i] == decodes[i];
      match ParseAll(init, c)
      case Err(e) => Err(e)
      case Ok(d) =>
        match QRContentValidateB85Bytes(decodes[|decodes| - 1], c)
        case Err(_) => Err(QRDecodeError(CouldNotReadPayload))
        case Ok(content) => Ok(Insert(d, content.meta.sequenceNumber, content))
  }

  /** One more decode parsed: the dictionary so far with its envelope stored under its sequence number. */
  lemma ParseStep(decodes: seq<Bytes>, contents: seq<QRContent>, c: Codecs)
    requires |contents| == |decodes| > 0
    requires forall i :: 0 <= i < |decodes| ==> QRContentValidateB85Bytes(decodes[i], c) == Ok(contents[i])
    ensures ParseAll(decodes, c).Ok? && ParseAll(decodes[..|decodes| - 1], c).Ok?
    ensures ParseAll(decodes, c).value ==
      Insert(ParseAll(decodes[..|decodes| - 1], c).value, contents[|decodes| - 1].meta.sequenceNumber, contents[|decodes| - 1])
  {
  }

  /** The sequence numbers the envelopes carry. */
  function SeqNums(contents: seq<QRContent>): (r: set<int>)
    ensures forall i :: 0 <= i < |contents| ==> contents[i].meta.sequenceNumber in r
    ensures forall k :: k in r ==> exists i :: 0 <= i < |contents| && contents[i].meta.sequenceNumber == k
    decreases |contents|
  {
    if contents == [] then {}
    else
      var init := contents[..|contents| - 1];
      assert forall i :: 0 <= i < |init| ==> init[i] == contents[i];
      SeqNums(init) + {contents[|contents| - 1].meta.sequenceNumber}
  }

  /** The dictionary's keys are exactly the sequence numbers of the parsed envelopes. */
  lemma {:induction false} ParseKeys(decodes: seq<Bytes>, contents: seq<QRContent>, c: Codecs)
    requires |contents| == |decodes|
    requires forall i :: 0 <= i < |decodes| ==> QRContentValidateB85Bytes(decodes[i], c) == Ok(contents[i])
    ensures ParseAll(decodes, c).Ok?
    ensures ParseAll(decodes, c).value.entries.Keys == SeqNums(contents)
    decreases |decodes|
  {
    if decodes != [] {
      var n := |decodes|;
      var init, contentsInit := decodes[..n - 1], contents[..n - 1];
      assert forall i :: 0 <= i < |init| ==> init[i] == decodes[i] && contentsInit[i] == contents[i];
      ParseKeys(init, contentsInit, c);
      ParseStep(decodes, contents, c);
      var key := contents[n - 1].meta.sequenceNumber;
      var before := ParseAll(init, c).value.entries;
      assert ParseAll(decodes, c).value.entries == before[key := contents[n - 1]];
      assert ParseAll(decodes, c).value.entries.Keys == before.Keys + {key};
      assert SeqNums(contents) == SeqNums(contentsInit) + {key};
    }
  }

  /** A key holds the last parsed envelope that carries it: a later duplicate overwrites an earlier one. */
  lemma {:induction false} ParseLastWins(decodes: seq<Bytes>, contents: seq<QRContent>, c: Codecs, i: nat)
    requires |contents| == |decodes|
    requires forall i :: 0 <= i < |decodes| ==> QRContentValidateB85Bytes(decodes[i], c) == Ok(contents[i])
    requires i < |contents|
    requires forall j :: i < j < |contents| ==> contents[j].meta.sequenceNumber != contents[i].meta.sequenceNumber
    ensures ParseAll(decodes, c).Ok?
    ensures contents[i].meta.sequenceNumber in ParseAll(decodes, c).value.entries
    ensures ParseAll(decodes, c).value.entries[contents[i].meta.sequenceNumber] == contents[i]
    decreases |decodes|
  {
    var n := |decodes|;
    ParseStep(decodes, contents, c);
    if i < n - 1 {
      var prefix := contents[..n - 1];
      assert prefix[i] == contents[i];
      assert forall j :: i < j < |prefix| ==> prefix[j] == contents[j];
      ParseLastWins(decodes[..n - 1], prefix, c, i);
      assert contents[n - 1].meta.sequenceNumber != contents[i].meta.sequenceNumber;
    }
  }

  /** The first key inserted, whose envelope supplies `total_qr_codes` and `num_ecc`, is the first parsed envelope's. */
  lemma {:induction false} ParseFirstKey(decodes: seq<Bytes>, contents: seq<QRContent>, c: Codecs)
    requires |contents| == |decodes| > 0
    requires forall i :: 0 <= i < |decodes| ==> QRContentValidateB85Bytes(decodes[i], c) == Ok(contents[i])
    ensures ParseAll(decodes, c).Ok?
    ensures |ParseAll(decodes, c).value.order| > 0
    ensures ParseAll(decodes, c).value.order[0] == contents[0].meta.sequenceNumber
    decreases |decodes|
  {
    var n := |decodes|;
    ParseStep(decodes, contents, c);
    if n > 1 {
      ParseFirstKey(decodes[..n - 1], contents[..n - 1], c);
    } else {
      assert decodes[..0] == [];
    }
  }

  /** Scanning the same envelope twice is harmless: when equal sequence numbers carry equal envelopes, each is stored under its own. */
  lemma {:induction false} ParseConsistent(decodes: seq<Bytes>, contents: seq<QRContent>, c: Codecs)
    requires |contents| == |decodes|
    requires forall i :: 0 <= i < |decodes| ==> QRContentValidateB85Bytes(decodes[i], c) == Ok(contents[i])
    requires forall i, j :: 0 <= i < |contents| && 0 <= j < |contents| && contents[i].meta.sequenceNumber == contents[j].meta.sequenceNumber ==>
      contents[i] == contents[j]
    ensures ParseAll(decodes, c).Ok?
    ensures forall i :: 0 <= i < |contents| ==> contents[i].meta.sequenceNumber in ParseAll(decodes, c).value.entries
    ensures forall i :: 0 <= i < |contents| ==> ParseAll(decodes, c).value.entries[contents[i].meta.sequenceNumber] == contents[i]
    decreases |decodes|
  {
    ParseKeys(decodes, contents, c);
    if decodes != [] {
      var n := |decodes|;
      ParseConsistent(decodes[..n - 1], contents[..n - 1], c);
      ParseStep(decodes, contents, c);
      forall i | 0 <= i < n
        ensures ParseAll(decodes, c).value.entries[contents[i].meta.sequenceNumber] == contents[i]
      {
        if i < n - 1 && contents[i].meta.sequenceNumber != contents[n - 1].meta.sequenceNumber {
          assert contents[..n - 1][i] == contents[i];
        }
      }
    }
  }

  /** `_parse_qr_contents`: the loop that fills `extracted_contents`. */
  method ParseQrContents(decodes: seq<Bytes>, c: Codecs) returns (r: Result<ContentDict, DecodeError>)
    ensures r == ParseAll(decodes, c)
  {
    var extracted := ContentDict([], map[]);
    for ii := 0 to |decodes|
      invariant ParseAll(decodes[..ii], c) == Ok(extracted)
    {
      assert decodes[..ii + 1][..ii] == decodes[..ii];
      var content := QRContentValidateB85Bytes(decodes[ii], c);
      if content.Err? {
        ParseAllPrefixFails(decodes, ii + 1, c);
        return Err(QRDecodeError(CouldNotReadPayload));
      }
      extracted := Insert(extracted, content.value.meta.sequenceNumber, content.value);
    }
    assert decodes[..|decodes|] == decodes;
    r := Ok(extracted);
  }

  lemma {:induction false} ParseAllPrefixFails(decodes: seq<Bytes>, k: nat, c: Codecs)
    requires k <= |decodes| && ParseAll(decodes[..k], c).Err?
    ensures ParseAll(decodes, c) == ParseAll(decodes[..k], c)
    decreases |decodes| - k
  {
    if k < |decodes| {
      var longer := decodes[..k + 1];
      assert longer[..|longer| - 1] == decodes[..k];
      ParseAllPrefixFails(decodes, k + 1, c);
    } else {
      assert decodes[..k] == decodes;
    }
  }

  // -----------------------------------------------------------------------
  // _sufficient_decodes and _list_missing_qr_codes

  /** `_sufficient_decodes` */
  function SufficientDecodes(d: ContentDict): (b: bool)
    requires WellFormed(d)
    ensures |d.order| == 0 ==> !b
    ensures |d.order| > 0 ==> (b <==> |d.entries| >= First(d).meta.totalQrCodes - First(d).meta.numEcc)
  {
    DictSize(d);
    if |d.order| == 0 then false
    else |d.entries| >= First(d).meta.totalQrCodes - First(d).meta.numEcc
  }

  /** The indices in `range(hi)` that are not keys, in ascending order. */
  function MissingBelow(keys: set<int>, hi: int): (r: seq<int>)
    ensures Ascending(r)
    ensures forall x :: x in r <==> 0 <= x < hi && x !in keys
    decreases if hi > 0 then hi else 0
  {
    if hi <= 0 then []
    else
      var init := MissingBelow(keys, hi - 1);
      assert forall j :: 0 <= j < |init| ==> init[j] in init;
      init + (if hi - 1 in keys then [] else [hi - 1])
  }

  /** `_list_missing_qr_codes`, which raises `StopIteration` on an empty dict. */
  function ListMissingQrCodes(d: ContentDict): (r: Result<seq<int>, DecodeError>)
    requires WellFormed(d)
    ensures r.Err? <==> |d.order| == 0
    ensures r.Err? ==> r.error == EmptyContents
    ensures r.Ok? ==> Ascending(r.value)
    ensures r.Ok? ==> forall x :: x in r.value <==> 0 <= x < First(d).meta.totalQrCodes && x !in d.entries
  {
    DictSize(d);
    if |d.order| == 0 then Err(EmptyContents)
    else Ok(MissingBelow(d.entries.Keys, First(d).meta.totalQrCodes))
  }

  lemma {:induction false} MissingBelowSize(keys: set<int>, total: nat)
    requires forall k :: k in keys ==> 0 <= k < total
    ensures |MissingBelow(keys, total)| == total - |keys|
  {
    var m := MissingBelow(keys, total);
    DistinctSize(m);
    var ms := set x | x in m;
    assert ms == RangeSet(total) - keys;
    assert keys <= RangeSet(total);
    RangeSetSize(total);
  }

  // -----------------------------------------------------------------------
  // _reconstruct_document_payload

  /** `max(len(fragment) for fragment in doc_fragments.values())` */
  function MaxFragmentLength(order: seq<int>, entries: map<int, QRContent>): (n: nat)
    requires forall i :: 0 <= i < |order| ==> order[i] in entries
    ensures forall i :: 0 <= i < |order| ==> |entries[order[i]].docFragment| <= n
    ensures |order| > 0 ==> exists i :: 0 <= i < |order| && n == |entries[order[i]].docFragment|
    decreases |order|
  {
    if order == [] then 0
    else
      var rest := MaxFragmentLength(order[1..], entries);
      assert forall i :: 1 <= i < |order| ==> order[i] == order[1..][i - 1];
      if |entries[order[0]].docFragment| >= rest then |entries[order[0]].docFragment| else rest
  }

  /**
   * `doc_fragments` after the loop: every received fragment unchanged, and a
   * zero fragment of `maxLen` bytes at every index below `total` that was
   * not received.
   */
  function FilledFragments(d: ContentDict, total: int, maxLen: nat): map<int, Bytes>
    decreases if total > 0 then total else 0
  {
    if total <= 0 then ReceivedFragments(d)
    else
      var before := FilledFragments(d, total - 1, maxLen);
      if total - 1 in d.entries then before else before[total - 1 := Zeros(maxLen)]
  }

  /** `{k: v.doc_fragment for k, v in extracted_contents.items()}` */
  function ReceivedFragments(d: ContentDict): map<int, Bytes> {
    map k | k in d.entries :: d.entries[k].docFragment
  }

  /**
   * After the filling loop every received fragment is unchanged, and every
   * index below `total` that was not received holds `maxLen` zero bytes.
   */
  lemma {:induction false} FilledFragmentsSpec(d: ContentDict, total: int, maxLen: nat)
    ensures FilledFragments(d, total, maxLen).Keys == d.entries.Keys + RangeSet(total)
    ensures forall k :: k in d.entries ==> FilledFragments(d, total, maxLen)[k] == d.entries[k].docFragment
    ensures forall k :: 0 <= k < total && k !in d.entries ==> FilledFragments(d, total, maxLen)[k] == Zeros(maxLen)
    decreases if total > 0 then total else 0
  {
    if total > 0 {
      FilledFragmentsSpec(d, total - 1, maxLen);
    }
  }

  lemma MissingStep(keys: set<int>, seqNum: nat)
    ensures seqNum in keys ==> MissingBelow(keys, seqNum + 1) == MissingBelow(keys, seqNum)
    ensures seqNum !in keys ==> MissingBelow(keys, seqNum + 1) == MissingBelow(keys, seqNum) + [seqNum]
  {
  }

  /** The loop of `_reconstruct_document_payload` that fills the gaps and records them in `dropped_code_inds`. */
  method FillMissing(d: ContentDict, total: int, maxLen: nat)
    returns (docFragments: map<int, Bytes>, keyOrder: seq<int>, droppedCodeInds: seq<int>)
    requires WellFormed(d)
    ensures docFragments == FilledFragments(d, total, maxLen)
    ensures droppedCodeInds == MissingBelow(d.entries.Keys, total)
    ensures keyOrder == d.order + droppedCodeInds
  {
    docFragments := ReceivedFragments(d);
    droppedCodeInds := [];
    var n := if total > 0 then total else 0;
    for seqNum := 0 to n
      invariant docFragments == FilledFragments(d, seqNum, maxLen)
      invariant droppedCodeInds == MissingBelow(d.entries.Keys, seqNum)
    {
      MissingStep(d.entries.Keys, seqNum);
      if seqNum !in d.entries {
        droppedCodeInds := droppedCodeInds + [seqNum];
        docFragments := docFragments[seqNum := Zeros(maxLen)];
      }
    }
    if total <= 0 {
      assert MissingBelow(d.entries.Keys, total) == [];
    }
    // the filled dict lists the received keys first, then the gaps in the order they were filled
    keyOrder := d.order + droppedCodeInds;
  }

  /** The dictionary's keys after the gaps are filled: received keys first, then the missing indices. */
  lemma FilledKeysDistinct(d: ContentDict, total: int)
    requires WellFormed(d)
    ensures Distinct(d.order + MissingBelow(d.entries.Keys, total))
    ensures forall k :: k in d.order + MissingBelow(d.entries.Keys, total) <==> k in d.entries || 0 <= k < total
  {
    var s := d.order + MissingBelow(d.entries.Keys, total);
    forall i, j | 0 <= i < j < |s|
      ensures s[i] != s[j]
    {
      if j >= |d.order| && i < |d.order| {
        assert s[i] in d.entries;
        assert s[j] in MissingBelow(d.entries.Keys, total);
      }
    }
  }

  /** Every key of the filled dict, sorted, has a fragment. */
  lemma SortedKeysFilled(d: ContentDict, total: int, maxLen: nat)
    requires WellFormed(d)
    ensures Distinct(d.order + MissingBelow(d.entries.Keys, total))
    ensures forall i :: 0 <= i < |SortInts(d.order + MissingBelow(d.entries.Keys, total))| ==>
      SortInts(d.order + MissingBelow(d.entries.Keys, total))[i] in FilledFragments(d, total, maxLen)
  {
    var filledKeys := d.order + MissingBelow(d.entries.Keys, total);
    FilledKeysDistinct(d, total);
    FilledFragmentsSpec(d, total, maxLen);
    var keys := SortInts(filledKeys);
    forall i | 0 <= i < |keys|
      ensures keys[i] in FilledFragments(d, total, maxLen)
    {
      assert keys[i] in keys;
      assert keys[i] in filledKeys;
      assert keys[i] in d.entries || 0 <= keys[i] < total;
    }
  }

  /** The gap-filled fragments in ascending sequence-number order. */
  function SortedPayloads(d: ContentDict): (payloads: seq<Bytes>)
    requires WellFormed(d) && |d.order| > 0
  {
    var total := First(d).meta.totalQrCodes;
    var filled := FilledFragments(d, total, MaxFragmentLength(d.order, d.entries));
    SortedKeysFilled(d, total, MaxFragmentLength(d.order, d.entries));
    var keys := SortInts(d.order + MissingBelow(d.entries.Keys, total));
    seq(|keys|, i requires 0 <= i < |keys| => filled[keys[i]])
  }

  /** When every received key is below `total`, the sorted keys of the filled dict are `0, 1, ..., total - 1`. */
  lemma SortedFilledKeys(d: ContentDict, total: nat)
    requires WellFormed(d)
    requires forall k :: k in d.entries ==> 0 <= k < total
    ensures Distinct(d.order + MissingBelow(d.entries.Keys, total))
    ensures |SortInts(d.order + MissingBelow(d.entries.Keys, total))| == total
    ensures forall i :: 0 <= i < total ==> SortInts(d.order + MissingBelow(d.entries.Keys, total))[i] == i
  {
    var keys := d.order + MissingBelow(d.entries.Keys, total);
    FilledKeysDistinct(d, total);
    DistinctSize(keys);
    assert (set x | x in keys) == RangeSet(total);
    RangeSetSize(total);
    SortedRange(SortInts(keys), total);
  }

  /**
   * When every received sequence number is below `total_qr_codes`, sorting
   * puts fragment `i` at position `i`, and a zero fragment where `i` was
   * not received.
   */
  lemma SortedPayloadsIndexed(d: ContentDict)
    requires WellFormed(d) && |d.order| > 0
    requires forall k :: k in d.entries ==> 0 <= k < First(d).meta.totalQrCodes
    ensures |SortedPayloads(d)| == First(d).meta.totalQrCodes
    ensures forall i :: 0 <= i < |SortedPayloads(d)| ==>
      SortedPayloads(d)[i] == if i in d.entries then d.entries[i].docFragment else Zeros(MaxFragmentLength(d.order, d.entries))
  {
    var total := First(d).meta.totalQrCodes;
    assert d.order[0] in d.entries;
    assert 0 <= d.order[0] < total;
    SortedFilledKeys(d, total);
    FilledFragmentsSpec(d, total, MaxFragmentLength(d.order, d.entries));
  }

  /** `decoding_codec.decode(x, erase_pos=dropped, only_erasures=True)[0] for x in columns`. */
  function DecodeColumns(cols: seq<Bytes>, dropped: seq<int>, numEcc: nat, c: Codecs): (r: Option<seq<Bytes>>)
    ensures r.Some? <==> forall j :: 0 <= j < |cols| ==> c.rsDecode(cols[j], dropped, numEcc).Some?
    ensures r.Some? ==> |r.value| == |cols|
    ensures r.Some? ==> forall j :: 0 <= j < |cols| ==> c.rsDecode(cols[j], dropped, numEcc) == Some(r.value[j])
    decreases |cols|
  {
    if cols == [] then Some([])
    else
      match c.rsDecode(cols[0], dropped, numEcc)
      case None => None
      case Some(col) =>
        match DecodeColumns(cols[1..], dropped, numEcc, c)
        case None => None
        case Some(rest) => Some([col] + rest)
  }

  /** `b"".join(sorted_payloads)`, after the column-wise erasure decoding when there are parity codes. */
  function JoinedPayload(d: ContentDict, c: Codecs): Result<Bytes, DecodeError>
    requires WellFormed(d) && |d.order| > 0
  {
    var first := First(d);
    var payloads := SortedPayloads(d);
    if first.meta.numEcc > 0 then
      var dropped := MissingBelow(d.entries.Keys, first.meta.totalQrCodes);
      match DecodeColumns(Zip(payloads), dropped, first.meta.numEcc, c)
      case None => Err(ReedSolomonError)
      case Some(fixed) => Ok(Join(Zip(fixed)))
    else
      Ok(Join(payloads))
  }

  /** Without parity codes the join is the plain concatenation, whatever the codecs do. */
  lemma NoParityJoinIsConcatenation(d: ContentDict, c: Codecs, other: Codecs)
    requires WellFormed(d) && |d.order| > 0 && First(d).meta.numEcc <= 0
    ensures JoinedPayload(d, c) == Ok(Join(SortedPayloads(d)))
    ensures JoinedPayload(d, c) == JoinedPayload(d, other)
  {
  }

  /** What `_reconstruct_document_payload` returns or raises. */
  function Reconstruct(d: ContentDict, c: Codecs): (r: Result<DocumentPayload, DecodeError>)
    requires WellFormed(d)
    ensures |d.order| == 0 ==> r == Err(EmptyContents)
    ensures |d.order| > 0 && |d.entries| < First(d).meta.totalQrCodes - First(d).meta.numEcc ==>
      r == Err(QRDecodeError(InsufficientPayloads(First(d).meta.totalQrCodes - First(d).meta.numEcc, |d.entries|)))
    ensures r.Ok? ==> SufficientDecodes(d)
    ensures r.Ok? ==>
      && JoinedPayload(d, c).Ok?
      && Encode.DocumentHash(JoinedPayload(d, c).value, c) == First(d).meta.documentHash
      && DocumentValidateCompressedBytes(JoinedPayload(d, c).value, c) == Ok(r.value)
  {
    DictSize(d);
    if |d.order| == 0 then Err(EmptyContents)
    else
      var first := First(d);
      var needed := first.meta.totalQrCodes - first.meta.numEcc;
      if |d.entries| < needed then Err(QRDecodeError(InsufficientPayloads(needed, |d.entries|)))
      else
        match JoinedPayload(d, c)
        case Err(e) => Err(e)
        case Ok(joined) =>
          if Encode.DocumentHash(joined, c) != first.meta.documentHash then Err(QRDecodeError(ChecksumMismatch))
          else
            match DocumentValidateCompressedBytes(joined, c)
            case Err(e) => Err(PayloadError(e))
            case Ok(doc) => Ok(doc)
  }

  /** Conversely, with enough codes, a successful join and a matching digest, reconstruction is the payload parse of the join. */
  lemma ReconstructSucceeds(d: ContentDict, c: Codecs, joined: Bytes)
    requires WellFormed(d) && |d.order| > 0 && SufficientDecodes(d)
    ensures (JoinedPayload(d, c) == Ok(joined) && Encode.DocumentHash(joined, c) == First(d).meta.documentHash
             && DocumentValidateCompressedBytes(joined, c).Ok?) ==>
      Reconstruct(d, c) == Ok(DocumentValidateCompressedBytes(joined, c).value)
    ensures (JoinedPayload(d, c) == Ok(joined) && Encode.DocumentHash(joined, c) == First(d).meta.documentHash
             && DocumentValidateCompressedBytes(joined, c).Err?) ==>
      Reconstruct(d, c) == Err(PayloadError(DocumentValidateCompressedBytes(joined, c).error))
  {
    DictSize(d);
  }

  /** A failed erasure decoding is what reconstruction raises. */
  lemma JoinFailureRaised(d: ContentDict, c: Codecs)
    requires WellFormed(d) && |d.order| > 0 && SufficientDecodes(d)
    requires JoinedPayload(d, c).Err?
    ensures Reconstruct(d, c) == Err(JoinedPayload(d, c).error)
    ensures JoinedPayload(d, c) == Err(ReedSolomonError)
  {
    DictSize(d);
  }

  /** A digest mismatch over the stripped join is a `QRDecodeError`. */
  lemma ChecksumMismatchRejected(d: ContentDict, c: Codecs, joined: Bytes)
    requires WellFormed(d) && |d.order| > 0 && SufficientDecodes(d)
    ensures JoinedPayload(d, c) == Ok(joined) && Encode.DocumentHash(joined, c) != First(d).meta.documentHash ==>
      Reconstruct(d, c) == Err(QRDecodeError(ChecksumMismatch))
  {
    DictSize(d);
  }

  /** The first half of `_reconstruct_document_payload`: fill the gaps with zero fragments and sort by sequence number. */
  method GatherFragments(d: ContentDict) returns (sortedPayloads: seq<Bytes>, droppedCodeInds: seq<int>)
    requires WellFormed(d) && |d.order| > 0
    ensures sortedPayloads == SortedPayloads(d)
    ensures droppedCodeInds == MissingBelow(d.entries.Keys, First(d).meta.totalQrCodes)
  {
    var totalQrCodes := d.entries[d.order[0]].meta.totalQrCodes;
    var maxPayloadLen := MaxFragmentLength(d.order, d.entries);
    var docFragments, keyOrder;
    docFragments, keyOrder, droppedCodeInds := FillMissing(d, totalQrCodes, maxPayloadLen);
    SortedKeysFilled(d, totalQrCodes, maxPayloadLen);
    var sortedKeys := SortInts(keyOrder);
    sortedPayloads := seq(|sortedKeys|, i requires 0 <= i < |sortedKeys| => docFragments[sortedKeys[i]]);
  }

  /** `_reconstruct_document_payload` */
  method ReconstructDocumentPayload(d: ContentDict, c: Codecs) returns (r: Result<DocumentPayload, DecodeError>)
    requires WellFormed(d)
    ensures r == Reconstruct(d, c)
  {
    DictSize(d);
    if |d.order| == 0 {
      return Err(EmptyContents);
    }
    var firstContent := d.entries[d.order[0]];
    var totalQrCodes := firstContent.meta.totalQrCodes;
    var numEcc := firstContent.meta.numEcc;
    var minQrsNeeded := totalQrCodes - numEcc;
    if |d.entries| < minQrsNeeded {
      return Err(QRDecodeError(InsufficientPayloads(minQrsNeeded, |d.entries|)));
    }
    var sortedPayloads, droppedCodeInds := GatherFragments(d);
    assert First(d) == firstContent && SufficientDecodes(d);
    if numEcc > 0 {
      var fixedSymbols := DecodeColumns(Zip(sortedPayloads), droppedCodeInds, numEcc, c);
      if fixedSymbols.None? {
        JoinFailureRaised(d, c);
        return Err(ReedSolomonError);
      }
      sortedPayloads := Zip(fixedSymbols.value);
    }
    var totalPayloadBytes := Join(sortedPayloads);
    assert JoinedPayload(d, c) == Ok(totalPayloadBytes);
    if Encode.DocumentHash(totalPayloadBytes, c) != firstContent.meta.documentHash {
      ChecksumMismatchRejected(d, c, totalPayloadBytes);
      return Err(QRDecodeError(ChecksumMismatch));
    }
    ReconstructSucceeds(d, c, totalPayloadBytes);
    var output := DocumentValidateCompressedBytes(totalPayloadBytes, c);
    if output.Err? {
      return Err(PayloadError(output.error));
    }
    r := Ok(output.value);
  }
}

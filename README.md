# qrdm fragment protocol, modelled in Dafny

qrdm turns a text document into a PDF of QR codes and back. This project
models the part of qrdm that sits between the real codecs:

- how the compressed document (the *blob*) is cut into equal, NUL-padded
  fragments that each fit one QR code;
- how the parity fragments are computed column by column;
- how every fragment is stamped with its envelope metadata
  `(document_hash, sequence_number, total_qr_codes, num_ecc)`;
- how the decoder rebuilds the sequence-number map from the scanned codes,
  fills the gaps, runs the erasure decoder and checks the digest;
- the record types and the order in which their dump/parse pairs call the
  codecs;
- the page layout: the stable largest-first ordering of the codes, the
  typewriter-style packing of the codes into rows and pages, and the
  splitting of the caption across pages.

The codecs are kept abstract. zlib, SHAKE-256, json, UTF-8, protobuf,
base85 and Reed-Solomon are fields of the `Codecs` datatype
(`codecs.dfy`). The laws the proofs rely on are ghost predicates taken as
preconditions:

- SHAKE-256 returns the requested number of bytes;
- zlib output is non-empty and decompression ignores trailing NULs;
- json, UTF-8, protobuf and base85 each parse back what they dump;
- Reed-Solomon encoding with 1 to 254 parity symbols succeeds, and
  messages of equal length give codewords of equal length (`RsCodewords`);
- Reed-Solomon erasure decoding recovers the message from up to `num_ecc`
  erased positions inside the codeword (`RsRecoversErasures`);
- separately, and only for the lemma that needs it, a message that fits one
  255-symbol block leads its codeword (`RsPrefix`).

Files and modules:

| file | module | models |
|---|---|---|
| `wrappers.dfy` | `Wrappers` | `Option` and `Result` |
| `byte_rows.dfy` | `ByteRows` | bytes, NUL padding and stripping, `b"".join`, the `zip(*rows)` transposition |
| `codecs.dfy` | `Codecs` | the abstract codecs, the protobuf messages and the assumed laws |
| `models.dfy` | `Models` | `QRMeta`, `QRContent`, `DocumentPayload` (`qrdm/models.py`) |
| `encode.dfy` | `Encode` | `qrdm/qr/encode.py` |
| `decode.dfy` | `Decode` | `qrdm/qr/decode.py` |
| `pdf_writer.dfy` | `PdfWriter` | `qrdm/qr/pdf_writer.py` |
| `round_trip.dfy` | `RoundTrip` | the end-to-end theorem that connects encoding and decoding |

The end-to-end theorem is `RoundTrip.EncodeDecodeRoundTrip`. Suppose
`generate_qr_payloads` succeeds and the codecs obey their laws. Scan any
non-empty sequence of the produced payloads, in any order and with
repetitions, that covers at least `total_qr_codes - num_ecc` distinct codes.
Then `_parse_qr_contents` succeeds, and `_reconstruct_document_payload`
returns the original document.

Python semantics that the model writes out explicitly:

- A dict remembers insertion order. `ContentDict` keeps the key order
  beside the map, because `next(iter(d.values()))` reads the entry of the
  first key inserted.
- `zip` stops at the shortest row.
- A slice accepts negative bounds that count from the end and clamps out of
  range bounds (`PySlice`).
- `next(iter(...))` on an empty dict raises `StopIteration`
  (`DecodeError.EmptyContents`).
- The protobuf constructor rejects metadata values too wide for their
  uint64/uint32 fields.

The methods follow the loops of the source: `SplitFileContent`,
`DumpEnvelopes`, `GenerateQrPayloads`, `ParseQrContents`, `FillMissing`,
`GatherFragments`, `ReconstructDocumentPayload`, `GetQrPositionsPerPage` and
`PlaceCode`. Each one is proved equal to a specification function, or is
proved to meet a specification predicate. The lemmas state the properties
of those functions.

Where the documentation of the code and the code differ, the model follows
the code:

- A blob that fits in one code is sent unpadded.
- Fragments are not grouped by document hash: the first entry's metadata
  decides for the whole dict.
- Any payload that cannot be parsed is fatal.

## Model

| member | source | states |
|---|---|---|
| ByteRows.Zeros | src/qrdm/qr/encode.py:289 | `b"\0" * n` has length `n` and every byte is 0 |
| ByteRows.StripNul | src/qrdm/qr/decode.py:199 | the result is the slice of the input left after removing only NULs from the front and only NULs from the back, and it starts and ends with a non-NUL byte unless empty |
| ByteRows.StripNulPadding | src/qrdm/qr/encode.py:196 | appending any number of NULs never changes `strip(b"\0")`, so padding cannot change the digest |
| ByteRows.JoinUniformLength | src/qrdm/qr/decode.py:196 | joining `n` rows of width `w` gives `n * w` bytes |
| ByteRows.Zip | src/qrdm/qr/encode.py:297 | `zip(*rows)`: column `j` holds byte `j` of every row in row order, there are as many columns as the shortest row has bytes, and no rows give no columns |
| ByteRows.ZipShape | src/qrdm/qr/decode.py:187 | transposing `n` rows of width `w > 0` gives `w` columns of length `n` |
| ByteRows.ZipZip | src/qrdm/qr/decode.py:187-193 | transposing twice gives back any non-empty matrix of equal-length non-empty rows |
| Models.NewQRMeta | src/qrdm/models.py:31-34 | construction succeeds exactly when `document_hash >= 0`, `sequence_number >= 0`, `total_qr_codes > 0` and `num_ecc >= 0`; otherwise it is a validation error; nothing ties the sequence number to the total |
| Models.QRMetaToProto | src/qrdm/models.py:46-47 | building the protobuf message succeeds exactly when the hash fits uint64 and the other fields fit uint32 |
| Models.QRMetaFromProto | src/qrdm/models.py:37-44 | metadata read from a message satisfies the field bounds |
| Models.QRContentOf | src/qrdm/models.py:54 | an envelope built without a fragment carries empty bytes |
| Models.QRContentToProto | src/qrdm/models.py:70-72 | succeeds exactly when `QRMeta._to_proto` does, and then carries that metadata message and the envelope's fragment |
| Models.QRContentValidateProtobufBytes | src/qrdm/models.py:56-62 | a parsed envelope satisfies the metadata bounds |
| Models.QRContentValidateB85Bytes | src/qrdm/models.py:64-68 | the base85 parse yields envelopes that satisfy the metadata bounds |
| Models.QRContentRoundTrip | src/qrdm/models.py:74-82 | dumping an envelope fails exactly when a field is too wide for the schema; otherwise base85 then protobuf parsing gives the envelope back |
| Models.QRContentDumpProtobufBytes | src/qrdm/models.py:74-77 | no contract of its own; `Models.QRContentRoundTrip` states that it fails exactly on out-of-range fields and that the protobuf parse inverts it |
| Models.QRContentDumpB85Bytes | src/qrdm/models.py:79-82 | no contract of its own; `Models.QRContentRoundTrip` states that it fails exactly on out-of-range fields and that `model_validate_b85_bytes` inverts it |
| Models.DocumentToProto | src/qrdm/models.py:110-118 | the data type is always UTF-8 text, the content is the UTF-8 encoding, and the metadata string is empty exactly when the metadata is `None` |
| Models.MetadataFromProto | src/qrdm/models.py:97-99 | empty metadata parses as `None`; non-empty metadata succeeds exactly when `json.loads` does, with its value |
| Models.DocumentFromProto | src/qrdm/models.py:100-102 | a data type other than UTF-8 text is refused with an unknown-data-type error once the metadata has been read; a success decodes the content and the metadata |
| Models.DocumentDumpProtobufBytes | src/qrdm/models.py:120-123 | no contract of its own; `Models.DocumentProtobufRoundTrip` states that `DocumentValidateProtobufBytes` inverts it |
| Models.DocumentDumpCompressedBytes | src/qrdm/models.py:125-128 | no contract of its own; `Models.DocumentCompressedRoundTrip` states that `DocumentValidateCompressedBytes` inverts it, whatever NULs follow |
| Models.DocumentValidateProtobufBytes | src/qrdm/models.py:92-102 | no contract of its own; a protobuf parse failure is an error, then `Models.DocumentFromProto`; `Models.DocumentProtobufRoundTrip` states it inverts the dump |
| Models.DocumentValidateCompressedBytes | src/qrdm/models.py:104-108 | no contract of its own; a zlib failure is an error, then the protobuf parse; `Models.DocumentCompressedRoundTrip` states it inverts the compressed dump |
| Models.DocumentProtobufRoundTrip | src/qrdm/models.py:92-123 | parsing the protobuf dump of a document gives the document back |
| Models.DocumentCompressedRoundTrip | src/qrdm/models.py:104-128 | parsing the compressed dump gives the document back, whatever number of NULs follow it |
| Encode.PayloadSize | src/qrdm/qr/encode.py:201-204 | the payload size is a multiple of 4 whose base85 expansion fits in the capacity left after the reserved bytes, and it is the largest such multiple |
| Encode.ChunksShape | src/qrdm/qr/encode.py:281-289 | there is at least one chunk; every chunk has exactly `maximum_length` bytes; the chunks join to the content followed by the fewest NULs that reach a multiple; empty content gives one all-NUL chunk |
| Encode.Chunks | src/qrdm/qr/encode.py:281-289 | no contract of its own; `_split_file_content` as a recursive function, whose behaviour `Encode.ChunksShape` states |
| Encode.SplitFileContent | src/qrdm/qr/encode.py:286-289 | the loop yields exactly the chunks `Chunks` describes |
| Encode.PayloadFragmentsShape | src/qrdm/qr/encode.py:206-215 | a blob that fits is sent as itself, unpadded; a longer one as at least two full-size chunks; the fragments share one length and join to the blob followed by NULs |
| Encode.PayloadFragments | src/qrdm/qr/encode.py:206-215 | no contract of its own; the single-code shortcut or the chunks, as `Encode.PayloadFragmentsShape` states |
| Encode.PlanParity | src/qrdm/qr/encode.py:218-234 | without parity `num_ecc` is 0 and the expected count is the raw count; with parity `num_ecc` is at most `max_ecc` and at most `ceil(n * e)`, and the expected count exceeds the raw count |
| Encode.EncodeColumns | src/qrdm/qr/encode.py:300-303 | it succeeds exactly when every column encodes, and result `j` is the codeword of column `j` |
| Encode.GenerateEcFragments | src/qrdm/qr/encode.py:292-306 | it fails exactly when some column fails to encode, and the failure is a `QREncodeError` |
| Encode.EcFragmentsShape | src/qrdm/qr/encode.py:297-303 | with 1 to 254 parity symbols parity generation succeeds, the rows keep their width, and there are at least as many as data rows |
| Encode.EcFragmentsKeepData | src/qrdm/qr/encode.py:297-303 | when a column fits one Reed-Solomon block (at most `255 - num_ecc` data rows), the first coded rows are also the data fragments unchanged |
| Encode.FromBytesBEBound | src/qrdm/qr/encode.py:199 | a big-endian integer of `k` bytes is below `256^k` |
| Encode.DocumentHash | src/qrdm/qr/encode.py:196-199 | the digest of 8 bytes read big-endian fits uint64 |
| Encode.DocumentHashPadding | src/qrdm/qr/encode.py:196 | NUL padding after the blob never changes the document hash |
| Encode.DumpAll | src/qrdm/qr/encode.py:266-269 | dumping all envelopes succeeds exactly when each one does, giving one payload per envelope in order |
| Encode.QrPayloads | src/qrdm/qr/encode.py:236-241 | an expected count of at least 2^32 raises `QREncodeError` before any envelope is built |
| Encode.MakePlan | src/qrdm/qr/encode.py:193-234 | no contract of its own; blob, hash, fragments and parity plan of `generate_qr_payloads`, described by `Encode.PayloadFragmentsShape`, `Encode.PlanParity` and `RoundTrip.CodedShape` |
| Encode.Label | src/qrdm/qr/encode.py:246-266 | no contract of its own; the enumerate loop's envelopes, which `Encode.EnvelopesLabelled` states read back as fragment `i` stamped with `i`, the hash, `num_ecc` and the total |
| Encode.EnvelopesLabelled | src/qrdm/qr/encode.py:246-266 | payload `i` parses back as fragment `i` with sequence number `i`, the shared document hash, the shared `num_ecc` and `total_qr_codes` equal to the number of payloads |
| Encode.GenerateQrPayloads | src/qrdm/qr/encode.py:185-278 | the method returns or raises exactly what `QrPayloads` specifies |
| Encode.DumpEnvelopes | src/qrdm/qr/encode.py:248-278 | the loop builds and dumps envelope `i` for fragment `i` and stops at the first failure |
| Encode.DumpAllPrefixFails | src/qrdm/qr/encode.py:267 | a failure while dumping a prefix is the failure of the whole dump |
| Decode.SortInts | src/qrdm/qr/decode.py:179 | sorting distinct keys gives an ascending sequence with the same elements |
| Decode.SortedRange | src/qrdm/qr/decode.py:179-180 | an ascending sequence of exactly the indices below `n` is `0, 1, ..., n - 1` |
| Decode.First | src/qrdm/qr/decode.py:155 | `next(iter(d.values()))` is the entry of the first key inserted |
| Decode.Insert | src/qrdm/qr/decode.py:263 | `d[key] = value` sets the entry; a new key goes last and an existing key keeps its place |
| Decode.ParseAll | src/qrdm/qr/decode.py:254-276 | parsing succeeds exactly when every payload parses, and any failure is `QRDecodeError`; the result is a well-formed dict |
| Decode.ParseStep | src/qrdm/qr/decode.py:257-263 | each parsed payload is stored under its own sequence number in the dict built so far |
| Decode.ParseKeys | src/qrdm/qr/decode.py:256-263 | the keys are exactly the sequence numbers of the parsed envelopes |
| Decode.ParseLastWins | src/qrdm/qr/decode.py:263 | a key holds the last parsed envelope carrying it: a later duplicate overwrites an earlier one |
| Decode.ParseFirstKey | src/qrdm/qr/decode.py:155 | the first key, whose entry supplies `total_qr_codes` and `num_ecc`, is the first parsed envelope's sequence number |
| Decode.ParseConsistent | src/qrdm/qr/decode.py:256-263 | when equal sequence numbers carry equal envelopes, each envelope is found under its own sequence number |
| Decode.ParseQrContents | src/qrdm/qr/decode.py:254-276 | the loop returns or raises exactly what `ParseAll` specifies |
| Decode.ParseAllPrefixFails | src/qrdm/qr/decode.py:259-262 | a payload that fails to parse makes the whole parse fail |
| Decode.SufficientDecodes | src/qrdm/qr/decode.py:320-330 | false for an empty dict; otherwise true exactly when the count is at least `total_qr_codes - num_ecc` of the first entry |
| Decode.MissingBelow | src/qrdm/qr/decode.py:337 | the result is ascending and holds exactly the indices below the bound that are not keys |
| Decode.ListMissingQrCodes | src/qrdm/qr/decode.py:333-337 | an empty dict raises `StopIteration`; otherwise the result is exactly the absent indices in `[0, total)`, ascending |
| Decode.MissingBelowSize | src/qrdm/qr/decode.py:333-337 | with all keys below `total`, `total - count` indices are missing |
| Decode.MaxFragmentLength | src/qrdm/qr/decode.py:170 | the result is at least every fragment length and equal to one of them |
| Decode.FilledFragmentsSpec | src/qrdm/qr/decode.py:172-177 | after the loop the keys are the received keys plus `range(total)`; received fragments are unchanged; every missing index holds `max_payload_len` zeros |
| Decode.FillMissing | src/qrdm/qr/decode.py:172-177 | the loop computes the filled fragments; `dropped_code_inds` lists the missing indices in ascending order; the key order is the received keys, then the gaps |
| Decode.FilledKeysDistinct | src/qrdm/qr/decode.py:167-177 | the filled dict's keys are distinct and are the received keys plus `range(total)` |
| Decode.SortedFilledKeys | src/qrdm/qr/decode.py:179 | with every key below `total`, the sorted keys of the filled dict are `0, ..., total - 1` |
| Decode.SortedPayloadsIndexed | src/qrdm/qr/decode.py:179-180 | with every key below `total`, sorted payload `i` is received fragment `i`, or the zero fragment when `i` was not received |
| Decode.DecodeColumns | src/qrdm/qr/decode.py:189-192 | it succeeds exactly when every column decodes, and result `j` is the decode of column `j` with the dropped positions as erasures |
| Decode.NoParityJoinIsConcatenation | src/qrdm/qr/decode.py:185-196 | with `num_ecc == 0` the join is the concatenation of the sorted payloads and no codec affects it |
| Decode.JoinedPayload | src/qrdm/qr/decode.py:185-196 | no contract of its own; the erasure-decoded or plain join, which `Decode.NoParityJoinIsConcatenation`, `Decode.JoinFailureRaised` and `RoundTrip.DecodedJoin` describe |
| Decode.Reconstruct | src/qrdm/qr/decode.py:151-214 | an empty dict raises `StopIteration`; fewer than `total - num_ecc` entries raise `QRDecodeError` with both numbers; a success has a join whose digest matches and whose payload parse is the result |
| Decode.ReconstructSucceeds | src/qrdm/qr/decode.py:203-214 | with enough codes, a join and a matching digest, the result is the payload parse of the join, error or document |
| Decode.JoinFailureRaised | src/qrdm/qr/decode.py:185-193 | a failed erasure decoding is what reconstruction raises |
| Decode.ChecksumMismatchRejected | src/qrdm/qr/decode.py:199-208 | a digest mismatch over the stripped join raises `QRDecodeError` |
| Decode.GatherFragments | src/qrdm/qr/decode.py:167-180 | the method gives the gap-filled fragments in sequence-number order and the ascending erasure positions |
| Decode.ReconstructDocumentPayload | src/qrdm/qr/decode.py:151-214 | the method returns or raises exactly what `Reconstruct` specifies |
| PdfWriter.InsertByVersion | src/qrdm/qr/pdf_writer.py:140-142 | inserting a new index into a largest-first order keeps it largest-first and stable, and adds exactly that index |
| PdfWriter.SortBySize | src/qrdm/qr/pdf_writer.py:140-142 | the order holds exactly the indices, largest version first, equal versions in index order |
| PdfWriter.CodeSizeOrder | src/qrdm/qr/pdf_writer.py:138-142 | the code size order is a permutation of the indices, largest first and stable |
| PdfWriter.Reorder | src/qrdm/qr/pdf_writer.py:143 | position `i` holds the code at index `order[i]` |
| PdfWriter.ReorderPermutation | src/qrdm/qr/pdf_writer.py:143 | reordering by a permutation of the indices keeps the multiset of codes |
| PdfWriter.SortedCodes | src/qrdm/qr/pdf_writer.py:138-143 | the sorted codes are the input codes, each exactly once |
| PdfWriter.MinY | src/qrdm/qr/pdf_writer.py:173-179 | the lower edge is 4.75 inch with a caption and 0.75 inch without |
| PdfWriter.GetQrPositionsPerPage | src/qrdm/qr/pdf_writer.py:166-214 | a success has one position per code in input order, each inside the region; the first code is at the top left; each next code is placed by the cursor rules; page ranges partition the codes (a single `(0, 0)` page when there are none) and a page starts exactly where the rules open one. Codes of non-increasing height that each fit a blank page always succeed. With non-negative sizes, a success means every code fits a blank page. A failure names a code that, with all codes before it placed by the rules, lies outside the region at the position the rules give it |
| PdfWriter.PlaceCode | src/qrdm/qr/pdf_writer.py:187-211 | the method gives the cursor move (same row, new row, new page), the position it leads to, and whether the code fits there |
| PdfWriter.SortedCodesFit | src/qrdm/qr/pdf_writer.py:136-137 | codes sorted by non-increasing height that each fit a blank page always fit where the cursor puts them |
| PdfWriter.LayoutStep | src/qrdm/qr/pdf_writer.py:186-209 | placing one code keeps the cursor, placement, paging and bound invariants |
| PdfWriter.PagesGrow | src/qrdm/qr/pdf_writer.py:196-200 | extending the open page or opening a new one keeps a partition of the codes and adds a page start only for a new page |
| PdfWriter.PartitionEnds | src/qrdm/qr/pdf_writer.py:213 | every page of a partition of `0..n` lies within `0..n` |
| PdfWriter.FinishedLayout | src/qrdm/qr/pdf_writer.py:213-214 | closing the open page at `len(reportlab_qrs)` completes a valid layout |
| PdfWriter.EmptyLayout | src/qrdm/qr/pdf_writer.py:186-214 | with no codes the only valid layout is the one page `(0, 0)` and no positions, as the loop is skipped and the final append runs once |
| PdfWriter.SliceBound | src/qrdm/qr/pdf_writer.py:225 | a bound within the sequence is kept, a negative one counts from the end, a bound past the end becomes the length and one before the start becomes 0 |
| PdfWriter.PySlice | src/qrdm/qr/pdf_writer.py:225 | `s[lo:hi]` is the sub-sequence between the resolved bounds, empty when they cross |
| PdfWriter.Breakpoints | src/qrdm/qr/pdf_writer.py:223 | break points are the multiples of `MAX_CHAR_LIMIT` below the length, followed by `-1` |
| PdfWriter.ChunksFromJoin | src/qrdm/qr/pdf_writer.py:224-227 | the chunks from a break point on join to the rest of the caption without its final character |
| PdfWriter.ChunkLengths | src/qrdm/qr/pdf_writer.py:224-227 | every chunk except the last has `MAX_CHAR_LIMIT` characters, and the last has fewer |
| PdfWriter.SplitTextChunks | src/qrdm/qr/pdf_writer.py:223-227 | the comprehension over the break points yields the chunks, the last slice ending at `-1` |
| PdfWriter.SplitTextShape | src/qrdm/qr/pdf_writer.py:217-228 | an empty caption gives no pages; otherwise there are `ceil(len / MAX_CHAR_LIMIT)` pages, all full but the last, which is shorter, and together they are the caption without its final character |
| PdfWriter.SplitTextAcrossPages | src/qrdm/qr/pdf_writer.py:217-228 | no contract of its own; `_split_text_across_pages` after `repr`, whose behaviour `PdfWriter.SplitTextShape` and `PdfWriter.SplitTextChunks` state |
| RoundTrip.ParityColumns | src/qrdm/qr/encode.py:297-303 | with a lawful codec and 1 to 254 parity symbols, parity generation succeeds; the coded rows have the data width; column `j` of the coded rows is the codeword of data column `j` |
| RoundTrip.CodedShape | src/qrdm/qr/encode.py:193-215 | the fragments are non-empty, of one non-zero width, and join to the blob followed by NULs; `num_ecc < 255` |
| RoundTrip.CodedColumns | src/qrdm/qr/encode.py:243-244 | the coded rows are the data rows without parity, and the parity-extended rows of the same width otherwise |
| RoundTrip.EncodedBlock | src/qrdm/qr/encode.py:185-278 | a successful encoding: the shape of its fragments and coded rows, and each payload parsing back as its labelled envelope |
| RoundTrip.ScanParsed | src/qrdm/qr/decode.py:254-276 | scanning labelled payloads in any order, with repetitions, gives a dict of exactly the scanned indices, each holding its own envelope, with the first scanned one first |
| RoundTrip.LabelledDict | src/qrdm/qr/decode.py:155-157 | a dict of labelled envelopes holds the coded rows under their indices, and its first entry carries the encoder's totals |
| RoundTrip.MaxLengthIsWidth | src/qrdm/qr/decode.py:170 | received rows of one width make that width the zero-fragment length |
| RoundTrip.SortedReceived | src/qrdm/qr/decode.py:179-180 | the sorted payloads have the coded width, and every received position holds its coded row |
| RoundTrip.SortedComplete | src/qrdm/qr/decode.py:179-180 | with every code received, the sorted payloads are the coded rows |
| RoundTrip.JoinWithoutParity | src/qrdm/qr/decode.py:196 | with every code received and no parity, the join is the concatenation of the coded rows |
| RoundTrip.SortedErasures | src/qrdm/qr/decode.py:172-180 | with at least `total - num_ecc` codes received, at most `num_ecc` positions are erased and all others hold their coded rows |
| RoundTrip.ColumnErased | src/qrdm/qr/decode.py:187-190 | each received column is its codeword with only the dropped positions changed |
| RoundTrip.ColumnsDecode | src/qrdm/qr/decode.py:187-193 | decoding every received column recovers the data columns |
| RoundTrip.JoinWithParity | src/qrdm/qr/decode.py:185-196 | with parity and at least `total - num_ecc` codes received, the join is the concatenation of the data fragments |
| RoundTrip.DecodedJoin | src/qrdm/qr/decode.py:185-196 | with or without parity, enough received codes give the joined data fragments |
| RoundTrip.PickedConsistent | src/qrdm/qr/decode.py:263 | envelopes stamped with their own index that share a sequence number are equal, so a repeated scan stores the same envelope again |
| RoundTrip.PickedSeqNums | src/qrdm/qr/decode.py:263 | the sequence numbers of the scanned envelopes are exactly the picked indices |
| RoundTrip.Labels | src/qrdm/qr/encode.py:249-266 | envelope `k` is coded row `k` stamped with hash, index `k`, total and `num_ecc` |
| RoundTrip.EncodeDecodeRoundTrip | src/qrdm/qr/decode.py:151-214 | the payloads `generate_qr_payloads` produced, scanned in any order and with repetitions and covering at least `total - num_ecc` codes, parse and reconstruct to the original document |

## Left out

- Reed-Solomon internals: the GF(2^8) arithmetic and the block structure live in `reedsolo`. The model assumes only `RsCodewords` and `RsRecoversErasures`. `reedsolo` encodes a column of more than `255 - num_ecc` symbols block by block, each block followed by its own parity, so the prefix law `RsPrefix` is stated only for messages that fit one block and is not among the laws of the end-to-end theorem.
- Encode.EcFragmentsKeepData: the "data rows first" clause holds only when there are at most `255 - num_ecc` data fragments, and the lemma requires that; with more fragments the coded rows interleave data and parity blocks, which the model does not describe.
- SHAKE-256, zlib, json, UTF-8, protobuf serialisation and base85 are abstract functions with assumed laws, not implementations.
- Encode.PlanParity: `EC_CODE_PROPORTION`, `max_ecc = ceil(256 * e / (1 + e))` and `ceil(n * e)` are floating point. They are parameters (`maxEcc`, `eccFor`), so the contract states only the bounds that follow from `min`. The `n * (1 + e) >= 256` warning has no effect on the result and is left out.
- Encode.ValidParams: `QR_CAPACITIES` and `PROTOBUF_RESERVED_LEN` come from a CSV file and a generated protobuf module, so they are parameters. The model requires a positive payload size, because otherwise the loop of `_split_file_content` does not terminate. It also requires `max_ecc < 255`, so that a Reed-Solomon block keeps room for data; the shipped proportion 0.2 gives 43.
- PdfWriter.CaptionText: `repr` is not modelled; its result is an input (`reprText`), and the model captures only the slicing after it.
- PdfWriter.GetQrPositionsPerPage: coordinates are exact `real`s, not floating point, so rounding in the comparisons is not captured. The code heights and widths are inputs; SVG rendering and `svg2rlg` are not part of this model.
- PdfWriter.SortBySize: the QR `version` of each code is an input; computing it (`QRCode.make`) is not part of this model.
- PDF rendering and canvas drawing are not modelled: `generate_pdf_pages`, header and footer, the caption drawing, the overflow notice, timestamps and filename labels.
- Page rasterisation, pyzbar decoding, image blurring and the retry loop of `_batch_filter_and_decode_qr_imgs` are not modelled; the scanned payloads are an input.
- The thread pools in decode.py are not modelled, because the model has no concurrency.
- Charset detection in `get_file_content` is not modelled; the document text is an input.
- File and stream I/O in the top-level encode and decode wrappers is not modelled.
- Logging and structlog context are not modelled, because they do not affect results.
- `generate_qr_codes` and the QR symbol encoding itself are not modelled.

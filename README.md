# NF-e distribution client: a Dafny model

The repository has two command-line scripts for the Brazilian electronic-invoice
distribution service (NFeDistribuicaoDFe).

- `consultar_distribuicao.py`, the sync script, runs in these steps:
  - It validates the taxpayer's CNPJ (14 digits once separators are removed).
  - It loads the persisted cursor (`ultNSU`) from a JSON file. The default is fifteen zeros.
  - It builds a `distDFeInt` request and saves it.
  - It wraps the request in a SOAP 1.1 envelope and posts it.
  - It saves the raw response as `resposta_<cursor>_<timestamp>.xml`.
  - When the response carries a non-empty `ultNSU`, it overwrites the cursor file with that value.
- `extrair_documentos.py`, the extractor, runs in these steps:
  - It lists the saved responses, or takes the one file named by `--input`.
  - It finds every `docZip` element in the nfe namespace.
  - It decodes each one's Base64 text (section 4 of RFC 4648) and gunzips the bytes.
  - It writes each document as `<NSU>_<schema>.xml` into the output folder.

The two scripts meet only through the file system. The model has one `FileSystem`
class, whose `files` field maps a path to a `File`, and both scripts run against it.
XML parsing is one shared parameter `parse`.

Modules:

- `Wrappers`: `Option` and `Result`.
- `Strings`: the Python string operations both scripts use: `re.sub(r"\D", "", s)`,
  `str.strip()`, `lower().endswith`, `replace`, `str(n)` and POSIX `os.path.join`.
- `XmlTree`: an immutable `Element` tree with lxml's `find` and `findall` on `.//p:name`.
  It also has a `Document` class, the mutable tree that `etree.Element` and
  `etree.SubElement` build one node at a time.
- `Files`: file contents, and the `FileSystem` class.
- `Base64`: the encoder and strict decoder of RFC 4648 section 4, and
  `base64.b64decode` in its default non-validating mode. That mode is the left-to-right
  scan of CPython's `binascii.a2b_base64` (CPython 3.11 and later).
- `ConsultarDistribuicao`: the sync script. Each helper is a function or a method, and
  `main` is the method `Sync`, specified by the function `SyncCycle`.
- `ExtrairDocumentos`: the extractor. Its two loops are methods, `WriteDocZips` and
  `ExtractFiles`, specified by `Outputs`/`ApplyOutputs` and `ExtractAll`. `main` is the
  method `ExtractMain`, specified by the function `Extraction`.

Points where the model follows the code closely:

- The loaded cursor is never format-checked. A JSON `null` gives the request an empty
  `ultNSU` and names the response `resposta_None_...`. A non-string value makes lxml
  raise `TypeError` (`RequestRefused(CursorNotText(..))`).
- lxml refuses, with `ValueError`, a text that is not XML character data (the Char
  production of section 2.2 of XML 1.0), such as a control character in the cursor,
  `--uf-autor` or `--tp-amb`. The run then stops before the request file is written
  (`RequestRefused(TextRefused(..))`).
- `extrair_ult_nsu` consults only the first `ultNSU` in document order. A whitespace-only
  text gives `""`, which `main` treats as "no cursor".
- The response is saved, named with the old cursor, before it is parsed. It is saved even
  when it does not parse.
- The new cursor is saved whether it is larger than the old one or not. There is no
  monotonicity check (`CursorMayGoBack`).
- The extractor only creates `--outdir`. Documents always go to the folder read from the
  `PASTA_EXTRAIDOS` variable (`PASTA_SAIDA` in the code). Responses are listed from the
  folder read from the `PASTA_SAIDA` variable.
- A response that cannot be opened or parsed ends the whole extraction, uncaught. The
  documents already written stay written, and the remaining files are not read. A
  `docZip` that is empty or fails to decode is skipped.

## Model

| member | source | states |
|---|---|---|
| Strings.OnlyDigits | src/consultar_distribuicao.py:34 | the result contains only ASCII digits and is no longer than the input |
| Strings.OnlyDigitsAppend | src/consultar_distribuicao.py:34 | removing non-digits from a concatenation removes them from each part, so digits keep their order |
| Strings.OnlyDigitsKeepsEveryDigit | src/consultar_distribuicao.py:34 | each digit occurs in the result exactly as often as in the input; no other character occurs at all |
| Strings.OnlyDigitsOfDigits | src/consultar_distribuicao.py:34 | a string of digits is left unchanged |
| Strings.DropSeparator | src/consultar_distribuicao.py:34 | a separator between a digit run and the rest is dropped |
| Strings.LeadingSpaces | src/consultar_distribuicao.py:104 | the length of the maximal whitespace run starting the string |
| Strings.TrailingSpaces | src/consultar_distribuicao.py:104 | the length of the maximal whitespace run ending the string |
| Strings.Strip | src/consultar_distribuicao.py:104 | `str.strip()`: the result is a slice whose cut-off ends are all whitespace; it is empty iff the input is all whitespace; otherwise it neither starts nor ends with whitespace |
| Strings.StripUnpadded | src/extrair_documentos.py:45 | a string with no whitespace at either end is its own strip |
| Strings.Lower | src/extrair_documentos.py:25 | lower-casing keeps the length (characters are mapped one by one) |
| Strings.ReplaceChar | src/extrair_documentos.py:57 | every occurrence of the character is replaced; every other character and the length stay the same |
| Strings.DigitChar | src/extrair_documentos.py:43 | a value below ten becomes a digit character |
| Strings.NatToString | src/extrair_documentos.py:43 | `str(idx)`: a non-empty digit string with no leading zero unless the value is 0 |
| Strings.NatToStringValue | src/extrair_documentos.py:43 | the numeral's value is the number it was made from (round trip) |
| Strings.JoinEndsWith | src/extrair_documentos.py:58 | `os.path.join(dir, name)` ends with name |
| XmlTree.DescendantsOfContains | src/extrair_documentos.py:33 | every element of a child list is among the descendants `.//` ranges over |
| XmlTree.Matching | src/extrair_documentos.py:33 | filtering by name yields no more elements than it was given |
| XmlTree.MatchingMembers | src/extrair_documentos.py:33 | `findall` yields exactly the descendants with that namespace and local name |
| XmlTree.FirstMatch | src/consultar_distribuicao.py:103 | the first position holding the name, with none before it; None iff no position holds it |
| XmlTree.FindIsFirstOfFindAll | src/consultar_distribuicao.py:103 | `find` is None iff `findall` is empty; otherwise it is the head of `findall` |
| XmlTree.FirstMatchIsHead | src/consultar_distribuicao.py:103 | the element at the first match is the head of the matches |
| XmlTree.FirstMatchAt | src/consultar_distribuicao.py:103 | the first named position determines the first match |
| XmlTree.Document.constructor | src/consultar_distribuicao.py:56 | `etree.Element` makes a document holding only the root, with its attributes |
| XmlTree.Document.SubElement | src/consultar_distribuicao.py:57-61 | a new empty element is appended as the parent's last child; nothing else changes and the tree stays well formed |
| XmlTree.Document.SetText | src/consultar_distribuicao.py:57-61 | `.text = t` succeeds iff t is None or XML character data, and then changes the text of that element only; a refused text leaves the document unchanged |
| Files.FileSystem.Write | src/extrair_documentos.py:60-61 | the file at the path is created or overwritten; every other file is unchanged |
| Base64.CharOf | src/extrair_documentos.py:52 | a 6-bit value maps to an alphabet character (Table 1 of RFC 4648) |
| Base64.ValueOf | src/extrair_documentos.py:52 | an alphabet character maps to a 6-bit value that CharOf maps back to it |
| Base64.ValueOfCharOf | src/extrair_documentos.py:52 | CharOf and ValueOf are inverse on 0..63 |
| Base64.Sextet | src/extrair_documentos.py:52 | a byte below 64 encodes to an alphabet character |
| Base64.SextetValue | src/extrair_documentos.py:52 | an alphabet character decodes to a byte below 64 |
| Base64.SextetRoundTrip | src/extrair_documentos.py:52 | each sextet survives encoding and decoding |
| Base64.EncodeGroup | src/extrair_documentos.py:52 | a 24-bit group becomes four characters |
| Base64.Encode | src/extrair_documentos.py:52 | the encoding has 4 * ceil(n/3) characters, each from the alphabet or '=' |
| Base64.DecodeGroup | src/extrair_documentos.py:52 | four alphabet characters decode to three bytes; anything else is refused |
| Base64.DecodeFinal | src/extrair_documentos.py:52 | a final quantum ending in "==" or "=" decodes to one or two bytes, otherwise to three |
| Base64.Decode | src/extrair_documentos.py:52 | a string that decodes has a length that is a multiple of 4, and decodes to between 3k-2 and 3k bytes for k quanta |
| Base64.GroupRoundTrip | src/extrair_documentos.py:52 | one full group survives encoding and decoding |
| Base64.OneByteRoundTrip | src/extrair_documentos.py:52 | a single byte survives encoding ("xx==") and decoding |
| Base64.TwoByteBits | src/extrair_documentos.py:52 | the bit arithmetic of a "xxx=" quantum recovers both bytes |
| Base64.DecodePaddedOnce | src/extrair_documentos.py:52 | a "xxx=" quantum decodes to the two bytes its sextets carry |
| Base64.TwoByteRoundTrip | src/extrair_documentos.py:52 | two bytes survive encoding ("xxx=") and decoding |
| Base64.GroupThenRest | src/extrair_documentos.py:52 | if the rest survives the round trip, so does the rest preceded by one full group |
| Base64.DecodeEncode | src/extrair_documentos.py:52 | decoding inverts encoding for every byte sequence |
| Base64.KeptChars | src/extrair_documentos.py:52 | the characters the non-validating scan does not skip: alphabet characters and '=' only |
| Base64.B64Decode | src/extrair_documentos.py:52 | `b64decode` refuses a string with a non-ASCII character; otherwise it is the `a2b_base64` scan from the start of a quantum |
| Base64.A2bIgnoresOthers | src/extrair_documentos.py:52 | characters outside the alphabet and '=' make no difference to the scan, wherever they occur and in any state |
| Base64.ThenThen | src/extrair_documentos.py:52 | output bytes accumulate in order |
| Base64.A2bStep | src/extrair_documentos.py:52 | an alphabet character at position 1 to 3 of a quantum outputs one byte from the leftover bits and its own high bits |
| Base64.Bytes3Emitted | src/extrair_documentos.py:52 | the strict decoder's three bytes are the bytes the scan outputs at positions 1 to 3 |
| Base64.A2bFrom2 | src/extrair_documentos.py:52 | the last two characters of a quantum output its last two bytes |
| Base64.A2bFrom1 | src/extrair_documentos.py:52 | the last three characters of a quantum output its three bytes |
| Base64.A2bGroup | src/extrair_documentos.py:52 | four alphabet characters at the start of a quantum output the strict decoding of that group, and the scan goes on at the next quantum |
| Base64.A2bPad | src/extrair_documentos.py:52 | a '=' at position 2 or 3 ends decoding when it completes the quantum and is otherwise counted |
| Base64.A2bPaddedTwice | src/extrair_documentos.py:52 | "xx==" at the start of a quantum outputs one byte and ends decoding, whatever follows |
| Base64.A2bPaddedFrom2 | src/extrair_documentos.py:52 | "x=" at position 2 outputs one byte and ends decoding |
| Base64.A2bPaddedOnce | src/extrair_documentos.py:52 | "xxx=" at the start of a quantum outputs two bytes and ends decoding, whatever follows |
| Base64.A2bPadded | src/extrair_documentos.py:52 | a padded final quantum decodes as the strict decoder decodes it, and what follows is ignored |
| Base64.A2bAgreesWithDecode | src/extrair_documentos.py:52 | on every strict section-4 encoding the lenient scan gives the strict decoding |
| Base64.QuantumKept | src/extrair_documentos.py:52 | an accepted quantum holds only alphabet characters and '=' |
| Base64.DecodedIsAscii | src/extrair_documentos.py:52 | every strict section-4 encoding is ASCII |
| Base64.B64DecodeAgrees | src/extrair_documentos.py:52 | `b64decode` agrees with the strict decoder wherever that one succeeds |
| Base64.B64DecodeEncode | src/extrair_documentos.py:52 | `b64decode(b64encode(x)) == x` |
| Base64.GroupABC | src/extrair_documentos.py:52 | the group "QUJD" carries the bytes of "ABC" |
| Base64.B64DecodeOnlyPadding | src/extrair_documentos.py:52 | "====" decodes to no bytes, where the strict decoder refuses it |
| Base64.B64DecodeSurplusPad | src/extrair_documentos.py:52 | a '=' after a complete group is ignored: "QUJD=" decodes to "ABC", where the strict decoder refuses it |
| Base64.B64DecodeLeadingPad | src/extrair_documentos.py:52 | a '=' at the start of a quantum is skipped: "=QUJD" decodes to "ABC" |
| Base64.B64DecodeStopsAtPad | src/extrair_documentos.py:52 | decoding stops at the '=' that completes a quantum: "QQ===" and "QQ==QUJD" both decode to "A" |
| ConsultarDistribuicao.ValidateCnpj | src/consultar_distribuicao.py:33-37 | succeeds iff the input has exactly 14 digits, and then returns those digits; otherwise fails with the digits found |
| ConsultarDistribuicao.ValidateCnpjIdempotent | src/consultar_distribuicao.py:33-37 | validating a validated CNPJ gives it back |
| ConsultarDistribuicao.ValidateCnpjFormatted | src/consultar_distribuicao.py:33-37 | the punctuated form `aa.bbb.ccc/dddd-ee` is accepted as its 14 digits |
| ConsultarDistribuicao.ValidateCnpjRefusesShort | src/consultar_distribuicao.py:33-37 | a short CNPJ, an empty one and a missing one are refused |
| ConsultarDistribuicao.StoredJson | src/consultar_distribuicao.py:40-43 | a value is read iff the file exists, is readable and holds JSON, and then it is what the file holds |
| ConsultarDistribuicao.LoadNsu | src/consultar_distribuicao.py:39-47 | the "ultNSU" field of a stored JSON object, of any JSON type; fifteen zeros when the file is missing, unreadable, not JSON, not an object or has no such field |
| ConsultarDistribuicao.SaveNsu | src/consultar_distribuicao.py:49-51 | the cursor file is overwritten with `{"ultNSU": v}` and loads back as v |
| ConsultarDistribuicao.LoadNsuUnaffected | src/consultar_distribuicao.py:39-47 | writing any other file leaves the loaded cursor as it was |
| ConsultarDistribuicao.RequestAccepted | src/consultar_distribuicao.py:54-62 | `montar_xml_dist_dfe` returns iff every text is XML character data and the cursor is a string or None, and then returns the request tree carrying the cursor |
| ConsultarDistribuicao.DigitsAreXmlText | src/consultar_distribuicao.py:59 | a validated CNPJ is never refused as text |
| ConsultarDistribuicao.BuildFields | src/consultar_distribuicao.py:56-59 | the root and its three text fields, built in the order tpAmb, cUFAutor, CNPJ; the first text lxml refuses names the failure |
| ConsultarDistribuicao.BuildRequest | src/consultar_distribuicao.py:54-62 | the document built step by step fails exactly as RequestOutcome does; otherwise it is the request tree: distDFeInt (versao 1.01) with tpAmb, cUFAutor, CNPJ, and distNSU/ultNSU |
| ConsultarDistribuicao.RequestArena | src/consultar_distribuicao.py:54-62 | the six nodes left by the construction form that tree |
| ConsultarDistribuicao.RequestFields | src/consultar_distribuicao.py:54-62 | each field of the request is found by name and carries its argument unchanged; the cursor sits inside distNSU |
| ConsultarDistribuicao.RequestDescendants | src/consultar_distribuicao.py:54-62 | the request's elements in document order |
| ConsultarDistribuicao.LeafDescendants | src/consultar_distribuicao.py:60-61 | the descendants of a single child are that child and its descendants |
| ConsultarDistribuicao.ConsLeaf | src/consultar_distribuicao.py:57-59 | a childless element contributes only itself to the descendants |
| ConsultarDistribuicao.SaveXml | src/consultar_distribuicao.py:64-67 | the tree is written to the path; nothing else changes |
| ConsultarDistribuicao.SoapEnvelope | src/consultar_distribuicao.py:70-79 | the envelope is the fixed prefix, the message unchanged, then the fixed suffix |
| ConsultarDistribuicao.SoapEnvelopeTags | src/consultar_distribuicao.py:70-79 | after `.strip()` the envelope starts at `<soap:Envelope` and ends at `</soap:Envelope>` |
| ConsultarDistribuicao.FramedTags | src/consultar_distribuicao.py:70-79 | a text framed by a prefix and a suffix starts as the prefix starts and ends as the suffix ends |
| ConsultarDistribuicao.SoapPayloadEnvelope | src/consultar_distribuicao.py:70-79 | the message is recovered from an envelope exactly when the text is that message's envelope |
| ConsultarDistribuicao.SoapFrame | src/consultar_distribuicao.py:72-78 | the prefix opens the envelope and ends by opening nfeDadosMsg; the suffix closes nfeDadosMsg first and the envelope last |
| ConsultarDistribuicao.ExtractUltNsu | src/consultar_distribuicao.py:97-104 | a found cursor is empty or has no whitespace at either end |
| ConsultarDistribuicao.ExtractUltNsuFirst | src/consultar_distribuicao.py:103-104 | only the first `ultNSU` in document order counts: its stripped text if it has non-empty text, else None, whatever later ones hold |
| ConsultarDistribuicao.ExtractUltNsuAbsent | src/consultar_distribuicao.py:103-104 | no `ultNSU` gives None |
| ConsultarDistribuicao.ExtractUltNsuBlank | src/consultar_distribuicao.py:104 | a whitespace-only `ultNSU` gives the empty string |
| ConsultarDistribuicao.ResponseName | src/consultar_distribuicao.py:108 | the name has the cursor verbatim right after the 9-character prefix, and its length is fixed by the parts |
| ConsultarDistribuicao.ResponseNameShape | src/consultar_distribuicao.py:108 | the name starts with `resposta_` and ends with `.xml` |
| ConsultarDistribuicao.SaveResponse | src/consultar_distribuicao.py:106-112 | the text is written as `resposta_<cursor>_<timestamp>.xml` under the folder, and that path is returned |
| ConsultarDistribuicao.Sync | src/consultar_distribuicao.py:132-187 | `main` changes the files, and reports what it sent and how it ended, exactly as SyncCycle describes |
| ConsultarDistribuicao.SyncChecksCnpjFirst | src/consultar_distribuicao.py:138-142 | the run ends with InvalidCnpj iff the CNPJ is invalid, and then nothing is written or sent |
| ConsultarDistribuicao.ExchangeNeverInvalid | src/consultar_distribuicao.py:148-187 | once the request is built, the run never ends with InvalidCnpj |
| ConsultarDistribuicao.SyncSendsRequest | src/consultar_distribuicao.py:144-152 | something is sent iff the CNPJ is valid, `--tp-amb` and `--uf-autor` are XML character data, and the loaded cursor is null or a string of XML character data; what is sent is the envelope of the request carrying that cursor unchecked, and the request file holds the request |
| ConsultarDistribuicao.SyncRefusesRequest | src/consultar_distribuicao.py:148 | the run ends with RequestRefused iff the CNPJ is valid and lxml refuses one of the texts; then nothing is written or sent, and the refusal is the first one in field order |
| ConsultarDistribuicao.SyncRefusesControlCharacter | src/consultar_distribuicao.py:61 | a cursor holding a control character stops the run at `ultNSU`, before anything is written |
| ConsultarDistribuicao.ExchangeNeverRefuses | src/consultar_distribuicao.py:149-187 | once the request is built, the run never ends with RequestRefused |
| ConsultarDistribuicao.ExchangeSavesRequest | src/consultar_distribuicao.py:148-160 | the exchange writes the request file and sends its envelope, whatever the reply |
| ConsultarDistribuicao.ReceivedKeeps | src/consultar_distribuicao.py:183-187 | after the response is saved, every file except the cursor file stays as it was |
| ConsultarDistribuicao.SyncTransportFailure | src/consultar_distribuicao.py:158-176 | the run ends with TransportFailed iff the reply is an error; then only the request file is new and the cursor is unchanged |
| ConsultarDistribuicao.SyncAfterResponse | src/consultar_distribuicao.py:182-187 | after a reply, the raw response is saved under the old cursor's name, whether it parses or not; the cursor is saved iff the parsed response has a non-empty `ultNSU`, and then it loads back as that value |
| ConsultarDistribuicao.ReceivedSaves | src/consultar_distribuicao.py:183-187 | the cursor file is overwritten iff a non-empty `ultNSU` was extracted, and with that value; otherwise no file changes |
| ConsultarDistribuicao.CursorMayGoBack | src/consultar_distribuicao.py:184-185 | a reply whose `ultNSU` is smaller than the stored cursor still overwrites it |
| ConsultarDistribuicao.SyncCursorUnchangedUnlessSaved | src/consultar_distribuicao.py:132-187 | unless the run ends with CursorSaved, the stored cursor is the same after it |
| ExtrairDocumentos.ListXmlFiles | src/extrair_documentos.py:24-25 | no more paths than directory entries |
| ExtrairDocumentos.ListXmlFilesMembers | src/extrair_documentos.py:24-25 | exactly the entries whose lower-cased name ends in `.xml` are listed, each joined to the folder |
| ExtrairDocumentos.ListXmlFilesAppend | src/extrair_documentos.py:24-25 | the listing keeps the directory's order |
| ExtrairDocumentos.ResponseNameIsListed | src/extrair_documentos.py:25 | every response name the sync script produces is listed by the extractor |
| ExtrairDocumentos.NsuOf | src/extrair_documentos.py:43 | the NSU attribute, or `nsu_<idx>` when it is absent or empty; never empty |
| ExtrairDocumentos.SchemaOf | src/extrair_documentos.py:44 | the schema attribute, or `desconhecido` when it is absent or empty; never empty |
| ExtrairDocumentos.OutputName | src/extrair_documentos.py:57 | the name contains no '/' and has the length of `<nsu>_<schema>.xml` |
| ExtrairDocumentos.OutputNameShape | src/extrair_documentos.py:57 | the name ends in `.xml`, and it is exactly `<nsu>_<schema>.xml` when neither part has a '/' |
| ExtrairDocumentos.OutputInFolder | src/extrair_documentos.py:58 | the output path is directly inside the output folder |
| ExtrairDocumentos.PayloadOfEncoded | src/extrair_documentos.py:45-52 | a docZip whose text is the Base64 of a gzip stream yields the stream's decompressed bytes |
| ExtrairDocumentos.BlankDocZipSkipped | src/extrair_documentos.py:45-49 | a docZip with no text or only whitespace is skipped |
| ExtrairDocumentos.NonAsciiDocZipSkipped | src/extrair_documentos.py:51-55 | a docZip whose text has a non-ASCII character is skipped |
| ExtrairDocumentos.Outputs | src/extrair_documentos.py:42-66 | no more outputs than docZips |
| ExtrairDocumentos.OutputsSnoc | src/extrair_documentos.py:42-66 | one more docZip adds its output, if it has one, at the end |
| ExtrairDocumentos.OutputsFromDocZips | src/extrair_documentos.py:42-66 | every output comes from one docZip, and every docZip that is not skipped gives an output |
| ExtrairDocumentos.OutputsCount | src/extrair_documentos.py:63-66 | the count returned equals the number of docZips that decode and decompress |
| ExtrairDocumentos.ApplyOutputsSnoc | src/extrair_documentos.py:58-61 | writing one more output overwrites exactly its path |
| ExtrairDocumentos.ApplyOutputsElsewhere | src/extrair_documentos.py:58-61 | a path no output names is unchanged |
| ExtrairDocumentos.ApplyOutputsLast | src/extrair_documentos.py:58-61 | a path holds the bytes of the last output written to it |
| ExtrairDocumentos.ExtractFileCount | src/extrair_documentos.py:27-66 | extraction succeeds iff the file opens and parses, and then counts the docZips that decode; a failure changes no file |
| ExtrairDocumentos.ExtractFileNoDocZip | src/extrair_documentos.py:35-37 | a response without docZips writes nothing and counts 0 |
| ExtrairDocumentos.DecodeDocZip | src/extrair_documentos.py:43-57 | the loop body gives the file to write, or nothing where it continues, as Process describes |
| ExtrairDocumentos.WriteDocZips | src/extrair_documentos.py:42-66 | the loop writes the outputs of the docZips in order and returns how many it wrote |
| ExtrairDocumentos.ExtractDocZips | src/extrair_documentos.py:27-66 | `extrair_doczip_de_xml` changes the files and returns a count or error, as ExtractFile describes |
| ExtrairDocumentos.Shift | src/extrair_documentos.py:89 | adding the earlier total changes neither the files nor whether the step succeeded |
| ExtrairDocumentos.ShiftZero | src/extrair_documentos.py:87 | a total starting at 0 adds nothing |
| ExtrairDocumentos.ShiftShift | src/extrair_documentos.py:89 | totals add up across steps |
| ExtrairDocumentos.ExtractAllSnoc | src/extrair_documentos.py:88-89 | one more file is extracted from where the earlier files left the file system, unless an earlier one failed |
| ExtrairDocumentos.ExtractAllStops | src/extrair_documentos.py:88-89 | after a failure the later files change nothing |
| ExtrairDocumentos.ExtractAllAppend | src/extrair_documentos.py:88-89 | two file lists in turn: the first, then, unless it failed, the second, with the totals added |
| ExtrairDocumentos.ExtractAllSingle | src/extrair_documentos.py:88-89 | a one-file list does exactly what the file's extraction does |
| ExtrairDocumentos.ExtractionAbortsAt | src/extrair_documentos.py:88-89 | a file that fails ends the run: the files after it are not read, and the earlier outputs remain |
| ExtrairDocumentos.ExtractFiles | src/extrair_documentos.py:87-89 | the loop over the files changes them and returns the total or first error, as ExtractAll describes |
| ExtrairDocumentos.InputFiles | src/extrair_documentos.py:78-81 | with a non-empty `--input`, only that file; otherwise the XML files listed in the responses folder |
| ExtrairDocumentos.ExtractMain | src/extrair_documentos.py:74-91 | `main` changes the files and ends as Extraction describes |
| ExtrairDocumentos.ExtractionOfInput | src/extrair_documentos.py:78-79 | with `--input` the run is exactly that one file's extraction |

## Left out

- The HTTPS exchange (`enviar`) is the parameter `send`: client certificate, TLS
  verification, headers and timeout are not modelled. Its four outcomes are kept:
  a reply, an HTTP error, an SSL error and any other request error.
- lxml's serialisation and parsing are the parameters `serialize` and `parse`. The XML
  declaration, pretty-printing and namespace prefixes in the text are not modelled.
- gzip decompression is the parameter `gunzip`, a partial function on bytes.
- JSON text encoding is not modelled. A file holds a `JsonDoc` value; any other content
  counts as not JSON. Numbers are integers only.
- The timestamp (`datetime.now().strftime(...)`) is a parameter of the sync run.
- `argparse`, `.env` loading and `os.getenv` are replaced by the resolved values in
  `SyncConfig` and in the parameters of `ExtractMain`. `HTTP_TIMEOUT`, a float, is not used.
- `os.makedirs` is not modelled: folders are implicit in paths. `--outdir` is therefore
  not modelled at all, since the code only creates it and never writes there.
- The order of `os.listdir` is a parameter: the listing is given as a sequence.
- Console output (`print`) is not modelled.
- Failures to write a file are not modelled: every write succeeds.
- Uncaught exceptions are modelled as outcomes. These are a text lxml refuses or a
  non-text cursor (`RequestRefused`), an unparsable response (`ResponseNotXml`), a
  responses folder that `os.listdir` cannot read (`ListingFailed`, src/extrair_documentos.py:81),
  and a response file that cannot be opened or parsed (`Aborted`).
- Strings.IsDigit: `\d` is read as ASCII digits only. Python also accepts other Unicode
  decimal digits.
- Strings.Lower: only ASCII letters are lower-cased. A non-ASCII upper-case letter that
  lower-cases to a `.xml` suffix is not modelled.
- Base64.B64Decode: the scan is the `a2b_base64` of CPython 3.11 and later. Older
  releases decide differently whether a '=' ends decoding, and are not modelled.
- ConsultarDistribuicao.SyncSendsRequest, SyncTransportFailure, SyncAfterResponse,
  SyncCursorUnchangedUnlessSaved and ExchangeSavesRequest: these assume that the cursor file, the request file
  and the response path are three different paths (`SeparateFiles`; ExchangeSavesRequest
  needs only the request file to differ from the other two). When paths alias,
  the script overwrites one file with another, and these lemmas do not describe that.

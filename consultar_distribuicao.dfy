/**
 * The sync script `consultar_distribuicao.py`: it validates the taxpayer's CNPJ, loads
 * the persisted cursor (`ultNSU`), builds a `distDFeInt` request, wraps it in a SOAP 1.1
 * envelope, exchanges it with the authority, saves the raw response and, when the
 * response carries a non-empty `ultNSU`, overwrites the cursor file with it.
 *
 * What the model takes as given: the HTTPS exchange (`send`), lxml's serialisation of a
 * tree (`serialize`), its parsing of a file's content (`parse`) and the formatted
 * timestamp.
 */
module ConsultarDistribuicao {
  import opened Wrappers
  import opened Strings
  import opened XmlTree
  import opened Files

  /** The namespace of the fiscal documents (`nfe` in the scripts' namespace maps). */
  const NfeNs := "http://www.portalfiscal.inf.br/nfe"

  /** The cursor used when none is persisted. */
  const DefaultNsu := "000000000000000"

  // ---------------------------------------------------------------------------
  // valida_cnpj
  // ---------------------------------------------------------------------------

  /** The `ValueError("CNPJ deve conter 14 dígitos.")` raised for a bad CNPJ; it
      carries the digits that were found. */
  datatype CnpjError = NotFourteenDigits(digits: string)

  /** `cnpj or ""`. */
  function OrEmpty(s: Option<string>): string {
    match s
    case None => ""
    case Some(t) => t
  }

  /** `valida_cnpj`: the digits of the input, accepted when there are exactly 14. */
  function ValidateCnpj(cnpj: Option<string>): (r: Result<string, CnpjError>)
    ensures r.Success? <==> |OnlyDigits(OrEmpty(cnpj))| == 14
    ensures r.Success? ==> r.value == OnlyDigits(OrEmpty(cnpj))
    ensures r.Success? ==> |r.value| == 14 && AllDigits(r.value)
    ensures r.Failure? ==> r.error == NotFourteenDigits(OnlyDigits(OrEmpty(cnpj)))
  {
    var c := OnlyDigits(OrEmpty(cnpj));
    if |c| != 14 then Failure(NotFourteenDigits(c)) else Success(c)
  }

  /** An accepted CNPJ validates again, to itself. */
  lemma ValidateCnpjIdempotent(cnpj: Option<string>)
    requires ValidateCnpj(cnpj).Success?
    ensures ValidateCnpj(Some(ValidateCnpj(cnpj).value)) == ValidateCnpj(cnpj)
  {
    OnlyDigitsOfDigits(ValidateCnpj(cnpj).value);
  }

  /** A CNPJ written with the usual punctuation, "AA.BBB.CCC/DDDD-EE", is accepted and
      normalised to its fourteen digits. */
  lemma ValidateCnpjFormatted(a: string, b: string, c: string, d: string, e: string)
    requires |a| == 2 && |b| == 3 && |c| == 3 && |d| == 4 && |e| == 2
    requires AllDigits(a) && AllDigits(b) && AllDigits(c) && AllDigits(d) && AllDigits(e)
    ensures ValidateCnpj(Some(a + "." + b + "." + c + "/" + d + "-" + e)) == Success(a + b + c + d + e)
  {
    var s3 := d + "-" + e;
    var s2 := c + "/" + s3;
    var s1 := b + "." + s2;
    assert a + "." + b + "." + c + "/" + d + "-" + e == a + "." + s1;
    DropSeparator(a, '.', s1);
    DropSeparator(b, '.', s2);
    DropSeparator(c, '/', s3);
    DropSeparator(d, '-', e);
    OnlyDigitsOfDigits(e);
    assert OnlyDigits(a + "." + s1) == a + (b + (c + (d + e)));
    assert a + (b + (c + (d + e))) == a + b + c + d + e;
    assert |a + b + c + d + e| == 14;
  }

  /** A short CNPJ, the empty string and None are refused. */
  lemma ValidateCnpjRefusesShort()
    ensures ValidateCnpj(Some("123")) == Failure(NotFourteenDigits("123"))
    ensures ValidateCnpj(Some("")).Failure?
    ensures ValidateCnpj(None).Failure?
  {
    OnlyDigitsOfDigits("123");
  }

  // ---------------------------------------------------------------------------
  // carregar_nsu / salvar_nsu
  // ---------------------------------------------------------------------------

  /** The JSON value a file holds, if it exists, can be read and holds JSON. */
  function StoredJson(files: map<Path, File>, path: Path): (j: Option<Json>)
    ensures j.None? <==> path !in files || files[path].Unreadable? || !files[path].content.JsonDoc?
    ensures j.Some? ==> files[path] == Readable(JsonDoc(j.value))
  {
    if path in files && files[path].Readable? && files[path].content.JsonDoc?
    then Some(files[path].content.json)
    else None
  }

  /** `carregar_nsu(path)`: the value stored under "ultNSU" in the JSON object held by
      the file, whatever its type; the default cursor when the file is absent,
      unreadable, not JSON, not an object or has no "ultNSU". */
  function LoadNsu(files: map<Path, File>, path: Path): (v: Json)
    ensures StoredJson(files, path).None? ==> v == JString(DefaultNsu)
    ensures StoredJson(files, path).Some? && !StoredJson(files, path).value.JObject? ==> v == JString(DefaultNsu)
    ensures StoredJson(files, path).Some? && StoredJson(files, path).value.JObject? ==>
      var fields := StoredJson(files, path).value.fields;
      v == if "ultNSU" in fields then fields["ultNSU"] else JString(DefaultNsu)
  {
    match StoredJson(files, path)
    case Some(JObject(fields)) => if "ultNSU" in fields then fields["ultNSU"] else JString(DefaultNsu)
    case _ => JString(DefaultNsu)
  }

  /** What `json.dump({"ultNSU": v}, f)` leaves in the file. */
  function CursorRecord(v: string): Content {
    JsonDoc(JObject(map["ultNSU" := JString(v)]))
  }

  /** `salvar_nsu(path, v)`: the cursor file is overwritten, and loads back as v. */
  method SaveNsu(fs: FileSystem, path: Path, v: string)
    modifies fs
    ensures fs.files == old(fs.files)[path := Readable(CursorRecord(v))]
    ensures LoadNsu(fs.files, path) == JString(v)
  {
    fs.Write(path, CursorRecord(v));
  }

  /** Writing some other file does not change the loaded cursor. */
  lemma LoadNsuUnaffected(files: map<Path, File>, path: Path, other: Path, f: File)
    requires other != path
    ensures LoadNsu(files[other := f], path) == LoadNsu(files, path)
  {
  }

  // ---------------------------------------------------------------------------
  // montar_xml_dist_dfe
  // ---------------------------------------------------------------------------

  function Leaf(name: string, text: Option<string>): Element {
    Element(NfeNs, name, map[], text, [])
  }

  /** The tree `montar_xml_dist_dfe` returns: distDFeInt (versao="1.01") with children
      tpAmb, cUFAutor, CNPJ and distNSU, the last holding ultNSU. */
  function RequestTree(cnpj: string, cUFAutor: string, ultNsu: Option<string>, tpAmb: string): Element {
    Element(NfeNs, "distDFeInt", map["versao" := "1.01"], None,
      [ Leaf("tpAmb", Some(tpAmb)),
        Leaf("cUFAutor", Some(cUFAutor)),
        Leaf("CNPJ", Some(cnpj)),
        Element(NfeNs, "distNSU", map[], None, [Leaf("ultNSU", ultNsu)]) ])
  }

  /** Why `montar_xml_dist_dfe` raised: the text given to a field is not XML character
      data (`ValueError`), or the cursor is neither a string nor None (`TypeError`). */
  datatype RequestError = TextRefused(field: string) | CursorNotText(cursor: Json)

  /** The tree `montar_xml_dist_dfe(cnpj, cuf_autor, ult_nsu, tp_amb)` returns, or why it
      raised: the fields are given their text in the order tpAmb, cUFAutor, CNPJ, ultNSU,
      and the first one lxml refuses ends the call. */
  function RequestOutcome(cnpj: string, cUFAutor: string, ultNsu: Json, tpAmb: string): Result<Element, RequestError> {
    if !XmlText(tpAmb) then Failure(TextRefused("tpAmb"))
    else if !XmlText(cUFAutor) then Failure(TextRefused("cUFAutor"))
    else if !XmlText(cnpj) then Failure(TextRefused("CNPJ"))
    else if !Textual(ultNsu) then Failure(CursorNotText(ultNsu))
    else if ultNsu.JString? && !XmlText(ultNsu.s) then Failure(TextRefused("ultNSU"))
    else Success(RequestTree(cnpj, cUFAutor, CursorText(ultNsu), tpAmb))
  }

  /** The request is built exactly when every text is XML character data and the cursor
      is a string or null, and it then carries the cursor unchanged. */
  lemma RequestAccepted(cnpj: string, cUFAutor: string, ultNsu: Json, tpAmb: string)
    ensures RequestOutcome(cnpj, cUFAutor, ultNsu, tpAmb).Success? <==>
      && XmlText(tpAmb) && XmlText(cUFAutor) && XmlText(cnpj)
      && Textual(ultNsu) && (ultNsu.JString? ==> XmlText(ultNsu.s))
    ensures RequestOutcome(cnpj, cUFAutor, ultNsu, tpAmb).Success? ==>
      RequestOutcome(cnpj, cUFAutor, ultNsu, tpAmb).value == RequestTree(cnpj, cUFAutor, CursorText(ultNsu), tpAmb)
  {
  }

  /** A validated CNPJ, being all digits, is never refused as text. */
  lemma DigitsAreXmlText(s: string)
    requires AllDigits(s)
    ensures XmlText(s)
  {
  }

  /** The first part of `montar_xml_dist_dfe`: the root element and its three text
      fields tpAmb, cUFAutor and CNPJ, in that order; the first text lxml refuses ends it. */
  method BuildFields(cnpj: string, cUFAutor: string, tpAmb: string) returns (r: Result<Document, RequestError>)
    ensures r.Success? <==> XmlText(tpAmb) && XmlText(cUFAutor) && XmlText(cnpj)
    ensures r.Failure? ==>
      r.error == if !XmlText(tpAmb) then TextRefused("tpAmb")
                 else if !XmlText(cUFAutor) then TextRefused("cUFAutor")
                 else TextRefused("CNPJ")
    ensures r.Success? ==>
      && fresh(r.value) && r.value.Valid()
      && r.value.nodes == [ Node(NfeNs, "distDFeInt", map["versao" := "1.01"], None, [1, 2, 3]),
                            Node(NfeNs, "tpAmb", map[], Some(tpAmb), []),
                            Node(NfeNs, "cUFAutor", map[], Some(cUFAutor), []),
                            Node(NfeNs, "CNPJ", map[], Some(cnpj), []) ]
  {
    var doc := new Document(NfeNs, "distDFeInt", map["versao" := "1.01"]);
    var tp := doc.SubElement(0, NfeNs, "tpAmb");
    var ok := doc.SetText(tp, Some(tpAmb));
    if !ok {
      return Failure(TextRefused("tpAmb"));
    }
    var uf := doc.SubElement(0, NfeNs, "cUFAutor");
    ok := doc.SetText(uf, Some(cUFAutor));
    if !ok {
      return Failure(TextRefused("cUFAutor"));
    }
    var id := doc.SubElement(0, NfeNs, "CNPJ");
    ok := doc.SetText(id, Some(cnpj));
    if !ok {
      return Failure(TextRefused("CNPJ"));
    }
    assert doc.nodes[0].kids == [1, 2, 3];
    return Success(doc);
  }

  /** `montar_xml_dist_dfe(cnpj, cuf_autor, ult_nsu, tp_amb)`: the root element, then one
      `SubElement` per field, each given its text; the first text lxml refuses ends it.
      The cursor's text is None when the loaded cursor is JSON null. */
  method BuildRequest(cnpj: string, cUFAutor: string, ultNsu: Json, tpAmb: string)
    returns (r: Result<Document, RequestError>)
    ensures r.Success? <==> RequestOutcome(cnpj, cUFAutor, ultNsu, tpAmb).Success?
    ensures r.Failure? ==> r.error == RequestOutcome(cnpj, cUFAutor, ultNsu, tpAmb).error
    ensures r.Success? ==>
      && fresh(r.value) && r.value.Valid()
      && r.value.ToElement(0) == RequestOutcome(cnpj, cUFAutor, ultNsu, tpAmb).value
  {
    var fields := BuildFields(cnpj, cUFAutor, tpAmb);
    if fields.Failure? {
      return Failure(fields.error);
    }
    var doc := fields.value;
    var dist := doc.SubElement(0, NfeNs, "distNSU");
    assert doc.nodes[0].kids == [1, 2, 3, 4];
    var ult := doc.SubElement(dist, NfeNs, "ultNSU");
    if !Textual(ultNsu) {
      return Failure(CursorNotText(ultNsu));
    }
    var ok := doc.SetText(ult, CursorText(ultNsu));
    if !ok {
      return Failure(TextRefused("ultNSU"));
    }
    RequestArena(doc, cnpj, cUFAutor, CursorText(ultNsu), tpAmb);
    return Success(doc);
  }

  /** The nodes BuildRequest leaves in the document form the request tree. */
  lemma RequestArena(doc: Document, cnpj: string, cUFAutor: string, ultNsu: Option<string>, tpAmb: string)
    requires doc.Valid() && |doc.nodes| == 6
    requires doc.nodes[0] == Node(NfeNs, "distDFeInt", map["versao" := "1.01"], None, [1, 2, 3, 4])
    requires doc.nodes[1] == Node(NfeNs, "tpAmb", map[], Some(tpAmb), [])
    requires doc.nodes[2] == Node(NfeNs, "cUFAutor", map[], Some(cUFAutor), [])
    requires doc.nodes[3] == Node(NfeNs, "CNPJ", map[], Some(cnpj), [])
    requires doc.nodes[4] == Node(NfeNs, "distNSU", map[], None, [5])
    requires doc.nodes[5] == Node(NfeNs, "ultNSU", map[], ultNsu, [])
    ensures doc.ToElement(0) == RequestTree(cnpj, cUFAutor, ultNsu, tpAmb)
  {
    assert doc.ToElement(5) == Leaf("ultNSU", ultNsu);
    assert doc.ToElements(4, [5]) == [Leaf("ultNSU", ultNsu)];
    assert doc.ToElement(4) == Element(NfeNs, "distNSU", map[], None, [Leaf("ultNSU", ultNsu)]);
    assert doc.ToElements(0, [4]) == [doc.ToElement(4)];
    assert doc.ToElement(3) == Leaf("CNPJ", Some(cnpj));
    assert doc.ToElements(0, [3, 4]) == [Leaf("CNPJ", Some(cnpj)), doc.ToElement(4)];
    assert doc.ToElement(2) == Leaf("cUFAutor", Some(cUFAutor));
    assert doc.ToElements(0, [2, 3, 4]) == [Leaf("cUFAutor", Some(cUFAutor)), Leaf("CNPJ", Some(cnpj)), doc.ToElement(4)];
    assert doc.ToElement(1) == Leaf("tpAmb", Some(tpAmb));
    assert doc.ToElements(0, [1, 2, 3, 4]) == RequestTree(cnpj, cUFAutor, ultNsu, tpAmb).children;
  }

  /** The text of the first nfe-namespaced `name` element below root, if there is one. */
  function TextOf(root: Element, name: string): Option<string> {
    match Find(root, NfeNs, name)
    case None => None
    case Some(e) => e.text
  }

  /** Each field of the request carries its argument verbatim, found where a reader of
      the request looks for it; the cursor sits inside distNSU. */
  lemma RequestFields(cnpj: string, cUFAutor: string, ultNsu: Option<string>, tpAmb: string)
    ensures var t := RequestTree(cnpj, cUFAutor, ultNsu, tpAmb);
      && Named(t, NfeNs, "distDFeInt") && t.attrs == map["versao" := "1.01"]
      && TextOf(t, "tpAmb") == Some(tpAmb)
      && TextOf(t, "cUFAutor") == Some(cUFAutor)
      && TextOf(t, "CNPJ") == Some(cnpj)
      && TextOf(t, "ultNSU") == ultNsu
      && Find(t, NfeNs, "distNSU") == Some(Element(NfeNs, "distNSU", map[], None, [Leaf("ultNSU", ultNsu)]))
  {
    RequestDescendants(cnpj, cUFAutor, ultNsu, tpAmb);
    var d := Descendants(RequestTree(cnpj, cUFAutor, ultNsu, tpAmb));
    FirstMatchAt(d, NfeNs, "tpAmb", 0);
    FirstMatchAt(d, NfeNs, "cUFAutor", 1);
    FirstMatchAt(d, NfeNs, "CNPJ", 2);
    FirstMatchAt(d, NfeNs, "distNSU", 3);
    FirstMatchAt(d, NfeNs, "ultNSU", 4);
  }

  lemma RequestDescendants(cnpj: string, cUFAutor: string, ultNsu: Option<string>, tpAmb: string)
    ensures Descendants(RequestTree(cnpj, cUFAutor, ultNsu, tpAmb)) ==
      [ Leaf("tpAmb", Some(tpAmb)), Leaf("cUFAutor", Some(cUFAutor)), Leaf("CNPJ", Some(cnpj)),
        Element(NfeNs, "distNSU", map[], None, [Leaf("ultNSU", ultNsu)]), Leaf("ultNSU", ultNsu) ]
  {
    var tp, uf, id, ult := Leaf("tpAmb", Some(tpAmb)), Leaf("cUFAutor", Some(cUFAutor)), Leaf("CNPJ", Some(cnpj)), Leaf("ultNSU", ultNsu);
    var dist := Element(NfeNs, "distNSU", map[], None, [ult]);
    LeafDescendants([ult], ult);
    assert DescendantsOf(dist.children) == [ult];
    LeafDescendants([dist], dist);
    assert DescendantsOf([dist]) == [dist, ult];
    ConsLeaf(id, [dist]);
    ConsLeaf(uf, [id, dist]);
    ConsLeaf(tp, [uf, id, dist]);
  }

  lemma LeafDescendants(cs: seq<Element>, e: Element)
    requires cs == [e]
    ensures DescendantsOf(cs) == [e] + DescendantsOf(e.children)
  {
    assert cs[1..] == [];
  }

  lemma ConsLeaf(e: Element, rest: seq<Element>)
    requires e.children == []
    ensures DescendantsOf([e] + rest) == [e] + DescendantsOf(rest)
  {
    assert ([e] + rest)[1..] == rest;
  }

  // ---------------------------------------------------------------------------
  // envelope_soap
  // ---------------------------------------------------------------------------

  const EnvelopeOpen := "<soap:Envelope"
  const EnvelopeClose := "</soap:Envelope>"
  const DadosOpen := "<nfeDadosMsg>"
  const DadosClose := "</nfeDadosMsg>"

  /** The template between the opening of `soap:Envelope` and that of `nfeDadosMsg`. */
  const SoapHead :=
    " xmlns:soap=\"http://schemas.xmlsoap.org/soap/envelope/\">\n"
    + "      <soap:Body>\n"
    + "        <nfeDistDFeInteresse xmlns=\"http://www.portalfiscal.inf.br/nfe/wsdl/NFeDistribuicaoDFe\">\n"
    + "          "

  /** The template between the closing of `nfeDadosMsg` and that of `soap:Envelope`. */
  const SoapTail :=
    "\n        </nfeDistDFeInteresse>\n"
    + "      </soap:Body>\n"
    + "    "

  /** What comes before the payload once the triple-quoted template is stripped. */
  const SoapPrefix := EnvelopeOpen + SoapHead + DadosOpen

  /** What comes after the payload. */
  const SoapSuffix := DadosClose + SoapTail + EnvelopeClose

  predicate StartsWith(s: string, prefix: string) {
    |prefix| <= |s| && s[..|prefix|] == prefix
  }

  /** `envelope_soap(xml)`: the payload carried verbatim as the `nfeDadosMsg` of an
      `nfeDistDFeInteresse` body (section 4 of the SOAP 1.1 W3C Note). */
  function SoapEnvelope(xml: string): (r: string)
    ensures |r| == |SoapPrefix| + |xml| + |SoapSuffix|
    ensures r[..|SoapPrefix|] == SoapPrefix && r[|r| - |SoapSuffix|..] == SoapSuffix
    ensures r[|SoapPrefix|..|r| - |SoapSuffix|] == xml
  {
    var r := SoapPrefix + xml + SoapSuffix;
    assert r[..|SoapPrefix|] == SoapPrefix;
    assert r[|r| - |SoapSuffix|..] == SoapSuffix;
    r
  }

  /** Whatever the payload, the envelope is one `soap:Envelope` element. */
  lemma SoapEnvelopeTags(xml: string)
    ensures StartsWith(SoapEnvelope(xml), EnvelopeOpen) && EndsWith(SoapEnvelope(xml), EnvelopeClose)
  {
    SoapFrame();
    FramedTags(SoapEnvelope(xml), SoapPrefix, SoapSuffix, EnvelopeOpen, EnvelopeClose, |xml|);
  }

  /** A string that begins with p and ends with q begins and ends as they do. */
  lemma FramedTags(r: string, p: string, q: string, open: string, close: string, n: nat)
    requires |r| == |p| + n + |q| && r[..|p|] == p && r[|r| - |q|..] == q
    requires StartsWith(p, open) && EndsWith(q, close)
    ensures StartsWith(r, open) && EndsWith(r, close)
  {
    assert r[..|p|][..|open|] == r[..|open|];
    assert r[|r| - |q|..][|q| - |close|..] == r[|r| - |close|..];
  }

  /** The payload of an envelope built by SoapEnvelope. */
  function SoapPayload(s: string): Option<string> {
    if |s| >= |SoapPrefix| + |SoapSuffix| && s[..|SoapPrefix|] == SoapPrefix
       && s[|s| - |SoapSuffix|..] == SoapSuffix
    then Some(s[|SoapPrefix|..|s| - |SoapSuffix|])
    else None
  }

  /** The envelope and its payload determine each other. */
  lemma SoapPayloadEnvelope(s: string, xml: string)
    ensures SoapPayload(s) == Some(xml) <==> s == SoapEnvelope(xml)
  {
    if SoapPayload(s) == Some(xml) {
      assert s == s[..|SoapPrefix|] + s[|SoapPrefix|..|s| - |SoapSuffix|] + s[|s| - |SoapSuffix|..];
    }
  }

  /** The prefix ends by opening `nfeDadosMsg` and the suffix begins by closing it. */
  lemma SoapFrame()
    ensures StartsWith(SoapPrefix, EnvelopeOpen) && EndsWith(SoapPrefix, DadosOpen)
    ensures StartsWith(SoapSuffix, DadosClose) && EndsWith(SoapSuffix, EnvelopeClose)
  {
    assert SoapPrefix == EnvelopeOpen + (SoapHead + DadosOpen);
    assert SoapSuffix == DadosClose + (SoapTail + EnvelopeClose);
  }

  // ---------------------------------------------------------------------------
  // enviar
  // ---------------------------------------------------------------------------

  /** The outcome of `enviar`: the response text on a 2xx status, otherwise the exception
      `requests` raised (`HTTPError`, `SSLError`, or any other `RequestException`). */
  datatype Transport =
    | Response(text: string)
    | HttpError(status: int, body: string)
    | SslError(message: string)
    | RequestError(message: string)

  // ---------------------------------------------------------------------------
  // extrair_ult_nsu
  // ---------------------------------------------------------------------------

  /** `extrair_ult_nsu`: the stripped text of the first nfe `ultNSU` below the root;
      None when there is none or its text is absent or empty. */
  function ExtractUltNsu(root: Element): (r: Option<string>)
    ensures r.Some? ==> r.value == [] || (!IsSpace(r.value[0]) && !IsSpace(r.value[|r.value| - 1]))
  {
    match Find(root, NfeNs, "ultNSU")
    case None => None
    case Some(e) =>
      if e.text.Some? && e.text.value != "" then
        Some(Strip(e.text.value))
      else None
  }

  /** Only the first `ultNSU` in document order is consulted, even when it has no text and a
      later one has. */
  lemma {:induction false} ExtractUltNsuFirst(root: Element, i: nat)
    requires i < |Descendants(root)| && Named(Descendants(root)[i], NfeNs, "ultNSU")
    requires forall j :: 0 <= j < i ==> !Named(Descendants(root)[j], NfeNs, "ultNSU")
    ensures var t := Descendants(root)[i].text;
      ExtractUltNsu(root) == if t.Some? && t.value != "" then Some(Strip(t.value)) else None
  {
    assert FirstMatch(Descendants(root), NfeNs, "ultNSU") == Some(i);
  }

  /** No `ultNSU` below the root: no cursor. */
  lemma ExtractUltNsuAbsent(root: Element)
    requires FindAll(root, NfeNs, "ultNSU") == []
    ensures ExtractUltNsu(root) == None
  {
    FindIsFirstOfFindAll(root, NfeNs, "ultNSU");
  }

  /** A whitespace-only `ultNSU` yields the empty string (which the caller treats as
      no cursor). */
  lemma ExtractUltNsuBlank(root: Element)
    requires Find(root, NfeNs, "ultNSU").Some?
    requires var t := Find(root, NfeNs, "ultNSU").value.text; t.Some? && t.value != [] && AllSpace(t.value)
    ensures ExtractUltNsu(root) == Some("")
  {
  }

  // ---------------------------------------------------------------------------
  // salvar_xml / salvar_resposta
  // ---------------------------------------------------------------------------

  /** `salvar_xml(tree, path)`: the serialised tree is written to path. */
  method SaveXml(fs: FileSystem, tree: Element, path: Path)
    modifies fs
    ensures fs.files == old(fs.files)[path := Readable(XmlDoc(tree))]
  {
    fs.Write(path, XmlDoc(tree));
  }

  /** The name `salvar_resposta` gives a response: `resposta_<cursor>_<timestamp>.xml`. */
  function ResponseName(cursor: string, timestamp: string): (name: string)
    ensures |name| == 9 + |cursor| + 1 + |timestamp| + 4
    ensures name[9..9 + |cursor|] == cursor
  {
    "resposta_" + cursor + "_" + timestamp + ".xml"
  }

  /** The name starts with "resposta_" and ends with ".xml". */
  lemma ResponseNameShape(cursor: string, timestamp: string)
    ensures StartsWith(ResponseName(cursor, timestamp), "resposta_")
    ensures EndsWith(ResponseName(cursor, timestamp), ".xml")
  {
    var name := ResponseName(cursor, timestamp);
    assert name[..9] == "resposta_";
    assert name[|name| - 4..] == ".xml";
  }

  /** `salvar_resposta(text, dir, cursor)`: the response text is written under dir. */
  method SaveResponse(fs: FileSystem, text: string, dir: Path, cursor: string, timestamp: string)
    returns (path: Path)
    modifies fs
    ensures path == Join(dir, ResponseName(cursor, timestamp))
    ensures fs.files == old(fs.files)[path := Readable(Text(text))]
  {
    path := Join(dir, ResponseName(cursor, timestamp));
    fs.Write(path, Text(text));
  }

  // ---------------------------------------------------------------------------
  // main
  // ---------------------------------------------------------------------------

  /** The resolved command line: `--cnpj` (absent when omitted), the `CNPJ` environment
      value, `--uf-autor`, `--tp-amb`, `--entrada-xml`, `--saida` and `--nsu-file`. */
  datatype SyncConfig = SyncConfig(
    cnpjArg: Option<string>,
    cnpjEnv: string,
    ufAutor: string,
    tpAmb: string,
    entradaXml: Path,
    saida: Path,
    nsuFile: Path)

  /** `args.cnpj or CNPJ_ENV`. */
  function CnpjInput(cfg: SyncConfig): string {
    if cfg.cnpjArg.Some? && cfg.cnpjArg.value != "" then cfg.cnpjArg.value else cfg.cnpjEnv
  }

  /** A loaded cursor lxml accepts as an element's text: a string, or None (JSON null). */
  predicate Textual(v: Json) {
    v.JString? || v.JNull?
  }

  /** The text `.text = ult_nsu` gives the request's ultNSU. */
  function CursorText(v: Json): Option<string>
    requires Textual(v)
  {
    if v.JString? then Some(v.s) else None
  }

  /** The cursor as the f-string `resposta_{ult_nsu}_...` renders it. */
  function CursorLabel(v: Json): string
    requires Textual(v)
  {
    if v.JString? then v.s else "None"
  }

  /** How a run of `main` ends. `RequestRefused` and `ResponseNotXml` are exceptions the
      script does not catch (lxml's `ValueError` or `TypeError`, and `XMLSyntaxError`). */
  datatype SyncOutcome =
    | InvalidCnpj(error: CnpjError)
    | RequestRefused(refusal: RequestError)
    | TransportFailed(failure: Transport)
    | ResponseNotXml
    | CursorNotFound(found: Option<string>)
    | CursorSaved(nsu: string)

  /** The files after a run, the envelope sent (None when nothing was sent) and the outcome. */
  datatype SyncRun = SyncRun(files: map<Path, File>, sent: Option<string>, outcome: SyncOutcome)

  /** Where the response of a run is saved. */
  function ResponsePath(cfg: SyncConfig, cursor: Json, timestamp: string): Path
    requires Textual(cursor)
  {
    Join(cfg.saida, ResponseName(CursorLabel(cursor), timestamp))
  }

  /** The request a run builds, if it gets that far: a valid CNPJ, and field texts and a
      cursor lxml accepts. */
  function Request(files: map<Path, File>, cfg: SyncConfig): Option<Element> {
    var id := ValidateCnpj(Some(CnpjInput(cfg)));
    if id.Failure? then None
    else match RequestOutcome(id.value, cfg.ufAutor, LoadNsu(files, cfg.nsuFile), cfg.tpAmb)
      case Success(request) => Some(request)
      case Failure(_) => None
  }

  /** One run of `main`, as a transition of the file system. */
  function SyncCycle(
    files: map<Path, File>, cfg: SyncConfig, timestamp: string,
    serialize: Element -> string, send: string -> Transport, parse: Content -> Option<Element>)
    : SyncRun
  {
    var id := ValidateCnpj(Some(CnpjInput(cfg)));
    if id.Failure? then SyncRun(files, None, InvalidCnpj(id.error))
    else
      var cursor := LoadNsu(files, cfg.nsuFile);
      match RequestOutcome(id.value, cfg.ufAutor, cursor, cfg.tpAmb)
      case Failure(e) => SyncRun(files, None, RequestRefused(e))
      case Success(request) => Exchange(files, cfg, request, cursor, timestamp, serialize, send, parse)
  }

  /** From saving the request on: the exchange, and what follows a reply. */
  function Exchange(
    files: map<Path, File>, cfg: SyncConfig, request: Element, cursor: Json, timestamp: string,
    serialize: Element -> string, send: string -> Transport, parse: Content -> Option<Element>)
    : SyncRun
    requires Textual(cursor)
  {
    var withRequest := files[cfg.entradaXml := Readable(XmlDoc(request))];
    var envelope := SoapEnvelope(Strip(serialize(request)));
    var reply := send(envelope);
    if !reply.Response? then SyncRun(withRequest, Some(envelope), TransportFailed(reply))
    else
      var withResponse := withRequest[ResponsePath(cfg, cursor, timestamp) := Readable(Text(reply.text))];
      Received(withResponse, cfg, envelope, parse(Text(reply.text)))
  }

  /** After the response is saved: extraction of the cursor and, if non-empty, its saving. */
  function Received(files: map<Path, File>, cfg: SyncConfig, envelope: string, parsed: Option<Element>): SyncRun {
    match parsed
    case None => SyncRun(files, Some(envelope), ResponseNotXml)
    case Some(root) =>
      var found := ExtractUltNsu(root);
      if found.Some? && found.value != "" then
        SyncRun(files[cfg.nsuFile := Readable(CursorRecord(found.value))], Some(envelope), CursorSaved(found.value))
      else SyncRun(files, Some(envelope), CursorNotFound(found))
  }

  /** `main` of the sync script over the file system fs. */
  method Sync(
    fs: FileSystem, cfg: SyncConfig, timestamp: string,
    serialize: Element -> string, send: string -> Transport, parse: Content -> Option<Element>)
    returns (sent: Option<string>, outcome: SyncOutcome)
    modifies fs
    ensures SyncRun(fs.files, sent, outcome) == SyncCycle(old(fs.files), cfg, timestamp, serialize, send, parse)
  {
    var id := ValidateCnpj(Some(CnpjInput(cfg)));
    if id.Failure? {
      return None, InvalidCnpj(id.error);
    }
    var cursor := LoadNsu(fs.files, cfg.nsuFile);
    var built := BuildRequest(id.value, cfg.ufAutor, cursor, cfg.tpAmb);
    if built.Failure? {
      return None, RequestRefused(built.error);
    }
    var request := built.value.ToElement(0);
    SaveXml(fs, request, cfg.entradaXml);
    var envelope := SoapEnvelope(Strip(serialize(request)));
    sent := Some(envelope);
    var reply := send(envelope);
    if !reply.Response? {
      return sent, TransportFailed(reply);
    }
    var _ := SaveResponse(fs, reply.text, cfg.saida, CursorLabel(cursor), timestamp);
    var root := parse(Text(reply.text));
    if root.None? {
      return sent, ResponseNotXml;
    }
    var found := ExtractUltNsu(root.value);
    if found.Some? && found.value != "" {
      SaveNsu(fs, cfg.nsuFile, found.value);
      outcome := CursorSaved(found.value);
    } else {
      outcome := CursorNotFound(found);
    }
  }

  // ---------------------------------------------------------------------------
  // Properties of a sync run
  // ---------------------------------------------------------------------------

  /** The three files a run may write are different files. */
  predicate SeparateFiles(files: map<Path, File>, cfg: SyncConfig, timestamp: string) {
    var cursor := LoadNsu(files, cfg.nsuFile);
    Textual(cursor) ==>
      var response := ResponsePath(cfg, cursor, timestamp);
      cfg.nsuFile != cfg.entradaXml && cfg.nsuFile != response && cfg.entradaXml != response
  }

  /** An invalid CNPJ ends the run before anything is written or sent. */
  lemma SyncChecksCnpjFirst(
    files: map<Path, File>, cfg: SyncConfig, timestamp: string,
    serialize: Element -> string, send: string -> Transport, parse: Content -> Option<Element>)
    ensures var run := SyncCycle(files, cfg, timestamp, serialize, send, parse);
      run.outcome.InvalidCnpj? <==> ValidateCnpj(Some(CnpjInput(cfg))).Failure?
    ensures var run := SyncCycle(files, cfg, timestamp, serialize, send, parse);
      run.outcome.InvalidCnpj? ==> run.files == files && run.sent == None
  {
    var id := ValidateCnpj(Some(CnpjInput(cfg)));
    var cursor := LoadNsu(files, cfg.nsuFile);
    if Request(files, cfg).Some? {
      ExchangeNeverInvalid(files, cfg, Request(files, cfg).value, cursor, timestamp, serialize, send, parse);
    }
  }

  /** Field texts or a cursor lxml refuses end the run before anything is written or sent;
      the error names the first field refused. */
  lemma SyncRefusesRequest(
    files: map<Path, File>, cfg: SyncConfig, timestamp: string,
    serialize: Element -> string, send: string -> Transport, parse: Content -> Option<Element>)
    ensures var run := SyncCycle(files, cfg, timestamp, serialize, send, parse);
      var id := ValidateCnpj(Some(CnpjInput(cfg)));
      run.outcome.RequestRefused? <==>
        id.Success? && RequestOutcome(id.value, cfg.ufAutor, LoadNsu(files, cfg.nsuFile), cfg.tpAmb).Failure?
    ensures var run := SyncCycle(files, cfg, timestamp, serialize, send, parse);
      var id := ValidateCnpj(Some(CnpjInput(cfg)));
      run.outcome.RequestRefused? ==>
        && run.files == files && run.sent == None
        && run.outcome.refusal == RequestOutcome(id.value, cfg.ufAutor, LoadNsu(files, cfg.nsuFile), cfg.tpAmb).error
  {
    var id := ValidateCnpj(Some(CnpjInput(cfg)));
    var cursor := LoadNsu(files, cfg.nsuFile);
    if Request(files, cfg).Some? {
      ExchangeNeverRefuses(files, cfg, Request(files, cfg).value, cursor, timestamp, serialize, send, parse);
    }
  }

  /** A cursor file holding `{"ultNSU": "\u0001"}`: lxml refuses the control character, so
      the request file is not written and nothing is sent. */
  lemma SyncRefusesControlCharacter(
    files: map<Path, File>, cfg: SyncConfig, timestamp: string,
    serialize: Element -> string, send: string -> Transport, parse: Content -> Option<Element>)
    requires ValidateCnpj(Some(CnpjInput(cfg))).Success? && XmlText(cfg.tpAmb) && XmlText(cfg.ufAutor)
    requires LoadNsu(files, cfg.nsuFile) == JString("\U{1}")
    ensures SyncCycle(files, cfg, timestamp, serialize, send, parse) == SyncRun(files, None, RequestRefused(TextRefused("ultNSU")))
  {
    DigitsAreXmlText(ValidateCnpj(Some(CnpjInput(cfg))).value);
    assert !XmlChar("\U{1}"[0]);
  }

  lemma ExchangeNeverRefuses(
    files: map<Path, File>, cfg: SyncConfig, request: Element, cursor: Json, timestamp: string,
    serialize: Element -> string, send: string -> Transport, parse: Content -> Option<Element>)
    requires Textual(cursor)
    ensures !Exchange(files, cfg, request, cursor, timestamp, serialize, send, parse).outcome.RequestRefused?
  {
  }

  lemma ExchangeNeverInvalid(
    files: map<Path, File>, cfg: SyncConfig, request: Element, cursor: Json, timestamp: string,
    serialize: Element -> string, send: string -> Transport, parse: Content -> Option<Element>)
    requires Textual(cursor)
    ensures !Exchange(files, cfg, request, cursor, timestamp, serialize, send, parse).outcome.InvalidCnpj?
  {
  }

  /** What is sent is the envelope around the serialised request, built from the validated
      CNPJ and the cursor as loaded (no format check); the request is saved first. */
  lemma SyncSendsRequest(
    files: map<Path, File>, cfg: SyncConfig, timestamp: string,
    serialize: Element -> string, send: string -> Transport, parse: Content -> Option<Element>)
    requires SeparateFiles(files, cfg, timestamp)
    ensures var run := SyncCycle(files, cfg, timestamp, serialize, send, parse);
      var cursor := LoadNsu(files, cfg.nsuFile);
      run.sent.Some? <==>
        && ValidateCnpj(Some(CnpjInput(cfg))).Success? && XmlText(cfg.tpAmb) && XmlText(cfg.ufAutor)
        && Textual(cursor) && (cursor.JString? ==> XmlText(cursor.s))
    ensures var run := SyncCycle(files, cfg, timestamp, serialize, send, parse);
      var cursor := LoadNsu(files, cfg.nsuFile);
      run.sent.Some? ==>
        var request := RequestTree(ValidateCnpj(Some(CnpjInput(cfg))).value, cfg.ufAutor, CursorText(cursor), cfg.tpAmb);
        && run.sent == Some(SoapEnvelope(Strip(serialize(request))))
        && cfg.entradaXml in run.files && run.files[cfg.entradaXml] == Readable(XmlDoc(request))
  {
    var id := ValidateCnpj(Some(CnpjInput(cfg)));
    var cursor := LoadNsu(files, cfg.nsuFile);
    if id.Success? {
      DigitsAreXmlText(id.value);
      RequestAccepted(id.value, cfg.ufAutor, cursor, cfg.tpAmb);
    }
    if Request(files, cfg).Some? {
      ExchangeSavesRequest(files, cfg, Request(files, cfg).value, cursor, timestamp, serialize, send, parse);
    }
  }

  /** The exchange saves the request and sends its envelope, whatever comes back. */
  lemma ExchangeSavesRequest(
    files: map<Path, File>, cfg: SyncConfig, request: Element, cursor: Json, timestamp: string,
    serialize: Element -> string, send: string -> Transport, parse: Content -> Option<Element>)
    requires Textual(cursor)
    requires cfg.nsuFile != cfg.entradaXml && cfg.entradaXml != ResponsePath(cfg, cursor, timestamp)
    ensures var run := Exchange(files, cfg, request, cursor, timestamp, serialize, send, parse);
      && run.sent == Some(SoapEnvelope(Strip(serialize(request))))
      && cfg.entradaXml in run.files && run.files[cfg.entradaXml] == Readable(XmlDoc(request))
  {
    var envelope := SoapEnvelope(Strip(serialize(request)));
    var reply := send(envelope);
    if reply.Response? {
      var withResponse := files[cfg.entradaXml := Readable(XmlDoc(request))][ResponsePath(cfg, cursor, timestamp) := Readable(Text(reply.text))];
      ReceivedKeeps(withResponse, cfg, envelope, parse(Text(reply.text)), cfg.entradaXml);
    }
  }

  /** After the response, only the cursor file may change. */
  lemma ReceivedKeeps(files: map<Path, File>, cfg: SyncConfig, envelope: string, parsed: Option<Element>, p: Path)
    requires p in files && p != cfg.nsuFile
    ensures var run := Received(files, cfg, envelope, parsed);
      run.sent == Some(envelope) && p in run.files && run.files[p] == files[p]
  {
  }

  /** A transport error ends the run with only the request file written: no response file,
      and the cursor file as it was. */
  lemma SyncTransportFailure(
    files: map<Path, File>, cfg: SyncConfig, timestamp: string,
    serialize: Element -> string, send: string -> Transport, parse: Content -> Option<Element>)
    requires SeparateFiles(files, cfg, timestamp)
    ensures var run := SyncCycle(files, cfg, timestamp, serialize, send, parse);
      run.outcome.TransportFailed? <==> run.sent.Some? && !send(run.sent.value).Response?
    ensures var run := SyncCycle(files, cfg, timestamp, serialize, send, parse);
      run.outcome.TransportFailed? ==>
        && run.files.Keys == files.Keys + {cfg.entradaXml}
        && (forall p :: p in files && p != cfg.entradaXml ==> run.files[p] == files[p])
        && LoadNsu(run.files, cfg.nsuFile) == LoadNsu(files, cfg.nsuFile)
  {
    var id := ValidateCnpj(Some(CnpjInput(cfg)));
    var cursor := LoadNsu(files, cfg.nsuFile);
    if Request(files, cfg).Some? {
      var request := Request(files, cfg).value;
      var envelope := SoapEnvelope(Strip(serialize(request)));
      var reply := send(envelope);
      var withRequest := files[cfg.entradaXml := Readable(XmlDoc(request))];
      if reply.Response? {
        var path := ResponsePath(cfg, cursor, timestamp);
        var withResponse := withRequest[path := Readable(Text(reply.text))];
        assert SyncCycle(files, cfg, timestamp, serialize, send, parse)
          == Received(withResponse, cfg, envelope, parse(Text(reply.text)));
      } else {
        assert SyncCycle(files, cfg, timestamp, serialize, send, parse)
          == SyncRun(withRequest, Some(envelope), TransportFailed(reply));
        LoadNsuUnaffected(files, cfg.nsuFile, cfg.entradaXml, Readable(XmlDoc(request)));
      }
    }
  }

  /** After a successful exchange the raw response is saved, named with the cursor that was
      sent, whether or not it parses; the cursor file is overwritten exactly when the
      response names a non-empty `ultNSU`, and then with that value, larger or not. */
  lemma SyncAfterResponse(
    files: map<Path, File>, cfg: SyncConfig, timestamp: string,
    serialize: Element -> string, send: string -> Transport, parse: Content -> Option<Element>)
    requires SeparateFiles(files, cfg, timestamp)
    ensures var run := SyncCycle(files, cfg, timestamp, serialize, send, parse);
      var cursor := LoadNsu(files, cfg.nsuFile);
      run.sent.Some? && send(run.sent.value).Response? ==>
        var text := send(run.sent.value).text;
        && ResponsePath(cfg, cursor, timestamp) in run.files
        && run.files[ResponsePath(cfg, cursor, timestamp)] == Readable(Text(text))
        && (run.outcome.CursorSaved? <==>
             parse(Text(text)).Some? && ExtractUltNsu(parse(Text(text)).value).Some?
             && ExtractUltNsu(parse(Text(text)).value).value != "")
        && (run.outcome.CursorSaved? ==>
             run.outcome.nsu == ExtractUltNsu(parse(Text(text)).value).value
             && LoadNsu(run.files, cfg.nsuFile) == JString(run.outcome.nsu))
  {
    var id := ValidateCnpj(Some(CnpjInput(cfg)));
    var cursor := LoadNsu(files, cfg.nsuFile);
    if Request(files, cfg).Some? {
      var request := Request(files, cfg).value;
      var envelope := SoapEnvelope(Strip(serialize(request)));
      var reply := send(envelope);
      ExchangeSavesRequest(files, cfg, request, cursor, timestamp, serialize, send, parse);
      if reply.Response? {
        var path := ResponsePath(cfg, cursor, timestamp);
        var withResponse := files[cfg.entradaXml := Readable(XmlDoc(request))][path := Readable(Text(reply.text))];
        assert SyncCycle(files, cfg, timestamp, serialize, send, parse)
          == Received(withResponse, cfg, envelope, parse(Text(reply.text)));
        ReceivedKeeps(withResponse, cfg, envelope, parse(Text(reply.text)), path);
        ReceivedSaves(withResponse, cfg, envelope, parse(Text(reply.text)));
      }
    }
  }

  /** The cursor file is overwritten exactly when the parsed reply names a non-empty
      `ultNSU`, and then with it. */
  lemma ReceivedSaves(files: map<Path, File>, cfg: SyncConfig, envelope: string, parsed: Option<Element>)
    ensures var run := Received(files, cfg, envelope, parsed);
      && (run.outcome.CursorSaved? <==>
           parsed.Some? && ExtractUltNsu(parsed.value).Some? && ExtractUltNsu(parsed.value).value != "")
      && (run.outcome.CursorSaved? ==>
           run.outcome.nsu == ExtractUltNsu(parsed.value).value
           && LoadNsu(run.files, cfg.nsuFile) == JString(run.outcome.nsu))
      && (!run.outcome.CursorSaved? ==> run.files == files)
  {
  }

  /** No monotonicity check: a reply whose `ultNSU` is smaller than the persisted cursor
      still overwrites it. */
  lemma CursorMayGoBack(files: map<Path, File>, cfg: SyncConfig, envelope: string)
    requires LoadNsu(files, cfg.nsuFile) == JString("000000000000005")
    ensures var root := Element(NfeNs, "retDistDFeInt", map[], None, [Leaf("ultNSU", Some("000000000000002"))]);
      var run := Received(files, cfg, envelope, Some(root));
      run.outcome == CursorSaved("000000000000002")
      && LoadNsu(run.files, cfg.nsuFile) == JString("000000000000002")
  {
    var v := "000000000000002";
    var root := Element(NfeNs, "retDistDFeInt", map[], None, [Leaf("ultNSU", Some(v))]);
    assert Descendants(root) == [Leaf("ultNSU", Some(v))] by {
      LeafDescendants(root.children, Leaf("ultNSU", Some(v)));
    }
    FirstMatchAt(Descendants(root), NfeNs, "ultNSU", 0);
    StripUnpadded(v);
    assert ExtractUltNsu(root) == Some(v);
    ReceivedSaves(files, cfg, envelope, Some(root));
  }

  /** Unless a run saves a new cursor, the persisted cursor is the same after it. */
  lemma SyncCursorUnchangedUnlessSaved(
    files: map<Path, File>, cfg: SyncConfig, timestamp: string,
    serialize: Element -> string, send: string -> Transport, parse: Content -> Option<Element>)
    requires SeparateFiles(files, cfg, timestamp)
    ensures var run := SyncCycle(files, cfg, timestamp, serialize, send, parse);
      !run.outcome.CursorSaved? ==> LoadNsu(run.files, cfg.nsuFile) == LoadNsu(files, cfg.nsuFile)
  {
    var id := ValidateCnpj(Some(CnpjInput(cfg)));
    var cursor := LoadNsu(files, cfg.nsuFile);
    if Request(files, cfg).Some? {
      var request := Request(files, cfg).value;
      var envelope := SoapEnvelope(Strip(serialize(request)));
      var reply := send(envelope);
      var withRequest := files[cfg.entradaXml := Readable(XmlDoc(request))];
      LoadNsuUnaffected(files, cfg.nsuFile, cfg.entradaXml, Readable(XmlDoc(request)));
      if reply.Response? {
        var path := ResponsePath(cfg, cursor, timestamp);
        var withResponse := withRequest[path := Readable(Text(reply.text))];
        LoadNsuUnaffected(withRequest, cfg.nsuFile, path, Readable(Text(reply.text)));
        assert SyncCycle(files, cfg, timestamp, serialize, send, parse)
          == Received(withResponse, cfg, envelope, parse(Text(reply.text)));
        ReceivedSaves(withResponse, cfg, envelope, parse(Text(reply.text)));
      } else {
        assert SyncCycle(files, cfg, timestamp, serialize, send, parse)
          == SyncRun(withRequest, Some(envelope), TransportFailed(reply));
      }
    }
  }
}

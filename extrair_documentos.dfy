/**
 * The extractor `extrair_documentos.py`: it lists the saved responses (or takes the one
 * named by `--input`), finds every nfe `docZip` element in each, decodes its Base64 text,
 * decompresses it with gzip and writes the document to the output folder, named after
 * its `NSU` and `schema` attributes. A file that cannot be opened or parsed ends the
 * whole run; a `docZip` that is empty or does not decode is skipped.
 *
 * What the model takes as given: gzip decompression (`gunzip`, None where
 * `gzip.decompress` raises), lxml's parsing of a file's content (`parse`) and the names
 * `os.listdir` returns (`listing`, None where it raises).
 */
module ExtrairDocumentos {
  import opened Wrappers
  import opened Strings
  import opened XmlTree
  import opened Files
  import opened Base64
  import ConsultarDistribuicao

  // ---------------------------------------------------------------------------
  // listar_arquivos_xml
  // ---------------------------------------------------------------------------

  /** `f.lower().endswith(".xml")`. */
  predicate IsXmlName(f: string) {
    EndsWith(Lower(f), ".xml")
  }

  /** `listar_arquivos_xml(folder)`, over the names `os.listdir(folder)` returned, kept in
      that order. */
  function ListXmlFiles(folder: Path, names: seq<string>): (r: seq<Path>)
    ensures |r| <= |names|
  {
    if names == [] then []
    else (if IsXmlName(names[0]) then [Join(folder, names[0])] else []) + ListXmlFiles(folder, names[1..])
  }

  /** What is listed is exactly the XML names of the directory, each joined to the folder. */
  lemma {:induction false} ListXmlFilesMembers(folder: Path, names: seq<string>)
    ensures forall f :: f in names && IsXmlName(f) ==> Join(folder, f) in ListXmlFiles(folder, names)
    ensures forall p :: p in ListXmlFiles(folder, names) ==>
      exists f :: f in names && IsXmlName(f) && p == Join(folder, f)
  {
    if names != [] {
      ListXmlFilesMembers(folder, names[1..]);
      assert forall f :: f in names ==> f == names[0] || f in names[1..];
      forall p | p in ListXmlFiles(folder, names)
        ensures exists f :: f in names && IsXmlName(f) && p == Join(folder, f)
      {
        if p !in ListXmlFiles(folder, names[1..]) {
          assert IsXmlName(names[0]) && p == Join(folder, names[0]);
        } else {
          var f :| f in names[1..] && IsXmlName(f) && p == Join(folder, f);
          assert f in names;
        }
      }
    }
  }

  /** Listing keeps the order of the directory: the listing of two runs of names is the
      listing of the first followed by that of the second. */
  lemma {:induction false} ListXmlFilesAppend(folder: Path, a: seq<string>, b: seq<string>)
    ensures ListXmlFiles(folder, a + b) == ListXmlFiles(folder, a) + ListXmlFiles(folder, b)
  {
    if a == [] {
      assert a + b == b;
    } else {
      assert (a + b)[0] == a[0];
      assert (a + b)[1..] == a[1..] + b;
      ListXmlFilesAppend(folder, a[1..], b);
    }
  }

  /** Every response the sync script saves has a name the extractor lists. */
  lemma ResponseNameIsListed(cursor: string, timestamp: string)
    ensures IsXmlName(ConsultarDistribuicao.ResponseName(cursor, timestamp))
  {
    var name := ConsultarDistribuicao.ResponseName(cursor, timestamp);
    ConsultarDistribuicao.ResponseNameShape(cursor, timestamp);
    var n := |name|;
    forall i | 0 <= i < 4
      ensures Lower(name)[n - 4 + i] == ".xml"[i]
    {
      assert name[n - 4 + i] == name[n - 4..][i];
    }
    assert Lower(name)[n - 4..] == ".xml";
  }

  // ---------------------------------------------------------------------------
  // One docZip
  // ---------------------------------------------------------------------------

  /** `doczip.get("NSU") or f"nsu_{idx}"`. */
  function NsuOf(d: Element, idx: nat): (r: string)
    ensures r != ""
  {
    if "NSU" in d.attrs && d.attrs["NSU"] != "" then d.attrs["NSU"] else "nsu_" + NatToString(idx)
  }

  /** `doczip.get("schema") or "desconhecido"`. */
  function SchemaOf(d: Element): (r: string)
    ensures r != ""
  {
    if "schema" in d.attrs && d.attrs["schema"] != "" then d.attrs["schema"] else "desconhecido"
  }

  /** `f"{nsu}_{schema}.xml".replace("/", "_")`. */
  function OutputName(nsu: string, schema: string): (r: string)
    ensures |r| == |nsu| + 1 + |schema| + 4
    ensures forall i :: 0 <= i < |r| ==> r[i] != '/'
  {
    ReplaceChar(nsu + "_" + schema + ".xml", '/', '_')
  }

  /** The name keeps its "_<schema>.xml" shape: it ends in ".xml", and when neither
      attribute holds a '/', it is exactly `<nsu>_<schema>.xml`. */
  lemma OutputNameShape(nsu: string, schema: string)
    ensures EndsWith(OutputName(nsu, schema), ".xml")
    ensures (forall i :: 0 <= i < |nsu| ==> nsu[i] != '/') && (forall i :: 0 <= i < |schema| ==> schema[i] != '/')
      ==> OutputName(nsu, schema) == nsu + "_" + schema + ".xml"
  {
    var s := nsu + "_" + schema + ".xml";
    var r := OutputName(nsu, schema);
    assert r[|r| - 4..] == ".xml" by {
      forall i | |r| - 4 <= i < |r| ensures r[i] == ".xml"[i - (|r| - 4)] {
        assert s[i] == ".xml"[i - (|r| - 4)];
      }
    }
    if (forall i :: 0 <= i < |nsu| ==> nsu[i] != '/') && (forall i :: 0 <= i < |schema| ==> schema[i] != '/') {
      forall i | 0 <= i < |s| ensures s[i] != '/' {
        if i < |nsu| {
          assert s[i] == nsu[i];
        } else if |nsu| < i < |nsu| + 1 + |schema| {
          assert s[i] == schema[i - |nsu| - 1];
        }
      }
      assert r == s;
    }
  }

  /** An output file lands directly in the output folder, whatever the attributes hold:
      the name cannot start a new absolute path or name a sub-folder. */
  lemma OutputInFolder(dir: Path, nsu: string, schema: string)
    ensures var p := Join(dir, OutputName(nsu, schema));
      p == (if dir == [] || dir[|dir| - 1] == '/' then dir else dir + "/") + OutputName(nsu, schema)
  {
    var name := OutputName(nsu, schema);
    assert name[0] != '/';
  }

  /** The bytes of a `docZip`: `gzip.decompress(base64.b64decode(b64txt))` where b64txt is
      the stripped text. None for an absent text (which `or ""` turns into an empty
      b64txt), for an empty b64txt and for any exception either call raises. */
  function Payload(d: Element, gunzip: seq<bv8> -> Option<seq<bv8>>): Option<seq<bv8>> {
    match d.text
    case None => None
    case Some(t) =>
      var b64txt := Strip(t);
      if b64txt == "" then None
      else match B64Decode(b64txt)
        case None => None
        case Some(z) => gunzip(z)
  }

  /** A file to write into the output folder. */
  datatype Output = Output(name: string, data: seq<bv8>)

  /** What the loop body does for the docZip d, number idx: a file to write, or nothing
      when the docZip is skipped. */
  function Process(d: Element, idx: nat, gunzip: seq<bv8> -> Option<seq<bv8>>): Option<Output> {
    match Payload(d, gunzip)
    case None => None
    case Some(data) => Some(Output(OutputName(NsuOf(d, idx), SchemaOf(d)), data))
  }

  /** The server's encoding is undone: a docZip whose text is the Base64 of a gzip stream
      z, possibly surrounded by whitespace, yields the bytes z decompresses to. */
  lemma PayloadOfEncoded(d: Element, z: seq<bv8>, x: seq<bv8>, gunzip: seq<bv8> -> Option<seq<bv8>>)
    requires z != [] && gunzip(z) == Some(x)
    requires d.text == Some(Encode(z))
    ensures Payload(d, gunzip) == Some(x)
  {
    var s := Encode(z);
    assert !IsSpace(s[0]) by {
      assert IsBase64Char(s[0]) || s[0] == '=';
    }
    assert !IsSpace(s[|s| - 1]) by {
      assert IsBase64Char(s[|s| - 1]) || s[|s| - 1] == '=';
    }
    StripUnpadded(s);
    B64DecodeEncode(z);
    assert Strip(s) == s && s != "";
    assert B64Decode(Strip(s)) == Some(z);
  }

  /** A docZip with no text, or only whitespace, is skipped. */
  lemma BlankDocZipSkipped(d: Element, idx: nat, gunzip: seq<bv8> -> Option<seq<bv8>>)
    requires d.text.None? || AllSpace(d.text.value)
    ensures Process(d, idx, gunzip).None?
  {
  }

  /** A docZip whose text contains a character outside ASCII is skipped (b64decode raises). */
  lemma NonAsciiDocZipSkipped(d: Element, idx: nat, gunzip: seq<bv8> -> Option<seq<bv8>>)
    requires d.text.Some? && !IsAscii(Strip(d.text.value))
    ensures Process(d, idx, gunzip).None?
  {
  }

  // ---------------------------------------------------------------------------
  // extrair_doczip_de_xml
  // ---------------------------------------------------------------------------

  /** The loop body as a function of the docZip and its number. */
  function DocStep(gunzip: seq<bv8> -> Option<seq<bv8>>): (Element, nat) -> Option<Output> {
    (d: Element, idx: nat) => Process(d, idx, gunzip)
  }

  /** The files a loop `for idx, doczip in enumerate(docs, start=1)` writes when its body
      gives step(doczip, idx): one for each docZip not skipped, in order. */
  function Outputs(docs: seq<Element>, step: (Element, nat) -> Option<Output>): (r: seq<Output>)
    ensures |r| <= |docs|
  {
    if docs == [] then []
    else
      var last := step(docs[|docs| - 1], |docs|);
      Outputs(docs[..|docs| - 1], step) + (if last.Some? then [last.value] else [])
  }

  /** The outputs of one more docZip. */
  lemma OutputsSnoc(docs: seq<Element>, idx: nat, step: (Element, nat) -> Option<Output>)
    requires idx < |docs|
    ensures var p := step(docs[idx], idx + 1);
      Outputs(docs[..idx + 1], step) == Outputs(docs[..idx], step) + (if p.Some? then [p.value] else [])
  {
    assert docs[..idx + 1][..idx] == docs[..idx];
  }

  /** Every file written comes from one docZip, and every docZip not skipped gives one. */
  lemma {:induction false} OutputsFromDocZips(docs: seq<Element>, step: (Element, nat) -> Option<Output>)
    ensures forall o :: o in Outputs(docs, step) ==>
      exists i :: 0 <= i < |docs| && step(docs[i], i + 1) == Some(o)
    ensures forall i :: 0 <= i < |docs| && step(docs[i], i + 1).Some? ==>
      step(docs[i], i + 1).value in Outputs(docs, step)
  {
    if docs != [] {
      var n := |docs| - 1;
      var init := docs[..n];
      var p := step(docs[n], n + 1);
      var before := Outputs(init, step);
      OutputsFromDocZips(init, step);
      OutputsSnoc(docs, n, step);
      assert docs[..n + 1] == docs;
      assert Outputs(docs, step) == before + (if p.Some? then [p.value] else []);
      forall o | o in Outputs(docs, step)
        ensures exists i :: 0 <= i < |docs| && step(docs[i], i + 1) == Some(o)
      {
        if o in before {
          var i :| 0 <= i < |init| && step(init[i], i + 1) == Some(o);
          assert docs[i] == init[i];
        } else {
          assert p == Some(o);
        }
      }
      forall i | 0 <= i < |docs| && step(docs[i], i + 1).Some?
        ensures step(docs[i], i + 1).value in Outputs(docs, step)
      {
        if i < n {
          assert docs[i] == init[i];
        }
      }
    }
  }

  /** The number of docZips among docs whose Base64 text decodes and decompresses. */
  function Decodable(docs: seq<Element>, gunzip: seq<bv8> -> Option<seq<bv8>>): nat {
    if docs == [] then 0
    else Decodable(docs[..|docs| - 1], gunzip) + (if Payload(docs[|docs| - 1], gunzip).Some? then 1 else 0)
  }

  /** The count of files written is the number of docZips that decode. */
  lemma {:induction false} OutputsCount(docs: seq<Element>, gunzip: seq<bv8> -> Option<seq<bv8>>)
    ensures |Outputs(docs, DocStep(gunzip))| == Decodable(docs, gunzip)
  {
    if docs != [] {
      OutputsCount(docs[..|docs| - 1], gunzip);
    }
  }

  /** The files after writing the outputs ws into dir, one after the other. */
  function ApplyOutputs(files: map<Path, File>, dir: Path, ws: seq<Output>): map<Path, File> {
    if ws == [] then files
    else
      var last := ws[|ws| - 1];
      ApplyOutputs(files, dir, ws[..|ws| - 1])[Join(dir, last.name) := Readable(Bytes(last.data))]
  }

  lemma ApplyOutputsSnoc(files: map<Path, File>, dir: Path, ws: seq<Output>, o: Output)
    ensures ApplyOutputs(files, dir, ws + [o]) == ApplyOutputs(files, dir, ws)[Join(dir, o.name) := Readable(Bytes(o.data))]
  {
    assert (ws + [o])[..|ws|] == ws;
  }

  /** A file no output names is left as it was. */
  lemma {:induction false} ApplyOutputsElsewhere(files: map<Path, File>, dir: Path, ws: seq<Output>, p: Path)
    requires forall i :: 0 <= i < |ws| ==> Join(dir, ws[i].name) != p
    ensures p in ApplyOutputs(files, dir, ws) <==> p in files
    ensures p in files ==> ApplyOutputs(files, dir, ws)[p] == files[p]
  {
    if ws != [] {
      ApplyOutputsElsewhere(files, dir, ws[..|ws| - 1], p);
    }
  }

  /** Two docZips with the same output name: the later one wins. */
  lemma {:induction false} ApplyOutputsLast(files: map<Path, File>, dir: Path, ws: seq<Output>, i: nat)
    requires i < |ws|
    requires forall j :: i < j < |ws| ==> Join(dir, ws[j].name) != Join(dir, ws[i].name)
    ensures Join(dir, ws[i].name) in ApplyOutputs(files, dir, ws)
    ensures ApplyOutputs(files, dir, ws)[Join(dir, ws[i].name)] == Readable(Bytes(ws[i].data))
  {
    if i < |ws| - 1 {
      ApplyOutputsLast(files, dir, ws[..|ws| - 1], i);
    }
  }

  /** Why opening or parsing a response ended the run: `open` raised `OSError`, or
      `etree.fromstring` raised `XMLSyntaxError`. Neither is caught. */
  datatype ExtractError = Unopenable(path: Path) | NotXml(path: Path)

  /** The files after a step, and its count or the error that stopped it. */
  datatype ExtractRun = ExtractRun(files: map<Path, File>, result: Result<nat, ExtractError>)

  /** The docZips of a parsed response: `root.findall(".//nfe:docZip")`. */
  function DocZips(root: Element): seq<Element> {
    FindAll(root, ConsultarDistribuicao.NfeNs, "docZip")
  }

  /** `extrair_doczip_de_xml(path)`, writing into dir. */
  function ExtractFile(
    files: map<Path, File>, path: Path, dir: Path,
    gunzip: seq<bv8> -> Option<seq<bv8>>, parse: Content -> Option<Element>)
    : ExtractRun
  {
    if path !in files || files[path].Unreadable? then ExtractRun(files, Failure(Unopenable(path)))
    else match parse(files[path].content)
      case None => ExtractRun(files, Failure(NotXml(path)))
      case Some(root) =>
        var ws := Outputs(DocZips(root), DocStep(gunzip));
        ExtractRun(ApplyOutputs(files, dir, ws), Success(|ws|))
  }

  /** A file that opens and parses yields the number of its docZips that decode, and
      changes only the files its outputs name; an unopenable or unparsable one changes
      nothing. */
  lemma ExtractFileCount(
    files: map<Path, File>, path: Path, dir: Path,
    gunzip: seq<bv8> -> Option<seq<bv8>>, parse: Content -> Option<Element>)
    ensures var run := ExtractFile(files, path, dir, gunzip, parse);
      run.result.Success? <==> path in files && files[path].Readable? && parse(files[path].content).Some?
    ensures var run := ExtractFile(files, path, dir, gunzip, parse);
      run.result.Success? ==> run.result.value == Decodable(DocZips(parse(files[path].content).value), gunzip)
    ensures var run := ExtractFile(files, path, dir, gunzip, parse);
      run.result.Failure? ==> run.files == files
  {
    if path in files && files[path].Readable? && parse(files[path].content).Some? {
      OutputsCount(DocZips(parse(files[path].content).value), gunzip);
    }
  }

  /** A response with no docZip: nothing is written and the count is 0. */
  lemma ExtractFileNoDocZip(
    files: map<Path, File>, path: Path, dir: Path,
    gunzip: seq<bv8> -> Option<seq<bv8>>, parse: Content -> Option<Element>)
    requires path in files && files[path].Readable?
    requires parse(files[path].content).Some? && DocZips(parse(files[path].content).value) == []
    ensures ExtractFile(files, path, dir, gunzip, parse) == ExtractRun(files, Success(0))
  {
  }

  /** The body of the `for idx, doczip in enumerate(doczips, start=1)` loop, up to the
      write: the name and the bytes of the file to write, or None where it `continue`s. */
  method DecodeDocZip(d: Element, idx: nat, gunzip: seq<bv8> -> Option<seq<bv8>>) returns (o: Option<Output>)
    ensures o == Process(d, idx, gunzip)
  {
    var nsu := NsuOf(d, idx);
    var schema := SchemaOf(d);
    if d.text.None? {
      return None;
    }
    var b64txt := Strip(d.text.value);
    if b64txt == "" {
      return None;
    }
    var decoded := B64Decode(b64txt);
    if decoded.None? {
      return None;
    }
    var data := gunzip(decoded.value);
    if data.None? {
      return None;
    }
    return Some(Output(OutputName(nsu, schema), data.value));
  }

  /** The `for idx, doczip in enumerate(doczips, start=1)` loop over the file system fs:
      each docZip not skipped is written into dir, and the count is of those written. */
  method WriteDocZips(
    fs: FileSystem, docs: seq<Element>, dir: Path, gunzip: seq<bv8> -> Option<seq<bv8>>,
    ghost step: (Element, nat) -> Option<Output>)
    returns (count: nat)
    requires forall d, idx :: step(d, idx) == Process(d, idx, gunzip)
    modifies fs
    ensures fs.files == ApplyOutputs(old(fs.files), dir, Outputs(docs, step))
    ensures count == |Outputs(docs, step)|
  {
    count := 0;
    var idx := 0;
    assert docs[..0] == [];
    while idx < |docs|
      invariant 0 <= idx <= |docs|
      invariant fs.files == ApplyOutputs(old(fs.files), dir, Outputs(docs[..idx], step))
      invariant count == |Outputs(docs[..idx], step)|
    {
      OutputsSnoc(docs, idx, step);
      var o := DecodeDocZip(docs[idx], idx + 1, gunzip);
      assert o == step(docs[idx], idx + 1);
      if o.Some? {
        ApplyOutputsSnoc(old(fs.files), dir, Outputs(docs[..idx], step), o.value);
        fs.Write(Join(dir, o.value.name), Bytes(o.value.data));
        count := count + 1;
      } else {
        assert Outputs(docs[..idx], step) + [] == Outputs(docs[..idx], step);
      }
      idx := idx + 1;
    }
    assert docs[..|docs|] == docs;
  }

  /** `extrair_doczip_de_xml(path)` over the file system fs. */
  method ExtractDocZips(
    fs: FileSystem, path: Path, dir: Path,
    gunzip: seq<bv8> -> Option<seq<bv8>>, parse: Content -> Option<Element>)
    returns (result: Result<nat, ExtractError>)
    modifies fs
    ensures ExtractRun(fs.files, result) == ExtractFile(old(fs.files), path, dir, gunzip, parse)
  {
    if path !in fs.files || fs.files[path].Unreadable? {
      return Failure(Unopenable(path));
    }
    var root := parse(fs.files[path].content);
    if root.None? {
      return Failure(NotXml(path));
    }
    var docs := DocZips(root.value);
    if docs == [] {
      return Success(0);
    }
    var count := WriteDocZips(fs, docs, dir, gunzip, DocStep(gunzip));
    return Success(count);
  }

  // ---------------------------------------------------------------------------
  // main
  // ---------------------------------------------------------------------------

  /** A run's total carried over earlier files: total is added to a successful count. */
  function Shift(total: nat, run: ExtractRun): (r: ExtractRun)
    ensures r.files == run.files && r.result.Success? == run.result.Success?
  {
    if run.result.Success? then ExtractRun(run.files, Success(total + run.result.value)) else run
  }

  lemma ShiftZero(run: ExtractRun)
    ensures Shift(0, run) == run
  {
    if run.result.Success? {
      assert run.result == Success(0 + run.result.value);
    }
  }

  lemma ShiftShift(x: nat, y: nat, run: ExtractRun)
    ensures Shift(x, Shift(y, run)) == Shift(x + y, run)
  {
  }

  /** `extrair_doczip_de_xml` as a function of the files and the path. */
  function FileStep(dir: Path, gunzip: seq<bv8> -> Option<seq<bv8>>, parse: Content -> Option<Element>)
    : (map<Path, File>, Path) -> ExtractRun
  {
    (files: map<Path, File>, path: Path) => ExtractFile(files, path, dir, gunzip, parse)
  }

  /** The `for arq in arquivos` loop with body step: each file in turn, the counts summed;
      the first file that cannot be opened or parsed ends it. */
  function ExtractAll(files: map<Path, File>, paths: seq<Path>, step: (map<Path, File>, Path) -> ExtractRun)
    : ExtractRun
    decreases |paths|
  {
    if paths == [] then ExtractRun(files, Success(0))
    else
      var before := ExtractAll(files, paths[..|paths| - 1], step);
      if before.result.Failure? then before
      else Shift(before.result.value, step(before.files, paths[|paths| - 1]))
  }

  /** The loop after one more file. */
  lemma ExtractAllSnoc(files: map<Path, File>, paths: seq<Path>, i: nat, step: (map<Path, File>, Path) -> ExtractRun)
    requires i < |paths|
    ensures var before := ExtractAll(files, paths[..i], step);
      ExtractAll(files, paths[..i + 1], step) ==
        if before.result.Failure? then before else Shift(before.result.value, step(before.files, paths[i]))
  {
    assert paths[..i + 1][..i] == paths[..i];
  }

  /** Once a file has failed, the files after it change nothing: the run is the failed one. */
  lemma {:induction false} ExtractAllStops(
    files: map<Path, File>, paths: seq<Path>, k: nat, step: (map<Path, File>, Path) -> ExtractRun)
    requires k <= |paths|
    requires ExtractAll(files, paths[..k], step).result.Failure?
    ensures ExtractAll(files, paths, step) == ExtractAll(files, paths[..k], step)
    decreases |paths|
  {
    if k < |paths| {
      var init := paths[..|paths| - 1];
      assert init[..k] == paths[..k];
      ExtractAllStops(files, init, k, step);
    } else {
      assert paths[..k] == paths;
    }
  }

  /** Extracting a concatenation of file lists: the first list, then, unless it failed,
      the second from where the first left the files, with the totals added. */
  lemma {:induction false} ExtractAllAppend(
    files: map<Path, File>, a: seq<Path>, b: seq<Path>, step: (map<Path, File>, Path) -> ExtractRun)
    ensures var ra := ExtractAll(files, a, step);
      ExtractAll(files, a + b, step) ==
        if ra.result.Failure? then ra else Shift(ra.result.value, ExtractAll(ra.files, b, step))
    decreases |b|
  {
    var ra := ExtractAll(files, a, step);
    if b == [] {
      assert a + b == a;
      if ra.result.Success? {
        assert ra.result == Success(ra.result.value + 0);
      }
    } else {
      var b' := b[..|b| - 1];
      var p := b[|b| - 1];
      assert (a + b)[..|a + b| - 1] == a + b';
      assert (a + b)[|a + b| - 1] == p;
      ExtractAllAppend(files, a, b', step);
      if ra.result.Success? {
        var rb' := ExtractAll(ra.files, b', step);
        if rb'.result.Success? {
          ShiftShift(ra.result.value, rb'.result.value, step(rb'.files, p));
        }
      }
    }
  }

  /** One file: the loop does what its body does on it. */
  lemma ExtractAllSingle(files: map<Path, File>, path: Path, step: (map<Path, File>, Path) -> ExtractRun)
    ensures ExtractAll(files, [path], step) == step(files, path)
  {
    assert [path][..0] == [];
    ShiftZero(step(files, path));
  }

  /** A file that cannot be opened or parsed aborts the run: the files listed after it
      are not read, and the outputs of those before it stay written. */
  lemma ExtractionAbortsAt(
    files: map<Path, File>, before: seq<Path>, bad: Path, after: seq<Path>,
    step: (map<Path, File>, Path) -> ExtractRun)
    requires ExtractAll(files, before, step).result.Success?
    requires step(ExtractAll(files, before, step).files, bad).result.Failure?
    ensures ExtractAll(files, before + [bad] + after, step) == step(ExtractAll(files, before, step).files, bad)
  {
    var s := before + [bad] + after;
    var k := |before| + 1;
    assert s[..k] == before + [bad];
    assert (before + [bad])[..|before|] == before;
    ExtractAllStops(files, s, k, step);
  }

  /** The `for arq in arquivos` loop over the file system fs. The ghost step is what one
      iteration does to the files, ExtractFile; callers pass FileStep(dir, gunzip, parse). */
  method ExtractFiles(
    fs: FileSystem, arquivos: seq<Path>, dir: Path,
    gunzip: seq<bv8> -> Option<seq<bv8>>, parse: Content -> Option<Element>,
    ghost step: (map<Path, File>, Path) -> ExtractRun)
    returns (result: Result<nat, ExtractError>)
    requires forall files, path :: step(files, path) == ExtractFile(files, path, dir, gunzip, parse)
    modifies fs
    ensures ExtractRun(fs.files, result) == ExtractAll(old(fs.files), arquivos, step)
  {
    var total: nat := 0;
    var i := 0;
    assert arquivos[..0] == [];
    while i < |arquivos|
      invariant 0 <= i <= |arquivos|
      invariant ExtractAll(old(fs.files), arquivos[..i], step) == ExtractRun(fs.files, Success(total))
    {
      ExtractAllSnoc(old(fs.files), arquivos, i, step);
      ghost var before := fs.files;
      var r := ExtractDocZips(fs, arquivos[i], dir, gunzip, parse);
      assert step(before, arquivos[i]) == ExtractRun(fs.files, r);
      if r.Failure? {
        ExtractAllStops(old(fs.files), arquivos, i + 1, step);
        return r;
      }
      total := total + r.value;
      i := i + 1;
    }
    assert arquivos[..i] == arquivos;
    return Success(total);
  }

  /** How a run of the extractor ends: `listdir` raised, no XML file to read, a file that
      could not be opened or parsed, or the total of files extracted. */
  datatype ExtractOutcome =
    | ListingFailed
    | NoXmlFound
    | Aborted(error: ExtractError)
    | Extracted(total: nat)

  /** `arquivos`: the `--input` file when given (and non-empty), otherwise the XML files
      listed in the responses folder; None when that folder cannot be listed. */
  function InputFiles(input: Option<string>, listing: Option<seq<string>>, responses: Path): (r: Option<seq<Path>>)
    ensures input.Some? && input.value != "" ==> r == Some([input.value])
    ensures !(input.Some? && input.value != "") ==>
      r == if listing.None? then None else Some(ListXmlFiles(responses, listing.value))
  {
    if input.Some? && input.value != "" then Some([input.value])
    else match listing
      case None => None
      case Some(names) => Some(ListXmlFiles(responses, names))
  }

  datatype ExtractionRun = ExtractionRun(files: map<Path, File>, outcome: ExtractOutcome)

  /** The outcome of the loop, as `main` reports it. */
  function Outcome(run: ExtractRun): ExtractOutcome {
    match run.result
    case Failure(e) => Aborted(e)
    case Success(total) => Extracted(total)
  }

  /** One run of `main`: responses is `PASTA_RESPOSTAS`, dir is `PASTA_SAIDA`. */
  function Extraction(
    files: map<Path, File>, input: Option<string>, listing: Option<seq<string>>,
    responses: Path, dir: Path,
    gunzip: seq<bv8> -> Option<seq<bv8>>, parse: Content -> Option<Element>)
    : ExtractionRun
  {
    match InputFiles(input, listing, responses)
    case None => ExtractionRun(files, ListingFailed)
    case Some(arquivos) =>
      if arquivos == [] then ExtractionRun(files, NoXmlFound)
      else
        var run := ExtractAll(files, arquivos, FileStep(dir, gunzip, parse));
        ExtractionRun(run.files, Outcome(run))
  }

  /** `main` of the extractor over the file system fs. */
  method ExtractMain(
    fs: FileSystem, input: Option<string>, listing: Option<seq<string>>,
    responses: Path, dir: Path,
    gunzip: seq<bv8> -> Option<seq<bv8>>, parse: Content -> Option<Element>)
    returns (outcome: ExtractOutcome)
    modifies fs
    ensures ExtractionRun(fs.files, outcome) == Extraction(old(fs.files), input, listing, responses, dir, gunzip, parse)
  {
    var arquivos: seq<Path>;
    if input.Some? && input.value != "" {
      arquivos := [input.value];
    } else if listing.None? {
      return ListingFailed;
    } else {
      arquivos := ListXmlFiles(responses, listing.value);
    }
    if arquivos == [] {
      return NoXmlFound;
    }
    var result := ExtractFiles(fs, arquivos, dir, gunzip, parse, FileStep(dir, gunzip, parse));
    outcome := Outcome(ExtractRun(fs.files, result));
  }

  /** With `--input` the listing is not consulted: the run is that file's extraction. */
  lemma ExtractionOfInput(
    files: map<Path, File>, path: Path, listing: Option<seq<string>>,
    responses: Path, dir: Path,
    gunzip: seq<bv8> -> Option<seq<bv8>>, parse: Content -> Option<Element>)
    requires path != ""
    ensures var run := Extraction(files, Some(path), listing, responses, dir, gunzip, parse);
      var one := ExtractFile(files, path, dir, gunzip, parse);
      && run.files == one.files
      && (one.result.Success? ==> run.outcome == Extracted(one.result.value))
      && (one.result.Failure? ==> run.outcome == Aborted(one.result.error))
  {
    ExtractAllSingle(files, path, FileStep(dir, gunzip, parse));
  }
}

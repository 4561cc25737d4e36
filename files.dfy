/**
 * The file system both scripts share, as a map from path to file. The sync cycle
 * stores raw responses in it and the extractor reads them back from it: this map is
 * the storage boundary between the two scripts.
 */
module Files {
  import opened XmlTree

  type Path = string

  /** A JSON value as `json.load` returns it (numbers are integers in this model). */
  datatype Json =
    | JNull
    | JBool(b: bool)
    | JNumber(n: int)
    | JString(s: string)
    | JArray(items: seq<Json>)
    | JObject(fields: map<string, Json>)

  /** What a readable file holds: text written in text mode, bytes written in binary
      mode, a JSON document (the only content `json.load` accepts) or the serialisation
      of an element tree. */
  datatype Content =
    | Text(text: string)
    | Bytes(bytes: seq<bv8>)
    | JsonDoc(json: Json)
    | XmlDoc(tree: Element)

  /** A file that exists; opening or reading an `Unreadable` one raises `OSError`. */
  datatype File = Readable(content: Content) | Unreadable

  class FileSystem {
    var files: map<Path, File>

    constructor (initial: map<Path, File>)
      ensures files == initial
    {
      files := initial;
    }

    /** `open(path, "w")` and a write of `c`: the file is created or overwritten. */
    method Write(path: Path, c: Content)
      modifies this
      ensures files == old(files)[path := Readable(c)]
    {
      files := files[path := Readable(c)];
    }
  }
}

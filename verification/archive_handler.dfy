/** `CrudeArchiveHandler`: the archive held in memory and its operations.
    Loading and saving are functions over the bytes of the archive file; the
    JSON text of the body is produced and parsed by functions passed in. */
module ArchiveHandler {
  import opened Wrappers
  import opened Bytes
  import opened OrderedDict
  import opened Common
  import Base64
  import Utf8
  import StringOps

  /** What `add_file` accepts: raw bytes, or text that it encodes as UTF-8. */
  datatype Content = Binary(bytes: seq<byte>) | Text(text: string)

  function ContentBytes(c: Content): seq<byte>
  {
    match c
    case Binary(b) => b
    case Text(t) => Utf8.Encode(t)
  }

  /** The `ValueError`s and parse failures the handler raises. */
  datatype Error =
    | NoFilename                        // "No filename specified"
    | InvalidFormat                     // "Invalid CRUD archive format"
    | MalformedBody                     // the body is not JSON with a `files` object
    | BadContent                        // a payload is not valid base64
    | UnsupportedType(fileType: string) // "Unsupported file type: ..."
    | NotText(name: string)             // "File ... is not a text file ..."

  /** The handler's state: the file it loads from and saves to, and the stored files. */
  datatype Handler = Handler(filename: Option<string>, files: Dict<Entry>)

  predicate WellFormed(h: Handler)
  {
    Valid(h.files)
  }

  /** `if not self.filename`: `None` and the empty name both count as unset. */
  predicate HasFilename(h: Handler)
  {
    h.filename.Some? && h.filename.value != ""
  }

  /** Every stored type tag passes `validate_file_type`. */
  predicate TypesValid(h: Handler)
  {
    forall name :: name in h.files.items ==> ValidateFileType(h.files.items[name].fileType)
  }

  /** `list_files`: the stored names in insertion order. */
  function ListFiles(h: Handler): (names: seq<string>)
    ensures WellFormed(h) ==> NoDuplicates(names)
    ensures WellFormed(h) ==> forall n :: n in names <==> n in h.files.items
  {
    h.files.keys
  }

  /** `get_file_info`: the stored type and bytes, or `None` for an unknown name. */
  function GetFileInfo(h: Handler, name: string): (r: Option<Entry>)
    ensures WellFormed(h) ==> (r.None? <==> name !in ListFiles(h))
  {
    Get(h.files, name)
  }

  /** `get_file`: the stored bytes, or `None` for an unknown name. */
  function GetFile(h: Handler, name: string): (r: Option<seq<byte>>)
    ensures r.Some? <==> GetFileInfo(h, name).Some?
    ensures r.Some? ==> r.value == GetFileInfo(h, name).value.content
    ensures WellFormed(h) ==> (r.None? <==> name !in ListFiles(h))
  {
    match GetFileInfo(h, name)
    case None => None
    case Some(e) => Some(e.content)
  }

  /** `CrudeArchiveHandler(filename)`. */
  function Init(filename: Option<string>): (h: Handler)
    ensures h.filename == filename
    ensures WellFormed(h) && TypesValid(h)
    ensures ListFiles(h) == []
  {
    Handler(filename, Empty())
  }

  /** `create`: forget every stored file and take the new file name. */
  function Create(filename: string): (h: Handler)
    ensures h.filename == Some(filename)
    ensures WellFormed(h) && TypesValid(h)
    ensures ListFiles(h) == []
    ensures forall name :: GetFileInfo(h, name) == None
  {
    Handler(Some(filename), Empty())
  }

  /** The type given to a file when the caller passes none: the text after the
      name's last '.', or `default` when the name has no '.'. */
  function InferType(name: string, default: string): (t: string)
    ensures '.' !in name ==> t == default
    ensures '.' in name ==> '.' !in t && |t| < |name| && name[|name| - |t|..] == t
    ensures '.' in name ==> name[|name| - |t| - 1] == '.'
  {
    if '.' in name then StringOps.LastPart(name, '.') else default
  }

  /** The type `add_file` stores: the one passed, else the inferred one. */
  function TypeFor(name: string, fileType: Option<string>): string
  {
    match fileType
    case Some(t) => t
    case None => InferType(name, "bin")
  }

  /** `add_file`: store `content` under `name` when its type is supported. */
  function AddFile(h: Handler, name: string, content: Content, fileType: Option<string>): (r: Result<Handler, Error>)
    ensures r.Err? <==> !ValidateFileType(TypeFor(name, fileType))
    ensures r.Err? ==> r.error == UnsupportedType(TypeFor(name, fileType))
    ensures r.Ok? ==> r.value.filename == h.filename
    ensures r.Ok? ==> GetFileInfo(r.value, name) == Some(Entry(TypeFor(name, fileType), ContentBytes(content)))
    ensures r.Ok? ==> GetFile(r.value, name) == Some(ContentBytes(content))
    ensures r.Ok? ==> forall other :: other != name ==> GetFileInfo(r.value, other) == GetFileInfo(h, other)
    ensures r.Ok? && WellFormed(h) ==> WellFormed(r.value)
    ensures r.Ok? && WellFormed(h) && name in ListFiles(h) ==> ListFiles(r.value) == ListFiles(h)
    ensures r.Ok? && WellFormed(h) && name !in ListFiles(h) ==> ListFiles(r.value) == ListFiles(h) + [name]
    ensures r.Ok? && TypesValid(h) ==> TypesValid(r.value)
  {
    var t := TypeFor(name, fileType);
    if !ValidateFileType(t) then Err(UnsupportedType(t))
    else Ok(h.(files := Put(h.files, name, Entry(t, ContentBytes(content)))))
  }

  /** `remove_file`: forget `name`, if it is stored. */
  function RemoveFile(h: Handler, name: string): (r: Handler)
    ensures r.filename == h.filename
    ensures GetFileInfo(r, name) == None
    ensures forall other :: other != name ==> GetFileInfo(r, other) == GetFileInfo(h, other)
    ensures GetFileInfo(h, name) == None ==> r == h
    ensures WellFormed(h) ==> WellFormed(r)
    ensures WellFormed(h) ==> forall other :: other in ListFiles(r) <==> other in ListFiles(h) && other != name
    ensures TypesValid(h) ==> TypesValid(r)
  {
    h.(files := Delete(h.files, name))
  }

  /** `get_file_as_text` with the UTF-8 codec: `None` for an unknown name, an
      error when the stored bytes are not UTF-8. */
  function GetFileAsText(h: Handler, name: string): (r: Result<Option<string>, Error>)
    ensures r == Ok(None) <==> GetFile(h, name).None?
    ensures r.Ok? && r.value.Some? ==> GetFile(h, name) == Some(Utf8.Encode(r.value.value))
    ensures r.Err? ==> r.error == NotText(name)
    ensures r.Err? <==> GetFile(h, name).Some? && forall s :: GetFile(h, name).value != Utf8.Encode(s)
  {
    match GetFile(h, name)
    case None => Ok(None)
    case Some(b) =>
      match Utf8.Decode(b)
      case None => Err(NotText(name))
      case Some(s) =>
        Utf8.DecodeIffEncode(b, s);
        Ok(Some(s))
  }

  /** `add_text_file` with the UTF-8 codec: like `add_file`, but a name without
      a '.' gets the type "txt". */
  function AddTextFile(h: Handler, name: string, text: string): (r: Result<Handler, Error>)
    ensures r.Err? <==> !ValidateFileType(InferType(name, "txt"))
    ensures r.Err? ==> r.error == UnsupportedType(InferType(name, "txt"))
    ensures r.Ok? ==> r.value.filename == h.filename
    ensures r.Ok? ==> GetFileInfo(r.value, name) == Some(Entry(InferType(name, "txt"), Utf8.Encode(text)))
    ensures r.Ok? ==> GetFileAsText(r.value, name) == Ok(Some(text))
    ensures r.Ok? ==> forall other :: other != name ==> GetFileInfo(r.value, other) == GetFileInfo(h, other)
    ensures r.Ok? && WellFormed(h) ==> WellFormed(r.value)
    ensures r.Ok? && WellFormed(h) && name in ListFiles(h) ==> ListFiles(r.value) == ListFiles(h)
    ensures r.Ok? && WellFormed(h) && name !in ListFiles(h) ==> ListFiles(r.value) == ListFiles(h) + [name]
    ensures r.Ok? && TypesValid(h) ==> TypesValid(r.value)
  {
    AddFile(h, name, Binary(Utf8.Encode(text)), Some(InferType(name, "txt")))
  }

  /** `save`: the bytes written to the archive file, the magic header followed
      by the rendered body. */
  function Save(h: Handler, render: Body -> seq<byte>): (r: Result<seq<byte>, Error>)
    requires WellFormed(h)
    ensures r.Err? <==> !HasFilename(h)
    ensures r.Err? ==> r.error == NoFilename
    ensures r.Ok? ==> |r.value| >= 10 && r.value[..10] == MagicHeader
    ensures r.Ok? ==> r.value[10..] == render(SerializeArchive(h.files))
  {
    if !HasFilename(h) then Err(NoFilename)
    else Ok(MagicHeader + render(SerializeArchive(h.files)))
  }

  /** The payloads of `infos` under `keys`, decoded from base64, in that order;
      `None` when one of them is not valid base64. */
  function DecodeKeys(keys: seq<string>, infos: map<string, FileInfo>): (r: Option<Dict<Entry>>)
    requires NoDuplicates(keys)
    requires forall k :: k in keys ==> k in infos
    ensures r.Some? <==> forall k :: k in keys ==> Base64.Decode(infos[k].content).Some?
    ensures r.Some? ==> Valid(r.value) && r.value.keys == keys
    ensures r.Some? ==> forall k :: k in keys ==>
      Get(r.value, k) == Some(Entry(infos[k].fileType, Base64.Decode(infos[k].content).value))
    decreases |keys|
  {
    if |keys| == 0 then Some(Empty())
    else
      var init, last := keys[..|keys| - 1], keys[|keys| - 1];
      NoDuplicatesSnoc(keys);
      match DecodeKeys(init, infos)
      case None => None
      case Some(d) =>
        match Base64.Decode(infos[last].content)
        case None => None
        case Some(b) =>
          PutDecoded(keys, infos, d, b);
          Some(Put(d, last, Entry(infos[last].fileType, b)))
  }

  /** The entry of `infos` under `k`, with its payload decoded. */
  ghost predicate HoldsDecoded(d: Dict<Entry>, infos: map<string, FileInfo>, k: string)
    requires k in infos
  {
    Base64.Decode(infos[k].content).Some? && Get(d, k) == Some(Entry(infos[k].fileType, Base64.Decode(infos[k].content).value))
  }

  /** Adding the decoded last payload to the decoded others decodes all of `keys`. */
  lemma PutDecoded(keys: seq<string>, infos: map<string, FileInfo>, d: Dict<Entry>, b: seq<byte>)
    requires |keys| > 0 && NoDuplicates(keys)
    requires forall k :: k in keys ==> k in infos
    requires Valid(d) && d.keys == keys[..|keys| - 1]
    requires forall k :: k in d.keys ==> HoldsDecoded(d, infos, k)
    requires Base64.Decode(infos[keys[|keys| - 1]].content) == Some(b)
    ensures var r := Put(d, keys[|keys| - 1], Entry(infos[keys[|keys| - 1]].fileType, b));
      && Valid(r) && r.keys == keys
      && forall k :: k in keys ==> HoldsDecoded(r, infos, k)
  {
    NoDuplicatesSnoc(keys);
  }

  /** The dict comprehension in `load`: every payload decoded from base64,
      names and types kept, order kept. */
  function DecodeFiles(infos: Dict<FileInfo>): (r: Option<Dict<Entry>>)
    requires Valid(infos)
    ensures r.Some? <==> forall k :: k in infos.items ==> Base64.Decode(infos.items[k].content).Some?
    ensures r.Some? ==> Valid(r.value) && r.value.keys == infos.keys
    ensures r.Some? ==> forall k :: k in infos.items ==>
      Get(r.value, k) == Some(Entry(infos.items[k].fileType, Base64.Decode(infos.items[k].content).value))
  {
    DecodeKeys(infos.keys, infos.items)
  }

  /** `load`: check the magic header, parse the body, decode every payload and
      replace the whole store. */
  function Load(h: Handler, file: seq<byte>, parse: seq<byte> -> Option<Body>): (r: Result<Handler, Error>)
    ensures !HasFilename(h) ==> r == Err(NoFilename)
    ensures HasFilename(h) ==> (r == Err(InvalidFormat) <==> !(|file| >= 10 && file[..10] == MagicHeader))
    ensures r.Ok? ==> r.value.filename == h.filename && WellFormed(r.value)
    ensures HasFilename(h) && |file| >= 10 && file[..10] == MagicHeader ==>
      (r == Err(MalformedBody) <==> parse(file[10..]).None?)
    ensures HasFilename(h) && |file| >= 10 && file[..10] == MagicHeader && parse(file[10..]).Some? ==>
      var infos := DeserializeArchive(parse(file[10..]).value);
      (r == Err(BadContent) <==> exists k :: k in infos.items && Base64.Decode(infos.items[k].content).None?)
    ensures r.Err? ==> r.error.NoFilename? || r.error.InvalidFormat? || r.error.MalformedBody? || r.error.BadContent?
    ensures HasFilename(h) ==> r != Err(NoFilename)
    ensures r.Ok? ==> parse(file[10..]).Some?
    ensures r.Ok? ==>
      var infos := DeserializeArchive(parse(file[10..]).value);
      && r.value.files.keys == infos.keys
      && forall k :: k in r.value.files.items ==>
           && k in infos.items
           && Base64.Decode(infos.items[k].content).Some?
           && r.value.files.items[k] == Entry(infos.items[k].fileType, Base64.Decode(infos.items[k].content).value)
  {
    if !HasFilename(h) then Err(NoFilename)
    else
      var header := file[..if |file| < |MagicHeader| then |file| else |MagicHeader|];
      if header != MagicHeader then Err(InvalidFormat)
      else
        match parse(file[|MagicHeader|..])
        case None => Err(MalformedBody)
        case Some(body) =>
          match DecodeFiles(DeserializeArchive(body))
          case None => Err(BadContent)
          case Some(files) => Ok(Handler(h.filename, files))
  }

  /** Saving and then loading the saved bytes gives back the same files: the
      same names in the same order, each with the same type and bytes. The
      JSON layer only has to give back the body it rendered. */
  lemma LoadSave(h: Handler, target: Handler, render: Body -> seq<byte>, parse: seq<byte> -> Option<Body>)
    requires WellFormed(h) && HasFilename(h) && HasFilename(target)
    requires parse(render(SerializeArchive(h.files))) == Some(SerializeArchive(h.files))
    ensures Save(h, render).Ok?
    ensures Load(target, Save(h, render).value, parse) == Ok(target.(files := h.files))
  {
    var body := SerializeArchive(h.files);
    var file := Save(h, render).value;
    assert file[..10] == MagicHeader && file[10..] == render(body);
    var infos := DeserializeArchive(body);
    DeserializeSerialize(h.files);
    assert forall k :: k in infos.items <==> k in h.files.keys;
    forall k | k in infos.items
      ensures Base64.Decode(infos.items[k].content) == Some(h.files.items[k].content)
    {
      var i :| 0 <= i < |h.files.keys| && h.files.keys[i] == k;
      assert Get(infos, h.files.keys[i]) == Some(EncodeEntry(h.files.items[k]));
      Base64.DecodeEncode(h.files.items[k].content);
    }
    var decoded := DecodeFiles(infos).value;
    forall i | 0 <= i < |decoded.keys|
      ensures Get(decoded, decoded.keys[i]) == Get(h.files, decoded.keys[i])
    {
      var k := decoded.keys[i];
      assert Get(infos, h.files.keys[i]) == Some(EncodeEntry(h.files.items[k]));
    }
    Extensionality(decoded, h.files);
  }

  /** Adding a new name and removing it again restores the handler exactly. */
  lemma AddThenRemove(h: Handler, name: string, content: Content, fileType: Option<string>)
    requires WellFormed(h)
    requires name !in ListFiles(h)
    requires AddFile(h, name, content, fileType).Ok?
    ensures RemoveFile(AddFile(h, name, content, fileType).value, name) == h
  {
    var added := AddFile(h, name, content, fileType).value;
    var removed := RemoveFile(added, name);
    assert added.files.keys == h.files.keys + [name];
    assert removed.files.keys == Without(h.files.keys + [name], name);
    WithoutAt(h.files.keys + [name], name, |h.files.keys|);
    assert (h.files.keys + [name])[..|h.files.keys|] == h.files.keys;
    forall i | 0 <= i < |removed.files.keys|
      ensures Get(removed.files, removed.files.keys[i]) == Get(h.files, removed.files.keys[i])
    {
    }
    Extensionality(removed.files, h.files);
  }

  /** `remove_file` takes `name` out of the listing and keeps the other names
      in their order. */
  lemma RemoveFileKeepsOrder(h: Handler, name: string, i: int)
    requires WellFormed(h)
    requires 0 <= i < |ListFiles(h)| && ListFiles(h)[i] == name
    ensures ListFiles(RemoveFile(h, name)) == ListFiles(h)[..i] + ListFiles(h)[i + 1..]
  {
    DeleteKeepsOrder(h.files, name, i);
  }

  /** Adding the same file twice is the same as adding it once. */
  lemma AddFileTwice(h: Handler, name: string, content: Content, fileType: Option<string>)
    requires WellFormed(h)
    requires AddFile(h, name, content, fileType).Ok?
    ensures AddFile(AddFile(h, name, content, fileType).value, name, content, fileType)
            == AddFile(h, name, content, fileType)
  {
    var once := AddFile(h, name, content, fileType).value;
    var twice := AddFile(once, name, content, fileType).value;
    forall i | 0 <= i < |twice.files.keys|
      ensures Get(twice.files, twice.files.keys[i]) == Get(once.files, twice.files.keys[i])
    {
    }
    Extensionality(twice.files, once.files);
  }

  /** The calls a client makes on a handler. */
  datatype Call =
    | CreateCall(filename: string)
    | AddFileCall(name: string, content: Content, fileType: Option<string>)
    | AddTextFileCall(name: string, text: string)
    | RemoveFileCall(name: string)

  /** One call; a call that raises leaves the handler as it was. */
  function Step(h: Handler, call: Call): Handler
  {
    match call
    case CreateCall(filename) => Create(filename)
    case AddFileCall(name, content, fileType) =>
      (match AddFile(h, name, content, fileType) case Ok(h') => h' case Err(_) => h)
    case AddTextFileCall(name, text) =>
      (match AddTextFile(h, name, text) case Ok(h') => h' case Err(_) => h)
    case RemoveFileCall(name) => RemoveFile(h, name)
  }

  /** The calls in order. */
  function Run(h: Handler, calls: seq<Call>): Handler
    decreases |calls|
  {
    if |calls| == 0 then h else Run(Step(h, calls[0]), calls[1..])
  }

  /** A handler used only through `create`, `add_file`, `add_text_file` and
      `remove_file` stays well formed and holds only supported types. */
  lemma {:induction false} RunKeepsInvariants(h: Handler, calls: seq<Call>)
    requires WellFormed(h) && TypesValid(h)
    ensures WellFormed(Run(h, calls)) && TypesValid(Run(h, calls))
    decreases |calls|
  {
    if |calls| > 0 {
      RunKeepsInvariants(Step(h, calls[0]), calls[1..]);
    }
  }

  /** "readme.txt" gets the type "txt". */
  lemma InferTypeExample()
    ensures InferType("readme.txt", "bin") == "txt"
  {
  }

  /** Adding "readme.txt" as the bytes of "hello" and reading it back as text
      gives "hello". */
  lemma ReadmeExample(filename: string)
    ensures AddFile(Create(filename), "readme.txt", Binary([0x68, 0x65, 0x6C, 0x6C, 0x6F]), None).Ok?
    ensures GetFileAsText(AddFile(Create(filename), "readme.txt", Binary([0x68, 0x65, 0x6C, 0x6C, 0x6F]), None).value, "readme.txt")
            == Ok(Some("hello"))
  {
    var hello: seq<byte> := [0x68, 0x65, 0x6C, 0x6C, 0x6F];
    InferTypeExample();
    Common.ValidateFileTypeExamples();
    var r := AddFile(Create(filename), "readme.txt", Binary(hello), None);
    assert r.Ok?;
    assert GetFile(r.value, "readme.txt") == Some(hello);
    HelloBytes();
  }

  lemma HelloBytes()
    ensures Utf8.Encode("hello") == [0x68, 0x65, 0x6C, 0x6C, 0x6F]
  {
    Utf8.EncodeAscii("hello");
  }
}

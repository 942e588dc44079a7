/** `ArchiveCommon`: the constants and the body codec shared by the handler. */
module Common {
  import opened Wrappers
  import opened Bytes
  import opened OrderedDict
  import Base64
  import StringOps

  /** `MAGIC_HEADER`: the ten bytes that open every archive file. */
  const MagicHeader: seq<byte> := [0x43, 0x52, 0x55, 0x44, 0x41, 0x52, 0x43, 0x48, 0x76, 0x31]

  /** `MAGIC_HEADER` is the bytes literal `b"CRUDARCHv1"`: ten bytes, the ASCII
      codes of that text. */
  lemma MagicHeaderIsAscii()
    ensures |MagicHeader| == 10
    ensures forall i :: 0 <= i < 10 ==> MagicHeader[i] == "CRUDARCHv1"[i] as int
  {
  }

  /** `SUPPORTED_TYPES`. */
  const SupportedTypes: set<string> := {"txt", "json", "py", "bin"}

  /** `validate_file_type`: the lowered tag is one of the supported types. */
  predicate ValidateFileType(fileType: string): (ok: bool)
    ensures ok ==> 2 <= |fileType| <= 4
  {
    StringOps.Lower(fileType) in SupportedTypes
  }

  /** `a` and `b` spell the same word up to the case of ASCII letters. */
  predicate SameIgnoringCase(a: string, b: string)
  {
    |a| == |b| && forall i :: 0 <= i < |a| ==> StringOps.LowerChar(a[i]) == StringOps.LowerChar(b[i])
  }

  /** A type tag is accepted exactly when it spells a supported type in any
      mix of upper and lower case. */
  lemma ValidateFileTypeIgnoresCase(fileType: string)
    ensures ValidateFileType(fileType) <==> exists w :: w in SupportedTypes && SameIgnoringCase(fileType, w)
  {
    var lowered := StringOps.Lower(fileType);
    StringOps.LowerIdempotent(fileType);
    if ValidateFileType(fileType) {
      assert SameIgnoringCase(fileType, lowered);
    }
    forall w | w in SupportedTypes && SameIgnoringCase(fileType, w)
      ensures ValidateFileType(fileType)
    {
      StringOps.LowerIdempotent(w);
      assert lowered == StringOps.Lower(w);
    }
  }

  /** The whitelist at work on a few tags. */
  lemma ValidateFileTypeExamples()
    ensures ValidateFileType("txt") && ValidateFileType("TXT") && ValidateFileType("Json")
    ensures ValidateFileType("pY") && ValidateFileType("BIN")
    ensures !ValidateFileType("exe") && !ValidateFileType("") && !ValidateFileType("text")
  {
    assert StringOps.Lower("TXT") == "txt";
    assert StringOps.Lower("Json") == "json";
    assert StringOps.Lower("pY") == "py";
    assert StringOps.Lower("BIN") == "bin";
    assert StringOps.Lower("exe") == "exe";
    assert StringOps.Lower("text") == "text";
  }

  /** One stored file: its type tag as given and its raw bytes. */
  datatype Entry = Entry(fileType: string, content: seq<byte>)

  /** One member of the body's `files` object: the type tag and the base64 text
      of the payload. */
  datatype FileInfo = FileInfo(fileType: string, content: string)

  /** The `files` object of the serialized body: its members in document order. */
  type Body = seq<(string, FileInfo)>

  /** The serialized form of one entry. */
  function EncodeEntry(e: Entry): FileInfo
  {
    FileInfo(e.fileType, Base64.Encode(e.content))
  }

  /** The members for `keys`, in that order. */
  function SerializeKeys(keys: seq<string>, items: map<string, Entry>): (body: Body)
    requires forall k :: k in keys ==> k in items
    ensures |body| == |keys|
    ensures forall i :: 0 <= i < |keys| ==> body[i].0 == keys[i] && body[i].1 == EncodeEntry(items[keys[i]])
    decreases |keys|
  {
    if |keys| == 0 then []
    else [(keys[0], EncodeEntry(items[keys[0]]))] + SerializeKeys(keys[1..], items)
  }

  /** `serialize_archive` up to the JSON text: one member per stored file, in
      the store's order, with its name, its type and its base64 content. */
  function SerializeArchive(files: Dict<Entry>): (body: Body)
    requires Valid(files)
    ensures |body| == |files.keys|
    ensures forall i :: 0 <= i < |body| ==> body[i].0 == files.keys[i] && body[i].1 == EncodeEntry(files.items[files.keys[i]])
  {
    SerializeKeys(files.keys, files.items)
  }

  /** `deserialize_archive` up to the JSON text: the `files` object built from
      its members the way a JSON object becomes a `dict`. A repeated name keeps
      the place of its first member and takes the value of its last. */
  function DeserializeArchive(body: Body): (files: Dict<FileInfo>)
    ensures Valid(files)
    ensures forall name :: Get(files, name).Some? <==> name in Names(body)
    ensures InFirstOccurrenceOrder(body, files.keys)
    ensures HoldsLastValues(body, files)
  {
    FromPairs(body)
  }

  /** The member names of a serialized store are its keys, in order. */
  lemma SerializedNames(files: Dict<Entry>)
    requires Valid(files)
    ensures Names(SerializeArchive(files)) == files.keys
  {
    var body := SerializeArchive(files);
    assert forall i :: 0 <= i < |body| ==> Names(body)[i] == files.keys[i];
  }

  /** Deserializing a serialized store gives back the same names in the same
      order, each with its type and base64 content. */
  lemma DeserializeSerialize(files: Dict<Entry>)
    requires Valid(files)
    ensures DeserializeArchive(SerializeArchive(files)).keys == files.keys
    ensures forall i :: 0 <= i < |files.keys| ==>
      Get(DeserializeArchive(SerializeArchive(files)), files.keys[i]) == Some(EncodeEntry(files.items[files.keys[i]]))
  {
    var body := SerializeArchive(files);
    SerializedNames(files);
    FromDistinctPairs(body);
    SerializedLookup(files, FromPairs(body));
  }

  /** A dict that maps each member name of a serialized store to its member
      maps each stored name to its encoded entry. */
  lemma SerializedLookup(files: Dict<Entry>, d: Dict<FileInfo>)
    requires Valid(files)
    requires forall i :: 0 <= i < |files.keys| ==> Get(d, SerializeArchive(files)[i].0) == Some(SerializeArchive(files)[i].1)
    ensures forall i :: 0 <= i < |files.keys| ==> Get(d, files.keys[i]) == Some(EncodeEntry(files.items[files.keys[i]]))
  {
    var body := SerializeArchive(files);
    forall i | 0 <= i < |files.keys|
      ensures Get(d, files.keys[i]) == Some(EncodeEntry(files.items[files.keys[i]]))
    {
      assert body[i].0 == files.keys[i];
    }
  }
}

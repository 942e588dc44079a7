# crudearchive in Dafny

A model of the non-GUI core of crudearchive, a single-file container format
(`.crudearch`). It covers two pieces:

- **The in-memory archive (`CrudeArchiveHandler`).** It is an insertion-ordered
  map from entry name to `(type, bytes)`. Its operations are `create`,
  `add_file`, `add_text_file`, `get_file`, `get_file_info`, `get_file_as_text`,
  `remove_file` and `list_files`. Loading and saving are modelled as functions
  over the bytes of the archive file.
- **The container codec (`ArchiveCommon`).** This is the fixed magic header
  `CRUDARCHv1`, the supported-type whitelist, base64 payloads (section 4 of
  RFC 4648), and the `files` body that maps each name to `{type, content}`.

Modules, one per concept:

| file | module | models |
|---|---|---|
| `wrappers.dfy` | `Wrappers` | `Option` for Python's `None`, `Result` for a call that may raise |
| `bytes.dfy` | `Bytes` | `byte`, an integer in 0..255 |
| `string_ops.dfy` | `StringOps` | `str.split` and `str.lower` (ASCII) |
| `ordered_dict.dfy` | `OrderedDict` | a Python `dict` with string keys: a key list plus a map |
| `utf8.dfy` | `Utf8` | the UTF-8 codec (section 3 of RFC 3629) behind `encode('utf-8')` / `decode('utf-8')` |
| `base64.dfy` | `Base64` | `b64encode` / `b64decode` |
| `common.dfy` | `Common` | `ArchiveCommon` |
| `archive_handler.dfy` | `ArchiveHandler` | `CrudeArchiveHandler` |

The handler's state is an immutable `Handler(filename, files)`. Each method that
mutates `self` becomes a function that returns the new state. A method that
raises returns `Err(...)`, and the caller keeps its old state. That is exactly
what the source does: every check happens before `self.files` is assigned.

`json.dumps` and `json.loads` are not part of this model. The body is the
structured value `Common.Body`: the members of the `files` object in document
order. `Save` takes the JSON renderer as a parameter `render: Body -> seq<byte>`.
`Load` takes the parser as a parameter `parse: seq<byte> -> Option<Body>`.
`Common.DeserializeArchive` then builds the `files` dict the way a JSON object
becomes a Python `dict`: a repeated key keeps its first position and takes its
last value. The load/save round trip assumes only one thing about the JSON
layer: parsing what it rendered gives back the same body.

## Model

| member | source | states |
|---|---|---|
| `Common.MagicHeaderIsAscii` | common.py:8 | the magic header is ten bytes long, the ASCII codes of "CRUDARCHv1" |
| `Common.ValidateFileType` | common.py:40-43 | an accepted type tag has two to four characters |
| `Common.ValidateFileTypeIgnoresCase` | common.py:40-43 | a type tag is accepted exactly when it spells one of txt, json, py, bin in any mix of letter case |
| `Common.ValidateFileTypeExamples` | common.py:9 | "txt", "TXT", "Json", "pY" and "BIN" are accepted; "exe", "" and "text" are refused |
| `StringOps.Lower` | common.py:43 | lowering keeps the length and lowers each character on its own |
| `Base64.Encode` | common.py:11-19 | the encoding of n bytes has 4 * ceil(n / 3) characters: alphabet characters (A-Z a-z 0-9 + /) followed by exactly (3 - n mod 3) mod 3 '=' |
| `Base64.DecodeEncode` | common.py:11-19 | decoding the encoding of any byte sequence gives the sequence back |
| `Base64.Decode` | common.py:16-19 | text that the strict decoder accepts is exactly as long as the encoding of the bytes it yields: 4 * ceil(n / 3) characters for n bytes |
| `Base64.DecodeAcceptsOnlyAlphabet` | common.py:16-19 | the strict decoder accepts only text made of alphabet characters and '=' |
| `Base64.DecodeRejectsPartialQuantum` | common.py:16-19 | the strict decoder refuses text whose length is not a multiple of four |
| `Base64.ValueOf` | common.py:19 | a character has a 6-bit value exactly when it is in the alphabet, and that value maps back to the character |
| `Common.SerializeKeys` | common.py:24-31 | one member per listed name, in the listed order, with the entry's type and base64 content |
| `Common.SerializeArchive` | common.py:21-33 | the body has exactly one member per stored file, in store order, with the same name, the same type and the base64 of its bytes |
| `Common.DeserializeArchive` | common.py:35-38 | the rebuilt `files` dict is well formed; its names are exactly the body's member names, listed in the order of their first member, and each holds the value of its last member |
| `Common.DeserializeSerialize` | common.py:21-38 | deserializing a serialized store gives the same names in the same order, each with its type and base64 content |
| `OrderedDict.Put` | archive_handler.py:78-81 | after `d[k] = v`, k maps to v and every other key is unchanged; a new key goes last and an existing key keeps its place |
| `OrderedDict.Without` | archive_handler.py:98 | only the given key is dropped from the key list; duplicate-freedom is kept |
| `OrderedDict.Delete` | archive_handler.py:97-98 | after `del d[k]`, k is absent and every other key is unchanged; deleting an absent key changes nothing |
| `OrderedDict.WithoutAt` | archive_handler.py:98 | dropping a key that occurs once at position i leaves the keys before i followed by the keys after i |
| `OrderedDict.DeleteKeepsOrder` | archive_handler.py:97-98 | deleting the key at position i leaves the others in their order |
| `OrderedDict.FromPairs` | common.py:38 | a dict built from pairs is well formed and holds exactly the pairs' keys, listed in the order of their first occurrence; each key holds the value of its last pair |
| `OrderedDict.FromDistinctPairs` | common.py:38 | with distinct keys, the dict lists them in pair order and maps each to its own value |
| `StringOps.Split` | archive_handler.py:70 | `split` yields at least one part, no part holds the separator, and joining the parts gives the string back |
| `StringOps.LastPart` | archive_handler.py:70 | the last part of `split('.')` is the text after the last '.', or the whole name when it has no '.' |
| `Utf8.EncodeChar` | archive_handler.py:76 | a character takes one byte exactly when it is below U+0080, and at most four; the lead byte announces the length (00-7F, C2-DF, E0-EF, F0-F4) and every later byte is a continuation byte 80-BF |
| `Utf8.DecodeChar` | archive_handler.py:109 | a decoded character takes 1-4 bytes, and those bytes are exactly its encoding |
| `Utf8.DecodeEncodeChar` | archive_handler.py:76 | a character's encoding decodes back to that character, whatever follows it |
| `Utf8.Encode` | archive_handler.py:75-76 | decoding the UTF-8 encoding of any string gives the string back |
| `Utf8.Decode` | archive_handler.py:109 | decoded text has no more characters than there are bytes, and at least a quarter as many |
| `Utf8.DecodeIffEncode` | archive_handler.py:104-112 | a byte string decodes to s if and only if it is the encoding of s |
| `ArchiveHandler.Init` | archive_handler.py:30-32 | a new handler holds the given file name and no files |
| `ArchiveHandler.Create` | archive_handler.py:34-37 | `create` sets the file name and leaves the store empty, with no entry for any name |
| `ArchiveHandler.ListFiles` | archive_handler.py:100-102 | the listing never repeats a name and holds exactly the stored names |
| `ArchiveHandler.GetFileInfo` | archive_handler.py:89-93 | the info is None exactly for a name that is not listed |
| `ArchiveHandler.GetFile` | archive_handler.py:83-87 | the content is None exactly for a name that is not listed; otherwise it is the content in the file's info |
| `ArchiveHandler.InferType` | archive_handler.py:69-70 | with no '.' in the name the default is used; otherwise the type is the dot-free suffix that follows the name's last '.' |
| `ArchiveHandler.InferTypeExample` | archive_handler.py:70 | "readme.txt" gets the type "txt" |
| `ArchiveHandler.AddFile` | archive_handler.py:67-81 | fails with UnsupportedType exactly when the type is not whitelisted. On success: name maps to the type as given (not lowered) and the bytes (UTF-8 for text); other entries, the file name and the type invariant are unchanged; a new name goes last and an existing name keeps its place |
| `ArchiveHandler.RemoveFile` | archive_handler.py:95-98 | removes only the name; other entries are unchanged; removing an absent name changes nothing; the invariants are kept |
| `ArchiveHandler.RemoveFileKeepsOrder` | archive_handler.py:95-102 | after removal the listing is the old listing with that one name taken out of its place |
| `ArchiveHandler.GetFileAsText` | archive_handler.py:104-112 | None exactly for an unknown name. Otherwise fails with NotText exactly when the stored bytes encode no string, and else returns the text whose encoding they are |
| `ArchiveHandler.AddTextFile` | archive_handler.py:114-117 | fails with UnsupportedType exactly when the inferred type (default "txt") is unsupported. On success: the entry holds that type and the UTF-8 bytes and reads back as the same text; other entries, the file name and the type invariant are unchanged; a new name goes last and an existing name keeps its place |
| `ArchiveHandler.Save` | archive_handler.py:58-65 | fails exactly when no file name is set; otherwise it writes the magic header followed by the rendered body |
| `ArchiveHandler.DecodeKeys` | archive_handler.py:50-56 | succeeds exactly when every listed payload is valid base64; keeps the listed order and each name's type, with decoded bytes |
| `ArchiveHandler.DecodeFiles` | archive_handler.py:50-56 | the dict comprehension in `load`: succeeds exactly when every payload decodes; keeps names, order and types |
| `ArchiveHandler.Load` | archive_handler.py:39-56 | fails when no file name is set. Fails with InvalidFormat exactly when the file's first ten bytes are not the magic header, including files shorter than ten bytes. After a good header, fails with MalformedBody exactly when the body does not parse, and with BadContent exactly when some payload is not strictly valid base64; it succeeds otherwise. On success, the new store lists the body's names in order, each with its type and its decoded bytes |
| `ArchiveHandler.LoadSave` | archive_handler.py:39-65 | loading what `save` wrote gives back the same store: the same names in the same order, with the same types and bytes |
| `ArchiveHandler.AddThenRemove` | archive_handler.py:67-98 | adding a new name and then removing it restores the handler exactly |
| `ArchiveHandler.AddFileTwice` | archive_handler.py:67-81 | adding the same file twice is the same as adding it once |
| `ArchiveHandler.RunKeepsInvariants` | archive_handler.py:34-117 | after any sequence of create / add_file / add_text_file / remove_file calls, the store stays well formed and every stored type passes `validate_file_type` |
| `ArchiveHandler.ReadmeExample` | archive_handler.py:67-112 | adding "readme.txt" with the bytes of "hello" and reading it back as text gives "hello" |

## Left out

- `manager.py`: the Tkinter GUI, which only calls into the handler.
- File I/O: `open`, `read` and `write` in `load` and `save`, and `import_directory` (archive_handler.py:119-125). `Load` takes the file's bytes, and `Save` returns them. A missing or unreadable file is not modelled.
- JSON text: `json.dumps(indent=2)`, `json.loads` and the UTF-8 step around them are parameters of `Save` and `Load`. A body that is not JSON, or that has no `files` object, is the single error `MalformedBody`. A member whose `type` is not a string cannot be expressed. A member without `type` or `content`, or with a `content` that is not a string, can only fail the parser and so becomes `MalformedBody`; Python raises `KeyError` or `AttributeError` for it inside the comprehension of `load`, and when such a body also holds a bad payload it raises whichever error the comprehension meets first.
- `Base64.DecodeRejectsPartialQuantum`: this holds for the strict decoder only. Python's default `b64decode` first drops characters outside the alphabet and stops at completed padding, so it accepts `"QQ==\n"` (giving `b"A"`) and `"QUJD="` (giving `b"ABC"`), which the model refuses.
- `ArchiveHandler.Load`: a payload counts as bad when the strict `Base64.Decode` refuses it. Python's `load` also accepts payloads that its lenient `b64decode` repairs, such as `"QQ==\n"`, which the model reports as BadContent.
- `Common.ValidateFileType`: its own contract gives only the length bound; the exact set of accepted tags is stated by `Common.ValidateFileTypeIgnoresCase`.
- `Base64.Decode`: Python's non-validating `b64decode` is more lenient on malformed text. For example, it skips characters outside the alphabet. `Base64.Decode` refuses such text. The two agree on every string `Base64.Encode` produces, which is all that `load` of a saved archive sees.
- `StringOps.Lower`: this is ASCII lowering, not Unicode `str.lower()`. For this whitelist the two give the same verdict. The only non-ASCII characters whose lowercase form contains an ASCII letter are U+0130 (which lowers to "i" plus a combining dot) and U+212A (which lowers to "k"), and neither completes a supported word.
- Text encodings other than UTF-8 in `get_file_as_text` and `add_text_file` (the `encoding` parameter). Only the default `'utf-8'` is modelled. Python strings holding lone surrogates, which fail to encode, cannot occur, because a Dafny `char` is a Unicode scalar value.
- `get_file_info` returns the live dict, so a caller can change the store through it. The model returns a value.
- `test_3d_models.py` calls `add_3d_model`, which is not defined in archive_handler.py. The 3D-model metadata, signature checks, restricted types, size limits and metadata extractors have no code in archive_handler.py or common.py, so there is nothing to model.
- `__init__.py`, `setup.py` and the repeated import fallbacks (archive_handler.py:3-25) are packaging only.

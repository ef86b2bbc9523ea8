/**
 * The thumbnail chosen for a file (`src/config/thumbnail-data.ts`): a table
 * from thumbnail kinds to the MIME types and extensions shown with them,
 * turned into a dictionary from each type to its kind, and the lookup that
 * falls back to "unsupported".
 */
module Thumbnail {
  import opened Wrappers
  import opened OrderedMaps

  /** `typeExtensionMatchList`, in the order of its keys. */
  type KindTable = seq<(string, seq<string>)>

  const ImageTypes: seq<string> := ["png", "image/png", "image/bmp", "image/gif", "image/vnd.microsoft.icon",
    "image/jpeg", "image/jpg", "image/svg+xml", "image/tiff", "image/webp"]
  const VideoTypes: seq<string> := ["video/mp4", "video/mpeg", "video/ogg", "video/mp2t", "video/webm",
    "video/3gpp", "video/3gpp2", "video/x-msvideo"]
  const PdfTypes: seq<string> := ["application/pdf", "pdf"]
  const DocTypes: seq<string> := ["application/vnd.openxmlformats-officedocument.wordprocessingml.document",
    "text/plain", "doc", "docx"]
  const XlsTypes: seq<string> := ["application/vnd.ms-excel", "text/csv", "xls", "xlsx", "xlsm", "xltx"]
  const ZipTypes: seq<string> := ["application/x-zip-compressed", "application/zip", "application/x-tar",
    "application/vnd.rar", "tar", "zip", "tgz"]

  const Kinds: KindTable := [("image", ImageTypes), ("video", VideoTypes), ("pdf", PdfTypes),
    ("doc", DocTypes), ("xls", XlsTypes), ("zip", ZipTypes)]

  /** `extensions.forEach(ext => { acc[ext] = key })`. */
  function PutEach(acc: Entries<string, string>, exts: seq<string>, kind: string): (r: Entries<string, string>)
    requires UniqueKeys(acc)
    ensures UniqueKeys(r)
  {
    if exts == [] then acc
    else
      var prev := PutEach(acc, exts[..|exts| - 1], kind);
      UniqueKeysPut(prev, exts[|exts| - 1], kind);
      Put(prev, exts[|exts| - 1], kind)
  }

  /** `extensionTypeDict`: the table folded, kind by kind, into one dictionary from type to kind. */
  function TypeDict(table: KindTable): (r: Entries<string, string>)
    ensures UniqueKeys(r)
  {
    if table == [] then []
    else
      var (kind, exts) := table[|table| - 1];
      PutEach(TypeDict(table[..|table| - 1]), exts, kind)
  }

  /** The kind of the last entry of the table that lists `t`, if any. */
  function LastKindOf(table: KindTable, t: string): Option<string>
  {
    if table == [] then None
    else if t in table[|table| - 1].1 then Some(table[|table| - 1].0)
    else LastKindOf(table[..|table| - 1], t)
  }

  lemma {:induction false} PutEachGet(acc: Entries<string, string>, exts: seq<string>, kind: string, t: string)
    requires UniqueKeys(acc)
    ensures Get(PutEach(acc, exts, kind), t) == if t in exts then Some(kind) else Get(acc, t)
  {
    if exts != [] {
      var init := exts[..|exts| - 1];
      PutEachGet(acc, init, kind, t);
      GetPut(PutEach(acc, init, kind), exts[|exts| - 1], kind, t);
      assert exts == init + [exts[|exts| - 1]];
      assert (t in exts) == (t in init || t == exts[|exts| - 1]);
    }
  }

  /** A type maps to the kind that lists it last; a type no kind lists is not in the dictionary. */
  lemma {:induction false} TypeDictGet(table: KindTable, t: string)
    ensures Get(TypeDict(table), t) == LastKindOf(table, t)
  {
    if table != [] {
      TypeDictGet(table[..|table| - 1], t);
      PutEachGet(TypeDict(table[..|table| - 1]), table[|table| - 1].1, table[|table| - 1].0, t);
    }
  }

  /** No type is listed under two kinds. */
  lemma ImageTypesOnly()
    ensures forall t :: t in ImageTypes ==> t !in VideoTypes && t !in PdfTypes && t !in DocTypes && t !in XlsTypes && t !in ZipTypes
  {
  }

  lemma VideoTypesOnly()
    ensures forall t :: t in VideoTypes ==> t !in PdfTypes && t !in DocTypes && t !in XlsTypes && t !in ZipTypes
  {
  }

  lemma DocumentTypesOnly()
    ensures forall t :: t in PdfTypes ==> t !in DocTypes && t !in XlsTypes && t !in ZipTypes
    ensures forall t :: t in DocTypes ==> t !in XlsTypes && t !in ZipTypes
    ensures forall t :: t in XlsTypes ==> t !in ZipTypes
  {
  }

  lemma LastKindOfSnoc(table: KindTable, kind: string, types: seq<string>, t: string)
    ensures LastKindOf(table + [(kind, types)], t) == if t in types then Some(kind) else LastKindOf(table, t)
  {
    assert (table + [(kind, types)])[..|table|] == table;
  }

  /** The kind the table gives each type: with the lists disjoint, the one kind that lists it. */
  lemma {:induction false} KindsLastKind(t: string)
    ensures LastKindOf(Kinds, t) ==
      if t in ImageTypes then Some("image")
      else if t in VideoTypes then Some("video")
      else if t in PdfTypes then Some("pdf")
      else if t in DocTypes then Some("doc")
      else if t in XlsTypes then Some("xls")
      else if t in ZipTypes then Some("zip")
      else None
  {
    ImageTypesOnly();
    VideoTypesOnly();
    DocumentTypesOnly();
    var k1: KindTable := [("image", ImageTypes)];
    var k2 := k1 + [("video", VideoTypes)];
    var k3 := k2 + [("pdf", PdfTypes)];
    var k4 := k3 + [("doc", DocTypes)];
    var k5 := k4 + [("xls", XlsTypes)];
    assert Kinds == k5 + [("zip", ZipTypes)];
    assert k1 == [] + [("image", ImageTypes)];
    LastKindOfSnoc([], "image", ImageTypes, t);
    LastKindOfSnoc(k1, "video", VideoTypes, t);
    LastKindOfSnoc(k2, "pdf", PdfTypes, t);
    LastKindOfSnoc(k3, "doc", DocTypes, t);
    LastKindOfSnoc(k4, "xls", XlsTypes, t);
    LastKindOfSnoc(k5, "zip", ZipTypes, t);
  }

  /** The dictionary built from the table. */
  function ExtensionTypeDict(): (r: Entries<string, string>)
    ensures UniqueKeys(r)
  {
    TypeDict(Kinds)
  }

  /**
   * `getThumbnail(isDir, type)`, with the dictionary read by its own keys
   * only: "folder" for a directory, the kind listing the type, else
   * "unsupported".
   */
  function GetThumbnail(isDir: bool, fileType: string): (r: string)
    ensures isDir ==> r == "folder"
    ensures !isDir ==> r in {"image", "video", "pdf", "doc", "xls", "zip", "unsupported"}
  {
    if isDir then "folder"
    else
      TypeDictGet(Kinds, fileType);
      KindsLastKind(fileType);
      match Get(ExtensionTypeDict(), fileType)
      case Some(kind) => kind
      case None => "unsupported"
  }

  /** Each listed type gets its own kind's thumbnail, and every other type "unsupported". */
  lemma GetThumbnailKinds(fileType: string)
    ensures fileType in ImageTypes ==> GetThumbnail(false, fileType) == "image"
    ensures fileType in VideoTypes ==> GetThumbnail(false, fileType) == "video"
    ensures fileType in PdfTypes ==> GetThumbnail(false, fileType) == "pdf"
    ensures fileType in DocTypes ==> GetThumbnail(false, fileType) == "doc"
    ensures fileType in XlsTypes ==> GetThumbnail(false, fileType) == "xls"
    ensures fileType in ZipTypes ==> GetThumbnail(false, fileType) == "zip"
    ensures (forall i :: 0 <= i < |Kinds| ==> fileType !in Kinds[i].1) ==> GetThumbnail(false, fileType) == "unsupported"
  {
    TypeDictGet(Kinds, fileType);
    KindsLastKind(fileType);
    ImageTypesOnly();
    VideoTypesOnly();
    DocumentTypesOnly();
    if forall i :: 0 <= i < |Kinds| ==> fileType !in Kinds[i].1 {
      assert fileType !in Kinds[0].1 && fileType !in Kinds[1].1 && fileType !in Kinds[2].1;
      assert fileType !in Kinds[3].1 && fileType !in Kinds[4].1 && fileType !in Kinds[5].1;
    }
  }

  /** What a property read `dict[key]` on a plain JavaScript object gives. */
  datatype JsValue = Str(s: string) | Inherited(name: string) | Undefined

  /** The names every plain object inherits from `Object.prototype`; each is a function or an object, so truthy. */
  const ObjectPrototypeMembers: set<string> := {"constructor", "hasOwnProperty", "isPrototypeOf",
    "propertyIsEnumerable", "toLocaleString", "toString", "valueOf", "__proto__", "__defineGetter__",
    "__defineSetter__", "__lookupGetter__", "__lookupSetter__"}

  /** `extensionTypeDict[type]`: an own key first, then the prototype chain. */
  function ReadProperty(dict: Entries<string, string>, key: string): (r: JsValue)
    ensures r.Str? <==> Get(dict, key).Some?
    ensures r.Inherited? <==> Get(dict, key).None? && key in ObjectPrototypeMembers
  {
    match Get(dict, key)
    case Some(v) => Str(v)
    case None => if key in ObjectPrototypeMembers then Inherited(key) else Undefined
  }

  /** `getThumbnail` as written: `extensionTypeDict[type] || 'unsupported'`, where an inherited member is truthy. */
  function ThumbnailAsWritten(isDir: bool, fileType: string): (r: JsValue)
    ensures r.Inherited? <==> !isDir && Get(ExtensionTypeDict(), fileType).None? && fileType in ObjectPrototypeMembers
  {
    if isDir then Str("folder")
    else
      match ReadProperty(ExtensionTypeDict(), fileType)
      case Str(kind) => if kind == "" then Str("unsupported") else Str(kind)
      case Inherited(name) => Inherited(name)
      case Undefined => Str("unsupported")
  }

  /** A file whose type is "constructor" gets `Object` itself as its thumbnail name, not "unsupported". */
  lemma ThumbnailAsWrittenConstructor()
    ensures ThumbnailAsWritten(false, "constructor") == Inherited("constructor")
    ensures GetThumbnail(false, "constructor") == "unsupported"
  {
    var c := "constructor";
    assert c !in ImageTypes && c !in VideoTypes && c !in PdfTypes;
    assert c !in DocTypes && c !in XlsTypes && c !in ZipTypes;
    TypeDictGet(Kinds, c);
    KindsLastKind(c);
  }

  /** Apart from the inherited names, the code as written and the own-key lookup agree. */
  lemma ThumbnailAsWrittenAgrees(isDir: bool, fileType: string)
    requires fileType !in ObjectPrototypeMembers
    ensures ThumbnailAsWritten(isDir, fileType) == Str(GetThumbnail(isDir, fileType))
  {
    if !isDir {
      TypeDictGet(Kinds, fileType);
      KindsLastKind(fileType);
    }
  }
}

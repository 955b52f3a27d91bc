/**
 * The package value types (Code/package/dataclasses.py): identity by id,
 * dependency kinds, settings coercion, and the parsing of a mod's
 * filelist, content files and metadata document from abstract XML trees.
 *
 * A mod is a value here: each parsing step that updates the mod's fields
 * in place is a method that takes the mod and returns the updated one.
 */
module Package {
  import opened Wrappers
  import opened Xml
  import IdParser

  // ----- identity -----

  /** `Identifier.id`: the Steam id when it is non-empty, else the name. */
  function IdOf(name: string, steamId: Option<string>): string {
    if Truthy(steamId) then steamId.value else name
  }

  datatype Identifier = Identifier(name: string, steamId: Option<string>) {
    function Id(): string { IdOf(name, steamId) }

    /** `__eq__`: against another identifier or a string, by id; anything else is unequal. */
    function Equals(value: Operand): bool {
      match value
      case IdentifierOperand(other) => Id() == other.Id()
      case StrOperand(s) => Id() == s
      case OtherOperand => false
    }

    /** `__hash__`, for a given string hash. */
    function Hash(hash: string -> int): int { hash(Id()) }
  }

  /** The right-hand side of an equality test. */
  datatype Operand = IdentifierOperand(ident: Identifier) | StrOperand(s: string) | OtherOperand

  /**
   * Identity is by id only: two identifiers are equal exactly when their ids
   * are, whatever their names; the relation is an equivalence; equal
   * identifiers hash alike; and a string compares against the id.
   */
  lemma IdentityIsById(a: Identifier, b: Identifier, c: Identifier, s: string, hash: string -> int)
    ensures a.Equals(IdentifierOperand(b)) <==> a.Id() == b.Id()
    ensures a.Equals(IdentifierOperand(a))
    ensures a.Equals(IdentifierOperand(b)) ==> b.Equals(IdentifierOperand(a))
    ensures a.Equals(IdentifierOperand(b)) && b.Equals(IdentifierOperand(c)) ==> a.Equals(IdentifierOperand(c))
    ensures a.Equals(IdentifierOperand(b)) ==> a.Hash(hash) == b.Hash(hash)
    ensures a.Equals(StrOperand(s)) <==> a.Id() == s
    ensures !a.Equals(OtherOperand)
    ensures Truthy(a.steamId) ==> a.Id() == a.steamId.value
    ensures !Truthy(a.steamId) ==> a.Id() == a.name
  {
  }

  /** Two identifiers with one non-empty Steam id under different names are equal. */
  lemma SameSteamIdSameMod(n1: string, n2: string, sid: string)
    requires sid != "" && n1 != n2
    ensures Identifier(n1, Some(sid)).Equals(IdentifierOperand(Identifier(n2, Some(sid))))
    ensures !Identifier(n1, Some("")).Equals(IdentifierOperand(Identifier(n2, Some(""))))
  {
  }

  // ----- dependencies -----

  /** `Dependency.is_valid_type`: the four kinds, case-sensitively. */
  predicate IsValidType(value: string) {
    value in {"patch", "requirement", "requiredAnyOrder", "conflict"}
  }

  lemma ValidTypesAreCaseSensitive()
    ensures IsValidType("patch") && IsValidType("requirement") && IsValidType("requiredAnyOrder") && IsValidType("conflict")
    ensures !IsValidType("Patch") && !IsValidType("requiredanyorder") && !IsValidType("Conflict") && !IsValidType("")
  {
  }

  datatype Dependency = Dependency(
    name: string,
    steamId: Option<string>,
    kind: string,
    attributes: Attributes,
    condition: Option<string>)
  {
    function Id(): string { IdOf(name, steamId) }
  }

  /** The messages kept in a mod's warning and error lists: raw text, or a localisation key with its arguments. */
  datatype Message = Literal(text: string) | Localized(key: string, args: seq<(string, Option<string>)>)

  datatype Metadata = Metadata(
    modVersion: string,
    gameVersion: string,
    authorName: string,
    license: string,
    warnings: seq<Message>,
    errors: seq<Message>,
    dependencies: seq<Dependency>)

  const DefaultMetadata := Metadata("base-not-set", "base-not-set", "base-unknown", "base-not-specified", [], [], [])

  // ----- the mod -----

  /** A filesystem path: its string form and its components. */
  datatype ModPath = ModPath(text: string, parts: seq<string>)

  /** The value of a setting: XML gives strings or nothing; the other kinds come from elsewhere. */
  datatype SettingValue = NoneValue | BoolValue(b: bool) | StrValue(s: string) | IntValue(i: int) | OtherValue

  datatype ModUnit = ModUnit(
    name: string,
    steamId: Option<string>,
    path: ModPath,
    local: bool,
    corepackage: bool,
    hasToggleContent: bool,
    loadOrder: Option<int>,
    metadata: Metadata,
    useLua: bool,
    useCs: bool,
    settings: map<string, SettingValue>,
    addId: set<string>,
    overrideId: set<string>)
  {
    function Id(): string { IdOf(name, steamId) }
  }

  /** A mod with every field at its default. */
  function NewModUnit(name: string, path: ModPath): ModUnit {
    ModUnit(name, None, path, false, false, false, None, DefaultMetadata, false, false, map[], {}, {})
  }

  /** `str_path`: the path itself for a workshop mod, `LocalMods/<folder>` for a local one; `None` where the source raises. */
  function StrPath(m: ModUnit): (r: Option<string>)
    ensures !m.local ==> r == Some(m.path.text)
    ensures m.local && m.path.parts != [] ==> r == Some("LocalMods/" + m.path.parts[|m.path.parts| - 1])
    ensures m.local && m.path.parts == [] ==> r == None
  {
    if !m.local then Some(m.path.text)
    else if m.path.parts == [] then None
    else Some("LocalMods/" + m.path.parts[|m.path.parts| - 1])
  }

  /** `get_bool_setting`, without the floating-point branch. */
  function GetBoolSetting(m: ModUnit, key: string): bool {
    if key !in m.settings then false
    else
      match m.settings[key]
      case NoneValue => false
      case BoolValue(b) => b
      case StrValue(s) => Lower(s) == "true"
      case IntValue(i) => i > 0
      case OtherValue => false
  }

  // ----- the filelist -----

  /** `_parse_filelist`: `None` when the filelist is missing or not a valid document. */
  function ParseFilelist(m: ModUnit, doc: Option<Node>): (r: Option<ModUnit>)
    ensures r.Some? <==> doc.Some?
  {
    if doc.None? then None
    else
      var a := AttributesOf(doc.value);
      Some(m.(
        name := Get(a, "name").GetOr("Something went wrong"),
        corepackage := Lower(Get(a, "corepackage").GetOr("false")) == "true",
        steamId := Get(a, "steamworkshopid"),
        metadata := m.metadata.(
          gameVersion := Get(a, "gameversion").GetOr("base-not-specified"),
          modVersion := Get(a, "modversion").GetOr("base-not-specified"))))
  }

  /**
   * What a parsed filelist decides: the mod's id is the workshop id when
   * present and non-empty, else its name, which defaults to
   * "Something went wrong"; the versions default to "base-not-specified";
   * a missing `corepackage` means not a core package; nothing else changes.
   */
  lemma FilelistDecidesIdentity(m: ModUnit, doc: Node)
    ensures var r := ParseFilelist(m, Some(doc)).value; var a := AttributesOf(doc);
      && r.Id() == (if Truthy(Get(a, "steamworkshopid")) then Get(a, "steamworkshopid").value
                    else if Get(a, "name").Some? then Get(a, "name").value else "Something went wrong")
      && (Get(a, "gameversion").None? ==> r.metadata.gameVersion == "base-not-specified")
      && (Get(a, "modversion").None? ==> r.metadata.modVersion == "base-not-specified")
      && (Get(a, "corepackage").None? ==> !r.corepackage)
      && r.path == m.path && r.local == m.local && r.settings == m.settings
      && r.addId == m.addId && r.overrideId == m.overrideId
      && r.metadata.dependencies == m.metadata.dependencies
  {
    assert Lower("false") == "false";
  }

  // ----- content files -----

  /** The file names `_process_single_xml` does not extract identifiers from (`xml_system_dirs`). */
  const XmlSystemFiles: set<string> := {"filelist.xml", "metadata.xml", "modparts.xml", "file_list.xml", "files_list.xml", "runconfig.xml"}

  /** One content file: its name and the loaded document (`None` when it does not load). */
  datatype XmlFile = XmlFile(name: string, doc: Option<Node>)

  /** Whether the file is walked for identifiers. */
  predicate Scanned(f: XmlFile) {
    Lower(f.name) != "modparts.xml" && Lower(f.name) !in XmlSystemFiles && f.doc.Some?
  }

  /** A content file marks toggleable content when it carries a `BTM` comment. */
  predicate HasBtmComment(doc: Node) {
    exists t :: t in CommentTexts(doc) && Contains(t, "BTM")
  }

  predicate Toggles(f: XmlFile) {
    Lower(f.name) == "modparts.xml" || (Scanned(f) && HasBtmComment(f.doc.value))
  }

  function FileIds(f: XmlFile): IdParser.Scan {
    if Scanned(f) then IdParser.ExtractResult(f.doc) else IdParser.Empty
  }

  /** `_process_single_xml` on one file. */
  function ScanFile(m: ModUnit, f: XmlFile): ModUnit {
    if Lower(f.name) == "modparts.xml" then m.(hasToggleContent := true)
    else if Lower(f.name) in XmlSystemFiles || f.doc.None? then m
    else
      var ids := IdParser.ExtractResult(f.doc);
      m.(addId := m.addId + ids.adds,
         overrideId := m.overrideId + ids.overrides,
         hasToggleContent := m.hasToggleContent || HasBtmComment(f.doc.value))
  }

  /** The files one after another. */
  function ScanFiles(m: ModUnit, fs: seq<XmlFile>): ModUnit
    decreases |fs|
  {
    if fs == [] then m else ScanFiles(ScanFile(m, fs[0]), fs[1..])
  }

  method ProcessSingleXml(m: ModUnit, f: XmlFile, extractor: IdParser.IdExtractor) returns (r: ModUnit)
    modifies extractor
    ensures r == ScanFile(m, f)
    ensures extractor.unknownTags == old(extractor.unknownTags) + FileIds(f).unknown
  {
    var fName := Lower(f.name);
    if fName == "modparts.xml" {
      return m.(hasToggleContent := true);
    }
    if fName in XmlSystemFiles {
      return m;
    }
    if f.doc.None? {
      return m;
    }
    var unit := extractor.ExtractIds(f.doc);
    r := m.(addId := m.addId + unit.addId, overrideId := m.overrideId + unit.overrideId);
    if !r.hasToggleContent {
      if HasBtmComment(f.doc.value) {
        r := r.(hasToggleContent := true);
      }
    }
  }

  /** `_parse_files_concurrently`, with the worker pool replaced by one pass over the files. */
  method ParseFiles(m: ModUnit, fs: seq<XmlFile>, extractor: IdParser.IdExtractor) returns (r: ModUnit)
    modifies extractor
    ensures r == ScanFiles(m, fs)
  {
    r := m;
    var i := 0;
    while i < |fs|
      invariant i <= |fs|
      invariant ScanFiles(r, fs[i..]) == ScanFiles(m, fs)
    {
      assert fs[i..][1..] == fs[i + 1..];
      r := ProcessSingleXml(r, fs[i], extractor);
      i := i + 1;
    }
  }

  /**
   * What a pass over the files gives, in closed form: the identifiers of
   * every scanned file are merged in, the toggle flag is set when any file
   * toggles, and nothing else changes.
   */
  lemma {:induction false} ScanFilesClosedForm(m: ModUnit, fs: seq<XmlFile>)
    ensures var r := ScanFiles(m, fs);
      && (forall x :: x in r.addId <==> x in m.addId || exists i :: 0 <= i < |fs| && x in FileIds(fs[i]).adds)
      && (forall x :: x in r.overrideId <==> x in m.overrideId || exists i :: 0 <= i < |fs| && x in FileIds(fs[i]).overrides)
      && (r.hasToggleContent <==> m.hasToggleContent || exists i :: 0 <= i < |fs| && Toggles(fs[i]))
      && r == m.(addId := r.addId, overrideId := r.overrideId, hasToggleContent := r.hasToggleContent)
    decreases |fs|
  {
    if fs != [] {
      var m1 := ScanFile(m, fs[0]);
      ScanFileEffects(m, fs[0]);
      ScanFilesClosedForm(m1, fs[1..]);
      var r := ScanFiles(m, fs);
      assert r == ScanFiles(m1, fs[1..]);
      forall x
        ensures x in r.addId <==> x in m.addId || exists i :: 0 <= i < |fs| && x in FileIds(fs[i]).adds
      {
        if x in r.addId && x !in m.addId && x !in FileIds(fs[0]).adds {
          var j :| 0 <= j < |fs[1..]| && x in FileIds(fs[1..][j]).adds;
          assert fs[1..][j] == fs[j + 1];
        }
        if exists i :: 0 <= i < |fs| && x in FileIds(fs[i]).adds {
          var i :| 0 <= i < |fs| && x in FileIds(fs[i]).adds;
          if i > 0 { assert fs[1..][i - 1] == fs[i]; }
        }
      }
      forall x
        ensures x in r.overrideId <==> x in m.overrideId || exists i :: 0 <= i < |fs| && x in FileIds(fs[i]).overrides
      {
        if x in r.overrideId && x !in m.overrideId && x !in FileIds(fs[0]).overrides {
          var j :| 0 <= j < |fs[1..]| && x in FileIds(fs[1..][j]).overrides;
          assert fs[1..][j] == fs[j + 1];
        }
        if exists i :: 0 <= i < |fs| && x in FileIds(fs[i]).overrides {
          var i :| 0 <= i < |fs| && x in FileIds(fs[i]).overrides;
          if i > 0 { assert fs[1..][i - 1] == fs[i]; }
        }
      }
      if r.hasToggleContent && !m.hasToggleContent && !Toggles(fs[0]) {
        var j :| 0 <= j < |fs[1..]| && Toggles(fs[1..][j]);
        assert fs[1..][j] == fs[j + 1];
      }
      if exists i :: 0 <= i < |fs| && Toggles(fs[i]) {
        var i :| 0 <= i < |fs| && Toggles(fs[i]);
        if i > 0 { assert fs[1..][i - 1] == fs[i]; }
      }
    }
  }

  /** One file merges in its identifiers and its toggle flag and changes nothing else. */
  lemma ScanFileEffects(m: ModUnit, f: XmlFile)
    ensures var r := ScanFile(m, f);
      && r.addId == m.addId + FileIds(f).adds
      && r.overrideId == m.overrideId + FileIds(f).overrides
      && (r.hasToggleContent <==> m.hasToggleContent || Toggles(f))
      && r == m.(addId := r.addId, overrideId := r.overrideId, hasToggleContent := r.hasToggleContent)
  {
  }

  /**
   * The order in which the files are taken (the worker pool completes them
   * in any order), and taking a file twice, make no difference.
   */
  lemma ScanOrderIrrelevant(m: ModUnit, fs: seq<XmlFile>, gs: seq<XmlFile>)
    requires forall f :: f in fs <==> f in gs
    ensures ScanFiles(m, fs) == ScanFiles(m, gs)
  {
    ScanFilesClosedForm(m, fs);
    ScanFilesClosedForm(m, gs);
    var a, b := ScanFiles(m, fs), ScanFiles(m, gs);
    forall x | x in a.addId ensures x in b.addId {
      if x !in m.addId {
        var i :| 0 <= i < |fs| && x in FileIds(fs[i]).adds;
        assert fs[i] in gs;
        var j :| 0 <= j < |gs| && gs[j] == fs[i];
      }
    }
    forall x | x in b.addId ensures x in a.addId {
      if x !in m.addId {
        var i :| 0 <= i < |gs| && x in FileIds(gs[i]).adds;
        assert gs[i] in fs;
        var j :| 0 <= j < |fs| && fs[j] == gs[i];
      }
    }
    forall x | x in a.overrideId ensures x in b.overrideId {
      if x !in m.overrideId {
        var i :| 0 <= i < |fs| && x in FileIds(fs[i]).overrides;
        assert fs[i] in gs;
        var j :| 0 <= j < |gs| && gs[j] == fs[i];
      }
    }
    forall x | x in b.overrideId ensures x in a.overrideId {
      if x !in m.overrideId {
        var i :| 0 <= i < |gs| && x in FileIds(gs[i]).overrides;
        assert gs[i] in fs;
        var j :| 0 <= j < |fs| && fs[j] == gs[i];
      }
    }
    if a.hasToggleContent && !m.hasToggleContent {
      var i :| 0 <= i < |fs| && Toggles(fs[i]);
      assert fs[i] in gs;
      var j :| 0 <= j < |gs| && gs[j] == fs[i];
    }
    if b.hasToggleContent && !m.hasToggleContent {
      var i :| 0 <= i < |gs| && Toggles(gs[i]);
      assert gs[i] in fs;
      var j :| 0 <= j < |fs| && fs[j] == gs[i];
    }
  }

  // ----- metadata: meta info -----

  /** The lines of a text block, as messages. */
  function LinesOf(content: string): seq<Message> {
    LiteralLines(SplitLines(content))
  }

  function LiteralLines(lines: seq<string>): seq<Message> {
    if lines == [] then [] else [Literal(lines[0])] + LiteralLines(lines[1..])
  }

  /** What a child of a `meta` element can set, by its lower-case tag. */
  datatype MetaField = Author | License | Warning | Error | NoField

  function MetaFieldOf(ch: Node): (f: MetaField)
    ensures f != NoField ==> ch.Element?
  {
    if !ch.Element? then NoField
    else
      match Lower(ch.tag)
      case "author" => Author
      case "license" => License
      case "warning" => Warning
      case "error" => Error
      case _ => NoField
  }

  /** The effect of one child of a `meta` element. */
  function MetaStep(md: Metadata, ch: Node): Metadata {
    match MetaFieldOf(ch)
    case Author => md.(authorName := Strip(ch.content))
    case License => md.(license := Strip(ch.content))
    case Warning => md.(warnings := md.warnings + LinesOf(Strip(ch.content)))
    case Error => md.(errors := md.errors + LinesOf(Strip(ch.content)))
    case NoField => md
  }

  /** The children of a `meta` element taken in order. */
  function MetaFold(md: Metadata, cs: seq<Node>): Metadata
    decreases |cs|
  {
    if cs == [] then md else MetaFold(MetaStep(md, cs[0]), cs[1..])
  }

  /** `_extract_meta_info`. */
  method ExtractMetaInfo(md: Metadata, meta: Node) returns (r: Metadata)
    ensures r == MetaFold(md, NonCommentChildren(meta))
  {
    var cs := NonCommentChildren(meta);
    r := md;
    var i := 0;
    while i < |cs|
      invariant i <= |cs|
      invariant MetaFold(r, cs[i..]) == MetaFold(md, cs)
    {
      assert cs[i..][1..] == cs[i + 1..];
      var ch := cs[i];
      var content := Strip(ch.content);
      match Lower(ch.tag) {
        case "author" => r := r.(authorName := content);
        case "license" => r := r.(license := content);
        case "warning" => r := r.(warnings := r.warnings + LinesOf(content));
        case "error" => r := r.(errors := r.errors + LinesOf(content));
        case _ =>
      }
      i := i + 1;
    }
  }

  /** The lines of every child that sets `field`, in document order. */
  function FieldLines(cs: seq<Node>, field: MetaField): seq<Message> {
    if cs == [] then []
    else (if MetaFieldOf(cs[0]) == field && field != NoField then LinesOf(Strip(cs[0].content)) else []) + FieldLines(cs[1..], field)
  }

  /** The stripped content of the last child that sets `field`. */
  function LastContent(cs: seq<Node>, field: MetaField): Option<string> {
    if cs == [] then None
    else
      var later := LastContent(cs[1..], field);
      if later.Some? then later
      else if MetaFieldOf(cs[0]) == field && field != NoField then Some(Strip(cs[0].content))
      else None
  }

  /**
   * What the children of a `meta` element do to the metadata: the last
   * author and license win, warning and error lines are appended in order,
   * and the versions and dependencies stay as they were.
   */
  lemma {:induction false} MetaFoldEffects(md: Metadata, cs: seq<Node>)
    ensures var r := MetaFold(md, cs);
      && r.authorName == LastContent(cs, Author).GetOr(md.authorName)
      && r.license == LastContent(cs, License).GetOr(md.license)
      && r.warnings == md.warnings + FieldLines(cs, Warning)
      && r.errors == md.errors + FieldLines(cs, Error)
      && r.modVersion == md.modVersion && r.gameVersion == md.gameVersion
      && r.dependencies == md.dependencies
    decreases |cs|
  {
    if cs != [] {
      var ch := cs[0];
      var md1 := MetaStep(md, ch);
      assert MetaFold(md, cs) == MetaFold(md1, cs[1..]);
      MetaFoldEffects(md1, cs[1..]);
      MetaStepEffects(md, ch);
      var f := MetaFieldOf(ch);
      assert FieldLines(cs, Warning) ==
        (if f == Warning then LinesOf(Strip(ch.content)) else []) + FieldLines(cs[1..], Warning);
      assert FieldLines(cs, Error) ==
        (if f == Error then LinesOf(Strip(ch.content)) else []) + FieldLines(cs[1..], Error);
      var w := if f == Warning then LinesOf(Strip(ch.content)) else [];
      var e := if f == Error then LinesOf(Strip(ch.content)) else [];
      AppendAssoc(md.warnings, w, FieldLines(cs[1..], Warning));
      AppendAssoc(md.errors, e, FieldLines(cs[1..], Error));
      assert LastContent(cs, Author) ==
        if LastContent(cs[1..], Author).Some? then LastContent(cs[1..], Author)
        else if f == Author then Some(Strip(ch.content)) else None;
      assert LastContent(cs, License) ==
        if LastContent(cs[1..], License).Some? then LastContent(cs[1..], License)
        else if f == License then Some(Strip(ch.content)) else None;
    }
  }

  lemma AppendAssoc<T>(a: seq<T>, b: seq<T>, c: seq<T>)
    ensures a + b + c == a + (b + c)
  {
  }

  /** One child of a `meta` element changes at most the field its tag names. */
  lemma MetaStepEffects(md: Metadata, ch: Node)
    ensures var r := MetaStep(md, ch); var f := MetaFieldOf(ch);
      && r.authorName == (if f == Author then Strip(ch.content) else md.authorName)
      && r.license == (if f == License then Strip(ch.content) else md.license)
      && r.warnings == md.warnings + (if f == Warning then LinesOf(Strip(ch.content)) else [])
      && r.errors == md.errors + (if f == Error then LinesOf(Strip(ch.content)) else [])
      && r.modVersion == md.modVersion && r.gameVersion == md.gameVersion
      && r.dependencies == md.dependencies
  {
  }

  // ----- metadata: dependencies -----

  /** The fields a dependency element must have to be kept. */
  predicate Qualifies(ch: Node) {
    ch.Element? && IsValidType(ch.tag)
    && (Truthy(Get(ch.attributes, "name")) || Truthy(Get(ch.attributes, "steamID")))
  }

  /** The dependency a kept element becomes. */
  function MakeDependency(ch: Node): Dependency
    requires Qualifies(ch)
  {
    var name := Get(ch.attributes, "name");
    Dependency(
      if Truthy(name) then name.value else "",
      Get(ch.attributes, "steamID"),
      ch.tag,
      Remove(Remove(Remove(ch.attributes, "name"), "steamID"), "condition"),
      Get(ch.attributes, "condition"))
  }

  /** The dependencies declared by the children of a `dependencies` element, in order. */
  function DependenciesOf(cs: seq<Node>): seq<Dependency> {
    if cs == [] then []
    else (if Qualifies(cs[0]) then [MakeDependency(cs[0])] else []) + DependenciesOf(cs[1..])
  }

  lemma {:induction false} DependenciesOfAppend(a: seq<Node>, b: seq<Node>)
    ensures DependenciesOf(a + b) == DependenciesOf(a) + DependenciesOf(b)
  {
    if a == [] {
      assert a + b == b;
    } else {
      assert (a + b)[0] == a[0];
      assert (a + b)[1..] == a[1..] + b;
      DependenciesOfAppend(a[1..], b);
    }
  }

  lemma DependenciesOfSnoc(cs: seq<Node>, i: nat)
    requires i < |cs|
    ensures DependenciesOf(cs[..i + 1]) ==
      DependenciesOf(cs[..i]) + (if Qualifies(cs[i]) then [MakeDependency(cs[i])] else [])
  {
    DependenciesOfAppend(cs[..i], [cs[i]]);
    assert cs[..i + 1] == cs[..i] + [cs[i]];
  }

  /** One pass of the `_extract_dependencies` loop: the dependency a child gives, if it qualifies. */
  method DependencyOfChild(ch: Node) returns (d: Option<Dependency>)
    requires ch.Element?
    ensures d == if Qualifies(ch) then Some(MakeDependency(ch)) else None
  {
    var depType := ch.tag;
    if !IsValidType(depType) {
      return None;
    }
    var name := Get(ch.attributes, "name");
    var steamId := Get(ch.attributes, "steamID");
    if !Truthy(name) && !Truthy(steamId) {
      return None;
    }
    var attrs := Remove(Remove(ch.attributes, "name"), "steamID");
    var condition := Get(attrs, "condition");
    attrs := Remove(attrs, "condition");
    return Some(Dependency(if Truthy(name) then name.value else "", steamId, depType, attrs, condition));
  }

  /** `_extract_dependencies`: the new dependencies go after the existing ones. */
  method ExtractDependencies(md: Metadata, deps: Node) returns (r: Metadata)
    ensures r == md.(dependencies := md.dependencies + DependenciesOf(NonCommentChildren(deps)))
  {
    var cs := NonCommentChildren(deps);
    var newDeps: seq<Dependency> := [];
    var i := 0;
    while i < |cs|
      invariant i <= |cs|
      invariant newDeps == DependenciesOf(cs[..i])
    {
      DependenciesOfSnoc(cs, i);
      var d := DependencyOfChild(cs[i]);
      if d.Some? {
        newDeps := newDeps + [d.value];
      }
      i := i + 1;
    }
    assert cs[..|cs|] == cs;
    r := md.(dependencies := md.dependencies + newDeps);
  }

  /**
   * What is kept: exactly the children with a valid kind and a name or a
   * Steam id; each keeps its kind, loses the `name`, `steamID` and
   * `condition` attributes, and carries the condition separately.
   */
  lemma {:induction false} DependenciesOfSpec(cs: seq<Node>)
    ensures |DependenciesOf(cs)| <= |cs|
    ensures forall c :: c in cs && Qualifies(c) ==> MakeDependency(c) in DependenciesOf(cs)
    ensures forall d :: d in DependenciesOf(cs) ==> exists c :: c in cs && Qualifies(c) && d == MakeDependency(c)
    ensures forall d :: d in DependenciesOf(cs) ==>
      && IsValidType(d.kind) && (d.name != "" || Truthy(d.steamId))
      && Get(d.attributes, "name") == None && Get(d.attributes, "steamID") == None
      && Get(d.attributes, "condition") == None
  {
    if cs != [] {
      DependenciesOfSpec(cs[1..]);
      var head := if Qualifies(cs[0]) then [MakeDependency(cs[0])] else [];
      assert DependenciesOf(cs) == head + DependenciesOf(cs[1..]);
      forall d | d in DependenciesOf(cs)
        ensures exists c :: c in cs && Qualifies(c) && d == MakeDependency(c)
      {
        if d in head {
          assert cs[0] in cs;
        } else {
          var c :| c in cs[1..] && Qualifies(c) && d == MakeDependency(c);
          assert c in cs;
        }
      }
    }
  }

  // ----- metadata: settings and the whole document -----

  function SettingOf(v: Option<string>): SettingValue {
    if v.Some? then StrValue(v.value) else NoneValue
  }

  /** One child of a `settings` element: a named child sets that setting to its `value` attribute. */
  function SettingsStep(settings: map<string, SettingValue>, ch: Node): map<string, SettingValue> {
    var name := Get(AttributesOf(ch), "name");
    if Truthy(name) then settings[name.value := SettingOf(Get(AttributesOf(ch), "value"))] else settings
  }

  function SettingsFold(settings: map<string, SettingValue>, cs: seq<Node>): map<string, SettingValue>
    decreases |cs|
  {
    if cs == [] then settings else SettingsFold(SettingsStep(settings, cs[0]), cs[1..])
  }

  /** The sections of a metadata document, by the lower-case tag of a child of its root. */
  datatype Section = SettingsSection | MetaSection | DependenciesSection | OtherSection

  function SectionOf(el: Node): Section {
    match Lower(Tag(el))
    case "settings" => SettingsSection
    case "meta" => MetaSection
    case "dependencies" => DependenciesSection
    case _ => OtherSection
  }

  /** The effect of one child of the metadata root. */
  function ApplyStep(m: ModUnit, el: Node): ModUnit {
    match SectionOf(el)
    case SettingsSection => m.(settings := SettingsFold(m.settings, NonCommentChildren(el)))
    case MetaSection => m.(metadata := MetaFold(m.metadata, NonCommentChildren(el)))
    case DependenciesSection =>
      m.(metadata := m.metadata.(dependencies := m.metadata.dependencies + DependenciesOf(NonCommentChildren(el))))
    case OtherSection => m
  }

  function ApplyFold(m: ModUnit, cs: seq<Node>): ModUnit
    decreases |cs|
  {
    if cs == [] then m else ApplyFold(ApplyStep(m, cs[0]), cs[1..])
  }

  lemma ApplyStepBySection(m: ModUnit, el: Node)
    ensures SectionOf(el) == SettingsSection ==> ApplyStep(m, el) == m.(settings := SettingsFold(m.settings, NonCommentChildren(el)))
    ensures SectionOf(el) == MetaSection ==> ApplyStep(m, el) == m.(metadata := MetaFold(m.metadata, NonCommentChildren(el)))
    ensures SectionOf(el) == DependenciesSection ==>
      ApplyStep(m, el) == m.(metadata := m.metadata.(dependencies := m.metadata.dependencies + DependenciesOf(NonCommentChildren(el))))
    ensures SectionOf(el) == OtherSection ==> ApplyStep(m, el) == m
  {
  }

  /** `_apply_metadata_xml`. */
  method ApplyMetadataXml(m: ModUnit, root: Node) returns (r: ModUnit)
    ensures r == ApplyFold(m, NonCommentChildren(root))
  {
    var cs := NonCommentChildren(root);
    r := m;
    var i := 0;
    while i < |cs|
      invariant i <= |cs|
      invariant ApplyFold(r, cs[i..]) == ApplyFold(m, cs)
    {
      assert cs[i..][1..] == cs[i + 1..];
      var element := cs[i];
      ghost var before := r;
      assert ApplyFold(before, cs[i..]) == ApplyFold(ApplyStep(before, element), cs[i + 1..]);
      ApplyStepBySection(r, element);
      match Lower(element.tag) {
        case "settings" =>
          assert SectionOf(element) == SettingsSection;
          var settings := ReadSettings(r.settings, element);
          r := r.(settings := settings);
        case "meta" =>
          assert SectionOf(element) == MetaSection;
          var md := ExtractMetaInfo(r.metadata, element);
          r := r.(metadata := md);
        case "dependencies" =>
          assert SectionOf(element) == DependenciesSection;
          var md := ExtractDependencies(r.metadata, element);
          r := r.(metadata := md);
        case _ =>
          assert SectionOf(element) == OtherSection;
      }
      assert r == ApplyStep(before, element);
      i := i + 1;
    }
  }

  /** The inner loop of `_apply_metadata_xml` over the children of a `settings` element. */
  method ReadSettings(settings: map<string, SettingValue>, element: Node) returns (r: map<string, SettingValue>)
    ensures r == SettingsFold(settings, NonCommentChildren(element))
  {
    var chs := NonCommentChildren(element);
    r := settings;
    var j := 0;
    while j < |chs|
      invariant j <= |chs|
      invariant SettingsFold(r, chs[j..]) == SettingsFold(settings, chs)
    {
      assert chs[j..][1..] == chs[j + 1..];
      var name := Get(chs[j].attributes, "name");
      if Truthy(name) {
        r := r[name.value := SettingOf(Get(chs[j].attributes, "value"))];
      }
      j := j + 1;
    }
  }

  /** The value the last named child gave a setting, if any did. */
  function LastSetting(cs: seq<Node>, key: string): Option<SettingValue> {
    if cs == [] then None
    else
      var later := LastSetting(cs[1..], key);
      if later.Some? then later
      else if Get(AttributesOf(cs[0]), "name") == Some(key) && key != "" then Some(SettingOf(Get(AttributesOf(cs[0]), "value")))
      else None
  }

  /** The last child naming a setting wins; unnamed children and other settings are untouched. */
  lemma {:induction false} SettingsFoldLastWins(settings: map<string, SettingValue>, cs: seq<Node>, key: string)
    ensures key in SettingsFold(settings, cs) <==> key in settings || LastSetting(cs, key).Some?
    ensures key in SettingsFold(settings, cs) ==>
      SettingsFold(settings, cs)[key] == if LastSetting(cs, key).Some? then LastSetting(cs, key).value else settings[key]
    decreases |cs|
  {
    if cs != [] {
      SettingsFoldLastWins(SettingsStep(settings, cs[0]), cs[1..], key);
    }
  }

  /** A setting read from XML is a string or nothing, so its boolean value is "its lower case is `true`". */
  lemma XmlSettingAsBool(m: ModUnit, cs: seq<Node>, key: string)
    requires key !in m.settings
    ensures var r := m.(settings := SettingsFold(m.settings, cs));
      GetBoolSetting(r, key) <==> LastSetting(cs, key).Some? && LastSetting(cs, key).value.StrValue?
                                  && Lower(LastSetting(cs, key).value.s) == "true"
    ensures LastSetting(cs, key).None? ==> !GetBoolSetting(m.(settings := SettingsFold(m.settings, cs)), key)
  {
    SettingsFoldLastWins(m.settings, cs, key);
    LastSettingIsXmlValue(cs, key);
  }

  lemma {:induction false} LastSettingIsXmlValue(cs: seq<Node>, key: string)
    ensures LastSetting(cs, key).Some? ==> LastSetting(cs, key).value.StrValue? || LastSetting(cs, key).value.NoneValue?
  {
    if cs != [] {
      LastSettingIsXmlValue(cs[1..], key);
    }
  }

  // ----- refreshing a mod's metadata messages -----

  /** The `meta` elements of a document, each taken in turn. */
  function MetaFoldAll(md: Metadata, metas: seq<Node>): Metadata
    decreases |metas|
  {
    if metas == [] then md else MetaFoldAll(MetaFold(md, NonCommentChildren(metas[0])), metas[1..])
  }

  /**
   * `update_meta_errors`: the messages are cleared and then refilled from
   * every `meta` element of the mod's metadata document; `metaDocFor`
   * resolves and loads that document for a mod id.
   */
  function UpdatedMeta(m: ModUnit, metaDocFor: string -> Option<Node>): ModUnit {
    var md := m.metadata.(errors := [], warnings := []);
    var doc := metaDocFor(m.Id());
    if doc.None? then m.(metadata := md)
    else m.(metadata := MetaFoldAll(md, FindElements(doc.value, "meta")))
  }

  method UpdateMetaErrors(m: ModUnit, metaDocFor: string -> Option<Node>) returns (r: ModUnit)
    ensures r == UpdatedMeta(m, metaDocFor)
  {
    var md := m.metadata.(errors := [], warnings := []);
    var doc := metaDocFor(m.Id());
    if doc.None? {
      return m.(metadata := md);
    }
    var metas := FindElements(doc.value, "meta");
    var j := 0;
    while j < |metas|
      invariant j <= |metas|
      invariant MetaFoldAll(md, metas[j..]) == MetaFoldAll(m.metadata.(errors := [], warnings := []), metas)
    {
      assert metas[j..][1..] == metas[j + 1..];
      md := ExtractMetaInfo(md, metas[j]);
      j := j + 1;
    }
    r := m.(metadata := md);
  }

  /** Every child of every `meta` element, in order. */
  function AllMetaChildren(metas: seq<Node>): seq<Node> {
    if metas == [] then [] else NonCommentChildren(metas[0]) + AllMetaChildren(metas[1..])
  }

  lemma {:induction false} MetaFoldAppend(md: Metadata, a: seq<Node>, b: seq<Node>)
    ensures MetaFold(md, a + b) == MetaFold(MetaFold(md, a), b)
    decreases |a|
  {
    if a == [] {
      assert a + b == b;
    } else {
      assert (a + b)[0] == a[0];
      assert (a + b)[1..] == a[1..] + b;
      MetaFoldAppend(MetaStep(md, a[0]), a[1..], b);
    }
  }

  lemma {:induction false} MetaFoldAllFlat(md: Metadata, metas: seq<Node>)
    ensures MetaFoldAll(md, metas) == MetaFold(md, AllMetaChildren(metas))
    decreases |metas|
  {
    if metas != [] {
      MetaFoldAllFlat(MetaFold(md, NonCommentChildren(metas[0])), metas[1..]);
      MetaFoldAppend(md, NonCommentChildren(metas[0]), AllMetaChildren(metas[1..]));
    }
  }

  /**
   * Refreshing the messages leaves everything but the metadata alone, keeps
   * the dependencies and versions, makes the messages exactly those of the
   * document (none when there is no document), and lets the last author and
   * license of the document win.
   */
  lemma UpdatedMetaSpec(m: ModUnit, metaDocFor: string -> Option<Node>)
    ensures var r := UpdatedMeta(m, metaDocFor);
      && r == m.(metadata := r.metadata)
      && r.metadata.dependencies == m.metadata.dependencies
      && r.metadata.modVersion == m.metadata.modVersion && r.metadata.gameVersion == m.metadata.gameVersion
      && (metaDocFor(m.Id()).None? ==>
            r.metadata == m.metadata.(errors := [], warnings := []))
      && (metaDocFor(m.Id()).Some? ==>
            var cs := AllMetaChildren(FindElements(metaDocFor(m.Id()).value, "meta"));
            && r.metadata.errors == FieldLines(cs, Error) && r.metadata.warnings == FieldLines(cs, Warning)
            && r.metadata.authorName == LastContent(cs, Author).GetOr(m.metadata.authorName)
            && r.metadata.license == LastContent(cs, License).GetOr(m.metadata.license))
  {
    var md := m.metadata.(errors := [], warnings := []);
    var doc := metaDocFor(m.Id());
    if doc.Some? {
      UpdatedMetaFromDoc(m, md, FindElements(doc.value, "meta"), UpdatedMeta(m, metaDocFor));
    }
  }

  /** The refresh from a document's `meta` elements, with the messages cleared first. */
  lemma UpdatedMetaFromDoc(m: ModUnit, md: Metadata, metas: seq<Node>, r: ModUnit)
    requires md == m.metadata.(errors := [], warnings := []) && r == m.(metadata := MetaFoldAll(md, metas))
    ensures var cs := AllMetaChildren(metas);
      && r.metadata.dependencies == m.metadata.dependencies
      && r.metadata.modVersion == m.metadata.modVersion && r.metadata.gameVersion == m.metadata.gameVersion
      && r.metadata.errors == FieldLines(cs, Error) && r.metadata.warnings == FieldLines(cs, Warning)
      && r.metadata.authorName == LastContent(cs, Author).GetOr(m.metadata.authorName)
      && r.metadata.license == LastContent(cs, License).GetOr(m.metadata.license)
  {
    MetaFoldAllFlat(md, metas);
    MetaFoldEffects(md, AllMetaChildren(metas));
  }

  /** A second refresh changes nothing. */
  lemma UpdatedMetaIdempotent(m: ModUnit, metaDocFor: string -> Option<Node>)
    ensures UpdatedMeta(UpdatedMeta(m, metaDocFor), metaDocFor) == UpdatedMeta(m, metaDocFor)
  {
    var r := UpdatedMeta(m, metaDocFor);
    UpdatedMetaSpec(m, metaDocFor);
    assert r.Id() == m.Id();
    UpdatedMetaSpec(r, metaDocFor);
    var r2 := UpdatedMeta(r, metaDocFor);
    assert r2.metadata == r.metadata;
  }

  // ----- building a mod -----

  /**
   * `ModUnit.build`: `filelist` is the loaded filelist document (`None`
   * when it is missing or invalid), `hasLua` and `hasCs` say whether script
   * or assembly files were found, `files` are the content files, and
   * `metaDocFor` resolves and loads the metadata document for an id.
   */
  function BuildSpec(path: ModPath, filelist: Option<Node>, hasLua: bool, hasCs: bool,
                     files: seq<XmlFile>, metaDocFor: string -> Option<Node>): Option<ModUnit>
  {
    var m0 := NewModUnit("temp", path).(local := "LocalMods" in path.parts);
    var parsed := ParseFilelist(m0, filelist);
    if parsed.None? || parsed.value.corepackage then None
    else
      var m := ScanFiles(parsed.value.(useLua := hasLua, useCs := hasCs), files);
      var doc := metaDocFor(m.Id());
      if doc.None? then Some(m) else Some(ApplyFold(m, NonCommentChildren(doc.value)))
  }

  method Build(path: ModPath, filelist: Option<Node>, hasLua: bool, hasCs: bool,
               files: seq<XmlFile>, metaDocFor: string -> Option<Node>, extractor: IdParser.IdExtractor)
    returns (r: Option<ModUnit>)
    modifies extractor
    ensures r == BuildSpec(path, filelist, hasLua, hasCs, files, metaDocFor)
  {
    var m := NewModUnit("temp", path);
    if "LocalMods" in path.parts {
      m := m.(local := true);
    }
    var parsed := ParseFilelist(m, filelist);
    if parsed.None? {
      return None;
    }
    m := parsed.value;
    if m.corepackage {
      return None;
    }
    m := m.(useLua := hasLua, useCs := hasCs);
    m := ParseFiles(m, files, extractor);
    var doc := metaDocFor(m.Id());
    if doc.None? {
      return Some(m);
    }
    m := ApplyMetadataXml(m, doc.value);
    r := Some(m);
  }

  /** A built mod is never a core package, and its id is fixed by its filelist. */
  lemma BuiltModIsNotCore(path: ModPath, filelist: Option<Node>, hasLua: bool, hasCs: bool,
                          files: seq<XmlFile>, metaDocFor: string -> Option<Node>)
    ensures var r := BuildSpec(path, filelist, hasLua, hasCs, files, metaDocFor);
      r.Some? ==>
        && filelist.Some? && !r.value.corepackage && r.value.local == ("LocalMods" in path.parts)
        && r.value.useLua == hasLua && r.value.useCs == hasCs
  {
    var m0 := NewModUnit("temp", path).(local := "LocalMods" in path.parts);
    var parsed := ParseFilelist(m0, filelist);
    if parsed.Some? && !parsed.value.corepackage {
      var m := parsed.value.(useLua := hasLua, useCs := hasCs);
      ScanFilesClosedForm(m, files);
      var s := ScanFiles(m, files);
      ApplyFoldKeeps(s, NonCommentChildren(if metaDocFor(s.Id()).Some? then metaDocFor(s.Id()).value else Comment("")));
    }
  }

  /** The metadata document changes only settings and metadata. */
  lemma {:induction false} ApplyFoldKeeps(m: ModUnit, cs: seq<Node>)
    ensures var r := ApplyFold(m, cs);
      r == m.(settings := r.settings, metadata := r.metadata)
    decreases |cs|
  {
    if cs != [] {
      var m1 := ApplyStep(m, cs[0]);
      ApplyStepKeeps(m, cs[0]);
      ApplyFoldKeeps(m1, cs[1..]);
      var r := ApplyFold(m1, cs[1..]);
      assert ApplyFold(m, cs) == r;
    }
  }

  lemma ApplyStepKeeps(m: ModUnit, el: Node)
    ensures var r := ApplyStep(m, el);
      r == m.(settings := r.settings, metadata := r.metadata)
  {
    ApplyStepBySection(m, el);
    match SectionOf(el)
    case SettingsSection =>
    case MetaSection =>
    case DependenciesSection =>
    case OtherSection =>
  }
}

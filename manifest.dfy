/**
 * The definitions manifest of docgen's custom docs and the rules that turn its
 * descriptors into category keys, directories, file identifiers and type tags
 * (src/index.js, lines 21-26 and 39-51).
 */
module Manifest {
  import opened Wrappers
  import opened NodePath

  /** One entry of a category's `files` list; only `path` is required. */
  datatype FileDesc = FileDesc(path: string, id: Option<string>, name: Option<string>, fileType: Option<string>)

  /** One entry of the manifest: `{catID?, path?, name, files}`. */
  datatype CategoryDesc = CategoryDesc(catID: Option<string>, path: Option<string>, name: string, files: seq<FileDesc>)

  /** A loaded custom file as it is stored in the output: `{id, name, type, content}`. */
  datatype LoadedFile = LoadedFile(id: string, name: Option<string>, fileType: string, content: string)

  /** The two structured-text formats a definitions file may be written in. */
  datatype Format = Json | Yaml

  /** Why loading the custom docs, or the run that reports on them, failed. */
  datatype Error =
    | UnknownDefinitionsType          // the TypeError of line 26
    | ReadFailed(path: string)        // a rejected fs.readFile
    | ParseFailed                     // JSON.parse or safeLoad threw, or gave no list
    | NullCustomDocs                  // Object.keys(null) at line 68

  /** JavaScript truthiness of an optional string: `undefined` and `""` are falsy. */
  predicate Truthy(o: Option<string>)
  {
    o.Some? && o.value != ""
  }

  /** The JavaScript expression `o || fallback` for an optional string `o`. */
  function Or(o: Option<string>, fallback: string): string
  {
    if Truthy(o) then o.value else fallback
  }

  /**
   * The definitions file's format, chosen by its lower-cased extension
   * (lines 23-26): ".json" is JSON, ".yml" and ".yaml" are YAML, and anything
   * else, no extension included, is the error raised at line 26.
   */
  function DefinitionsFormat(defPath: string): (r: Result<Format, Error>)
    ensures r == Success(Json) <==> Lower(Extname(defPath)) == ".json"
    ensures r == Success(Yaml) <==> Lower(Extname(defPath)) == ".yml" || Lower(Extname(defPath)) == ".yaml"
    ensures r.Failure? ==> r == Failure(UnknownDefinitionsType)
  {
    var defExtension := Lower(Extname(defPath));
    if defExtension == ".json" then Success(Json)
    else if defExtension == ".yml" || defExtension == ".yaml" then Success(Yaml)
    else Failure(UnknownDefinitionsType)
  }

  /** The classification ignores case: paths that agree up to case get the same verdict. */
  lemma DefinitionsFormatIgnoresCase(p: string, q: string)
    requires SameIgnoringCase(p, q)
    ensures DefinitionsFormat(p) == DefinitionsFormat(q)
  {
    ExtnameIgnoresCase(p, q);
  }

  /** The lower-cased spellings of the extensions the classification is shown on. */
  lemma LowerOfJson()
    ensures Lower(".JSON") == ".json"
  {
    var x := ".JSON";
    assert LowerChar(x[0]) == '.' && LowerChar(x[1]) == 'j' && LowerChar(x[2]) == 's'
        && LowerChar(x[3]) == 'o' && LowerChar(x[4]) == 'n';
    LowerIs(x, ".json");
  }

  lemma LowerOfYml()
    ensures Lower(".Yml") == ".yml"
  {
    var x := ".Yml";
    assert LowerChar(x[0]) == '.' && LowerChar(x[1]) == 'y' && LowerChar(x[2]) == 'm' && LowerChar(x[3]) == 'l';
    LowerIs(x, ".yml");
  }

  lemma LowerOfYaml()
    ensures Lower(".yaml") == ".yaml"
  {
    var x := ".yaml";
    assert LowerChar(x[0]) == '.' && LowerChar(x[1]) == 'y' && LowerChar(x[2]) == 'a'
        && LowerChar(x[3]) == 'm' && LowerChar(x[4]) == 'l';
    LowerIs(x, ".yaml");
  }

  lemma LowerOfBak()
    ensures Lower(".bak") == ".bak"
  {
    var x := ".bak";
    assert LowerChar(x[0]) == '.' && LowerChar(x[1]) == 'b' && LowerChar(x[2]) == 'a' && LowerChar(x[3]) == 'k';
    LowerIs(x, ".bak");
  }

  /** Any upper-case ".JSON" name is JSON, in whatever directory. */
  lemma DefinitionsFormatUpperJson(dir: string, stem: string)
    requires dir == "" || dir[|dir| - 1] == '/'
    requires '/' !in stem && stem != ""
    ensures DefinitionsFormat(dir + stem + ".JSON") == Success(Json)
  {
    var p := dir + stem + ".JSON";
    assert "." + "JSON" == ".JSON";
    assert dir + stem + "." + "JSON" == p;
    ExtnameOfDottedName(dir, stem, "JSON");
    assert Extname(p) == ".JSON";
    LowerOfJson();
  }

  /** Any mixed-case ".Yml" name is YAML. */
  lemma DefinitionsFormatMixedYml(dir: string, stem: string)
    requires dir == "" || dir[|dir| - 1] == '/'
    requires '/' !in stem && stem != ""
    ensures DefinitionsFormat(dir + stem + ".Yml") == Success(Yaml)
  {
    var p := dir + stem + ".Yml";
    assert "." + "Yml" == ".Yml";
    assert dir + stem + "." + "Yml" == p;
    ExtnameOfDottedName(dir, stem, "Yml");
    assert Extname(p) == ".Yml";
    LowerOfYml();
  }

  /** Any ".yaml" name is YAML too. */
  lemma DefinitionsFormatYaml(dir: string, stem: string)
    requires dir == "" || dir[|dir| - 1] == '/'
    requires '/' !in stem && stem != ""
    ensures DefinitionsFormat(dir + stem + ".yaml") == Success(Yaml)
  {
    var p := dir + stem + ".yaml";
    assert "." + "yaml" == ".yaml";
    assert dir + stem + "." + "yaml" == p;
    ExtnameOfDottedName(dir, stem, "yaml");
    assert Extname(p) == ".yaml";
    LowerOfYaml();
  }

  /** A second extension after ".json" is refused, whatever the name and directory. */
  lemma DefinitionsFormatRefusesDoubleExtension(dir: string, stem: string)
    requires dir == "" || dir[|dir| - 1] == '/'
    requires '/' !in stem
    ensures DefinitionsFormat(dir + stem + ".json.bak") == Failure(UnknownDefinitionsType)
  {
    DoubleExtensionSplits(dir, stem);
    ExtnameOfDottedName(dir, stem + ".json", "bak");
    BakRefused(dir + stem + ".json.bak");
  }

  /** `stem.json.bak` is the name `stem.json` followed by the extension "bak". */
  lemma DoubleExtensionSplits(dir: string, stem: string)
    requires '/' !in stem
    ensures '/' !in stem + ".json" && stem + ".json" != ""
    ensures dir + stem + ".json.bak" == dir + (stem + ".json") + "." + "bak"
    ensures (stem + ".json") + "." + "bak" != ".."
  {
    assert ".json.bak" == ".json" + "." + "bak";
  }

  lemma BakRefused(p: string)
    requires Extname(p) == ".bak"
    ensures DefinitionsFormat(p) == Failure(UnknownDefinitionsType)
  {
    LowerOfBak();
    assert ".bak"[1] != ".yml"[1];
  }

  /** A definitions file named just ".json" has no extension and is refused, in whatever directory. */
  lemma DefinitionsFormatRefusesDotfile(dir: string)
    requires dir == "" || dir[|dir| - 1] == '/'
    ensures DefinitionsFormat(dir + ".json") == Failure(UnknownDefinitionsType)
  {
    assert '.' !in ".json"[1..];
    ExtnameOfUndottedName(dir, ".json");
  }

  /**
   * The category key of line 39: `catID || path || name.toLowerCase()`. An
   * explicit truthy `catID` wins, then a truthy `path`, then the lower-cased
   * name; nothing stops the key from being empty, which it is exactly when
   * `catID` and `path` are falsy and the name is the empty string.
   */
  function CategoryId(c: CategoryDesc): (id: string)
    ensures Truthy(c.catID) ==> id == c.catID.value
    ensures !Truthy(c.catID) && Truthy(c.path) ==> id == c.path.value
    ensures !Truthy(c.catID) && !Truthy(c.path) ==> id == Lower(c.name)
    ensures id == "" <==> !Truthy(c.catID) && !Truthy(c.path) && c.name == ""
  {
    Or(c.catID, Or(c.path, Lower(c.name)))
  }

  /**
   * The directory of line 40: `join(customDir, path || catID)`, where `catID`
   * is the key of line 39. A truthy `path` names the directory; otherwise the
   * key does.
   */
  function CategoryDir(customDir: string, c: CategoryDesc): (d: string)
    ensures Truthy(c.path) ==> d == Join(customDir, c.path.value)
    ensures !Truthy(c.path) ==> d == Join(customDir, CategoryId(c))
  {
    Join(customDir, Or(c.path, CategoryId(c)))
  }

  /**
   * The file identifier of line 47: `id || basename(path, extname(path))`. A
   * truthy `id` wins; otherwise the identifier and the file's extension spell
   * its final path component (`intro.md` gives "intro", `a.b.c` gives "a.b"),
   * and a file with an extension never gets an empty identifier.
   */
  function FileId(f: FileDesc): (r: string)
    ensures Truthy(f.id) ==> r == f.id.value
    ensures !Truthy(f.id) ==> r + Extname(f.path) == Basename(f.path)
    ensures !Truthy(f.id) && Extname(f.path) != "" ==> r != ""
  {
    Or(f.id, Stem(f.path))
  }

  /**
   * The type tag of line 51: the extension of the file's path with one leading
   * '.' removed, letter case kept. It never contains a '.' or a '/'; it is
   * empty when the path has no extension, and also when the extension is a
   * lone trailing '.'.
   */
  function TypeTag(path: string): (t: string)
    ensures '.' !in t && '/' !in t
    ensures Extname(path) == "" ==> t == ""
    ensures Extname(path) != "" ==> Extname(path) == "." + t
  {
    var extension := Extname(path);
    if |extension| > 0 && extension[0] == '.' then extension[1..] else extension
  }

  /** The record pushed at lines 48-53 once the read of `f` has produced `content`. */
  function Record(f: FileDesc, content: string): LoadedFile
  {
    LoadedFile(FileId(f), f.name, TypeTag(f.path), content)
  }

  /**
   * An empty `catID`, `path` or file `id` behaves exactly as if the field were
   * absent, for the key, the directory and the file identifier alike.
   */
  lemma EmptyFieldsFallThrough(customDir: string, c: CategoryDesc, f: FileDesc)
    ensures CategoryId(c.(catID := Some(""))) == CategoryId(c.(catID := None))
    ensures CategoryId(c.(path := Some(""))) == CategoryId(c.(path := None))
    ensures CategoryDir(customDir, c.(catID := Some(""))) == CategoryDir(customDir, c.(catID := None))
    ensures CategoryDir(customDir, c.(path := Some(""))) == CategoryDir(customDir, c.(path := None))
    ensures FileId(f.(id := Some(""))) == FileId(f.(id := None))
  {
  }

  /**
   * A category's directory is the directory named after its key unless the
   * descriptor gives both a `catID` and a `path` and they differ; so a `catID`
   * without a `path` names the directory.
   */
  lemma CategoryDirFollowsId(customDir: string, c: CategoryDesc)
    ensures !(Truthy(c.catID) && Truthy(c.path) && c.catID.value != c.path.value)
        ==> CategoryDir(customDir, c) == Join(customDir, CategoryId(c))
    ensures Truthy(c.catID) && !Truthy(c.path) ==> CategoryDir(customDir, c) == Join(customDir, c.catID.value)
  {
  }

  /**
   * When `catID` and `path` are both given and differ, the directory is not the
   * one named after the key.
   */
  lemma CategoryDirApartFromId(customDir: string, c: CategoryDesc)
    requires Truthy(c.catID) && Truthy(c.path) && c.catID.value != c.path.value
    ensures CategoryDir(customDir, c) != Join(customDir, CategoryId(c))
  {
    JoinInjective(customDir, c.path.value, c.catID.value);
  }

  /**
   * The record of lines 48-53: the identifier of line 47, the descriptor's own
   * name, the content read, and a type that is empty without an extension and
   * is the extension after its '.' otherwise.
   */
  lemma RecordFields(f: FileDesc, content: string)
    ensures Record(f, content).content == content && Record(f, content).name == f.name
    ensures Truthy(f.id) ==> Record(f, content).id == f.id.value
    ensures !Truthy(f.id) ==> Record(f, content).id + Extname(f.path) == Basename(f.path)
    ensures Extname(f.path) == "" ==> Record(f, content).fileType == ""
    ensures Extname(f.path) != "" ==> Extname(f.path) == "." + Record(f, content).fileType
  {
  }

  /** A file's stored type depends on its path alone: the descriptor's `type` field is never read. */
  lemma RecordIgnoresTypeOverride(f: FileDesc, override: Option<string>, content: string)
    ensures Record(f.(fileType := override), content) == Record(f, content)
  {
  }

  /** A file whose name has no '.' after its first character (`README`, `.bashrc`) gets the empty type. */
  lemma TypeTagOfUndottedName(dir: string, name: string)
    requires dir == "" || dir[|dir| - 1] == '/'
    requires name != "" && '/' !in name && '.' !in name[1..]
    ensures TypeTag(dir + name) == ""
  {
    ExtnameOfUndottedName(dir, name);
  }

  /** The final path component is the stem, then a '.' and the type tag when there is an extension. */
  lemma TypeTagSplitsName(path: string)
    ensures Basename(path) == Stem(path) + (if Extname(path) == "" then "" else "." + TypeTag(path))
  {
  }

  lemma LowerGuides()
    ensures Lower("Guides") == "guides"
  {
    var x := "Guides";
    assert LowerChar(x[0]) == 'g' && LowerChar(x[1]) == 'u' && LowerChar(x[2]) == 'i'
        && LowerChar(x[3]) == 'd' && LowerChar(x[4]) == 'e' && LowerChar(x[5]) == 's';
    LowerIs(x, "guides");
  }

  /**
   * A category named "Guides" with no `catID` or `path` gets the key and the
   * directory "guides", and its file `intro.md` is stored as "intro" of type "md".
   */
  lemma GuidesScenario(customDir: string, content: string)
    ensures var c := CategoryDesc(None, None, "Guides", [FileDesc("intro.md", None, None, None)]);
            CategoryId(c) == "guides" && CategoryDir(customDir, c) == Join(customDir, "guides")
            && Record(c.files[0], content) == LoadedFile("intro", None, "md", content)
  {
    LowerGuides();
    ExtnameOfPlainName();
    assert ".md"[1..] == "md";
  }

  /**
   * An explicit `catID` and `path` give the key and the directory separately,
   * and an explicit `id` replaces the derived identifier but not the type.
   */
  lemma ExplicitFieldsScenario(customDir: string, content: string)
    ensures var c := CategoryDesc(Some("g"), Some("guides-dir"), "Guides", [FileDesc("a.yaml", Some("custom-a"), None, None)]);
            CategoryId(c) == "g" && CategoryDir(customDir, c) == Join(customDir, "guides-dir")
            && Record(c.files[0], content) == LoadedFile("custom-a", None, "yaml", content)
  {
    ExtnameOfDottedName("", "a", "yaml");
    assert "" + "a" + "." + "yaml" == "a.yaml";
    assert ".yaml"[1..] == "yaml";
  }

  /**
   * Nothing makes file identifiers unique within a category: without an
   * explicit `id`, `dir/stem.md` and `dir/stem.txt` both get the identifier `stem`.
   */
  lemma FileIdsMayCollide(dir: string, stem: string, ext1: string, ext2: string)
    requires dir == "" || dir[|dir| - 1] == '/'
    requires '/' !in stem && stem != "" && stem != "."
    requires '/' !in ext1 && '.' !in ext1 && '/' !in ext2 && '.' !in ext2
    ensures FileId(FileDesc(dir + stem + "." + ext1, None, None, None)) == stem
    ensures FileId(FileDesc(dir + stem + "." + ext2, None, None, None)) == stem
  {
    assert stem == [stem[0]] + stem[1..];
    assert (stem + "." + ext1)[0] == stem[0] && (stem + "." + ext2)[0] == stem[0];
    ExtnameOfDottedName(dir, stem, ext1);
    ExtnameOfDottedName(dir, stem, ext2);
  }
}

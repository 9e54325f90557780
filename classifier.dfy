/**
 * File classification: the fixed table of supported names, how a file name's
 * extension is taken, whether the scanner keeps a file, and the type label it
 * records for it.
 */
module Classifier {
  import opened Strings

  /** The scanner's table: extensions and a few whole file names, each with a label. */
  const SupportedExtensions: map<string, string> := map[
    "js" := "JavaScript",
    "jsx" := "React JavaScript",
    "ts" := "TypeScript",
    "tsx" := "React TypeScript",
    "css" := "CSS",
    "scss" := "SCSS",
    "html" := "HTML",
    "json" := "JSON",
    "md" := "Markdown",
    "py" := "Python",
    "env" := "Environment Variables",
    "gitignore" := "Git Ignore",
    "yml" := "YAML",
    "yaml" := "YAML",
    "package.json" := "Package JSON",
    "next.config.js" := "Next.js Config",
    "tailwind.config.js" := "Tailwind Config",
    "three.js" := "Three.js"
  ]

  /** The label given to a kept file whose extension is not a table key. */
  const UnknownLabel := "Unknown"

  /** The keys that are whole file names rather than extensions. */
  const ExactNameKeys: set<string> := {"package.json", "next.config.js", "tailwind.config.js", "three.js"}

  /**
   * The extension of a file name: the text after its last '.', or "" when the
   * name has no '.' (".gitignore" has extension "gitignore", "a." has "").
   */
  function Extension(name: string): (ext: string)
    ensures '.' !in ext
    ensures '.' !in name ==> ext == ""
    ensures '.' in name ==> exists stem :: name == stem + "." + ext
  {
    if '.' in name then
      var parts := Split(name, '.');
      SplitLast(name, '.');
      if |parts| == 1 then
        assert false;
        ""
      else
        assert name == Join(parts[..|parts| - 1], '.') + "." + parts[|parts| - 1];
        parts[|parts| - 1]
    else ""
  }

  /**
   * The keys of `SupportedExtensions`, written out so that membership is a
   * plain comparison with each of them (`IsKeyOfTable` proves the two agree).
   */
  predicate IsKey(key: string)
  {
    key in {
      "js", "jsx", "ts", "tsx", "css", "scss", "html", "json", "md", "py", "env", "gitignore", "yml", "yaml",
      "package.json", "next.config.js", "tailwind.config.js", "three.js"
    }
  }

  lemma IsKeyOfTable(key: string)
    ensures IsKey(key) <==> key in SupportedExtensions
  {
  }

  /** The scanner keeps a file when its whole name or its extension is a table key. */
  predicate IsSupported(name: string)
  {
    IsKey(name) || IsKey(Extension(name))
  }

  /** The label recorded for a kept file: looked up by extension only, "Unknown" otherwise. */
  function FileType(name: string): (kind: string)
    ensures kind == UnknownLabel || exists key :: key in SupportedExtensions && '.' !in key && kind == SupportedExtensions[key]
  {
    var ext := Extension(name);
    IsKeyOfTable(ext);
    if IsKey(ext) then SupportedExtensions[ext] else UnknownLabel
  }

  /** Every label the table holds, and "Unknown", is ASCII text, so lower-casing it letter by letter is exact. */
  lemma LabelsAreAscii()
    ensures IsAscii(UnknownLabel)
    ensures forall key :: key in SupportedExtensions ==> IsAscii(SupportedExtensions[key])
  {
    forall key | key in SupportedExtensions
      ensures IsAscii(SupportedExtensions[key])
    {
      IsKeyOfTable(key);
    }
  }

  /** The recorded label is ASCII text. */
  lemma FileTypeIsAscii(name: string)
    ensures IsAscii(FileType(name))
  {
    LabelsAreAscii();
  }

  /** The text after the last '.' is the extension, whatever precedes that '.'. */
  lemma ExtensionOf(stem: string, ext: string)
    requires '.' !in ext
    ensures Extension(stem + "." + ext) == ext
  {
    var name := stem + "." + ext;
    var e := Extension(name);
    var stem' :| name == stem' + "." + e;
    assert name[|stem|] == '.';
    assert name[|stem'|] == '.';
    assert e == name[|stem| + 1..] == ext;
  }

  /** A name without '.' that is a table key is kept, with the label "Unknown". */
  lemma DotlessKeyIsUnknown(name: string)
    requires '.' !in name && name in SupportedExtensions
    ensures IsSupported(name) && FileType(name) == UnknownLabel
  {
    IsKeyOfTable(name);
    IsKeyOfTable("");
  }

  /**
   * The labels of the whole-name entries are never recorded: a kept file is
   * labelled by its extension, which holds no '.', and every whole-name key does.
   */
  lemma LabelNeverFromExactName(name: string)
    ensures forall key :: key in ExactNameKeys ==> FileType(name) != SupportedExtensions[key]
  {
    var ext := Extension(name);
    assert forall key :: key in ExactNameKeys ==> '.' in key by {
      assert "package.json"[7] == '.';
      assert "next.config.js"[4] == '.';
      assert "tailwind.config.js"[8] == '.';
      assert "three.js"[5] == '.';
    }
    if ext in SupportedExtensions {
      assert ext !in ExactNameKeys;
      assert ext in SupportedExtensions.Keys - ExactNameKeys;
    }
  }

  /** How a name of the form stem + "." + ext is classified, with `ext` free of '.'. */
  lemma ClassifyByExtension(name: string, stem: string, ext: string)
    requires '.' !in ext && name == stem + "." + ext
    ensures Extension(name) == ext
    ensures IsSupported(name) <==> ext in SupportedExtensions || name in SupportedExtensions
    ensures FileType(name) == if ext in SupportedExtensions then SupportedExtensions[ext] else UnknownLabel
  {
    ExtensionOf(stem, ext);
    IsKeyOfTable(ext);
    IsKeyOfTable(name);
  }

  /** "package.json" is admitted by its whole name but labelled by its extension. */
  lemma PackageJsonIsJson(name: string)
    requires name == "package" + "." + "json"
    ensures IsSupported(name) && FileType(name) == "JSON"
  {
    ClassifyByExtension(name, "package", "json");
  }

  /** "three.js" is labelled "JavaScript", not "Three.js". */
  lemma ThreeJsIsJavaScript(name: string)
    requires name == "three" + "." + "js"
    ensures IsSupported(name) && FileType(name) == "JavaScript"
  {
    ClassifyByExtension(name, "three", "js");
  }

  /** A dot file is classified by the text after its dot. */
  lemma GitignoreIsGitIgnore(name: string)
    requires name == ".gitignore"
    ensures IsSupported(name) && FileType(name) == "Git Ignore"
  {
    ClassifyByExtension(name, "", "gitignore");
  }

  /** A name whose extension is not in the table is not scanned. */
  lemma XyzIsSkipped(name: string)
    requires name == "file.xyz"
    ensures !IsSupported(name)
  {
    ClassifyByExtension(name, "file", "xyz");
  }
}

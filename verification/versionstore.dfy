/** The local `Version.ini`: where `getLocalVersion` looks for it, how it
    reads the version from it, and how `updateLocalVersion` rewrites it. A
    file is modelled by the document `ini.decode` makes of it: sections of
    string keys and string values. */
module VersionStore {
  import opened Wrappers
  import Paths
  import JsText
  import Manifest

  type Section = map<string, string>

  type IniDoc = map<string, Section>

  /** The version files on disk, by absolute path. */
  type Files = map<string, IniDoc>

  datatype StoreError =
    | NotFound(candidates: seq<string>)   // no candidate path exists
    | NoFile(path: string)                // reading the recorded path fails
    | NoDownloadSection(path: string)     // `versionData.Download` is undefined

  /** The paths `getLocalVersion` tries, in order: the configured file, then
      two places under the client directory, then two under the directory
      of the updater's own module. */
  function Candidates(versionFile: string, clientDirectory: string, moduleDirectory: string): (ps: seq<string>)
    ensures |ps| == 5 && ps[0] == versionFile
  {
    [ versionFile,
      Paths.Join(clientDirectory, "BIN/Version.ini"),
      Paths.Join(clientDirectory, "Version.ini"),
      Paths.Join(moduleDirectory, "bin/Version.ini"),
      Paths.Join(moduleDirectory, "BIN/Version.ini") ]
  }

  /** The first path of `ps` that exists. */
  function FirstPresent(ps: seq<string>, files: Files): (r: Option<nat>)
    ensures r.Some? ==> r.value < |ps| && ps[r.value] in files
    ensures r.Some? ==> forall j :: 0 <= j < r.value ==> ps[j] !in files
    ensures r.None? ==> forall j :: 0 <= j < |ps| ==> ps[j] !in files
  {
    if ps == [] then None
    else if ps[0] in files then Some(0)
    else match FirstPresent(ps[1..], files)
      case None => None
      case Some(i) => Some(i + 1)
  }

  /** `parseInt(versionData.Download.Version) || 0`: a missing section
      throws, a missing key or a value with no leading number reads as 0. */
  function ReadVersion(doc: IniDoc, path: string): (r: Result<int, StoreError>)
    ensures r.Failure? <==> "Download" !in doc
    ensures r.Success? && "Version" !in doc["Download"] ==> r.value == 0
    ensures r.Success? && "Version" in doc["Download"] ==> r.value == JsText.ParseIntOrZero(doc["Download"]["Version"])
    ensures r.Success? && "Version" in doc["Download"] && JsText.ParseInt(doc["Download"]["Version"]).None? ==> r.value == 0
  {
    if "Download" !in doc then Failure(NoDownloadSection(path))
    else if "Version" !in doc["Download"] then Success(0)
    else Success(JsText.ParseIntOrZero(doc["Download"]["Version"]))
  }

  /** The path `getLocalVersion` settles on and the version it returns. */
  function LocalVersion(ps: seq<string>, files: Files): Result<(string, int), StoreError>
  {
    match FirstPresent(ps, files)
    case None => Failure(NotFound(ps))
    case Some(i) =>
      match ReadVersion(files[ps[i]], ps[i])
      case Failure(e) => Failure(e)
      case Success(v) => Success((ps[i], v))
  }

  const Marker: string := " v "

  /** `` `${pv.split(' v ')[0]} v ${n}` ``. */
  function RewriteProductVersion(pv: string, n: int): string
  {
    JsText.BeforeFirst(pv, Marker) + Marker + JsText.IntToDecimal(n)
  }

  /** The document `updateLocalVersion(n)` writes back: the product version
      rewritten when the `Version` section has a non-empty `ProductVersion`,
      then `Download.Version` and `Download["DB file"]` set; a missing
      `Download` section throws before anything is written. */
  function UpdatedDoc(doc: IniDoc, path: string, n: int): Result<IniDoc, StoreError>
  {
    var withProduct :=
      if "Version" in doc && "ProductVersion" in doc["Version"] && doc["Version"]["ProductVersion"] != "" then
        doc["Version" := doc["Version"]["ProductVersion" := RewriteProductVersion(doc["Version"]["ProductVersion"], n)]]
      else doc;
    if "Download" !in withProduct then Failure(NoDownloadSection(path))
    else
      var download := withProduct["Download"]["Version" := JsText.IntToDecimal(n)]["DB file" := "db/server.db." + JsText.IntToDecimal(n) + ".cab"];
      Success(withProduct["Download" := download])
  }

  /** `updateLocalVersion(n)` on the version files: reading the recorded
      path throws when it does not exist; otherwise its document is
      rewritten. */
  function WriteVersion(files: Files, path: string, n: int): Result<Files, StoreError>
  {
    if path !in files then Failure(NoFile(path))
    else match UpdatedDoc(files[path], path, n)
      case Failure(e) => Failure(e)
      case Success(doc) => Success(files[path := doc])
  }

  /** After a rewrite the document reads back as version `n` and names the
      snapshot database of version `n`; the rewrite fails exactly when the
      `Download` section is missing. */
  lemma UpdatedDocReadsBack(doc: IniDoc, path: string, n: int)
    ensures UpdatedDoc(doc, path, n).Failure? <==> "Download" !in doc
    ensures UpdatedDoc(doc, path, n).Success? ==>
      && ReadVersion(UpdatedDoc(doc, path, n).value, path) == Success(n)
      && UpdatedDoc(doc, path, n).value["Download"]["DB file"] == Manifest.SnapshotPath(n)
  {
    JsText.ParseIntOrZeroOfDecimal(n);
  }

  /** A rewrite sets a non-empty `ProductVersion` to the text before its
      first " v ", then " v ", then the new version, and leaves the
      `Version` section alone when it has no non-empty `ProductVersion`. */
  lemma UpdatedDocProductVersion(doc: IniDoc, path: string, n: int)
    requires "Download" in doc
    ensures var d := UpdatedDoc(doc, path, n).value;
      && ("Version" in d <==> "Version" in doc)
      && ("Version" in doc && "ProductVersion" in doc["Version"] && doc["Version"]["ProductVersion"] != "" ==>
            d["Version"]["ProductVersion"]
            == JsText.BeforeFirst(doc["Version"]["ProductVersion"], Marker) + Marker + JsText.IntToDecimal(n))
      && ("Version" in doc && !("ProductVersion" in doc["Version"] && doc["Version"]["ProductVersion"] != "") ==>
            d["Version"] == doc["Version"])
  {
  }

  /** A rewrite keeps every section, every other section's contents, every
      other key of `Download`, and every key of `Version` but
      `ProductVersion`; it adds the two `Download` keys it sets. */
  lemma UpdatedDocKeepsOthers(doc: IniDoc, path: string, n: int)
    requires "Download" in doc
    ensures var d := UpdatedDoc(doc, path, n).value;
      && d.Keys == doc.Keys
      && (forall s :: s in doc && s != "Download" && s != "Version" ==> d[s] == doc[s])
      && d["Download"].Keys == doc["Download"].Keys + {"Version", "DB file"}
      && (forall k :: k in doc["Download"] && k != "Version" && k != "DB file" ==> d["Download"][k] == doc["Download"][k])
      && ("Version" in doc ==> d["Version"].Keys == doc["Version"].Keys)
      && ("Version" in doc ==> forall k :: k in doc["Version"] && k != "ProductVersion" ==> d["Version"][k] == doc["Version"][k])
  {
    var withProduct :=
      if "Version" in doc && "ProductVersion" in doc["Version"] && doc["Version"]["ProductVersion"] != "" then
        doc["Version" := doc["Version"]["ProductVersion" := RewriteProductVersion(doc["Version"]["ProductVersion"], n)]]
      else doc;
    assert withProduct.Keys == doc.Keys;
    assert withProduct["Download"] == doc["Download"];
  }

  /** The text before the first " v " never holds " v " across its end
      when it does not end in " v" itself. */
  lemma MarkerOnlyAtEnd(p: string)
    requires JsText.NoOccurrence(p, Marker) && !JsText.EndsWith(p, " v")
    ensures forall i :: 0 <= i < |p| ==> !JsText.OccursAt(p + Marker, Marker, i)
  {
    forall i | 0 <= i < |p|
      ensures !JsText.OccursAt(p + Marker, Marker, i)
    {
      if i + 3 <= |p| {
        assert (p + Marker)[i..i + 3] == p[i..i + 3];
        assert !JsText.OccursAt(p, Marker, i);
      } else if i == |p| - 2 {
        assert (p + Marker)[i] == p[|p| - 2] && (p + Marker)[i + 1] == p[|p| - 1];
        assert p[|p| - 2..] == [p[|p| - 2], p[|p| - 1]];
      } else {
        assert (p + Marker)[i..i + 3][1] == ' ';
      }
    }
  }

  /** When the text before the first " v " does not itself end in " v", a
      rewrite keeps that text, so rewriting twice is rewriting once. */
  lemma RewriteStable(pv: string, m: int, n: int)
    requires !JsText.EndsWith(JsText.BeforeFirst(pv, Marker), " v")
    ensures JsText.BeforeFirst(RewriteProductVersion(pv, m), Marker) == JsText.BeforeFirst(pv, Marker)
    ensures RewriteProductVersion(RewriteProductVersion(pv, m), n) == RewriteProductVersion(pv, n)
  {
    var p := JsText.BeforeFirst(pv, Marker);
    MarkerOnlyAtEnd(p);
    JsText.BeforeFirstStops(p, Marker, JsText.IntToDecimal(m));
  }

  /** Cutting the trailing " v" off a name without " v " leaves a text
      that neither holds " v " nor ends in " v". */
  lemma CutTrailingV(name: string)
    requires JsText.EndsWith(name, " v") && JsText.NoOccurrence(name, Marker)
    ensures JsText.NoOccurrence(name[..|name| - 2], Marker)
    ensures !JsText.EndsWith(name[..|name| - 2], " v")
  {
    var q := name[..|name| - 2];
    forall i
      ensures !JsText.OccursAt(q, Marker, i)
    {
      if 0 <= i && i + 3 <= |q| {
        assert q[i..i + 3] == name[i..i + 3];
        assert !JsText.OccursAt(name, Marker, i);
      }
    }
    if |q| >= 2 {
      assert !JsText.OccursAt(name, Marker, |q| - 2);
      assert name[|q| - 2..|q| + 1] == q[|q| - 2..] + [name[|q|]];
      assert name[|q|] == ' ';
    }
  }

  /** A rewrite cuts the product version at its first " v "; the second
      rewrite of a name ending in " v" therefore cuts at that name's own
      trailing " v". */
  lemma SecondCut(name: string, tail: string)
    requires JsText.EndsWith(name, " v") && JsText.NoOccurrence(name, Marker)
    ensures JsText.BeforeFirst(name + Marker + tail, Marker) == name[..|name| - 2]
  {
    var q := name[..|name| - 2];
    CutTrailingV(name);
    MarkerOnlyAtEnd(q);
    JsText.BeforeFirstStops(q, Marker, "v " + tail);
    assert name + Marker + tail == q + Marker + ("v " + tail) by {
      assert name == q + " v";
    }
  }

  /** A product name that ends in " v" (and holds no " v ") drifts: the
      first update appends " v n" to all of it, the second cuts it at its
      own trailing " v", so two updates lose the last two characters of the
      name that one update keeps. */
  lemma RewriteDrifts(name: string, m: int, n: int)
    requires JsText.EndsWith(name, " v") && JsText.NoOccurrence(name, Marker)
    ensures RewriteProductVersion(name, m) == name + Marker + JsText.IntToDecimal(m)
    ensures RewriteProductVersion(RewriteProductVersion(name, m), n) == name[..|name| - 2] + Marker + JsText.IntToDecimal(n)
    ensures RewriteProductVersion(RewriteProductVersion(name, m), n) != RewriteProductVersion(name, n)
  {
    JsText.BeforeFirstAbsent(name, Marker);
    SecondCut(name, JsText.IntToDecimal(m));
  }
}

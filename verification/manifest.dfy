/**
 * The Chrome `manifest.json` the converter assembles from the descriptor
 * and from what the pass over the archive found. The manifest is kept as a
 * record with one field per key; a key the converter only writes
 * conditionally is an `Option`, `None` when the key is left out.
 */
module Manifest {
  import opened Results
  import opened Descriptor
  import opened UserScript
  import Shim

  const PopupPage := "popup.html"
  const OptionsPage := "options.html"
  const ManifestVersion := 2
  const RunAt := "document_start"

  /** The permissions every converted extension asks for. */
  const Permissions: seq<string> :=
    ["contextMenus", "webRequest", "webRequestBlocking", "storage", "cookies", "tabs", "http://*/*", "https://*/*"]

  /** One entry of `content_scripts`. */
  datatype ContentScript = ContentScript(
    js: seq<string>,
    matches: seq<string>,
    excludeMatches: seq<string>,
    runAt: string,
    allFrames: bool)

  datatype Manifest = Manifest(
    name: string,
    description: string,
    manifestVersion: nat,
    version: string,
    backgroundPage: string,
    icon128: Option<string>,
    defaultPopup: Option<string>,
    optionsPage: Option<string>,
    contentScripts: Option<seq<ContentScript>>,
    webAccessibleResources: Option<seq<string>>,
    permissions: seq<string>)

  /** The content-script entry of one injected script: the injected-script shim runs first, then the script. */
  function ContentBlock(s: InjectedScript): ContentScript {
    ContentScript([Shim.InjectedShim, s.file], s.includes, s.excludes, RunAt, true)
  }

  /** One content-script entry per injected script, in the order the scripts were found. */
  function ContentBlocks(scripts: seq<InjectedScript>): (blocks: seq<ContentScript>)
    ensures |blocks| == |scripts|
    ensures forall i :: 0 <= i < |scripts| ==> blocks[i] == ContentBlock(scripts[i])
  {
    if |scripts| == 0 then [] else [ContentBlock(scripts[0])] + ContentBlocks(scripts[1..])
  }

  /** A list-valued key that is written only when the list is not empty. */
  function UnlessEmpty<T>(xs: seq<T>): (r: Option<seq<T>>)
    ensures r.Some? <==> |xs| > 0
    ensures r.Some? ==> r.value == xs
  {
    if |xs| == 0 then None else Some(xs)
  }

  /**
   * The manifest: the fixed keys always, the icon only with an icon file,
   * the popup and options keys only when those documents were converted,
   * `content_scripts` only with injected scripts and
   * `web_accessible_resources` only with resources.
   */
  function Build(d: Descriptor, hasPopup: bool, hasOption: bool, injected: seq<InjectedScript>, resources: seq<string>): (m: Manifest)
    ensures m.name == d.name && m.description == d.description && m.version == d.version
    ensures m.manifestVersion == ManifestVersion && m.backgroundPage == d.indexFile && m.permissions == Permissions
    ensures m.icon128 == d.iconFile
    ensures m.defaultPopup.Some? <==> hasPopup
    ensures m.defaultPopup.Some? ==> m.defaultPopup.value == PopupPage
    ensures m.optionsPage.Some? <==> hasOption
    ensures m.optionsPage.Some? ==> m.optionsPage.value == OptionsPage
    ensures m.contentScripts.Some? <==> |injected| > 0
    ensures m.contentScripts.Some? ==> |m.contentScripts.value| == |injected|
    ensures m.contentScripts.Some? ==> forall i :: 0 <= i < |injected| ==>
      m.contentScripts.value[i] == ContentScript([Shim.InjectedShim, injected[i].file], injected[i].includes, injected[i].excludes, RunAt, true)
    ensures m.webAccessibleResources.Some? <==> |resources| > 0
    ensures m.webAccessibleResources.Some? ==> m.webAccessibleResources.value == resources
  {
    Manifest(
      d.name, d.description, ManifestVersion, d.version, d.indexFile, d.iconFile,
      if hasPopup then Some(PopupPage) else None,
      if hasOption then Some(OptionsPage) else None,
      UnlessEmpty(ContentBlocks(injected)),
      UnlessEmpty(resources),
      Permissions)
  }

  /**
   * The file names a manifest refers to: the background page, the icon, the
   * pages, the content scripts and the web-accessible resources.
   */
  function Referenced(m: Manifest): (files: set<string>)
    ensures m.backgroundPage in files
  {
    {m.backgroundPage}
    + (if m.icon128.Some? then {m.icon128.value} else {})
    + (if m.defaultPopup.Some? then {m.defaultPopup.value} else {})
    + (if m.optionsPage.Some? then {m.optionsPage.value} else {})
    + (if m.contentScripts.Some?
       then set i, j | 0 <= i < |m.contentScripts.value| && 0 <= j < |m.contentScripts.value[i].js| :: m.contentScripts.value[i].js[j]
       else {})
    + (if m.webAccessibleResources.Some? then set x | x in m.webAccessibleResources.value else {})
  }

  /**
   * Every content-script entry of a built manifest runs the injected-script
   * shim first and then exactly one injected script, and every injected
   * script has its own entry.
   */
  lemma BuiltScriptsAreInjected(d: Descriptor, hasPopup: bool, hasOption: bool, injected: seq<InjectedScript>, resources: seq<string>, f: string)
    ensures var m := Build(d, hasPopup, hasOption, injected, resources);
            && (m.contentScripts.Some? ==> forall i :: 0 <= i < |m.contentScripts.value| ==> m.contentScripts.value[i].js[0] == Shim.InjectedShim)
            && ((exists i :: 0 <= i < |injected| && injected[i].file == f) <==>
                (m.contentScripts.Some? && exists i :: 0 <= i < |m.contentScripts.value| && m.contentScripts.value[i].js[1] == f))
  {
    var m := Build(d, hasPopup, hasOption, injected, resources);
    if exists i :: 0 <= i < |injected| && injected[i].file == f {
      var i :| 0 <= i < |injected| && injected[i].file == f;
      assert m.contentScripts.value[i].js[1] == f;
    }
  }

  /**
   * The files a built manifest refers to are its background page, its icon,
   * the popup and options documents it was told about, the injected-script
   * shim, the injected scripts and the resources, and nothing else.
   */
  lemma BuiltReferences(d: Descriptor, hasPopup: bool, hasOption: bool, injected: seq<InjectedScript>, resources: seq<string>, f: string)
    ensures f in Referenced(Build(d, hasPopup, hasOption, injected, resources)) <==>
      || f == d.indexFile
      || d.iconFile == Some(f)
      || (hasPopup && f == PopupPage)
      || (hasOption && f == OptionsPage)
      || (|injected| > 0 && f == Shim.InjectedShim)
      || (exists i :: 0 <= i < |injected| && injected[i].file == f)
      || f in resources
  {
    var m := Build(d, hasPopup, hasOption, injected, resources);
    if m.contentScripts.Some? {
      var blocks := m.contentScripts.value;
      var scripted := set i, j | 0 <= i < |blocks| && 0 <= j < |blocks[i].js| :: blocks[i].js[j];
      assert blocks[0].js[0] == Shim.InjectedShim;
      assert Shim.InjectedShim in scripted;
      if exists i :: 0 <= i < |injected| && injected[i].file == f {
        var i :| 0 <= i < |injected| && injected[i].file == f;
        assert blocks[i].js[1] == f;
      }
      if f in scripted {
        var i, j :| 0 <= i < |blocks| && 0 <= j < |blocks[i].js| && blocks[i].js[j] == f;
        assert j == 0 || injected[i].file == f;
      }
    }
  }
}

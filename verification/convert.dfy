/**
 * The whole of `_convert`: the descriptor read from `config.xml`, the pass
 * over the archive, the injected-script shim, and `manifest.json` written
 * last. Every failure of the converter is fatal, so the conversion either
 * yields the finished `.crx` archive or the error that stopped it.
 */
module Conversion {
  import opened Results
  import opened Text
  import opened Archive
  import opened Descriptor
  import opened UserScript
  import opened Shim
  import opened Assembler
  import Manifest

  /** What the conversion produced: the descriptor, what the pass gathered, the manifest and the `.crx` archive. */
  datatype Converted = Converted(descriptor: Descriptor, pass: Pass, manifest: Manifest.Manifest, out: Archive)

  /** `config.xml` read from the archive and parsed into the extension's descriptor. */
  function Describe(env: Env, src: Archive): (r: Result<Descriptor>)
    ensures Read(src, ConfigFile).None? ==> r == Err(MissingConfig)
    ensures Read(src, ConfigFile).Some? && env.parseConfig(Read(src, ConfigFile).value).None? ==> r == Err(MalformedConfig)
    ensures r.Ok? <==>
      && Read(src, ConfigFile).Some?
      && env.parseConfig(Read(src, ConfigFile).value).Some?
      && ParseDescriptor(env.parseConfig(Read(src, ConfigFile).value).value).Ok?
    ensures Read(src, ConfigFile).Some? && env.parseConfig(Read(src, ConfigFile).value).Some? ==>
      r == ParseDescriptor(env.parseConfig(Read(src, ConfigFile).value).value)
  {
    match Read(src, ConfigFile)
    case None => Err(MissingConfig)
    case Some(text) =>
      match env.parseConfig(text)
      case None => Err(MalformedConfig)
      case Some(config) => ParseDescriptor(config)
  }

  /**
   * With injected scripts, the injected-script shim is added after the pass
   * unless the output already holds it; a shim file that cannot be read is
   * fatal.
   */
  function AddInjectedShim(out: Archive, shimFiles: map<string, string>): (r: Result<Archive>)
    ensures r.Ok? <==> Has(out, InjectedShim) || InjectedShim in shimFiles
    ensures r.Err? ==> r.error == ShimUnreadable(InjectedShim)
    ensures r.Ok? ==> Has(r.value, InjectedShim)
    ensures r.Ok? ==> |out| <= |r.value| && r.value[..|out|] == out
    ensures r.Ok? ==> CountName(r.value, InjectedShim) == if Has(out, InjectedShim) then CountName(out, InjectedShim) else 1
    ensures r.Ok? ==> Read(r.value, InjectedShim) == if Has(out, InjectedShim) then Read(out, InjectedShim) else Some(shimFiles[InjectedShim])
  {
    if Has(out, InjectedShim) then Ok(out)
    else if InjectedShim !in shimFiles then Err(ShimUnreadable(InjectedShim))
    else Ok(PutIfAbsent(out, InjectedShim, shimFiles[InjectedShim]))
  }

  /** Adding the injected-script shim touches no other name. */
  lemma AddInjectedShimOthers(out: Archive, shimFiles: map<string, string>, n: string)
    requires AddInjectedShim(out, shimFiles).Ok? && n != InjectedShim
    ensures CountName(AddInjectedShim(out, shimFiles).value, n) == CountName(out, n)
    ensures Read(AddInjectedShim(out, shimFiles).value, n) == Read(out, n)
  {
    if !Has(out, InjectedShim) {
      PutIfAbsentOthers(out, InjectedShim, shimFiles[InjectedShim], n);
    }
  }

  /** The output before the manifest is written: the pass's output, with the injected-script shim when there are injected scripts. */
  function Packaged(env: Env, p: Pass): Result<Archive> {
    if |p.injected| > 0 then AddInjectedShim(p.out, env.shimFiles) else Ok(p.out)
  }

  /**
   * Every manifest piece that Python 2 holds as unicode when it is not ASCII
   * is ASCII. Those are the `version`, content `src` and icon `src` values
   * that `etree` gives, and the injected-script and resource entry names that
   * `zipfile` gives. The name and description are UTF-8 byte strings, and the
   * match lists go through `str()` of a list, which escapes every non-ASCII
   * character.
   */
  predicate ManifestPiecesAscii(d: Descriptor, p: Pass) {
    && Ascii(d.version) && Ascii(d.indexFile)
    && (d.iconFile.Some? ==> Ascii(d.iconFile.value))
    && (forall i :: 0 <= i < |p.injected| ==> Ascii(p.injected[i].file))
    && (forall i :: 0 <= i < |p.resources| ==> Ascii(p.resources[i]))
  }

  /** The same condition in terms of the source archive's entries. */
  predicate SourcePiecesAscii(d: Descriptor, src: Archive) {
    && Ascii(d.version) && Ascii(d.indexFile)
    && (d.iconFile.Some? ==> Ascii(d.iconFile.value))
    && forall i :: 0 <= i < |src| && (RouteOf(src[i].name, d.indexFile) == AsInjected || RouteOf(src[i].name, d.indexFile) == AsResource)
         ==> Ascii(src[i].name)
  }

  /**
   * `_convert`: descriptor, pass, injected-script shim, then the manifest as
   * the last entry. A non-ASCII unicode piece makes the manifest text
   * unicode. Joining it with a non-ASCII name or description raises
   * `UnicodeDecodeError`; otherwise `writestr` raises `UnicodeEncodeError`
   * on the finished text.
   */
  function Convert(env: Env, src: Archive): (r: Result<Converted>)
    ensures r.Ok? ==> |r.value.out| > 0 && r.value.out[|r.value.out| - 1] == Entry(ManifestFile, env.renderManifest(r.value.manifest))
    ensures r.Ok? ==> Describe(env, src) == Ok(r.value.descriptor)
    ensures r.Ok? ==> PassOver(env, src, r.value.descriptor.indexFile, |src|) == Ok(r.value.pass)
    ensures r.Ok? ==> ManifestPiecesAscii(r.value.descriptor, r.value.pass)
  {
    var d :- Describe(env, src);
    var p :- PassOver(env, src, d.indexFile, |src|);
    var out :- Packaged(env, p);
    if !ManifestPiecesAscii(d, p) then
      Err(if Ascii(d.name) && Ascii(d.description) then UnencodableManifest else UndecodableManifest)
    else
      var m := Manifest.Build(d, p.hasPopup, p.hasOption, p.injected, p.resources);
      Ok(Converted(d, p, m, out + [Entry(ManifestFile, env.renderManifest(m))]))
  }

  /**
   * Once the descriptor, the pass and the injected-script shim succeed, a
   * non-ASCII unicode piece stops the run at the manifest: with a decode error
   * when the name or the description is not ASCII, else with an encode error.
   */
  lemma ConvertManifestFails(env: Env, src: Archive)
    requires Describe(env, src).Ok?
    requires var d := Describe(env, src).value;
             && PassOver(env, src, d.indexFile, |src|).Ok?
             && Packaged(env, PassOver(env, src, d.indexFile, |src|).value).Ok?
             && !ManifestPiecesAscii(d, PassOver(env, src, d.indexFile, |src|).value)
    ensures var d := Describe(env, src).value;
            Convert(env, src) == Err(if Ascii(d.name) && Ascii(d.description) then UnencodableManifest else UndecodableManifest)
  {
  }

  /** What the pass reports about names is ASCII exactly when the routed source names are. */
  lemma PiecesAsciiFromSource(env: Env, src: Archive, d: Descriptor)
    requires PassOver(env, src, d.indexFile, |src|).Ok?
    ensures ManifestPiecesAscii(d, PassOver(env, src, d.indexFile, |src|).value) <==> SourcePiecesAscii(d, src)
  {
    var p := PassOver(env, src, d.indexFile, |src|).value;
    var files := Routed(Names(src), d.indexFile, AsInjected);
    assert src[..|src|] == src;
    PassLists(env, src, d.indexFile, |src|);
    if ManifestPiecesAscii(d, p) {
      forall i | 0 <= i < |src| && (RouteOf(src[i].name, d.indexFile) == AsInjected || RouteOf(src[i].name, d.indexFile) == AsResource)
        ensures Ascii(src[i].name)
      {
        var x := src[i].name;
        assert Names(src)[i] == x;
        if RouteOf(x, d.indexFile) == AsInjected {
          RoutedMembers(Names(src), d.indexFile, AsInjected, x);
          var j :| 0 <= j < |files| && files[j] == x;
          assert p.injected[j].file == x;
        } else {
          RoutedMembers(Names(src), d.indexFile, AsResource, x);
          var j :| 0 <= j < |p.resources| && p.resources[j] == x;
        }
      }
    }
    if SourcePiecesAscii(d, src) {
      forall j | 0 <= j < |p.injected|
        ensures Ascii(p.injected[j].file)
      {
        RoutedMembers(Names(src), d.indexFile, AsInjected, files[j]);
        var i :| 0 <= i < |src| && Names(src)[i] == files[j];
      }
      forall j | 0 <= j < |p.resources|
        ensures Ascii(p.resources[j])
      {
        RoutedMembers(Names(src), d.indexFile, AsResource, p.resources[j]);
        var i :| 0 <= i < |src| && Names(src)[i] == p.resources[j];
      }
    }
  }

  // ---------------------------------------------------------------------------
  // The conversion as a whole

  /** A successful conversion, taken apart. */
  lemma ConvertParts(env: Env, src: Archive)
    requires Convert(env, src).Ok?
    ensures var c := Convert(env, src).value;
            && Describe(env, src) == Ok(c.descriptor)
            && PassOver(env, src, c.descriptor.indexFile, |src|) == Ok(c.pass)
            && c.manifest == Manifest.Build(c.descriptor, c.pass.hasPopup, c.pass.hasOption, c.pass.injected, c.pass.resources)
            && Packaged(env, c.pass).Ok?
            && c.out == Packaged(env, c.pass).value + [Entry(ManifestFile, env.renderManifest(c.manifest))]
            && ManifestPiecesAscii(c.descriptor, c.pass)
  {
  }

  /** The names the converter treats specially are distinct and are none of the names it generates. */
  lemma FixedNames(indexFile: string)
    ensures !Generated(ConfigFile) && !Generated(ManifestFile) && !Generated(InjectedShim)
    ensures ConfigFile != ManifestFile && ConfigFile != InjectedShim && ManifestFile != InjectedShim
    ensures RouteOf(ConfigFile, indexFile) == AsIndex || RouteOf(ConfigFile, indexFile) == AsOther
  {
    ReservedNamesAreNotInline(ConfigFile);
    ReservedNamesAreNotInline(InjectedShim);
    assert ManifestFile[0] != InlinePrefix[0];
    assert |InjectedShim| != |BackgroundShim| && |InjectedShim| != |PageShim|;
    assert ManifestFile[0] != InjectedShim[0] && ConfigFile[0] != InjectedShim[0];
    assert ConfigFile in NotResources;
  }

  /** The pass found injected scripts exactly when some entry is routed to the injected-script branch. */
  lemma PassFindsInjected(env: Env, src: Archive, indexFile: string)
    requires PassOver(env, src, indexFile, |src|).Ok?
    ensures |PassOver(env, src, indexFile, |src|).value.injected| > 0 <==>
      exists i :: 0 <= i < |src| && RouteOf(src[i].name, indexFile) == AsInjected
  {
    assert src[..|src|] == src;
    var files := Routed(Names(src), indexFile, AsInjected);
    PassLists(env, src, indexFile, |src|);
    if exists i :: 0 <= i < |src| && RouteOf(src[i].name, indexFile) == AsInjected {
      var i :| 0 <= i < |src| && RouteOf(src[i].name, indexFile) == AsInjected;
      assert Names(src)[i] == src[i].name;
      RoutedMembers(Names(src), indexFile, AsInjected, src[i].name);
    }
    if |files| > 0 {
      RoutedMembers(Names(src), indexFile, AsInjected, files[0]);
      var i :| 0 <= i < |src| && Names(src)[i] == files[0];
      assert RouteOf(src[i].name, indexFile) == AsInjected;
    }
  }

  /**
   * The conversion succeeds exactly when `config.xml` is there, parses and
   * describes the extension, every entry can be handled, if some entry is an
   * injected script the injected-script shim is in the archive or at hand,
   * and every manifest piece that would be unicode is ASCII.
   */
  lemma ConvertSucceeds(env: Env, src: Archive)
    ensures Convert(env, src).Ok? <==>
      && Describe(env, src).Ok?
      && var indexFile := Describe(env, src).value.indexFile;
         && (forall i :: 0 <= i < |src| ==> StepOk(env, indexFile, src[i].name, DataOf(src, i)))
         && ((exists i :: 0 <= i < |src| && RouteOf(src[i].name, indexFile) == AsInjected) ==>
               Has(src, InjectedShim) || InjectedShim in env.shimFiles)
         && SourcePiecesAscii(Describe(env, src).value, src)
  {
    if Describe(env, src).Ok? {
      var indexFile := Describe(env, src).value.indexFile;
      PassSucceeds(env, src, indexFile, |src|);
      if PassOver(env, src, indexFile, |src|).Ok? {
        PiecesAsciiFromSource(env, src, Describe(env, src).value);
        PassFindsInjected(env, src, indexFile);
        FixedNames(indexFile);
        PassCounts(env, src, indexFile, |src|, InjectedShim);
        assert src[..|src|] == src;
      }
    }
  }

  /**
   * `config.xml` is never written; every other name the converter does not
   * write on its own account is written as often as the source holds it;
   * `manifest.json` is written once more, last, so that reading it gives
   * the generated manifest.
   */
  lemma ConvertCounts(env: Env, src: Archive, x: string)
    requires Convert(env, src).Ok?
    requires !Generated(x) && x != InjectedShim
    ensures var c := Convert(env, src).value;
            && (x != ManifestFile ==> CountName(c.out, x) == if x == ConfigFile then 0 else CountName(src, x))
            && (x == ManifestFile ==> CountName(c.out, x) == CountName(src, x) + 1)
            && Read(c.out, ManifestFile) == Some(env.renderManifest(c.manifest))
  {
    ConvertParts(env, src);
    var c := Convert(env, src).value;
    var before := Packaged(env, c.pass).value;
    assert src[..|src|] == src;
    FixedNames(c.descriptor.indexFile);
    PassCounts(env, src, c.descriptor.indexFile, |src|, x);
    if |c.pass.injected| > 0 {
      AddInjectedShimOthers(c.pass.out, env.shimFiles, x);
    }
    CountAppend(before, Entry(ManifestFile, env.renderManifest(c.manifest)), x);
    ReadAppend(before, Entry(ManifestFile, env.renderManifest(c.manifest)), ManifestFile);
  }

  /** A shim the source archive does not hold is in the `.crx` archive at most once. */
  lemma ConvertShimOnce(env: Env, src: Archive, s: string)
    requires Convert(env, src).Ok?
    requires IsShimPath(s) && !Has(src, s)
    ensures CountName(Convert(env, src).value.out, s) <= 1
  {
    ConvertParts(env, src);
    var c := Convert(env, src).value;
    var before := Packaged(env, c.pass).value;
    assert src[..|src|] == src;
    FixedNames(c.descriptor.indexFile);
    NamesHas(src, s);
    CountAppend(before, Entry(ManifestFile, env.renderManifest(c.manifest)), s);
    if s == InjectedShim {
      PassCounts(env, src, c.descriptor.indexFile, |src|, s);
    } else {
      PassShimOnce(env, src, c.descriptor.indexFile, |src|, s);
      if |c.pass.injected| > 0 {
        AddInjectedShimOthers(c.pass.out, env.shimFiles, s);
      }
    }
  }

  /**
   * The manifest in terms of the source archive: the popup and options keys
   * appear exactly when those documents are entries (and are not the index
   * document), `content_scripts` exactly when some entry is an injected
   * script, and the web-accessible resources are the entries routed to
   * that branch, in archive order.
   */
  lemma ConvertManifest(env: Env, src: Archive)
    requires Convert(env, src).Ok?
    ensures var c := Convert(env, src).value;
            var m := c.manifest;
            var d := c.descriptor;
            var resources := Routed(Names(src), d.indexFile, AsResource);
            && m.name == d.name && m.description == d.description && m.version == d.version
            && m.backgroundPage == d.indexFile && m.icon128 == d.iconFile
            && (m.defaultPopup.Some? <==> d.indexFile != Manifest.PopupPage && Has(src, Manifest.PopupPage))
            && (m.optionsPage.Some? <==> d.indexFile != Manifest.OptionsPage && Has(src, Manifest.OptionsPage))
            && (m.contentScripts.Some? <==> exists i :: 0 <= i < |src| && RouteOf(src[i].name, d.indexFile) == AsInjected)
            && (m.webAccessibleResources.Some? <==> |resources| > 0)
            && (m.webAccessibleResources.Some? ==> m.webAccessibleResources.value == resources)
  {
    ConvertParts(env, src);
    var c := Convert(env, src).value;
    assert src[..|src|] == src;
    PassFlags(env, src, c.descriptor.indexFile, |src|);
    PassLists(env, src, c.descriptor.indexFile, |src|);
    PassFindsInjected(env, src, c.descriptor.indexFile);
    NamesHas(src, Manifest.PopupPage);
    NamesHas(src, Manifest.OptionsPage);
  }

  /**
   * Content-script entry `j` belongs to the `j`-th entry routed to the
   * injected-script branch: the shim and that script, with the match rules
   * read from the header of the script's data.
   */
  lemma ConvertContentScripts(env: Env, src: Archive, j: nat)
    requires Convert(env, src).Ok?
    requires j < |Routed(Names(src), Convert(env, src).value.descriptor.indexFile, AsInjected)|
    ensures var c := Convert(env, src).value;
            var file := Routed(Names(src), c.descriptor.indexFile, AsInjected)[j];
            && c.manifest.contentScripts.Some? && j < |c.manifest.contentScripts.value|
            && Read(src, file).Some?
            && var rule := FileRule(file, Read(src, file).value);
               c.manifest.contentScripts.value[j] ==
                 Manifest.ContentScript([InjectedShim, file], rule.includes, rule.excludes, Manifest.RunAt, true)
  {
    ConvertParts(env, src);
    var c := Convert(env, src).value;
    assert src[..|src|] == src;
    PassLists(env, src, c.descriptor.indexFile, |src|);
  }

  /**
   * Whatever the pass reports (the popup and options documents it converted,
   * the injected scripts it found, the resources it listed) was written to
   * its archive.
   */
  lemma PassWritesReported(env: Env, src: Archive, indexFile: string, f: string)
    requires PassOver(env, src, indexFile, |src|).Ok?
    requires var p := PassOver(env, src, indexFile, |src|).value;
             || (p.hasPopup && f == Manifest.PopupPage)
             || (p.hasOption && f == Manifest.OptionsPage)
             || (exists i :: 0 <= i < |p.injected| && p.injected[i].file == f)
             || f in p.resources
    ensures Has(PassOver(env, src, indexFile, |src|).value.out, f)
  {
    var p := PassOver(env, src, indexFile, |src|).value;
    assert src[..|src|] == src;
    FixedNames(indexFile);
    if exists i :: 0 <= i < |p.injected| && p.injected[i].file == f {
      var i :| 0 <= i < |p.injected| && p.injected[i].file == f;
      PassLists(env, src, indexFile, |src|);
      var files := Routed(Names(src), indexFile, AsInjected);
      RoutedMembers(Names(src), indexFile, AsInjected, files[i]);
    } else if f in p.resources {
      PassLists(env, src, indexFile, |src|);
      RoutedMembers(Names(src), indexFile, AsResource, f);
    } else {
      PassFlags(env, src, indexFile, |src|);
    }
    NamesHas(src, f);
    PassWrites(env, src, indexFile, |src|, f);
  }

  /**
   * Every file the manifest refers to, other than the background page and
   * the icon, is in the `.crx` archive: the popup and options documents, the
   * injected-script shim, the injected scripts and the resources.
   */
  lemma ConvertPackagesReferences(env: Env, src: Archive, f: string)
    requires Convert(env, src).Ok?
    requires var m := Convert(env, src).value.manifest;
             f in Manifest.Referenced(m) && f != m.backgroundPage && m.icon128 != Some(f)
    ensures Has(Convert(env, src).value.out, f)
  {
    ConvertParts(env, src);
    var c := Convert(env, src).value;
    var d := c.descriptor;
    var p := c.pass;
    var before := Packaged(env, p).value;
    Manifest.BuiltReferences(d, p.hasPopup, p.hasOption, p.injected, p.resources, f);
    if f != InjectedShim || |p.injected| == 0 {
      PassWritesReported(env, src, d.indexFile, f);
      if |p.injected| > 0 {
        HasExtend(p.out, before, f);
      }
    }
    HasExtend(before, c.out, f);
  }

  /**
   * An entry that is not a page, and whose name the converter does not write
   * on its own account, is copied: reading it from the `.crx` archive gives
   * the source's data for it, scope-fixed and wrapped if it is a plain
   * script.
   */
  lemma ConvertCopies(env: Env, src: Archive, x: string)
    requires Convert(env, src).Ok?
    requires Has(src, x) && x != ConfigFile && x != ManifestFile && !Generated(x)
    requires PageKind(RouteOf(x, Convert(env, src).value.descriptor.indexFile)).None?
    ensures Read(src, x).Some?
    ensures var c := Convert(env, src).value;
            Read(c.out, x) == Some(Written(env, RouteOf(x, c.descriptor.indexFile), Read(src, x).value))
  {
    ConvertParts(env, src);
    var c := Convert(env, src).value;
    var before := Packaged(env, c.pass).value;
    assert src[..|src|] == src;
    PassCopies(env, src, c.descriptor.indexFile, |src|, x);
    if |c.pass.injected| > 0 && x != InjectedShim {
      AddInjectedShimOthers(c.pass.out, env.shimFiles, x);
    }
    ReadAppend(before, Entry(ManifestFile, env.renderManifest(c.manifest)), x);
  }
}

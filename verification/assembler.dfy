/**
 * `_convert`: one pass over the entries of the `.oex` archive that routes
 * each entry by its name, writes it (converted where needed) to the `.crx`
 * archive, and collects what the manifest needs. The injected-script shim
 * and the manifest, written after the pass, are in `Conversion`.
 *
 * What the converter hands to libraries is a parameter here: the XML parser
 * that reads `config.xml`, the HTML parser and serialiser, the variable-scope
 * fixer for scripts, the JSON text of the manifest, and the local shim files.
 */
module Assembler {
  import opened Results
  import opened Text
  import opened Archive
  import opened Descriptor
  import opened UserScript
  import opened Shim
  import Manifest

  const ConfigFile := "config.xml"
  const ManifestFile := "manifest.json"
  const IncludesDir := "includes/"
  const ScriptSuffix := ".js"

  /** The names that never become web-accessible resources, whatever the index document is called. */
  const NotResources: seq<string> := [ConfigFile, DefaultIndex, Manifest.PopupPage, Manifest.OptionsPage]

  /** The converter's collaborators. */
  datatype Env = Env(
    parseConfig: string -> Option<Config>,
    parseHtml: string -> Doc,
    renderHtml: Doc -> string,
    updateScopes: string -> string,
    renderManifest: Manifest.Manifest -> string,
    shimFiles: map<string, string>)

  /** Which branch of the pass handles an entry. */
  datatype Route = AsIndex | AsPopup | AsOptions | AsInjected | AsScript | AsResource | AsOther

  /**
   * The branch for an entry name, given the index document's name: the
   * first test that matches wins, in the converter's order.
   */
  function RouteOf(name: string, indexFile: string): Route {
    if name == indexFile then AsIndex
    else if name == Manifest.PopupPage then AsPopup
    else if name == Manifest.OptionsPage then AsOptions
    else if StartsWith(name, IncludesDir) && EndsWith(name, ScriptSuffix) then AsInjected
    else if EndsWith(name, ScriptSuffix) then AsScript
    else if name !in NotResources then AsResource
    else AsOther
  }

  /**
   * Each branch described on its own rather than by the order of the tests:
   * what a name must be, and must not be, to reach it.
   */
  lemma RouteCharacterised(name: string, indexFile: string)
    ensures RouteOf(name, indexFile) == AsIndex <==> name == indexFile
    ensures RouteOf(name, indexFile) == AsPopup <==> name == Manifest.PopupPage && indexFile != Manifest.PopupPage
    ensures RouteOf(name, indexFile) == AsOptions <==> name == Manifest.OptionsPage && indexFile != Manifest.OptionsPage
    ensures RouteOf(name, indexFile) == AsInjected <==>
      name != indexFile && StartsWith(name, IncludesDir) && EndsWith(name, ScriptSuffix)
    ensures RouteOf(name, indexFile) == AsScript <==>
      name != indexFile && !StartsWith(name, IncludesDir) && EndsWith(name, ScriptSuffix)
    ensures RouteOf(name, indexFile) == AsResource <==>
      name != indexFile && !EndsWith(name, ScriptSuffix) && name !in NotResources
  {
    assert !EndsWith(Manifest.PopupPage, ScriptSuffix);
    assert !EndsWith(Manifest.OptionsPage, ScriptSuffix);
  }

  /** What the pass has gathered so far. */
  datatype Pass = Pass(
    out: Archive,
    hasPopup: bool,
    hasOption: bool,
    injected: seq<InjectedScript>,
    resources: seq<string>)

  const Start := Pass([], false, false, [], [])

  const ReadyOpen := "opera.isReady(function ()\n{\n"
  const ReadyClose := "\n});\n"

  /** A script wrapped so that it runs once the Opera API shim is ready. */
  function ReadyWrap(code: string): (w: string)
    ensures StartsWith(w, ReadyOpen) && EndsWith(w, ReadyClose)
    ensures |w| == |ReadyOpen| + |code| + |ReadyClose|
  {
    ReadyOpen + code + ReadyClose
  }

  /** The wrapped script determines the script: what lies between the two fixed parts is the code. */
  lemma ReadyUnwrap(code: string)
    ensures var w := ReadyWrap(code); w[|ReadyOpen|..|w| - |ReadyClose|] == code
  {
  }

  /** The write at the end of every iteration: every name but `config.xml` is written. */
  function Emit(out: Archive, name: string, data: string): Archive {
    if name == ConfigFile then out else out + [Entry(name, data)]
  }

  /** The page a route converts, if it is one of the three documents. */
  function PageKind(r: Route): Option<DocKind> {
    match r
    case AsIndex => Some(IndexDoc)
    case AsPopup => Some(PopupDoc)
    case AsOptions => Some(OptionDoc)
    case _ => None
  }

  /** `_shim_wrap` of a page entry, then the write of the rewritten page. */
  function ConvertPage(env: Env, st: Pass, name: string, data: string, k: DocKind): Result<Pass> {
    var w :- ShimWrap(env.parseHtml(data), k, st.out, env.shimFiles);
    Ok(st.(out := Emit(w.out, name, env.renderHtml(w.doc))))
  }

  /** What is written for a copied entry: a plain script is scope-fixed and wrapped, anything else is kept as it is. */
  function Written(env: Env, r: Route, data: string): string {
    if r == AsScript then ReadyWrap(env.updateScopes(data)) else data
  }

  /** The branches for entries that are not pages: write the entry and note injected scripts and resources. */
  function Copy(env: Env, st: Pass, r: Route, name: string, data: string): Pass {
    st.(out := Emit(st.out, name, Written(env, r, data)),
        injected := st.injected + (if r == AsInjected then [FileRule(name, data)] else []),
        resources := st.resources + (if r == AsResource then [name] else []))
  }

  /** One iteration of the pass, for an entry `name` whose data is `data`. */
  function Step(env: Env, indexFile: string, st: Pass, name: string, data: string): Result<Pass> {
    var r := RouteOf(name, indexFile);
    match PageKind(r)
    case Some(k) =>
      ConvertPage(env, st.(hasPopup := st.hasPopup || r == AsPopup, hasOption := st.hasOption || r == AsOptions), name, data, k)
    case None =>
      if r == AsScript && !Ascii(data) then Err(UndecodableScript(name))
      else Ok(Copy(env, st, r, name, data))
  }

  /** `oex.read(name)` for the name of entry `i`: the data of the last entry of that name. */
  function DataOf(src: Archive, i: nat): (d: string)
    requires i < |src|
    ensures Read(src, src[i].name) == Some(d)
  {
    assert Has(src, src[i].name) by {
      assert 0 <= i < |src| && src[i].name == src[i].name;
    }
    Read(src, src[i].name).value
  }

  /** The pass over the first `n` entries of `src`, in archive order. */
  function PassOver(env: Env, src: Archive, indexFile: string, n: nat): Result<Pass>
    requires n <= |src|
    decreases n, 2
  {
    if n == 0 then Ok(Start) else PassUpTo(env, src, indexFile, n)
  }

  /**
   * The pass over a non-empty prefix. It only hands over to `PassThrough`;
   * the extra layer keeps every unfolding of the pass in a proof to the
   * entries it is about.
   */
  function PassUpTo(env: Env, src: Archive, indexFile: string, n: nat): Result<Pass>
    requires 0 < n <= |src|
    decreases n, 1
  {
    PassThrough(env, src, indexFile, n)
  }

  /** The pass over the first `n - 1` entries, then the step for entry `n - 1`. */
  function PassThrough(env: Env, src: Archive, indexFile: string, n: nat): Result<Pass>
    requires 0 < n <= |src|
    decreases n, 0
  {
    var st :- PassOver(env, src, indexFile, n - 1);
    Step(env, indexFile, st, src[n - 1].name, DataOf(src, n - 1))
  }

  // ---------------------------------------------------------------------------
  // One step

  /**
   * An entry can be handled: a page when none of the script elements of the
   * parsed page fails and the kind's shim file is at hand; a plain script
   * when it is ASCII, so that `str.encode(data, 'utf-8')` can decode it
   * first; anything else always.
   */
  predicate StepOk(env: Env, indexFile: string, name: string, data: string) {
    var r := RouteOf(name, indexFile);
    match PageKind(r)
    case None => r == AsScript ==> Ascii(data)
    case Some(k) =>
      var doc := env.parseHtml(data);
      && (forall i :: 0 <= i < |doc.scripts| ==> !Fails(doc.scripts[i]))
      && ShimFor(k) in env.shimFiles
  }

  /** A name the pass may write on its own account: an externalised inline script or a page shim. */
  predicate Generated(p: string) {
    StartsWith(p, InlinePrefix) || p == BackgroundShim || p == PageShim
  }

  /** A step fails exactly on a page that cannot be converted or a plain script that is not ASCII. */
  lemma StepSucceeds(env: Env, indexFile: string, st: Pass, name: string, data: string)
    ensures Step(env, indexFile, st, name, data).Ok? <==> StepOk(env, indexFile, name, data)
  {
  }

  /** What a step adds to the flags, the injected scripts and the resources. */
  lemma StepGathers(env: Env, indexFile: string, st: Pass, name: string, data: string)
    requires Step(env, indexFile, st, name, data).Ok?
    ensures var r := RouteOf(name, indexFile);
            var st' := Step(env, indexFile, st, name, data).value;
            && st'.hasPopup == (st.hasPopup || r == AsPopup)
            && st'.hasOption == (st.hasOption || r == AsOptions)
            && st'.injected == st.injected + (if r == AsInjected then [FileRule(name, data)] else [])
            && st'.resources == st.resources + (if r == AsResource then [name] else [])
  {
  }

  /** The write adds one entry under `name`, unless that is `config.xml`, and keeps what was there. */
  lemma EmitOut(out: Archive, name: string, data: string, p: string)
    ensures |out| <= |Emit(out, name, data)| && Emit(out, name, data)[..|out|] == out
    ensures CountName(Emit(out, name, data), p) == CountName(out, p) + (if p == name && name != ConfigFile then 1 else 0)
  {
    if name != ConfigFile {
      CountAppend(out, Entry(name, data), p);
      assert (out + [Entry(name, data)])[..|out|] == out;
    }
  }

  /**
   * Converting a page keeps what was written before and writes, besides
   * externalised inline scripts, the page itself and its kind's shim unless
   * that shim is already there; no other shim is touched.
   */
  lemma PageOut(env: Env, st: Pass, name: string, data: string, k: DocKind, p: string)
    requires ConvertPage(env, st, name, data, k).Ok?
    ensures var st' := ConvertPage(env, st, name, data, k).value;
            && st'.(out := st.out) == st
            && |st.out| <= |st'.out| && st'.out[..|st.out|] == st.out
            && Has(st'.out, ShimFor(k))
            && (name != ConfigFile ==> Has(st'.out, name))
            && (!Generated(p) ==> CountName(st'.out, p) == CountName(st.out, p) + (if p == name && name != ConfigFile then 1 else 0))
            && (IsShimPath(p) && p != name ==>
                  CountName(st'.out, p) == if p == ShimFor(k) && !Has(st.out, p) then 1 else CountName(st.out, p))
  {
    var w := ShimWrap(env.parseHtml(data), k, st.out, env.shimFiles).value;
    var html := env.renderHtml(w.doc);
    EmitOut(w.out, name, html, p);
    EmitOut(w.out, name, html, ShimFor(k));
    EmitOut(w.out, name, html, name);
    assert Emit(w.out, name, html)[..|st.out|] == w.out[..|st.out|];
    if IsShimPath(p) {
      ReservedNamesAreNotInline(p);
    }
    if !StartsWith(p, InlinePrefix) && p != ShimFor(k) {
      ShimWrapCounts(env.parseHtml(data), k, st.out, env.shimFiles, p);
    }
  }

  /**
   * A step only appends to the output, and of the names the converter does
   * not generate itself it writes just the entry's own, unless that is
   * `config.xml`; a converted page leaves its kind's shim in the output.
   */
  lemma StepOut(env: Env, indexFile: string, st: Pass, name: string, data: string, p: string)
    requires Step(env, indexFile, st, name, data).Ok?
    ensures var out := Step(env, indexFile, st, name, data).value.out;
            && |st.out| <= |out| && out[..|st.out|] == st.out
            && (!Generated(p) ==> CountName(out, p) == CountName(st.out, p) + (if p == name && name != ConfigFile then 1 else 0))
            && (PageKind(RouteOf(name, indexFile)).Some? ==> Has(out, ShimFor(PageKind(RouteOf(name, indexFile)).value)))
            && (name != ConfigFile ==> Has(out, name))
  {
    var r := RouteOf(name, indexFile);
    var st1 := st.(hasPopup := st.hasPopup || r == AsPopup, hasOption := st.hasOption || r == AsOptions);
    match PageKind(r)
    case Some(k) => PageOut(env, st1, name, data, k, p);
    case None =>
      EmitOut(st.out, name, Written(env, r, data), p);
      EmitOut(st.out, name, Written(env, r, data), name);
  }

  /**
   * A step that is not itself the entry of shim path `s` leaves at most one
   * entry named `s` where there was none and leaves the count alone
   * otherwise.
   */
  lemma StepShim(env: Env, indexFile: string, st: Pass, name: string, data: string, s: string)
    requires Step(env, indexFile, st, name, data).Ok?
    requires IsShimPath(s) && name != s
    ensures var out := Step(env, indexFile, st, name, data).value.out;
            && (Has(st.out, s) ==> CountName(out, s) == CountName(st.out, s))
            && CountName(out, s) <= (if Has(st.out, s) then CountName(st.out, s) else 1)
  {
    var r := RouteOf(name, indexFile);
    var st1 := st.(hasPopup := st.hasPopup || r == AsPopup, hasOption := st.hasOption || r == AsOptions);
    match PageKind(r)
    case Some(k) => PageOut(env, st1, name, data, k, s);
    case None => EmitOut(st.out, name, Written(env, r, data), s);
  }

  // ---------------------------------------------------------------------------
  // The pass

  /** The names among `names` that the pass routes to `r`, in their order. */
  function Routed(names: seq<string>, indexFile: string, r: Route): (kept: seq<string>)
    ensures |kept| <= |names|
  {
    if |names| == 0 then []
    else
      var front := names[..|names| - 1];
      var last := names[|names| - 1];
      Routed(front, indexFile, r) + (if RouteOf(last, indexFile) == r then [last] else [])
  }

  /** A name is kept exactly when it is among the names and is routed to `r`. */
  lemma {:induction false} RoutedMembers(names: seq<string>, indexFile: string, r: Route, x: string)
    ensures x in Routed(names, indexFile, r) <==> x in names && RouteOf(x, indexFile) == r
    decreases |names|
  {
    if |names| > 0 {
      var front := names[..|names| - 1];
      var last := names[|names| - 1];
      RoutedMembers(front, indexFile, r, x);
      assert names == front + [last];
    }
  }

  /** Filtering a list with one more name at its end. */
  lemma RoutedAppend(names: seq<string>, x: string, indexFile: string, r: Route)
    ensures Routed(names + [x], indexFile, r) == Routed(names, indexFile, r) + (if RouteOf(x, indexFile) == r then [x] else [])
  {
    assert (names + [x])[..|names|] == names;
  }

  /** The names and counts of a longer prefix of the archive. */
  lemma PrefixStep(src: Archive, n: nat, p: string)
    requires 0 < n <= |src|
    ensures Names(src[..n]) == Names(src[..n - 1]) + [src[n - 1].name]
    ensures CountName(src[..n], p) == CountName(src[..n - 1], p) + (if src[n - 1].name == p then 1 else 0)
  {
    assert src[..n][..n - 1] == src[..n - 1];
  }

  /** The pass over `n` entries is the pass over `n - 1` followed by one step. */
  lemma PassUnfold(env: Env, src: Archive, indexFile: string, n: nat)
    requires 0 < n <= |src|
    ensures PassOver(env, src, indexFile, n).Ok? ==> PassOver(env, src, indexFile, n - 1).Ok?
    ensures PassOver(env, src, indexFile, n - 1).Ok? ==>
      PassOver(env, src, indexFile, n) == Step(env, indexFile, PassOver(env, src, indexFile, n - 1).value, src[n - 1].name, DataOf(src, n - 1))
  {
    assert PassOver(env, src, indexFile, n) == PassUpTo(env, src, indexFile, n) == PassThrough(env, src, indexFile, n);
  }

  /** One more entry: the pass still succeeds exactly when that entry can be handled: a page converted, a plain script decoded. */
  lemma PassStepOk(env: Env, src: Archive, indexFile: string, n: nat)
    requires 0 < n <= |src|
    ensures PassOver(env, src, indexFile, n).Ok? <==>
      PassOver(env, src, indexFile, n - 1).Ok? && StepOk(env, indexFile, src[n - 1].name, DataOf(src, n - 1))
  {
    PassUnfold(env, src, indexFile, n);
    if PassOver(env, src, indexFile, n - 1).Ok? {
      StepSucceeds(env, indexFile, PassOver(env, src, indexFile, n - 1).value, src[n - 1].name, DataOf(src, n - 1));
    }
  }

  /** One more entry: what it adds to the flags and lists. */
  lemma PassStepGathers(env: Env, src: Archive, indexFile: string, n: nat)
    requires 0 < n <= |src| && PassOver(env, src, indexFile, n).Ok?
    ensures PassOver(env, src, indexFile, n - 1).Ok?
    ensures var st := PassOver(env, src, indexFile, n - 1).value;
            var st' := PassOver(env, src, indexFile, n).value;
            var name := src[n - 1].name;
            var r := RouteOf(name, indexFile);
            && st'.hasPopup == (st.hasPopup || r == AsPopup)
            && st'.hasOption == (st.hasOption || r == AsOptions)
            && st'.injected == st.injected + (if r == AsInjected then [FileRule(name, DataOf(src, n - 1))] else [])
            && st'.resources == st.resources + (if r == AsResource then [name] else [])
  {
    PassUnfold(env, src, indexFile, n);
    StepGathers(env, indexFile, PassOver(env, src, indexFile, n - 1).value, src[n - 1].name, DataOf(src, n - 1));
  }

  /** One more entry: the output only grows, by the entry itself among the names the pass does not generate. */
  lemma PassStepCount(env: Env, src: Archive, indexFile: string, n: nat, p: string)
    requires 0 < n <= |src| && PassOver(env, src, indexFile, n).Ok?
    ensures PassOver(env, src, indexFile, n - 1).Ok?
    ensures var out := PassOver(env, src, indexFile, n - 1).value.out;
            var out' := PassOver(env, src, indexFile, n).value.out;
            && |out| <= |out'| && out'[..|out|] == out
            && (!Generated(p) ==> CountName(out', p) == CountName(out, p) + (if p == src[n - 1].name && p != ConfigFile then 1 else 0))
  {
    PassUnfold(env, src, indexFile, n);
    StepOut(env, indexFile, PassOver(env, src, indexFile, n - 1).value, src[n - 1].name, DataOf(src, n - 1), p);
  }

  /** One more entry: a page leaves its kind's shim in the output. */
  lemma PassStepShimKept(env: Env, src: Archive, indexFile: string, n: nat)
    requires 0 < n <= |src| && PassOver(env, src, indexFile, n).Ok?
    requires PageKind(RouteOf(src[n - 1].name, indexFile)).Some?
    ensures Has(PassOver(env, src, indexFile, n).value.out, ShimFor(PageKind(RouteOf(src[n - 1].name, indexFile)).value))
  {
    PassUnfold(env, src, indexFile, n);
    StepOut(env, indexFile, PassOver(env, src, indexFile, n - 1).value, src[n - 1].name, DataOf(src, n - 1), "");
  }

  /**
   * One more entry `x` that is not a page nor `config.xml`: reading `x` from
   * the output now gives the source's data for it, written as its route asks.
   */
  lemma PassStepCopy(env: Env, src: Archive, indexFile: string, n: nat, x: string)
    requires 0 < n <= |src| && PassOver(env, src, indexFile, n).Ok?
    requires src[n - 1].name == x && x != ConfigFile && PageKind(RouteOf(x, indexFile)).None?
    ensures Read(src, x).Some?
    ensures Read(PassOver(env, src, indexFile, n).value.out, x) == Some(Written(env, RouteOf(x, indexFile), Read(src, x).value))
  {
    PassUnfold(env, src, indexFile, n);
    var data := DataOf(src, n - 1);
    ReadAppend(PassOver(env, src, indexFile, n - 1).value.out, Entry(x, Written(env, RouteOf(x, indexFile), data)), x);
  }

  /** One more entry under another name leaves what reading `x` gives unchanged, for a name the pass does not generate. */
  lemma PassStepKeepsRead(env: Env, src: Archive, indexFile: string, n: nat, x: string)
    requires 0 < n <= |src| && PassOver(env, src, indexFile, n).Ok?
    requires src[n - 1].name != x && !Generated(x)
    ensures PassOver(env, src, indexFile, n - 1).Ok?
    ensures Read(PassOver(env, src, indexFile, n).value.out, x) == Read(PassOver(env, src, indexFile, n - 1).value.out, x)
  {
    PassStepCount(env, src, indexFile, n, x);
    ReadExtend(PassOver(env, src, indexFile, n - 1).value.out, PassOver(env, src, indexFile, n).value.out, x);
  }

  /** One more entry, unless it is `config.xml`, is written under its own name. */
  lemma PassStepWrites(env: Env, src: Archive, indexFile: string, n: nat)
    requires 0 < n <= |src| && PassOver(env, src, indexFile, n).Ok?
    requires src[n - 1].name != ConfigFile
    ensures Has(PassOver(env, src, indexFile, n).value.out, src[n - 1].name)
  {
    PassUnfold(env, src, indexFile, n);
    StepOut(env, indexFile, PassOver(env, src, indexFile, n - 1).value, src[n - 1].name, DataOf(src, n - 1), "");
  }

  /** One more entry, other than shim path `s` itself: `s` is written at most once where it was absent. */
  lemma PassStepShim(env: Env, src: Archive, indexFile: string, n: nat, s: string)
    requires 0 < n <= |src| && PassOver(env, src, indexFile, n).Ok?
    requires IsShimPath(s) && src[n - 1].name != s
    ensures PassOver(env, src, indexFile, n - 1).Ok?
    ensures var out := PassOver(env, src, indexFile, n - 1).value.out;
            var out' := PassOver(env, src, indexFile, n).value.out;
            CountName(out', s) <= if Has(out, s) then CountName(out, s) else 1
  {
    PassUnfold(env, src, indexFile, n);
    StepShim(env, indexFile, PassOver(env, src, indexFile, n - 1).value, src[n - 1].name, DataOf(src, n - 1), s);
  }

  /** The pass stops exactly when it reaches a page that cannot be converted or a plain script that is not ASCII. */
  lemma {:induction false} PassSucceeds(env: Env, src: Archive, indexFile: string, n: nat)
    requires n <= |src|
    ensures PassOver(env, src, indexFile, n).Ok? <==>
      forall i :: 0 <= i < n ==> StepOk(env, indexFile, src[i].name, DataOf(src, i))
    decreases n
  {
    if n > 0 {
      PassSucceeds(env, src, indexFile, n - 1);
      PassStepOk(env, src, indexFile, n);
    }
  }

  /**
   * The popup flag is set exactly when an entry `popup.html` was seen that is
   * not the index document, and the options flag likewise for `options.html`.
   */
  lemma {:induction false} PassFlags(env: Env, src: Archive, indexFile: string, n: nat)
    requires n <= |src| && PassOver(env, src, indexFile, n).Ok?
    ensures var st := PassOver(env, src, indexFile, n).value;
            && (st.hasPopup <==> indexFile != Manifest.PopupPage && Manifest.PopupPage in Names(src[..n]))
            && (st.hasOption <==> indexFile != Manifest.OptionsPage && Manifest.OptionsPage in Names(src[..n]))
    decreases n
  {
    if n > 0 {
      PassStepGathers(env, src, indexFile, n);
      PassFlags(env, src, indexFile, n - 1);
      RouteCharacterised(src[n - 1].name, indexFile);
      PrefixStep(src, n, src[n - 1].name);
    }
  }

  /**
   * The resources are the names routed to the resource branch and the
   * injected scripts are the rules of the names routed to the injected
   * branch, both in archive order, duplicates included.
   */
  lemma {:induction false} PassLists(env: Env, src: Archive, indexFile: string, n: nat)
    requires n <= |src| && PassOver(env, src, indexFile, n).Ok?
    ensures var st := PassOver(env, src, indexFile, n).value;
            var files := Routed(Names(src[..n]), indexFile, AsInjected);
            && st.resources == Routed(Names(src[..n]), indexFile, AsResource)
            && |st.injected| == |files|
            && forall j :: 0 <= j < |files| ==>
                 Read(src, files[j]).Some? && st.injected[j] == FileRule(files[j], Read(src, files[j]).value)
    decreases n
  {
    if n > 0 {
      var name := src[n - 1].name;
      var names := Names(src[..n - 1]);
      PassStepGathers(env, src, indexFile, n);
      PassLists(env, src, indexFile, n - 1);
      PrefixStep(src, n, name);
      RoutedAppend(names, name, indexFile, AsResource);
      RoutedAppend(names, name, indexFile, AsInjected);
      var before := PassOver(env, src, indexFile, n - 1).value.injected;
      var after := PassOver(env, src, indexFile, n).value.injected;
      var files := Routed(names + [name], indexFile, AsInjected);
      var earlier := Routed(names, indexFile, AsInjected);
      if RouteOf(name, indexFile) == AsInjected {
        forall j | 0 <= j < |files|
          ensures Read(src, files[j]).Some? && after[j] == FileRule(files[j], Read(src, files[j]).value)
        {
          if j < |earlier| {
            assert files[j] == earlier[j] && after[j] == before[j];
          }
        }
      }
    }
  }

  /**
   * Every name the pass does not generate itself is written as often as the
   * source archive holds it, except `config.xml`, which is never written.
   */
  lemma {:induction false} PassCounts(env: Env, src: Archive, indexFile: string, n: nat, p: string)
    requires n <= |src| && PassOver(env, src, indexFile, n).Ok?
    requires !Generated(p)
    ensures CountName(PassOver(env, src, indexFile, n).value.out, p) == if p == ConfigFile then 0 else CountName(src[..n], p)
    decreases n
  {
    if n > 0 {
      PassStepCount(env, src, indexFile, n, p);
      PassCounts(env, src, indexFile, n - 1, p);
      PrefixStep(src, n, p);
    }
  }

  /**
   * A shim path the source archive does not hold ends up in the output at
   * most once, however many pages need it.
   */
  lemma {:induction false} PassShimOnce(env: Env, src: Archive, indexFile: string, n: nat, s: string)
    requires n <= |src| && PassOver(env, src, indexFile, n).Ok?
    requires IsShimPath(s) && s !in Names(src[..n])
    ensures CountName(PassOver(env, src, indexFile, n).value.out, s) <= 1
    decreases n
  {
    if n > 0 {
      PrefixStep(src, n, s);
      PassStepShim(env, src, indexFile, n, s);
      PassShimOnce(env, src, indexFile, n - 1, s);
    }
  }

  /** The environment and archive of `ShimWrittenTwice`. */
  const TwiceEnv := Env(_ => None, _ => Doc([], ""), _ => "", x => x, _ => "", map[BackgroundShim := "S"])
  const TwiceSrc := [Entry("index.html", "<html/>"), Entry(BackgroundShim, "X")]

  /**
   * The bound above needs the shim path to be missing from the source: an
   * archive that carries its own copy of the background shim after its index
   * page gets that path written twice, once by `_shim_wrap` and once by the
   * copy of the entry.
   */
  lemma ShimWrittenTwice()
    ensures PassOver(TwiceEnv, TwiceSrc, "index.html", 2).Ok?
    ensures CountName(PassOver(TwiceEnv, TwiceSrc, "index.html", 2).value.out, BackgroundShim) == 2
  {
    var first := TwiceFirst();
    TwiceSecond();
  }

  /** Wrapping the script-less index page of `TwiceSrc` writes only the background shim. */
  lemma TwiceWrap()
    ensures ShimWrap(Doc([], ""), IndexDoc, [], TwiceEnv.shimFiles) ==
      Ok(Wrapped(Doc([ScriptElem(BackgroundShim, Some(" "))], ""), [Entry(BackgroundShim, "S")]))
  {
    assert FirstFailure([], IndexDoc).None?;
    assert RenameInline([], IndexDoc, []) == Ok(Renamed([], []));
    assert PutIfAbsent([], BackgroundShim, "S") == [Entry(BackgroundShim, "S")];
    assert ShimFor(IndexDoc) == BackgroundShim && TwiceEnv.shimFiles[BackgroundShim] == "S";
    assert AddShim(Renamed([], []), "", BackgroundShim, "S") ==
      Wrapped(Doc([ScriptElem(BackgroundShim, Some(" "))], ""), [Entry(BackgroundShim, "S")]);
  }

  /** The index page is converted and the shim is written once. */
  lemma TwiceFirst() returns (st: Pass)
    ensures PassOver(TwiceEnv, TwiceSrc, "index.html", 1) == Ok(st)
    ensures CountName(st.out, BackgroundShim) == 1
  {
    PassUnfold(TwiceEnv, TwiceSrc, "index.html", 1);
    assert DataOf(TwiceSrc, 0) == "<html/>" by {
      ReadIsLast(TwiceSrc, "index.html");
    }
    TwiceWrap();
    var shim := [Entry(BackgroundShim, "S")];
    st := Start.(out := shim + [Entry("index.html", "")]);
    assert Step(TwiceEnv, "index.html", Start, "index.html", "<html/>") == Ok(st);
    CountAppend([], Entry(BackgroundShim, "S"), BackgroundShim);
    CountAppend(shim, Entry("index.html", ""), BackgroundShim);
  }

  /** A copy of the background shim in the source goes down the plain-script branch. */
  lemma BackgroundShimIsScript()
    ensures RouteOf(BackgroundShim, "index.html") == AsScript
  {
    assert BackgroundShim[0] != "index.html"[0];
    assert BackgroundShim[0] != IncludesDir[0];
    assert BackgroundShim[0] != Manifest.PopupPage[0];
    assert BackgroundShim[1] != Manifest.OptionsPage[1];
    assert BackgroundShim[|BackgroundShim| - 3..] == ScriptSuffix;
  }

  /** The source's own copy of the shim is copied after it. */
  lemma TwiceSecond()
    ensures var first := PassOver(TwiceEnv, TwiceSrc, "index.html", 1);
            var second := PassOver(TwiceEnv, TwiceSrc, "index.html", 2);
            first.Ok? ==> second.Ok? && CountName(second.value.out, BackgroundShim) == CountName(first.value.out, BackgroundShim) + 1
  {
    if PassOver(TwiceEnv, TwiceSrc, "index.html", 1).Ok? {
      var st := PassOver(TwiceEnv, TwiceSrc, "index.html", 1).value;
      PassUnfold(TwiceEnv, TwiceSrc, "index.html", 2);
      assert DataOf(TwiceSrc, 1) == "X" by {
        ReadIsLast(TwiceSrc, BackgroundShim);
      }
      BackgroundShimIsScript();
      assert Ascii("X");
      var e := Entry(BackgroundShim, ReadyWrap("X"));
      assert PassOver(TwiceEnv, TwiceSrc, "index.html", 2).value.out == st.out + [e];
      CountAppend(st.out, e, BackgroundShim);
    }
  }

  /** Every page the pass converted has its kind's shim in the output. */
  lemma {:induction false} PassShimPresent(env: Env, src: Archive, indexFile: string, n: nat, i: nat)
    requires n <= |src| && PassOver(env, src, indexFile, n).Ok?
    requires i < n && PageKind(RouteOf(src[i].name, indexFile)).Some?
    ensures Has(PassOver(env, src, indexFile, n).value.out, ShimFor(PageKind(RouteOf(src[i].name, indexFile)).value))
    decreases n
  {
    var shim := ShimFor(PageKind(RouteOf(src[i].name, indexFile)).value);
    if i == n - 1 {
      PassStepShimKept(env, src, indexFile, n);
    } else {
      PassStepCount(env, src, indexFile, n, shim);
      PassShimPresent(env, src, indexFile, n - 1, i);
      HasExtend(PassOver(env, src, indexFile, n - 1).value.out, PassOver(env, src, indexFile, n).value.out, shim);
    }
  }

  /** Steps for entries under other names leave what reading `x` gives unchanged, for a name the pass does not generate. */
  lemma {:induction false} PassKeepsRead(env: Env, src: Archive, indexFile: string, m: nat, n: nat, x: string)
    requires m <= n <= |src| && PassOver(env, src, indexFile, n).Ok?
    requires !Generated(x) && forall j :: m <= j < n ==> src[j].name != x
    ensures PassOver(env, src, indexFile, m).Ok?
    ensures Read(PassOver(env, src, indexFile, n).value.out, x) == Read(PassOver(env, src, indexFile, m).value.out, x)
    decreases n
  {
    if m < n {
      PassStepKeepsRead(env, src, indexFile, n, x);
      PassKeepsRead(env, src, indexFile, m, n - 1, x);
    }
  }

  /** The output of a shorter pass is a prefix of the output of a longer one. */
  lemma {:induction false} PassGrows(env: Env, src: Archive, indexFile: string, m: nat, n: nat)
    requires m <= n <= |src| && PassOver(env, src, indexFile, n).Ok?
    ensures PassOver(env, src, indexFile, m).Ok?
    ensures var early := PassOver(env, src, indexFile, m).value.out;
            var late := PassOver(env, src, indexFile, n).value.out;
            |early| <= |late| && late[..|early|] == early
    decreases n
  {
    if m < n {
      PassStepCount(env, src, indexFile, n, "");
      PassGrows(env, src, indexFile, m, n - 1);
      var early := PassOver(env, src, indexFile, m).value.out;
      var mid := PassOver(env, src, indexFile, n - 1).value.out;
      var late := PassOver(env, src, indexFile, n).value.out;
      assert late[..|early|] == late[..|mid|][..|early|];
    }
  }

  /** Every entry of the source archive except `config.xml` is written to the output under its name. */
  lemma PassWrites(env: Env, src: Archive, indexFile: string, n: nat, x: string)
    requires n <= |src| && PassOver(env, src, indexFile, n).Ok?
    requires Has(src[..n], x) && x != ConfigFile
    ensures Has(PassOver(env, src, indexFile, n).value.out, x)
  {
    var i :| 0 <= i < n && src[..n][i].name == x;
    assert src[i] == src[..n][i];
    PassGrows(env, src, indexFile, i + 1, n);
    PassStepWrites(env, src, indexFile, i + 1);
    HasExtend(PassOver(env, src, indexFile, i + 1).value.out, PassOver(env, src, indexFile, n).value.out, x);
  }

  /**
   * An entry that is not a page and whose name the pass does not generate is
   * copied: reading it from the output gives the source's data, scope-fixed
   * and wrapped if it is a plain script.
   */
  lemma PassCopies(env: Env, src: Archive, indexFile: string, n: nat, x: string)
    requires n <= |src| && PassOver(env, src, indexFile, n).Ok?
    requires Has(src[..n], x) && x != ConfigFile && !Generated(x)
    requires PageKind(RouteOf(x, indexFile)).None?
    ensures Read(src, x).Some?
    ensures Read(PassOver(env, src, indexFile, n).value.out, x) == Some(Written(env, RouteOf(x, indexFile), Read(src, x).value))
  {
    var i := LastAt(src[..n], x);
    forall j | i + 1 <= j < n
      ensures src[j].name != x
    {
      assert src[j] == src[..n][j];
    }
    assert src[i] == src[..n][i];
    PassKeepsRead(env, src, indexFile, i + 1, n, x);
    PassStepCopy(env, src, indexFile, i + 1, x);
  }
}

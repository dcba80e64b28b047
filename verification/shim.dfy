/**
 * What `_shim_wrap` does to the background, popup and options documents
 * when scripts are not merged: every non-blank inline script is moved into
 * an archive entry of its own and referenced by `src`, the page's
 * compatibility shim is referenced first in the document, and the shim
 * asset itself is added to the archive unless it is already there.
 *
 * The HTML parser and serialiser are collaborators; a document is seen
 * only through its script elements in document order.
 */
module Shim {
  import opened Results
  import opened Text
  import opened Archive

  const ShimDir := "oex_shim/"
  const BackgroundShim := ShimDir + "operaextensions_background.js"
  const PageShim := ShimDir + "operaextensions_popup.js"
  const InjectedShim := ShimDir + "operaextensions_injectedscript.js"

  /** One of the three shim assets. */
  predicate IsShimPath(p: string) {
    p == BackgroundShim || p == PageShim || p == InjectedShim
  }

  /** Prefix of the entries that hold externalised inline scripts. */
  const InlinePrefix := "inline_script_"

  /** Shim paths, and `config.xml`, are never names of externalised inline scripts. */
  lemma ReservedNamesAreNotInline(p: string)
    requires IsShimPath(p) || p == "config.xml"
    ensures !StartsWith(p, InlinePrefix)
  {
    assert p[0] != InlinePrefix[0];
  }

  /** The three documents the converter rewrites. */
  datatype DocKind = IndexDoc | PopupDoc | OptionDoc

  /** The `type` argument `_convert` passes for each document. */
  function KindName(k: DocKind): string {
    match k
    case IndexDoc => "index"
    case PopupDoc => "popup"
    case OptionDoc => "option"
  }

  /** The shim a document references: the background shim for the index document, the page shim otherwise. */
  function ShimFor(k: DocKind): (p: string)
    ensures IsShimPath(p)
    ensures p == BackgroundShim <==> k == IndexDoc
  {
    if k == IndexDoc then BackgroundShim else PageShim
  }

  /**
   * A `<script>` element: its `src` attribute ("" when absent, as DOM
   * `getAttribute` reports it) and the text of its first child node (None
   * when it has no child nodes).
   */
  datatype ScriptElem = ScriptElem(src: string, firstChild: Option<string>)

  /**
   * A parsed document: its script elements in document order, and the rest
   * of the tree, which is handed back to the serialiser as it came.
   */
  datatype Doc = Doc(scripts: seq<ScriptElem>, markup: string)

  /** An inline script without any child node: reading its text fails. */
  predicate Bodiless(s: ScriptElem) {
    s.src == "" && s.firstChild.None?
  }

  /**
   * The stripped text of a script's first child. The DOM holds unicode text,
   * so `strip()` removes Unicode white space, not only the ASCII kind.
   */
  function Body(s: ScriptElem): string
    requires s.firstChild.Some?
  {
    Trim(s.firstChild.value, UnicodeWhitespace)
  }

  /** An inline script whose stripped text is not blank: it is moved to an entry of its own. */
  predicate Externalised(s: ScriptElem) {
    s.src == "" && s.firstChild.Some? && Body(s) != ""
  }

  /**
   * An inline script with a child is moved out exactly when its text holds a
   * character that is not Unicode white space.
   */
  lemma ExternalisedIffVisible(s: ScriptElem)
    requires s.src == "" && s.firstChild.Some?
    ensures Externalised(s) <==> !AllIn(s.firstChild.value, UnicodeWhitespace)
  {
    var t := s.firstChild.value;
    var r := Body(s);
    var i :| OccursAt(t, r, i) && AllIn(t[..i], UnicodeWhitespace) && AllIn(t[i + |r|..], UnicodeWhitespace);
    if r == "" {
      forall j | 0 <= j < |t|
        ensures t[j] in UnicodeWhitespace
      {
        if j < i {
          assert t[j] == t[..i][j];
        } else {
          assert t[j] == t[i..][j - i];
        }
      }
    } else {
      assert t[i] == r[0] && r[0] !in UnicodeWhitespace;
    }
  }

  /** A script of no-break spaces is blank, as `unicode.strip()` sees it, and stays in place. */
  lemma NoBreakSpacesStay()
    ensures !Externalised(ScriptElem("", Some("\U{A0}\U{A0}")))
  {
    var t := "\U{A0}\U{A0}";
    assert UnicodeSpace('\U{A0}');
    assert AllIn(t, UnicodeWhitespace);
    ExternalisedIffVisible(ScriptElem("", Some(t)));
  }

  /** The entry name of the `n`th externalised script of a document of kind `k`. */
  function InlineName(k: DocKind, n: nat): (name: string)
    ensures StartsWith(name, InlinePrefix)
  {
    InlinePrefix + KindNumber(k, n) + ".js"
  }

  /** Different kinds or numbers give different entry names. */
  lemma InlineNameInjective(k: DocKind, n: nat, k': DocKind, n': nat)
    requires InlineName(k, n) == InlineName(k', n')
    ensures k == k' && n == n'
  {
    var m := KindNumber(k, n);
    var m' := KindNumber(k', n');
    Unwrap(InlinePrefix, m, m', ".js");
    KindNumberSplits(k, n, k', n');
    DecimalReads(n);
    DecimalReads(n');
  }

  /** The middle of an inline script's name: the kind, an underscore and the number. */
  function KindNumber(k: DocKind, n: nat): string {
    KindName(k) + "_" + Decimal(n)
  }

  /** The middle is all that differs between two names with the same ends. */
  lemma Unwrap(p: string, m: string, m': string, q: string)
    requires p + m + q == p + m' + q
    ensures m == m'
  {
    var a := p + m + q;
    assert m == a[|p|..|a| - |q|];
    assert m' == (p + m' + q)[|p|..|a| - |q|];
  }

  /** No kind name holds an underscore, so the first underscore ends it. */
  lemma KindNumberSplits(k: DocKind, n: nat, k': DocKind, n': nat)
    requires KindNumber(k, n) == KindNumber(k', n')
    ensures k == k' && Decimal(n) == Decimal(n')
  {
    var m := KindNumber(k, n);
    var kn, kn' := KindName(k), KindName(k');
    assert m[|kn|] == '_' && KindNumber(k', n')[|kn'|] == '_';
    assert |kn| == |kn'|;
    assert kn == m[..|kn|] == kn';
    assert Decimal(n) == m[|kn| + 1..] == Decimal(n');
  }

  /** The stripped texts of the externalised scripts, in document order. */
  function InlineBodies(scripts: seq<ScriptElem>): (bodies: seq<string>)
    ensures |bodies| <= |scripts|
  {
    if |scripts| == 0 then []
    else (if Externalised(scripts[0]) then [Body(scripts[0])] else []) + InlineBodies(scripts[1..])
  }

  /** How many of the first `i` scripts are externalised. */
  function ExternalisedBefore(scripts: seq<ScriptElem>, i: nat): nat
    requires i <= |scripts|
    decreases i
  {
    if i == 0 then 0
    else (if Externalised(scripts[0]) then 1 else 0) + ExternalisedBefore(scripts[1..], i - 1)
  }

  /**
   * The body of the externalised script at `i` is the one after the bodies
   * of the externalised scripts before it.
   */
  lemma {:induction false} InlineBodiesAt(scripts: seq<ScriptElem>, i: nat)
    requires i < |scripts| && Externalised(scripts[i])
    ensures ExternalisedBefore(scripts, i) < |InlineBodies(scripts)|
    ensures InlineBodies(scripts)[ExternalisedBefore(scripts, i)] == Body(scripts[i])
    decreases i
  {
    var head := if Externalised(scripts[0]) then [Body(scripts[0])] else [];
    assert InlineBodies(scripts) == head + InlineBodies(scripts[1..]);
    if i > 0 {
      assert scripts[1..][i - 1] == scripts[i];
      InlineBodiesAt(scripts[1..], i - 1);
    }
  }

  /** The entries written for `bodies`, numbered from `n + 1` on. */
  function InlineWrites(bodies: seq<string>, k: DocKind, n: nat): (w: Archive)
    ensures |w| == |bodies|
  {
    if |bodies| == 0 then []
    else [Entry(InlineName(k, n + 1), bodies[0])] + InlineWrites(bodies[1..], k, n + 1)
  }

  /** The `j`th body is written under the `(n + j + 1)`th name. */
  lemma {:induction false} InlineWritesAt(bodies: seq<string>, k: DocKind, n: nat, j: int)
    requires 0 <= j < |bodies|
    ensures InlineWrites(bodies, k, n)[j] == Entry(InlineName(k, n + j + 1), bodies[j])
    decreases j
  {
    InlineWritesCons(bodies, k, n);
    if j > 0 {
      InlineWritesAt(bodies[1..], k, n + 1, j - 1);
      assert InlineWrites(bodies, k, n)[j] == InlineWrites(bodies[1..], k, n + 1)[j - 1];
    }
  }

  /** The first entry written, and the rest written from the next number on. */
  lemma InlineWritesCons(bodies: seq<string>, k: DocKind, n: nat)
    requires |bodies| > 0
    ensures InlineWrites(bodies, k, n)[0] == Entry(InlineName(k, n + 1), bodies[0])
    ensures InlineWrites(bodies, k, n)[1..] == InlineWrites(bodies[1..], k, n + 1)
  {
  }

  /** The replacement for one script, given the count `n` of externalised scripts before it. */
  function Replacement(s: ScriptElem, k: DocKind, n: nat): ScriptElem {
    if Externalised(s) then ScriptElem(InlineName(k, n + 1), None) else s
  }

  /**
   * The non-merging loop of `_shim_wrap` on the document side: `n`
   * externalised scripts have been seen so far; each further one is
   * replaced by a child-less reference to the next
   * `inline_script_<kind>_<n>.js` name.
   */
  function Relabel(scripts: seq<ScriptElem>, k: DocKind, n: nat): (r: seq<ScriptElem>)
    ensures |r| == |scripts|
    decreases |scripts|
  {
    if |scripts| == 0 then []
    else
      var s := scripts[0];
      [Replacement(s, k, n)] + Relabel(scripts[1..], k, n + if Externalised(s) then 1 else 0)
  }

  /**
   * Script by script: each script is replaced as `Replacement` says, given
   * how many externalised scripts precede it.
   */
  lemma {:induction false} RelabelPositions(scripts: seq<ScriptElem>, k: DocKind, n: nat, i: nat)
    requires i < |scripts|
    ensures Relabel(scripts, k, n)[i] == Replacement(scripts[i], k, n + ExternalisedBefore(scripts, i))
    decreases i
  {
    if i > 0 {
      var s := scripts[0];
      var n' := n + if Externalised(s) then 1 else 0;
      var tail := Relabel(scripts[1..], k, n');
      assert Relabel(scripts, k, n) == [Replacement(s, k, n)] + tail;
      RelabelPositions(scripts[1..], k, n', i - 1);
      assert scripts[1..][i - 1] == scripts[i];
    }
  }

  /** Appending entries none of which is named `p` leaves the count of `p` alone. */
  lemma {:induction false} CountAppendOthers(a: Archive, w: Archive, p: string)
    requires forall j :: 0 <= j < |w| ==> w[j].name != p
    ensures CountName(a + w, p) == CountName(a, p)
    decreases |w|
  {
    if |w| > 0 {
      var front := w[..|w| - 1];
      CountAppendOthers(a, front, p);
      assert a + w == (a + front) + [w[|w| - 1]];
      CountAppend(a + front, w[|w| - 1], p);
    } else {
      assert a + w == a;
    }
  }

  /**
   * Handling this script in the loop raises, which ends the whole run: an
   * inline script without a child node (`childNodes[0]`), or a non-blank
   * one whose stripped text is not ASCII, which `writestr` cannot encode.
   */
  predicate Fails(s: ScriptElem) {
    Bodiless(s) || (Externalised(s) && !Ascii(Body(s)))
  }

  /** The error a failing script raises. */
  function Failure(s: ScriptElem, k: DocKind): ConvertError
    requires Fails(s)
  {
    if Bodiless(s) then EmptyScript(KindName(k)) else UnencodableScript(KindName(k))
  }

  /** Script `i` is the first one, in document order, that fails. */
  predicate FailsFirst(scripts: seq<ScriptElem>, i: int) {
    0 <= i < |scripts| && Fails(scripts[i]) && forall j :: 0 <= j < i ==> !Fails(scripts[j])
  }

  /** The error the loop over `scripts` stops with, if any. */
  function FirstFailure(scripts: seq<ScriptElem>, k: DocKind): (e: Option<ConvertError>)
    ensures e.None? <==> forall i :: 0 <= i < |scripts| ==> !Fails(scripts[i])
  {
    if |scripts| == 0 then None
    else if Fails(scripts[0]) then Some(Failure(scripts[0], k))
    else
      assert forall i :: 1 <= i < |scripts| ==> scripts[i] == scripts[1..][i - 1];
      FirstFailure(scripts[1..], k)
  }

  /** The loop stops with the error of the first failing script. */
  lemma {:induction false} FirstFailureIsFirst(scripts: seq<ScriptElem>, k: DocKind)
    requires FirstFailure(scripts, k).Some?
    ensures exists i :: FailsFirst(scripts, i) && FirstFailure(scripts, k).value == Failure(scripts[i], k)
    decreases |scripts|
  {
    if !Fails(scripts[0]) {
      var rest := scripts[1..];
      FirstFailureIsFirst(rest, k);
      var i :| FailsFirst(rest, i) && FirstFailure(rest, k).value == Failure(rest[i], k);
      assert rest[i] == scripts[i + 1];
      forall j | 0 <= j < i + 1
        ensures !Fails(scripts[j])
      {
        if j > 0 {
          assert scripts[j] == rest[j - 1];
        }
      }
      assert FailsFirst(scripts, i + 1);
    } else {
      assert FailsFirst(scripts, 0);
    }
  }

  /** The rewritten script list and the archive after the inline scripts have been written. */
  datatype Renamed = Renamed(scripts: seq<ScriptElem>, out: Archive)

  /**
   * The non-merging branch of `_shim_wrap`. A failing script ends the whole
   * run with its error, so such a document is an error and nothing it would
   * have written survives. Otherwise the archive gains one entry per
   * externalised script and nothing else.
   */
  function RenameInline(scripts: seq<ScriptElem>, k: DocKind, out: Archive): (r: Result<Renamed>)
    ensures r.Ok? <==> forall i :: 0 <= i < |scripts| ==> !Fails(scripts[i])
    ensures r.Err? ==> exists i :: FailsFirst(scripts, i) && r.error == Failure(scripts[i], k)
    ensures r.Ok? ==> |r.value.scripts| == |scripts|
    ensures r.Ok? ==> |r.value.out| == |out| + |InlineBodies(scripts)| && r.value.out[..|out|] == out
  {
    match FirstFailure(scripts, k)
    case Some(e) =>
      FirstFailureIsFirst(scripts, k);
      Err(e)
    case None =>
      var w := InlineWrites(InlineBodies(scripts), k, 0);
      assert (out + w)[..|out|] == out;
      Ok(Renamed(Relabel(scripts, k, 0), out + w))
  }

  /** Only names with the inline-script prefix are written: every other name keeps its count. */
  lemma RenameInlineCounts(scripts: seq<ScriptElem>, k: DocKind, out: Archive, p: string)
    requires RenameInline(scripts, k, out).Ok? && !StartsWith(p, InlinePrefix)
    ensures CountName(RenameInline(scripts, k, out).value.out, p) == CountName(out, p)
  {
    var w := InlineWrites(InlineBodies(scripts), k, 0);
    assert RenameInline(scripts, k, out).value.out == out + w;
    forall j | 0 <= j < |w|
      ensures w[j].name != p
    {
      InlineWritesAt(InlineBodies(scripts), k, 0, j);
    }
    CountAppendOthers(out, w, p);
  }

  /**
   * The entries added, in order: the `j`th is named
   * `inline_script_<kind>_<j + 1>.js` and holds the `j`th externalised script's stripped text.
   */
  lemma RenameInlineEntries(scripts: seq<ScriptElem>, k: DocKind, out: Archive, j: int)
    requires RenameInline(scripts, k, out).Ok?
    requires 0 <= j < |InlineBodies(scripts)|
    ensures RenameInline(scripts, k, out).value.out[|out| + j] == Entry(InlineName(k, j + 1), InlineBodies(scripts)[j])
  {
    InlineWritesAt(InlineBodies(scripts), k, 0, j);
  }

  /** The renamed document holds `Relabel`'s script list. */
  lemma RenameInlineScripts(scripts: seq<ScriptElem>, k: DocKind, out: Archive, i: int)
    requires RenameInline(scripts, k, out).Ok?
    requires 0 <= i < |scripts|
    ensures RenameInline(scripts, k, out).value.scripts[i] == Replacement(scripts[i], k, ExternalisedBefore(scripts, i))
  {
    assert FirstFailure(scripts, k).None?;
    assert RenameInline(scripts, k, out).value.scripts == Relabel(scripts, k, 0);
    RelabelPositions(scripts, k, 0, i);
  }

  /**
   * An externalised script is replaced by a child-less reference numbered
   * one past the externalised scripts before it.
   */
  lemma RenameInlineReplaces(scripts: seq<ScriptElem>, k: DocKind, out: Archive, i: int)
    requires RenameInline(scripts, k, out).Ok?
    requires 0 <= i < |scripts| && Externalised(scripts[i])
    ensures RenameInline(scripts, k, out).value.scripts[i] == ScriptElem(InlineName(k, ExternalisedBefore(scripts, i) + 1), None)
  {
    RenameInlineScripts(scripts, k, out, i);
  }

  /** Every other script (with a `src`, or blank) is left as it was. */
  lemma RenameInlineKeeps(scripts: seq<ScriptElem>, k: DocKind, out: Archive, i: int)
    requires RenameInline(scripts, k, out).Ok?
    requires 0 <= i < |scripts| && !Externalised(scripts[i])
    ensures RenameInline(scripts, k, out).value.scripts[i] == scripts[i]
  {
    RenameInlineScripts(scripts, k, out, i);
  }

  /**
   * Every reference put in place of an inline script names an entry of the
   * new archive, and reading that name gives the script's stripped text.
   */
  lemma RenameInlineKeepsText(scripts: seq<ScriptElem>, k: DocKind, out: Archive, i: int)
    requires RenameInline(scripts, k, out).Ok?
    requires 0 <= i < |scripts| && Externalised(scripts[i])
    ensures var r := RenameInline(scripts, k, out).value;
            Read(r.out, r.scripts[i].src) == Some(Body(scripts[i]))
  {
    var r := RenameInline(scripts, k, out).value;
    var j := ExternalisedBefore(scripts, i);
    RenameInlineReplaces(scripts, k, out, i);
    InlineBodiesAt(scripts, i);
    RenameInlineEntries(scripts, k, out, j);
    assert r.out[|out| + j] == Entry(r.scripts[i].src, Body(scripts[i]));
    RenameInlineUnshadowed(scripts, k, out, j);
    ReadUnshadowed(r.out, |out| + j);
  }

  /** No later entry the rename writes has the name of the `j`th one. */
  lemma RenameInlineUnshadowed(scripts: seq<ScriptElem>, k: DocKind, out: Archive, j: int)
    requires RenameInline(scripts, k, out).Ok?
    requires 0 <= j < |InlineBodies(scripts)|
    ensures var w := RenameInline(scripts, k, out).value.out;
            forall l :: |out| + j < l < |w| ==> w[l].name != w[|out| + j].name
  {
    var w := RenameInline(scripts, k, out).value.out;
    RenameInlineEntries(scripts, k, out, j);
    forall l | |out| + j < l < |w|
      ensures w[l].name != w[|out| + j].name
    {
      RenameInlineEntries(scripts, k, out, l - |out|);
      if w[l].name == w[|out| + j].name {
        InlineNameInjective(k, l - |out| + 1, k, j + 1);
      }
    }
  }

  /** The document and archive `_shim_wrap` hands back. */
  datatype Wrapped = Wrapped(doc: Doc, out: Archive)

  /**
   * The tail of `_shim_wrap`: a reference to the shim at `path` goes first
   * in the document and the shim's `data` is written unless `path` is
   * already in the archive.
   */
  function AddShim(rn: Renamed, markup: string, path: string, data: string): (w: Wrapped)
    ensures |w.doc.scripts| == |rn.scripts| + 1 && w.doc.markup == markup
    ensures w.doc.scripts[0] == ScriptElem(path, Some(" ")) && w.doc.scripts[1..] == rn.scripts
    ensures Has(w.out, path)
    ensures CountName(w.out, path) == if Has(rn.out, path) then CountName(rn.out, path) else 1
    ensures |rn.out| <= |w.out| && w.out[..|rn.out|] == rn.out
  {
    var scripts := [ScriptElem(path, Some(" "))] + rn.scripts;
    assert scripts[1..] == rn.scripts;
    Wrapped(Doc(scripts, markup), PutIfAbsent(rn.out, path, data))
  }

  /**
   * `_shim_wrap` without merging: externalise the inline scripts, read the
   * kind's shim from the local shim files (the run stops when it cannot),
   * put the shim reference first in the document and write the shim asset
   * unless the archive already has it.
   */
  function ShimWrap(doc: Doc, k: DocKind, out: Archive, shimFiles: map<string, string>): (r: Result<Wrapped>)
    ensures r.Ok? <==> (forall i :: 0 <= i < |doc.scripts| ==> !Fails(doc.scripts[i])) && ShimFor(k) in shimFiles
    ensures r.Ok? ==> |r.value.doc.scripts| == |doc.scripts| + 1 && r.value.doc.markup == doc.markup
    ensures r.Ok? ==> r.value.doc.scripts[0] == ScriptElem(ShimFor(k), Some(" "))
    ensures r.Ok? ==> Has(r.value.out, ShimFor(k))
    ensures r.Ok? ==> |out| <= |r.value.out| && r.value.out[..|out|] == out
    ensures r.Ok? ==> CountName(r.value.out, ShimFor(k)) == if Has(out, ShimFor(k)) then CountName(out, ShimFor(k)) else 1
  {
    var rn :- RenameInline(doc.scripts, k, out);
    var path := ShimFor(k);
    if path !in shimFiles then Err(ShimUnreadable(path))
    else
      var w := AddShim(rn, doc.markup, path, shimFiles[path]);
      ReservedNamesAreNotInline(path);
      RenameInlineCounts(doc.scripts, k, out, path);
      assert w.out[..|out|] == w.out[..|rn.out|][..|out|];
      Ok(w)
  }

  /** Besides the kind's shim, only names with the inline-script prefix are written. */
  lemma ShimWrapCounts(doc: Doc, k: DocKind, out: Archive, shimFiles: map<string, string>, p: string)
    requires ShimWrap(doc, k, out, shimFiles).Ok?
    requires !StartsWith(p, InlinePrefix) && p != ShimFor(k)
    ensures CountName(ShimWrap(doc, k, out, shimFiles).value.out, p) == CountName(out, p)
  {
    var rn := RenameInline(doc.scripts, k, out).value;
    RenameInlineCounts(doc.scripts, k, out, p);
    PutIfAbsentOthers(rn.out, ShimFor(k), shimFiles[ShimFor(k)], p);
  }
}

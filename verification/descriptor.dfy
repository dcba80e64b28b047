/**
 * Reading the extension's `config.xml` into a normalised descriptor
 * (`_get_best_elem` and the descriptor reads at the start of `_convert`).
 *
 * The XML text is parsed elsewhere; `Config` holds what the converter asks
 * the element tree for: the root's `version` and `id` attributes and the
 * widget-namespace children it looks up, each in document order.
 */
module Descriptor {
  import opened Results
  import opened Text

  /** A `name` or `description` element: its `xml:lang` attribute and its text (None for an empty element). */
  datatype LangText = LangText(lang: Option<string>, text: Option<string>)

  /** An `access` element's `origin` and `subdomains` attributes. */
  datatype AccessElem = AccessElem(origin: Option<string>, subdomains: Option<string>)

  /** A `feature` element's `name` attribute. */
  datatype FeatureElem = FeatureElem(name: Option<string>)

  /** A `content` or `icon` element's `src` attribute. */
  datatype SrcElem = SrcElem(src: Option<string>)

  datatype Config = Config(
    version: Option<string>,
    id: Option<string>,
    names: seq<LangText>,
    descriptions: seq<LangText>,
    access: seq<AccessElem>,
    features: seq<FeatureElem>,
    contents: seq<SrcElem>,
    icons: seq<SrcElem>)

  /** One access grant: the origin and whether subdomains are included (kept as the attribute text). */
  datatype AccessGrant = AccessGrant(origin: string, subdomains: string)

  datatype Descriptor = Descriptor(
    name: string,
    description: string,
    version: string,
    id: Option<string>,
    access: seq<AccessGrant>,
    features: seq<string>,
    indexFile: string,
    iconFile: Option<string>)

  const DefaultIndex := "index.html"
  const DefaultVersion := "1.0.0.1"

  /** What a field falls back to when no usable element is found. */
  function Placeholder(tag: string): string {
    "No " + tag + " found in config.xml."
  }

  // ---------------------------------------------------------------------------
  // Field selection (`_get_best_elem`)

  /** The element has no `xml:lang` attribute. */
  predicate Untagged(e: LangText) {
    e.lang.None?
  }

  /** The element's `xml:lang` contains "en" as a substring. */
  predicate English(e: LangText) {
    e.lang.Some? && Contains(e.lang.value, "en")
  }

  /**
   * The scan reaches element `j` and reads its missing text: `j` is untagged
   * or English, has no text, and no untagged element stopped the scan before it.
   */
  predicate CrashesAt(elems: seq<LangText>, j: int) {
    && 0 <= j < |elems|
    && (Untagged(elems[j]) || English(elems[j]))
    && elems[j].text.None?
    && forall k :: 0 <= k < j ==> !Untagged(elems[k])
  }

  /** Selecting from `elems` fails on an element without text. */
  predicate Crashes(elems: seq<LangText>) {
    exists j :: 0 <= j < |elems| && CrashesAt(elems, j)
  }

  /**
   * The loop of `_get_best_elem`: an English element replaces the current
   * choice `rval`; an untagged element is taken and ends the scan.
   */
  function Scan(elems: seq<LangText>, tag: string, rval: string): (r: Result<string>)
    ensures r.Err? ==> r.error == MissingText(tag)
  {
    if |elems| == 0 then Ok(rval)
    else
      var e := elems[0];
      if e.lang.None? then
        if e.text.None? then Err(MissingText(tag)) else Ok(e.text.value)
      else if Contains(e.lang.value, "en") then
        if e.text.None? then Err(MissingText(tag)) else Scan(elems[1..], tag, e.text.value)
      else
        Scan(elems[1..], tag, rval)
  }

  /** A selected text, or the placeholder when it is empty. */
  function OrPlaceholder(text: string, tag: string): string {
    if text == "" then Placeholder(tag) else text
  }

  /** `_get_best_elem(root, tag)`: the text to use for a `name` or `description` field. */
  function BestElem(elems: seq<LangText>, tag: string): (r: Result<string>)
    ensures r.Ok? ==> r.value != ""
    ensures r.Err? ==> r.error == MissingText(tag)
  {
    var rval :- Scan(elems, tag, "");
    Ok(OrPlaceholder(rval, tag))
  }

  /** A failure in the tail is a failure of the whole list when the head is tagged. */
  lemma CrashShift(elems: seq<LangText>, j: int)
    requires |elems| > 0 && !Untagged(elems[0]) && j >= 0
    ensures CrashesAt(elems[1..], j) <==> CrashesAt(elems, j + 1)
  {
    if CrashesAt(elems, j + 1) {
      assert elems[1..][j] == elems[j + 1];
      forall k | 0 <= k < j
        ensures !Untagged(elems[1..][k])
      {
        assert elems[1..][k] == elems[k + 1];
      }
    } else if CrashesAt(elems[1..], j) {
      assert elems[1..][j] == elems[j + 1];
      forall k | 0 < k < j + 1
        ensures !Untagged(elems[k])
      {
        assert elems[k] == elems[1..][k - 1];
      }
    }
  }

  /** The scan fails exactly when it reaches an element without text. */
  lemma {:induction false} ScanFails(elems: seq<LangText>, tag: string, rval: string)
    ensures Scan(elems, tag, rval).Err? <==> Crashes(elems)
    decreases |elems|
  {
    if |elems| == 0 {
    } else {
      var e := elems[0];
      if e.lang.None? {
        if e.text.None? {
          assert CrashesAt(elems, 0);
        } else {
          forall j | 0 <= j < |elems|
            ensures !CrashesAt(elems, j)
          {
            if j > 0 {
              assert Untagged(elems[0]);
            }
          }
        }
      } else {
        var rest := elems[1..];
        var r2 := if English(e) then e.text.GetOr("") else rval;
        if English(e) && e.text.None? {
          assert CrashesAt(elems, 0);
        } else {
          ScanFails(rest, tag, r2);
          assert Scan(elems, tag, rval) == Scan(rest, tag, r2);
          if Crashes(rest) {
            var j :| 0 <= j < |rest| && CrashesAt(rest, j);
            CrashShift(elems, j);
          }
          if Crashes(elems) {
            var j :| 0 <= j < |elems| && CrashesAt(elems, j);
            assert j != 0;
            CrashShift(elems, j - 1);
          }
        }
      }
    }
  }

  /** Selection fails exactly when the scan reaches an element without text. */
  lemma SelectionFails(elems: seq<LangText>, tag: string)
    ensures BestElem(elems, tag).Err? <==> Crashes(elems)
  {
    ScanFails(elems, tag, "");
  }

  /** Without untagged or English elements the scan keeps its current choice. */
  lemma {:induction false} ScanKeeps(elems: seq<LangText>, tag: string, rval: string)
    requires forall k :: 0 <= k < |elems| ==> !Untagged(elems[k]) && !English(elems[k])
    ensures Scan(elems, tag, rval) == Ok(rval)
    decreases |elems|
  {
    if |elems| > 0 {
      ScanKeeps(elems[1..], tag, rval);
    }
  }

  /** The scan stops at the first untagged element `i` and takes its text. */
  lemma {:induction false} ScanStopsAtUntagged(elems: seq<LangText>, tag: string, rval: string, i: int)
    requires 0 <= i < |elems| && Untagged(elems[i]) && elems[i].text.Some?
    requires forall k :: 0 <= k < i ==> !Untagged(elems[k])
    requires !Crashes(elems)
    ensures Scan(elems, tag, rval) == Ok(elems[i].text.value)
    decreases i
  {
    if i > 0 {
      var e := elems[0];
      if English(e) && e.text.None? {
        assert CrashesAt(elems, 0);
      }
      var r2 := if English(e) then e.text.value else rval;
      if Crashes(elems[1..]) {
        var j :| 0 <= j < |elems| - 1 && CrashesAt(elems[1..], j);
        CrashShift(elems, j);
      }
      ScanStopsAtUntagged(elems[1..], tag, r2, i - 1);
    }
  }

  /** Without untagged elements the scan ends with the text of the last English element `i`. */
  lemma {:induction false} ScanTakesLastEnglish(elems: seq<LangText>, tag: string, rval: string, i: int)
    requires forall k :: 0 <= k < |elems| ==> !Untagged(elems[k])
    requires 0 <= i < |elems| && English(elems[i]) && elems[i].text.Some?
    requires forall k :: i < k < |elems| ==> !English(elems[k])
    requires !Crashes(elems)
    ensures Scan(elems, tag, rval) == Ok(elems[i].text.value)
    decreases i
  {
    var e := elems[0];
    if English(e) && e.text.None? {
      assert CrashesAt(elems, 0);
    }
    var r2 := if English(e) then e.text.value else rval;
    if i == 0 {
      ScanKeeps(elems[1..], tag, r2);
    } else {
      if Crashes(elems[1..]) {
        var j :| 0 <= j < |elems| - 1 && CrashesAt(elems[1..], j);
        CrashShift(elems, j);
      }
      ScanTakesLastEnglish(elems[1..], tag, r2, i - 1);
    }
  }

  /**
   * When some element lacks `xml:lang`, the field is the text of the first
   * such element (an English element earlier in the list does not win).
   */
  lemma FirstUntaggedWins(elems: seq<LangText>, tag: string, i: int)
    requires 0 <= i < |elems| && Untagged(elems[i])
    requires forall k :: 0 <= k < i ==> !Untagged(elems[k])
    requires !Crashes(elems)
    ensures elems[i].text.Some?
    ensures BestElem(elems, tag) == Ok(OrPlaceholder(elems[i].text.value, tag))
  {
    if elems[i].text.None? {
      assert CrashesAt(elems, i);
    }
    ScanStopsAtUntagged(elems, tag, "", i);
  }

  /**
   * When every element carries `xml:lang`, the field is the text of the last
   * element whose language contains "en".
   */
  lemma LastEnglishWins(elems: seq<LangText>, tag: string, i: int)
    requires forall k :: 0 <= k < |elems| ==> !Untagged(elems[k])
    requires 0 <= i < |elems| && English(elems[i])
    requires forall k :: i < k < |elems| ==> !English(elems[k])
    requires !Crashes(elems)
    ensures elems[i].text.Some?
    ensures BestElem(elems, tag) == Ok(OrPlaceholder(elems[i].text.value, tag))
  {
    if elems[i].text.None? {
      assert CrashesAt(elems, i);
    }
    ScanTakesLastEnglish(elems, tag, "", i);
  }

  /** With neither an untagged nor an English element, the field is the placeholder. */
  lemma NoCandidateGivesPlaceholder(elems: seq<LangText>, tag: string)
    requires forall k :: 0 <= k < |elems| ==> !Untagged(elems[k]) && !English(elems[k])
    ensures BestElem(elems, tag) == Ok(Placeholder(tag))
  {
    ScanKeeps(elems, tag, "");
  }

  // ---------------------------------------------------------------------------
  // Version

  /**
   * The version field: the `version` attribute with leading and trailing
   * dots stripped, or "1.0.0.1" when the attribute is absent. The converter
   * computes a digits-and-dots cleanup with `re.sub` but discards its result,
   * so every other character is kept.
   */
  function NormalizeVersion(attr: Option<string>): (v: string)
    ensures v == "" || (v[0] != '.' && v[|v| - 1] != '.')
    ensures attr.None? ==> v == DefaultVersion
    ensures attr.Some? ==> exists i :: OccursAt(attr.value, v, i) && AllIn(attr.value[..i], {'.'}) && AllIn(attr.value[i + |v|..], {'.'})
  {
    match attr
    case None => DefaultVersion
    case Some(s) => Trim(s, {'.'})
  }

  /** Normalising a normalised version changes nothing. */
  lemma VersionIdempotent(attr: Option<string>)
    ensures NormalizeVersion(Some(NormalizeVersion(attr))) == NormalizeVersion(attr)
  {
    match attr
    case None =>
      TrimOfTrimmed(DefaultVersion, {'.'});
    case Some(s) =>
      TrimIdempotent(s, {'.'});
  }

  /** A version with letters keeps them: "1.2.3a" stays "1.2.3a". */
  lemma VersionKeepsLetters()
    ensures NormalizeVersion(Some("1.2.3a")) == "1.2.3a"
  {
    TrimOfTrimmed("1.2.3a", {'.'});
  }

  // ---------------------------------------------------------------------------
  // Access grants and features

  /** The access list: `[origin, subdomains]` per `access` element, "false" when `subdomains` is absent. */
  function AccessGrants(elems: seq<AccessElem>): (r: Result<seq<AccessGrant>>)
    ensures r.Ok? <==> forall i :: 0 <= i < |elems| ==> elems[i].origin.Some?
    ensures r.Err? ==> r.error == MissingAttribute("access", "origin")
    ensures r.Ok? ==> |r.value| == |elems|
    ensures r.Ok? ==> forall i :: 0 <= i < |elems| ==>
      r.value[i] == AccessGrant(elems[i].origin.value, elems[i].subdomains.GetOr("false"))
  {
    if |elems| == 0 then Ok([])
    else
      var e := elems[0];
      if e.origin.None? then Err(MissingAttribute("access", "origin"))
      else
        var rest :- AccessGrants(elems[1..]);
        Ok([AccessGrant(e.origin.value, e.subdomains.GetOr("false"))] + rest)
  }

  /** The feature names, one per `feature` element, in document order. */
  function FeatureNames(elems: seq<FeatureElem>): (r: Result<seq<string>>)
    ensures r.Ok? <==> forall i :: 0 <= i < |elems| ==> elems[i].name.Some?
    ensures r.Err? ==> r.error == MissingAttribute("feature", "name")
    ensures r.Ok? ==> |r.value| == |elems| && forall i :: 0 <= i < |elems| ==> r.value[i] == elems[i].name.value
  {
    if |elems| == 0 then Ok([])
    else
      var e := elems[0];
      if e.name.None? then Err(MissingAttribute("feature", "name"))
      else
        var rest :- FeatureNames(elems[1..]);
        Ok([e.name.value] + rest)
  }

  // ---------------------------------------------------------------------------
  // The descriptor

  /** The `src` of the first element, if that element has one. */
  function FirstSrc(elems: seq<SrcElem>): Option<string> {
    if |elems| > 0 then elems[0].src else None
  }

  /**
   * The descriptor reads of `_convert`, in the converter's order: name,
   * version, id, description, access grants, features, index document and
   * icon. Only the first `content` and the first `icon` element are consulted.
   */
  function ParseDescriptor(c: Config): (r: Result<Descriptor>)
    ensures r.Ok? <==>
      && !Crashes(c.names) && !Crashes(c.descriptions)
      && (forall i :: 0 <= i < |c.access| ==> c.access[i].origin.Some?)
      && (forall i :: 0 <= i < |c.features| ==> c.features[i].name.Some?)
    ensures r.Ok? ==>
      && r.value.name != "" && r.value.description != ""
      && Trimmed(r.value.version, {'.'})
      && |r.value.access| == |c.access|
      && r.value.features == seq(|c.features|, i requires 0 <= i < |c.features| => c.features[i].name.value)
      && r.value.id == c.id
      && r.value.indexFile == FirstSrc(c.contents).GetOr(DefaultIndex)
      && r.value.iconFile == FirstSrc(c.icons)
    ensures r.Ok? ==>
      && BestElem(c.names, "name") == Ok(r.value.name)
      && BestElem(c.descriptions, "description") == Ok(r.value.description)
      && r.value.version == NormalizeVersion(c.version)
      && AccessGrants(c.access) == Ok(r.value.access)
  {
    SelectionFails(c.names, "name");
    SelectionFails(c.descriptions, "description");
    var name :- BestElem(c.names, "name");
    var version := NormalizeVersion(c.version);
    var description :- BestElem(c.descriptions, "description");
    var access :- AccessGrants(c.access);
    var features :- FeatureNames(c.features);
    Ok(Descriptor(name, description, version, c.id, access, features,
                  FirstSrc(c.contents).GetOr(DefaultIndex), FirstSrc(c.icons)))
  }
}

/**
 * The per-file match rules of an injected script (a `.js` entry under `includes/`): the
 * `@include ` and `@exclude ` directives of its user-script header.
 */
module UserScript {
  import opened Results
  import opened Text

  const EndMarker := "==/UserScript=="
  const IncludeToken := "@include "
  const ExcludeToken := "@exclude "

  /** The match patterns an injected script gets when it declares no include. */
  const AnyPage: seq<string> := ["http://*/*", "https://*/*"]

  /** One injected script and the match patterns collected from its header. */
  datatype InjectedScript = InjectedScript(file: string, includes: seq<string>, excludes: seq<string>)

  /** The header text: everything before the first end marker, if there is one. */
  function Prolog(data: string): (p: Option<string>)
    ensures p.Some? <==> Contains(data, EndMarker)
    ensures p.Some? ==> Find(data, EndMarker) == |p.value| && p.value == data[..|p.value|]
  {
    var pos := Find(data, EndMarker);
    if pos == -1 then None else Some(data[..pos])
  }

  /** What one header line gives for a directive: the stripped text after the token's first occurrence. */
  function DirectiveValue(line: string, tok: string): (v: Option<string>)
    ensures v.Some? <==> Contains(line, tok)
    ensures v.Some? ==> Trimmed(v.value, Whitespace)
    ensures v.Some? ==> FramedAfter(line, v.value, Find(line, tok) + |tok|, Whitespace)
  {
    var p := Find(line, tok);
    if p == -1 then None else Some(StrippedFrom(line, p + |tok|))
  }

  /** The stripped text of `line` from `start` on. */
  function StrippedFrom(line: string, start: nat): (v: string)
    requires start <= |line|
    ensures Trimmed(v, Whitespace) && FramedAfter(line, v, start, Whitespace)
  {
    TrimFrom(line, start, Whitespace);
    Trim(line[start..], Whitespace)
  }

  /** The directive value of one line as a list of zero or one pattern. */
  function Hits(line: string, tok: string): (r: seq<string>)
    ensures |r| <= 1
  {
    match DirectiveValue(line, tok)
    case Some(v) => [v]
    case None => []
  }

  /** The values of every line that carries `tok`, in line order. */
  function Directives(lines: seq<string>, tok: string): (r: seq<string>)
    ensures |r| <= |lines|
  {
    if |lines| == 0 then [] else Hits(lines[0], tok) + Directives(lines[1..], tok)
  }

  /** Some line of `lines` gives `x` as its value for `tok`. */
  predicate GivenBy(lines: seq<string>, tok: string, x: string) {
    exists i :: 0 <= i < |lines| && DirectiveValue(lines[i], tok) == Some(x)
  }

  /** A line gives `x` exactly when it is the first line or one of the rest gives it. */
  lemma GivenBySplit(lines: seq<string>, tok: string, x: string)
    requires |lines| > 0
    ensures GivenBy(lines, tok, x) <==> DirectiveValue(lines[0], tok) == Some(x) || GivenBy(lines[1..], tok, x)
  {
    var rest := lines[1..];
    if DirectiveValue(lines[0], tok) == Some(x) {
      assert 0 <= 0 < |lines| && DirectiveValue(lines[0], tok) == Some(x);
    }
    if GivenBy(rest, tok, x) {
      var i :| 0 <= i < |rest| && DirectiveValue(rest[i], tok) == Some(x);
      assert lines[i + 1] == rest[i];
      assert 0 <= i + 1 < |lines| && DirectiveValue(lines[i + 1], tok) == Some(x);
    }
    if GivenBy(lines, tok, x) && DirectiveValue(lines[0], tok) != Some(x) {
      var i :| 0 <= i < |lines| && DirectiveValue(lines[i], tok) == Some(x);
      assert i != 0;
      assert rest[i - 1] == lines[i];
      assert 0 <= i - 1 < |rest| && DirectiveValue(rest[i - 1], tok) == Some(x);
    }
  }

  /** A pattern is collected exactly when some line gives it as its directive value. */
  lemma {:induction false} DirectivesMembers(lines: seq<string>, tok: string, x: string)
    ensures x in Directives(lines, tok) <==> GivenBy(lines, tok, x)
    decreases |lines|
  {
    if |lines| > 0 {
      var rest := lines[1..];
      DirectivesMembers(rest, tok, x);
      GivenBySplit(lines, tok, x);
      assert Directives(lines, tok) == Hits(lines[0], tok) + Directives(rest, tok);
      assert x in Hits(lines[0], tok) <==> DirectiveValue(lines[0], tok) == Some(x);
    }
  }

  /**
   * The loop over the header lines: each line can add to the includes and,
   * independently, to the excludes.
   */
  function ScanLines(lines: seq<string>, incs: seq<string>, excs: seq<string>): (seq<string>, seq<string>)
  {
    if |lines| == 0 then (incs, excs)
    else ScanLines(lines[1..], incs + Hits(lines[0], IncludeToken), excs + Hits(lines[0], ExcludeToken))
  }

  /** The single loop collects, for each token separately, exactly the lines' directive values. */
  lemma {:induction false} ScanLinesCollects(lines: seq<string>, incs: seq<string>, excs: seq<string>)
    ensures ScanLines(lines, incs, excs) == (incs + Directives(lines, IncludeToken), excs + Directives(lines, ExcludeToken))
    decreases |lines|
  {
    if |lines| > 0 {
      var hi := Hits(lines[0], IncludeToken);
      var he := Hits(lines[0], ExcludeToken);
      var rest := lines[1..];
      ScanLinesCollects(rest, incs + hi, excs + he);
      Associative(incs, hi, Directives(rest, IncludeToken));
      Associative(excs, he, Directives(rest, ExcludeToken));
    } else {
      assert incs + [] == incs && excs + [] == excs;
    }
  }

  /** The header's lines (`split("\n")`), or none when the end marker is missing. */
  function HeaderLines(data: string): seq<string> {
    match Prolog(data)
    case None => []
    case Some(p) => Split(p, '\n')
  }

  /**
   * The rule for one injected script: the includes and excludes of its
   * header, with the any-page pair standing in for an empty include list.
   */
  function FileRule(file: string, data: string): (r: InjectedScript)
    ensures r.file == file
    ensures |r.includes| > 0
  {
    var (incs, excs) := ScanLines(HeaderLines(data), [], []);
    InjectedScript(file, if |incs| == 0 then AnyPage else incs, excs)
  }

  /**
   * The rule in terms of the header lines: the include values (or the
   * any-page pair when there are none) and the exclude values, each in line order.
   */
  lemma FileRuleIsDirectives(file: string, data: string)
    ensures var lines := HeaderLines(data);
            var incs := Directives(lines, IncludeToken);
            FileRule(file, data) == InjectedScript(file, if |incs| == 0 then AnyPage else incs,
                                                   Directives(lines, ExcludeToken))
  {
    ScanLinesCollects(HeaderLines(data), [], []);
  }

  /** A script without the end marker matches any page and excludes nothing. */
  lemma NoHeaderMatchesAnyPage(file: string, data: string)
    requires !Contains(data, EndMarker)
    ensures FileRule(file, data) == InjectedScript(file, AnyPage, [])
  {
    FileRuleIsDirectives(file, data);
  }

  /**
   * An include pattern comes from a header line carrying `@include `, and
   * every such line contributes one; without such lines the pair of
   * any-page patterns is used.
   */
  lemma IncludesComeFromHeader(file: string, data: string, x: string)
    ensures var lines := HeaderLines(data);
            var hasInclude := exists i :: 0 <= i < |lines| && Contains(lines[i], IncludeToken);
            && (hasInclude ==> (x in FileRule(file, data).includes <==> GivenBy(lines, IncludeToken, x)))
            && (!hasInclude ==> FileRule(file, data).includes == AnyPage)
  {
    var lines := HeaderLines(data);
    FileRuleIsDirectives(file, data);
    var incs := Directives(lines, IncludeToken);
    DirectivesMembers(lines, IncludeToken, x);
    if exists i :: 0 <= i < |lines| && Contains(lines[i], IncludeToken) {
      var i :| 0 <= i < |lines| && Contains(lines[i], IncludeToken);
      DirectivesMembers(lines, IncludeToken, DirectiveValue(lines[i], IncludeToken).value);
    } else if |incs| > 0 {
      DirectivesMembers(lines, IncludeToken, incs[0]);
    }
  }

  /** `find` gives the same first occurrence in any text that agrees up to its end. */
  lemma FindStable(a: string, b: string, t: string)
    requires Find(a, t) >= 0
    requires Find(a, t) + |t| <= |b| && b[..Find(a, t) + |t|] == a[..Find(a, t) + |t|]
    ensures Find(b, t) == Find(a, t)
  {
    var r := Find(a, t);
    var n := r + |t|;
    assert b[r..n] == b[..n][r..n] == a[..n][r..n] == a[r..n];
    assert OccursAt(b, t, r);
    forall j | 0 <= j < r
      ensures !OccursAt(b, t, j)
    {
      assert b[j..j + |t|] == b[..n][j..j + |t|] == a[..n][j..j + |t|] == a[j..j + |t|];
      assert !OccursAt(a, t, j);
    }
  }

  /**
   * Only the header is scanned: two scripts that agree up to and including
   * the first end marker have the same rule, whatever follows it.
   */
  lemma OnlyHeaderScanned(file: string, a: string, b: string)
    requires Contains(a, EndMarker)
    requires Find(a, EndMarker) + |EndMarker| <= |b|
    requires b[..Find(a, EndMarker) + |EndMarker|] == a[..Find(a, EndMarker) + |EndMarker|]
    ensures FileRule(file, b) == FileRule(file, a)
  {
    var pos := Find(a, EndMarker);
    FindStable(a, b, EndMarker);
    assert b[..pos] == b[..pos + |EndMarker|][..pos] == a[..pos + |EndMarker|][..pos] == a[..pos];
    assert Prolog(b) == Prolog(a);
  }
}

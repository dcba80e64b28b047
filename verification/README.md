# oex2crx conversion core in Dafny

A model of the decision logic of `convertor.py`, the tool that turns an
Opera extension package (`.oex`, a zip archive with a W3C widget
`config.xml`) into a Chrome extension package (`.crx`). The model covers:

- reading the widget descriptor from `config.xml`: the `name`/`description`
  selection of `_get_best_elem`, the version clean-up, the access grants, the
  feature names, and the index and icon documents;
- the `@include`/`@exclude` header rules of injected scripts;
- the single pass over the archive entries. It routes each entry to the
  index, popup or options document, an injected script, a plain script or a
  web-accessible resource. It rewrites the three documents and collects the
  manifest's inputs;
- the non-merging branch of `_shim_wrap`. Inline scripts are moved to
  `inline_script_<type>_<n>.js` entries, and the compatibility shim is
  referenced and added to the archive unless it is already there;
- the injected-script shim, the assembled `manifest.json`, and the byte
  layout of the signed CRX version 2 package.

Zip archives are sequences of entries, and reading a name gives its last
entry, as `zipfile` does. The output archive is a sequence too, so "a shim
is written at most once" is a statement about counts. The converter's
libraries are parameters of an `Env` record:

- the `config.xml` parser;
- the html5lib parser and serialiser;
- the slimit-based `_update_scopes`;
- the JSON text of the manifest;
- the local shim files.

`convertor.py` is only partly converted to Python 3. Its `print((...))`
calls are machine-converted, and `fetch_shims` imports `urllib.request`
(convertor.py:518-520), which Python 2 does not have. The model reads the
core with Python 2 string semantics. Under Python 3, `str.encode(data, …)`
on the bytes read from the archive (convertor.py:219) and the `str + bytes`
joins of the manifest (convertor.py:275) raise `TypeError` on nearly every
archive. `fetch_shims` is outside the model, so its Python 2 `ImportError`
does not arise here.

In that reading, data read from the archive is a byte string. The model
keeps it as a `string` and does not use or enforce that its characters are
below 256. Values that `etree` gives are unicode when they are not ASCII,
and so are names of UTF-8-flagged zip entries. Text that html5lib gives back
is unicode. Three consequences shape the error cases:

- `strip()` on a byte string removes the six ASCII white-space characters.
  On the unicode text of an inline script it removes every character that
  Unicode 5.2 calls white space, such as U+00A0 (`Text.UnicodeWhitespace`).
- A conversion between the two kinds goes through the `ascii` codec.
  `str.encode(data, 'utf-8')` on a plain script first decodes it, and that
  raises `UnicodeDecodeError` for any byte of 0x80 or above (convertor.py:219).
  `writestr` of a non-ASCII unicode script text raises `UnicodeEncodeError`
  (convertor.py:395).
- The manifest is joined with `+` (convertor.py:275-299) from UTF-8 byte
  strings (the name and description) and values that may be unicode (the
  version, the content and icon `src`, and the injected-script and resource
  names). When one of the latter is not ASCII, a non-ASCII name or
  description raises `UnicodeDecodeError` at the join. Otherwise `writestr`
  of the non-ASCII unicode text raises `UnicodeEncodeError`
  (convertor.py:301).

Every exception the converter does not catch ends the run. Each one the
model covers is an `Err` of the conversion (`Results.ConvertError`), these
included.

Modules, in dependency order:

- `Results`: `Option`, `Result` and the error kinds.
- `Text`: the Python string operations the converter uses.
- `Archive`: zip archives as entry sequences.
- `Descriptor`: the `config.xml` fields.
- `UserScript`: injected-script match rules.
- `Shim`: `_shim_wrap`.
- `Manifest`: the `manifest.json` record.
- `Assembler`: the pass over the entries.
- `Conversion`: `_convert` as a whole.
- `Crx`: the signed package.

A few behaviours of the code are easy to misread; the model follows the
code in each:

- Version. The `re.sub` at convertor.py:121 discards its result. Only the
  leading and trailing dots are removed, so `"1.2.3a"` stays `"1.2.3a"`.
- Field selection. The comment at convertor.py:102 speaks of using an
  English value. In the loop of `_get_best_elem`, though, the first element
  without `xml:lang` wins and ends the scan, even when an English element
  comes before or after it. Only when there is no untagged element does
  the last element whose language contains `"en"` win.
- Options page type. The options document is wrapped with the type
  `"option"` (convertor.py:188), so its inline scripts become
  `inline_script_option_<n>.js`.
- Resource test. The resource test compares the name against the constant
  `index.html` (convertor.py:23), not against the resolved index document.
  An entry literally named `index.html` is never a resource, whatever the
  index document is.
- Copying. Every entry except `config.xml` is copied into the `.crx`
  archive, including the three documents and all scripts.

## Model

| member | source | states |
|---|---|---|
| Text.Find | convertor.py:200 | `find` gives -1 exactly when the text does not occur, and otherwise the first index where it occurs |
| Text.Trim | convertor.py:122 | `strip` gives a text with neither end in the stripped set, found in the input between a stripped prefix and a stripped suffix |
| Text.TrimIdempotent | convertor.py:122 | stripping twice is stripping once |
| Text.TrimFrom | convertor.py:208 | stripping the text after a position gives a value found at or after that position, with only stripped characters around it |
| Text.Split | convertor.py:204 | `split` gives at least one piece and no piece contains the separator |
| Text.SplitRejoins | convertor.py:204 | joining the pieces of a split with the separator gives back the text |
| Text.Decimal | convertor.py:392 | `str(n)` is a non-empty run of decimal digits that starts with `0` only for `n == 0`, so it has no leading zeros |
| Text.DecimalReads | convertor.py:392 | reading the digits of `str(n)` back gives `n` |
| Archive.Read | convertor.py:90 | reading a name gives a value exactly when the archive has an entry of that name, and the value is the data of such an entry |
| Archive.ReadIsLast | convertor.py:170 | reading a repeated name gives the data of its last entry |
| Archive.ReadUnshadowed | convertor.py:395 | an entry that no later entry of the same name shadows is what reading its name gives |
| Archive.ReadAppend | convertor.py:234 | after a write, reading its name gives the written data and every other name reads as before |
| Archive.PutIfAbsent | convertor.py:245-252 | writing a name only when the archive lacks it leaves the name present, with count one and the new data where it was absent, count and data unchanged where it was present, and the earlier entries untouched |
| Archive.PutIfAbsentOthers | convertor.py:403-406 | the insert-if-absent write leaves every other name's count and data alone |
| Descriptor.BestElem | convertor.py:95-113 | the selected `name`/`description` is never empty, and its only failure is the `MissingText` error for that tag |
| Descriptor.SelectionFails | convertor.py:103-110 | selection fails exactly when the scan reaches a chosen element that has no text |
| Descriptor.FirstUntaggedWins | convertor.py:103-110 | when an element lacks `xml:lang`, the first such element's text is the field, or the placeholder when it is empty |
| Descriptor.LastEnglishWins | convertor.py:103-107 | when every element is tagged, the last element whose language contains "en" gives the field |
| Descriptor.NoCandidateGivesPlaceholder | convertor.py:111-112 | with no untagged and no English element the field is "No <tag> found in config.xml." |
| Descriptor.NormalizeVersion | convertor.py:116-124 | an absent version is "1.0.0.1"; a present one loses only its leading and trailing dots, and the result neither starts nor ends with a dot |
| Descriptor.VersionIdempotent | convertor.py:116-124 | normalising a normalised version changes nothing |
| Descriptor.VersionKeepsLetters | convertor.py:121-122 | the discarded `re.sub` leaves "1.2.3a" as it is |
| Descriptor.AccessGrants | convertor.py:129-135 | one `[origin, subdomains]` grant per `access` element in document order, "false" for a missing `subdomains`; a missing `origin` is an error |
| Descriptor.FeatureNames | convertor.py:137-140 | one name per `feature` element in document order; a missing `name` is an error |
| Descriptor.ParseDescriptor | convertor.py:95-151 | the descriptor exists exactly when both selections succeed and every access and feature element has its attribute; then its name and description are the selected texts, its version the cleaned-up attribute, its grants those of the `access` elements, its index document the first `content`'s `src` or "index.html", and its icon the first `icon`'s `src` |
| UserScript.Prolog | convertor.py:200-202 | the header exists exactly when the end marker occurs, and is the text before its first occurrence |
| UserScript.DirectiveValue | convertor.py:206-213 | a line gives a value exactly when it contains the token; the value is found after the token's first occurrence with only white space around it, and is itself stripped |
| UserScript.DirectivesMembers | convertor.py:205-213 | a pattern is collected exactly when some header line gives it |
| UserScript.ScanLinesCollects | convertor.py:205-213 | the one loop over the lines collects the include values and the exclude values independently, each in line order |
| UserScript.FileRule | convertor.py:215-217 | a rule keeps its file name and always has at least one include |
| UserScript.FileRuleIsDirectives | convertor.py:200-217 | the rule's includes are the header's include values, or the any-page pair when there are none, and its excludes are the exclude values |
| UserScript.NoHeaderMatchesAnyPage | convertor.py:200-217 | a script without the end marker matches `http://*/*` and `https://*/*` and excludes nothing |
| UserScript.IncludesComeFromHeader | convertor.py:205-216 | with an `@include ` line, a pattern is an include exactly when a header line gives it; without one, the includes are the any-page pair |
| UserScript.OnlyHeaderScanned | convertor.py:200-204 | two scripts that agree up to the end marker have the same rule, whatever follows the marker |
| Shim.ShimFor | convertor.py:397-419 | each document kind references a shim path, and only the index document gets the background shim |
| Shim.ReservedNamesAreNotInline | convertor.py:28-32 | shim paths and `config.xml` never look like externalised inline scripts |
| Shim.InlineName | convertor.py:392 | externalised scripts are named with the `inline_script_` prefix |
| Shim.InlineNameInjective | convertor.py:392 | two externalised-script names are equal only for the same document type and the same number |
| Shim.RenameInline | convertor.py:381-395 | the rename fails exactly when some inline script has no child node or has a non-blank text that is not ASCII, and then with the error of the first such script; otherwise every script keeps its place and the archive only gains one entry per non-blank inline script |
| Shim.FirstFailureIsFirst | convertor.py:384-395 | the loop stops with the error of the first script, in document order, that fails |
| Shim.RenameInlineCounts | convertor.py:395 | the rename writes no name outside the inline-script prefix |
| Shim.RenameInlineEntries | convertor.py:390-395 | the `j`th added entry is `inline_script_<type>_<j+1>.js` holding the `j`th non-blank script's stripped text |
| Shim.RenameInlineReplaces | convertor.py:389-394 | a non-blank inline script is replaced by a child-less script whose `src` is numbered one past the non-blank scripts before it |
| Shim.RenameInlineKeeps | convertor.py:384-389 | scripts with a `src`, and blank inline scripts, are left as they were |
| Shim.RenameInlineKeepsText | convertor.py:388-395 | reading a replacement's `src` in the new archive gives the replaced script's stripped text |
| Shim.ExternalisedIffVisible | convertor.py:388-389 | an inline script with a child is moved out exactly when its text holds a character that is not Unicode white space |
| Shim.NoBreakSpacesStay | convertor.py:388-389 | a script of no-break spaces is blank to `unicode.strip()` and stays in place |
| Shim.AddShim | convertor.py:397-439 | the shim reference becomes the first script of the document; the shim is written only when the archive lacks it, so its count is one where it was absent |
| Shim.ShimWrap | convertor.py:351-419 | wrapping succeeds exactly when no inline script fails and the kind's shim file is at hand; the kind's shim is then referenced first and present at most once where it was absent |
| Shim.ShimWrapCounts | convertor.py:380-419 | apart from inline-script entries and the kind's shim, wrapping writes nothing |
| Manifest.ContentBlocks | convertor.py:285-287 | one content-script block per injected script, in discovery order |
| Manifest.UnlessEmpty | convertor.py:292-295 | a list key is present exactly when its list is non-empty, and then holds the list |
| Manifest.Build | convertor.py:274-298 | the fixed keys always appear; the popup, options, content-script and resource keys appear exactly when their inputs say so; each content-script block runs the injected-script shim and then its file at `document_start` in all frames |
| Manifest.BuiltScriptsAreInjected | convertor.py:285-288 | every content-script block starts with the injected-script shim, and a file has a block exactly when it is an injected script |
| Manifest.BuiltReferences | convertor.py:274-298 | the manifest refers exactly to the background page, the icon, the converted popup and options documents, the injected-script shim, the injected scripts and the resources |
| Assembler.RouteCharacterised | convertor.py:175-225 | each branch of the dispatch is described on its own: the index test first, `popup.html` and `options.html` only when they are not the index, `includes/*.js`, other `.js`, then anything not in the excluded list |
| Assembler.ReadyWrap | convertor.py:223 | a plain script is wrapped between the fixed `opera.isReady` opening and closing |
| Assembler.ReadyUnwrap | convertor.py:223 | the wrapped script's middle is the script |
| Assembler.DataOf | convertor.py:170 | each iteration's data is what reading the entry's name gives |
| Assembler.StepSucceeds | convertor.py:175-223 | one iteration fails exactly on a document that cannot be converted or a plain script that is not ASCII |
| Assembler.StepGathers | convertor.py:181-225 | one iteration sets the popup/options flags and appends to the injected and resource lists as its route says |
| Assembler.EmitOut | convertor.py:232-236 | the write at the end of an iteration adds exactly one entry under the entry's name, except for `config.xml` |
| Assembler.StepOut | convertor.py:175-236 | one iteration only appends; among the names the converter does not generate it adds exactly one entry, under the entry's own name unless that is `config.xml`; a converted document leaves its shim present |
| Assembler.StepShim | convertor.py:403-419 | one iteration leaves at most one entry of a shim path that was absent |
| Assembler.RoutedMembers | convertor.py:218-225 | a name is listed for a branch exactly when it is in the archive and routed there |
| Assembler.PassSucceeds | convertor.py:168-236 | the pass succeeds exactly when every document entry can be converted and every plain script is ASCII |
| Assembler.PassFlags | convertor.py:181-188 | `has_popup` holds exactly when an entry `popup.html` exists and is not the index document; `has_option` likewise for `options.html` |
| Assembler.PassLists | convertor.py:189-225 | the resources are, in archive order, the entries routed to the resource branch; the injected scripts are the rules of the `includes/*.js` entries, in archive order |
| Assembler.PassCounts | convertor.py:232-236 | every name the converter does not generate is written as often as the archive holds it, and `config.xml` never |
| Assembler.PassShimOnce | convertor.py:403-406 | a shim path absent from the source appears at most once in the output |
| Assembler.ShimWrittenTwice | convertor.py:168-236 | an index page followed by the source's own copy of the background shim leaves that path twice in the output |
| Assembler.PassShimPresent | convertor.py:397-419 | every converted document has its shim in the output |
| Assembler.PassGrows | convertor.py:168-236 | the pass only appends to the output |
| Assembler.PassKeepsRead | convertor.py:232-236 | iterations for other entries leave what reading a name gives unchanged |
| Assembler.PassWrites | convertor.py:232 | every entry except `config.xml` is written under its own name |
| Assembler.PassCopies | convertor.py:218-236 | a copied entry reads back as the source's data, scope-fixed and wrapped when it is a plain script |
| Conversion.Describe | convertor.py:90-92 | a missing `config.xml` and an unparsable one are distinct errors; otherwise the result is exactly the descriptor read from the parsed tree |
| Conversion.AddInjectedShim | convertor.py:245-252 | the injected-script shim is written only when the output lacks it, from the local file, whose absence is fatal |
| Conversion.AddInjectedShimOthers | convertor.py:245-252 | adding the injected-script shim touches no other name |
| Conversion.Convert | convertor.py:81-301 | `manifest.json` is the last entry written, after the descriptor read and the pass, and only when every manifest piece that would be unicode is ASCII |
| Conversion.ConvertManifestFails | convertor.py:275-301 | after a successful pass, a non-ASCII unicode piece stops the run with a decode error when the name or description is not ASCII, and with an encode error otherwise |
| Conversion.PiecesAsciiFromSource | convertor.py:181-236 | the injected-script and resource names the pass reports are all ASCII exactly when the source entries routed to those branches have ASCII names |
| Conversion.FixedNames | convertor.py:23-32 | `config.xml`, `manifest.json` and the injected-script shim are distinct and none is a generated name |
| Conversion.PassFindsInjected | convertor.py:189-190 | injected scripts are found exactly when some entry is an `includes/*.js` entry |
| Conversion.ConvertSucceeds | convertor.py:88-301 | the conversion succeeds exactly when the descriptor can be read, every document can be converted, every plain script is ASCII, the injected-script shim is at hand whenever an injected script exists, and the version, content and icon `src`, and injected-script and resource names are ASCII |
| Conversion.ConvertCounts | convertor.py:232-301 | every name the converter does not generate keeps its count from the source, `config.xml` is dropped, `manifest.json` gains one entry, and reading it gives the manifest's text |
| Conversion.ConvertShimOnce | convertor.py:245-252 | a shim path absent from the source appears at most once in the `.crx` archive |
| Conversion.ConvertManifest | convertor.py:274-298 | in terms of the source archive: popup and options keys exactly when those entries exist and are not the index, content scripts exactly when an injected script exists, and resources exactly as routed |
| Conversion.ConvertContentScripts | convertor.py:282-288 | block `j` runs the shim and the `j`th `includes/*.js` entry, with that entry's header rules |
| Conversion.PassWritesReported | convertor.py:232 | every document, injected script and resource the pass reports is in its output |
| Conversion.ConvertPackagesReferences | convertor.py:274-301 | every file the manifest refers to, apart from the background page and the icon, is in the `.crx` archive |
| Conversion.ConvertCopies | convertor.py:218-236 | a copied entry reads back from the `.crx` archive as the source's data, scope-fixed and wrapped when a plain script |
| Crx.ReadU32 | convertor.py:494-495 | four little-endian bytes give a number below 2^32 |
| Crx.PackU32 | convertor.py:494-495 | `struct.pack("<L", n)` exists exactly when `n < 2^32` and reads back as `n` |
| Crx.PackRead | convertor.py:494-495 | packing a read length gives the same four bytes |
| Crx.SignedPackage | convertor.py:35 | the package exists exactly when both lengths fit in 32 bits, starts with `43 72 32 34 02 00 00 00`, and is 16 bytes longer than key, signature and archive together |
| Crx.ParsePackage | convertor.py:494-496 | a parsed package starts with the header and splits into the declared key and signature lengths and the archive |
| Crx.ParseSigned | convertor.py:494-496 | taking a signed package apart gives back the key, the signature and the archive |
| Crx.SignParsed | convertor.py:494-496 | every well-formed package is the signed package of its own parts |

## Left out

- Conversion.ConvertSucceeds: it assumes that a zip entry name is unicode exactly when it is not ASCII, which holds when UTF-8-flagged entries are the non-ASCII ones, as Python's `zipfile` writes them. An ASCII name that an archiver flagged anyway is unicode too. Joined with a non-ASCII name or description, it raises a `UnicodeDecodeError` that the model does not give. A non-ASCII name without the flag is a byte string. The source then fails only when another piece is non-ASCII unicode, whereas the model always gives an error for it.
- Zip I/O is not modelled (`readoex`, `convert`, `extractall`, closing the archives, the `UnicodeEncodeError` re-encoding fallback at convertor.py:233-236). Data is text and written as it is.
- `_update_scopes` is a parameter (`Env.updateScopes`), because it depends on the slimit JS parser and the `ASTWalker` module, which are not part of this model. Only the `opera.isReady` wrapper is modelled.
- html5lib parsing, DOM mutation and serialisation are parameters. A document is its script elements plus an uninterpreted remainder, and the `head` lookup is not modelled: the shim reference is placed first in the script list.
- The `merge_scripts` branches of `_convert` and `_shim_wrap` are dead code, because the flag is hard-coded to `False`.
- The `inlinescrdata` block is dead: the variable is always empty.
- The global `includes`, `excludes`, `matches`, `discards` and `inj_scripts` strings are left out. They never reach the manifest.
- The JSON text of the manifest is a parameter (`Env.renderManifest`). Its consequences are not modelled: Python list `repr` in `matches`, and unescaped quotes in names.
- `signcrx`'s openssl subprocesses, password prompt, file opening and unlinking are I/O and are left out. The key and signature are inputs of `Crx.SignedPackage`. Its `None` stands for the caught `struct.error`. The file effects of that failure are not modelled: `.signed.crx` is already open at convertor.py:493, so an empty one stays behind, and the unlinks at convertor.py:501-502 are skipped, leaving `pubkey.der` and `.sig` too.
- `_get_shim_data` reads a file and exits with code 4 on failure. It is modelled as a lookup in `Env.shimFiles`, with the failure as an `Err`.
- Exit codes are not modelled.
- The `IOError` of the injected-script shim open at convertor.py:248 is modelled as `ShimUnreadable`. The `if injfh` else branch cannot happen.
- Partial writes before a fatal error are not modelled: an `Err` carries no archive.
- Assembler.PassShimOnce: the at-most-once bound on a shim path holds only when the source archive has no entry of that path. An `.oex` that carries its own shim file gets it written twice (`Assembler.ShimWrittenTwice`).
- Conversion.ConvertShimOnce: the same condition applies to the `.crx` archive.
- `fetch_shims` (HTTP downloads with password prompts), `main`, argparse and the `debug` flag are I/O and configuration.
- The `root.find("[@version]")` and `[@id]` lookups are the presence of an attribute in `Config`. XML namespaces and the `etree` parser are a parameter (`Env.parseConfig`).

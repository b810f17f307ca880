# grunt-saxicon: a Dafny model of the icon string pipeline

grunt-saxicon is a Grunt task that reads a directory of SVG icons and turns
each icon into a "template". A template is a data URI
(`data:image/svg+xml,...`) cut into segments at every colour marker
`__saxicon__`, so that a stylesheet can later splice a colour into each gap.
This project models, in Dafny, the parts of `tasks/saxicon.js` that do real
work:

- **Template encoder** (`Template`, built on `Escape` and `JsStrings`). It takes
  the text the XML builder produced. Every `"` becomes `'`. Every character
  outside the class [space, `-`, `.`, digits, ASCII letters, `_`] goes through
  JavaScript's `escape` (Annex B.2.1.1 of ECMAScript 2015): `@*+/` stay as they
  are, other characters below 256 become `%XX`, other code units become
  `%uXXXX`. The prefix is then put in front and the result is split on the marker.
- **Dimension extraction** (`Dimensions`). The root's `viewBox` attribute is
  split on single spaces. Fields 2 and 3 (counting from 0) are the width and
  height. They stay strings, and a missing field is `undefined`.
- **Icon map** (`Glob`). `globSVGFiles` is a method with a loop. It folds the
  glob's file names into a map from `iconName(file)` to `path.join(dir, file)`.
  A later duplicate silently replaces an earlier one.
- **Default callbacks and option checks** (`Naming`, `Task`). The default
  `iconName` strips one trailing `.svg`. The default `fileName` gives
  `icon.colour.svg`. The task body checks its options and warns on the first
  one that fails.

JavaScript strings are UTF-16 code units, and the escape pattern has no `u`
flag. So a character above U+FFFF is escaped as its two surrogates
(`%uD83D%uDE00`), and `Escape.EscapeChar` writes exactly that. The inverse of
the encoder is `Escape.Decode`, a percent-decoder in the manner of `unescape`.
It is proved to undo the escaping, so the encoder loses no information. The split is proved to commute with any character-wise rewriting
that leaves the marker's characters alone and never produces them
(`JsStrings.SplitMapChars`). Together with `JsStrings.SplitAfterPrefix`, this
shows that the template is simply the builder text cut at its markers, with
each piece encoded and the prefix in front of the first piece.

The code does less than a tool of this kind might be expected to do:

- The code reads only `viewBox`. It takes no `width`/`height` attributes and
  does no numeric parsing.
- The code raises no error for duplicate icon names.
- The code performs no colour substitution: `traverse` is empty.
- With exactly three viewBox fields, the code defines the width but not the
  height.

## Model

| member | source | states |
|---|---|---|
| `JsStrings.Split` | tasks/saxicon.js:54 | `split` on a string separator always yields at least one piece |
| `JsStrings.JoinSplit` | tasks/saxicon.js:54 | joining the pieces of a split with the same separator gives back exactly the original string |
| `JsStrings.SplitCount` | tasks/saxicon.js:54 | a split has one piece more than the separator has leftmost non-overlapping occurrences |
| `JsStrings.SplitFirstPiece` | tasks/saxicon.js:54 | the cut is made at the leftmost occurrence: the first piece is the text before it, and the other pieces are the split of the text after it |
| `JsStrings.SplitFree` | tasks/saxicon.js:54 | text that holds no occurrence of the separator is split into one piece, itself |
| `JsStrings.SplitOverlapping` | tasks/saxicon.js:54 | a separator that overlaps itself is cut at its leftmost occurrence: "aaa" split on "aa" gives "" and "a" |
| `JsStrings.SplitPiecesFree` | tasks/saxicon.js:54 | no piece of a split contains the separator |
| `JsStrings.SplitMapChars` | tasks/saxicon.js:54 | splitting a character-wise rewritten text that keeps the separator's characters and never produces them gives the rewritten pieces of the original split |
| `JsStrings.SplitAfterPrefix` | tasks/saxicon.js:54 | a prefix in which the separator cannot start is attached to the first piece and changes no other piece |
| `JsStrings.SplitJoinChar` | tasks/saxicon.js:48 | fields without the separator character, joined by it and split again, are given back unchanged |
| `JsStrings.SplitCountChar` | tasks/saxicon.js:48 | splitting on one character gives one more field than that character's count |
| `Escape.EscapeChar` | tasks/saxicon.js:54 | `escape` copies a character exactly when it is an ASCII letter, a digit or one of "@*_+-./"; otherwise it writes a '%' escape of 3 characters below U+0100, 6 below U+10000, and 12 (two surrogates) above that |
| `Escape.EscapeText` | tasks/saxicon.js:54 | the replace with `escape` never shortens the text; `Escape.DecodeEscapeText` proves it lossless |
| `Escape.EscapeTextSpec` | tasks/saxicon.js:54 | escaping works character by character (it distributes over concatenation) and leaves text made of safe characters unchanged |
| `Escape.EncodeCharShape` | tasks/saxicon.js:54 | a safe character is copied; any other character becomes a non-empty escape made only of '%', 'u', upper-case hex digits and "@*+/" |
| `Escape.EscapeTextAlphabet` | tasks/saxicon.js:54 | escaped text holds only safe characters, '%' and "@*+/" |
| `Escape.DecodeEncodeChar` | tasks/saxicon.js:54 | the `%XX`, `%uXXXX` or surrogate-pair escape of a character decodes back to that character, whatever follows |
| `Escape.DecodeEscapeText` | tasks/saxicon.js:54 | percent-decoding the escaped text gives the text back, so escaping is lossless |
| `Template.SwapQuotes` | tasks/saxicon.js:51 | the quote swap keeps the length; `Template.SwapQuotesSpec` gives it character by character |
| `Template.Encode` | tasks/saxicon.js:51-54 | quote swap then escaping never shortens the markup |
| `Template.EncodeTemplate` | tasks/saxicon.js:54 | the template of any builder output has at least one segment |
| `Template.SwapQuotesSpec` | tasks/saxicon.js:51 | the quote swap keeps the length, turns each '"' into '\'', leaves every other character in place, and leaves no '"' |
| `Template.TemplatePieces` | tasks/saxicon.js:54 | the template is the builder text cut at its `__saxicon__` markers, with each piece quote-swapped and escaped and the data-URI prefix in front of the first piece |
| `Template.SegmentCount` | tasks/saxicon.js:54 | the segment count is one more than the number of markers in the builder text, before or after the quote swap |
| `Template.JoinSegments` | tasks/saxicon.js:54 | joining the segments with the marker gives back exactly the prefix plus the escaped, quote-swapped text |
| `Template.FirstSegmentPrefix` | tasks/saxicon.js:15 | the first segment begins with `data:image/svg+xml,` |
| `Template.SegmentsAlphabet` | tasks/saxicon.js:54 | no segment contains the marker or a '"'; after the prefix, segments use only the escaped alphabet |
| `Template.DecodeTemplate` | tasks/saxicon.js:51-54 | decoding the joined template after its prefix gives back the quote-swapped builder text |
| `Dimensions.ReadSize` | tasks/saxicon.js:48-50 | reading the size throws a TypeError exactly when the root has no attributes or no `viewBox` |
| `Dimensions.SizeOfFields` | tasks/saxicon.js:48-50 | a viewBox of four or more space-free fields joined by single spaces gives its third and fourth fields, unparsed, as width and height |
| `Dimensions.SizePresence` | tasks/saxicon.js:49-50 | the width is defined exactly when the viewBox holds at least two spaces, and the height exactly when it holds at least three |
| `Dimensions.IgnoresWidthAndHeight` | tasks/saxicon.js:48 | `width` and `height` attributes do not change the result |
| `Dimensions.SquareViewBox` | tasks/saxicon.js:48-50 | `viewBox="0 0 40 40"` gives width "40" and height "40" |
| `Naming.DefaultIconName` | tasks/saxicon.js:82 | the default icon name is never longer than the file name |
| `Naming.StripsOneExtension` | tasks/saxicon.js:82 | a name without line breaks, with ".svg" appended, gives back exactly that name |
| `Naming.KeepsOtherNames` | tasks/saxicon.js:82 | a file name that does not end in ".svg" is returned unchanged |
| `Naming.DoubleExtension` | tasks/saxicon.js:82 | only the last ".svg" is removed: "a.svg.svg" gives "a.svg" |
| `Naming.DefaultFileName` | tasks/saxicon.js:86 | the default variant file name is the icon name and colour name plus five characters (`.` and `.svg`) |
| `Naming.DefaultVariantName` | test/saxicon_test.js:75 | with both defaults, source `base.svg` and colour `color` give the output file `base.color.svg` |
| `Naming.VariantNameRoundTrip` | tasks/saxicon.js:82-86 | the default `iconName` applied to a default variant file name gives back `icon.colour` |
| `Naming.DefaultFileNameInjective` | tasks/saxicon.js:86 | for colour names without '.', distinct (icon, colour) pairs get distinct default file names |
| `Glob.IconMap` | tasks/saxicon.js:64-73 | the icon map has at most one entry per file and never a "__proto__" entry |
| `Glob.GlobSvgFiles` | tasks/saxicon.js:64-73 | the loop calls the naming callback once per file in glob order and returns the left fold `IconMap` of those entries |
| `Glob.IconMapKeys` | tasks/saxicon.js:69-70 | the keys are exactly the callback's results over the files, apart from "__proto__" |
| `Glob.IconMapLastWins` | tasks/saxicon.js:68-71 | each name maps to `path.join(dir, f)` for the last file `f` with that name; earlier duplicates are overwritten and no error is raised |
| `Glob.IconMapSize` | tasks/saxicon.js:64-73 | pairwise distinct names, none of them "__proto__", give exactly one entry per file |
| `Glob.IconMapEmpty` | tasks/saxicon.js:64-73 | the map is empty exactly when every file's name is "__proto__", and in particular when the glob found nothing |
| `Task.LengthProperty` | tasks/saxicon.js:103 | `svgFiles.length` on the icon object is never a number |
| `Task.LengthIsZero` | tasks/saxicon.js:103 | `svgFiles.length === 0` as written never holds |
| `Task.EmptySourceNotReported` | tasks/saxicon.js:103-105 | as written, the "no SVG files" check does not fire for an empty source directory |
| `Task.NoIconsExactly` | tasks/saxicon.js:103-105 | the intended emptiness check fires exactly when the icon map is empty, so always for an empty directory |
| `Task.RunTask` | tasks/saxicon.js:91-105 | as written: the outcome is the first failing check, in source order: `iconName` not a function, `svgs` null or undefined (TypeError), `fileName` not a function, `source` not a string; the "no SVG files" warning never happens, and valid options always give the icon map of `globSVGFiles` |
| `Task.RunTaskIntended` | tasks/saxicon.js:91-105 | corrected: the same checks in the same order, then the "no SVG files" warning exactly when the icon map is empty; a first file with a usable name always gives the icon map |
| `Task.DefaultsGlob` | tasks/saxicon.js:80-101 | when only `source` is configured, all checks pass and `base.svg` is listed under `base` unless a later file has the same name |

## Left out

- The xml2js `Parser` and `Builder` (tasks/saxicon.js:23-33, 46, 51) are a foreign library. The model takes two inputs instead: the builder's output text and the root element's attribute map.
- `traverse` (tasks/saxicon.js:35-37) is an empty function. No colour is ever replaced by the marker, so markers occur only where `__saxicon__` already appears in the text. The composed `parseSVG` is not modelled: it passes `traverse`'s `undefined` on and would throw at line 48.
- `Dimensions.ReadSize` takes the attribute map of an `svg` root. Line 48 reads `xml.svg`, so a root element that is not `<svg>` also throws a TypeError, whatever its attributes; that case is not modelled.
- How an exception thrown inside the parser callback reaches the caller is xml2js behaviour. `Dimensions.ReadSize` only says that line 48 throws.
- `grunt.file.read` and `grunt.file.expand` are file I/O. The glob result is a given sequence of names in glob order; the `*.svg` pattern and the dot-file rule are not modelled.
- `path.join` is an uninterpreted function parameter.
- `grunt.fail.warn` is modelled as stopping at the first warning. Running with `--force`, where the task goes on after a warning, is not modelled.
- `this.async()` and `registerMultiTask` are task-runner plumbing. The task never calls the `done` function it obtains, and that is not modelled.
- Grunt's merge of the task defaults with the user configuration is not modelled. `Task.RunTask` takes the merged options, and `Task.OnlySource` gives them for a configuration that sets only `source`.
- The naming callbacks are Dafny functions: pure, total and returning strings. A JavaScript callback that throws, has side effects or returns a non-string is not modelled.
- Lone surrogates cannot be held in a Dafny string. A surrogate pair is escaped exactly, but a JavaScript string with an unpaired surrogate is outside the model.
- `Escape.Decode` is the decoder used to show that escaping is lossless. It is not part of the source. Unlike `unescape`, it keeps a `%u` escape of a lone surrogate as literal text.
- Colour materialisation, automatic colour naming, JSON/SCSS/per-colour SVG output and Sass compilation have no implementation in tasks/saxicon.js. They appear only in tests and configuration, so they are not modelled.

## Findings

| source | as written | input that shows it | evidently intended | confidence | as-written member | corrected member |
|---|---|---|---|---|---|---|
| tasks/saxicon.js:103 | `svgFiles.length === 0` reads `length` from the plain object `globSVGFiles` returns. That is `undefined`, or a path string for an icon named "length", and never the number 0 | a source directory with no `*.svg` file: the glob gives `[]`, `globSVGFiles` gives `{}`, and `{}.length === 0` is false, so no warning | warn "source did not contain any SVG files" when the icon map has no entry | high (not executed) | `Task.EmptySourceNotReported` | `Task.NoIconsExactly` |

`Task.RunTask` runs the check as written. `Task.RunTaskIntended` runs the corrected check, as proved in `Task.NoIconsExactly`.

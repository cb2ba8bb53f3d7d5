# colorust: the Kdenlive-to-ffmpeg filter conversion, in Dafny

colorust converts the colour filters of a Kdenlive project into ffmpeg text. This project models that conversion.

The conversion has three parts:

- **The filter model** (`ffmpeg.dfy`, module `Ffmpeg`).
  - There are seven colour filters: Exposure, Lut, Scale, Eq, Colortemp, ColorBalance and Custom. They form one closed datatype, and each variant carries its `is_active` flag.
  - `Render` is `to_filter_string`.
  - `Parse` and `Recognise` are the `TryFrom<&Node>` parsers. They cover the four kinds Kdenlive writes: `avfilter.lut3d`, `avfilter.eq`, `avfilter.exposure` and `avfilter.colortemperature`.
  - The `...Args` functions are the `to_option_args` of the command-line options.
- **The filtergraph compiler** (`mlt_property.dfy` and `mlt.dfy`, modules `MltProperty` and `Mlt`).
  - `GetPropertyValue` is the typed lookup of an MLT `<property>`, with the keyframe time stamp removed.
  - `UrlFromProducer` resolves an entry's producer or chain to its media URL.
  - The method `GetFilterStrings` walks the playlist entries. It fills the map from URL to joined filter string, as the source does with a `HashMap`.
- **The line rewriter** (`mlt_rewrite.dfy`, module `MltRewrite`).
  - The method `AddFiltergraphToProducers` walks the lines of the document text. It drops old `filtergraph` lines when asked to. Before each `originalurl` or `resource` property line whose URL has a filter string, it puts a new `filtergraph` line.
  - `CaptureValue` is the value group of the regular expression at src/mlt.rs:95. It is written out as an explicit search: the text after the last `">` that still has a `</property>` after it, up to the last `</property>`.

Supporting modules:

- `Xml` is the parsed document tree, which stands in for roxmltree.
- `Strings` holds the Rust string calls the code relies on: `contains`, `find`, `lines`, `join`, and the integer `FromStr` and `Display`. It also holds two tools of the model that the code does not call: a last-occurrence search (`LastIndexOf`), used to write out the greedy regular-expression match, and `Split`, used to state that the `-vf` value splits back into the filter texts.
- `Wrappers` holds `Option`.

`f32` parsing and printing are never reimplemented. A `Floats` value carries the two functions, and the lemmas that need particular texts ask for them in `requires`.

Behaviour worth noting:

- The new `filtergraph` line goes *before* the matched media line, not after it (src/mlt.rs:114-120).
- The rewriter inserts one line per matching property line, not one per producer. A producer with both an `originalurl` line and a `resource` line that name a key gets two lines (`MltRewrite.TwoInsertions`).
- An entry without a `producer` attribute, or whose URL cannot be resolved, is not skipped: `get_filter_strings` panics (src/mlt.rs:33, src/mlt.rs:58). The same goes for a producer or chain without an `id` met before the match (src/mlt.rs:72). These conditions are preconditions here (`Mlt.AllCompile`, `Mlt.IdsPresentUntil`).
- The output lines are joined with `\n`. Carriage returns before line feeds are removed, and a final line break or final blank line is lost (`MltRewrite.BlankLastLineLost`).

## Model

| member | source | states |
|---|---|---|
| MltProperty.FirstPropertyIn | src/mlt.rs:9-10 | the index found is the first node that is a `property` element whose `name` attribute equals the name exactly; None exactly when there is none |
| MltProperty.StripTimestamp | src/mlt.rs:14-18 | a value without `=` is kept whole; otherwise the result is the text after the first `=`, and the part before it holds no `=` |
| MltProperty.StripAtFirstEquals | src/mlt.rs:15 | `stamp=rest` with no `=` in the stamp reads as `rest`, even when `rest` holds more `=` (`a=b=c` gives `b=c`) |
| MltProperty.GetPropertyValue | src/mlt.rs:8-22 | `get_property_value`: the first `property` descendant with the name, its text with the time stamp removed, then parsed (stated by `GetPropertyValueSpec` and `GetPropertyValueAt`) |
| MltProperty.PropertyText | src/mlt.rs:8-22 | `get_property_value::<String>`, whose parse never fails |
| MltProperty.GetPropertyValueSpec | src/mlt.rs:8-22 | a value comes only from the first `property` descendant in document order with that name, and only when it has text; no such property gives None |
| MltProperty.GetPropertyValueAt | src/mlt.rs:9-19 | the converse: given the first `property` descendant with the name, the lookup is its text, time stamp removed, then parsed, and None when it has no text |
| MltProperty.TimestampedReadsAsBare | src/mlt.rs:13-18 | a property whose text is `stamp=v` reads as `v` parsed (`00:00:00.000=0` reads as 0) |
| MltProperty.FlatElementProperty | src/mlt.rs:8-22 | in a filter element whose children are leaf properties, the lookup is the first pair with that name; empty content (no text) gives None |
| MltProperty.WrappedProperty | src/mlt.rs:9 | the descendants begin with the node itself: a non-property element with one child answers every lookup as the child does |
| Ffmpeg.Default | src/ffmpeg.rs:311-319 | each filter's `Default` has its own kind and is inactive; the field values are pinned by the texts in `RenderLutText`, `RenderEqText` and `RenderColortempText` |
| Ffmpeg.DefaultsAddNoOption | src/ffmpeg.rs:43-45 | a list of filters in their default state adds no `-vf` option |
| Ffmpeg.Render | src/ffmpeg.rs:255-256 | every filter except Custom renders to non-empty text |
| Ffmpeg.RenderStartsWithName | src/ffmpeg.rs:255-256 | every non-custom rendering starts with its ffmpeg filter name and `=`, and the name holds no `=` |
| Ffmpeg.RenderIgnoresActivity | src/ffmpeg.rs:255-256 | the rendering does not depend on `is_active` |
| Ffmpeg.RenderExposureText | src/ffmpeg.rs:256 | the default Exposure renders as `exposure=exposure=0:black=0` |
| Ffmpeg.RenderLutText | src/ffmpeg.rs:311-325 | the default Lut renders as `lut3d=file=:interp=tetrahedral`: no file, `tetrahedral` interpolation |
| Ffmpeg.RenderScaleText | src/ffmpeg.rs:388 | example: a 1920 by 1080 Scale renders as `scale=1920:1080` |
| Ffmpeg.ScaleReadsBack | src/ffmpeg.rs:388 | every Scale renders as `scale=` then two parts separated by `:`, which parse back as the width and the height |
| Ffmpeg.RenderEqText | src/ffmpeg.rs:444-455 | example: the default Eq renders all seven keys in the order contrast, brightness, saturation, gamma, gamma_r, gamma_g, gamma_b, with the default values 1, 0, 1, 1, 1, 1, 1 |
| Ffmpeg.RenderColortempText | src/ffmpeg.rs:561 | the default Colortemp renders as `colortemperature=temperature=6500:pl=1` |
| Ffmpeg.RenderColorBalanceText | src/ffmpeg.rs:621-634 | example: an all-zero ColorBalance renders its nine keys rs to bh in order, whatever `preserve_lightness` is |
| Ffmpeg.ColorBalanceIgnoresLightness | src/ffmpeg.rs:621-634 | for every ColorBalance, the text is the same whatever `preserve_lightness` is |
| Ffmpeg.RenderCustomText | src/ffmpeg.rs:708-710 | a Custom filter renders as its expression, verbatim |
| Ffmpeg.TemperatureRoundTrip | src/ffmpeg.rs:594 | every `u32` temperature written in decimal parses back as itself |
| Ffmpeg.TemperatureOutOfRange | src/ffmpeg.rs:594 | a decimal number past the `u32` range is refused, not wrapped |
| Ffmpeg.ParseExposure | src/ffmpeg.rs:285-302 | Some exactly when `mlt_service` is `avfilter.exposure` and `av.exposure` and `av.black` both parse; the fields are those values, and the filter is active unless `disable` is 1 |
| Ffmpeg.ParseLut | src/ffmpeg.rs:328-345 | Some exactly when `mlt_service` is `avfilter.lut3d` and `av.file` and `av.interp` are present; the fields are their texts, and the filter is active unless `disable` is 1 |
| Ffmpeg.ParseEq | src/ffmpeg.rs:514-541 | Some exactly when `mlt_service` is `avfilter.eq` and all seven `av.*` levels parse; each field is its property's value, and the filter is active unless `disable` is 1 |
| Ffmpeg.ParseColortemp | src/ffmpeg.rs:586-602 | Some exactly when `mlt_service` is `avfilter.colortemperature` and `av.temperature` parses as a `u32`; the field is that value, and the filter is active unless `disable` is 1 |
| Ffmpeg.Parse | src/ffmpeg.rs:289-291 | a parser succeeds only on an element whose `mlt_service` is its own identifier; the result is of that service and active exactly when not disabled |
| Ffmpeg.DisabledIff | src/ffmpeg.rs:294 | a filter is disabled exactly when `disable` parses as the `i32` 1; absent or unparseable means enabled |
| Ffmpeg.Disabled | src/ffmpeg.rs:294 | `disable` read as an `i32`, 0 when absent or unparseable, compared with 1 (stated by `DisabledIff`) |
| Ffmpeg.HasService | src/ffmpeg.rs:289 | the `mlt_service` text is exactly the kind's identifier |
| Ffmpeg.AtMostOneService | src/ffmpeg.rs:289-291 | no element is accepted by two different parsers |
| Ffmpeg.Recognise | src/mlt.rs:38-49 | a result is what the parser of its own service gives; None exactly when every parser fails |
| Ffmpeg.RecogniseOwnService | src/mlt.rs:38-49 | whichever parser accepts an element, trying them in the order Lut, Eq, Exposure, Colortemp gives that parser's result |
| Ffmpeg.ValueProperties | src/ffmpeg.rs:292-293 | the properties a filter is read from are `av.` names, all different |
| Ffmpeg.RecogniseFilterElement | src/ffmpeg.rs:285-302 | the element written from a recognisable filter (its service, its `av.*` values and `disable`) is recognised as that same filter |
| Ffmpeg.ParseColortempElement | src/ffmpeg.rs:586-602 | the element written from a Colortemp is parsed back to that same filter |
| Ffmpeg.ExposureFromXml | src/ffmpeg.rs:793-817 | the example filter element with time-stamped zeros and `disable` 1 parses to an inactive Exposure with exposure and black 0 |
| Ffmpeg.ExampleService | src/mlt.rs:146-149 | in the example document, `mlt_service` reads as `avfilter.exposure` |
| Ffmpeg.ExampleZeros | src/mlt.rs:150 | in the example document, the time-stamped `av.exposure` and `av.black` read as 0 |
| Ffmpeg.FilterOptionArgs | src/ffmpeg.rs:42-61 | `[]` exactly when every filter is inactive (or there are none); otherwise exactly `-vf` and the `,`-join of the active filters' texts |
| Ffmpeg.RenderActive | src/ffmpeg.rs:47-57 | the texts of the active filters, in list order (stated by `RenderActiveEmpty`, `RenderActiveMembers` and `InactiveIgnored`) |
| Ffmpeg.ActiveFilterString | src/ffmpeg.rs:47-58 | the active texts joined by `,` (stated by `FilterStringSplits` and `FilterStringEmpty`) |
| Ffmpeg.RenderActiveEmpty | src/ffmpeg.rs:43-45 | no rendered texts exactly when no filter is active |
| Ffmpeg.InactiveIgnored | src/ffmpeg.rs:47-58 | removing an inactive filter anywhere in the list leaves the filter string unchanged |
| Ffmpeg.RenderActiveMembers | src/ffmpeg.rs:47-58 | every rendered text is the rendering of an active filter of the list |
| Ffmpeg.FilterStringSplits | src/ffmpeg.rs:47-58 | when no active text holds a comma, splitting the `-vf` value at `,` gives back the active filters' texts in list order |
| Ffmpeg.FilterStringEmpty | src/ffmpeg.rs:43-60 | the `-vf` value can be empty although a filter is active, exactly when the only active text is empty, which takes an active empty Custom filter |
| Ffmpeg.EmptyCustomFilterOption | src/ffmpeg.rs:43-60 | a single active empty Custom filter gives `-vf` followed by an empty string |
| Ffmpeg.SkipArgs | src/ffmpeg.rs:86-88 | `-ss` then the seconds, in decimal text that parses back as the same `u64` |
| Ffmpeg.FramesArgs | src/ffmpeg.rs:109-111 | `-frames:v` then the count, in decimal text that parses back as the same `u64` |
| Ffmpeg.ReadSkipArg | src/ffmpeg.rs:86-88 | in a list of whole options, `-ss` is read back as the same `u64` seconds |
| Ffmpeg.ReadInputArg | src/ffmpeg.rs:134-136 | in a list of whole options, `-i` is read back as the input path |
| Ffmpeg.OutputIsOperand | src/ffmpeg.rs:178-180 | the output path written after whole options is the one positional argument left |
| Ffmpeg.ReadEncoderArg | src/ffmpeg.rs:226-232 | in a list of whole options, `-c:v` is read back as the expression exactly when it is not empty, and is absent otherwise |
| Ffmpeg.ReadFilterArg | src/ffmpeg.rs:43-60 | in a list of whole options, `-vf` is read back as the joined active texts exactly when some filter is active, and is absent otherwise |
| Mlt.Tagged | src/mlt.rs:30 | every node kept has the tag, and every node with the tag is kept |
| Mlt.TaggedConcat | src/mlt.rs:30 | the filter distributes over concatenation, so document order is kept |
| Mlt.TaggedOne | src/mlt.rs:30 | one node is kept exactly when it has the tag |
| Mlt.EntriesOfPlaylists | src/mlt.rs:26-31 | every node walked is an `entry` |
| Mlt.EntriesOfPlaylistsConcat | src/mlt.rs:31 | the walk distributes over the playlists, so playlist order is kept |
| Mlt.EntriesOfPlaylistsOne | src/mlt.rs:31 | one playlist gives exactly its `entry` children, in order |
| Mlt.Entries | src/mlt.rs:26-31 | the walk over the `playlist` children of the document element |
| Mlt.RecognisedFilters | src/mlt.rs:34-49 | every filter kept is one of the four recognised services, at most one per element |
| Mlt.RecognisedFiltersConcat | src/mlt.rs:37-54 | reading back distributes over concatenation, so the filters keep the order of their elements |
| Mlt.RecognisedFiltersOne | src/mlt.rs:38-49 | one element gives the filter it is recognised as, or nothing |
| Mlt.RecognisedKept | src/mlt.rs:38-46 | a recognised element contributes its filter in its own place |
| Mlt.FilterMapMembers | src/mlt.rs:37-53 | every filter kept is the recognition of one of the entry's filter elements |
| Mlt.UnrecognisedSkipped | src/mlt.rs:47-49 | an element that no parser accepts contributes nothing, wherever it is |
| Mlt.EntryFilterStringEmpty | src/mlt.rs:50-56 | an entry's joined string is empty exactly when none of its recognised filters is active |
| Mlt.EntryFilterString | src/mlt.rs:34-55 | the active recognised filters of the entry's `filter` children, rendered and joined by `,` (stated by `EntryFilterStringEmpty`) |
| Mlt.FindSource | src/mlt.rs:70-73 | the first `producer` or `chain` child whose `id` is the reference; None exactly when there is none |
| Mlt.NamedIn | src/mlt.rs:78-85 | the first property child with the given `name`; None exactly when there is none |
| Mlt.UrlFromProducerSpec | src/mlt.rs:66-87 | the URL is the text of the matched source's first `kdenlive:originalurl` property (no fall-back when that has no text) and, only when there is none, of its first `resource` property |
| Mlt.UrlFromProducerAt | src/mlt.rs:67-73 | the source read is the first `producer` or `chain` child of the document element whose `id` is the one asked for |
| Mlt.SourceUrlSpec | src/mlt.rs:74-86 | a source's URL is the text of its first `kdenlive:originalurl` property, with no fall-back when that has no text, and only without one the text of its first `resource` property |
| Mlt.UrlFromProducerNeither | src/mlt.rs:78-86 | no URL when the matched source has neither a `kdenlive:originalurl` nor a `resource` property |
| Mlt.UrlFromProducerNone | src/mlt.rs:66-87 | no URL without a first child of the root, or without a matching producer or chain |
| Mlt.UrlFromProducer | src/mlt.rs:66-87 | `get_url_from_producer` (stated by `UrlFromProducerSpec`, `UrlFromProducerAt`, `UrlFromProducerNeither` and `UrlFromProducerNone`) |
| Mlt.SourceUrl | src/mlt.rs:78-86 | the URL chosen among one source's properties (stated by `SourceUrlSpec`) |
| Mlt.EntryWrite | src/mlt.rs:56-61 | an entry writes a key exactly when its joined string is non-empty; the key is its producer's URL and the value the joined string |
| Mlt.Compile | src/mlt.rs:24-64 | the map the entries' writes leave, applied in order (stated by `CompileKeys`, `CompileLastWriteWins` and `CompileValuesNonEmpty`) |
| Mlt.GetFilterStrings | src/mlt.rs:24-64 | the map built by the loop is the one the entries write, in playlist order |
| Mlt.CompileValuesNonEmpty | src/mlt.rs:56-61 | every value in the map is non-empty |
| Mlt.CompileKeys | src/mlt.rs:56-61 | a URL is a key exactly when some entry writes it |
| Mlt.CompileLastWriteWins | src/mlt.rs:26-31 | a URL's value is the joined string of the last entry that writes that URL |
| MltRewrite.CaptureSound | src/mlt.rs:95 | a captured value is the value group of a match of `<property name=".*">(.*)</property>` in the line |
| MltRewrite.CaptureLeftmostGreedy | src/mlt.rs:95 | when the pattern matches anywhere, a value is captured, and its match starts no later and ends both groups no earlier than any other match |
| MltRewrite.CaptureValue | src/mlt.rs:95-105 | the value group of the pattern (stated by `CaptureSound` and `CaptureLeftmostGreedy`) |
| MltRewrite.IsFiltergraphLine | src/mlt.rs:99 | the line contains `name="filtergraph"` |
| MltRewrite.IsMediaLine | src/mlt.rs:102-103 | the line contains `<property name="kdenlive:originalurl` or `<property name="resource` |
| MltRewrite.FiltergraphLine | src/mlt.rs:114-116 | the inserted line around a value (stated by `FiltergraphLineIsFiltergraph`) |
| MltRewrite.Insertion | src/mlt.rs:102-119 | one line is put before a line exactly when the line holds an `originalurl` or `resource` property, has a captured URL and the URL is a key; that line is `  <property name="filtergraph">V</property>`, where V is the value followed by `,A` when an extra filter A is given |
| MltRewrite.RewriteLine | src/mlt.rs:98-120 | with deletion, a `filtergraph` line gives nothing; every other line ends its own output |
| MltRewrite.RewriteLines | src/mlt.rs:97-121 | the rewrites of the lines, in order (stated by `OtherLinesKept`, `FiltergraphLinesCount` and `RewriteIdempotent`) |
| MltRewrite.AddFiltergraphText | src/mlt.rs:89-123 | the rewritten lines of `lines()` joined by `\n` (stated by `TextIdempotent` and `BlankLastLineLost`) |
| Strings.Lines | src/mlt.rs:98 | `str::lines`: no piece holds a line feed |
| Strings.Join | src/mlt.rs:122 | `join`: no parts join to the empty text, and with a non-empty separator the text is empty exactly when there is no part or a single empty part |
| MltRewrite.AddFiltergraphToProducers | src/mlt.rs:89-123 | the loop's text is the `\n`-join of the rewrites of the input's lines, in order |
| MltRewrite.FiltergraphLineIsFiltergraph | src/mlt.rs:114-116 | every inserted line is a `filtergraph` line |
| MltRewrite.OtherLinesKept | src/mlt.rs:98-120 | whatever the flags, the lines that are not `filtergraph` lines come out unchanged and in their order |
| MltRewrite.FiltergraphLinesCount | src/mlt.rs:98-120 | the output holds one `filtergraph` line per triggering line, plus the input's own when they are not deleted |
| MltRewrite.PassThrough | src/mlt.rs:102-120 | without deletion and with no triggering line, the lines pass through unchanged |
| MltRewrite.DeletedThenInserted | src/mlt.rs:98-101 | with deletion, the input's `filtergraph` lines have no effect on the output |
| MltRewrite.RewriteIdempotent | src/mlt.rs:98-120 | with deletion, running again on the output lines with the same map gives the same lines |
| MltRewrite.TwoInsertions | src/mlt.rs:102-120 | a producer's `originalurl` line and `resource` line that both name a key each get their own line before them |
| MltRewrite.LinesOfOutput | src/mlt.rs:122 | when no line, value or extra filter holds a line break and the last line is kept and not blank, the output text splits back into the output lines |
| MltRewrite.TextIdempotent | src/mlt.rs:89-123 | for a text without carriage returns whose last line is neither blank nor a `filtergraph` line, running with deletion on the output text gives the same text |
| MltRewrite.BlankLastLineLost | src/mlt.rs:122 | a text ending in a blank line loses it: `L\n\n` becomes `L\n`, which becomes `L` |

## Left out

- src/gui.rs is not part of this model. It holds the widgets, the event loop, the zebra overlay, the waveform and the history files.
- `Thread::run`, `extract_frame` and every `draw` method of src/ffmpeg.rs are not modelled. They are subprocesses, image decoding, channels and UI.
- The typetag and serde glue is not modelled.
- src/main.rs, src/lib.rs and src/bin/ are not part of this model. They cover file reading and writing, argument parsing and logging. The converter binary calls the rewriter with three arguments, but the library function takes four; the model follows the four-argument library function.
- `f32` parsing and `Display` are parameters, not definitions. No floating-point behaviour is modelled.
- XML parsing and entity decoding are not modelled. The model takes the parsed tree as input, with text children already decoded. The example documents of the two tests leave out the whitespace-only text nodes between elements. Those nodes never match a property lookup.
- The `Xml` tree has elements and text only. roxmltree's comment and processing-instruction nodes are not modelled; `descendants()` would walk them and `text()` would skip them, and neither is ever a `property` element.
- The regular-expression engine is replaced by `MltRewrite.CaptureValue`. It agrees with the engine on the one pattern used, for lines without `\n`.
- `Result<_, ()>` is modelled as `Option`.
- `Ffmpeg.OptionValue` and `Ffmpeg.Operand` are a reader of ffmpeg's command line made for stating the option properties: option and value pairs, then one positional argument. The lists the GUI assembles from these options (src/gui.rs) are not modelled.
- The panics of `unwrap` are modelled as preconditions that rule them out, not as a failure value.
- Mlt.GetFilterStrings: keys are inserted into a Dafny `map`, not a `HashMap`, so iteration order, which the source never uses, is not modelled.
- MltRewrite.TextIdempotent: states idempotence only for texts without carriage returns whose last line is neither blank nor a `filtergraph` line. The `\n` join breaks it otherwise, as `MltRewrite.BlankLastLineLost` shows.

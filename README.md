# vidbuild core, modelled in Dafny

vidbuild turns an annotated transcript and its audio into a video. The transcript is plain
spoken text with JSON markers in braces, such as `{"uuid": "a", "info": {"ImgStart": ...}}`,
placed where an overlay should appear or disappear. Building the video takes two stages.

1. **Building the timeline** (`Spec::into`, `src/spec.rs`):
   - The transcript is cleaned down to the spoken words.
   - Its top-level brace groups are scanned into markers. Each marker is tagged with an offset that approximates its position in the cleaned text. The offset is a counter that moves forward on every transcript character, inside markers too, that equals the cleaned character just after it.
   - The cleaned text is sent to the Gentle forced aligner.
   - Each marker takes the start time of the first recognised word whose span covers its offset.
   - The timeline lasts until two seconds after the last recognised word.
2. **Rendering** (`Timeline::render`, `src/timeline.rs`):
   - Frames 1, 2, ... are visited at `frame / rate` seconds until the timeline's length.
   - For each frame, a cursor takes from the event list the events due before that frame's time and applies them to a running overlay state (`Frame`). The state is the list of active events plus a cache of asset bytes keyed by slug.
   - Each frame is written to a file whose name is the frame number zero-padded to ten digits.

The project has five modules:

| module | file | contents |
|---|---|---|
| `Wrappers` | `wrappers.dfy` | `Option` and `Result` |
| `Gentle` | `gentle.dfy` | the fields of the aligner's word record that the builder reads |
| `Timeline` | `timeline.dfy` | see below |
| `Spec` | `spec.dfy` | see below |
| `Scenario` | `scenario.dfy` | a worked example, proved end to end |

`Timeline` holds:
- the event types;
- the `Frame` class, whose `Apply` method updates its fields in place;
- the frame/cursor stage of rendering, as the `Render` method;
- the zero-padding loop.

Applying a frame's due events (`ApplyRange`) is written as recursion, one event and then the rest, rather than as the program's `for` loop; it applies the same events in the same order and stops at the same first failure.

`Spec` holds:
- the cleaning loop;
- the marker-scan loop;
- the matching loop;
- the length computation;
- `Into`, which chains them together.

Each loop is a method proved equal to a function:
- the cleaning, scanning and matching loops to folds over prefixes (`CleanPrefix`, `ScanPrefix`, `Matched`);
- the take-while count `TakeDue` to `Consumed`, a recursion from the cursor forward;
- the padding loop to `Zeros` followed by `Digits`;
- the frame loop `Render` to `FramesOf`, through `ApplyAll` and `CursorAfter`.

`ApplyRange` is recursive and is proved equal to `ApplyAll`. The properties are proved as lemmas about these functions. Independent references check two of the functions:
- the cleaner's result equals `Collapse(TopLevel(s))` (`CleanReference`);
- the scan's depth counter equals `Depth` of the input read so far, and its marker count equals `Closings` (`ScanPrefixSpec`, `ScanTermination`).

Collaborators the code calls out to are parameters:
- `decode: string -> Option<Decoded>` stands for serde's parse of a marker's text. `None` is a parse error.
- `align: string -> Option<seq<GentleWord>>` stands for the HTTP call to the aligner and the parse of its answer. `None` is a failed request or an unreadable answer.
- `read: string -> Option<seq<bv8>>` stands for `fs::read` of an asset file.

Each panic of the program (`panic!`, `expect`, `unwrap` on `None`, `todo!()`, the depth counters' `usize` underflow in a debug build) becomes a `Failure` value, so its conditions are stated and proved. The one `usize` overflow the code can reach, in the coverage test, is not modelled (see "Left out").

`Scenario` proves one example step by step:
- The transcript is `Hello {a} world {b}`. It cleans to `Hello world `.
- The two markers fall at cleaned offsets 5 and 11.
- The aligner gives "Hello" as offsets 0-5, from 0.0 s to 0.5 s, and "world" as offsets 6-11, from 0.6 s to 1.0 s.
- The image therefore starts at 0.0 s and ends at 0.6 s. The timeline lasts 3.0 s.

The example shows the offset heuristic at work. The offset advances only when the character read equals the cleaned character after the current offset. The first marker then falls inside the span of "Hello" rather than after it.

## Model

| member | source | states |
|---|---|---|
| `Spec.CleanedTranscript` | src/spec.rs:157-171 | the cleaning loop returns exactly `Clean(transcript)`, the fold of its own match arms over the transcript |
| `Spec.CleanStepSpec` | src/spec.rs:161-167 | one character keeps the loop in line with the reference: it fails exactly when the depth would go below 0, at that index; otherwise the new depth is the brace depth and the new output is `Collapse(TopLevel(..))` of the longer prefix |
| `Spec.CleanPrefixSpec` | src/spec.rs:157-169 | over any prefix, cleaning succeeds iff no prefix closes more braces than it opens; on success the depth is the brace depth and the output is the depth-0, non-brace characters with doubled spaces/newlines collapsed; on failure the error is an underflow at the first `}` that takes the depth below 0 |
| `Spec.CleanReference` | src/spec.rs:157-171 | `cleaned_transcript` fails iff the transcript underflows the brace counter, and otherwise equals `Collapse(TopLevel(s))` |
| `Spec.CleanWellFormed` | src/spec.rs:161-166 | the cleaned text has no `{` or `}` and no two consecutive spaces or newlines |
| `Spec.CleanIsTopLevelSubsequence` | src/spec.rs:158-170 | the cleaned text is an order-preserving subsequence of the characters read at brace depth 0 |
| `Spec.CleanIdempotent` | src/spec.rs:157-171 | cleaning the cleaned text returns it unchanged |
| `Spec.CollapseSubseq` | src/spec.rs:164-166 | suppressing doubled spaces and newlines only deletes characters |
| `Spec.CollapseNoDoubles` | src/spec.rs:164-165 | after suppression no space follows a space and no newline follows a newline |
| `Spec.CollapseKeeps` | src/spec.rs:164-165 | text without doubled spaces or newlines passes suppression unchanged |
| `Spec.ScanMarkers` | src/spec.rs:46-79 | the scan loop returns exactly `Scan(..)`: its iterations are `ScanCharacter`, and it ends with the "Unterminated JSON" check |
| `Spec.ScanCharacter` | src/spec.rs:51-73 | one iteration of the scan loop body, statement by statement, is exactly one `ScanStep` |
| `Spec.ScanStepOutside` | src/spec.rs:51-73 | outside a marker, a character other than a brace only moves the cleaned-text offset: nothing is added to the pending text and nothing is emitted |
| `Spec.ScanStepInside` | src/spec.rs:51-73 | inside a marker, or at the `{` that opens one, a character other than `}` is appended to the pending text, the depth grows only for `{`, nothing is emitted, and the cleaned-text offset still moves exactly as outside a marker |
| `Spec.ScanStepSpec` | src/spec.rs:51-73 | one character keeps the scan's invariant (depth = brace depth; pending text empty iff depth 0, otherwise the text since the `{` that left depth 0; one marker per closed group; offsets non-decreasing). A `}` that takes the depth below 0 is an error. The offset grows by 0 or 1. A marker is emitted exactly at the `}` that brings the depth back to 0, and it is the decoding of the pending text plus that `}`, at the offset reached before it |
| `Spec.ScanPrefixSpec` | src/spec.rs:46-74 | the scan invariant holds after every prefix read without failing |
| `Spec.ScanTermination` | src/spec.rs:75-78 | after a successful read, the scan fails with "Unterminated JSON" iff the final depth is not 0; a successful scan yields exactly one marker per top-level group, with non-decreasing offsets |
| `Spec.ScanRejectsUnderflow` | src/spec.rs:58-60 | a transcript that closes a brace it never opened cannot be scanned |
| `Spec.ScanFlushesGroup` | src/spec.rs:52-70 | the marker emitted at a closing `}` is the decoding of the whole top-level group, from the `{` read at depth 0 (depth above 0 in between) to this `}` |
| `Spec.ScanStepOutcome` | src/spec.rs:58-66 | one character fails exactly in two cases: a `}` that takes the depth below 0 is an underflow at that character's index, and a `}` that closes a top-level group whose text (the pending text plus the `}`) does not decode is "Bad JSON" at the offset reached before it. Every other character is read without error |
| `Spec.ScanErrors` | src/spec.rs:58-66 | the scan loop itself stops only with an underflow or a JSON decoding error |
| `Spec.FirstMatch` | src/spec.rs:117-123 | the result is the first index whose word is eligible and covers the offset (`startOffset < offset && endOffset + 2 > offset`); `None` iff no eligible word covers it |
| `Spec.Reassociate` | src/spec.rs:110-140 | the matching loop returns exactly `Matched(markers, words)`: each marker resolved in order, unmatched markers skipped |
| `Spec.MatchedAppend` | src/spec.rs:110-140 | matching distributes over concatenation of the marker list, so events keep the markers' order (no sorting) |
| `Spec.MatchedLength` | src/spec.rs:124-132 | there are never more events than markers, and exactly as many when every marker finds a word |
| `Spec.MatchedEventsFromMarkers` | src/spec.rs:117-139 | each event carries a marker's uuid and info and the start time of the first eligible word covering that marker's offset |
| `Spec.LastEligible` | src/spec.rs:103-109 | the result is the index of the last eligible word, or `None` iff no word is eligible |
| `Spec.TimelineLength` | src/spec.rs:141 | the length is the last eligible word's end plus 2.0; it fails (`unwrap` on `None`) iff no word is eligible |
| `Spec.BuildTimelineSuccess` | src/spec.rs:37-149 | a built timeline comes from a balanced transcript: one marker per top-level group; events are those markers matched in order; at most one event per marker, each timed by the first covering eligible word; length is two seconds past the last eligible word; rate and resolution passed through |
| `Spec.BuildTimelineUnterminated` | src/spec.rs:75-77 | a build stopped by "Unterminated JSON" had a transcript that never underflowed but ended with braces open |
| `Spec.BuildTimelineUnderflow` | src/spec.rs:43 | a transcript that closes an unopened brace fails to build, with the cleaner's underflow error |
| `Spec.Into` | src/spec.rs:37-149 | `Spec::into` returns exactly `BuildTimeline(..)`: clean, scan, align, reassociate, then compute the length, stopping at the first error |
| `Timeline.Frame.constructor` | src/timeline.rs:44-50 | a new frame has no active events, an empty asset cache and the given resolution |
| `Timeline.Frame.Apply` | src/timeline.rs:51-66 | the frame's new state is `ApplyTo` of its old state; on failure the error is `ApplyTo`'s and the state is unchanged |
| `Timeline.ApplyToSpec` | src/timeline.rs:51-66 | `JsStart` fails as not implemented. `ImgStart` succeeds iff the slug is cached, or is in `used` and its file reads; an unknown uncached slug is an "undefined resource" error. On success `ImgStart` appends exactly that event and adds the slug to the cache, mapped to exactly the bytes the read of `used[slug]` returned, without changing any existing entry. `ImgEnd`/`JsEnd` always succeed, leave the cache unchanged, and keep exactly the entries with a different uuid |
| `Timeline.Without` | src/timeline.rs:64 | `retain` never leaves more entries than before |
| `Timeline.WithoutMembers` | src/timeline.rs:64 | `retain` keeps exactly the entries whose uuid differs from the end event's |
| `Timeline.WithoutAppend` | src/timeline.rs:64 | removal by uuid commutes with concatenation, so survivors keep their relative order |
| `Timeline.WithoutAbsent` | src/timeline.rs:64 | a list in which no entry carries the uuid is left unchanged |
| `Timeline.EndRemovesUuid` | src/timeline.rs:64 | an end event applied to `before + after` yields the survivors of each part, in order, with the cache unchanged |
| `Timeline.StartThenEnd` | src/timeline.rs:54-64 | showing an image and ending it by the same uuid restores the active list, if no active entry already had that uuid |
| `Timeline.CacheWriteOnce` | src/timeline.rs:55-61 | over any successful run of events, no cache entry is removed or replaced |
| `Timeline.ApplyAllFailureSticks` | src/timeline.rs:104-106 | once applying the first `n` events fails, every longer run fails with the same error |
| `Timeline.ApplyAllPrefix` | src/timeline.rs:104-106 | the state after the first `n` events depends only on those events, not on the ones after them |
| `Timeline.ConsumedSpec` | src/timeline.rs:96-100 | the events a frame consumes from the cursor on are the longest run whose timestamps are all before the frame's time |
| `Timeline.ConsumedUnique` | src/timeline.rs:96-100 | any count with the three defining properties of a frame's consumption is that consumption |
| `Timeline.TakeDue` | src/timeline.rs:96-102 | the skip/take-while loop counts exactly `Consumed(..)` |
| `Timeline.CursorAfter` | src/timeline.rs:95-102 | the cursor never exceeds the number of events |
| `Timeline.CursorMonotone` | src/timeline.rs:102 | the cursor never moves backwards from one frame to a later one |
| `Timeline.ConsumedBeforeTime` | src/timeline.rs:91-102 | by frame `n`, every consumed event is timestamped before `n / rate`, and the first unconsumed event is not |
| `Timeline.FrameBound` | src/timeline.rs:91-93 | a frame whose time is before the length has a number at most `floor(length * rate)`, so the frame loop ends |
| `Timeline.ApplyRange` | src/timeline.rs:104-106 | applying the consumed events to the running frame gives the state (or the first error) of applying every event up to the new cursor from a fresh frame |
| `Timeline.RenderFrame` | src/timeline.rs:95-107 | one frame moves the cursor to `CursorAfter(frame)` and leaves the frame in the state of all events consumed so far |
| `Timeline.Render` | src/timeline.rs:72-108 | With rate 0 there are no frames. Otherwise frame `j` is snapshot `j - 1`, taken at time `j / rate`, which is before the length. Its state is that of applying all events consumed by then to a new frame. Generation stops at the first frame whose time is not before the length. A failure is the error of applying the events consumed by some frame before the length |
| `Timeline.Digits` | src/timeline.rs:127 | `to_string` gives at least one decimal digit, with no leading zero for a positive number |
| `Timeline.ParseDigits` | src/timeline.rs:127 | the decimal digits of `n` read back as `n` |
| `Timeline.ParseLeadingZeros` | src/timeline.rs:128-130 | prepending zeros does not change the number a digit string denotes |
| `Timeline.PaddedFrameNumber` | src/timeline.rs:126-132 | the padded name has length `max(10, number of digits)`, is zeros followed by the frame number's digits, holds only digits, and reads back as the frame number |
| `Scenario.CleanExample` | src/spec.rs:157-171 | `Hello {a} world {b}` cleans to `Hello world ` |
| `Scenario.ScanExample` | src/spec.rs:46-79 | the example's two markers are recorded at cleaned offsets 5 and 11 |
| `Scenario.BuildExample` | src/spec.rs:37-149 | the example builds a timeline whose image starts at 0.0 s and ends at 0.6 s and which lasts 3.0 s |

## Left out

- The HTTP multipart request to the aligner, the `GENTLE_LOCATION` lookup and the parse of the aligner's answer (src/spec.rs:81-101): network I/O and a foreign library. The `align` parameter stands for all of them.
- serde decoding of marker text (src/spec.rs:63): a foreign library. The `decode` parameter stands for it. A `JsStart` argument is an arbitrary JSON value and is kept as its text.
- `Spec::load`, `read_transcript`, `fs::create_dir_all` and the reading of asset files: filesystem I/O. The transcript is an input and the asset read is the `read` parameter.
- `Event::render` (src/timeline.rs:178-234): floating-point compositing and alpha blending over PNG decoding by a foreign codec.
- The `par_bridge` parallel drawing stage, PNG encoding and file writing, and the ffmpeg subprocess with its polling loop (src/timeline.rs:109-172): concurrency, I/O and an external process. `Render` stops at the snapshots the sequential stage hands to drawing.
- The work directory prefix and `.png` suffix of a frame file name: formatting around the padded number, which is modelled.
- `println!` progress output and the warning printed for an unmatched marker.
- Timeline.Frame: the asset cache is one map field. In the program it sits behind an `Arc<RwLock<..>>` shared by every clone of the frame, so a snapshot sees slugs cached by later frames. `CacheWriteOnce` proves entries are never replaced, so lookups of the slugs a snapshot's events use give the same bytes either way.
- Timeline.Render: frame times and the length are exact reals, not `f64`; the rounding of `frame as f64 / rate as f64` and of `end + 2f64` is not modelled. A rate of 0 gives no frames; in the program it makes every time infinite, so no frame is before the length.
- Spec.CleanedTranscript: a `}` at depth 0 is an error (`DepthUnderflow`), as in a debug build where the `usize` subtraction panics. A release build wraps the counter to `usize::MAX` instead, and that is not modelled. The same holds for `Spec.ScanMarkers`. Cleaning runs first in `Spec::into`, so the scan's own underflow is not reached there.
- Timeline.Frame.Apply: a failure leaves the state unchanged and is returned, where the program aborts.
- Spec.FirstMatch: offsets are unbounded `nat`. The `usize` addition `endOffset + 2` in the coverage test (src/spec.rs:121) overflows when the aligner reports an end offset of `usize::MAX - 1` or more. A debug build then panics and a release build wraps to 0 or 1, where the model reports a match. Only a malformed aligner response reaches it.
- Spec.ScanMarkers: the marker offset is what the code computes. It is not the marker's index in the cleaned text. The offset advances on any transcript character, inside a marker's JSON too, that equals the cleaned character after the current offset. It therefore usually lags the index by one: in the worked example the first marker sits at cleaned index 6 and is recorded at offset 5. Adjacent markers can share an offset, so offsets are non-decreasing but not strictly increasing. Two transcripts that clean to the same text can give different offsets when their markers' JSON differs: `a{b}b` gives offset 1 and `a{c}b` gives offset 0, both cleaning to `ab`. Past the end of the cleaned text the comparison character is a space, so trailing spaces push the offset beyond the cleaned text's length. `ScanStepOutside`, `ScanStepInside` and `ScanStepSpec` state this rule.
- The code does not sort events by time. It has no fallback that carries an unmatched marker to a neighbouring word. It has no absolute or relative time overrides. The coverage test is `endOffset + 2 > offset`.

# CardBrick core in Dafny

CardBrick is a flash-card player for a small handheld. Its core has six parts, and this project models each of them:

- **Greedy line breaker.** `layout_text_binary` in `src/ui/font.rs` lays out a card's styled text spans into lines no wider than a box. Stage 1 turns every embedded line feed into a newline-marker span. Stage 2 packs a double-ended work queue. Each span goes onto the open line whole if it fits. Otherwise its longest fitting character prefix goes there, found by the linear scan `find_split_index`. If no prefix fits, the open line is closed; on an empty line the first character is forced in alone. In ruby mode the engine measures and splits the reading instead of the base text.
- **Point-size search.** `find_fitting_size` is a binary search for the largest point size whose wrapped text fits a box's height.
- **Card markup to spans.** `process_node` in `src/deck/html_parser.rs` flattens the card's markup tree into spans:
  - bold, italic and heading formats are inherited by descendants;
  - `br` produces a line feed;
  - a `ruby` element becomes one base span carrying its reading;
  - a single line feed follows each block element.
- **Markup to plain text.** `html_to_text` in `src/html.rs` extracts plain text from markup.
- **SM-2 scheduler.** `Sm2Scheduler` in `src/scheduler.rs` keeps the session's review queue and updates a card's interval, ease and lapses on each answer.
- **Scene input handlers.** The main menu and the studying scene each have a handler in `src/scenes/*/input.rs`:
  - the menu's handler moves the selection and confirms it;
  - the studying scene's handler reveals the answer, shows ruby readings while a shoulder or shift key is held, scrolls, and dispatches ratings.

Font measurement is the one foreign dependency of the layout. It becomes the parameter `width: (string, bool, bool) -> nat`, the pixel width of a string in bold and/or italic, plus a `lineHeight`. Strings are sequences of characters, so a split point is a character count. A byte index in the source is the same split, and no code point is ever cut.

Modules:

- `Wrappers`, `Arith`: `Option`, `Result`, saturating subtraction, `Min` and `Max`.
- `Split`: splitting a sequence at separators, and joining it back.
- `Span`: `TextSpan` and `text_to_use`.
- `Layout`: both stages of the line breaker.
- `Fitting`: the point-size search.
- `HtmlTree`, `HtmlParser`, `HtmlText`: the markup tree and both flatteners.
- `Scheduler`: the SM-2 scheduler.
- `Events`, `AppState`, `MainMenu`, `Studying`: input events, the game state and the two handlers.

## Model

| member | source | states |
|---|---|---|
| Span.TextSpan.TextToUse | src/ui/font.rs:32-39 | without ruby the base text; with ruby the reading when there is one, the base text otherwise |
| Layout.Pieces | src/ui/font.rs:97-111 | the Stage 1 output for the fragments of one span's text around its line feeds: cut back at the markers, it is exactly the fragments in order, each as the original span with only its text changed and empty fragments dropped; consecutive fragments are separated by one text-less marker carrying the span's style |
| Layout.PiecesRebuild | src/ui/font.rs:97-111 | rebuilding the pieces with a line feed for each marker joins the fragments back with line feeds |
| Layout.ExpandSpan | src/ui/font.rs:96-112 | one span's Stage 1 output, cut at its markers, is the span's line-feed-separated fragments in order (empty ones dropped, style kept); rebuilding with a line feed per marker gives back the span's text exactly; no text span is empty or holds a line feed |
| Layout.ExpandNewlines | src/ui/font.rs:95-112 | the Stage 1 queue of a whole span list rebuilds to the concatenated texts, with as many markers as line feeds and no empty or line-feed-holding text span |
| Layout.ExpandNewlinesPerSpan | src/ui/font.rs:93-112 | Stage 1 works span by span: the queue of a concatenation is the concatenation of the queues, and a one-span list gives exactly that span's output |
| Split.JoinSplit | src/ui/font.rs:97 | splitting at line feeds and joining back with line feeds is the identity |
| Split.SplitJoin | src/ui/font.rs:97 | joining line-feed-free fragments and splitting again gives the same fragments |
| Split.ConcatSplit | src/ui/font.rs:97-111 | the fragments, concatenated, are the text with its separators removed |
| Layout.ScanSplit | src/ui/font.rs:71-86 | the scan from position k ends at the longest prefix whose summed single-character widths fit the space; every longer prefix exceeds it |
| Layout.FindSplitIndex | src/ui/font.rs:65-87 | `find_split_index` is the longest prefix (by summed per-character widths) that fits; it is 0 exactly when the first character alone is too wide, and the full length when all characters fit |
| Layout.PrefixWidthExceeds | src/ui/font.rs:75-77 | once a prefix is too wide, so is every longer one, so stopping at the first misfit is the longest fit |
| Layout.SplitSpan | src/ui/font.rs:141-154 | the two pieces show the displayed text's prefix and suffix and keep the span's style; in ruby mode the first keeps the whole base text and the second's base text becomes empty; otherwise the reading is untouched |
| Layout.StepDecreases | src/ui/font.rs:120-205 | every loop iteration either removes characters or queue entries, or keeps the queue and empties a non-empty open line (the loop terminates) |
| Layout.Step | src/ui/font.rs:120-205 | one loop iteration closes at most one line and never touches the lines already closed; when it closes none, the head of the queue has moved whole onto the open line; when it closes one, the new open line is empty with width 0 |
| Layout.StepForced | src/ui/font.rs:163-195 | on an empty open line, a span whose first character alone is wider than the box puts that character, in the span's style, on a line of its own; the rest of its text stays at the front of the queue, or the span is gone when it had one character |
| Layout.StepLines | src/ui/font.rs:128-205 | after each iteration every finished line holds no marker and fits the box; the open line's recorded width is its real width and at most the box width |
| Layout.AppendPiece | src/ui/font.rs:136-157 | the line closed after a fitted prefix fits the box |
| Layout.StepContent | src/ui/font.rs:128-205 | finished lines, open line and queue together show the same text before and after each iteration (no character lost or duplicated, in any branch) |
| Layout.StepContentSplit | src/ui/font.rs:138-157 | the fitted-prefix branch preserves the shown text |
| Layout.StepContentForced | src/ui/font.rs:167-196 | on an empty open line, the forced-character branch, with or without a re-queued remainder, and the empty-text branch preserve the shown text |
| Layout.StepCount | src/ui/font.rs:121-126 | every marker taken off the queue has closed a line |
| Layout.StepNoWrap | src/ui/font.rs:120-134 | when the whole queue fits on one line, the lines so far are exactly its marker-separated segments |
| Layout.StepOverWide | src/ui/font.rs:167-192 | a leading character wider than the box ends up alone on the first line |
| Layout.StepKeepsInv | src/ui/font.rs:120-206 | the loop invariant (fit, content, marker count, no-wrap shape, over-wide start) is kept by every iteration |
| Layout.PackStart | src/ui/font.rs:115-117 | the invariant holds for the empty layout and the Stage 1 queue |
| Layout.Pack | src/ui/font.rs:118-206 | the loop ends with an empty queue and only ever adds lines after those already closed |
| Layout.Finish | src/ui/font.rs:208-213 | the closing steps keep the closed lines, add the open line as the last one when it is non-empty, and leave at least one line |
| Layout.FinishLines | src/ui/font.rs:208-213 | the closing steps leave at least one line, every line fitting |
| Layout.FinishContent | src/ui/font.rs:208-213 | the closing steps keep all shown text |
| Layout.FinishNoWrap | src/ui/font.rs:208-213 | when nothing wraps, the lines are the marker-separated segments without an empty last one |
| Layout.PackKeepsInv | src/ui/font.rs:120-206 | running the loop until the queue is empty keeps the invariant |
| Layout.LayoutLines | src/ui/font.rs:90-217 | the layout of any span list has at least one line |
| Layout.LayoutLinesOk | src/ui/font.rs:90-217 | the finished layout has at least one line and at least one per embedded line feed; every line is marker-free and fits; the lines show exactly the Stage 1 queue's text, which without ruby is the input texts minus line feeds |
| Layout.LayoutNoWrap | src/ui/font.rs:90-217 | when the whole text fits the box, the lines are exactly the line-feed-separated pieces, without an empty last one |
| Layout.LayoutOverWide | src/ui/font.rs:163-195 | a first character wider than the box stands alone on the first line |
| Layout.LayoutTextBinary | src/ui/font.rs:90-217 | the loop yields exactly the lines of the packing run to completion (so `LayoutLinesOk`, `LayoutNoWrap` and `LayoutOverWide` apply to its result); at least one line; height is line height times line count; scroll offset 0 |
| Fitting.FindFittingSize | src/ui/font.rs:274-317 | the result is at least `min_pt`, and is `min_pt` or a fitting size in range; when fitting is downward-closed, no larger size in range fits; a backend error is returned only if some size in range errs, and never when none does |
| HtmlTree.TrimStart | src/deck/html_parser.rs:159 | leading whitespace removed: a suffix, the dropped part all whitespace, the first kept character not whitespace |
| HtmlTree.TrimEnd | src/deck/html_parser.rs:159 | trailing whitespace removed, likewise |
| HtmlTree.TrimEmptyIff | src/deck/html_parser.rs:159 | trimming leaves nothing exactly when the text is all whitespace |
| HtmlParser.TagFormat | src/deck/html_parser.rs:52-89 | the children's format: bold iff inherited, a heading or `b`; italic iff inherited or `i`; ruby base iff inherited or `rb`; new block iff inherited, a heading, `br` or `hr/`; text, reading and marker flag kept |
| HtmlParser.ProcessNode | src/deck/html_parser.rs:42-165 | spans are only ever appended: the result begins with the spans already emitted |
| HtmlParser.ElementBody | src/deck/html_parser.rs:51-137 | an element's body only appends spans to those already emitted |
| HtmlParser.ProcessChildren | src/deck/html_parser.rs:133-137 | the children, processed in order, only append spans |
| HtmlParser.RubyCollect | src/deck/html_parser.rs:93-119 | collecting a ruby element's base only appends to the base collected so far |
| HtmlParser.NodeInherits | src/deck/html_parser.rs:52-137 | every span a node emits carries the bold, italic and ruby-base flags of the format it was given, and is a marker only if that format is |
| HtmlParser.ChildrenInherit | src/deck/html_parser.rs:133-137 | the same for the spans of an element's children |
| HtmlParser.TextAndCommentNodes | src/deck/html_parser.rs:151-164 | a comment emits nothing; text emits nothing if all whitespace, else one span with the given format and that text |
| HtmlParser.BreakIgnoresChildren | src/deck/html_parser.rs:60-67 | `br` emits exactly one line feed in the parent's format, whatever its children |
| HtmlParser.StyleElements | src/deck/html_parser.rs:56-69 | everything inside `b` is bold, inside `i` italic, and inside a heading bold (but the trailing line feed, which takes the outer format) |
| HtmlParser.BlockLineFeed | src/deck/html_parser.rs:139-148 | a block element's output ends with a line feed; one line feed span in the outer format is added exactly when the body did not already end with one |
| HtmlParser.RubyCollectBase | src/deck/html_parser.rs:96-119 | the collected base is the `rb` children's spans and the raw children, in order |
| HtmlParser.RubyCollectReading | src/deck/html_parser.rs:107-113 | the collected reading is that of the last `rt` child |
| HtmlParser.RubySpan | src/deck/html_parser.rs:121-132 | a `ruby` element emits at most one span |
| HtmlParser.RubyElement | src/deck/html_parser.rs:92-132 | a `ruby` element emits nothing when its base is empty, and otherwise one ruby-base span, not a block start, whose text is the concatenated base and whose reading is the last `rt`'s text |
| HtmlParser.ParseHtmlToSpans | src/deck/html_parser.rs:35-39 | no emitted span is a newline marker |
| HtmlParser.RootsInOrder | src/deck/html_parser.rs:35-39 | the top-level nodes are processed in order: the spans of any first k roots begin the spans of all of them |
| HtmlText.HtmlToText | src/html.rs:1-18 | a failed parse returns the input; an empty document gives empty text; otherwise the text, with line feeds removed, is the first node's raw text with line feeds removed, and it holds the raw text's line feeds plus one per `br` or `p` element; when the first node is an element, the text begins with its children's text, and ends with a line feed when it is `br` or `p` |
| HtmlText.ExtractText | src/html.rs:20-37 | for every tree, the extracted text without line feeds is the raw texts in document order without line feeds, and it holds the raw line feeds plus one per `br` or `p` element; an element's text begins with its children's text, and a `br` or `p` element's ends with its own line feed |
| HtmlText.ExtractChildren | src/html.rs:24-26 | the same length, letter and line-feed facts for an element's children from a given index on |
| HtmlText.ChildrenInOrder | src/html.rs:24-26 | the children's text is each child's whole text glued to the next, in document order: no child's text is split up or moved past a sibling's |
| HtmlText.ExtractWithoutBreaks | src/html.rs:20-37 | without `br` and `p` the text is exactly the raw texts in document order |
| HtmlText.FirstNodeOnly | src/html.rs:12-15 | nodes after the first never change the text |
| Scheduler.CardsById | src/scheduler.rs:43 | the card map files each card under its own id, every filed card is one of the deck's, its ids are exactly the deck's, and an id shared by several cards holds the last of them |
| Scheduler.New | src/scheduler.rs:42-56 | a new session is valid, its card map is the deck collected by id, its queue is the given arrangement of the ids, the session total is their number, and there are no reviews and no hard cards |
| Scheduler.NextCard | src/scheduler.rs:58-62 | an empty queue gives nothing and changes nothing; otherwise the last id is removed and its card returned when it is known; validity is kept |
| Scheduler.InsertionPoint | src/scheduler.rs:76-77 | Again re-inserts the card `min(len, max(5 - lapses, 2))` places before the end (saturating) |
| Scheduler.Lapse | src/scheduler.rs:71-79 | Again adds one lapse, restarts the interval, keeps id, note and due, and lowers ease by 200, or to 1300 when that would go below |
| Scheduler.Passed | src/scheduler.rs:80-107 | a passing answer keeps id, note, due and lapses and lengthens the interval by at least a day: to the scaled value or one past the old interval, whichever is larger, and to 1 for Good on a new card; Good keeps ease, Easy adds 150, Hard subtracts 150 or drops to 1300 |
| Scheduler.AnswerCard | src/scheduler.rs:64-109 | an unknown id changes nothing; the set of cards and the session total are kept; other cards are untouched; a non-Again answer counts one review; only Again changes the queue; only Hard changes the hard list |
| Scheduler.AgainRequeues | src/scheduler.rs:71-78 | Again adds one lapse, lowers ease by 200 or to exactly 1300 when it would go below, restarts the interval, and inserts the id at the cooldown position keeping the rest of the queue in order |
| Scheduler.IntervalGrows | src/scheduler.rs:80-104 | every non-Again answer lengthens the interval by at least one day; Good on a new card sets it to one |
| Scheduler.EaseRules | src/scheduler.rs:90-103 | Hard lowers ease by 150, or to exactly 1300 when it would go below; Easy raises it by 150; Good keeps it; ease never drops below 1300 from there |
| Scheduler.HardListed | src/scheduler.rs:90-95 | Hard appends the card to the hard list when it is not there yet and leaves the list as it is otherwise, so the list keeps first-rated order without repeats and is no longer than the deck |
| Scheduler.AnswerKeepsValid | src/scheduler.rs:64-109 | every answer keeps the scheduler's invariant (cards under their ids, queue and hard list naming known cards, no repeated hard card) |
| Scheduler.ReviewsCounted | src/scheduler.rs:64-121 | over any sequence of answers the review count grows by exactly the number of non-Again answers to known cards, while the session total and the set of cards stay fixed and the invariant holds |
| MainMenu.SelectUp | src/scenes/main_menu/input.rs:15 | Up moves one option up and stops at the first |
| MainMenu.SelectDown | src/scenes/main_menu/input.rs:13-16 | Down moves one option down and stops at the last of three |
| MainMenu.HandleMainMenuInput | src/scenes/main_menu/input.rs:10-49 | only a fresh key press in the menu changes anything; the error "User quit" comes exactly from Return on the third option; Return on the first goes to deck selection; other presses stay in the menu |
| MainMenu.RunStaysInRange | src/scenes/main_menu/input.rs:13-16 | over any run of events the selection stays among the three options |
| MainMenu.UpDownInverse | src/scenes/main_menu/input.rs:15-16 | Down then Up, and Up then Down, come back to the same option unless clamped |
| MainMenu.RunQuits | src/scenes/main_menu/input.rs:10-49 | a run of events ends in an error only with "User quit", and exactly when some prefix of it leaves the menu on the last option and the next event is a fresh Return |
| Studying.MaxScroll | src/scenes/studying/input.rs:152-160 | the scroll limit is the card's height minus the 290-pixel viewport, or 0; the card's height is both layouts plus 20, or 0 if either is missing |
| Studying.ScrollUp | src/scenes/studying/input.rs:158 | Up scrolls 30 pixels up and stops at the top |
| Studying.ScrollDown | src/scenes/studying/input.rs:159-162 | Down scrolls 30 pixels down and stops at the limit |
| Studying.KeyRating | src/scenes/studying/input.rs:135-141 | B, Y, A and X are the keys for Again, Hard, Good and Easy, each the only key of its rating |
| Studying.PadInput | src/scenes/studying/input.rs:19-115 | a button event changes at most the reveal and ruby flags; the answer is shown afterwards iff it was or DPadDown was pressed; a face button rates Good exactly on a revealed card; LeftShoulder rewinds |
| Studying.KeyInput | src/scenes/studying/input.rs:120-172 | a key event changes at most reveal, ruby flag and offset; arrows reveal; the offset moves only on a revealed card with Up or Down; a rating is dispatched exactly for a revealed card and a rating key, with that key's rating; keys never rewind |
| Studying.Reloaded | src/scenes/studying/logic.rs:9-40 | after a dispatch: at the end of the deck only the done flag is set; otherwise the answer is hidden and the offset reset, the new card's layouts replace the old ones, or stay when its note is missing; the ruby flag and scroll bounds are kept |
| Studying.HandleStudyingInput | src/scenes/studying/input.rs:15-179 | nothing happens outside the scene; the scene is left exactly on a fresh Backspace; a rating is dispatched only for a revealed card; a rewind exactly on LeftShoulder; every dispatch is followed by the reload of the next card |
| Studying.ActionIgnoresReload | src/scenes/studying/input.rs:34-91 | which action an event dispatches does not depend on the card loaded next, and only rating, face-button and LeftShoulder presses dispatch |
| Studying.ScrollStaysInBounds | src/scenes/studying/input.rs:152-164 | no event moves the offset outside `[0, limit]`; the layouts bounding it change only when a dispatch loads a new card |
| Studying.ScrollRules | src/scenes/studying/input.rs:134-165 | the offset moves only on a revealed card with Up or Down, by the clamped step, or returns to 0 when a dispatch loads the next card |
| Studying.RunKeepsBounds | src/scenes/studying/input.rs:15-179 | over any run of events and reloads the offset stays within bounds, and a shown answer stays shown until an event dispatches |
| Studying.ScrollInverse | src/scenes/studying/input.rs:157-162 | Down then Up, and Up then Down, come back to the same offset unless clamped |
| Studying.RevealRules | src/scenes/studying/input.rs:19-31 | a shown answer stays shown unless a dispatch loads the next card, which hides it; a hidden one is revealed exactly by DPadDown or an arrow key press |
| Studying.RubyToggle | src/scenes/studying/input.rs:108-115 | LShift or RightShoulder pressed shows readings, released hides them, and no other event, reload included, touches the flag |
| Studying.RatingDispatch | src/scenes/studying/input.rs:34-91 | before reveal nothing is rated; afterwards keys B, Y, A, X rate Again, Hard, Good, Easy and every face button rates Good; nothing else rates |

## Left out

- Rendering through SDL, surfaces and textures, and the font backend are not modelled. The width function, the line height and `heightAt` stand in for them. Their errors are left out too: the `?` on each measurement in `layout_text_binary` and `find_split_index`, and the hint layout's `?` in the studying handler. So the modelled layout never fails. The search's backend error is modelled.
- The font's style save and restore around measurement is not modelled. It is state of the backend only.
- The markup parser itself is not modelled: `tl` parsing, the `body` query and the fallback to the document's children. A parsed tree (`Node`) is the input, and a parse failure is the `ParseFailed` outcome.
- `new_text_block` is computed by the parser but never read by the layout. The model keeps the field and adds no block breaks.
- Floating point is not modelled. The rounded products of interval and ease (`src/scheduler.rs:86`, `:97`, `:102`) become the parameter `scaled`. Every stated property holds whatever it is, because of the `max(…, interval + 1)` guard.
- The shuffle in `Sm2Scheduler::new` becomes the parameter `order`, which may be any arrangement of the deck's distinct ids. Notes and `get_note` are not modelled; they are a lookup table.
- Integer widths are not modelled: `u32`, `u16`, `i32` and `usize` are unbounded here. Wrap-around and panics on overflow, such as `low = mid + 1` at `u16::MAX` or `card.lapses += 1`, are not represented.
- The studying scene's calls into the scheduler are not modelled: answering through the boxed `Scheduler` trait, rewinding, logging and saving to the database. The handler returns the `Action` it dispatches instead. The trait shown does not have the `add_card_to_front` and `rewind_last_answer` that the rewind branch calls.
- `load_next_card` and `load_card_layouts` are modelled by their effect on the scene state. What they load, after a rating or after a rewind, becomes the `Reload` parameter: the deck is done, the note is missing, or the next or rewound card's layouts. The scheduler, note lookup and layout engine that decide it are not called. The "Deck Complete!" layout and the front and ruby layouts are not kept, because the handler never reads them. The `?` errors of logging and saving before the reload are not modelled, so a dispatch always reloads.
- The hint layout built on reveal is not modelled. Its content is a constant text laid out by the engine above.
- Translating raw events to handheld buttons (`map_to_brick_input`) is not part of this model. Key and button events are separate alphabets: a key event is assumed never to map to a button.
- Deck loading, threads and channels, the replay log, the database and the other scenes are not modelled. They are I/O and concurrency.
- Layout.LayoutLinesOk: bounds the line count from below by the number of line feeds rather than giving it exactly. Wrapping adds lines, and the exact count depends on the widths.

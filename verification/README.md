# Mulaworks admin and site logic, in Dafny

This project models the client-side logic of the Mulaworks architecture-firm
site. It covers five areas.

- **Work body editor.** This is the admin work screen. A work's body is an
  ordered list of content blocks of three kinds: text, image and video.
  - A text block holds an HTML fragment.
  - An image block holds its slot URLs joined with commas.
  - A video block holds one URL.
  - Media blocks name a layout from a fixed catalogue of six.
  - The editor state is the blocks, the id of the block being edited, and
    the unsaved-changes flag.
  - Every editor action is a pure transition of that state: add a text
    block, add a media block, remove, move up or down, change layout, put
    an uploaded image into a slot, set a video URL, load a stored work.
- **Work list filter.** The search box and type buttons of the same
  screen.
- **Publications editor.** The admin about screen: the list, the
  add/edit form, save, delete and reordering.
- **Contact form.** On the home page: validation (required fields and the
  email pattern), typing, and submission.
- **Access rules.** The request middleware that guards the admin area,
  and the checks and storage path of the image upload helper.

The JavaScript behaviour the source relies on is written out. This
includes:

- truthiness, where the empty string counts as false;
- `findIndex` returning -1 on a miss;
- `splice` normalising negative and too-large start positions;
- `split`/`join` on one character;
- `trim` and `\s` over the ECMAScript whitespace set;
- the two global regex replacements of `cleanHtmlContent`;
- the email regular expression.

The backend, the mail service, the clock, the browser prompts and the file
picker become parameters.

Modules:

- `Core`: option, result and truthiness.
- `Text`: string primitives.
- `JsArray`: array primitives.
- `Html`: `cleanHtmlContent`.
- `MediaSlots`: comma-joined slot URLs.
- `Upload`: `uploadImage`.
- `Blocks`: the block editor.
- `Works`: `filteredWorks`.
- `Publications`: the publications editor.
- `ContactForm`: the contact form.
- `RouteGuard`: the middleware.

## Model

| member | source | states |
|---|---|---|
| Text.TrimStart | src/app/components/home/homesectionsix.tsx:37-44 | the front of `trim`: a suffix of the input whose cut-away part is all whitespace and which does not start with whitespace |
| Text.TrimEnd | src/app/components/home/homesectionsix.tsx:37-44 | the back of `trim`: a prefix of the input whose cut-away part is all whitespace and which does not end with whitespace |
| Text.TrimIsInnerSlice | src/app/components/admin/admin.tsx:102-107 | the trimmed text is an inner slice of the input that starts and ends with non-whitespace, and everything cut away is whitespace |
| Text.TrimEmptyIffAllSpace | src/app/components/home/homesectionsix.tsx:37-44 | `!value.trim()` holds exactly when the value is all whitespace (or empty) |
| Text.Split | src/lib/supabase.ts:68 | `split` on one character gives one more piece than there are separators, and no piece holds the separator |
| Text.JoinSplit | src/app/components/admin/admin.tsx:816-826 | joining the pieces of a split with the same separator gives back the string |
| Text.SplitJoin | src/app/components/admin/admin.tsx:816-826 | splitting the join of separator-free pieces gives back the pieces |
| Text.LastPieceIsSuffix | src/lib/supabase.ts:68 | `split(sep).pop()` is the separator-free suffix after the last separator, and the whole string when there is no separator |
| Text.IncludesIffOccurs | src/app/components/admin/admin.tsx:654 | `includes` holds exactly when the needle occurs at some position of the text |
| Text.ToLowerIdempotent | src/app/components/admin/admin.tsx:654 | lower-casing twice is lower-casing once |
| JsArray.SpliceStart | src/app/components/admin/admin.tsx:863 | `splice` reads a start in range as it is, counts a negative start back from the end and stops at 0, and clamps a start past the end to the length; the other splice calls, admin.tsx lines 882 and 913-914 and adminabout.tsx lines 114-115, read their start the same way |
| JsArray.SpliceRemoveOne | src/app/components/admin/admin.tsx:912 | `splice(start, 1)` removes the element at the normalised start and shifts the rest down |
| JsArray.SpliceInsert | src/app/components/admin/admin.tsx:913 | `splice(start, 0, x)` puts `x` at the normalised start, keeps everything else in order, and adds `x` to the multiset |
| JsArray.RemoveInsertNeighbourIsSwap | src/app/components/admin/adminabout.tsx:113-115 | removing an element and inserting it at a neighbouring position is the swap of the two, a permutation |
| JsArray.SwapTwice | src/app/components/admin/adminabout.tsx:104-119 | swapping back undoes a swap |
| JsArray.Filter | src/app/components/admin/adminabout.tsx:97 | `filter` keeps exactly the elements satisfying the predicate, with their multiplicities, in their original order |
| JsArray.FilterCongruent | src/app/components/admin/admin.tsx:653-657 | filters with predicates that agree on every element give the same list |
| JsArray.FilterKeepAll | src/app/components/admin/admin.tsx:653-657 | a predicate true of every element keeps the list as it is |
| Html.SpaceRun | src/app/components/admin/admin.tsx:104 | `\s*` at the start of the text matches the longest all-whitespace prefix |
| Html.SpaceRunUnique | src/app/components/admin/admin.tsx:104-105 | the greedy whitespace match is the one all-whitespace prefix followed by a non-space character or the end of the text |
| Html.EmptyParagraphAt | src/app/components/admin/admin.tsx:104 | a match of `<p>\s*<\/p>` at the start of the text is `<p>`, whitespace only, then `</p>` |
| Html.EmptyParagraphFound | src/app/components/admin/admin.tsx:104 | conversely, `<p>`, any whitespace, then `</p>` at the start of the text is always a match, of exactly that length |
| Html.StripEmptyParagraphs | src/app/components/admin/admin.tsx:104 | removing the empty paragraphs never lengthens the text |
| Html.StripDropsLeadingEmptyParagraph | src/app/components/admin/admin.tsx:104 | an empty paragraph at the front is removed whole, and the scan resumes right after it |
| Html.StripKeepsUnmatched | src/app/components/admin/admin.tsx:104 | a character where no match starts is kept, and the scan resumes right after it |
| Html.StripAfterPlainText | src/app/components/admin/admin.tsx:104 | text without `<` is kept in front, and every match in what follows is still removed, so the replacement is global |
| Html.EmptyParagraphAfterNewline | src/app/components/admin/admin.tsx:102-107 | an empty paragraph after a newline is removed, leaving only the newline |
| Html.StripWithoutMatchKeeps | src/app/components/admin/admin.tsx:104 | a text with no match at any position comes back unchanged |
| Html.StripWithoutMarkerKeeps | src/app/components/admin/admin.tsx:104 | a text without `<` comes back unchanged |
| Html.CollapseSpace | src/app/components/admin/admin.tsx:105 | after `replace(/\s+/g, ' ')` whitespace appears only as single spaces; the text is all whitespace exactly when the input was; a leading whitespace character stays a leading space |
| Html.CollapseBlank | src/app/components/admin/admin.tsx:105 | a non-empty run of whitespace on its own becomes one space |
| Html.CollapseConcat | src/app/components/admin/admin.tsx:105 | collapsing distributes over a concatenation whose second part does not start with whitespace, since no run crosses the seam |
| Html.CollapseSplitsAtWord | src/app/components/admin/admin.tsx:105 | every non-whitespace character stays and splits the collapse in two, so with `CollapseBlank` each maximal whitespace run becomes exactly one space |
| Html.CollapseKeepsWords | src/app/components/admin/admin.tsx:105 | the non-whitespace characters survive collapsing, all of them and in their order |
| Html.ConsCollapsed | src/app/components/admin/admin.tsx:105 | one character in front of a collapsed text keeps it collapsed when it is not whitespace, or is one space in front of a non-space |
| Html.CleanIsNormalised | src/app/components/admin/admin.tsx:102-107 | the cleaned text has no whitespace at either end and none but single spaces inside |
| Html.CleanEmptyIff | src/app/components/admin/admin.tsx:102-107 | a block cleans to nothing exactly when only whitespace is left after removing the empty paragraphs |
| Html.EmptyMarkerMatches | src/app/components/admin/admin.tsx:104 | `<p></p>` is one whole match of the empty-paragraph pattern |
| Html.FreshParagraphIsEmpty | src/app/components/admin/admin.tsx:872-877 | the `<p></p>` a new text block starts with cleans to nothing |
| Html.WordIsNotEmpty | src/app/components/admin/admin.tsx:893 | a paragraph whose text starts with a character that is neither whitespace nor `<` does not clean to nothing |
| MediaSlots.Slots | src/app/components/admin/admin.tsx:816 | `content ? content.split(',') : []` yields no slots exactly for empty content, comma-free slots, and slots that join back to the content |
| MediaSlots.SlotsOfJoin | src/app/components/admin/admin.tsx:826 | slot lists that hold no comma and are not one empty slot survive being stored and read back |
| MediaSlots.AssignSlot | src/app/components/admin/admin.tsx:816-826 | an in-range slot is overwritten, a missing or too-large slot index appends, a negative index leaves the content as it was |
| MediaSlots.AssignSlotCount | src/app/components/admin/admin.tsx:818-822 | overwriting keeps the slot count; appending adds exactly one slot |
| MediaSlots.AssignSlotKeepsOthers | src/app/components/admin/admin.tsx:818-819 | overwriting slot `i` puts the URL at `i` and leaves every other slot where it was |
| Upload.Digits | src/lib/supabase.ts:69 | the timestamp is written with at least one character, all of them decimal digits, starting with `0` exactly for zero, so with no leading zero |
| Upload.DigitsRoundTrip | src/lib/supabase.ts:69 | the decimal rendering of the timestamp reads back as the timestamp |
| Upload.Extension | src/lib/supabase.ts:68 | the extension is the dot-free text after the last dot, or the whole name when there is no dot |
| Upload.ExtensionOfDotted | src/lib/supabase.ts:68-70 | a dot-free suffix directly after a dot is what the extension comes out as |
| Upload.StoragePathKeepsExtension | src/lib/supabase.ts:68-70 | the stored object sits under `public_uploads/` and keeps the file's extension |
| Upload.StoragePathTimestamp | src/lib/supabase.ts:69-70 | between the folder and the extension the path holds the timestamp in decimal, readable back |
| Upload.Message | src/lib/supabase.ts:60-92 | every failure is thrown with a non-empty text, even a storage error whose own message is empty |
| Upload.UploadImage | src/lib/supabase.ts:53-100 | an unlisted type fails as such whatever the size; a listed type over 5 MiB fails as too large; only a file passing both reaches storage, under the timestamped path; it succeeds exactly when storage then reports a non-empty public URL, and returns that URL; it fails with storage's message exactly when storage rejects; an empty URL is its own failure |
| Upload.SizeBoundInclusive | src/lib/supabase.ts:57-64 | exactly 5 MiB is accepted and one byte more is refused |
| Upload.TypeCheckedFirst | src/lib/supabase.ts:59-61 | an SVG file is refused for its type even when it is also too large |
| Blocks.FindLayoutIn | src/app/components/admin/admin.tsx:849 | `find` on the catalogue returns an entry with the id, and nothing exactly when no entry has it |
| Blocks.FindLayoutInFirst | src/app/components/admin/admin.tsx:849 | `find` returns the first entry with the id, even when a later one shares it |
| Blocks.LayoutIdsDistinct | src/app/components/admin/admin.tsx:33-100 | the six catalogue ids are pairwise distinct |
| Blocks.LayoutCatalogue | src/app/components/admin/admin.tsx:33-100 | the catalogue knows exactly `layout1` to `layout6`, and only `layout6` is for video |
| Blocks.BlockIndex | src/app/components/admin/admin.tsx:907 | `findIndex` gives the first position holding the id, and -1 exactly when no block has it |
| Blocks.MoveBlock | src/app/components/admin/admin.tsx:906-918 | moving keeps the blocks as a permutation, the same length and the same block being edited |
| Blocks.MoveBlockSwapsNeighbours | src/app/components/admin/admin.tsx:906-918 | for the first block with the id: at the list boundary nothing changes; otherwise it trades places with its neighbour, all other positions keep their block, and changes are flagged |
| Blocks.MoveUnknownDownRotates | src/app/components/admin/admin.tsx:907-915 | with an unknown id, "down" takes the last block to the front, because `findIndex` gives -1 and `splice(-1, 1)` takes the last element |
| Blocks.MoveUnknownUpIsNoop | src/app/components/admin/admin.tsx:907-910 | with an unknown id, "up" changes nothing |
| Blocks.RemoveBlock | src/app/components/admin/admin.tsx:892-904 | refused exactly when at most one block is left and some text block holds content; otherwise exactly the blocks with other ids remain, in order and with their multiplicities, changes are flagged, and the edited block falls back to the old first block's id when it was the one removed |
| Blocks.EmptyLastBlockIsRemovable | src/app/components/admin/admin.tsx:893 | a lone fresh text block, or a lone media block, can be removed |
| Blocks.SeveralBlocksAlwaysRemovable | src/app/components/admin/admin.tsx:893 | with two or more blocks removal is never refused |
| Blocks.RefusalIgnoresId | src/app/components/admin/admin.tsx:893-896 | the guard does not look at the id: removing an absent id from a lone block with text is refused |
| Blocks.RemoveActiveFirstKeepsStaleId | src/app/components/admin/admin.tsx:898-901 | removing the edited first block leaves the edited id pointing at the block just removed |
| Blocks.InsertionPoint | src/app/components/admin/admin.tsx:857-865 | with no id (or an empty one) the new block goes at the end; with a known id it goes right after that id's first block; with an unknown id it goes at the front |
| Blocks.InsertBlock | src/app/components/admin/admin.tsx:880-886 | the new block sits at the insertion point, with the blocks before and after it unchanged |
| Blocks.AddTextBlock | src/app/components/admin/admin.tsx:872-890 | one empty-paragraph text block is inserted at the insertion point and becomes the block being edited; nothing else moves; changes are flagged |
| Blocks.AddMediaBlock | src/app/components/admin/admin.tsx:848-870 | an unknown layout changes nothing; otherwise one empty block of that layout, a video block exactly for a video layout and an image block otherwise, is inserted at the insertion point; the edited block stays the same |
| Blocks.UpdateBlockLayout | src/app/components/admin/admin.tsx:920-932 | an unknown layout changes nothing; otherwise every block with the id takes the layout and becomes a media block, a video block exactly for `layout6`, keeping its id and content, and every other block is untouched |
| Blocks.LayoutChangeKeepsExtraSlots | src/app/components/admin/admin.tsx:275-277 | switching a two-image block to a one-column layout keeps both URLs, so the block has one URL more than its layout has columns |
| Blocks.AssignImage | src/app/components/admin/admin.tsx:814-832 | the uploaded URL goes into the slot of every block with the id, by the slot rule, and other blocks are untouched |
| Blocks.EditorImageUpload | src/app/components/admin/admin.tsx:759-785 | the upload succeeds exactly when `uploadImage` accepts the file, with the same URL: the editor's own type and size checks and its empty-URL check refuse nothing that `uploadImage` accepts; a refusal always carries a non-empty message |
| Blocks.DisplayLayout | src/app/components/admin/admin.tsx:263-275 | a block is shown with the catalogue entry of its own layout id, or of `layout1` when it has none; an id the catalogue lacks falls back to the first entry |
| Blocks.AddImageToBlock | src/app/components/admin/admin.tsx:801-846 | no file changes nothing; a failed upload changes nothing and reports a message; a successful one stores the URL by the slot rule |
| Blocks.AssignVideo | src/app/components/admin/admin.tsx:788-799 | a cancelled or empty prompt changes nothing; otherwise every block with the id takes the URL as its content, keeping id, kind and layout, and other blocks are untouched |
| Blocks.SelectWork | src/app/components/admin/admin.tsx:659-670 | decoded blocks are loaded as they are; content that does not decode becomes one text block with id `1` holding it, or an empty paragraph when it is empty; changes are marked saved |
| Blocks.EmptyLegacyLoadsAsNewWork | src/app/components/admin/admin.tsx:666 | an empty record that does not decode loads exactly as the body of a newly created work |
| Blocks.NewWorkWithImage | src/app/components/admin/admin.tsx:848-870 | a new work, an image block added after its text block, and an upload into slot 0 give the text block followed by an image block holding just that URL |
| Works.FilterWorks | src/app/components/admin/admin.tsx:653-657 | the list keeps exactly the works whose lower-cased name contains the lower-cased search and whose type passes the type filter, in order and with multiplicities |
| Works.MatchesIffOccurs | src/app/components/admin/admin.tsx:654-656 | the name test is an occurrence of the lower-cased search in the lower-cased name |
| Works.SearchIgnoresCase | src/app/components/admin/admin.tsx:654 | searching with a term or with its lower-cased form gives the same list |
| Works.EmptySearchListsAll | src/app/components/admin/admin.tsx:653-657 | an empty search with `All` lists every work |
| Publications.StartAdd | src/app/components/admin/adminabout.tsx:40-48 | adding starts from an empty form, editing nothing, list untouched |
| Publications.StartEdit | src/app/components/admin/adminabout.tsx:50-54 | editing copies the entry into the form and edits its id when it has a non-empty one |
| Publications.CancelEdit | src/app/components/admin/adminabout.tsx:56-64 | cancelling returns to an idle empty form, list untouched |
| Publications.Save | src/app/components/admin/adminabout.tsx:66-90 | an incomplete form saves nothing; a backend error keeps everything; otherwise the entries with the edited id are replaced by the backend's record, or the new record is appended, and the form is reset |
| Publications.EditThenSaveReplaces | src/app/components/admin/adminabout.tsx:50-90 | editing an entry with an id and saving replaces that entry in place and keeps the list length |
| Publications.Delete | src/app/components/admin/adminabout.tsx:92-102 | unless confirmed and deleted by the backend nothing changes; otherwise exactly the entries with other ids remain, in order |
| Publications.SpliceMove | src/app/components/admin/adminabout.tsx:112-115 | the two splices exchange the entry with its neighbour, a permutation |
| Publications.Move | src/app/components/admin/adminabout.tsx:104-119 | at the boundary nothing changes; otherwise the entry and its neighbour exchange places; the list stays a permutation |
| Publications.MoveSwapsNeighbours | src/app/components/admin/adminabout.tsx:104-119 | away from the boundary the two entries trade places, every other entry stays put, and the form is untouched |
| Publications.MoveDownThenUpRestores | src/app/components/admin/adminabout.tsx:104-119 | moving an entry down and back up restores the list |
| ContactForm.IndexOf | src/app/components/home/homesectionsix.tsx:41 | the first position of a character, and -1 exactly when it is absent |
| ContactForm.EmailPatternIff | src/app/components/home/homesectionsix.tsx:41 | `/^[^\s@]+@[^\s@]+\.[^\s@]+$/` matches exactly the addresses with no whitespace, exactly one `@` with text before it, and a dot inside the part after it |
| ContactForm.PatternGivesShape | src/app/components/home/homesectionsix.tsx:41 | a match of the pattern has that plain shape |
| ContactForm.ShapeGivesPattern | src/app/components/home/homesectionsix.tsx:41 | an address of that shape matches the pattern |
| ContactForm.RequiredError | src/app/components/home/homesectionsix.tsx:37-44 | a required field gets its message exactly when it is blank after trimming |
| ContactForm.EmailError | src/app/components/home/homesectionsix.tsx:39-43 | a blank email is "required"; otherwise it is "invalid" exactly when it does not have the email shape |
| ContactForm.Validate | src/app/components/home/homesectionsix.tsx:34-48 | each field's error is set exactly when the field fails its check, and the form is valid exactly when there is no error |
| ContactForm.LeadingBlankEmailIsInvalid | src/app/components/home/homesectionsix.tsx:39-42 | the pattern is matched against the untrimmed value, so a leading space makes an otherwise good email invalid |
| ContactForm.PlainEmailIsValid | src/app/components/home/homesectionsix.tsx:41 | `a@b.co` passes |
| ContactForm.HandleChange | src/app/components/home/homesectionsix.tsx:50-58 | typing sets exactly that field and clears its error; all other values and errors and the banner stay |
| ContactForm.HandleSubmit | src/app/components/home/homesectionsix.tsx:60-105 | an invalid form only shows its errors; a valid one clears them, and a 200 reply shows success and empties the form while anything else shows failure and keeps it |
| ContactForm.SentFormIsBlank | src/app/components/home/homesectionsix.tsx:60-95 | after a 200 reply the form never passes validation: a valid form was sent and emptied, an invalid one was kept as it was |
| RouteGuard.Decide | src/middleware.ts:5-39 | an admin path without a session goes to login carrying the path; the login page with a session goes to the `redirect` parameter or the admin home; every other request passes, and exactly those |
| RouteGuard.LoginOutsideAdmin | src/middleware.ts:15-26 | the login page is not under the admin prefix, so at most one rule applies |
| RouteGuard.LoginBounceReturnsToOrigin | src/middleware.ts:15-34 | a new request for the login URL, with a session and the `redirect` parameter set by the bounce, is sent back to the original admin path |
| RouteGuard.LoginWithoutSessionPasses | src/middleware.ts:15-38 | the login page without a session is let through, so the guard cannot loop |

## Left out

- Rendering is not modelled: JSX, styling, the layout CSS classes, toasts, and the loading and saving spinners. The `isSaving` and `isSubmitting` flags go with them.
- The rich-text editor (tiptap) and its update hook are not modelled. A text block's HTML is taken as given.
- The JSON codec is not modelled. `JSON.parse` is the `parsed` parameter of `Blocks.SelectWork`. A parse that succeeds but does not give a block array is not distinguished.
- Backend calls are parameters, not code: Supabase storage, the database reads and writes, `updatePublication`, `addPublication` and `deletePublication`. The same goes for the EmailJS call, `window.prompt`, `confirm`, the file picker and `Date.now()`.
- Uniqueness of block ids is not modelled. Ids come from `Date.now()` and are passed in, so two blocks may share an id. Every contract covers that case.
- Saving, creating and deleting works are not modelled, nor are pagination and the public pages. They are full-record backend writes with no logic of their own.
- The YouTube and Vimeo id extraction for display is not modelled.
- Text.ToLower: lower-cases ASCII letters only, not the full Unicode mapping of `toLowerCase`.
- RouteGuard.Decide: the redirect target is returned as the raw parameter. Resolving it against the request URL (`new URL`) is not modelled, and neither is the `matcher` configuration that decides which requests reach the middleware.
- Publications.Move: requires the index to be in range. The screen only passes indices of rendered entries. An out-of-range index would insert `undefined` into the list, and that is not modelled.
- `src/app/gohte-architects/auth/login/page.tsx` is not part of this model. It reads a `redirectedFrom` parameter, while the middleware sets `redirect`. After signing in there, a visitor always lands on the admin home.
- The removal guard follows the code, not a "would leave no block" reading. It refuses when the list currently has at most one block and a text block has content. It does not look at which id is removed.

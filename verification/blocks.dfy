/** The block editor of the admin work screen: a work's body is an ordered
    list of text, image and video blocks, and each editor action is a
    transition of the editor state (the blocks, the id of the block whose
    text is being edited, and the unsaved-changes flag). */
module Blocks {
  import opened Core
  import opened Text
  import JsArray
  import Html
  import MediaSlots
  import Upload

  datatype BlockType = TextBlock | ImageBlock | VideoBlock

  datatype MediaType = ImageMedia | VideoMedia

  /** `ContentBlock`: `layout` is set for media blocks only. */
  datatype Block = Block(id: string, kind: BlockType, content: string, layout: Option<string>)

  /** An entry of the layout catalogue; the CSS class strings are left out. */
  datatype Layout = Layout(id: string, name: string, description: string, columns: nat, mediaType: Option<MediaType>)

  /** `IMAGE_LAYOUTS`. */
  const Layouts: seq<Layout> := [
    Layout("layout1", "Full Height", "Single image with 100vh height", 1, Some(ImageMedia)),
    Layout("layout2", "Auto Height", "Single image with auto height", 1, Some(ImageMedia)),
    Layout("layout3", "2 Columns (60/40) Full Height", "60/40 split with 100vh height", 2, Some(ImageMedia)),
    Layout("layout4", "2 Columns (40/60) Medium Height", "40/60 split with 70% height", 2, Some(ImageMedia)),
    Layout("layout5", "2 Columns (60/40) Medium Height", "60/40 split with 70% height", 2, Some(ImageMedia)),
    Layout("layout6", "Video Block", "Embed a video", 1, Some(VideoMedia))
  ]

  datatype Editor = Editor(blocks: seq<Block>, active: Option<string>, dirty: bool)

  datatype Direction = Up | Down

  // ------------------------------------------------------------- lookups

  /** `layouts.find(l => l.id === id)`. */
  function FindLayoutIn(layouts: seq<Layout>, id: string): (r: Option<Layout>)
    ensures r.Some? ==> r.value in layouts && r.value.id == id
    ensures r.None? <==> forall k :: 0 <= k < |layouts| ==> layouts[k].id != id
  {
    if |layouts| == 0 then None
    else if layouts[0].id == id then Some(layouts[0])
    else FindLayoutIn(layouts[1..], id)
  }

  /** `find` stops at the first entry with the id, even if a later one
      shares it. */
  lemma {:induction false} FindLayoutInFirst(layouts: seq<Layout>, id: string, i: nat)
    requires i < |layouts| && layouts[i].id == id
    requires forall k :: 0 <= k < i ==> layouts[k].id != id
    ensures FindLayoutIn(layouts, id) == Some(layouts[i])
    decreases i
  {
    if i > 0 {
      assert layouts[0].id != id;
      assert layouts[1..][i - 1] == layouts[i];
      FindLayoutInFirst(layouts[1..], id, i - 1);
    }
  }

  function FindLayout(id: string): (l: Option<Layout>)
    ensures l.Some? ==> l.value in Layouts && l.value.id == id
  {
    FindLayoutIn(Layouts, id)
  }

  /** The catalogue ids are `layout1` to `layout6`, each once. */
  lemma LayoutIdsDistinct()
    ensures forall i, j :: 0 <= i < j < |Layouts| ==> Layouts[i].id != Layouts[j].id
  {
    assert Layouts[0].id[6] == '1' && Layouts[1].id[6] == '2' && Layouts[2].id[6] == '3';
    assert Layouts[3].id[6] == '4' && Layouts[4].id[6] == '5' && Layouts[5].id[6] == '6';
  }

  /** The catalogue knows exactly the six ids `layout1` to `layout6`, and
      only `layout6` is for video. */
  lemma LayoutCatalogue(id: string)
    ensures FindLayout(id).Some? <==> id in {"layout1", "layout2", "layout3", "layout4", "layout5", "layout6"}
    ensures FindLayout(id).Some? ==> (FindLayout(id).value.mediaType == Some(VideoMedia) <==> id == "layout6")
  {
    LayoutIdsDistinct();
    var r := FindLayout(id);
    if r.Some? {
      assert r.value in Layouts && r.value.id == id;
    } else {
      assert forall k :: 0 <= k < |Layouts| ==> Layouts[k].id != id;
    }
  }

  /** The block type a media layout calls for. */
  function KindFor(l: Layout): (kind: BlockType)
  {
    if l.mediaType == Some(VideoMedia) then VideoBlock else ImageBlock
  }

  predicate HasId(blocks: seq<Block>, id: string)
  {
    exists k :: 0 <= k < |blocks| && blocks[k].id == id
  }

  /** `blocks.findIndex(b => b.id === id)`: the first position holding `id`,
      or -1 when there is none. */
  function BlockIndex(blocks: seq<Block>, id: string): (r: int)
    ensures -1 <= r < |blocks|
    ensures r >= 0 ==> blocks[r].id == id && forall k :: 0 <= k < r ==> blocks[k].id != id
    ensures r == -1 <==> !HasId(blocks, id)
  {
    if |blocks| == 0 then -1
    else if blocks[0].id == id then 0
    else
      var r := BlockIndex(blocks[1..], id);
      assert forall k :: 1 <= k < |blocks| ==> blocks[k] == blocks[1..][k - 1];
      if r == -1 then -1 else r + 1
  }

  // ---------------------------------------------------------------- move

  /** `moveBlock`: two splices, removing the block found by `findIndex` and
      inserting it one place up or down; nothing happens when that place is
      outside the list. */
  function MoveBlock(e: Editor, id: string, dir: Direction): (r: Editor)
    ensures |r.blocks| == |e.blocks|
    ensures multiset(r.blocks) == multiset(e.blocks)
    ensures r.active == e.active
  {
    var index := BlockIndex(e.blocks, id);
    var newIndex := if dir == Up then index - 1 else index + 1;
    if newIndex < 0 || newIndex >= |e.blocks| then e
    else
      var removed := e.blocks[JsArray.SpliceStart(index, |e.blocks|)];
      JsArray.SpliceRemoveOneMultiset(e.blocks, index);
      e.(blocks := JsArray.SpliceInsert(JsArray.SpliceRemoveOne(e.blocks, index), newIndex, removed), dirty := true)
  }

  /** Moving the first block with `id` from position `i`: at a boundary the
      editor is unchanged; otherwise the block and its neighbour exchange
      places and every other position keeps its block. */
  lemma MoveBlockSwapsNeighbours(e: Editor, id: string, dir: Direction, i: nat)
    requires i < |e.blocks| && e.blocks[i].id == id
    requires forall k :: 0 <= k < i ==> e.blocks[k].id != id
    ensures var t := if dir == Up then i - 1 else i + 1;
            var r := MoveBlock(e, id, dir);
            && (t < 0 || t >= |e.blocks| ==> r == e)
            && (0 <= t < |e.blocks| ==>
                  && r.dirty
                  && r.blocks[i] == e.blocks[t] && r.blocks[t] == e.blocks[i]
                  && forall k :: 0 <= k < |e.blocks| && k != i && k != t ==> r.blocks[k] == e.blocks[k])
  {
    var t := if dir == Up then i - 1 else i + 1;
    assert HasId(e.blocks, id);
    assert BlockIndex(e.blocks, id) == i;
    if 0 <= t < |e.blocks| {
      JsArray.RemoveInsertNeighbourIsSwap(e.blocks, i, t);
      assert JsArray.SpliceStart(i, |e.blocks|) == i;
      var r := MoveBlock(e, id, dir);
      assert r.blocks == JsArray.Swap(e.blocks, i, t);
    }
  }

  /** `findIndex` misses with -1, so moving an unknown id down takes the last
      block to the front. */
  lemma MoveUnknownDownRotates(e: Editor, id: string)
    requires !HasId(e.blocks, id) && |e.blocks| >= 1
    ensures MoveBlock(e, id, Down).blocks == [e.blocks[|e.blocks| - 1]] + e.blocks[..|e.blocks| - 1]
  {
    var r := MoveBlock(e, id, Down).blocks;
    var w := [e.blocks[|e.blocks| - 1]] + e.blocks[..|e.blocks| - 1];
    assert |r| == |w|;
    forall k | 0 <= k < |r|
      ensures r[k] == w[k]
    {
      if k > 0 {
        assert r[k] == JsArray.SpliceRemoveOne(e.blocks, -1)[k - 1];
      }
    }
  }

  /** Moving an unknown id up changes nothing. */
  lemma MoveUnknownUpIsNoop(e: Editor, id: string)
    requires !HasId(e.blocks, id)
    ensures MoveBlock(e, id, Up) == e
  {
  }

  // -------------------------------------------------------------- remove

  /** A text block whose cleaned HTML is not empty. */
  predicate HasText(b: Block)
  {
    b.kind == TextBlock && Html.CleanHtmlContent(b.content) != []
  }

  datatype Removal = Refused | Removed(editor: Editor)

  /** `removeBlock`. The guard looks at the current length, not at what the
      removal would leave, and does not look at `id` at all. After removing
      the active block the active id falls back to the OLD first block. */
  function RemoveBlock(e: Editor, id: string): (r: Removal)
    ensures r.Refused? <==> |e.blocks| <= 1 && exists k :: 0 <= k < |e.blocks| && HasText(e.blocks[k])
    ensures r.Removed? ==>
              var b := r.editor.blocks;
              && r.editor.dirty
              && (forall x :: x in b <==> x in e.blocks && x.id != id)
              && (forall x :: multiset(b)[x] == if x.id != id then multiset(e.blocks)[x] else 0)
              && JsArray.IsSubsequence(b, e.blocks)
    ensures r.Removed? && e.active != Some(id) ==> r.editor.active == e.active
    ensures r.Removed? && e.active == Some(id) ==>
              r.editor.active == (if |e.blocks| > 0 && e.blocks[0].id != [] then Some(e.blocks[0].id) else None)
  {
    if |e.blocks| <= 1 && exists k :: 0 <= k < |e.blocks| && HasText(e.blocks[k]) then Refused
    else
      var active := if e.active == Some(id) then
                      (if |e.blocks| > 0 && e.blocks[0].id != [] then Some(e.blocks[0].id) else None)
                    else e.active;
      var keep := (b: Block) => b.id != id;
      assert forall x :: keep(x) <==> x.id != id;
      Removed(Editor(JsArray.Filter(e.blocks, keep), active, true))
  }

  /** A freshly added text block, still `<p></p>`, never blocks its own
      removal, and neither does a lone media block whatever it holds. */
  lemma EmptyLastBlockIsRemovable(id: string, active: Option<string>, dirty: bool, media: Block)
    requires media.kind != TextBlock
    ensures RemoveBlock(Editor([Block(id, TextBlock, "<p></p>", None)], active, dirty), id).Removed?
    ensures RemoveBlock(Editor([media], active, dirty), media.id).Removed?
  {
    Html.FreshParagraphIsEmpty();
  }

  /** Two or more blocks are never refused, even if every one holds text. */
  lemma SeveralBlocksAlwaysRemovable(e: Editor, id: string)
    requires |e.blocks| >= 2
    ensures RemoveBlock(e, id).Removed?
  {
  }

  /** The guard ignores the id: asking to remove a block that is not there
      from a lone block holding text is refused all the same. */
  lemma RefusalIgnoresId(name: string, other: string)
    requires name != other
    ensures RemoveBlock(Editor([Block(name, TextBlock, "<p>a</p>", None)], None, false), other).Refused?
  {
    assert "<p>a</p>" == Html.OpenP + "a" + Html.CloseP;
    Html.WordIsNotEmpty("a");
    var e := Editor([Block(name, TextBlock, "<p>a</p>", None)], None, false);
    assert HasText(e.blocks[0]);
  }

  /** Deleting the active first block leaves the active id pointing at the
      block just deleted. */
  lemma RemoveActiveFirstKeepsStaleId(e: Editor, id: string)
    requires |e.blocks| >= 2 && e.blocks[0].id == id && id != [] && e.active == Some(id)
    ensures var r := RemoveBlock(e, id);
            r.Removed? && r.editor.active == Some(id) && !HasId(r.editor.blocks, id)
  {
    var b := RemoveBlock(e, id).editor.blocks;
    forall k | 0 <= k < |b|
      ensures b[k].id != id
    {
      assert b[k] in b;
    }
  }

  // ----------------------------------------------------------------- add

  /** Where `addTextBlock` and `addMediaBlock` insert: right after the first
      block with the given id, at the front when the id is unknown (the -1
      from `findIndex` plus one), at the end when no id (or an empty one) is
      given. */
  function InsertionPoint(blocks: seq<Block>, after: Option<string>): (p: nat)
    ensures p <= |blocks|
    ensures !Truthy(after) ==> p == |blocks|
    ensures Truthy(after) && HasId(blocks, after.value) ==>
              1 <= p && blocks[p - 1].id == after.value
              && forall k :: 0 <= k < p - 1 ==> blocks[k].id != after.value
    ensures Truthy(after) && !HasId(blocks, after.value) ==> p == 0
  {
    if Truthy(after) then JsArray.SpliceStart(BlockIndex(blocks, after.value) + 1, |blocks|)
    else |blocks|
  }

  /** `blocks` with `nb` spliced in at the insertion point. */
  function InsertBlock(blocks: seq<Block>, after: Option<string>, nb: Block): (r: seq<Block>)
    ensures var p := InsertionPoint(blocks, after);
            && |r| == |blocks| + 1
            && r[p] == nb
            && r[..p] == blocks[..p]
            && r[p + 1..] == blocks[p..]
  {
    if Truthy(after) then
      var r := JsArray.SpliceInsert(blocks, BlockIndex(blocks, after.value) + 1, nb);
      var p := InsertionPoint(blocks, after);
      assert r[p + 1..] == blocks[p..] by {
        assert forall k :: p < k < |r| ==> r[k] == blocks[k - 1];
      }
      r
    else blocks + [nb]
  }

  /** The content a new text block starts with. */
  const EmptyParagraph: string := "<p></p>"

  /** `addTextBlock`: one empty text block goes in at the insertion point
      and becomes the block being edited. */
  function AddTextBlock(e: Editor, after: Option<string>, newId: string): (r: Editor)
    ensures var p := InsertionPoint(e.blocks, after);
            && |r.blocks| == |e.blocks| + 1
            && r.blocks[p] == Block(newId, TextBlock, EmptyParagraph, None)
            && r.blocks[..p] == e.blocks[..p] && r.blocks[p + 1..] == e.blocks[p..]
            && r.active == Some(newId) && r.dirty
  {
    var nb := Block(newId, TextBlock, EmptyParagraph, None);
    Editor(InsertBlock(e.blocks, after, nb), Some(newId), true)
  }

  /** `addMediaBlock`: with a known layout, one empty media block of the
      layout's kind goes in at the insertion point; the block being edited
      stays the same. An unknown layout changes nothing. */
  function AddMediaBlock(e: Editor, after: Option<string>, layoutId: string, newId: string): (r: Editor)
    ensures FindLayout(layoutId).None? ==> r == e
    ensures FindLayout(layoutId).Some? ==> |r.blocks| == |e.blocks| + 1
    ensures FindLayout(layoutId).Some? ==>
              var p := InsertionPoint(e.blocks, after);
              var nb := r.blocks[p];
              && nb.id == newId && nb.content == [] && nb.layout == Some(layoutId)
              && (nb.kind == VideoBlock <==> FindLayout(layoutId).value.mediaType == Some(VideoMedia))
              && (nb.kind != VideoBlock ==> nb.kind == ImageBlock)
              && r.blocks[..p] == e.blocks[..p] && r.blocks[p + 1..] == e.blocks[p..]
              && r.active == e.active && r.dirty
  {
    match FindLayout(layoutId)
    case None => e
    case Some(l) =>
      var nb := Block(newId, KindFor(l), [], Some(layoutId));
      e.(blocks := InsertBlock(e.blocks, after, nb), dirty := true)
  }

  // -------------------------------------------------------------- layout

  /** `updateBlockLayout`: every block with the id takes the new layout and
      the layout's kind; contents and all other blocks are untouched. */
  function UpdateBlockLayout(e: Editor, blockId: string, layoutId: string): (r: Editor)
    ensures FindLayout(layoutId).None? ==> r == e
    ensures FindLayout(layoutId).Some? ==>
              && |r.blocks| == |e.blocks| && r.dirty && r.active == e.active
              && forall k :: 0 <= k < |e.blocks| ==>
                   && r.blocks[k].id == e.blocks[k].id
                   && r.blocks[k].content == e.blocks[k].content
                   && (e.blocks[k].id != blockId ==> r.blocks[k] == e.blocks[k])
                   && (e.blocks[k].id == blockId ==>
                         && r.blocks[k].layout == Some(layoutId)
                         && r.blocks[k].kind != TextBlock
                         && (r.blocks[k].kind == VideoBlock <==> layoutId == "layout6"))
  {
    match FindLayout(layoutId)
    case None => e
    case Some(l) =>
      LayoutCatalogue(layoutId);
      var kind := KindFor(l);
      e.(blocks := seq(|e.blocks|, k requires 0 <= k < |e.blocks| =>
                         if e.blocks[k].id == blockId then e.blocks[k].(layout := Some(layoutId), kind := kind)
                         else e.blocks[k]),
         dirty := true)
  }

  /** The layout a media block is drawn with: its own if the catalogue has
      it, the first entry otherwise. */
  function DisplayLayout(b: Block): (l: Layout)
    ensures l in Layouts
    ensures var id := if b.layout.Some? then b.layout.value else "layout1";
            && ((exists k :: 0 <= k < |Layouts| && Layouts[k].id == id) ==> l.id == id)
            && ((forall k :: 0 <= k < |Layouts| ==> Layouts[k].id != id) ==> l == Layouts[0])
  {
    var id := if b.layout.Some? then b.layout.value else "layout1";
    match FindLayout(id)
    case Some(l) => l
    case None => Layouts[0]
  }

  /** Columns of the layout that no URL fills yet; negative when the block
      holds more URLs than its layout shows. */
  function EmptySlots(b: Block): (n: int)
  {
    DisplayLayout(b).columns - |MediaSlots.Slots(b.content)|
  }

  /** Switching a two-image block to a one-column layout keeps both URLs,
      so the block holds more slots than its layout has columns. */
  lemma LayoutChangeKeepsExtraSlots(id: string)
    ensures var before := Editor([Block(id, ImageBlock, "a,b", Some("layout3"))], None, false);
            var after := UpdateBlockLayout(before, id, "layout1").blocks[0];
            && after.content == "a,b"
            && after.layout == Some("layout1")
            && EmptySlots(after) == -1
  {
    var after := UpdateBlockLayout(Editor([Block(id, ImageBlock, "a,b", Some("layout3"))], None, false), id, "layout1").blocks[0];
    MediaSlots.SlotsOfJoin(["a", "b"]);
    assert Join(["a", "b"], ',') == "a,b";
  }

  // --------------------------------------------------------------- media

  /** The image upload callback once it has a URL: the slot logic applies to
      every block with the id, and to nothing else. */
  function AssignImage(e: Editor, blockId: string, slot: Option<int>, url: string): (r: Editor)
    ensures |r.blocks| == |e.blocks| && r.dirty && r.active == e.active
    ensures forall k :: 0 <= k < |e.blocks| ==>
              && (e.blocks[k].id != blockId ==> r.blocks[k] == e.blocks[k])
              && (e.blocks[k].id == blockId ==>
                    && r.blocks[k].id == e.blocks[k].id
                    && r.blocks[k].kind == e.blocks[k].kind
                    && r.blocks[k].layout == e.blocks[k].layout
                    && (url != [] && ',' !in url ==>
                          var before := MediaSlots.Slots(e.blocks[k].content);
                          var after := MediaSlots.Slots(r.blocks[k].content);
                          && (slot.Some? && 0 <= slot.value < |before| ==> after == before[slot.value := url])
                          && ((slot.None? || slot.value >= |before|) ==> after == before + [url])))
  {
    e.(blocks := seq(|e.blocks|, k requires 0 <= k < |e.blocks| =>
                       if e.blocks[k].id == blockId
                       then e.blocks[k].(content := MediaSlots.AssignSlot(e.blocks[k].content, slot, url))
                       else e.blocks[k]),
       dirty := true)
  }

  /** `handleImageUpload`: the editor's own type and size checks, then
      `uploadImage`, then a check that the URL is not empty. */
  function EditorImageUpload(file: Upload.File, timestamp: nat, storage: string -> Upload.StorageReply): (r: Result<string, string>)
    ensures r.Ok? <==> Upload.UploadImage(file, timestamp, storage).Ok?
    ensures r.Ok? ==> r.value == Upload.UploadImage(file, timestamp, storage).value
    ensures r.Err? ==> r.error != []
  {
    if !StartsWith(file.mime, "image/") then Err("Please select an image file (JPEG, PNG, GIF, etc.)")
    else if file.size > 5 * 1024 * 1024 then Err("Image must be smaller than 5MB")
    else
      match Upload.UploadImage(file, timestamp, storage)
      case Err(err) => Err(Upload.Message(err))
      case Ok(url) => if url == [] then Err("Received empty URL from upload") else Ok(url)
  }

  /** The image branch of `handleAddMediaToBlock`: no file chosen changes
      nothing; a failed upload changes nothing and reports its message; a
      successful one stores the URL in the slot. */
  function AddImageToBlock(e: Editor, blockId: string, slot: Option<int>, file: Option<Upload.File>,
                           timestamp: nat, storage: string -> Upload.StorageReply): (r: (Editor, Option<string>))
    ensures file.None? ==> r == (e, None)
    ensures file.Some? && !Upload.UploadImage(file.value, timestamp, storage).Ok? ==> r.0 == e && r.1.Some?
    ensures file.Some? && Upload.UploadImage(file.value, timestamp, storage).Ok? ==>
              r == (AssignImage(e, blockId, slot, Upload.UploadImage(file.value, timestamp, storage).value), None)
  {
    if file.None? then (e, None)
    else
      match EditorImageUpload(file.value, timestamp, storage)
      case Err(message) => (e, Some(message))
      case Ok(url) => (AssignImage(e, blockId, slot, url), None)
  }

  /** The video branch of `handleAddMediaToBlock`: a non-empty prompted URL
      replaces the content of every block with the id (the slot index plays
      no part); a cancelled or empty prompt changes nothing. */
  function AssignVideo(e: Editor, blockId: string, prompt: Option<string>): (r: Editor)
    ensures !Truthy(prompt) ==> r == e
    ensures Truthy(prompt) ==>
              && |r.blocks| == |e.blocks| && r.dirty && r.active == e.active
              && forall k :: 0 <= k < |e.blocks| ==>
                   && (e.blocks[k].id != blockId ==> r.blocks[k] == e.blocks[k])
                   && (e.blocks[k].id == blockId ==>
                         r.blocks[k].content == prompt.value
                         && r.blocks[k].id == blockId
                         && r.blocks[k].kind == e.blocks[k].kind
                         && r.blocks[k].layout == e.blocks[k].layout)
  {
    if !Truthy(prompt) then e
    else
      e.(blocks := seq(|e.blocks|, k requires 0 <= k < |e.blocks| =>
                         if e.blocks[k].id == blockId then e.blocks[k].(content := prompt.value)
                         else e.blocks[k]),
         dirty := true)
  }

  // -------------------------------------------------------- load and new

  /** The body of a newly created work: one empty text block with id `1`. */
  const NewWorkBlocks: seq<Block> := [Block("1", TextBlock, EmptyParagraph, None)]

  /** `handleSelectWork`: the blocks decoded from the stored content, or,
      when decoding fails, the raw content wrapped in a single text block
      (an empty paragraph if the content is empty). `parsed` stands for the
      outcome of `JSON.parse`. Changes are marked saved. */
  function SelectWork(e: Editor, content: string, parsed: Option<seq<Block>>): (r: Editor)
    ensures !r.dirty && r.active == e.active
    ensures parsed.Some? ==> r.blocks == parsed.value
    ensures parsed.None? ==>
              && |r.blocks| == 1 && r.blocks[0].id == "1" && r.blocks[0].kind == TextBlock
              && r.blocks[0].layout.None?
              && (content != [] ==> r.blocks[0].content == content)
              && (content == [] ==> Html.CleanHtmlContent(r.blocks[0].content) == [])
  {
    Html.FreshParagraphIsEmpty();
    var blocks := match parsed
      case Some(bs) => bs
      case None => [Block("1", TextBlock, if content != [] then content else EmptyParagraph, None)];
    e.(blocks := blocks, dirty := false)
  }

  /** A record whose content cannot be decoded and is empty loads exactly
      like a freshly created work. */
  lemma EmptyLegacyLoadsAsNewWork(e: Editor)
    ensures SelectWork(e, [], None).blocks == NewWorkBlocks
  {
  }

  /** A new work, an image block added after its text block with `layout1`,
      and an upload into slot 0: the body is the text block followed by an
      image block holding just that URL. */
  lemma NewWorkWithImage(newId: string, url: string)
    requires url != [] && ',' !in url
    ensures var e0 := Editor(NewWorkBlocks, None, true);
            var e1 := AddMediaBlock(e0, Some("1"), "layout1", newId);
            var e2 := AssignImage(e1, newId, Some(0), url);
            newId != "1" ==>
              e2.blocks == [NewWorkBlocks[0], Block(newId, ImageBlock, url, Some("layout1"))]
  {
    var e0 := Editor(NewWorkBlocks, None, true);
    var e1 := AddMediaBlock(e0, Some("1"), "layout1", newId);
    assert HasId(NewWorkBlocks, "1");
    assert e1.blocks == [NewWorkBlocks[0], Block(newId, ImageBlock, [], Some("layout1"))];
    var e2 := AssignImage(e1, newId, Some(0), url);
    assert MediaSlots.Slots([]) == [];
    assert MediaSlots.AssignSlot([], Some(0), url) == url;
  }
}

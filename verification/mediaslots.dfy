/** The media slots of an image block: its `content` holds the slot URLs
    joined with commas, and an empty content holds no slot at all. */
module MediaSlots {
  import opened Core
  import opened Text

  /** `content ? content.split(',') : []`. */
  function Slots(content: string): (urls: seq<string>)
    ensures urls == [] <==> content == []
    ensures forall k :: 0 <= k < |urls| ==> ',' !in urls[k]
    ensures Join(urls, ',') == content
  {
    if content == [] then []
    else
      JoinSplit(content, ',');
      Split(content, ',')
  }

  lemma JoinNonEmpty(xs: seq<string>, sep: char)
    requires |xs| >= 2 || (|xs| == 1 && xs[0] != [])
    ensures Join(xs, sep) != []
  {
  }

  /** Slot lists that hold no comma and are not the single empty slot
      survive a trip through the stored content unchanged. */
  lemma SlotsOfJoin(xs: seq<string>)
    ensures (forall k :: 0 <= k < |xs| ==> ',' !in xs[k]) && (|xs| >= 2 || (|xs| == 1 && xs[0] != []))
            ==> Slots(Join(xs, ',')) == xs
  {
    if (forall k :: 0 <= k < |xs| ==> ',' !in xs[k]) && (|xs| >= 2 || (|xs| == 1 && xs[0] != [])) {
      JoinNonEmpty(xs, ',');
      SplitJoin(xs, ',');
    }
  }

  /** Store `url` in a slot, as the image upload callback does: an in-range
      slot is overwritten, a missing or too-large slot index appends. A
      negative index passes the bounds test but `urls[-1] = url` only sets
      a property that `join` ignores, so the content is left as it was. */
  function AssignSlot(content: string, slot: Option<int>, url: string): (r: string)
    ensures slot.Some? && slot.value < 0 ==> r == content
    ensures url != [] && ',' !in url ==>
              var urls := Slots(content);
              && (slot.Some? && 0 <= slot.value < |urls| ==> Slots(r) == urls[slot.value := url])
              && ((slot.None? || slot.value >= |urls|) ==> Slots(r) == urls + [url])
  {
    var urls := Slots(content);
    if slot.Some? && slot.value < |urls| then
      if slot.value >= 0 then
        var updated := urls[slot.value := url];
        SlotsOfJoin(updated);
        Join(updated, ',')
      else
        Join(urls, ',')
    else
      var appended := urls + [url];
      SlotsOfJoin(appended);
      Join(appended, ',')
  }

  /** Overwriting a slot keeps the slot count; appending adds exactly one. */
  lemma AssignSlotCount(content: string, slot: Option<int>, url: string)
    requires url != [] && ',' !in url
    ensures var n := |Slots(content)|;
            var m := |Slots(AssignSlot(content, slot, url))|;
            && (slot.Some? && slot.value < n ==> m == n)
            && ((slot.None? || slot.value >= n) ==> m == n + 1)
  {
  }

  /** Overwriting slot `i` leaves every other slot where it was. */
  lemma AssignSlotKeepsOthers(content: string, i: int, url: string)
    requires url != [] && ',' !in url
    requires 0 <= i < |Slots(content)|
    ensures var before := Slots(content);
            var after := Slots(AssignSlot(content, Some(i), url));
            && |after| == |before|
            && after[i] == url
            && forall k :: 0 <= k < |before| && k != i ==> after[k] == before[k]
  {
  }
}

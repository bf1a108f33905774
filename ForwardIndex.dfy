/**
 * The forward index: a growable array from document id to that document's
 * list of tag ids. A write past the end grows the array to the written id
 * plus one, filling the new slots with empty lists; nothing ever shrinks it.
 */
module ForwardIndex {
  import opened Types

  /** The slots after `addTags(d, tags)`. */
  function AssignSlot(slots: seq<seq<Id>>, d: Id, tags: seq<Id>): (r: seq<seq<Id>>)
    ensures d == INVALID_ID ==> r == slots
  {
    if d == INVALID_ID then slots else GrowTo(slots, d + 1, [])[d := tags]
  }

  /** The slots after `addTag(d, t)`. */
  function AppendToSlot(slots: seq<seq<Id>>, d: Id, t: Id): (r: seq<seq<Id>>)
    ensures d == INVALID_ID || t == INVALID_ID ==> r == slots
  {
    if d == INVALID_ID || t == INVALID_ID then slots
    else var g := GrowTo(slots, d + 1, []); g[d := g[d] + [t]]
  }

  /** `getTags`: the list of `d`, or the empty list for the sentinel or an id past the end. */
  function SlotOf(slots: seq<seq<Id>>, d: Id): seq<Id> {
    if d == INVALID_ID || d >= |slots| then [] else slots[d]
  }

  // ---- properties of the slot operations ----

  /** After `addTags(d, T)`, `getTags(d)` is exactly `T`: same order, nothing filtered, invalid ids kept. */
  lemma AssignThenGet(slots: seq<seq<Id>>, d: Id, tags: seq<Id>)
    requires d != INVALID_ID
    ensures SlotOf(AssignSlot(slots, d, tags), d) == tags
  {
  }

  /**
   * `addTags(d, T)` leaves every other document's list as it was; a document
   * that did not exist before reads as empty either way.
   */
  lemma AssignKeepsOthers(slots: seq<seq<Id>>, d: Id, tags: seq<Id>, e: Id)
    requires e != d
    ensures SlotOf(AssignSlot(slots, d, tags), e) == SlotOf(slots, e)
  {
  }

  /** A second `addTags` on the same document replaces the first entirely. */
  lemma AssignOverwrites(slots: seq<seq<Id>>, d: Id, a: seq<Id>, b: seq<Id>)
    ensures AssignSlot(AssignSlot(slots, d, a), d, b) == AssignSlot(slots, d, b)
  {
    if d != INVALID_ID {
      var g := GrowTo(slots, d + 1, []);
      assert GrowTo(g[d := a], d + 1, []) == g[d := a];
    }
  }

  /** `addTag` appends at the end, so insertion order and duplicates are kept. */
  lemma AppendThenGet(slots: seq<seq<Id>>, d: Id, t: Id)
    requires d != INVALID_ID && t != INVALID_ID
    ensures SlotOf(AppendToSlot(slots, d, t), d) == SlotOf(slots, d) + [t]
  {
  }

  /** `addTag` leaves every other document's list as it was. */
  lemma AppendKeepsOthers(slots: seq<seq<Id>>, d: Id, t: Id, e: Id)
    requires e != d
    ensures SlotOf(AppendToSlot(slots, d, t), e) == SlotOf(slots, e)
  {
  }

  /** Writing id `d` makes the document count at least `d + 1` and never lowers it. */
  lemma WritesOnlyGrow(slots: seq<seq<Id>>, d: Id, tags: seq<Id>, t: Id)
    ensures |AssignSlot(slots, d, tags)| == if d == INVALID_ID then |slots| else if d < |slots| then |slots| else d + 1
    ensures |AppendToSlot(slots, d, t)| == if d == INVALID_ID || t == INVALID_ID then |slots| else if d < |slots| then |slots| else d + 1
  {
  }

  /** The test sequence of `addTag` calls: order preserved and duplicates kept, in two documents. */
  lemma AppendExample()
    ensures var s := AppendToSlot(AppendToSlot(AppendToSlot(AppendToSlot(AppendToSlot([], 0, 10), 1, 20), 0, 15), 1, 25), 0, 10);
            |s| == 2 && SlotOf(s, 0) == [10, 15, 10] && SlotOf(s, 1) == [20, 25]
  {
  }

  class ForwardIndex {
    var docToTags: seq<seq<Id>>

    constructor()
      ensures docToTags == []
    {
      docToTags := [];
    }

    /** `addTags`, both the copying and the moving overload. */
    method AddTags(d: Id, tags: seq<Id>)
      modifies this
      ensures docToTags == AssignSlot(old(docToTags), d, tags)
    {
      if d == INVALID_ID {
        return;
      }
      if d >= |docToTags| {
        docToTags := GrowTo(docToTags, d + 1, []);
      }
      docToTags := docToTags[d := tags];
    }

    /** `addTag`: appends one tag id to the list of `d`. */
    method AddTag(d: Id, t: Id)
      modifies this
      ensures docToTags == AppendToSlot(old(docToTags), d, t)
    {
      if d == INVALID_ID || t == INVALID_ID {
        return;
      }
      if d >= |docToTags| {
        docToTags := GrowTo(docToTags, d + 1, []);
      }
      docToTags := docToTags[d := docToTags[d] + [t]];
    }

    /** `getTags`: the stored list of `d`, empty for the sentinel and for ids past the end. */
    function GetTags(d: Id): (r: seq<Id>)
      reads this
      ensures r != [] ==> d != INVALID_ID && d < GetDocCount()
      ensures d != INVALID_ID && d < GetDocCount() ==> r == docToTags[d]
    {
      SlotOf(docToTags, d)
    }

    /** `getDocCount`: the size of the array, the highest written id plus one. */
    function GetDocCount(): nat
      reads this
    {
      |docToTags|
    }
  }
}

/**
 * The inverted index: a growable array from tag id to the set of document
 * ids carrying that tag (a compressed bitmap in the implementation, a
 * mathematical set here), and the four-way set query over a list of tags.
 */
module InvertedIndex {
  import opened Types

  /** A tag has a bitmap exactly when it is not the sentinel and lies inside the array. */
  predicate Present(bitmaps: seq<set<Id>>, t: Id) {
    t != INVALID_ID && t < |bitmaps|
  }

  /** `getBitmap`: the bitmap of `t`, possibly empty, or nothing for a tag outside the array. */
  function Lookup(bitmaps: seq<set<Id>>, t: Id): (r: Option<set<Id>>)
    ensures r.Some? <==> Present(bitmaps, t)
    ensures r.Some? ==> r.value == bitmaps[t]
  {
    if t == INVALID_ID || t >= |bitmaps| then None else Some(bitmaps[t])
  }

  /** The bitmaps after `add(d, t)`. */
  function AddDoc(bitmaps: seq<set<Id>>, d: Id, t: Id): seq<set<Id>> {
    if d == INVALID_ID || t == INVALID_ID then bitmaps
    else var g := GrowTo(bitmaps, t + 1, {}); g[t := g[t] + {d}]
  }

  /** `add` with the sentinel as document or as tag changes nothing, the tag count included. */
  lemma AddInvalid(bitmaps: seq<set<Id>>, d: Id, t: Id)
    requires d == INVALID_ID || t == INVALID_ID
    ensures AddDoc(bitmaps, d, t) == bitmaps
  {
  }

  /**
   * A proper `add(d, t)` makes the tag count the larger of the old one and
   * `t + 1`, gives tags created on the way empty bitmaps, puts `d` in the
   * bitmap of `t` and leaves every other bitmap as it was.
   */
  lemma AddEffect(bitmaps: seq<set<Id>>, d: Id, t: Id)
    requires d != INVALID_ID && t != INVALID_ID
    ensures var r := AddDoc(bitmaps, d, t);
            |r| == (if t < |bitmaps| then |bitmaps| else t + 1) &&
            Present(r, t) && r[t] == (if t < |bitmaps| then bitmaps[t] else {}) + {d} &&
            forall u :: 0 <= u < |r| && u != t ==> r[u] == if u < |bitmaps| then bitmaps[u] else {}
  {
  }

  /** Adding the same pair again changes nothing, so the cardinality does not grow. */
  lemma AddIdempotent(bitmaps: seq<set<Id>>, d: Id, t: Id)
    ensures AddDoc(AddDoc(bitmaps, d, t), d, t) == AddDoc(bitmaps, d, t)
  {
    if d != INVALID_ID && t != INVALID_ID {
      var r := AddDoc(bitmaps, d, t);
      assert GrowTo(r, t + 1, {}) == r;
      assert r[t] + {d} == r[t];
    }
  }

  // ---------------------------------------------------------------------------
  // The query, as the loop computes it
  // ---------------------------------------------------------------------------

  /** One in-place step of the loop: `&=`, `|=` or `^=` with the next bitmap. */
  function Combine(op: BitmapOperation, acc: set<Id>, b: set<Id>): set<Id> {
    match op
    case And => acc * b
    case Or => acc + b
    case Xor => (acc - b) + (b - acc)
    case AndNot => acc
  }

  /**
   * The running result folded over the remaining tags `ts`, left to right;
   * `None` when an absent tag ends an AND with the empty result. Absent tags
   * are skipped for the other operations.
   */
  function Fold(bitmaps: seq<set<Id>>, acc: set<Id>, ts: seq<Id>, op: BitmapOperation): Option<set<Id>>
    decreases |ts|
  {
    if ts == [] then Some(acc)
    else match Lookup(bitmaps, ts[0])
      case None => if op == And then None else Fold(bitmaps, acc, ts[1..], op)
      case Some(b) => Fold(bitmaps, Combine(op, acc, b), ts[1..], op)
  }

  /** The union of the present bitmaps among `ts`: the right-hand side of ANDNOT. */
  function UnionPresent(bitmaps: seq<set<Id>>, ts: seq<Id>): set<Id>
    decreases |ts|
  {
    if ts == [] then {}
    else (if Present(bitmaps, ts[0]) then bitmaps[ts[0]] else {}) + UnionPresent(bitmaps, ts[1..])
  }

  function ValueOr(r: Option<set<Id>>): set<Id> {
    match r
    case None => {}
    case Some(s) => s
  }

  /**
   * `performOperation`: empty for an empty list or an absent first tag;
   * ANDNOT subtracts the union of the present later bitmaps from the first;
   * the other operations fold over the later bitmaps.
   */
  function Evaluate(bitmaps: seq<set<Id>>, ts: seq<Id>, op: BitmapOperation): set<Id> {
    if ts == [] || !Present(bitmaps, ts[0]) then {}
    else if op == AndNot then bitmaps[ts[0]] - UnionPresent(bitmaps, ts[1..])
    else ValueOr(Fold(bitmaps, bitmaps[ts[0]], ts[1..], op))
  }

  // ---------------------------------------------------------------------------
  // What each operation means, member by member
  // ---------------------------------------------------------------------------

  /** The folded AND holds `x` exactly when every remaining tag is present and `x` is in the running result and in each of their bitmaps. */
  lemma {:induction false} FoldAnd(bitmaps: seq<set<Id>>, acc: set<Id>, ts: seq<Id>, x: Id)
    ensures x in ValueOr(Fold(bitmaps, acc, ts, And)) <==>
            (forall k :: 0 <= k < |ts| ==> Present(bitmaps, ts[k])) &&
            x in acc && (forall k :: 0 <= k < |ts| ==> x in bitmaps[ts[k]])
    decreases |ts|
  {
    if ts != [] {
      FoldAnd(bitmaps, if Present(bitmaps, ts[0]) then acc * bitmaps[ts[0]] else acc, ts[1..], x);
      assert forall k :: 1 <= k < |ts| ==> ts[k] == ts[1..][k - 1];
    }
  }

  /** AND is the intersection of all the bitmaps, and empty as soon as one tag is absent. */
  lemma AndIsIntersection(bitmaps: seq<set<Id>>, ts: seq<Id>, x: Id)
    ensures x in Evaluate(bitmaps, ts, And) <==>
            |ts| > 0 && (forall k :: 0 <= k < |ts| ==> Present(bitmaps, ts[k])) &&
            (forall k :: 0 <= k < |ts| ==> x in bitmaps[ts[k]])
  {
    if ts != [] && Present(bitmaps, ts[0]) {
      FoldAnd(bitmaps, bitmaps[ts[0]], ts[1..], x);
      assert forall k :: 1 <= k < |ts| ==> ts[k] == ts[1..][k - 1];
    }
  }

  /** Once the running AND is empty the rest of the tags cannot change the answer: the early exit is sound. */
  lemma {:induction false} AndEmptyStaysEmpty(bitmaps: seq<set<Id>>, ts: seq<Id>)
    ensures ValueOr(Fold(bitmaps, {}, ts, And)) == {}
    decreases |ts|
  {
    if ts != [] {
      if Present(bitmaps, ts[0]) {
        assert Combine(And, {}, bitmaps[ts[0]]) == {};
      }
      AndEmptyStaysEmpty(bitmaps, ts[1..]);
    }
  }

  /** The folded OR holds `x` exactly when the running result or a present remaining bitmap does. */
  lemma {:induction false} FoldOr(bitmaps: seq<set<Id>>, acc: set<Id>, ts: seq<Id>)
    ensures Fold(bitmaps, acc, ts, Or) == Some(acc + UnionPresent(bitmaps, ts))
    decreases |ts|
  {
    if ts != [] {
      if Present(bitmaps, ts[0]) {
        var b := bitmaps[ts[0]];
        assert Fold(bitmaps, acc, ts, Or) == Fold(bitmaps, acc + b, ts[1..], Or);
        FoldOr(bitmaps, acc + b, ts[1..]);
        assert acc + b + UnionPresent(bitmaps, ts[1..]) == acc + UnionPresent(bitmaps, ts);
      } else {
        assert Fold(bitmaps, acc, ts, Or) == Fold(bitmaps, acc, ts[1..], Or);
        FoldOr(bitmaps, acc, ts[1..]);
        assert UnionPresent(bitmaps, ts[1..]) == UnionPresent(bitmaps, ts);
      }
    } else {
      assert acc + {} == acc;
    }
  }

  /** A member of the union of the present bitmaps is in the bitmap of some present tag, and conversely. */
  lemma {:induction false} UnionPresentMembers(bitmaps: seq<set<Id>>, ts: seq<Id>, x: Id)
    ensures x in UnionPresent(bitmaps, ts) <==>
            exists k :: 0 <= k < |ts| && Present(bitmaps, ts[k]) && x in bitmaps[ts[k]]
    decreases |ts|
  {
    if ts != [] {
      UnionPresentMembers(bitmaps, ts[1..], x);
      if x in UnionPresent(bitmaps, ts[1..]) {
        var k :| 0 <= k < |ts[1..]| && Present(bitmaps, ts[1..][k]) && x in bitmaps[ts[1..][k]];
        assert ts[k + 1] == ts[1..][k];
      }
      if exists k :: 0 <= k < |ts| && Present(bitmaps, ts[k]) && x in bitmaps[ts[k]] {
        var k :| 0 <= k < |ts| && Present(bitmaps, ts[k]) && x in bitmaps[ts[k]];
        if k > 0 {
          assert ts[1..][k - 1] == ts[k];
        }
      }
    }
  }

  /** OR is the union of the first bitmap and every present later one; absent later tags are skipped. */
  lemma OrIsUnion(bitmaps: seq<set<Id>>, ts: seq<Id>, x: Id)
    ensures x in Evaluate(bitmaps, ts, Or) <==>
            |ts| > 0 && Present(bitmaps, ts[0]) &&
            exists k :: 0 <= k < |ts| && Present(bitmaps, ts[k]) && x in bitmaps[ts[k]]
  {
    if ts != [] && Present(bitmaps, ts[0]) {
      FoldOr(bitmaps, bitmaps[ts[0]], ts[1..]);
      UnionPresentMembers(bitmaps, ts, x);
    }
  }

  /** The number of present tags among `ts` whose bitmap holds `x`. */
  function Holders(bitmaps: seq<set<Id>>, ts: seq<Id>, x: Id): nat
    decreases |ts|
  {
    if ts == [] then 0
    else (if Present(bitmaps, ts[0]) && x in bitmaps[ts[0]] then 1 else 0) + Holders(bitmaps, ts[1..], x)
  }

  /** The folded XOR holds `x` exactly when the running result and the present remaining bitmaps hold it an odd number of times in all. */
  lemma {:induction false} FoldXor(bitmaps: seq<set<Id>>, acc: set<Id>, ts: seq<Id>, x: Id)
    ensures x in ValueOr(Fold(bitmaps, acc, ts, Xor)) <==> ((if x in acc then 1 else 0) + Holders(bitmaps, ts, x)) % 2 == 1
    decreases |ts|
  {
    if ts != [] {
      var next := if Present(bitmaps, ts[0]) then Combine(Xor, acc, bitmaps[ts[0]]) else acc;
      FoldXor(bitmaps, next, ts[1..], x);
    }
  }

  /** XOR holds exactly the documents found in an odd number of the present bitmaps, the first one included. */
  lemma XorIsParity(bitmaps: seq<set<Id>>, ts: seq<Id>, x: Id)
    ensures x in Evaluate(bitmaps, ts, Xor) <==>
            |ts| > 0 && Present(bitmaps, ts[0]) && Holders(bitmaps, ts, x) % 2 == 1
  {
    if ts != [] && Present(bitmaps, ts[0]) {
      FoldXor(bitmaps, bitmaps[ts[0]], ts[1..], x);
    }
  }

  /** ANDNOT keeps the members of the first bitmap that no present later bitmap holds. */
  lemma AndNotIsDifference(bitmaps: seq<set<Id>>, ts: seq<Id>, x: Id)
    ensures x in Evaluate(bitmaps, ts, AndNot) <==>
            |ts| > 0 && Present(bitmaps, ts[0]) && x in bitmaps[ts[0]] &&
            forall k :: 1 <= k < |ts| && Present(bitmaps, ts[k]) ==> x !in bitmaps[ts[k]]
  {
    if ts != [] && Present(bitmaps, ts[0]) {
      UnionPresentMembers(bitmaps, ts[1..], x);
      assert forall k :: 1 <= k < |ts| ==> ts[k] == ts[1..][k - 1];
    }
  }

  /** Every operation gives the empty set for an empty list and for an absent first tag. */
  lemma EmptyCases(bitmaps: seq<set<Id>>, ts: seq<Id>, op: BitmapOperation)
    requires ts == [] || !Present(bitmaps, ts[0])
    ensures Evaluate(bitmaps, ts, op) == {}
  {
  }

  /** Every operation on a single present tag gives its bitmap back. */
  lemma {:induction false} SingleTag(bitmaps: seq<set<Id>>, t: Id, op: BitmapOperation)
    requires Present(bitmaps, t)
    ensures Evaluate(bitmaps, [t], op) == bitmaps[t]
  {
    assert [t][1..] == [];
  }

  /** The result never holds a document outside the first tag's bitmap, except under OR and XOR. */
  lemma ResultWithinFirst(bitmaps: seq<set<Id>>, ts: seq<Id>, op: BitmapOperation, x: Id)
    requires op == And || op == AndNot
    requires x in Evaluate(bitmaps, ts, op)
    ensures |ts| > 0 && Present(bitmaps, ts[0]) && x in bitmaps[ts[0]]
  {
    if op == And {
      AndIsIntersection(bitmaps, ts, x);
    } else {
      AndNotIsDifference(bitmaps, ts, x);
    }
  }

  // ---------------------------------------------------------------------------
  // The unit tests' fixture
  // ---------------------------------------------------------------------------

  /** Tags 0..4 of the operation tests: {0,1,2,10}, {1,2,3,11}, {2,4,10,12}, {50}, {100}. */
  const Fixture: seq<set<Id>> := [{0, 1, 2, 10}, {1, 2, 3, 11}, {2, 4, 10, 12}, {50}, {100}]

  /** ANDNOT is not commutative: {0,1} and {1,0} give {0,10} and {3,11}. */
  lemma AndNotExamples()
    ensures Evaluate(Fixture, [0, 1], AndNot) == {0, 10}
    ensures Evaluate(Fixture, [1, 0], AndNot) == {3, 11}
    ensures Evaluate(Fixture, [0, 1, 2], AndNot) == {0}
    ensures Evaluate(Fixture, [0, 1, INVALID_ID], AndNot) == {0, 10}
  {
    assert UnionPresent(Fixture, [INVALID_ID]) == {} by {
      assert [INVALID_ID][1..] == [];
    }
    assert [0, 1, INVALID_ID][1..] == [1, INVALID_ID] && [1, INVALID_ID][1..] == [INVALID_ID];
  }

  /** AND, OR and XOR on the fixture, including an absent later tag. */
  lemma OperationExamples()
    ensures Evaluate(Fixture, [0, 1, 2], And) == {2}
    ensures Evaluate(Fixture, [0, INVALID_ID], And) == {}
    ensures Evaluate(Fixture, [0, 10], Or) == {0, 1, 2, 10}
    ensures Evaluate(Fixture, [INVALID_ID, 0], Or) == {}
    ensures Evaluate(Fixture, [0, 1, 2], Xor) == {0, 2, 3, 4, 11, 12}
  {
  }

  // ---------------------------------------------------------------------------
  // The index object
  // ---------------------------------------------------------------------------

  class InvertedIndex {
    var tagToBitmap: seq<set<Id>>

    constructor()
      ensures tagToBitmap == []
    {
      tagToBitmap := [];
    }

    /** `ensureTagCapacity`: false for the sentinel; otherwise grows the array to hold `t`. */
    method EnsureTagCapacity(t: Id) returns (ok: bool)
      modifies this
      ensures ok <==> t != INVALID_ID
      ensures tagToBitmap == if ok then GrowTo(old(tagToBitmap), t + 1, {}) else old(tagToBitmap)
    {
      if t == INVALID_ID {
        return false;
      }
      if t >= |tagToBitmap| {
        tagToBitmap := GrowTo(tagToBitmap, t + 1, {});
      }
      return true;
    }

    /** `add`: puts document `d` in the bitmap of tag `t`. */
    method Add(d: Id, t: Id)
      modifies this
      ensures tagToBitmap == AddDoc(old(tagToBitmap), d, t)
    {
      if d == INVALID_ID {
        return;
      }
      var ok := EnsureTagCapacity(t);
      if !ok {
        return;
      }
      tagToBitmap := tagToBitmap[t := tagToBitmap[t] + {d}];
    }

    /** `getBitmap`. */
    function GetBitmap(t: Id): (r: Option<set<Id>>)
      reads this
      ensures r.Some? <==> Present(tagToBitmap, t)
      ensures r.Some? ==> r.value == tagToBitmap[t]
    {
      Lookup(tagToBitmap, t)
    }

    /** `getCardinality`: the size of the bitmap of `t`, 0 when it has none. */
    function GetCardinality(t: Id): (n: nat)
      reads this
      ensures n == if Present(tagToBitmap, t) then |tagToBitmap[t]| else 0
    {
      match GetBitmap(t)
      case None => 0
      case Some(b) => |b|
    }

    /** `getTagCount`: the size of the array, the highest tag id added plus one. */
    function GetTagCount(): nat
      reads this
    {
      |tagToBitmap|
    }

    /**
     * `performOperation`: the loop over the tag list, with the early
     * returns, the in-place updates and the ANDNOT branch that first collects
     * the union of the later bitmaps.
     */
    method PerformOperation(tagIds: seq<Id>, op: BitmapOperation) returns (result: set<Id>)
      ensures result == Evaluate(tagToBitmap, tagIds, op)
    {
      if |tagIds| == 0 {
        return {};
      }
      var firstOpt := GetBitmap(tagIds[0]);
      if firstOpt.None? {
        return {};
      }
      ghost var first := firstOpt.value;
      ghost var want := Fold(tagToBitmap, first, tagIds[1..], op);
      result := firstOpt.value;
      var i := 1;
      while i < |tagIds|
        invariant 1 <= i <= |tagIds|
        invariant op != AndNot ==> want == Fold(tagToBitmap, result, tagIds[i..], op)
        invariant op == AndNot ==> result == first
      {
        var nextOpt := GetBitmap(tagIds[i]);
        if nextOpt.None? {
          if op == And {
            return {};
          }
          i := i + 1;
          continue;
        }
        var next := nextOpt.value;
        match op {
          case And => result := result * next;
          case Or => result := result + next;
          case Xor => result := (result - next) + (next - result);
          case AndNot => break;
        }
        i := i + 1;
        if op == And && result == {} {
          AndEmptyStaysEmpty(tagToBitmap, tagIds[i..]);
          return {};
        }
      }
      if op == AndNot {
        if |tagIds| > 1 {
          var rightSide: set<Id> := {};
          var j := 1;
          while j < |tagIds|
            invariant 1 <= j <= |tagIds|
            invariant rightSide + UnionPresent(tagToBitmap, tagIds[j..]) == UnionPresent(tagToBitmap, tagIds[1..])
          {
            var nextOpt := GetBitmap(tagIds[j]);
            if nextOpt.Some? {
              rightSide := rightSide + nextOpt.value;
            }
            j := j + 1;
          }
          result := result - rightSide;
        }
      }
    }

    /**
     * `runOptimize`: re-encodes each non-empty bitmap; the membership of every
     * bitmap and the tag count are what they were, and it reports success.
     */
    method RunOptimize() returns (success: bool)
      ensures success
    {
      success := true;
    }

    /** `shrinkToFit`: releases spare capacity; the contents are unchanged. */
    method ShrinkToFit()
      modifies this
      ensures tagToBitmap == old(tagToBitmap)
    {
    }

    /** `clear`: drops every bitmap. */
    method Clear()
      modifies this
      ensures tagToBitmap == []
    {
      tagToBitmap := [];
    }
  }
}

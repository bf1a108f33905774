/**
 * The coordinator: owns the interning tables, the forward index and the
 * inverted index, feeds parsed records into all three, and answers tag
 * queries and document lookups by translating between strings and ids.
 */
module IndexManager {
  import opened Types
  import opened IdTable
  import MP = Mapping
  import FI = ForwardIndex
  import II = InvertedIndex

  // ---------------------------------------------------------------------------
  // The ordered tag-id set built per record (a `std::set<TagId>`)
  // ---------------------------------------------------------------------------

  predicate Ascending(u: seq<Id>) {
    forall i, j :: 0 <= i < j < |u| ==> u[i] < u[j]
  }

  /** The tail of an ascending list is ascending and lies above its head. */
  lemma AscendingTail(u: seq<Id>)
    requires u != [] && Ascending(u)
    ensures Ascending(u[1..]) && forall y :: y in u[1..] ==> u[0] < y
  {
  }

  /** `std::set::insert` on the ascending list of the set's members. */
  function InsertSorted(u: seq<Id>, x: Id): (r: seq<Id>)
    ensures Ascending(u) ==> Ascending(r)
    ensures forall y :: y in r <==> y in u || y == x
    decreases |u|
  {
    if u == [] then [x]
    else if x < u[0] then [x] + u
    else if x == u[0] then u
    else
      var tail := InsertSorted(u[1..], x);
      if Ascending(u) then
        AscendingTail(u);
        assert forall k :: 0 <= k < |tail| ==> tail[k] in tail;
        [u[0]] + tail
      else [u[0]] + tail
  }

  /** The set after inserting each of `ids`, left to right. */
  function InsertAll(u: seq<Id>, ids: seq<Id>): seq<Id>
    decreases |ids|
  {
    if ids == [] then u else InsertAll(InsertSorted(u, ids[0]), ids[1..])
  }

  /** Inserting a list that starts with `x` is inserting `x` first and then the rest. */
  lemma InsertAllCons(u: seq<Id>, x: Id, ids: seq<Id>)
    ensures InsertAll(u, [x] + ids) == InsertAll(InsertSorted(u, x), ids)
  {
    assert ([x] + ids)[1..] == ids;
  }

  /** Inserting a list gives the ascending, duplicate-free list of the old members and the list's members. */
  lemma {:induction false} InsertAllSorted(u: seq<Id>, ids: seq<Id>)
    requires Ascending(u)
    ensures Ascending(InsertAll(u, ids))
    ensures forall y :: y in InsertAll(u, ids) <==> y in u || y in ids
    decreases |ids|
  {
    if ids != [] {
      InsertAllSorted(InsertSorted(u, ids[0]), ids[1..]);
      assert forall y :: y in ids <==> y == ids[0] || y in ids[1..];
    }
  }

  // ---------------------------------------------------------------------------
  // Adding a document to the bitmap of each of its tags
  // ---------------------------------------------------------------------------

  /** The bitmaps after `add(d, t)` for each `t` of `ids` in turn. */
  function AddAll(bitmaps: seq<set<Id>>, d: Id, ids: seq<Id>): seq<set<Id>>
    decreases |ids|
  {
    if ids == [] then bitmaps else AddAll(II.AddDoc(bitmaps, d, ids[0]), d, ids[1..])
  }

  /**
   * After adding `d` under each of `ids`, `d` is in the bitmap of each of
   * them; every old member stays (nothing is retracted), `d` is the only new
   * member, and the array grows only as far as the largest id needs.
   */
  lemma {:induction false} AddAllEffect(bitmaps: seq<set<Id>>, d: Id, ids: seq<Id>, bound: nat)
    requires d != INVALID_ID && bound <= INVALID_ID
    requires |bitmaps| <= bound && forall k :: 0 <= k < |ids| ==> ids[k] < bound
    ensures var r := AddAll(bitmaps, d, ids);
            |bitmaps| <= |r| <= bound &&
            (forall k :: 0 <= k < |ids| ==> II.Present(r, ids[k]) && d in r[ids[k]]) &&
            (forall t :: 0 <= t < |bitmaps| ==> bitmaps[t] <= r[t]) &&
            (forall t, x :: 0 <= t < |r| && x in r[t] ==> x == d || (t < |bitmaps| && x in bitmaps[t]))
    decreases |ids|
  {
    if ids != [] {
      var b := II.AddDoc(bitmaps, d, ids[0]);
      II.AddEffect(bitmaps, d, ids[0]);
      AddAllEffect(b, d, ids[1..], bound);
      assert forall k :: 1 <= k < |ids| ==> ids[k] == ids[1..][k - 1];
    }
  }

  // ---------------------------------------------------------------------------
  // The structures agree with each other
  // ---------------------------------------------------------------------------

  /** Every forward entry is an ascending list of tag ids that resolve, for documents that resolve. */
  ghost predicate ForwardCoherent(fwd: seq<seq<Id>>, docCount: nat, tagCount: nat) {
    |fwd| <= docCount &&
    forall d :: 0 <= d < |fwd| ==> Ascending(fwd[d]) && forall k :: 0 <= k < |fwd[d]| ==> fwd[d][k] < tagCount
  }

  /** Every bitmap belongs to a tag that resolves and holds only documents that resolve. */
  ghost predicate BitmapsCoherent(bitmaps: seq<set<Id>>, docCount: nat, tagCount: nat) {
    |bitmaps| <= tagCount &&
    forall t :: 0 <= t < |bitmaps| ==> forall x :: x in bitmaps[t] ==> x < docCount
  }

  ghost predicate Coherent(docs: Table, tags: Table, fwd: seq<seq<Id>>, bitmaps: seq<set<Id>>) {
    IdTable.Valid(docs) && IdTable.Valid(tags) &&
    ForwardCoherent(fwd, |docs.names|, |tags.names|) &&
    BitmapsCoherent(bitmaps, |docs.names|, |tags.names|)
  }

  /** Growing the id tables keeps the cross-structure invariant. */
  lemma CoherentGrow(fwd: seq<seq<Id>>, bitmaps: seq<set<Id>>, n: nat, m: nat, n2: nat, m2: nat)
    requires n <= n2 && m <= m2
    requires ForwardCoherent(fwd, n, m) && BitmapsCoherent(bitmaps, n, m)
    ensures ForwardCoherent(fwd, n2, m2) && BitmapsCoherent(bitmaps, n2, m2)
  {
  }

  /** Storing an ascending list of known tags for a known document keeps the forward index coherent. */
  lemma ForwardAssignCoherent(fwd: seq<seq<Id>>, d: Id, entry: seq<Id>, n: nat, m: nat)
    requires ForwardCoherent(fwd, n, m) && d < n <= INVALID_ID
    requires Ascending(entry) && forall k :: 0 <= k < |entry| ==> entry[k] < m
    ensures ForwardCoherent(FI.AssignSlot(fwd, d, entry), n, m)
  {
    FI.AssignThenGet(fwd, d, entry);
    var r := FI.AssignSlot(fwd, d, entry);
    forall e | 0 <= e < |r|
      ensures Ascending(r[e]) && forall k :: 0 <= k < |r[e]| ==> r[e][k] < m
    {
      if e != d {
        FI.AssignKeepsOthers(fwd, d, entry, e);
      }
    }
  }

  /** Adding a known document under known tags keeps the bitmaps coherent. */
  lemma BitmapsAddCoherent(bitmaps: seq<set<Id>>, d: Id, ids: seq<Id>, n: nat, m: nat)
    requires BitmapsCoherent(bitmaps, n, m) && d < n <= INVALID_ID && m <= INVALID_ID
    requires forall k :: 0 <= k < |ids| ==> ids[k] < m
    ensures BitmapsCoherent(AddAll(bitmaps, d, ids), n, m)
  {
    AddAllEffect(bitmaps, d, ids, m);
  }

  /**
   * Ingesting a record keeps every structure coherent: the new forward entry
   * lists interned tags, the document lies inside the table and the bitmaps
   * only gain that document under interned tags.
   */
  lemma IngestCoherent(docs: Table, tags: Table, fwd: seq<seq<Id>>, bitmaps: seq<set<Id>>, id: string, tagStrings: seq<string>)
    requires Coherent(docs, tags, fwd, bitmaps)
    requires Intern(docs, id).id != INVALID_ID
    ensures var r := Intern(docs, id);
            var ids := InternedIds(tags, tagStrings);
            Coherent(r.table, InternAll(tags, tagStrings),
                     FI.AssignSlot(fwd, r.id, InsertAll([], ids)), AddAll(bitmaps, r.id, ids))
  {
    var r := Intern(docs, id);
    var ids := InternedIds(tags, tagStrings);
    var tags2 := InternAll(tags, tagStrings);
    InternValid(docs, id);
    InternResolve(docs, id);
    InternAllValid(tags, tagStrings);
    InternedIdsResolve(tags, tagStrings);
    var n, m := |r.table.names|, |tags2.names|;
    CoherentGrow(fwd, bitmaps, |docs.names|, |tags.names|, n, m);
    var entry := InsertAll([], ids);
    InsertAllSorted([], ids);
    forall k | 0 <= k < |entry|
      ensures entry[k] < m
    {
      assert entry[k] in ids;
    }
    ForwardAssignCoherent(fwd, r.id, entry, n, m);
    BitmapsAddCoherent(bitmaps, r.id, ids, n, m);
  }

  // ---------------------------------------------------------------------------
  // Query translation and the ascending result list
  // ---------------------------------------------------------------------------

  /** The tag ids a query collected, the tag table afterwards, and whether it stopped with the empty result. */
  datatype Translation = Translation(ids: seq<Id>, table: Table, aborted: bool)

  /**
   * The translation loop of `queryTags` over the remaining strings `tags`,
   * with the ids collected so far in `acc`: every string is interned; a
   * sentinel stops the query under AND, and under ANDNOT while no id has been
   * collected; otherwise it is skipped.
   */
  function Translate(t: Table, tags: seq<string>, op: BitmapOperation, acc: seq<Id>): Translation
    decreases |tags|
  {
    if tags == [] then Translation(acc, t, false)
    else
      var r := Intern(t, tags[0]);
      if r.id != INVALID_ID then Translate(r.table, tags[1..], op, acc + [r.id])
      else if op == And || (op == AndNot && acc == []) then Translation(acc, r.table, true)
      else Translate(r.table, tags[1..], op, acc)
  }

  /** Under AND an empty tag string empties the whole query. */
  lemma {:induction false} AndWithEmptyTagAborts(t: Table, tags: seq<string>, acc: seq<Id>, k: nat)
    requires k < |tags| && tags[k] == []
    ensures Translate(t, tags, And, acc).aborted
    decreases |tags|
  {
    if tags[0] != [] {
      var r := Intern(t, tags[0]);
      if r.id != INVALID_ID {
        AndWithEmptyTagAborts(r.table, tags[1..], acc + [r.id], k - 1);
      }
    }
  }

  /** Under ANDNOT an empty string as the first tag empties the query; once an id is collected nothing does. */
  lemma {:induction false} AndNotAborts(t: Table, tags: seq<string>, acc: seq<Id>)
    ensures acc == [] && tags != [] && tags[0] == [] ==> Translate(t, tags, AndNot, acc).aborted
    ensures acc != [] ==> !Translate(t, tags, AndNot, acc).aborted
    decreases |tags|
  {
    if tags != [] && acc != [] {
      var r := Intern(t, tags[0]);
      AndNotAborts(r.table, tags[1..], if r.id != INVALID_ID then acc + [r.id] else acc);
    }
  }

  /** OR and XOR never stop early: invalid tags are skipped. */
  lemma {:induction false} OrXorNeverAbort(t: Table, tags: seq<string>, op: BitmapOperation, acc: seq<Id>)
    requires op == Or || op == Xor
    ensures !Translate(t, tags, op, acc).aborted
    decreases |tags|
  {
    if tags != [] {
      var r := Intern(t, tags[0]);
      OrXorNeverAbort(r.table, tags[1..], op, if r.id != INVALID_ID then acc + [r.id] else acc);
    }
  }

  /**
   * The translation keeps the tag table valid, only lets it grow, and every
   * collected id lies inside the table afterwards.
   */
  lemma {:induction false} TranslateValid(t: Table, tags: seq<string>, op: BitmapOperation, acc: seq<Id>)
    requires IdTable.Valid(t) && forall k :: 0 <= k < |acc| ==> acc[k] < |t.names|
    ensures var q := Translate(t, tags, op, acc);
            IdTable.Valid(q.table) && |t.names| <= |q.table.names| &&
            forall k :: 0 <= k < |q.ids| ==> q.ids[k] < |q.table.names|
    decreases |tags|
  {
    if tags != [] {
      var r := Intern(t, tags[0]);
      InternValid(t, tags[0]);
      InternResolve(t, tags[0]);
      TranslateValid(r.table, tags[1..], op, if r.id != INVALID_ID then acc + [r.id] else acc);
    }
  }

  /** A query string never seen before gets an id the inverted index does not hold, so its tag is absent. */
  lemma UnseenTagIsAbsent(t: Table, bitmaps: seq<set<Id>>, s: string)
    requires IdTable.Valid(t) && |bitmaps| <= |t.names| && s != [] && s !in t.index
    ensures !II.Present(bitmaps, Intern(t, s).id)
  {
  }

  /** Translation keeps the tag table valid, whatever ids were collected before. */
  lemma {:induction false} TranslateTableValid(t: Table, tags: seq<string>, op: BitmapOperation, acc: seq<Id>)
    requires IdTable.Valid(t)
    ensures IdTable.Valid(Translate(t, tags, op, acc).table)
    decreases |tags|
  {
    if tags != [] {
      var r := Intern(t, tags[0]);
      InternValid(t, tags[0]);
      TranslateTableValid(r.table, tags[1..], op, if r.id != INVALID_ID then acc + [r.id] else acc);
    }
  }

  /** Translation never changes the id of a string the tag table already holds. */
  lemma {:induction false} TranslateKeepsId(t: Table, tags: seq<string>, op: BitmapOperation, acc: seq<Id>, s: string)
    requires IdTable.Valid(t) && s in t.index
    ensures var q := Translate(t, tags, op, acc); s in q.table.index && q.table.index[s] == t.index[s]
    decreases |tags|
  {
    if tags != [] {
      var r := Intern(t, tags[0]);
      InternValid(t, tags[0]);
      assert s in r.table.index && r.table.index[s] == t.index[s];
      TranslateKeepsId(r.table, tags[1..], op, if r.id != INVALID_ID then acc + [r.id] else acc, s);
    }
  }

  /**
   * A query interns its strings through the allocating lookup. Every
   * non-empty string the loop reaches ends up with an id; one the table did
   * not hold gets a fresh id at or past the old count, so the tag count grows.
   * Under OR and XOR the loop reaches every string; under AND and ANDNOT it
   * reaches `tags[k]` when no earlier string is empty. `|t.names| + k` below
   * the sentinel ensures that no earlier string finds the id space full.
   */
  lemma {:induction false} QueryAllocatesUnseenTag(t: Table, tags: seq<string>, op: BitmapOperation, acc: seq<Id>, k: nat)
    requires IdTable.Valid(t) && k < |tags| && tags[k] != [] && |t.names| + k < INVALID_ID
    requires op == Or || op == Xor || forall j :: 0 <= j < k ==> tags[j] != []
    ensures var q := Translate(t, tags, op, acc);
            tags[k] in q.table.index && q.table.index[tags[k]] < |q.table.names|
    ensures var q := Translate(t, tags, op, acc);
            tags[k] !in t.index ==> |t.names| <= q.table.index[tags[k]] && |t.names| < |q.table.names|
    decreases k
  {
    var s := tags[k];
    var r := Intern(t, tags[0]);
    InternValid(t, tags[0]);
    InternSentinel(t, tags[0]);
    var acc' := if r.id != INVALID_ID then acc + [r.id] else acc;
    assert Translate(t, tags, op, acc) == Translate(r.table, tags[1..], op, acc');
    var q := Translate(r.table, tags[1..], op, acc');
    TranslateTableValid(r.table, tags[1..], op, acc');
    if k == 0 {
      assert r.id != INVALID_ID;
      assert s in r.table.index;
      TranslateKeepsId(r.table, tags[1..], op, acc', s);
      if s !in t.index {
        assert r.table.index[s] == |t.names|;
      }
    } else {
      assert forall j :: 0 <= j < k - 1 ==> tags[1..][j] == tags[j + 1];
      QueryAllocatesUnseenTag(r.table, tags[1..], op, acc', k - 1);
      assert tags[1..][k - 1] == s;
      if s !in t.index && s in r.table.index {
        assert s == tags[0] && r.table.index[s] == |t.names|;
        TranslateKeepsId(r.table, tags[1..], op, acc', s);
      }
    }
  }

  /** `m` is the least member of `s`. */
  predicate IsMin(s: set<Id>, m: Id) {
    m in s && forall y :: y in s ==> m <= y
  }

  lemma {:induction false} MinExists(s: set<Id>)
    requires s != {}
    ensures exists m :: IsMin(s, m)
    decreases |s|
  {
    var x :| x in s;
    if s != {x} {
      MinExists(s - {x});
      var m :| IsMin(s - {x}, m);
      var least := if x < m then x else m;
      forall y | y in s
        ensures least <= y
      {
        if y != x {
          assert y in s - {x};
        }
      }
      assert IsMin(s, least);
    } else {
      forall y | y in s
        ensures x <= y
      {
        assert y == x;
      }
      assert IsMin(s, x);
    }
  }

  /** The members of `s` in ascending order: the iteration order of a bitmap. */
  ghost function SortedElems(s: set<Id>): seq<Id>
    decreases |s|
  {
    if s == {} then []
    else
      MinExists(s);
      var m :| IsMin(s, m);
      [m] + SortedElems(s - {m})
  }

  /** Listing starts at the least member. */
  lemma SortedElemsHead(s: set<Id>, m: Id)
    requires IsMin(s, m)
    ensures SortedElems(s) == [m] + SortedElems(s - {m})
  {
  }

  /** The listing is strictly ascending and holds exactly the members. */
  lemma {:induction false} SortedElemsSorted(s: set<Id>)
    ensures Ascending(SortedElems(s))
    ensures forall x :: x in SortedElems(s) <==> x in s
    decreases |s|
  {
    if s != {} {
      MinExists(s);
      var m :| IsMin(s, m);
      SortedElemsHead(s, m);
      var rest := SortedElems(s - {m});
      SortedElemsSorted(s - {m});
      ConsAscending(m, rest);
    }
  }

  /** Putting a value below every member in front of an ascending list keeps it ascending. */
  lemma ConsAscending(m: Id, rest: seq<Id>)
    requires Ascending(rest) && forall y :: y in rest ==> m < y
    ensures Ascending([m] + rest)
  {
    var r := [m] + rest;
    forall i, j | 0 <= i < j < |r|
      ensures r[i] < r[j]
    {
      assert r[j] == rest[j - 1] && rest[j - 1] in rest;
      if i > 0 {
        assert r[i] == rest[i - 1];
      }
    }
  }

  /** The document ids a query answers with, in the order they are listed. */
  ghost function QueryDocs(bitmaps: seq<set<Id>>, q: Translation, op: BitmapOperation): seq<Id> {
    if q.aborted || q.ids == [] then [] else SortedElems(II.Evaluate(bitmaps, q.ids, op))
  }

  /** Every document in a query result is a member of some present bitmap. */
  lemma EvaluateWithinBitmaps(bitmaps: seq<set<Id>>, ts: seq<Id>, op: BitmapOperation, x: Id)
    requires x in II.Evaluate(bitmaps, ts, op)
    ensures exists k :: 0 <= k < |ts| && II.Present(bitmaps, ts[k]) && x in bitmaps[ts[k]]
  {
    match op {
      case And => II.AndIsIntersection(bitmaps, ts, x);
      case Or => II.OrIsUnion(bitmaps, ts, x);
      case Xor => II.XorIsParity(bitmaps, ts, x); HoldersPositive(bitmaps, ts, x);
      case AndNot => II.AndNotIsDifference(bitmaps, ts, x);
    }
  }

  lemma {:induction false} HoldersPositive(bitmaps: seq<set<Id>>, ts: seq<Id>, x: Id)
    requires II.Holders(bitmaps, ts, x) > 0
    ensures exists k :: 0 <= k < |ts| && II.Present(bitmaps, ts[k]) && x in bitmaps[ts[k]]
    decreases |ts|
  {
    if !(II.Present(bitmaps, ts[0]) && x in bitmaps[ts[0]]) {
      HoldersPositive(bitmaps, ts[1..], x);
      var k :| 0 <= k < |ts[1..]| && II.Present(bitmaps, ts[1..][k]) && x in bitmaps[ts[1..][k]];
      assert ts[k + 1] == ts[1..][k];
    }
  }

  /** With coherent structures every listed document resolves: none is dropped from a query result. */
  lemma QueryDocsResolve(docs: Table, bitmaps: seq<set<Id>>, q: Translation, op: BitmapOperation, tagCount: nat)
    requires IdTable.Valid(docs) && BitmapsCoherent(bitmaps, |docs.names|, tagCount)
    ensures forall k :: 0 <= k < |QueryDocs(bitmaps, q, op)| ==> QueryDocs(bitmaps, q, op)[k] < |docs.names|
  {
    if !q.aborted && q.ids != [] {
      var e := II.Evaluate(bitmaps, q.ids, op);
      SortedElemsSorted(e);
      forall k | 0 <= k < |SortedElems(e)|
        ensures SortedElems(e)[k] < |docs.names|
      {
        var x := SortedElems(e)[k];
        EvaluateWithinBitmaps(bitmaps, q.ids, op, x);
      }
    }
  }

  /**
   * A query keeps the structures coherent (it may only intern new tag
   * strings), and under coherence no document of its result is dropped: the
   * k-th string is the name of the k-th document id listed.
   */
  lemma QueryComplete(docs: Table, tags: Table, fwd: seq<seq<Id>>, bitmaps: seq<set<Id>>, tagStrings: seq<string>, op: BitmapOperation)
    requires Coherent(docs, tags, fwd, bitmaps)
    ensures var q := Translate(tags, tagStrings, op, []);
            var ds := QueryDocs(bitmaps, q, op);
            Coherent(docs, q.table, fwd, bitmaps) &&
            |ResolveAll(docs, ds)| == |ds| &&
            forall k :: 0 <= k < |ds| ==> ds[k] < |docs.names| && ResolveAll(docs, ds)[k] == docs.names[ds[k]]
  {
    var q := Translate(tags, tagStrings, op, []);
    TranslateValid(tags, tagStrings, op, []);
    CoherentGrow(fwd, bitmaps, |docs.names|, |tags.names|, |docs.names|, |q.table.names|);
    QueryDocsResolve(docs, bitmaps, q, op, |q.table.names|);
    ResolveAllComplete(docs, QueryDocs(bitmaps, q, op));
  }

  /** Looking a document up may intern its string, which keeps the structures coherent. */
  lemma LookupCoherent(docs: Table, tags: Table, fwd: seq<seq<Id>>, bitmaps: seq<set<Id>>, id: string)
    requires Coherent(docs, tags, fwd, bitmaps)
    ensures Coherent(Intern(docs, id).table, tags, fwd, bitmaps)
  {
    InternValid(docs, id);
    InternExtends(docs, id);
    CoherentGrow(fwd, bitmaps, |docs.names|, |tags.names|, |Intern(docs, id).table.names|, |tags.names|);
  }

  /**
   * Under coherence a document's tags all resolve: the k-th string of the
   * lookup is the name of the k-th tag id, and the ids ascend, so the tags
   * come in the order they were first interned.
   */
  lemma LookupComplete(docs: Table, tags: Table, fwd: seq<seq<Id>>, bitmaps: seq<set<Id>>, d: nat)
    requires Coherent(docs, tags, fwd, bitmaps) && d < |fwd|
    ensures Ascending(fwd[d])
    ensures |ResolveAll(tags, fwd[d])| == |fwd[d]|
    ensures forall k :: 0 <= k < |fwd[d]| ==> ResolveAll(tags, fwd[d])[k] == tags.names[fwd[d][k]]
  {
    ResolveAllComplete(tags, fwd[d]);
  }

  // ---------------------------------------------------------------------------
  // The coordinator object
  // ---------------------------------------------------------------------------

  class IndexManager {
    const mapping: MP.Mapping
    const forward: FI.ForwardIndex
    const inverted: II.InvertedIndex

    ghost predicate Valid()
      reads this, mapping, forward, inverted
    {
      Coherent(mapping.Docs(), mapping.Tags(), forward.docToTags, inverted.tagToBitmap)
    }

    constructor()
      ensures Valid() && fresh(mapping) && fresh(forward) && fresh(inverted)
      ensures mapping.Docs() == Empty && mapping.Tags() == Empty
      ensures forward.docToTags == [] && inverted.tagToBitmap == []
    {
      mapping := new MP.Mapping();
      forward := new FI.ForwardIndex();
      inverted := new II.InvertedIndex();
    }

    /**
     * `processParsedLine`: interns the document, then its tags in record
     * order, skipping those that get the sentinel; stores the ascending
     * duplicate-free tag ids as the document's forward entry and adds the
     * document to the bitmap of every tag id collected.
     */
    method ProcessParsedLine(id: string, tags: seq<string>)
      requires Valid()
      modifies mapping, forward, inverted
      ensures Valid()
      ensures var r := Intern(old(mapping.Docs()), id);
              var ids := InternedIds(old(mapping.Tags()), tags);
              mapping.Docs() == r.table &&
              if r.id == INVALID_ID then
                mapping.Tags() == old(mapping.Tags()) &&
                forward.docToTags == old(forward.docToTags) &&
                inverted.tagToBitmap == old(inverted.tagToBitmap)
              else
                mapping.Tags() == InternAll(old(mapping.Tags()), tags) &&
                forward.docToTags == FI.AssignSlot(old(forward.docToTags), r.id, InsertAll([], ids)) &&
                inverted.tagToBitmap == AddAll(old(inverted.tagToBitmap), r.id, ids)
    {
      ghost var docs0, tags0 := mapping.Docs(), mapping.Tags();
      ghost var fwd0, bitmaps0 := forward.docToTags, inverted.tagToBitmap;
      var d := mapping.GetId(id);
      if d == INVALID_ID {
        return;
      }
      var tagIds, unique := InternTags(tags);
      forward.AddTags(d, unique);
      AddToBitmaps(d, tagIds);
      IngestCoherent(docs0, tags0, fwd0, bitmaps0, id, tags);
    }

    /**
     * The tag loop of `processParsedLine`: the proper ids of `tags` in order
     * (one per occurrence), and the same ids as an ascending set.
     */
    method InternTags(tags: seq<string>) returns (tagIds: seq<Id>, unique: seq<Id>)
      requires mapping.Valid()
      modifies mapping
      ensures mapping.Valid() && mapping.Docs() == old(mapping.Docs())
      ensures mapping.Tags() == InternAll(old(mapping.Tags()), tags)
      ensures tagIds == InternedIds(old(mapping.Tags()), tags)
      ensures unique == InsertAll([], tagIds)
    {
      ghost var tags0 := mapping.Tags();
      ghost var ids := InternedIds(tags0, tags);
      tagIds, unique := [], [];
      var i := 0;
      while i < |tags|
        invariant 0 <= i <= |tags|
        invariant mapping.Valid() && mapping.Docs() == old(mapping.Docs())
        invariant InternAll(tags0, tags) == InternAll(mapping.Tags(), tags[i..])
        invariant ids == tagIds + InternedIds(mapping.Tags(), tags[i..])
        invariant InsertAll([], ids) == InsertAll(unique, InternedIds(mapping.Tags(), tags[i..]))
      {
        InternStep(mapping.Tags(), tags[i..]);
        assert tags[i..][0] == tags[i] && tags[i..][1..] == tags[i + 1..];
        var t := mapping.GetTagId(tags[i]);
        ghost var next := InternedIds(mapping.Tags(), tags[i + 1..]);
        if t != INVALID_ID {
          ConcatAssoc(tagIds, [t], next);
          InsertAllCons(unique, t, next);
          tagIds := tagIds + [t];
          unique := InsertSorted(unique, t);
        } else {
          assert [] + next == next;
        }
        i := i + 1;
      }
      assert tags[i..] == [];
    }

    /** The last loop of `processParsedLine`: `add(d, t)` for every collected id in turn. */
    method AddToBitmaps(d: Id, tagIds: seq<Id>)
      modifies inverted
      ensures inverted.tagToBitmap == AddAll(old(inverted.tagToBitmap), d, tagIds)
    {
      var j := 0;
      while j < |tagIds|
        invariant 0 <= j <= |tagIds|
        invariant AddAll(old(inverted.tagToBitmap), d, tagIds) == AddAll(inverted.tagToBitmap, d, tagIds[j..])
      {
        assert tagIds[j..][1..] == tagIds[j + 1..];
        inverted.Add(d, tagIds[j]);
        j := j + 1;
      }
      assert tagIds[j..] == [];
    }

    /**
     * `queryTags`: translates the tag strings (interning unseen ones), stops
     * with the empty list where the operation demands it, evaluates the
     * query and lists the strings of the resulting documents in ascending id
     * order, keeping those that resolve.
     */
    method QueryTags(tags: seq<string>, op: BitmapOperation) returns (result: seq<string>)
      requires Valid()
      modifies mapping
      ensures Valid()
      ensures mapping.Docs() == old(mapping.Docs())
      ensures var q := Translate(old(mapping.Tags()), tags, op, []);
              mapping.Tags() == q.table &&
              result == ResolveAll(mapping.Docs(), QueryDocs(inverted.tagToBitmap, q, op))
      ensures var ds := QueryDocs(inverted.tagToBitmap, Translate(old(mapping.Tags()), tags, op, []), op);
              |result| == |ds| &&
              forall k :: 0 <= k < |ds| ==> ds[k] < |mapping.Docs().names| && result[k] == mapping.Docs().names[ds[k]]
    {
      QueryComplete(mapping.Docs(), mapping.Tags(), forward.docToTags, inverted.tagToBitmap, tags, op);
      if |tags| == 0 {
        return [];
      }
      var queryIds, aborted := TranslateQuery(tags, op);
      if aborted {
        return [];
      }
      if queryIds == [] && op != And {
        return [];
      }
      var bitmap := inverted.PerformOperation(queryIds, op);
      result := ListDocuments(bitmap);
    }

    /**
     * The translation loop of `queryTags`: the tag ids collected, and whether
     * a missing tag stopped the query.
     */
    method TranslateQuery(tags: seq<string>, op: BitmapOperation) returns (queryIds: seq<Id>, aborted: bool)
      requires mapping.Valid()
      modifies mapping
      ensures mapping.Valid() && mapping.Docs() == old(mapping.Docs())
      ensures Translation(queryIds, mapping.Tags(), aborted) == Translate(old(mapping.Tags()), tags, op, [])
    {
      ghost var want := Translate(mapping.Tags(), tags, op, []);
      queryIds := [];
      var i := 0;
      while i < |tags|
        invariant 0 <= i <= |tags|
        invariant mapping.Valid() && mapping.Docs() == old(mapping.Docs())
        invariant want == Translate(mapping.Tags(), tags[i..], op, queryIds)
      {
        assert tags[i..][1..] == tags[i + 1..];
        var t := mapping.GetTagId(tags[i]);
        if t != INVALID_ID {
          queryIds := queryIds + [t];
        } else if op == And || (op == AndNot && queryIds == []) {
          return queryIds, true;
        }
        i := i + 1;
      }
      assert tags[i..] == [];
      aborted := false;
    }

    /** The result loop of `queryTags`: the strings of the documents in ascending id order, keeping those that resolve. */
    method ListDocuments(bitmap: set<Id>) returns (result: seq<string>)
      ensures result == ResolveAll(mapping.Docs(), SortedElems(bitmap))
    {
      result := [];
      var rest := bitmap;
      ghost var listed: seq<Id> := [];
      while rest != {}
        invariant SortedElems(bitmap) == listed + SortedElems(rest)
        invariant result == ResolveAll(mapping.Docs(), listed)
        decreases |rest|
      {
        MinExists(rest);
        var m :| IsMin(rest, m);
        SortedElemsHead(rest, m);
        ConcatAssoc(listed, [m], SortedElems(rest - {m}));
        assert (listed + [m])[..|listed|] == listed;
        var s := mapping.GetStringId(m);
        if s != [] {
          result := result + [s];
        }
        listed := listed + [m];
        rest := rest - {m};
      }
      assert SortedElems(rest) == [];
      assert SortedElems(bitmap) == listed + [];
      assert SortedElems(bitmap) == listed;
    }

    /**
     * `getTagsForDocument`: interns the document string (an unseen one gets
     * a fresh id that has no forward entry), then lists the strings of its
     * forward entry in order.
     */
    method GetTagsForDocument(id: string) returns (result: seq<string>)
      requires Valid()
      modifies mapping
      ensures Valid()
      ensures mapping.Tags() == old(mapping.Tags())
      ensures var r := Intern(old(mapping.Docs()), id);
              mapping.Docs() == r.table &&
              result == if r.id == INVALID_ID || r.id >= |forward.docToTags| then []
                        else ResolveAll(mapping.Tags(), forward.docToTags[r.id])
    {
      LookupCoherent(mapping.Docs(), mapping.Tags(), forward.docToTags, inverted.tagToBitmap, id);
      var d := mapping.GetId(id);
      if d == INVALID_ID || d >= forward.GetDocCount() {
        return [];
      }
      var ids := forward.GetTags(d);
      result := ListTags(ids);
    }

    /** The result loop of `getTagsForDocument`: the string of each tag id in turn, keeping those that resolve. */
    method ListTags(ids: seq<Id>) returns (result: seq<string>)
      ensures result == ResolveAll(mapping.Tags(), ids)
    {
      result := [];
      var k := 0;
      while k < |ids|
        invariant 0 <= k <= |ids|
        invariant result == ResolveAll(mapping.Tags(), ids[..k])
      {
        assert ids[..k + 1][..k] == ids[..k];
        var s := mapping.GetStringTag(ids[k]);
        if s != [] {
          result := result + [s];
        }
        k := k + 1;
      }
      assert ids[..k] == ids;
    }

    /** `getDocumentCount`: the number of interned documents, never less than the forward index's count. */
    function GetDocumentCount(): (n: nat)
      reads this, mapping, forward, inverted
      ensures Valid() ==> forward.GetDocCount() <= n
    {
      mapping.GetDocCount()
    }

    /** `getTagCount`: the number of interned tags, never less than the inverted index's count. */
    function GetTagCount(): (n: nat)
      reads this, mapping, forward, inverted
      ensures Valid() ==> inverted.GetTagCount() <= n
    {
      mapping.GetTagCount()
    }
  }
}

/**
 * One id space of the interning table, as a value: the vector from id to
 * string and the hash map from string back to id. Documents and tags each
 * have one such space; `Mapping` keeps two of them in its fields.
 */
module IdTable {
  import opened Types

  datatype Table = Table(names: seq<string>, index: map<string, Id>)

  const Empty: Table := Table([], map[])

  /**
   * The two directions are inverse: every stored string is non-empty and is
   * mapped back to its position, every key of the map names its own entry,
   * and the count stays within the 32-bit id space (the sentinel is never an id).
   */
  ghost predicate Valid(t: Table) {
    |t.names| <= INVALID_ID &&
    (forall i :: 0 <= i < |t.names| ==> t.names[i] != [] && t.names[i] in t.index && t.index[t.names[i]] == i) &&
    (forall s :: s in t.index ==> t.index[s] < |t.names| && t.names[t.index[s]] == s)
  }

  /** The id the next unseen string gets: the count, cast to the 32-bit id type. */
  function NextId(t: Table): (n: Id)
    ensures |t.names| <= INVALID_ID ==> n == |t.names|
  {
    |t.names| % 0x1_0000_0000
  }

  /** The id interning returned, and the table afterwards. */
  datatype Interned = Interned(id: Id, table: Table)

  /**
   * `getId` / `getTagId`: the empty string gets the sentinel; a known string
   * its id; an unseen one the next id, stored in both directions, unless
   * that id would be the sentinel, in which case nothing is stored.
   */
  function Intern(t: Table, s: string): (r: Interned)
    ensures r.id == INVALID_ID ==> r.table == t
    ensures r.table == t || r.table == Table(t.names + [s], t.index[s := r.id])
  {
    if s == [] then Interned(INVALID_ID, t)
    else if s in t.index then Interned(t.index[s], t)
    else
      var next := NextId(t);
      if next == INVALID_ID then Interned(INVALID_ID, t)
      else Interned(next, Table(t.names + [s], t.index[s := next]))
  }

  /**
   * `getStringId` / `getStringTag`: the string of `id`, or "" for an id at
   * or past the count (the sentinel included).
   */
  function Resolve(t: Table, id: Id): (s: string)
    ensures Valid(t) ==> (s != [] <==> id < |t.names|)
    ensures Valid(t) && s != [] ==> s in t.index && t.index[s] == id
  {
    if id < |t.names| then t.names[id] else ""
  }

  // ---- properties of interning ----

  lemma EmptyValid()
    ensures Valid(Empty) && |Empty.names| == 0
  {
  }

  /** Interning the empty string returns the sentinel and changes nothing. */
  lemma InternEmpty(t: Table)
    ensures Intern(t, "") == Interned(INVALID_ID, t)
  {
  }

  /** A string already stored under `i` gets `i` back, and nothing is allocated. */
  lemma InternKnown(t: Table, i: Id)
    requires Valid(t) && i < |t.names|
    ensures Intern(t, t.names[i]) == Interned(i, t)
  {
  }

  /**
   * An unseen non-empty string gets the current count as its id, and the
   * count grows by exactly one; this is what makes ids dense and assigned in
   * first-seen order.
   */
  lemma InternFresh(t: Table, s: string)
    requires Valid(t) && s != [] && |t.names| < INVALID_ID
    requires forall i :: 0 <= i < |t.names| ==> t.names[i] != s
    ensures Intern(t, s).id == |t.names|
    ensures Intern(t, s).table.names == t.names + [s]
  {
  }

  /** When the id space is exhausted an unseen string gets the sentinel and nothing is stored. */
  lemma InternExhausted(t: Table, s: string)
    requires Valid(t) && |t.names| == INVALID_ID && s !in t.index
    ensures Intern(t, s) == Interned(INVALID_ID, t)
  {
  }

  /** The sentinel comes back exactly for the empty string and for an unseen string once the space is full. */
  lemma InternSentinel(t: Table, s: string)
    requires Valid(t)
    ensures Intern(t, s).id == INVALID_ID <==> s == [] || (s !in t.index && |t.names| == INVALID_ID)
  {
    if s != [] && s in t.index {
      assert t.index[s] < |t.names| <= INVALID_ID;
    }
  }

  /** Interning keeps the two directions inverse. */
  lemma {:induction false} InternValid(t: Table, s: string)
    requires Valid(t)
    ensures Valid(Intern(t, s).table)
  {
    var r := Intern(t, s);
    if r.table != t {
      var u := r.table;
      assert s !in t.index && s != [];
      assert |t.names| < INVALID_ID;
      forall i | 0 <= i < |u.names|
        ensures u.names[i] != [] && u.names[i] in u.index && u.index[u.names[i]] == i
      {
        if i < |t.names| {
          assert u.names[i] == t.names[i] && t.names[i] != s;
        }
      }
    }
  }

  /** Round trip: a string that got a proper id resolves back to itself. */
  lemma InternResolve(t: Table, s: string)
    requires Valid(t)
    ensures var r := Intern(t, s); r.id != INVALID_ID ==> Resolve(r.table, r.id) == s
  {
  }

  /** Interning only ever appends: existing ids keep their strings. */
  lemma InternExtends(t: Table, s: string)
    ensures var u := Intern(t, s).table; |t.names| <= |u.names| <= |t.names| + 1 && u.names[..|t.names|] == t.names
  {
  }

  /** Interning the same string twice gives the same id and allocates at most once. */
  lemma InternIdempotent(t: Table, s: string)
    requires Valid(t)
    ensures var r := Intern(t, s); Intern(r.table, s) == r
  {
  }

  // ---- interning a sequence: ids in first-seen order ----

  /** The table after interning each string of `ss` in turn. */
  function InternAll(t: Table, ss: seq<string>): Table
    decreases |ss|
  {
    if ss == [] then t else InternAll(Intern(t, ss[0]).table, ss[1..])
  }

  /** Interning a non-empty sequence is interning its first string and then the rest. */
  lemma InternStep(t: Table, ss: seq<string>)
    requires ss != []
    ensures var r := Intern(t, ss[0]);
            InternAll(t, ss) == InternAll(r.table, ss[1..]) &&
            InternedIds(t, ss) == (if r.id == INVALID_ID then [] else [r.id]) + InternedIds(r.table, ss[1..])
  {
  }

  /** `names` extended by each non-empty string of `ss` not seen before, in order of first appearance. */
  function FirstSeen(names: seq<string>, ss: seq<string>): (r: seq<string>)
    ensures |names| <= |r|
    decreases |ss|
  {
    if ss == [] then names
    else if ss[0] == [] || ss[0] in names then FirstSeen(names, ss[1..])
    else FirstSeen(names + [ss[0]], ss[1..])
  }

  /**
   * Interning a sequence of strings, while the id space has room, stores
   * exactly the distinct non-empty strings in order of first appearance:
   * the i-th distinct string gets id i.
   */
  lemma {:induction false} InternAllFirstSeen(t: Table, ss: seq<string>)
    requires Valid(t) && |FirstSeen(t.names, ss)| < INVALID_ID
    ensures Valid(InternAll(t, ss))
    ensures InternAll(t, ss).names == FirstSeen(t.names, ss)
    decreases |ss|
  {
    if ss != [] {
      var s := ss[0];
      var u := Intern(t, s).table;
      InternValid(t, s);
      if s == [] {
      } else if s in t.names {
        var i :| 0 <= i < |t.names| && t.names[i] == s;
        InternKnown(t, i);
      } else {
        InternFresh(t, s);
      }
      InternAllFirstSeen(u, ss[1..]);
    }
  }

  /** Interning a sequence keeps the two directions inverse and never drops an id. */
  lemma {:induction false} InternAllValid(t: Table, ss: seq<string>)
    requires Valid(t)
    ensures Valid(InternAll(t, ss))
    ensures |t.names| <= |InternAll(t, ss).names| && InternAll(t, ss).names[..|t.names|] == t.names
    decreases |ss|
  {
    if ss != [] {
      var u := Intern(t, ss[0]).table;
      InternValid(t, ss[0]);
      InternExtends(t, ss[0]);
      InternAllValid(u, ss[1..]);
      var w := InternAll(u, ss[1..]);
      assert w.names[..|t.names|] == w.names[..|u.names|][..|t.names|];
    }
  }

  /** The proper ids, in order, that interning each string of `ss` in turn returns; sentinels are dropped. */
  function InternedIds(t: Table, ss: seq<string>): seq<Id>
    decreases |ss|
  {
    if ss == [] then []
    else
      var r := Intern(t, ss[0]);
      (if r.id == INVALID_ID then [] else [r.id]) + InternedIds(r.table, ss[1..])
  }

  /**
   * Every id that interning a sequence returned names, in the final table,
   * one of the non-empty strings of that sequence.
   */
  lemma {:induction false} InternedIdsResolve(t: Table, ss: seq<string>)
    requires Valid(t)
    ensures forall k :: 0 <= k < |InternedIds(t, ss)| ==>
              InternedIds(t, ss)[k] < |InternAll(t, ss).names| &&
              Resolve(InternAll(t, ss), InternedIds(t, ss)[k]) in ss &&
              Resolve(InternAll(t, ss), InternedIds(t, ss)[k]) != []
    decreases |ss|
  {
    if ss != [] {
      var r := Intern(t, ss[0]);
      InternValid(t, ss[0]);
      InternResolve(t, ss[0]);
      InternedIdsResolve(r.table, ss[1..]);
      InternAllValid(r.table, ss[1..]);
      var w := InternAll(r.table, ss[1..]);
      var ids := InternedIds(t, ss);
      var rest := InternedIds(r.table, ss[1..]);
      forall k | 0 <= k < |ids|
        ensures ids[k] < |w.names| && Resolve(w, ids[k]) in ss && Resolve(w, ids[k]) != []
      {
        if r.id != INVALID_ID && k == 0 {
          assert ids[0] == r.id && r.id < |r.table.names|;
          assert w.names[..|r.table.names|][r.id] == r.table.names[r.id];
        } else {
          var j := if r.id == INVALID_ID then k else k - 1;
          assert ids[k] == rest[j];
          var i :| 0 <= i < |ss[1..]| && ss[1..][i] == Resolve(w, rest[j]);
          assert ss[i + 1] == ss[1..][i];
        }
      }
    }
  }

  /**
   * `getStringId` / `getStringTag` on each id in turn, keeping the strings
   * that resolve: the result lists of a query and of a document lookup.
   */
  function ResolveAll(t: Table, ids: seq<Id>): seq<string>
    decreases |ids|
  {
    if ids == [] then []
    else
      var s := Resolve(t, ids[|ids| - 1]);
      ResolveAll(t, ids[..|ids| - 1]) + (if s == [] then [] else [s])
  }

  /** When every id is inside the table none is dropped: the k-th string is the name of the k-th id. */
  lemma {:induction false} ResolveAllComplete(t: Table, ids: seq<Id>)
    requires Valid(t)
    requires forall k :: 0 <= k < |ids| ==> ids[k] < |t.names|
    ensures |ResolveAll(t, ids)| == |ids|
    ensures forall k :: 0 <= k < |ids| ==> ResolveAll(t, ids)[k] == t.names[ids[k]]
    decreases |ids|
  {
    if ids != [] {
      var front := ids[..|ids| - 1];
      ResolveAllComplete(t, front);
      assert forall k :: 0 <= k < |front| ==> front[k] == ids[k];
    }
  }

  /** Three distinct strings with a repeat and an empty string in between are stored once each, in order. */
  lemma InternRepeatScenario(a: string, b: string, c: string)
    requires a != [] && b != [] && c != [] && a != b && a != c && b != c
    ensures InternAll(Empty, [a, b, a, "", c]).names == [a, b, c]
  {
    var ss := [a, b, a, "", c];
    assert ss[1..] == [b, a, "", c] && ss[1..][1..] == [a, "", c];
    assert ss[1..][1..][1..] == ["", c] && ss[1..][1..][1..][1..] == [c];
    assert FirstSeen([a, b], [c]) == [a, b, c] by {
      assert [c][1..] == [];
    }
    assert FirstSeen([a, b], ["", c]) == [a, b, c];
    assert FirstSeen([a, b], [a, "", c]) == [a, b, c];
    assert [a] + [b] == [a, b];
    assert FirstSeen([a], [b, a, "", c]) == [a, b, c];
    assert [] + [a] == [a];
    assert FirstSeen([], ss) == [a, b, c];
    InternAllFirstSeen(Empty, ss);
  }

  /** The unit-test scenario: three distinct strings from an empty table get 0, 1 and 2, and a repeat is de-duplicated. */
  lemma InternExample()
    ensures InternAll(Empty, ["doc_A", "doc_B", "doc_A", "", "doc_C"]).names == ["doc_A", "doc_B", "doc_C"]
  {
    InternRepeatScenario("doc_A", "doc_B", "doc_C");
  }
}

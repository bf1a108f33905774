/**
 * The two interning tables, documents and tags, as an object whose four
 * containers are updated in place. Each space is an `IdTable.Table` seen
 * through `Docs()` / `Tags()`.
 */
module Mapping {
  import opened Types
  import opened IdTable

  class Mapping {
    var docIdToString: seq<string>
    var stringToDocId: map<string, Id>
    var tagIdToString: seq<string>
    var stringToTagId: map<string, Id>

    /** The document space as a table value. */
    function Docs(): Table
      reads this
    {
      Table(docIdToString, stringToDocId)
    }

    /** The tag space as a table value. */
    function Tags(): Table
      reads this
    {
      Table(tagIdToString, stringToTagId)
    }

    /** Both spaces keep their two directions inverse. */
    ghost predicate Valid()
      reads this
    {
      IdTable.Valid(Docs()) && IdTable.Valid(Tags())
    }

    constructor()
      ensures Valid() && Docs() == Empty && Tags() == Empty
    {
      docIdToString := [];
      stringToDocId := map[];
      tagIdToString := [];
      stringToTagId := map[];
    }

    /**
     * `getId`, both the copying and the moving overload: the document id of
     * `s`, allocating the next one for an unseen non-empty string. The tag
     * space is not touched.
     */
    method GetId(s: string) returns (id: Id)
      requires Valid()
      modifies this
      ensures Valid()
      ensures Interned(id, Docs()) == Intern(old(Docs()), s)
      ensures Tags() == old(Tags())
    {
      InternValid(Docs(), s);
      if s == [] {
        return INVALID_ID;
      }
      if s in stringToDocId {
        return stringToDocId[s];
      }
      var next: Id := |docIdToString| % 0x1_0000_0000;
      if next == INVALID_ID {
        return INVALID_ID;
      }
      docIdToString := docIdToString + [s];
      stringToDocId := stringToDocId[s := next];
      return next;
    }

    /**
     * `getTagId`, both overloads: the tag id of `s`, allocating the next one
     * for an unseen non-empty string. The document space is not touched.
     */
    method GetTagId(s: string) returns (id: Id)
      requires Valid()
      modifies this
      ensures Valid()
      ensures Interned(id, Tags()) == Intern(old(Tags()), s)
      ensures Docs() == old(Docs())
    {
      InternValid(Tags(), s);
      if s == [] {
        return INVALID_ID;
      }
      if s in stringToTagId {
        return stringToTagId[s];
      }
      var next: Id := |tagIdToString| % 0x1_0000_0000;
      if next == INVALID_ID {
        return INVALID_ID;
      }
      tagIdToString := tagIdToString + [s];
      stringToTagId := stringToTagId[s := next];
      return next;
    }

    /** `getStringId`: the string of a document id, "" exactly for ids at or past the count. */
    function GetStringId(id: Id): (s: string)
      reads this
      ensures Valid() ==> (s != [] <==> id < GetDocCount())
      ensures Valid() && s != [] ==> s in stringToDocId && stringToDocId[s] == id
    {
      Resolve(Docs(), id)
    }

    /** `getStringTag`: the string of a tag id, "" exactly for ids at or past the count. */
    function GetStringTag(id: Id): (s: string)
      reads this
      ensures Valid() ==> (s != [] <==> id < GetTagCount())
      ensures Valid() && s != [] ==> s in stringToTagId && stringToTagId[s] == id
    {
      Resolve(Tags(), id)
    }

    /** `getDocCount`: the number of interned documents. */
    function GetDocCount(): nat
      reads this
    {
      |docIdToString|
    }

    /** `getTagCount`: the number of interned tags. */
    function GetTagCount(): nat
      reads this
    {
      |tagIdToString|
    }

    /** `getNextDocId`: the id the next unseen document would get, the count itself in a valid table. */
    function GetNextDocId(): (n: Id)
      reads this
      ensures Valid() ==> n == GetDocCount()
    {
      NextId(Docs())
    }

    /** `getNextTagId`: the id the next unseen tag would get, the count itself in a valid table. */
    function GetNextTagId(): (n: Id)
      reads this
      ensures Valid() ==> n == GetTagCount()
    {
      NextId(Tags())
    }
  }

  /** The unit tests' scenario on the object: ids 0, 1, 0 again, the empty string refused, resolution back. */
  method MappingScenario() returns (m: Mapping)
    ensures fresh(m) && m.Valid()
    ensures m.GetDocCount() == 2 && m.GetTagCount() == 0
    ensures m.GetStringId(0) == "doc001" && m.GetStringId(1) == "doc002" && m.GetStringId(2) == ""
  {
    m := new Mapping();
    var a := m.GetId("doc001");
    assert a == 0;
    var b := m.GetId("doc002");
    assert b == 1;
    var c := m.GetId("doc001");
    assert c == 0;
    var e := m.GetId("");
    assert e == INVALID_ID;
  }
}

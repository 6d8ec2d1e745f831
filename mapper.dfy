/** The URL <-> ID interning table of the link graph (src/graph/mapper.go): URLs get
    dense consecutive IDs 0, 1, 2, ... in order of first appearance. */
module Graph {

  /** The two directions agree: the list holds at position i the URL whose ID is i, and
      the map sends exactly the listed URLs to their positions. */
  predicate Interned(strToID: map<string, nat>, idToStr: seq<string>)
  {
    (forall i :: 0 <= i < |idToStr| ==> idToStr[i] in strToID && strToID[idToStr[i]] == i) &&
    (forall u :: u in strToID ==> strToID[u] < |idToStr| && idToStr[strToID[u]] == u)
  }

  /** No URL is listed twice. */
  predicate NoDuplicates(s: seq<string>)
  {
    forall i, j :: 0 <= i < j < |s| ==> s[i] != s[j]
  }

  /** The set of URLs listed in s. */
  function Listed(s: seq<string>): set<string>
  {
    set i | 0 <= i < |s| :: s[i]
  }

  /** Distinct positions hold distinct URLs, and the map's keys are the listed URLs. */
  lemma InternedShape(strToID: map<string, nat>, idToStr: seq<string>)
    requires Interned(strToID, idToStr)
    ensures NoDuplicates(idToStr)
    ensures strToID.Keys == Listed(idToStr)
  {
    forall i, j | 0 <= i < j < |idToStr|
      ensures idToStr[i] != idToStr[j]
    {
      assert strToID[idToStr[i]] == i && strToID[idToStr[j]] == j;
    }
    forall u | u in strToID
      ensures u in Listed(idToStr)
    {
      assert idToStr[strToID[u]] == u;
    }
  }

  /** A list without duplicates lists as many URLs as it is long. */
  lemma {:induction false} ListedCount(s: seq<string>)
    requires NoDuplicates(s)
    ensures |Listed(s)| == |s|
  {
    if |s| > 0 {
      var init := s[..|s| - 1];
      assert NoDuplicates(init) by {
        forall i, j | 0 <= i < j < |init|
          ensures init[i] != init[j]
        {
          assert init[i] == s[i] && init[j] == s[j];
        }
      }
      ListedCount(init);
      assert Listed(s) == Listed(init) + {s[|s| - 1]} by {
        forall u | u in Listed(s)
          ensures u in Listed(init) + {s[|s| - 1]}
        {
          var i :| 0 <= i < |s| && s[i] == u;
          if i < |s| - 1 {
            assert init[i] == u;
          }
        }
      }
      assert s[|s| - 1] !in Listed(init) by {
        forall i | 0 <= i < |init|
          ensures init[i] != s[|s| - 1]
        {
          assert init[i] == s[i];
        }
      }
    }
  }

  /** Every interned URL has its own ID: the map is as large as the list. */
  lemma InternedCount(strToID: map<string, nat>, idToStr: seq<string>)
    ensures Interned(strToID, idToStr) ==> |strToID| == |idToStr|
  {
    if Interned(strToID, idToStr) {
      InternedShape(strToID, idToStr);
      ListedCount(idToStr);
      assert |strToID| == |strToID.Keys|;
    }
  }

  /** Distinct interned URLs have distinct IDs. */
  lemma DistinctURLsDistinctIDs(strToID: map<string, nat>, idToStr: seq<string>, u: string, v: string)
    requires Interned(strToID, idToStr) && u in strToID && v in strToID
    ensures strToID[u] == strToID[v] <==> u == v
  {
    assert idToStr[strToID[u]] == u && idToStr[strToID[v]] == v;
  }

  /** Interning a new URL under the next free ID keeps both directions in agreement. */
  lemma InternExtends(strToID: map<string, nat>, idToStr: seq<string>, url: string)
    requires Interned(strToID, idToStr) && url !in strToID
    ensures Interned(strToID[url := |idToStr|], idToStr + [url])
  {
    var m, s := strToID[url := |idToStr|], idToStr + [url];
    forall i | 0 <= i < |s|
      ensures s[i] in m && m[s[i]] == i
    {
      if i < |idToStr| {
        assert s[i] == idToStr[i] && s[i] != url;
      }
    }
  }

  /** Mapper. The read-write lock of the source only serialises these operations and is
      not modelled. */
  class Mapper {
    var strToID: map<string, nat>
    var idToStr: seq<string>
    var nextID: nat

    /** The counter is the next free ID and the two directions agree. */
    ghost predicate Valid()
      reads this
    {
      nextID == |idToStr| && Interned(strToID, idToStr)
    }

    /** NewMapper: nothing interned yet. */
    constructor ()
      ensures Valid() && Size() == 0
      ensures strToID == map[] && idToStr == [] && nextID == 0
    {
      strToID := map[];
      idToStr := [];
      nextID := 0;
    }

    /** The ID of `url`, interning it under the next free ID the first time it is seen. */
    method GetID(url: string) returns (id: nat)
      requires Valid()
      modifies this
      ensures Valid()
      ensures url in old(strToID) ==>
        id == old(strToID)[url] && strToID == old(strToID) && idToStr == old(idToStr) && nextID == old(nextID)
      ensures url !in old(strToID) ==>
        id == old(nextID) && strToID == old(strToID)[url := id] &&
        idToStr == old(idToStr) + [url] && nextID == old(nextID) + 1
      ensures url in strToID && strToID[url] == id && GetURL(id) == url
    {
      if url in strToID {
        id := strToID[url];
        return;
      }
      InternExtends(strToID, idToStr, url);
      id := nextID;
      strToID := strToID[url := id];
      idToStr := idToStr + [url];
      nextID := nextID + 1;
    }

    /** The URL with ID `id`, or "" for an ID never handed out. */
    function GetURL(id: nat): (url: string)
      reads this
      ensures Valid() && id < Size() ==> url in strToID && strToID[url] == id
      ensures id >= |idToStr| ==> url == ""
    {
      if id >= |idToStr| then "" else idToStr[id]
    }

    /** The number of IDs handed out, which is the number of distinct URLs interned. */
    function Size(): (n: nat)
      reads this
      ensures Valid() ==> n == |idToStr| && n == |strToID|
    {
      InternedCount(strToID, idToStr);
      nextID
    }
  }

  /** Interning is idempotent: asking twice for the same URL gives the same ID, and that ID
      leads back to the URL. */
  method GetIDTwice(m: Mapper, url: string) returns (first: nat, second: nat)
    requires m.Valid()
    modifies m
    ensures m.Valid() && first == second && m.GetURL(first) == url
  {
    first := m.GetID(url);
    second := m.GetID(url);
  }
}

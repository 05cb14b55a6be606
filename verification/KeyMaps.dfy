/** The finite map from keys to elements that a table with distinct keys stands for. */
module KeyMaps {
  import opened Lists

  ghost predicate DistinctKeys(s: seq<Elem>) {
    forall i, j :: 0 <= i < j < |s| ==> s[i].key != s[j].key
  }

  ghost function MapOf(s: seq<Elem>): map<seq<bv8>, Elem> {
    if s == [] then map[] else MapOf(s[..|s| - 1])[s[|s| - 1].key := s[|s| - 1]]
  }

  ghost function Lookup(m: map<seq<bv8>, Elem>, key: seq<bv8>): Elem? {
    if key in m then m[key] else null
  }

  lemma {:induction false} MapOfMeaning(s: seq<Elem>, key: seq<bv8>)
    ensures key in MapOf(s) <==> exists i :: 0 <= i < |s| && s[i].key == key
    ensures key in MapOf(s) ==> MapOf(s)[key] in s && MapOf(s)[key].key == key
  {
    if s != [] {
      MapOfMeaning(s[..|s| - 1], key);
      if key in MapOf(s[..|s| - 1]) {
        var i :| 0 <= i < |s| - 1 && s[..|s| - 1][i].key == key;
        assert s[i].key == key;
      }
    }
  }

  /** With distinct keys, an element that has the key is the one the map gives. */
  lemma LookupIs(s: seq<Elem>, key: seq<bv8>, out: Elem?)
    requires DistinctKeys(s)
    requires out == null <==> forall e :: e in s ==> e.key != key
    requires out != null ==> out in s && out.key == key
    ensures out == Lookup(MapOf(s), key)
  {
    hide MapOf;
    MapOfMeaning(s, key);
    if key in MapOf(s) {
      var e := MapOf(s)[key];
      var i :| 0 <= i < |s| && s[i] == e;
      var j :| 0 <= j < |s| && s[j] == out;
    }
  }

  lemma MapsAgree(s: seq<Elem>, r: seq<Elem>)
    requires DistinctKeys(s) && Nodes(r) == Nodes(s)
    ensures MapOf(r) == MapOf(s)
  {
    forall key ensures key in MapOf(r) <==> key in MapOf(s)
      ensures key in MapOf(r) ==> MapOf(r)[key] == MapOf(s)[key]
    {
      SameLookup(s, r, key);
    }
  }

  lemma SameLookup(s: seq<Elem>, r: seq<Elem>, key: seq<bv8>)
    requires DistinctKeys(s) && Nodes(r) == Nodes(s)
    ensures key in MapOf(r) <==> key in MapOf(s)
    ensures key in MapOf(r) ==> MapOf(r)[key] == MapOf(s)[key]
  {
    hide MapOf;
    MapOfMeaning(s, key);
    MapOfMeaning(r, key);
    assert forall e :: e in s ==> e in Nodes(s);
    assert forall e :: e in r ==> e in Nodes(r);
  }

  lemma KeysWithout(s: seq<Elem>, k: nat, r: seq<Elem>)
    requires DistinctKeys(s) && k < |s| && r == RemoveAt(s, k)
    ensures DistinctKeys(r)
    ensures forall i :: 0 <= i < |r| ==> r[i] in s && r[i].key != s[k].key
    ensures forall i :: 0 <= i < |s| && i != k ==> s[i] in r
  {
    hide RemoveAt;
    forall i | 0 <= i < |s| && i != k ensures s[i] in r {
      assert s[i] == r[if i < k then i else i - 1];
    }
    forall i | 0 <= i < |r| ensures r[i] in s && r[i].key != s[k].key {
      assert r[i] == s[if i < k then i else i + 1];
    }
  }

  lemma StillNotIn(s: seq<Elem>, k: nat, r: seq<Elem>, e: Elem)
    requires k < |s| && r == RemoveAt(s, k) && (e in s ==> DistinctKeys(s) && s[k].key == e.key)
    ensures e !in r
  {
    hide RemoveAt;
    forall i | 0 <= i < |r| ensures r[i] != e {
      assert r[i] == s[if i < k then i else i + 1];
    }
  }

  lemma MapWithout(s: seq<Elem>, k: nat)
    requires DistinctKeys(s) && k < |s|
    ensures DistinctKeys(RemoveAt(s, k)) && MapOf(RemoveAt(s, k)) == MapOf(s) - {s[k].key}
  {
    hide MapOf, RemoveAt;
    var r := RemoveAt(s, k);
    KeysWithout(s, k, r);
    forall key
      ensures key in MapOf(r) <==> key in MapOf(s) && key != s[k].key
      ensures key in MapOf(r) ==> MapOf(r)[key] == MapOf(s)[key]
    {
      MapOfMeaning(s, key);
      MapOfMeaning(r, key);
    }
  }

  lemma MapWith(s: seq<Elem>, e: Elem)
    ensures MapOf(s + [e]) == MapOf(s)[e.key := e]
    ensures DistinctKeys(s) && e.key !in MapOf(s) ==> DistinctKeys(s + [e])
  {
    assert (s + [e])[..|s|] == s;
    MapOfMeaning(s, e.key);
  }
}

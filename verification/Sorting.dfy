/** `sort_by_key`, as insertion sort: items with equal keys keep their order. */
module Sorting {

  type Key = (nat, nat)

  predicate KeyBefore(a: Key, b: Key) {
    a.0 < b.0 || (a.0 == b.0 && a.1 < b.1)
  }

  function Insert<T>(x: T, s: seq<T>, key: T -> Key): seq<T> {
    if s == [] then [x]
    else if KeyBefore(key(s[0]), key(x)) then [s[0]] + Insert(x, s[1..], key)
    else [x] + s
  }

  function SortBy<T>(s: seq<T>, key: T -> Key): seq<T> {
    if s == [] then [] else Insert(s[0], SortBy(s[1..], key), key)
  }

  ghost predicate DistinctKeys<T>(s: seq<T>, key: T -> Key) {
    forall i, j | 0 <= i < j < |s| :: key(s[i]) != key(s[j])
  }

  ghost predicate AscendingKeys<T>(s: seq<T>, key: T -> Key) {
    forall i, j | 0 <= i < j < |s| :: KeyBefore(key(s[i]), key(s[j]))
  }

  ghost predicate SameMembers<T(!new)>(s: seq<T>, t: seq<T>) {
    forall x :: x in s <==> x in t
  }

  lemma {:induction false} InsertKeepsOrder<T(!new)>(x: T, s: seq<T>, key: T -> Key)
    requires AscendingKeys(s, key) && forall i | 0 <= i < |s| :: key(s[i]) != key(x)
    ensures AscendingKeys(Insert(x, s, key), key) && SameMembers(Insert(x, s, key), [x] + s)
  {
    if s != [] && KeyBefore(key(s[0]), key(x)) {
      InsertKeepsOrder(x, s[1..], key);
      var rest := Insert(x, s[1..], key);
      forall j | 0 <= j < |rest| ensures KeyBefore(key(s[0]), key(rest[j])) {
        assert rest[j] in rest;
        assert rest[j] in [x] + s[1..];
      }
      assert s == [s[0]] + s[1..];
    }
  }

  /** The sorted sequence is ascending and has the members of the original. */
  lemma {:induction false} SortByIsAscending<T(!new)>(s: seq<T>, key: T -> Key)
    requires DistinctKeys(s, key)
    ensures AscendingKeys(SortBy(s, key), key) && SameMembers(SortBy(s, key), s)
  {
    if s != [] {
      SortByIsAscending(s[1..], key);
      var rest := SortBy(s[1..], key);
      forall i | 0 <= i < |rest| ensures key(rest[i]) != key(s[0]) {
        assert rest[i] in rest;
        var j :| 0 <= j < |s[1..]| && s[1..][j] == rest[i];
        assert s[j + 1] == rest[i];
      }
      InsertKeepsOrder(s[0], rest, key);
      assert s == [s[0]] + s[1..];
    }
  }

  // ----- Keys that may repeat -----

  ghost predicate WeaklyAscending<T>(s: seq<T>, key: T -> Key) {
    forall i, j | 0 <= i < j < |s| :: !KeyBefore(key(s[j]), key(s[i]))
  }

  lemma {:induction false} InsertAdds<T>(x: T, s: seq<T>, key: T -> Key)
    ensures multiset(Insert(x, s, key)) == multiset{x} + multiset(s)
  {
    if s != [] && KeyBefore(key(s[0]), key(x)) {
      InsertAdds(x, s[1..], key);
      assert s == [s[0]] + s[1..];
    }
  }

  lemma InsertedIs<T(!new)>(x: T, s: seq<T>, key: T -> Key, j: nat)
    requires j < |Insert(x, s, key)|
    ensures Insert(x, s, key)[j] == x || exists i :: 0 <= i < |s| && s[i] == Insert(x, s, key)[j]
  {
    hide Insert;
    InsertAdds(x, s, key);
    var y := Insert(x, s, key)[j];
    assert y in multiset(Insert(x, s, key));
    assert y != x ==> y in s;
  }

  lemma {:induction false} InsertKeeps<T(!new)>(x: T, s: seq<T>, key: T -> Key)
    requires WeaklyAscending(s, key)
    ensures WeaklyAscending(Insert(x, s, key), key)
  {
    if s != [] && KeyBefore(key(s[0]), key(x)) {
      var rest := Insert(x, s[1..], key);
      InsertKeeps(x, s[1..], key);
      forall j | 0 <= j < |rest| ensures !KeyBefore(key(rest[j]), key(s[0])) {
        InsertedIs(x, s[1..], key, j);
        if i :| 0 <= i < |s[1..]| && s[1..][i] == rest[j] {
          assert s[i + 1] == rest[j];
        }
      }
    }
  }

  /** Sorting arranges the items in weakly ascending order and loses or repeats none. */
  lemma {:induction false} SortByArranges<T(!new)>(s: seq<T>, key: T -> Key)
    ensures WeaklyAscending(SortBy(s, key), key) && multiset(SortBy(s, key)) == multiset(s)
  {
    if s != [] {
      SortByArranges(s[1..], key);
      InsertAdds(s[0], SortBy(s[1..], key), key);
      InsertKeeps(s[0], SortBy(s[1..], key), key);
      assert s == [s[0]] + s[1..];
    }
  }

  ghost predicate KeyTells<T(!new)>(s: seq<T>, key: T -> Key) {
    forall x, y | x in s && y in s && key(x) == key(y) :: x == y
  }

  lemma SameHead<T(!new)>(s: seq<T>, t: seq<T>, key: T -> Key)
    requires WeaklyAscending(s, key) && WeaklyAscending(t, key) && multiset(s) == multiset(t) && KeyTells(s, key)
    requires s != [] && t != []
    ensures s[0] == t[0]
  {
    assert t[0] in multiset(t) && s[0] in multiset(s);
    var i :| 0 <= i < |s| && s[i] == t[0];
    var j :| 0 <= j < |t| && t[j] == s[0];
    assert i > 0 ==> !KeyBefore(key(s[i]), key(s[0]));
    assert j > 0 ==> !KeyBefore(key(t[j]), key(t[0]));
  }

  lemma TailKeeps<T(!new)>(s: seq<T>, key: T -> Key)
    requires s != [] && WeaklyAscending(s, key) && KeyTells(s, key)
    ensures WeaklyAscending(s[1..], key) && KeyTells(s[1..], key)
    ensures multiset(s[1..]) == multiset(s) - multiset{s[0]} && s == [s[0]] + s[1..]
  {
    assert s == [s[0]] + s[1..];
    assert forall x | x in s[1..] :: x in s;
  }

  /** Where equal keys mean equal items there is only one weakly ascending arrangement. */
  lemma {:induction false} ArrangementIsUnique<T(!new)>(s: seq<T>, t: seq<T>, key: T -> Key)
    requires WeaklyAscending(s, key) && WeaklyAscending(t, key) && multiset(s) == multiset(t)
    requires KeyTells(s, key) && KeyTells(t, key)
    ensures s == t
    decreases |s|
  {
    hide WeaklyAscending, KeyTells;
    assert |s| == |multiset(s)| == |multiset(t)| == |t|;
    if s != [] {
      SameHead(s, t, key);
      TailKeeps(s, key);
      TailKeeps(t, key);
      ArrangementIsUnique(s[1..], t[1..], key);
    }
  }

  lemma SameKeysTell<T(!new)>(s: seq<T>, t: seq<T>, key: T -> Key)
    requires multiset(s) == multiset(t) && KeyTells(s, key)
    ensures KeyTells(t, key)
  {
    forall x | x in t ensures x in s {
      assert x in multiset(t);
    }
  }

  /** Then sorting does not depend on the order it starts from. */
  lemma SortByIgnoresOrder<T(!new)>(s: seq<T>, t: seq<T>, key: T -> Key)
    requires multiset(s) == multiset(t) && KeyTells(s, key)
    ensures SortBy(s, key) == SortBy(t, key)
  {
    SortByArranges(s, key);
    SortByArranges(t, key);
    SameKeysTell(s, SortBy(s, key), key);
    SameKeysTell(s, SortBy(t, key), key);
    ArrangementIsUnique(SortBy(s, key), SortBy(t, key), key);
  }
}

/** The turn order of the combat session: a copy of the combatants sorted by armour,
    highest first, with `ac || 0` as the key, by the stable `Array.prototype.sort` that
    ECMAScript 2019 requires (section 22.1.3.27). The first combatant of the order is the
    one whose turn is active. */
module TurnOrder {
  import opened Seqs
  import opened Entities

  /** `a` may come before `b`: its key is not lower. */
  predicate RanksBefore(a: Character, b: Character)
  {
    RankKey(a) >= RankKey(b)
  }

  /** Keys never increase along the list. */
  ghost predicate SortedByAc(s: seq<Character>)
  {
    Pairwise(s, RanksBefore)
  }

  function WithKey(k: int): Character -> bool
  {
    (c: Character) => RankKey(c) == k
  }

  /** For every key, the combatants with that key appear in `r` in the same order as in `s`. */
  ghost predicate KeepsTies(s: seq<Character>, r: seq<Character>)
  {
    forall k :: Filter(r, WithKey(k)) == Filter(s, WithKey(k))
  }

  /** Places `x` in front of the first element whose key is not above its own. */
  function Insert(x: Character, t: seq<Character>): seq<Character>
  {
    if t == [] || RankKey(x) >= RankKey(t[0]) then [x] + t else [t[0]] + Insert(x, t[1..])
  }

  /** Inserting adds exactly the one element. */
  lemma {:induction false} InsertAddsOne(x: Character, t: seq<Character>)
    ensures multiset(Insert(x, t)) == multiset(t) + multiset{x}
  {
    if t != [] && RankKey(x) < RankKey(t[0]) {
      InsertAddsOne(x, t[1..]);
      assert t == [t[0]] + t[1..];
    }
  }

  /** Inserting into a list sorted by descending key keeps it sorted. */
  lemma {:induction false} InsertKeepsSorted(x: Character, t: seq<Character>)
    requires SortedByAc(t)
    ensures SortedByAc(Insert(x, t))
  {
    if t == [] {
      PairwiseCons(x, t, RanksBefore);
    } else {
      var tail := t[1..];
      PairwiseTail(t, RanksBefore);
      assert t == [t[0]] + tail;
      if RankKey(x) >= RankKey(t[0]) {
        forall y | y in t ensures RanksBefore(x, y) {
          if y != t[0] {
            assert y in tail;
          }
        }
        PairwiseCons(x, t, RanksBefore);
      } else {
        InsertKeepsSorted(x, tail);
        InsertAddsOne(x, tail);
        var rest := Insert(x, tail);
        forall y | y in rest ensures RanksBefore(t[0], y) {
          assert y in multiset(rest);
          if y != x {
            assert y in multiset(tail);
          }
        }
        PairwiseCons(t[0], rest, RanksBefore);
      }
    }
  }

  /** Inserting `x` adds it in front of the others with the same key and disturbs no tie. */
  lemma {:induction false} InsertTies(x: Character, t: seq<Character>, k: int)
    ensures Filter(Insert(x, t), WithKey(k)) ==
            (if RankKey(x) == k then [x] else []) + Filter(t, WithKey(k))
  {
    var p := WithKey(k);
    if t == [] || RankKey(x) >= RankKey(t[0]) {
      assert Insert(x, t) == [x] + t;
      FilterCons(x, t, p);
    } else {
      var y, rest := t[0], t[1..];
      assert t == [y] + rest;
      assert Insert(x, t) == [y] + Insert(x, rest);
      InsertTies(x, rest, k);
      FilterCons(y, Insert(x, rest), p);
      FilterCons(y, rest, p);
      var hx := if RankKey(x) == k then [x] else [];
      var hy := if RankKey(y) == k then [y] else [];
      assert hx == [] || hy == [];
      calc {
        Filter(Insert(x, t), p);
        hy + Filter(Insert(x, rest), p);
        hy + (hx + Filter(rest, p));
        { assert hy + hx == hx + hy; }
        hx + (hy + Filter(rest, p));
        hx + Filter(t, p);
      }
    }
  }

  /** The turn order: `[...combatants].sort((a, b) => (b.ac || 0) - (a.ac || 0))`. It holds
      as many combatants as the session; armour never increases along it; and combatants with
      equal armour keep their order of insertion (the sort is stable). That it holds exactly
      the session's combatants is `SortByAcIsPermutation`. */
  function SortByAc(s: seq<Character>): (r: seq<Character>)
    ensures |r| == |s|
    ensures SortedByAc(r)
    ensures KeepsTies(s, r)
  {
    if s == [] then []
    else
      var rest := SortByAc(s[1..]);
      InsertAddsOne(s[0], rest);
      assert |multiset(Insert(s[0], rest))| == |multiset(rest)| + 1;
      InsertKeepsSorted(s[0], rest);
      assert s == [s[0]] + s[1..];
      assert KeepsTies(s, Insert(s[0], rest)) by {
        forall k ensures Filter(Insert(s[0], rest), WithKey(k)) == Filter(s, WithKey(k)) {
          InsertTies(s[0], rest, k);
        }
      }
      Insert(s[0], rest)
  }

  /** The turn order holds exactly the combatants, each as often as in the session. */
  lemma {:induction false} SortByAcIsPermutation(s: seq<Character>)
    ensures multiset(SortByAc(s)) == multiset(s)
  {
    if s != [] {
      SortByAcIsPermutation(s[1..]);
      InsertAddsOne(s[0], SortByAc(s[1..]));
      assert s == [s[0]] + s[1..];
    }
  }

  lemma InsertInFront(x: Character, t: seq<Character>)
    requires t != [] && RankKey(x) >= RankKey(t[0])
    ensures Insert(x, t) == [x] + t
  {
  }

  lemma InsertBehind(x: Character, y: Character, t: seq<Character>)
    requires RankKey(x) < RankKey(y)
    ensures Insert(x, [y] + t) == [y] + Insert(x, t)
  {
    assert ([y] + t)[1..] == t;
  }

  lemma SortByAcCons(x: Character, s: seq<Character>)
    ensures SortByAc([x] + s) == Insert(x, SortByAc(s))
  {
    assert ([x] + s)[1..] == s;
  }

  /** A list is empty exactly when no key has any element. */
  lemma EmptyIffNoKeys(s: seq<Character>)
    ensures s == [] <==> forall k :: Filter(s, WithKey(k)) == []
  {
    if s != [] {
      assert s[0] in Filter(s, WithKey(RankKey(s[0])));
    }
  }

  /** The first element of a sorted list has the highest key. */
  lemma SortedHeadIsMax(r: seq<Character>, c: Character)
    requires SortedByAc(r) && c in r
    ensures RankKey(c) <= RankKey(r[0])
  {
    var m :| 0 <= m < |r| && r[m] == c;
    if m > 0 {
      assert RanksBefore(r[0], r[m]);
    }
  }

  /** Lists that agree within every key hold the same elements. */
  lemma SameKeysSameElements(r1: seq<Character>, r2: seq<Character>, c: Character)
    requires forall k :: Filter(r1, WithKey(k)) == Filter(r2, WithKey(k))
    requires c in r1
    ensures c in r2
  {
    var p := WithKey(RankKey(c));
    assert c in Filter(r1, p);
    assert Filter(r1, p) == Filter(r2, p);
  }

  /** Two sorted lists that agree within every key start with the same element. */
  lemma SortedHeadsAgree(r1: seq<Character>, r2: seq<Character>)
    requires r1 != [] && r2 != []
    requires SortedByAc(r1) && SortedByAc(r2)
    requires forall k :: Filter(r1, WithKey(k)) == Filter(r2, WithKey(k))
    ensures r1[0] == r2[0]
  {
    SameKeysSameElements(r1, r2, r1[0]);
    SameKeysSameElements(r2, r1, r2[0]);
    SortedHeadIsMax(r2, r1[0]);
    SortedHeadIsMax(r1, r2[0]);
    var p := WithKey(RankKey(r1[0]));
    assert p(r1[0]) && p(r2[0]);
    FilterHead(r1, p);
    FilterHead(r2, p);
    assert Filter(r1, p) == Filter(r2, p);
  }

  /** Lists with a common head that agree within every key still agree once the head is dropped. */
  lemma TailsAgreeOnKeys(r1: seq<Character>, r2: seq<Character>)
    requires r1 != [] && r2 != [] && r1[0] == r2[0]
    requires forall k :: Filter(r1, WithKey(k)) == Filter(r2, WithKey(k))
    ensures forall k :: Filter(r1[1..], WithKey(k)) == Filter(r2[1..], WithKey(k))
  {
    assert r1 == [r1[0]] + r1[1..] && r2 == [r2[0]] + r2[1..];
    forall k ensures Filter(r1[1..], WithKey(k)) == Filter(r2[1..], WithKey(k)) {
      var p := WithKey(k);
      FilterCons(r1[0], r1[1..], p);
      FilterCons(r2[0], r2[1..], p);
      var head := if p(r1[0]) then [r1[0]] else [];
      assert head + Filter(r1[1..], p) == head + Filter(r2[1..], p);
      assert Filter(r1[1..], p) == (head + Filter(r1[1..], p))[|head|..];
    }
  }

  /** Two orders sorted by key that agree on the order within every key are equal. */
  lemma {:induction false} SortedTiesDetermineOrder(r1: seq<Character>, r2: seq<Character>)
    requires SortedByAc(r1) && SortedByAc(r2)
    requires forall k :: Filter(r1, WithKey(k)) == Filter(r2, WithKey(k))
    ensures r1 == r2
  {
    EmptyIffNoKeys(r1);
    EmptyIffNoKeys(r2);
    if r1 != [] && r2 != [] {
      SortedHeadsAgree(r1, r2);
      TailsAgreeOnKeys(r1, r2);
      PairwiseTail(r1, RanksBefore);
      PairwiseTail(r2, RanksBefore);
      SortedTiesDetermineOrder(r1[1..], r2[1..]);
      assert r1 == [r1[0]] + r1[1..] && r2 == [r2[0]] + r2[1..];
    }
  }

  /** Any stable sort by descending key yields exactly `SortByAc`: the turn order does not
      depend on which stable algorithm the engine runs. */
  lemma StableSortIsUnique(s: seq<Character>, r: seq<Character>)
    requires SortedByAc(r) && KeepsTies(s, r)
    ensures r == SortByAc(s)
  {
    SortedTiesDetermineOrder(r, SortByAc(s));
  }

  /** The active combatant (index 0 of the order) has the highest key, and among the
      combatants with that key it is the one added first. */
  lemma ActiveIsFirstOfHighest(s: seq<Character>)
    requires s != []
    ensures SortByAc(s) != [] && SortByAc(s)[0] in s
    ensures forall c :: c in s ==> RankKey(c) <= RankKey(SortByAc(s)[0])
    ensures exists i :: 0 <= i < |s| && s[i] == SortByAc(s)[0] &&
              forall j :: 0 <= j < i ==> RankKey(s[j]) < RankKey(s[i])
  {
    var r := SortByAc(s);
    SortByAcIsPermutation(s);
    var top := r[0];
    assert top in multiset(s);
    forall c | c in s ensures RankKey(c) <= RankKey(top) {
      assert c in multiset(r);
      var m :| 0 <= m < |r| && r[m] == c;
      if m > 0 { assert RanksBefore(r[0], r[m]); }
    }
    var p := WithKey(RankKey(top));
    assert Filter(r, p) == [top] + Filter(r[1..], p) by {
      assert r == [r[0]] + r[1..];
    }
    var i := FilterFirst(s, p);
    assert s[i] == top;
    forall j | 0 <= j < i ensures RankKey(s[j]) < RankKey(s[i]) {
      assert s[j] in s;
    }
  }

  /** The ranks 15, 18, 10 give the order 18, 15, 10. */
  lemma ExampleOrderOfThree(b: Character, c: Character, d: Character)
    requires b.ac == Some(15) && c.ac == Some(18) && d.ac == Some(10)
    ensures SortByAc([b, c, d]) == [c, b, d]
  {
    assert SortByAc([c, d]) == [c, d] by {
      assert [d] + [] == [d];
      assert [c] + [d] == [c, d];
      SortByAcCons(d, []);
      SortByAcCons(c, [d]);
      InsertInFront(c, [d]);
    }
    assert SortByAc([b, c, d]) == Insert(b, [c, d]) by {
      assert [b] + [c, d] == [b, c, d];
      SortByAcCons(b, [c, d]);
    }
    assert Insert(b, [c, d]) == [c, b, d] by {
      assert [b] + [d] == [b, d];
      assert [c] + [b, d] == [c, b, d];
      InsertBehind(b, c, [d]);
      InsertInFront(b, [d]);
    }
  }

  /** The ranks 15, 15, 18, 10 give the order 18, 15, 15, 10 with the two 15s in their
      original order. */
  lemma ExampleOrder(a: Character, b: Character, c: Character, d: Character)
    requires a.ac == Some(15) && b.ac == Some(15) && c.ac == Some(18) && d.ac == Some(10)
    ensures SortByAc([a, b, c, d]) == [c, a, b, d]
  {
    assert SortByAc([a, b, c, d]) == Insert(a, SortByAc([b, c, d])) by {
      assert [a] + [b, c, d] == [a, b, c, d];
      SortByAcCons(a, [b, c, d]);
    }
    assert Insert(a, [c, b, d]) == [c, a, b, d] by {
      assert [a] + [b, d] == [a, b, d];
      assert [c] + [a, b, d] == [c, a, b, d];
      InsertBehind(a, c, [b, d]);
      InsertInFront(a, [b, d]);
    }
    ExampleOrderOfThree(b, c, d);
  }
}

/** The order in which the list handler returns notes: the Map's values in
    insertion order, sorted with `(a, b) => new Date(b.updatedAt) - new
    Date(a.updatedAt)`. `Array.prototype.sort` is stable, so the result is the
    most recently updated note first, notes updated at the same millisecond in
    insertion order. */
module Recency {
  import opened Notes

  /** Most recently updated first. */
  ghost predicate Descending(s: seq<Note>)
  {
    forall i, j :: 0 <= i < j < |s| ==> s[i].updatedAt >= s[j].updatedAt
  }

  /** The notes of `s` last updated at time `t`, in their order in `s`. Two
      orderings of the same notes keep ties in the same relative order
      exactly when they agree on `At` for every `t`. */
  function At(s: seq<Note>, t: nat): seq<Note>
  {
    if s == [] then []
    else (if s[0].updatedAt == t then [s[0]] else []) + At(s[1..], t)
  }

  /** `At(s, t)` holds exactly the notes of `s` updated at `t`. */
  lemma {:induction false} AtMembers(s: seq<Note>, t: nat)
    ensures forall x :: x in At(s, t) <==> x in s && x.updatedAt == t
  {
    if s != [] {
      AtMembers(s[1..], t);
      assert s == [s[0]] + s[1..];
    }
  }

  /** Place `n` in front of the first note of `s` that was not updated later
      than `n`: one step of a stable insertion sort, most recent first. */
  function Insert(n: Note, s: seq<Note>): (r: seq<Note>)
    ensures multiset(r) == multiset(s) + multiset{n}
    ensures Descending(s) ==> Descending(r)
  {
    if s == [] || s[0].updatedAt <= n.updatedAt then [n] + s
    else
      var rest := Insert(n, s[1..]);
      assert s == [s[0]] + s[1..];
      InsertedBelow(n, s, rest);
      [s[0]] + rest
  }

  /** In the recursive case of Insert, the note kept in front is not updated
      earlier than anything behind it. */
  lemma InsertedBelow(n: Note, s: seq<Note>, rest: seq<Note>)
    requires s != [] && s[0].updatedAt > n.updatedAt
    requires multiset(rest) == multiset(s[1..]) + multiset{n}
    requires Descending(s[1..]) ==> Descending(rest)
    ensures Descending(s) ==> Descending([s[0]] + rest)
  {
    if !Descending(s) {
      return;
    }
    assert Descending(s[1..]);
    forall x | x in rest ensures x.updatedAt <= s[0].updatedAt {
      assert x in multiset(rest);
      if x != n {
        assert x in multiset(s[1..]);
        var j :| 0 <= j < |s[1..]| && s[1..][j] == x;
        assert s[j + 1] == x;
      }
    }
    var r := [s[0]] + rest;
    forall i, j | 0 <= i < j < |r| ensures r[i].updatedAt >= r[j].updatedAt {
      if i == 0 {
        assert r[j] == rest[j - 1];
        assert r[j] in rest;
      } else {
        assert r[i] == rest[i - 1] && r[j] == rest[j - 1];
      }
    }
  }

  /** The list handler's sort: a stable sort of `s`, most recent first. */
  function SortByRecency(s: seq<Note>): (r: seq<Note>)
    ensures multiset(r) == multiset(s)
    ensures Descending(r)
  {
    if s == [] then []
    else
      assert s == [s[0]] + s[1..];
      Insert(s[0], SortByRecency(s[1..]))
  }

  lemma AtCons(x: Note, s: seq<Note>, t: nat)
    ensures At([x] + s, t) == (if x.updatedAt == t then [x] else []) + At(s, t)
  {
  }

  /** Inserting `n` adds it in front of the notes that tie with it and leaves
      every other tie group as it was. */
  lemma {:induction false} InsertAt(n: Note, s: seq<Note>, t: nat)
    ensures At(Insert(n, s), t) == if n.updatedAt == t then [n] + At(s, t) else At(s, t)
  {
    if s == [] || s[0].updatedAt <= n.updatedAt {
      AtCons(n, s, t);
    } else {
      InsertAt(n, s[1..], t);
      AtCons(s[0], Insert(n, s[1..]), t);
      assert At(s, t) == (if s[0].updatedAt == t then [s[0]] else []) + At(s[1..], t);
    }
  }

  /** The sort is stable: notes updated at the same time keep their relative
      order. */
  lemma {:induction false} SortKeepsTies(s: seq<Note>, t: nat)
    ensures At(SortByRecency(s), t) == At(s, t)
  {
    if s != [] {
      SortKeepsTies(s[1..], t);
      InsertAt(s[0], SortByRecency(s[1..]), t);
    }
  }

  /** Most recent first with ties kept in order determines the result: any two
      such orderings of the same notes are equal. So SortByRecency is the only
      answer the list handler can give. */
  lemma {:induction false} StableOrderUnique(a: seq<Note>, b: seq<Note>)
    requires Descending(a) && Descending(b)
    requires forall t :: At(a, t) == At(b, t)
    ensures a == b
  {
    if a == [] && b == [] {
    } else if a == [] {
      assert b == [b[0]] + b[1..];
      AtCons(b[0], b[1..], b[0].updatedAt);
      assert false;
    } else if b == [] {
      assert a == [a[0]] + a[1..];
      AtCons(a[0], a[1..], a[0].updatedAt);
      assert false;
    } else {
      var ka, kb := a[0].updatedAt, b[0].updatedAt;
      AtMembers(a, ka); AtMembers(b, ka);
      AtMembers(a, kb); AtMembers(b, kb);
      assert a[0] in At(a, ka);
      assert b[0] in At(b, kb);
      assert ka == kb by {
        assert a[0] in At(b, ka);
        assert b[0] in At(a, kb);
      }
      assert a == [a[0]] + a[1..];
      assert b == [b[0]] + b[1..];
      AtCons(a[0], a[1..], ka);
      AtCons(b[0], b[1..], ka);
      assert a[0] == b[0] by {
        assert At(a, ka)[0] == a[0];
        assert At(b, ka)[0] == b[0];
      }
      forall t ensures At(a[1..], t) == At(b[1..], t) {
        AtCons(a[0], a[1..], t);
        AtCons(b[0], b[1..], t);
        var p := if a[0].updatedAt == t then [a[0]] else [];
        assert At(a[1..], t) == (p + At(a[1..], t))[|p|..];
        assert At(b[1..], t) == (p + At(b[1..], t))[|p|..];
      }
      StableOrderUnique(a[1..], b[1..]);
    }
  }

  /** A note updated strictly later than every other one is listed first. */
  lemma FreshestFirst(s: seq<Note>, x: Note)
    requires x in s
    requires forall y :: y in s && y != x ==> y.updatedAt < x.updatedAt
    ensures SortByRecency(s) != [] && SortByRecency(s)[0] == x
  {
    var r := SortByRecency(s);
    assert x in multiset(r);
    assert r[0] in multiset(s);
  }
}

/** Generic sequence operations that stand in for the SQL the route handlers
    issue: WHERE filters, COUNT(*), first-row lookups, ORDER BY ... DESC,
    LIMIT/OFFSET windows and UPDATE ... WHERE. Tables are sequences in
    insertion order. */
module Collections {

  datatype Option<+T> = None | Some(value: T) {
    function GetOr(default: T): T {
      match this
      case Some(v) => v
      case None => default
    }
  }

  /** The rows of `s` that satisfy `keep`, in table order (a WHERE clause). */
  function Filter<T(!new)>(s: seq<T>, keep: T -> bool): (r: seq<T>)
    ensures |r| <= |s|
    ensures forall x :: x in r <==> x in s && keep(x)
  {
    if s == [] then []
    else
      var front := Filter(s[..|s| - 1], keep);
      if keep(s[|s| - 1]) then front + [s[|s| - 1]] else front
  }

  /** The positions of the rows of `s` that satisfy `keep`. */
  ghost function Positions<T>(s: seq<T>, keep: T -> bool): set<int> {
    set i | 0 <= i < |s| && keep(s[i])
  }

  /** The positions of `s` are those of its front plus, if its last row
      qualifies, the last position. */
  lemma PositionsSnoc<T>(s: seq<T>, keep: T -> bool)
    requires s != []
    ensures Positions(s, keep)
         == Positions(s[..|s| - 1], keep) + (if keep(s[|s| - 1]) then {|s| - 1} else {})
  {
    var n := |s| - 1;
    forall i
      ensures i in Positions(s, keep) <==> i in Positions(s[..n], keep) + (if keep(s[n]) then {n} else {})
    {
      if 0 <= i < n {
        assert s[..n][i] == s[i];
      }
    }
  }

  /** COUNT(*) of a filter is the number of positions whose row qualifies. */
  lemma {:induction false} FilterSize<T(!new)>(s: seq<T>, keep: T -> bool)
    ensures |Filter(s, keep)| == |Positions(s, keep)|
  {
    if s == [] {
      assert Positions(s, keep) == {};
    } else {
      var n := |s| - 1;
      FilterSize(s[..n], keep);
      PositionsSnoc(s, keep);
      assert n !in Positions(s[..n], keep);
    }
  }

  /** Appending one row extends the filter by that row exactly when it qualifies. */
  lemma FilterAppend<T(!new)>(s: seq<T>, x: T, keep: T -> bool)
    ensures Filter(s + [x], keep) == Filter(s, keep) + (if keep(x) then [x] else [])
  {
  }

  /** Rows ordered by strictly increasing `key` (the insertion order of a table
      whose ids come from a counter). */
  ghost predicate Increasing<T>(s: seq<T>, key: T -> int) {
    forall i, j :: 0 <= i < j < |s| ==> key(s[i]) < key(s[j])
  }

  ghost predicate Decreasing<T>(s: seq<T>, key: T -> int) {
    forall i, j :: 0 <= i < j < |s| ==> key(s[i]) > key(s[j])
  }

  ghost predicate Below<T>(s: seq<T>, key: T -> int, bound: int) {
    forall i :: 0 <= i < |s| ==> key(s[i]) < bound
  }

  /** An INSERT whose id is the next one drawn keeps the table ordered and
      every id below the advanced counter. */
  lemma AppendFresh<T>(s: seq<T>, x: T, key: T -> int, bound: int)
    requires Increasing(s, key) && Below(s, key, bound) && key(x) == bound
    ensures Increasing(s + [x], key) && Below(s + [x], key, bound + 1)
  {
  }

  /** In a table with increasing keys a key identifies its row. */
  lemma KeyIdentifies<T>(s: seq<T>, key: T -> int, x: T, y: T)
    requires Increasing(s, key)
    requires x in s && y in s && key(x) == key(y)
    ensures x == y
  {
  }

  /** A WHERE clause keeps the table's order. */
  lemma {:induction false} FilterIncreasing<T(!new)>(s: seq<T>, keep: T -> bool, key: T -> int)
    requires Increasing(s, key)
    ensures Increasing(Filter(s, keep), key)
  {
    if s != [] {
      var n := |s| - 1;
      var front := s[..n];
      assert Increasing(front, key);
      FilterIncreasing(front, keep, key);
      var f := Filter(front, keep);
      if keep(s[n]) {
        forall i | 0 <= i < |f|
          ensures key(f[i]) < key(s[n])
        {
          assert f[i] in front;
          var k :| 0 <= k < n && front[k] == f[i];
          assert s[k] == f[i];
        }
        assert Filter(s, keep) == f + [s[n]];
      }
    }
  }

  lemma FilterBelow<T(!new)>(s: seq<T>, keep: T -> bool, key: T -> int, bound: int)
    requires Below(s, key, bound)
    ensures Below(Filter(s, keep), key, bound)
  {
  }

  /** A DELETE whose WHERE clause selects exactly one row `x` of a table with
      distinct keys leaves one row fewer. */
  lemma {:induction false} FilterDropsOne<T(!new)>(s: seq<T>, keep: T -> bool, key: T -> int, x: T)
    requires Increasing(s, key)
    requires x in s && !keep(x)
    requires forall y :: y in s && y != x ==> keep(y)
    ensures |Filter(s, keep)| == |s| - 1
  {
    var n := |s| - 1;
    var front := s[..n];
    assert Increasing(front, key);
    if s[n] == x {
      assert forall y :: y in front ==> y != x by {
        forall y | y in front ensures y != x {
          var k :| 0 <= k < n && front[k] == y;
          assert key(s[k]) < key(s[n]);
        }
      }
      FilterKeepsAll(front, keep);
    } else {
      assert x in front by {
        var k :| 0 <= k < |s| && s[k] == x;
        assert k < n;
        assert front[k] == x;
      }
      FilterDropsOne(front, keep, key, x);
    }
  }

  lemma {:induction false} FilterKeepsAll<T(!new)>(s: seq<T>, keep: T -> bool)
    requires forall y :: y in s ==> keep(y)
    ensures Filter(s, keep) == s
  {
    if s != [] {
      var n := |s| - 1;
      assert forall y :: y in s[..n] ==> y in s;
      FilterKeepsAll(s[..n], keep);
      assert s[..n] + [s[n]] == s;
    }
  }

  /** The first row satisfying `p`, in table order (`rows[0]` of a query). */
  function Find<T(!new)>(s: seq<T>, p: T -> bool): (r: Option<T>)
    ensures r.Some? ==> r.value in s && p(r.value)
    ensures r.None? <==> forall x :: x in s ==> !p(x)
  {
    var f := Filter(s, p);
    if f == [] then None else assert f[0] in f; Some(f[0])
  }

  /** Rows in reverse table order (ORDER BY created_at DESC). */
  function Reverse<T>(s: seq<T>): (r: seq<T>)
    ensures |r| == |s|
    ensures forall i :: 0 <= i < |s| ==> r[i] == s[|s| - 1 - i]
  {
    seq(|s|, i requires 0 <= i < |s| => s[|s| - 1 - i])
  }

  lemma ReverseMembers<T>(s: seq<T>)
    ensures forall x :: x in Reverse(s) <==> x in s
  {
    var r := Reverse(s);
    forall x | x in s ensures x in r {
      var i :| 0 <= i < |s| && s[i] == x;
      assert r[|s| - 1 - i] == x;
    }
  }

  lemma ReverseDecreasing<T>(s: seq<T>, key: T -> int)
    requires Increasing(s, key)
    ensures Decreasing(Reverse(s), key)
  {
  }

  /** LIMIT `limit` OFFSET `offset`. */
  function Window<T>(s: seq<T>, offset: nat, limit: nat): (r: seq<T>)
    ensures |r| == if offset >= |s| then 0 else if |s| - offset < limit then |s| - offset else limit
    ensures forall k :: 0 <= k < |r| ==> r[k] == s[offset + k]
  {
    if offset >= |s| then []
    else if |s| - offset < limit then s[offset..]
    else s[offset..offset + limit]
  }

  /** UPDATE ... SET ... WHERE: every row that `hit` selects is replaced by
      `edit` of it; the others stay as they are, in place. */
  function UpdateWhere<T>(s: seq<T>, hit: T -> bool, edit: T -> T): (r: seq<T>)
    ensures |r| == |s|
    ensures forall i :: 0 <= i < |s| ==> r[i] == if hit(s[i]) then edit(s[i]) else s[i]
  {
    seq(|s|, i requires 0 <= i < |s| => if hit(s[i]) then edit(s[i]) else s[i])
  }

  lemma UpdateKeepsKeys<T>(s: seq<T>, hit: T -> bool, edit: T -> T, key: T -> int, bound: int)
    requires forall x :: key(edit(x)) == key(x)
    requires Increasing(s, key) && Below(s, key, bound)
    ensures Increasing(UpdateWhere(s, hit, edit), key)
    ensures Below(UpdateWhere(s, hit, edit), key, bound)
  {
  }

  /** Math.ceil(total / limit) for a positive limit: the least page count
      whose pages hold every row. */
  function CeilDiv(total: nat, limit: int): (pages: nat)
    requires limit > 0
    ensures (pages - 1) * limit < total <= pages * limit
  {
    var q := (total + limit - 1) / limit;
    assert q * limit + (total + limit - 1) % limit == total + limit - 1;
    q
  }
}

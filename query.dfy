/**
 * What the query layer does with the rows of a `from ... join ...` clause:
 * `where` keeps the rows a predicate accepts (in order), `fetchCount` counts
 * them, `offset`/`limit` cut a window, and `fetchResults` returns that
 * window together with the full count.
 */
module Query {
  import opened Wrappers

  /** A `where` clause: the rows `keep` accepts, in their original order. */
  function Select<R(!new)>(rows: seq<R>, keep: R -> bool): (r: seq<R>)
    ensures |r| <= |rows|
    ensures forall x :: x in r <==> x in rows && keep(x)
  {
    if rows == [] then []
    else (if keep(rows[0]) then [rows[0]] else []) + Select(rows[1..], keep)
  }

  /** Selection distributes over concatenation, so the result keeps the input order. */
  lemma {:induction false} SelectAppend<R(!new)>(a: seq<R>, b: seq<R>, keep: R -> bool)
    ensures Select(a + b, keep) == Select(a, keep) + Select(b, keep)
  {
    if a == [] {
      assert a + b == b;
    } else {
      assert (a + b)[0] == a[0];
      assert (a + b)[1..] == a[1..] + b;
      SelectAppend(a[1..], b, keep);
    }
  }

  /** A predicate that accepts every row selects the input unchanged. */
  lemma {:induction false} SelectAll<R(!new)>(rows: seq<R>, keep: R -> bool)
    requires forall x :: x in rows ==> keep(x)
    ensures Select(rows, keep) == rows
  {
    if rows != [] {
      assert rows[0] in rows;
      forall x | x in rows[1..] ensures keep(x) {
        assert x in rows;
      }
      SelectAll(rows[1..], keep);
    }
  }

  /** A predicate that accepts no row selects nothing. */
  lemma {:induction false} SelectNone<R(!new)>(rows: seq<R>, keep: R -> bool)
    requires forall x :: x in rows ==> !keep(x)
    ensures Select(rows, keep) == []
  {
    if rows != [] {
      assert rows[0] in rows;
      forall x | x in rows[1..] ensures !keep(x) {
        assert x in rows;
      }
      SelectNone(rows[1..], keep);
    }
  }

  /** Two predicates that agree on every row select the same rows. */
  lemma {:induction false} SelectExt<R(!new)>(rows: seq<R>, p: R -> bool, q: R -> bool)
    requires forall x :: x in rows ==> p(x) == q(x)
    ensures Select(rows, p) == Select(rows, q)
  {
    if rows != [] {
      assert rows[0] in rows;
      forall x | x in rows[1..] ensures p(x) == q(x) {
        assert x in rows;
      }
      SelectExt(rows[1..], p, q);
    }
  }

  /** Two successive `where` clauses select what their conjunction selects. */
  lemma {:induction false} SelectSelect<R(!new)>(rows: seq<R>, p: R -> bool, q: R -> bool, both: R -> bool)
    requires forall x :: both(x) == (p(x) && q(x))
    ensures Select(Select(rows, p), q) == Select(rows, both)
  {
    if rows != [] {
      var head := if p(rows[0]) then [rows[0]] else [];
      SelectAppend(head, Select(rows[1..], p), q);
      SelectSelect(rows[1..], p, q, both);
    }
  }

  /** `fetchCount`: the number of rows `keep` accepts. */
  function Count<R>(rows: seq<R>, keep: R -> bool): (n: nat)
    ensures n <= |rows|
  {
    if rows == [] then 0
    else (if keep(rows[0]) then 1 else 0) + Count(rows[1..], keep)
  }

  /** The count query counts exactly the rows the content query selects. */
  lemma {:induction false} CountIsSelectSize<R(!new)>(rows: seq<R>, keep: R -> bool)
    ensures Count(rows, keep) == |Select(rows, keep)|
  {
    if rows != [] {
      CountIsSelectSize(rows[1..], keep);
    }
  }

  /** A projection applied to every row. */
  function Map<A, B>(f: A -> B, s: seq<A>): (r: seq<B>)
    ensures |r| == |s|
    ensures forall i :: 0 <= i < |s| ==> r[i] == f(s[i])
  {
    seq(|s|, i requires 0 <= i < |s| => f(s[i]))
  }

  lemma MapAppend<A, B>(f: A -> B, a: seq<A>, b: seq<A>)
    ensures Map(f, a + b) == Map(f, a) + Map(f, b)
  {
  }

  function Min(a: nat, b: nat): nat {
    if a <= b then a else b
  }

  /** `offset(offset).limit(limit)`: the rows at positions offset, offset + 1, ... , at most `limit` of them. */
  function Slice<R>(rows: seq<R>, offset: nat, limit: nat): (r: seq<R>)
    ensures |r| <= limit
    ensures |r| == if offset < |rows| then Min(limit, |rows| - offset) else 0
    ensures forall i :: 0 <= i < |r| ==> offset + i < |rows| && r[i] == rows[offset + i]
  {
    if offset < |rows| then rows[offset..offset + Min(limit, |rows| - offset)] else []
  }

  /**
   * What `fetchResults` returns: the window, the modifiers it was cut with,
   * and the count of all rows. A limit of `None` is no limit (`Long.MAX_VALUE`).
   */
  datatype QueryResults<R> = QueryResults(results: seq<R>, limit: Option<nat>, offset: nat, total: nat)

  /**
   * `fetchResults`: runs the count query first. A zero count returns
   * `QueryResults.emptyResults()`, which reports no limit and offset 0;
   * otherwise the content query runs with the given offset and limit.
   */
  function FetchResults<R(!new)>(rows: seq<R>, offset: nat, limit: nat): (q: QueryResults<R>)
    ensures q.total == |rows|
    ensures q.results == Slice(rows, offset, limit)
    ensures q.total > 0 ==> q.limit == Some(limit) && q.offset == offset
    ensures q.total == 0 ==> q.limit.None? && q.offset == 0
  {
    var total := |rows|;
    if total > 0 then QueryResults(Slice(rows, offset, limit), Some(limit), offset, total)
    else QueryResults([], None, 0, 0)
  }
}

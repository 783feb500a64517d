/**
 * `orderBy(...)` over members: order specifiers applied in priority order,
 * each with a direction and a placement for null values. Strings compare
 * by character code, element by element. Ties keep storage order.
 */
module Ordering {
  import opened Wrappers
  import opened Entities

  datatype Direction = Asc | Desc

  /** `Default` places nulls as the lowest values (first ascending, last descending). */
  datatype NullHandling = Default | NullsFirst | NullsLast

  datatype Target = Age | Username

  /** `member.age.desc()`, `member.username.asc().nullsLast()`, ... */
  datatype OrderSpecifier = OrderSpecifier(target: Target, direction: Direction, nulls: NullHandling)

  /** Three-way comparison of strings: shorter prefix first, else the first differing character decides. */
  function StringCompare(a: string, b: string): (c: int)
    ensures -1 <= c <= 1
    ensures c == 0 <==> a == b
  {
    if a == [] && b == [] then 0
    else if a == [] then -1
    else if b == [] then 1
    else if a[0] < b[0] then -1
    else if a[0] > b[0] then 1
    else
      var c := StringCompare(a[1..], b[1..]);
      assert c == 0 ==> a == [a[0]] + a[1..] == [b[0]] + b[1..] == b;
      c
  }

  lemma {:induction false} StringCompareFlip(a: string, b: string)
    ensures StringCompare(a, b) == -StringCompare(b, a)
  {
    if a != [] && b != [] && a[0] == b[0] {
      StringCompareFlip(a[1..], b[1..]);
    }
  }

  /** A common prefix does not affect the comparison. */
  lemma {:induction false} StringComparePrefix(p: string, a: string, b: string)
    ensures StringCompare(p + a, p + b) == StringCompare(a, b)
  {
    if p == [] {
      assert p + a == a && p + b == b;
    } else {
      assert (p + a)[0] == p[0] == (p + b)[0];
      assert (p + a)[1..] == p[1..] + a && (p + b)[1..] == p[1..] + b;
      StringComparePrefix(p[1..], a, b);
    }
  }

  function IntCompare(a: int, b: int): int {
    if a < b then -1 else if a > b then 1 else 0
  }

  function Directed(d: Direction, c: int): int {
    if d == Asc then c else -c
  }

  /** Where a null goes relative to a non-null value: -1 before it, 1 after it. */
  function NullPlacement(o: OrderSpecifier): int {
    match o.nulls
    case NullsFirst => -1
    case NullsLast => 1
    case Default => Directed(o.direction, -1)
  }

  function NullableCompare(o: OrderSpecifier, a: Option<string>, b: Option<string>): int {
    if a.Some? && b.Some? then Directed(o.direction, StringCompare(a.value, b.value))
    else if a.None? && b.None? then 0
    else if a.None? then NullPlacement(o)
    else -NullPlacement(o)
  }

  /** One order specifier: negative when `a` goes first, positive when `b` does, zero on a tie. */
  function KeyCompare(o: OrderSpecifier, a: Member, b: Member): (c: int)
    ensures -1 <= c <= 1
  {
    match o.target
    case Age => Directed(o.direction, IntCompare(a.age, b.age))
    case Username => NullableCompare(o, a.username, b.username)
  }

  /** The specifiers in priority order: the first one that does not tie decides. */
  function Compare(specs: seq<OrderSpecifier>, a: Member, b: Member): (c: int)
    ensures -1 <= c <= 1
  {
    if specs == [] then 0
    else
      var c := KeyCompare(specs[0], a, b);
      if c != 0 then c else Compare(specs[1..], a, b)
  }

  lemma KeyCompareFlip(o: OrderSpecifier, a: Member, b: Member)
    ensures KeyCompare(o, a, b) == -KeyCompare(o, b, a)
  {
    if a.username.Some? && b.username.Some? {
      StringCompareFlip(a.username.value, b.username.value);
    }
  }

  /** Swapping the two members negates the comparison. */
  lemma {:induction false} CompareFlip(specs: seq<OrderSpecifier>, a: Member, b: Member)
    ensures Compare(specs, a, b) == -Compare(specs, b, a)
  {
    if specs != [] {
      KeyCompareFlip(specs[0], a, b);
      CompareFlip(specs[1..], a, b);
    }
  }

  /** The string comparison is transitive. */
  lemma {:induction false} StringCompareTrans(a: string, b: string, c: string)
    requires StringCompare(a, b) <= 0 && StringCompare(b, c) <= 0
    ensures StringCompare(a, c) <= 0
  {
    if a != [] && b != [] && c != [] && a[0] == b[0] == c[0] {
      assert StringCompare(a, b) == StringCompare(a[1..], b[1..]);
      assert StringCompare(b, c) == StringCompare(b[1..], c[1..]);
      StringCompareTrans(a[1..], b[1..], c[1..]);
      assert StringCompare(a, c) == StringCompare(a[1..], c[1..]);
    }
  }

  /** Null placement is always strictly before or strictly after. */
  lemma NullPlacementIsStrict(o: OrderSpecifier)
    ensures NullPlacement(o) == -1 || NullPlacement(o) == 1
  {
  }

  /** One order specifier is transitive. */
  lemma KeyCompareTrans(o: OrderSpecifier, a: Member, b: Member, c: Member)
    requires KeyCompare(o, a, b) <= 0 && KeyCompare(o, b, c) <= 0
    ensures KeyCompare(o, a, c) <= 0
  {
    NullPlacementIsStrict(o);
    if o.target == Username && a.username.Some? && b.username.Some? && c.username.Some? {
      var x, y, z := a.username.value, b.username.value, c.username.value;
      if o.direction == Asc {
        StringCompareTrans(x, y, z);
      } else {
        StringCompareFlip(x, y);
        StringCompareFlip(y, z);
        StringCompareFlip(x, z);
        StringCompareTrans(z, y, x);
      }
    }
  }

  /** The specifier list is transitive: `Compare` is a total preorder on members. */
  lemma {:induction false} CompareTrans(specs: seq<OrderSpecifier>, a: Member, b: Member, c: Member)
    requires Compare(specs, a, b) <= 0 && Compare(specs, b, c) <= 0
    ensures Compare(specs, a, c) <= 0
  {
    if specs != [] {
      var o := specs[0];
      KeyCompareTrans(o, a, b, c);
      KeyCompareFlip(o, a, b);
      KeyCompareFlip(o, b, c);
      KeyCompareFlip(o, a, c);
      if KeyCompare(o, a, b) == 0 && KeyCompare(o, b, c) == 0 {
        KeyCompareTrans(o, c, a, b);
        CompareTrans(specs[1..], a, b, c);
      } else if KeyCompare(o, a, c) == 0 {
        // a ties with c on this key, so b would tie with both; that contradicts a strict step.
        if KeyCompare(o, a, b) < 0 {
          KeyCompareTrans(o, b, c, a);
        } else {
          KeyCompareTrans(o, c, a, b);
        }
      }
    }
  }

  /** No member is followed by one that the specifiers place strictly before it. */
  predicate Sorted(specs: seq<OrderSpecifier>, s: seq<Member>) {
    forall i :: 0 < i < |s| ==> Compare(specs, s[i - 1], s[i]) <= 0
  }

  /** A member that does not follow the head of a sorted sequence can be put in front of it. */
  lemma ConsSorted(specs: seq<OrderSpecifier>, y: Member, s: seq<Member>)
    requires Sorted(specs, s)
    requires s != [] ==> Compare(specs, y, s[0]) <= 0
    ensures Sorted(specs, [y] + s)
  {
    var r := [y] + s;
    forall i | 0 < i < |r| ensures Compare(specs, r[i - 1], r[i]) <= 0 {
      if i > 1 {
        assert r[i - 1] == s[i - 2] && r[i] == s[i - 1];
      }
    }
  }

  /** By transitivity, a sorted sequence has every member in order with every later one. */
  lemma SortedPairwise(specs: seq<OrderSpecifier>, s: seq<Member>)
    requires Sorted(specs, s)
    ensures forall i, j :: 0 <= i < j < |s| ==> Compare(specs, s[i], s[j]) <= 0
  {
    forall i, j | 0 <= i < j < |s| ensures Compare(specs, s[i], s[j]) <= 0 {
      SortedPair(specs, s, i, j);
    }
  }

  lemma {:induction false} SortedPair(specs: seq<OrderSpecifier>, s: seq<Member>, i: nat, j: nat)
    requires Sorted(specs, s)
    requires i < j < |s|
    ensures Compare(specs, s[i], s[j]) <= 0
    decreases j - i
  {
    if i + 1 < j {
      SortedPair(specs, s, i, j - 1);
      CompareTrans(specs, s[i], s[j - 1], s[j]);
    }
  }

  /** Inserts `x` before the first member it does not follow. */
  function Insert(specs: seq<OrderSpecifier>, x: Member, s: seq<Member>): (r: seq<Member>)
    ensures |r| == |s| + 1
    ensures r[0] == x || (s != [] && r[0] == s[0])
  {
    if s == [] then [x]
    else if Compare(specs, x, s[0]) <= 0 then [x] + s
    else [s[0]] + Insert(specs, x, s[1..])
  }

  /** Inserting adds exactly `x`. */
  lemma {:induction false} InsertPermutes(specs: seq<OrderSpecifier>, x: Member, s: seq<Member>)
    ensures multiset(Insert(specs, x, s)) == multiset{x} + multiset(s)
  {
    if s != [] && Compare(specs, x, s[0]) > 0 {
      InsertPermutes(specs, x, s[1..]);
      assert s == [s[0]] + s[1..];
    }
  }

  /** Inserting into a sorted sequence keeps it sorted. */
  lemma {:induction false} InsertSorted(specs: seq<OrderSpecifier>, x: Member, s: seq<Member>)
    requires Sorted(specs, s)
    ensures Sorted(specs, Insert(specs, x, s))
  {
    if s == [] {
    } else if Compare(specs, x, s[0]) <= 0 {
      ConsSorted(specs, x, s);
    } else {
      CompareFlip(specs, x, s[0]);
      assert Sorted(specs, s[1..]);
      InsertSorted(specs, x, s[1..]);
      ConsSorted(specs, s[0], Insert(specs, x, s[1..]));
    }
  }

  /** `orderBy(specs)`: stable insertion of each row, last row first. */
  function OrderBy(specs: seq<OrderSpecifier>, rows: seq<Member>): (r: seq<Member>)
    ensures |r| == |rows|
  {
    if rows == [] then [] else Insert(specs, rows[0], OrderBy(specs, rows[1..]))
  }

  /** `orderBy` returns the rows that the specifiers consider sorted. */
  lemma {:induction false} OrderBySorted(specs: seq<OrderSpecifier>, rows: seq<Member>)
    ensures Sorted(specs, OrderBy(specs, rows))
    ensures forall i, j :: 0 <= i < j < |rows| ==> Compare(specs, OrderBy(specs, rows)[i], OrderBy(specs, rows)[j]) <= 0
  {
    if rows != [] {
      OrderBySorted(specs, rows[1..]);
      InsertSorted(specs, rows[0], OrderBy(specs, rows[1..]));
    }
    SortedPairwise(specs, OrderBy(specs, rows));
  }

  /** `orderBy` neither adds nor drops a row: the result is a permutation of the input. */
  lemma {:induction false} OrderByPermutes(specs: seq<OrderSpecifier>, rows: seq<Member>)
    ensures multiset(OrderBy(specs, rows)) == multiset(rows)
  {
    if rows != [] {
      OrderByPermutes(specs, rows[1..]);
      InsertPermutes(specs, rows[0], OrderBy(specs, rows[1..]));
      assert rows == [rows[0]] + rows[1..];
    }
  }

  /** One step of `OrderBy`: the head is inserted into the ordered tail. */
  lemma OrderByCons(specs: seq<OrderSpecifier>, x: Member, s: seq<Member>)
    ensures OrderBy(specs, [x] + s) == Insert(specs, x, OrderBy(specs, s))
  {
    assert ([x] + s)[1..] == s;
  }

  /** A member that follows every member of `s` is inserted at the end. */
  lemma {:induction false} InsertAtEnd(specs: seq<OrderSpecifier>, x: Member, s: seq<Member>)
    requires forall i :: 0 <= i < |s| ==> Compare(specs, x, s[i]) > 0
    ensures Insert(specs, x, s) == s + [x]
  {
    if s != [] {
      InsertAtEnd(specs, x, s[1..]);
      assert s == [s[0]] + s[1..];
    }
  }
}

/** The order in which a table's rows are listed.

    The store sorts on a column (`orderBy: { created_at: "desc" }`); rows
    that tie, and tables listed without any order, come back in an order the
    store chooses. The model fixes that choice: ties go by ascending id. */
module Listing {

  /** Row `a` of rank `ra` is listed before row `b` of rank `rb`: a higher
      rank first, ties by ascending id. */
  predicate Precedes(ra: int, a: int, rb: int, b: int)
  {
    ra > rb || (ra == rb && a < b)
  }

  predicate Before<T>(table: map<int, T>, rank: T -> int, a: int, b: int)
    requires a in table && b in table
  {
    Precedes(rank(table[a]), a, rank(table[b]), b)
  }

  /** `k` is the row to list first. */
  predicate IsFirst<T>(table: map<int, T>, rank: T -> int, k: int)
  {
    k in table && forall j :: j in table && j != k ==> Before(table, rank, k, j)
  }

  /** `ks` lists keys of `table` in order, without repetition. */
  predicate InOrder<T>(table: map<int, T>, rank: T -> int, ks: seq<int>)
  {
    (forall i :: 0 <= i < |ks| ==> ks[i] in table) &&
    forall i, j :: 0 <= i < j < |ks| ==> Before(table, rank, ks[i], ks[j])
  }

  lemma {:induction false} FirstExists<T>(table: map<int, T>, rank: T -> int)
    requires table != map[]
    ensures exists k :: IsFirst(table, rank, k)
    decreases |table|
  {
    var keys := table.Keys;
    assert (forall k :: k !in table) ==> table == map[];
    var k0 :| k0 in table;
    if keys == {k0} {
      assert IsFirst(table, rank, k0);
    } else {
      var rest := table - {k0};
      assert rest.Keys == keys - {k0};
      assert (forall k :: k !in rest) ==> rest.Keys == {};
      FirstExists(rest, rank);
      var k1 :| IsFirst(rest, rank, k1);
      if Before(table, rank, k0, k1) {
        forall j | j in table && j != k0 ensures Before(table, rank, k0, j) {
          if j != k1 { assert Before(rest, rank, k1, j); }
        }
        assert IsFirst(table, rank, k0);
      } else {
        forall j | j in table && j != k1 ensures Before(table, rank, k1, j) {
          if j != k0 { assert Before(rest, rank, k1, j); }
        }
        assert IsFirst(table, rank, k1);
      }
    }
  }

  lemma FirstUnique<T>(table: map<int, T>, rank: T -> int)
    ensures forall a, b :: IsFirst(table, rank, a) && IsFirst(table, rank, b) ==> a == b
  {
  }

  /** Putting the first row in front of an ordered listing of the others
      gives an ordered listing of all. */
  lemma PrependFirst<T>(table: map<int, T>, rank: T -> int, k: int, ks: seq<int>)
    requires IsFirst(table, rank, k)
    requires InOrder(table - {k}, rank, ks)
    ensures InOrder(table, rank, [k] + ks)
  {
    var r := [k] + ks;
    forall i, j | 0 <= i < j < |r| ensures Before(table, rank, r[i], r[j]) {
      if i == 0 {
        assert r[j] == ks[j - 1] && r[j] in table - {k};
      } else {
        assert Before(table - {k}, rank, ks[i - 1], ks[j - 1]);
      }
    }
  }

  /** The keys of `table` in listing order: each key exactly once, higher
      rank first, ties by ascending id. */
  function OrderedKeys<T>(table: map<int, T>, rank: T -> int): (ks: seq<int>)
    ensures forall k :: k in ks <==> k in table
    ensures |ks| == |table|
    ensures InOrder(table, rank, ks)
    decreases |table|
  {
    if table == map[] then []
    else
      FirstExists(table, rank);
      FirstUnique(table, rank);
      var k :| IsFirst(table, rank, k);
      var rest := table - {k};
      assert rest.Keys == table.Keys - {k};
      var tail := OrderedKeys(rest, rank);
      PrependFirst(table, rank, k, tail);
      [k] + tail
  }

  /** The rows stored under `ks`, in that order. */
  function RowsAt<T>(table: map<int, T>, ks: seq<int>): seq<T>
    requires forall i :: 0 <= i < |ks| ==> ks[i] in table
  {
    seq(|ks|, i requires 0 <= i < |ks| => table[ks[i]])
  }

  /** The rows at ordered keys: every row of the table once, nothing
      else, ranks never increasing. */
  lemma RowsInOrder<T>(table: map<int, T>, rank: T -> int)
    ensures var rows := RowsAt(table, OrderedKeys(table, rank));
      && |rows| == |table|
      && (forall k :: k in table ==> table[k] in rows)
      && (forall i :: 0 <= i < |rows| ==> rows[i] in table.Values)
      && (forall i, j :: 0 <= i < j < |rows| ==> rank(rows[i]) >= rank(rows[j]))
  {
    var ks := OrderedKeys(table, rank);
    var rows := RowsAt(table, ks);
    forall i, j | 0 <= i < j < |rows| ensures rank(rows[i]) >= rank(rows[j]) {
      assert Before(table, rank, ks[i], ks[j]);
    }
    forall k | k in table ensures table[k] in rows {
      var i :| 0 <= i < |ks| && ks[i] == k;
      assert rows[i] == table[k];
    }
    forall i | 0 <= i < |rows| ensures rows[i] in table.Values {
      assert ks[i] in table;
    }
  }

  /** The whole table, listed by `rank`. */
  function Listed<T(==)>(table: map<int, T>, rank: T -> int): (rows: seq<T>)
    ensures |rows| == |table|
    ensures forall k :: k in table ==> table[k] in rows
    ensures forall i :: 0 <= i < |rows| ==> rows[i] in table.Values
    ensures forall i, j :: 0 <= i < j < |rows| ==> rank(rows[i]) >= rank(rows[j])
  {
    RowsInOrder(table, rank);
    RowsAt(table, OrderedKeys(table, rank))
  }

  /** Ranks never increase along `rows`. */
  predicate NewestFirst<T>(rows: seq<T>, rank: T -> int)
  {
    forall i, j :: 0 <= i < j < |rows| ==> rank(rows[i]) >= rank(rows[j])
  }

  /** `rows` is the table's content, read through the `id` column: every
      stored row, each once, and each row stored under its own id. */
  ghost predicate ListsTable<T>(rows: seq<T>, table: map<int, T>, id: T -> int)
  {
    && |rows| == |table|
    && (forall k :: k in table ==> table[k] in rows)
    && (forall i :: 0 <= i < |rows| ==> id(rows[i]) in table && table[id(rows[i])] == rows[i])
  }

  /** Listing a table whose rows sit under their own ids gives all of it,
      highest rank first. */
  lemma ListedTable<T>(table: map<int, T>, rank: T -> int, id: T -> int)
    requires forall k :: k in table ==> id(table[k]) == k
    ensures var rows := Listed(table, rank);
      NewestFirst(rows, rank) && ListsTable(rows, table, id)
  {
    var rows := Listed(table, rank);
    forall i | 0 <= i < |rows| ensures id(rows[i]) in table && table[id(rows[i])] == rows[i] {
      assert rows[i] in table.Values;
      var k :| k in table && table[k] == rows[i];
    }
  }
}

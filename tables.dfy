/** Contract tables as the node's get_table_rows endpoint serves them to Cleos.get_table:
    the rows of one (code, scope, table), of which a request sees at most `limit`. */
module Tables {

  /** One table row as JSON, with the string-valued fields the core reads. */
  type Row = map<string, string>

  datatype TableId = TableId(code: string, scope: string, table: string)

  /** The contract tables a node holds; a table it does not hold has no rows. */
  type Node = map<TableId, seq<Row>>

  /** The limit get_table sends when its caller passes none. */
  const DefaultLimit: nat := 10

  function AllRows(node: Node, code: string, scope: string, table: string): seq<Row> {
    var id := TableId(code, scope, table);
    if id in node then node[id] else []
  }

  /** The 'rows' of get_table(code, scope, table, limit=limit): the first `limit` rows. */
  function GetTable(node: Node, code: string, scope: string, table: string, limit: nat): (rows: seq<Row>)
    ensures |rows| == if limit < |AllRows(node, code, scope, table)| then limit else |AllRows(node, code, scope, table)|
    ensures rows == AllRows(node, code, scope, table)[..|rows|]
  {
    var all := AllRows(node, code, scope, table);
    if limit < |all| then all[..limit] else all
  }

  /** The rows whose primary key is at least `bound`, in table order: what a lower_bound
      selects (keyOf gives a row's primary key, as the contract's index orders it). */
  function FromBound(rows: seq<Row>, keyOf: Row -> int, bound: int): (out: seq<Row>)
    ensures |out| <= |rows|
    ensures forall r :: r in out ==> r in rows && keyOf(r) >= bound
    ensures forall r :: r in rows && keyOf(r) >= bound ==> r in out
    decreases |rows|
  {
    if rows == [] then []
    else
      var rest := FromBound(rows[1..], keyOf, bound);
      assert forall r :: r in rows ==> r == rows[0] || r in rows[1..];
      if keyOf(rows[0]) >= bound then [rows[0]] + rest else rest
  }

  /** The 'rows' of get_table(code, scope, table, lower_bound=bound, limit=limit): the first
      `limit` rows whose key is at least `bound`. */
  function GetTableFrom(node: Node, code: string, scope: string, table: string,
                        keyOf: Row -> int, bound: int, limit: nat): (rows: seq<Row>)
    ensures var from := FromBound(AllRows(node, code, scope, table), keyOf, bound);
            && |rows| == (if limit < |from| then limit else |from|)
            && rows == from[..|rows|]
    ensures forall r :: r in rows ==> r in AllRows(node, code, scope, table) && keyOf(r) >= bound
  {
    var from := FromBound(AllRows(node, code, scope, table), keyOf, bound);
    if limit < |from| then from[..limit] else from
  }

  /** The node keeps a table in primary-key order, and primary keys are unique. */
  predicate KeyOrdered(rows: seq<Row>, keyOf: Row -> int) {
    forall i, j :: 0 <= i < j < |rows| ==> keyOf(rows[i]) < keyOf(rows[j])
  }

  /** When every key reaches the bound, the lower bound keeps every row. */
  lemma {:induction false} FromBoundAll(rows: seq<Row>, keyOf: Row -> int, bound: int)
    requires forall i :: 0 <= i < |rows| ==> keyOf(rows[i]) >= bound
    ensures FromBound(rows, keyOf, bound) == rows
    decreases |rows|
  {
    if rows != [] {
      FromBoundAll(rows[1..], keyOf, bound);
    }
  }

  /** In a key-ordered table, the rows from a lower bound on are a suffix of the table: the
      rows before it are exactly those with a smaller key. */
  lemma {:induction false} FromBoundOrdered(rows: seq<Row>, keyOf: Row -> int, bound: int)
    requires KeyOrdered(rows, keyOf)
    ensures var k := |rows| - |FromBound(rows, keyOf, bound)|;
            && FromBound(rows, keyOf, bound) == rows[k..]
            && (forall i :: 0 <= i < k ==> keyOf(rows[i]) < bound)
    decreases |rows|
  {
    if rows != [] {
      if keyOf(rows[0]) >= bound {
        FromBoundAll(rows, keyOf, bound);
      } else {
        var tail := rows[1..];
        assert KeyOrdered(tail, keyOf) by {
          forall i, j | 0 <= i < j < |tail|
            ensures keyOf(tail[i]) < keyOf(tail[j])
          {
            assert tail[i] == rows[i + 1] && tail[j] == rows[j + 1];
          }
        }
        FromBoundOrdered(tail, keyOf, bound);
        var from := FromBound(rows, keyOf, bound);
        assert from == FromBound(tail, keyOf, bound);
        var k := |rows| - |from|;
        assert tail[k - 1..] == rows[k..];
        forall i | 0 <= i < k
          ensures keyOf(rows[i]) < bound
        {
          if i > 0 {
            assert rows[i] == tail[i - 1];
          }
        }
      }
    }
  }

  /** The lower bound keeps nothing exactly when every key is below it. */
  lemma FromBoundEmpty(rows: seq<Row>, keyOf: Row -> int, bound: int)
    ensures FromBound(rows, keyOf, bound) == [] <==> forall i :: 0 <= i < |rows| ==> keyOf(rows[i]) < bound
  {
    var from := FromBound(rows, keyOf, bound);
    if from != [] {
      assert from[0] in from;
    } else {
      forall i | 0 <= i < |rows|
        ensures keyOf(rows[i]) < bound
      {
        assert rows[i] in rows;
      }
    }
  }

  /** In a key-ordered table, get_table with a lower bound returns a contiguous run of the
      table starting at the first row whose key reaches the bound. */
  lemma GetTableFromOrdered(node: Node, code: string, scope: string, table: string,
                            keyOf: Row -> int, bound: int, limit: nat)
    requires KeyOrdered(AllRows(node, code, scope, table), keyOf)
    ensures var all := AllRows(node, code, scope, table);
            var rows := GetTableFrom(node, code, scope, table, keyOf, bound, limit);
            var k := |all| - |FromBound(all, keyOf, bound)|;
            && k + |rows| <= |all| && rows == all[k..k + |rows|]
            && (forall i :: 0 <= i < k ==> keyOf(all[i]) < bound)
            && (limit > 0 ==> (rows == [] <==> forall i :: 0 <= i < |all| ==> keyOf(all[i]) < bound))
  {
    var all := AllRows(node, code, scope, table);
    var from := FromBound(all, keyOf, bound);
    FromBoundOrdered(all, keyOf, bound);
    FromBoundEmpty(all, keyOf, bound);
    var k := |all| - |from|;
    var rows := GetTableFrom(node, code, scope, table, keyOf, bound, limit);
    assert rows == from[..|rows|];
    assert from[..|rows|] == all[k..k + |rows|];
  }
}

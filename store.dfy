/** The two database tables the program writes, `OUI` and `LastUpdate`
    (ouioui/ouioui.py:13-18), reduced to what the program does with them. */
module Store {
  import opened Wrappers
  import opened Text

  /** One row of the `OUI` table. */
  datatype Row = Row(prefix: string, org: string)

  /** A write the program performs on the database, recorded in order. */
  datatype Op = Truncated | Inserted(count: nat) | Stamped(timestamp: string)

  /** `SELECT org FROM oui WHERE prefix LIKE 'q%'`, as a set. */
  function OrgsWithPrefix(rows: seq<Row>, q: string): (orgs: set<string>)
    ensures forall o :: o in orgs <==> exists i :: 0 <= i < |rows| && StartsWith(rows[i].prefix, q) && rows[i].org == o
  {
    set i | 0 <= i < |rows| && StartsWith(rows[i].prefix, q) :: rows[i].org
  }

  /** The same query as a list, in table order. */
  function SelectOrgs(rows: seq<Row>, q: string): (orgs: seq<string>)
    ensures |orgs| <= |rows|
  {
    if |rows| == 0 then []
    else (if StartsWith(rows[0].prefix, q) then [rows[0].org] else []) + SelectOrgs(rows[1..], q)
  }

  /** An organisation is listed exactly when some row with a matching prefix has it. */
  lemma {:induction false} SelectOrgsMembers(rows: seq<Row>, q: string, o: string)
    ensures o in SelectOrgs(rows, q) <==> exists i :: 0 <= i < |rows| && StartsWith(rows[i].prefix, q) && rows[i].org == o
  {
    if |rows| > 0 {
      SelectOrgsMembers(rows[1..], q, o);
      if exists i :: 0 <= i < |rows| && StartsWith(rows[i].prefix, q) && rows[i].org == o {
        var i :| 0 <= i < |rows| && StartsWith(rows[i].prefix, q) && rows[i].org == o;
        if i > 0 {
          assert rows[1..][i - 1] == rows[i];
        }
      }
      if o in SelectOrgs(rows[1..], q) {
        var i :| 0 <= i < |rows[1..]| && StartsWith(rows[1..][i].prefix, q) && rows[1..][i].org == o;
        assert rows[i + 1] == rows[1..][i];
      }
    }
  }

  /** The list query over two runs of rows is the list for the first run
      followed by the list for the second: rows are listed in table order and
      repeated organisations are kept. */
  lemma {:induction false} SelectOrgsAppend(a: seq<Row>, b: seq<Row>, q: string)
    ensures SelectOrgs(a + b, q) == SelectOrgs(a, q) + SelectOrgs(b, q)
  {
    if |a| == 0 {
      assert a + b == b;
    } else {
      assert (a + b)[1..] == a[1..] + b;
      SelectOrgsAppend(a[1..], b, q);
    }
  }

  /** One row is listed, once, exactly when its prefix starts with the query. */
  lemma SelectOrgsOne(r: Row, q: string)
    ensures SelectOrgs([r], q) == if StartsWith(r.prefix, q) then [r.org] else []
  {
    assert [r][1..] == [];
  }

  /** The database: the rows of `OUI`, the timestamp of the `LastUpdate` row with
      id 0 if that row exists, and the writes made so far. */
  class Database {
    var rows: seq<Row>
    var lastUpdate: Option<string>
    ghost var log: seq<Op>

    constructor (rows0: seq<Row>, lastUpdate0: Option<string>)
      ensures rows == rows0 && lastUpdate == lastUpdate0 && log == []
    {
      rows := rows0;
      lastUpdate := lastUpdate0;
      log := [];
    }

    /** `LastUpdate.get_or_create(id=0, defaults={"timestamp": "Never"})`. */
    method GetOrCreateLastUpdate() returns (timestamp: string)
      modifies this
      ensures old(lastUpdate).Some? ==> lastUpdate == old(lastUpdate)
      ensures old(lastUpdate).None? ==> lastUpdate == Some("Never")
      ensures lastUpdate == Some(timestamp)
      ensures rows == old(rows) && log == old(log)
    {
      if lastUpdate.None? {
        lastUpdate := Some("Never");
      }
      timestamp := lastUpdate.value;
    }

    /** `SchemaManager(OUI).truncate_table()`. */
    method TruncateTable()
      modifies this
      ensures rows == [] && lastUpdate == old(lastUpdate)
      ensures log == old(log) + [Truncated]
    {
      rows := [];
      log := log + [Truncated];
    }

    /** `OUI.bulk_create(rows, 500)`: every row is inserted, in order. */
    method BulkCreate(batch: seq<Row>)
      modifies this
      ensures rows == old(rows) + batch && lastUpdate == old(lastUpdate)
      ensures log == old(log) + [Inserted(|batch|)]
    {
      rows := rows + batch;
      log := log + [Inserted(|batch|)];
    }

    /** `lastUpdate.update({"timestamp": ...}).execute()`: an UPDATE of every
        `LastUpdate` row; after get_or_create there is exactly the row with id 0. */
    method SetLastUpdate(timestamp: string)
      requires lastUpdate.Some?
      modifies this
      ensures lastUpdate == Some(timestamp) && rows == old(rows)
      ensures log == old(log) + [Stamped(timestamp)]
    {
      lastUpdate := Some(timestamp);
      log := log + [Stamped(timestamp)];
    }
  }
}

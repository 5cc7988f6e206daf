/**
 * The record store: a table's records are an ordered sequence of maps from
 * column name to value. `Insert` coerces raw texts against the table's
 * schema and assigns the next ID; `Select`, `Update` and `Delete` share one
 * equality filter. Every operation takes the collection and returns the new
 * one; nothing is read from or written to storage here.
 */
module Records {
  import opened Wrappers
  import opened Text
  import opened Values
  import opened Catalog

  /** One row: column name to value. */
  type Record = map<string, Value>

  /** A where- or set-clause: column name to value. */
  type Clause = map<string, Value>

  // ---------------------------------------------------------------------------
  // The shared filter
  // ---------------------------------------------------------------------------

  /** Every column of the clause is present in the record and equal, by
      Python's `==`, to the clause's value. A missing column never matches. */
  predicate Matches(rec: Record, where: Clause) {
    forall k :: k in where ==> k in rec && PyEq(rec[k], where[k])
  }

  /** `a` is `b` with some elements left out and the rest in their order. */
  ghost predicate IsSubsequence(a: seq<Record>, b: seq<Record>)
    decreases |b|
  {
    if |a| == 0 then true
    else if |b| == 0 then false
    else if a[0] == b[0] then IsSubsequence(a[1..], b[1..])
    else IsSubsequence(a, b[1..])
  }

  /** The records whose match against `where` is `want`, in their order. */
  function Keep(data: seq<Record>, where: Clause, want: bool): (r: seq<Record>)
    ensures |r| <= |data|
  {
    if |data| == 0 then []
    else
      var rest := Keep(data[1..], where, want);
      if Matches(data[0], where) == want then [data[0]] + rest else rest
  }

  /** A record is kept exactly when it is in the collection and its match
      against `where` is `want`. */
  lemma {:induction false} KeepMembers(data: seq<Record>, where: Clause, want: bool)
    ensures forall x :: x in Keep(data, where, want) <==> x in data && Matches(x, where) == want
  {
    if |data| > 0 {
      KeepMembers(data[1..], where, want);
      assert data == [data[0]] + data[1..];
    }
  }

  /** The filter keeps the order of the records it keeps. */
  lemma {:induction false} KeepIsSubsequence(data: seq<Record>, where: Clause, want: bool)
    ensures IsSubsequence(Keep(data, where, want), data)
  {
    if |data| > 0 {
      var rest := Keep(data[1..], where, want);
      KeepIsSubsequence(data[1..], where, want);
      if Matches(data[0], where) == want {
        assert ([data[0]] + rest)[1..] == rest;
      } else {
        SubsequenceSkip(rest, data);
      }
    }
  }

  /** Dropping the head of the longer sequence is allowed when it is not needed. */
  lemma {:induction false} SubsequenceSkip(a: seq<Record>, b: seq<Record>)
    requires |b| > 0 && IsSubsequence(a, b[1..])
    ensures IsSubsequence(a, b)
    decreases |a| + |b|
  {
    if |a| > 0 && a[0] == b[0] {
      // a[0] also occurs further on; peel it off both sides.
      assert IsSubsequence(a[1..], b[1..]) by {
        SubsequenceTail(a, b[1..]);
      }
    }
  }

  /** Dropping the first element of the shorter sequence keeps it a subsequence. */
  lemma {:induction false} SubsequenceTail(a: seq<Record>, b: seq<Record>)
    requires |a| > 0 && IsSubsequence(a, b)
    ensures IsSubsequence(a[1..], b)
    decreases |a| + |b|
  {
    assert |b| > 0;
    if a[0] == b[0] {
      if |a| > 1 {
        SubsequenceSkip(a[1..], b);
      }
    } else {
      SubsequenceTail(a, b[1..]);
      SubsequenceSkip(a[1..], b);
    }
  }

  /** The filter distributes over concatenation. */
  lemma {:induction false} KeepConcat(a: seq<Record>, b: seq<Record>, where: Clause, want: bool)
    ensures Keep(a + b, where, want) == Keep(a, where, want) + Keep(b, where, want)
  {
    if |a| == 0 {
      assert a + b == b;
    } else {
      var x, t := a[0], a[1..];
      var head := if Matches(x, where) == want then [x] else [];
      var kt, kb := Keep(t, where, want), Keep(b, where, want);
      assert Keep(a + b, where, want) == head + Keep(t + b, where, want) by {
        assert a + b == [x] + (t + b);
        KeepCons(x, t + b, where, want);
      }
      assert Keep(a, where, want) == head + kt by {
        assert a == [x] + t;
        KeepCons(x, t, where, want);
      }
      assert Keep(t + b, where, want) == kt + kb by {
        KeepConcat(t, b, where, want);
      }
      ConcatAssoc(head, kt, kb);
    }
  }

  lemma ConcatAssoc(h: seq<Record>, p: seq<Record>, q: seq<Record>)
    ensures h + (p + q) == (h + p) + q
  {
  }

  /** The filter decides the first record and moves on. */
  lemma KeepCons(x: Record, rest: seq<Record>, where: Clause, want: bool)
    ensures Keep([x] + rest, where, want) == (if Matches(x, where) == want then [x] else []) + Keep(rest, where, want)
  {
    assert ([x] + rest)[1..] == rest;
  }

  /** On one record the filter keeps it exactly when it qualifies; with
      `KeepConcat` this determines the filter on every collection. */
  lemma KeepSingle(x: Record, where: Clause, want: bool)
    ensures Keep([x], where, want) == (if Matches(x, where) == want then [x] else [])
  {
    assert [x][1..] == [];
  }

  /** Matching and non-matching records split the collection between them. */
  lemma {:induction false} KeepPartition(data: seq<Record>, where: Clause)
    ensures |Keep(data, where, true)| + |Keep(data, where, false)| == |data|
    ensures multiset(Keep(data, where, true)) + multiset(Keep(data, where, false)) == multiset(data)
  {
    if |data| > 0 {
      KeepPartition(data[1..], where);
      assert data == [data[0]] + data[1..];
    }
  }

  /** The empty clause matches every record. */
  lemma {:induction false} KeepEmptyClause(data: seq<Record>)
    ensures Keep(data, map[], true) == data
    ensures Keep(data, map[], false) == []
  {
    if |data| > 0 {
      KeepEmptyClause(data[1..]);
      assert Matches(data[0], map[]);
      assert [data[0]] + data[1..] == data;
    }
  }

  /** When no record matches, keeping the non-matching ones keeps all. */
  lemma {:induction false} KeepNoneMatch(data: seq<Record>, where: Clause)
    requires forall i :: 0 <= i < |data| ==> !Matches(data[i], where)
    ensures Keep(data, where, false) == data
    ensures Keep(data, where, true) == []
  {
    if |data| > 0 {
      KeepNoneMatch(data[1..], where);
      assert [data[0]] + data[1..] == data;
    }
  }

  // ---------------------------------------------------------------------------
  // select / update / delete
  // ---------------------------------------------------------------------------

  /** `select`: a missing or empty where-clause (falsy in Python) yields every
      record; otherwise exactly the filter's matching records, which together
      with the non-matching ones make up the collection. */
  function Select(data: seq<Record>, where: Option<Clause>): (r: seq<Record>)
    ensures where.None? || where.value == map[] ==> r == data
    ensures where.Some? ==> r == Keep(data, where.value, true)
    ensures where.Some? ==> multiset(r) + multiset(Keep(data, where.value, false)) == multiset(data)
    ensures forall x :: x in r <==> x in data && (where.None? || Matches(x, where.value))
    ensures IsSubsequence(r, data)
  {
    if where.None? || where.value == map[] then
      KeepEmptyClause(data);
      KeepIsSubsequence(data, map[], true);
      data
    else
      KeepMembers(data, where.value, true);
      KeepIsSubsequence(data, where.value, true);
      KeepPartition(data, where.value);
      Keep(data, where.value, true)
  }

  datatype Changed = Changed(records: seq<Record>, count: nat)

  /** `update`: every matching record gets the set-clause pairs written over
      it; the others are left as they are. The count is the number of
      matching records. */
  function Update(data: seq<Record>, assign: Clause, where: Clause): (r: Changed)
    ensures |r.records| == |data|
    ensures forall i :: 0 <= i < |data| && !Matches(data[i], where) ==> r.records[i] == data[i]
    ensures forall i :: 0 <= i < |data| && Matches(data[i], where) ==>
              && r.records[i].Keys == data[i].Keys + assign.Keys
              && (forall k :: k in assign ==> r.records[i][k] == assign[k])
              && (forall k :: k in data[i] && k !in assign ==> r.records[i][k] == data[i][k])
    ensures r.count == |Keep(data, where, true)|
  {
    if |data| == 0 then Changed([], 0)
    else
      var rest := Update(data[1..], assign, where);
      if Matches(data[0], where) then
        Changed([data[0] + assign] + rest.records, rest.count + 1)
      else
        Changed([data[0]] + rest.records, rest.count)
  }

  /** `delete`: the records that do not match, in their order, and how many
      were removed. */
  function Delete(data: seq<Record>, where: Clause): (r: Changed)
    ensures forall x :: x in r.records <==> x in data && !Matches(x, where)
    ensures IsSubsequence(r.records, data)
    ensures r.count == |data| - |r.records|
    ensures r.count == |Keep(data, where, true)|
  {
    var kept := Keep(data, where, false);
    KeepMembers(data, where, false);
    KeepPartition(data, where);
    KeepIsSubsequence(data, where, false);
    Changed(kept, |data| - |kept|)
  }

  /** A delete that matches nothing changes nothing and reports zero. */
  lemma DeleteNothing(data: seq<Record>, where: Clause)
    requires forall i :: 0 <= i < |data| ==> !Matches(data[i], where)
    ensures Delete(data, where) == Changed(data, 0)
  {
    KeepNoneMatch(data, where);
  }

  /** An update that matches nothing changes nothing and reports zero. */
  lemma UpdateNothing(data: seq<Record>, assign: Clause, where: Clause)
    requires forall i :: 0 <= i < |data| ==> !Matches(data[i], where)
    ensures Update(data, assign, where) == Changed(data, 0)
  {
    KeepNoneMatch(data, where);
  }

  // ---------------------------------------------------------------------------
  // insert
  // ---------------------------------------------------------------------------

  datatype InsertError =
    | NoSuchTable(table: string)
    | ArityMismatch(expected: int, got: nat)
    | InvalidValue(raw: string)
    | StoredIdError

  /** The new collection and the record that was appended to it. */
  datatype Inserted = Inserted(records: seq<Record>, record: Record)

  function ColumnNames(cols: seq<Column>): set<string> {
    set i | 0 <= i < |cols| :: cols[i].name
  }

  /** No later column carries the name of column `i`, so its value is the one
      that stays in the record. */
  predicate LastWithName(cols: seq<Column>, i: int)
    requires 0 <= i < |cols|
  {
    forall j :: i < j < |cols| ==> cols[j].name != cols[i].name
  }

  /** Writes each coerced value into `acc` under its column's name, left to
      right; the first value that does not coerce aborts the whole record. */
  function Build(acc: Record, cols: seq<Column>, vals: seq<string>): (r: Result<Record, InsertError>)
    requires |cols| == |vals|
    ensures r.Failure? <==> exists i :: 0 <= i < |cols| && Coerce(cols[i].colType, vals[i]).None?
    ensures r.Failure? ==> exists i :: 0 <= i < |cols| && Coerce(cols[i].colType, vals[i]).None? &&
                                       r.error == InvalidValue(vals[i]) &&
                                       forall k :: 0 <= k < i ==> Coerce(cols[k].colType, vals[k]).Some?
    ensures r.Success? ==> r.value.Keys == acc.Keys + ColumnNames(cols)
    decreases |cols|
  {
    if |cols| == 0 then Success(acc)
    else
      match Coerce(cols[0].colType, vals[0])
      case None => Failure(InvalidValue(vals[0]))
      case Some(v) =>
        var r := Build(acc[cols[0].name := v], cols[1..], vals[1..]);
        assert forall i :: 1 <= i < |cols| ==> cols[1..][i - 1] == cols[i] && vals[1..][i - 1] == vals[i];
        assert ColumnNames(cols) == {cols[0].name} + ColumnNames(cols[1..]);
        r
  }

  /** A built record keeps what `acc` held outside the columns, and each
      column holds the coerced value of the last value written under its
      name. */
  lemma {:induction false} BuildValues(acc: Record, cols: seq<Column>, vals: seq<string>)
    requires |cols| == |vals| && Build(acc, cols, vals).Success?
    ensures var rec := Build(acc, cols, vals).value;
            && (forall k :: k in acc && k !in ColumnNames(cols) ==> rec[k] == acc[k])
            && (forall i :: 0 <= i < |cols| && LastWithName(cols, i) ==>
                  Coerce(cols[i].colType, vals[i]) == Some(rec[cols[i].name]))
    decreases |cols|
  {
    if |cols| > 0 {
      var v := Coerce(cols[0].colType, vals[0]).value;
      var acc' := acc[cols[0].name := v];
      var t, w := cols[1..], vals[1..];
      BuildValues(acc', t, w);
      var rec := Build(acc, cols, vals).value;
      assert rec == Build(acc', t, w).value;
      assert ColumnNames(cols) == {cols[0].name} + ColumnNames(t);
      forall i | 0 <= i < |cols| && LastWithName(cols, i)
        ensures Coerce(cols[i].colType, vals[i]) == Some(rec[cols[i].name])
      {
        if i > 0 {
          assert t[i - 1] == cols[i] && w[i - 1] == vals[i];
          assert LastWithName(t, i - 1);
        } else {
          assert cols[0].name !in ColumnNames(t);
        }
      }
    }
  }

  /** The numeric value Python's `max` and `+ 1` see in a stored ID; `None`
      where they raise (a missing `ID` or a string). */
  function StoredId(rec: Record): Option<int> {
    if "ID" !in rec then None
    else
      match rec["ID"]
      case VInt(n) => Some(n)
      case VBool(b) => Some(BoolToInt(b))
      case VStr(_) => None
  }

  /** `max(d["ID"] for d in data)`. */
  function MaxId(data: seq<Record>): (r: Option<int>)
    requires |data| > 0
    ensures r.Some? <==> forall i :: 0 <= i < |data| ==> StoredId(data[i]).Some?
    ensures r.Some? ==> forall i :: 0 <= i < |data| ==> StoredId(data[i]).value <= r.value
    ensures r.Some? ==> exists i :: 0 <= i < |data| && StoredId(data[i]) == r
  {
    if |data| == 1 then StoredId(data[0])
    else
      match (StoredId(data[0]), MaxId(data[1..]))
      case (Some(a), Some(b)) =>
        assert forall i :: 1 <= i < |data| ==> data[1..][i - 1] == data[i];
        Some(if a >= b then a else b)
      case (None, _) => None
      case (_, None) =>
        assert forall i :: 1 <= i < |data| ==> data[1..][i - 1] == data[i];
        None
  }

  /** `insert`: looks the table up, checks the number of values against the
      non-ID columns, coerces each value, then gives the record ID 1 on an
      empty table and the largest stored ID plus one otherwise, and appends
      it. On any failure nothing is appended. */
  function Insert(cat: Catalog, table: string, values: seq<string>, data: seq<Record>): (r: Result<Inserted, InsertError>)
    ensures Lookup(cat, table).None? ==> r == Failure(NoSuchTable(table))
    ensures Lookup(cat, table).Some? && |values| != |Lookup(cat, table).value| - 1 ==>
              r == Failure(ArityMismatch(|Lookup(cat, table).value| - 1, |values|))
    ensures r.Success? ==> r.value.records == data + [r.value.record]
    ensures r.Success? && |data| > 0 ==>
              && "ID" in r.value.record && r.value.record["ID"].VInt?
              && (forall i :: 0 <= i < |data| ==> StoredId(data[i]).Some? && StoredId(data[i]).value < r.value.record["ID"].i)
              && (exists i :: 0 <= i < |data| && r.value.record["ID"].i == StoredId(data[i]).value + 1)
  {
    match Lookup(cat, table)
    case None => Failure(NoSuchTable(table))
    case Some(cols) =>
      if |values| != |cols| - 1 then Failure(ArityMismatch(|cols| - 1, |values|))
      else
        match Build(map["ID" := VInt(1)], cols[1..], values)
        case Failure(e) => Failure(e)
        case Success(rec) =>
          if |data| == 0 then Success(Inserted(data + [rec], rec))
          else
            match MaxId(data)
            case None => Failure(StoredIdError)
            case Some(m) =>
              var rec' := rec["ID" := VInt(m + 1)];
              Success(Inserted(data + [rec'], rec'))
  }

  /** The user columns of a schema: everything after `ID`. */
  function UserColumns(cols: seq<Column>): seq<Column> {
    if |cols| == 0 then [] else cols[1..]
  }

  /** An insert fails exactly when the table is unknown, the count of values is
      wrong, an integer column's value does not parse, or a stored ID cannot
      take part in `max(...) + 1`. Boolean and string columns never fail. */
  lemma InsertFails(cat: Catalog, table: string, values: seq<string>, data: seq<Record>)
    ensures Insert(cat, table, values, data).Failure? <==>
              || Lookup(cat, table).None?
              || |values| != |Lookup(cat, table).value| - 1
              || (exists i :: 0 <= i < |values| &&
                    UserColumns(Lookup(cat, table).value)[i].colType == TInt && ParseInt(values[i]).None?)
              || (|data| > 0 && exists i :: 0 <= i < |data| && StoredId(data[i]).None?)
  {
    match Lookup(cat, table)
    case None =>
    case Some(cols) =>
      if |values| == |cols| - 1 {
        var user := UserColumns(cols);
        assert user == cols[1..];
        var b := Build(map["ID" := VInt(1)], user, values);
        assert b.Failure? <==> exists i :: 0 <= i < |values| && user[i].colType == TInt && ParseInt(values[i]).None?;
      }
  }

  /** The record an insert builds holds `ID` and every user column, each user
      column with its coerced value; on an empty table the ID is 1 unless a
      user column is itself called `ID`. */
  lemma InsertRecord(cat: Catalog, table: string, values: seq<string>, data: seq<Record>)
    requires Insert(cat, table, values, data).Success?
    ensures Lookup(cat, table).Some?
    ensures var cols := UserColumns(Lookup(cat, table).value);
            var rec := Insert(cat, table, values, data).value.record;
            && |values| == |cols|
            && rec.Keys == {"ID"} + ColumnNames(cols)
            && (forall i :: 0 <= i < |cols| && LastWithName(cols, i) && cols[i].name != "ID" ==>
                  Coerce(cols[i].colType, values[i]) == Some(rec[cols[i].name]))
            && (|data| == 0 && "ID" !in ColumnNames(cols) ==> rec["ID"] == VInt(1))
  {
    var cols := Lookup(cat, table).value;
    assert UserColumns(cols) == cols[1..];
    BuildValues(map["ID" := VInt(1)], cols[1..], values);
  }

  /** IDs are present, integers, and pairwise different. */
  predicate DistinctIds(data: seq<Record>) {
    && (forall i :: 0 <= i < |data| ==> "ID" in data[i] && data[i]["ID"].VInt?)
    && (forall i, j :: 0 <= i < j < |data| ==> data[i]["ID"] != data[j]["ID"])
  }

  /** The record an insert appends carries an integer ID that no stored
      record already holds, even when stored IDs repeat one another. */
  lemma NewIdFresh(cat: Catalog, table: string, values: seq<string>, data: seq<Record>)
    requires forall i :: 0 <= i < |data| ==> "ID" in data[i] && data[i]["ID"].VInt?
    requires Insert(cat, table, values, data).Success?
    requires Lookup(cat, table).Some? && "ID" !in ColumnNames(UserColumns(Lookup(cat, table).value))
    ensures var rec := Insert(cat, table, values, data).value.record;
            && "ID" in rec && rec["ID"].VInt?
            && forall i :: 0 <= i < |data| ==> data[i]["ID"] != rec["ID"]
  {
    var rec := Insert(cat, table, values, data).value.record;
    InsertRecord(cat, table, values, data);
    forall i | 0 <= i < |data|
      ensures data[i]["ID"] != rec["ID"]
    {
      assert StoredId(data[i]) == Some(data[i]["ID"].i);
    }
  }

  /** Inserting keeps IDs unique, as long as no user column shadows `ID`. */
  lemma InsertKeepsIdsDistinct(cat: Catalog, table: string, values: seq<string>, data: seq<Record>)
    requires DistinctIds(data)
    requires Insert(cat, table, values, data).Success?
    requires Lookup(cat, table).Some? && "ID" !in ColumnNames(UserColumns(Lookup(cat, table).value))
    ensures DistinctIds(Insert(cat, table, values, data).value.records)
  {
    var r := Insert(cat, table, values, data).value;
    NewIdFresh(cat, table, values, data);
    AppendDistinct(data, r.record);
  }

  /** Appending a record whose integer ID is new keeps IDs distinct. */
  lemma AppendDistinct(data: seq<Record>, rec: Record)
    requires DistinctIds(data)
    requires "ID" in rec && rec["ID"].VInt?
    requires forall i :: 0 <= i < |data| ==> data[i]["ID"] != rec["ID"]
    ensures DistinctIds(data + [rec])
  {
    var d := data + [rec];
    forall i, j | 0 <= i < j < |d|
      ensures d[i]["ID"] != d[j]["ID"]
    {
      assert d[i] == data[i];
      if j < |data| {
        assert d[j] == data[j];
      }
    }
  }
}

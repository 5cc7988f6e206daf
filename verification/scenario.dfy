/**
 * A worked session: a `users` table with a string and a boolean column,
 * two inserts, then a select on the boolean column, and a delete after
 * which an ID is handed out a second time.
 */
module Scenario {
  import opened Wrappers
  import opened Text
  import opened Values
  import opened Catalog
  import opened Records
  import opened Clauses

  const Users: Catalog := [Table("users", [IdColumn, Column("name", TStr), Column("active", TBool)])]

  const Bob: Record := map["ID" := VInt(1), "name" := VStr("Bob"), "active" := VBool(true)]

  const Ann: Record := map["ID" := VInt(2), "name" := VStr("Ann"), "active" := VBool(false)]

  /** `create_table users name:str active:bool` on an empty catalog. */
  lemma CreateUsers()
    ensures CreateTable([], "users", ["name:str", "active:bool"]) == CatalogReply(Users, Done)
  {
    NameToken();
    ActiveToken();
    CreateTwo("users", "name:str", "active:bool", Column("name", TStr), Column("active", TBool));
  }

  /** A table of two good tokens on an empty catalog. */
  lemma CreateTwo(name: string, t0: string, t1: string, c0: Column, c1: Column)
    requires ParseColumn(t0) == Success(c0) && ParseColumn(t1) == Success(c1)
    ensures CreateTable([], name, [t0, t1]) == CatalogReply([Table(name, [IdColumn, c0, c1])], Done)
  {
    var tokens := [t0, t1];
    var cols := [c0, c1];
    assert forall k :: 0 <= k < |tokens| ==> ParseColumn(tokens[k]) == Success(cols[k]);
    ParseColumnsEach(tokens, cols);
    CreateTableAppends([], name, tokens, cols);
    assert [IdColumn] + cols == [IdColumn, c0, c1];
    assert [] + [Table(name, [IdColumn] + cols)] == [Table(name, [IdColumn] + cols)];
  }

  lemma NameToken()
    ensures ParseColumn("name:str") == Success(Column("name", TStr))
  {
    var c := Column("name", TStr);
    assert c.name[0] != ':' && c.name[1] != ':' && c.name[2] != ':' && c.name[3] != ':';
    assert FormatColumn(c) == "name:str";
    ParseFormatColumn(c);
  }

  lemma ActiveToken()
    ensures ParseColumn("active:bool") == Success(Column("active", TBool))
  {
    var c := Column("active", TBool);
    assert c.name[0] != ':' && c.name[1] != ':' && c.name[2] != ':' && c.name[3] != ':' && c.name[4] != ':' && c.name[5] != ':';
    assert FormatColumn(c) == "active:bool";
    ParseFormatColumn(c);
  }

  /** The first insert into an empty table gets ID 1. */
  lemma FirstInsert()
    ensures Insert(Users, "users", ["Bob", "true"], []) == Success(Inserted([Bob], Bob))
  {
    assert Lookup(Users, "users") == Some(Users[0].columns);
    assert Lower("true") == "true";
    BuildTwo(map["ID" := VInt(1)], VStr("Bob"), VBool(true), "Bob", "true");
    assert map["ID" := VInt(1)]["name" := VStr("Bob")]["active" := VBool(true)] == Bob;
    assert Build(map["ID" := VInt(1)], Users[0].columns[1..], ["Bob", "true"]) == Success(Bob);
    assert |Users[0].columns| == 3;
    assert [] + [Bob] == [Bob];
  }

  /** The second gets the largest stored ID plus one, and `0` reads as false. */
  lemma SecondInsert()
    ensures Insert(Users, "users", ["Ann", "0"], [Bob]) == Success(Inserted([Bob, Ann], Ann))
  {
    assert Lookup(Users, "users") == Some(Users[0].columns);
    assert Lower("0") == "0";
    assert Coerce(TBool, "0") == Some(VBool(false));
    BuildTwo(map["ID" := VInt(1)], VStr("Ann"), VBool(false), "Ann", "0");
    assert map["ID" := VInt(1)]["name" := VStr("Ann")]["active" := VBool(false)]["ID" := VInt(2)] == Ann;
    var rec := map["ID" := VInt(1)]["name" := VStr("Ann")]["active" := VBool(false)];
    assert Build(map["ID" := VInt(1)], Users[0].columns[1..], ["Ann", "0"]) == Success(rec);
    assert |Users[0].columns| == 3;
    assert MaxId([Bob]) == Some(1);
    assert [Bob] + [Ann] == [Bob, Ann];
  }

  /** Deleting the record with ID 2 leaves Bob and counts one. */
  lemma DeleteAnn()
    ensures Delete([Bob, Ann], map["ID" := VInt(2)]) == Changed([Bob], 1)
  {
    var w := map["ID" := VInt(2)];
    assert "ID" in w && Bob["ID"] == VInt(1) && !PyEq(VInt(1), VInt(2));
    assert !Matches(Bob, w);
    assert Matches(Ann, w);
    assert [Bob, Ann][1..] == [Ann] && [Ann][1..] == [];
    assert Keep([Ann], w, false) == [];
    assert Keep([Bob, Ann], w, false) == [Bob];
  }

  /** IDs are reused: after the record with the largest ID is deleted, the
      next insert hands out that same ID again, since only the IDs still
      stored are consulted. */
  lemma IdReusedAfterDelete()
    ensures var left := Delete([Bob, Ann], map["ID" := VInt(2)]).records;
            && left == [Bob]
            && Insert(Users, "users", ["Ann", "0"], left).value.record["ID"] == Ann["ID"]
  {
    DeleteAnn();
    SecondInsert();
  }

  /** Building a `users` record writes the name, then the flag. */
  lemma BuildTwo(acc: Record, name: Value, active: Value, rawName: string, rawActive: string)
    requires Coerce(TStr, rawName) == Some(name) && Coerce(TBool, rawActive) == Some(active)
    ensures Build(acc, Users[0].columns[1..], [rawName, rawActive]) == Success(acc["name" := name]["active" := active])
  {
    var cols := Users[0].columns[1..];
    assert cols == [Column("name", TStr), Column("active", TBool)];
    assert cols[1..] == [Column("active", TBool)] && cols[1..][1..] == [];
    assert [rawName, rawActive][1..] == [rawActive] && [rawActive][1..] == [];
    var acc1 := acc["name" := name];
    var acc2 := acc1["active" := active];
    assert Build(acc2, [], []) == Success(acc2);
    assert Build(acc1, [Column("active", TBool)], [rawActive]) == Build(acc2, [], []);
    assert Build(acc, cols, [rawName, rawActive]) == Build(acc1, [Column("active", TBool)], [rawActive]);
  }

  /** Selecting `active=true` finds only the first record. */
  lemma SelectActive()
    ensures Select([Bob, Ann], Some(map["active" := VBool(true)])) == [Bob]
  {
    var w := map["active" := VBool(true)];
    assert Matches(Bob, w);
    assert "active" in w && Ann["active"] == VBool(false) && !PyEq(VBool(false), VBool(true));
    assert !Matches(Ann, w);
    assert [Bob, Ann][1..] == [Ann] && [Ann][1..] == [];
    assert Keep([Ann], w, true) == [];
    assert Keep([Bob, Ann], w, true) == [Bob];
  }

  /** `select from users where active=true` reads the clause the select above
      was given. */
  lemma WhereActive()
    ensures ParseWhere(["select", "from", "users", "where", "active=true"]) == Success(Some(map["active" := VBool(true)]))
  {
    var pre := ["select", "from", "users"];
    assert "where" !in pre;
    assert pre + ["where", "active=true"] + [] == ["select", "from", "users", "where", "active=true"];
    KeywordClause(pre, "where", "active=true", []);
    ActiveTrue();
  }

  lemma ActiveTrue()
    ensures ParseClauseToken("active=true") == Some(("active", VBool(true)))
  {
    var col := "active";
    assert col[0] != '=' && col[1] != '=' && col[2] != '=' && col[3] != '=' && col[4] != '=' && col[5] != '=';
    assert '=' !in col;
    assert col + "=" + Literal(VBool(true)) == "active=true";
    ClauseRoundTrip(col, VBool(true));
  }
}

/**
 * The schema catalog: table name to the ordered list of typed columns,
 * kept in the order tables were registered. `CreateTable` and `DropTable`
 * return the catalog together with a status; on every rejection the
 * catalog comes back exactly as it was given.
 */
module Catalog {
  import opened Wrappers
  import opened Text
  import opened Values

  datatype Column = Column(name: string, colType: ColType)

  datatype Table = Table(name: string, columns: seq<Column>)

  /** Tables in registration order (the iteration order of the source's dict). */
  type Catalog = seq<Table>

  datatype CatalogError =
    | DuplicateTable(table: string)
    | MalformedColumnSpec(token: string)
    | UnknownType(typeName: string)
    | UnknownTable(table: string)

  datatype Status = Done | Rejected(error: CatalogError)

  datatype CatalogReply = CatalogReply(catalog: Catalog, status: Status)

  /** The column every table starts with. */
  const IdColumn := Column("ID", TInt)

  /** The table names, in catalog order. */
  function Names(cat: Catalog): seq<string> {
    seq(|cat|, k requires 0 <= k < |cat| => cat[k].name)
  }

  /** Table names are unique, as the keys of a dict are. */
  predicate WellFormed(cat: Catalog) {
    forall i, j :: 0 <= i < j < |cat| ==> cat[i].name != cat[j].name
  }

  /** Position of the table called `name`. */
  function IndexOfTable(cat: Catalog, name: string): (r: Option<nat>)
    ensures r.None? <==> name !in Names(cat)
    ensures r.Some? ==> r.value < |cat| && cat[r.value].name == name
    ensures r.Some? ==> forall k :: 0 <= k < r.value ==> cat[k].name != name
  {
    if |cat| == 0 then None
    else
      assert Names(cat) == [cat[0].name] + Names(cat[1..]);
      if cat[0].name == name then Some(0)
      else
        match IndexOfTable(cat[1..], name)
        case None => None
        case Some(i) => Some(i + 1)
  }

  /** `metadata.get(name)`: the columns registered for `name`. */
  function Lookup(cat: Catalog, name: string): (r: Option<seq<Column>>)
    ensures r.None? <==> name !in Names(cat)
    ensures r.Some? ==> Table(name, r.value) in cat
  {
    match IndexOfTable(cat, name)
    case None => None
    case Some(i) => Some(cat[i].columns)
  }

  /** In a well-formed catalog the table with a given name is the only one. */
  lemma LookupFinds(cat: Catalog, i: nat)
    requires WellFormed(cat) && i < |cat|
    ensures Lookup(cat, cat[i].name) == Some(cat[i].columns)
  {
    assert Names(cat)[i] == cat[i].name;
    var k := IndexOfTable(cat, cat[i].name);
    assert k.Some?;
  }

  // ---------------------------------------------------------------------------
  // Column specifications `name:type`
  // ---------------------------------------------------------------------------

  /** One `name:type` token, split at its first colon. */
  function ParseColumn(token: string): (r: Result<Column, CatalogError>)
    ensures ':' !in token ==> r == Failure(MalformedColumnSpec(token))
    ensures r.Failure? && ':' in token ==> r.error.UnknownType?
  {
    match SplitFirst(token, ':')
    case None => Failure(MalformedColumnSpec(token))
    case Some((n, ty)) =>
      match ParseType(ty)
      case None => Failure(UnknownType(ty))
      case Some(t) => Success(Column(n, t))
  }

  /** An accepted token is its column printed back: the name before the
      first colon and the type name after it. */
  lemma ParseColumnSplits(token: string)
    requires ParseColumn(token).Success?
    ensures var c := ParseColumn(token).value; token == FormatColumn(c) && ':' !in c.name
  {
  }

  /** A token with a colon fails only on its type: the text after the first
      colon, which is none of the three type names. */
  lemma ParseColumnUnknownType(token: string)
    requires ':' in token && ParseColumn(token).Failure?
    ensures exists n, ty :: && token == n + ":" + ty && ':' !in n && ty !in {"int", "str", "bool"}
                            && ParseColumn(token).error == UnknownType(ty)
  {
    var p := SplitFirst(token, ':').value;
    assert token == p.0 + ":" + p.1;
  }

  /** How the source prints a column (`name:type`). */
  function FormatColumn(c: Column): string {
    c.name + ":" + TypeName(c.colType)
  }

  /** A column whose name has no colon survives printing and re-parsing. */
  lemma ParseFormatColumn(c: Column)
    requires ':' !in c.name
    ensures ParseColumn(FormatColumn(c)) == Success(c)
  {
    SplitFirstUnique(c.name, TypeName(c.colType), ':');
  }

  /** Every token, in order; the first bad token decides the error. */
  function ParseColumns(tokens: seq<string>): (r: Result<seq<Column>, CatalogError>)
    ensures r.Success? <==> forall k :: 0 <= k < |tokens| ==> ParseColumn(tokens[k]).Success?
    ensures r.Success? ==> |r.value| == |tokens| &&
                           forall k :: 0 <= k < |tokens| ==> Success(r.value[k]) == ParseColumn(tokens[k])
  {
    if |tokens| == 0 then Success([])
    else
      match ParseColumn(tokens[0])
      case Failure(e) => Failure(e)
      case Success(c) =>
        var t := tokens[1..];
        match ParseColumns(t)
        case Failure(e) =>
          assert !ParseColumn(tokens[0]).Failure? && exists j :: 0 <= j < |tokens| && ParseColumn(tokens[j]).Failure? by {
            var j :| 0 <= j < |t| && ParseColumn(t[j]).Failure?;
            assert tokens[j + 1] == t[j];
          }
          Failure(e)
        case Success(cs) =>
          var r := [c] + cs;
          assert forall k :: 0 <= k < |tokens| ==> Success(r[k]) == ParseColumn(tokens[k]) by {
            forall k | 0 <= k < |tokens|
              ensures Success(r[k]) == ParseColumn(tokens[k])
            {
              if k > 0 {
                assert r[k] == cs[k - 1] && tokens[k] == t[k - 1];
              }
            }
          }
          Success(r)
  }

  /** A rejected list reports the error of its first bad token. */
  lemma {:induction false} ParseColumnsFirstError(tokens: seq<string>)
    requires ParseColumns(tokens).Failure?
    ensures exists i :: && 0 <= i < |tokens| && ParseColumn(tokens[i]) == Failure(ParseColumns(tokens).error)
                        && forall k :: 0 <= k < i ==> ParseColumn(tokens[k]).Success?
  {
    if ParseColumn(tokens[0]).Success? {
      var t := tokens[1..];
      ParseColumnsFirstError(t);
      var i :| && 0 <= i < |t| && ParseColumn(t[i]) == Failure(ParseColumns(t).error)
               && forall k :: 0 <= k < i ==> ParseColumn(t[k]).Success?;
      assert ParseColumns(tokens).error == ParseColumns(t).error;
      assert tokens[i + 1] == t[i];
      forall k | 0 <= k < i + 1
        ensures ParseColumn(tokens[k]).Success?
      {
        if k > 0 {
          assert tokens[k] == t[k - 1];
        }
      }
    }
  }

  /** Parsing the tokens one by one determines the whole list. */
  lemma {:induction false} ParseColumnsEach(tokens: seq<string>, cols: seq<Column>)
    requires |tokens| == |cols|
    requires forall k :: 0 <= k < |tokens| ==> ParseColumn(tokens[k]) == Success(cols[k])
    ensures ParseColumns(tokens) == Success(cols)
  {
    if |tokens| > 0 {
      var t, c := tokens[1..], cols[1..];
      forall k | 0 <= k < |t|
        ensures ParseColumn(t[k]) == Success(c[k])
      {
        assert t[k] == tokens[k + 1] && c[k] == cols[k + 1];
      }
      ParseColumnsEach(t, c);
      assert ParseColumn(tokens[0]) == Success(cols[0]);
      assert [cols[0]] + c == cols;
    }
  }

  // ---------------------------------------------------------------------------
  // create_table / drop_table
  // ---------------------------------------------------------------------------

  /** Registers `name` with `ID:int` followed by the parsed tokens. Rejected,
      with the catalog untouched, when the name is taken or a token is bad. */
  function CreateTable(cat: Catalog, name: string, tokens: seq<string>): (r: CatalogReply)
    ensures r.status.Rejected? ==> r.catalog == cat
    ensures name in Names(cat) ==> r.status == Rejected(DuplicateTable(name))
    ensures r.status.Done? <==>
              name !in Names(cat) && forall k :: 0 <= k < |tokens| ==> ParseColumn(tokens[k]).Success?
    ensures r.status.Done? ==>
              && |r.catalog| == |cat| + 1
              && r.catalog[..|cat|] == cat
              && r.catalog[|cat|].name == name
              && |r.catalog[|cat|].columns| > 0
              && r.catalog[|cat|].columns[0] == IdColumn
  {
    if name in Names(cat) then CatalogReply(cat, Rejected(DuplicateTable(name)))
    else
      match ParseColumns(tokens)
      case Failure(e) => CatalogReply(cat, Rejected(e))
      case Success(cols) =>
        var cat' := cat + [Table(name, [IdColumn] + cols)];
        assert cat'[..|cat|] == cat;
        assert forall k :: 0 <= k < |cat| ==> cat[k].name == Names(cat)[k];
        CatalogReply(cat', Done)
  }

  /** A fresh name with good tokens registers exactly the parsed columns
      after `ID`, appended to the catalog. */
  lemma CreateTableAppends(cat: Catalog, name: string, tokens: seq<string>, cols: seq<Column>)
    requires name !in Names(cat)
    requires ParseColumns(tokens) == Success(cols)
    ensures CreateTable(cat, name, tokens) == CatalogReply(cat + [Table(name, [IdColumn] + cols)], Done)
  {
  }

  /** The registered schema is `ID:int` followed by one column per token, in
      token order, each the token split at its first colon. */
  lemma CreateTableColumns(cat: Catalog, name: string, tokens: seq<string>)
    requires CreateTable(cat, name, tokens).status.Done?
    ensures var cols := CreateTable(cat, name, tokens).catalog[|cat|].columns;
            && |cols| == |tokens| + 1
            && (forall k :: 0 <= k < |tokens| ==> ParseColumn(tokens[k]) == Success(cols[k + 1]))
            && (forall k :: 0 <= k < |tokens| ==> tokens[k] == FormatColumn(cols[k + 1]))
  {
    var parsed := ParseColumns(tokens).value;
    var cols := CreateTable(cat, name, tokens).catalog[|cat|].columns;
    assert cols == [IdColumn] + parsed;
    forall k | 0 <= k < |tokens|
      ensures ParseColumn(tokens[k]) == Success(cols[k + 1])
      ensures tokens[k] == FormatColumn(cols[k + 1])
    {
      assert cols[k + 1] == parsed[k];
      assert Success(parsed[k]) == ParseColumn(tokens[k]);
      ParseColumnSplits(tokens[k]);
    }
  }

  /** Registering a table keeps names unique. */
  lemma CreateTableWellFormed(cat: Catalog, name: string, tokens: seq<string>)
    requires WellFormed(cat)
    ensures WellFormed(CreateTable(cat, name, tokens).catalog)
  {
    var r := CreateTable(cat, name, tokens);
    if r.status.Done? {
      assert forall k :: 0 <= k < |cat| ==> cat[k].name == Names(cat)[k];
      assert forall k :: 0 <= k < |cat| ==> r.catalog[k] == cat[k];
    }
  }

  /** `cat` without its `i`-th table, the others in their order. */
  function RemoveAt(cat: Catalog, i: nat): (r: Catalog)
    requires i < |cat|
    ensures |r| == |cat| - 1
    ensures forall k :: 0 <= k < |r| ==> r[k] == (if k < i then cat[k] else cat[k + 1])
  {
    cat[..i] + cat[i + 1..]
  }

  lemma RemoveAtWellFormed(cat: Catalog, i: nat)
    requires WellFormed(cat) && i < |cat|
    ensures WellFormed(RemoveAt(cat, i))
    ensures cat[i].name !in Names(RemoveAt(cat, i))
  {
    var r := RemoveAt(cat, i);
    forall k | 0 <= k < |r|
      ensures r[k].name != cat[i].name
    {
      assert r[k] == (if k < i then cat[k] else cat[k + 1]);
    }
  }

  /** Removes the table called `name`; rejected, with the catalog untouched,
      when there is none. */
  function DropTable(cat: Catalog, name: string): (r: CatalogReply)
    ensures name !in Names(cat) <==> r.status.Rejected?
    ensures r.status.Rejected? ==> r == CatalogReply(cat, Rejected(UnknownTable(name)))
    ensures r.status.Done? ==> exists i :: 0 <= i < |cat| && cat[i].name == name && r.catalog == RemoveAt(cat, i)
    ensures WellFormed(cat) ==> WellFormed(r.catalog) && name !in Names(r.catalog)
  {
    match IndexOfTable(cat, name)
    case None => CatalogReply(cat, Rejected(UnknownTable(name)))
    case Some(i) =>
      assert WellFormed(cat) ==> WellFormed(RemoveAt(cat, i)) && name !in Names(RemoveAt(cat, i)) by {
        if WellFormed(cat) {
          RemoveAtWellFormed(cat, i);
        }
      }
      CatalogReply(RemoveAt(cat, i), Done)
  }

  /** Dropping leaves every other table, and only those, in place. */
  lemma DropKeepsOthers(cat: Catalog, name: string, other: string)
    requires WellFormed(cat)
    requires other != name
    ensures Lookup(DropTable(cat, name).catalog, name) == None
    ensures Lookup(DropTable(cat, name).catalog, other) == Lookup(cat, other)
  {
    var r := DropTable(cat, name);
    if r.status.Done? {
      var i :| 0 <= i < |cat| && cat[i].name == name && r.catalog == RemoveAt(cat, i);
      LookupAfterRemove(cat, i, other);
    }
  }

  lemma LookupAfterRemove(cat: Catalog, i: nat, other: string)
    requires WellFormed(cat) && i < |cat| && cat[i].name != other
    ensures Lookup(RemoveAt(cat, i), other) == Lookup(cat, other)
  {
    var c := RemoveAt(cat, i);
    RemoveAtWellFormed(cat, i);
    if other in Names(cat) {
      var j := IndexOfTable(cat, other).value;
      LookupFinds(cat, j);
      var j' := if j < i then j else j - 1;
      assert c[j'] == cat[j];
      LookupFinds(c, j');
    } else {
      forall k | 0 <= k < |c|
        ensures Names(c)[k] != other
      {
        var k' := if k < i then k else k + 1;
        assert c[k] == cat[k'];
        assert Names(cat)[k'] == cat[k'].name;
      }
    }
  }

  /** Creating a fresh table and dropping it again restores the catalog. */
  lemma CreateThenDrop(cat: Catalog, name: string, tokens: seq<string>)
    requires WellFormed(cat)
    requires CreateTable(cat, name, tokens).status.Done?
    ensures DropTable(CreateTable(cat, name, tokens).catalog, name) == CatalogReply(cat, Done)
  {
    var c := CreateTable(cat, name, tokens).catalog;
    var i := |cat|;
    assert c[i].name == name && Names(c)[i] == name;
    var k := IndexOfTable(c, name);
    assert k.Some?;
    assert k.value == i by {
      forall m | 0 <= m < i
        ensures c[m].name != name
      {
        assert c[m] == cat[m] && Names(cat)[m] == cat[m].name;
      }
    }
    assert c[..i] + c[i + 1..] == cat;
  }
}

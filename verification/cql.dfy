/**
 * The CQL text the Cassandra sink derives from a stream definition: the column type of
 * each stream attribute, the CREATE TABLE statement issued when the sink starts, and the
 * ALTER TABLE statements issued when the stream has grown columns the table lacks.
 *
 * The field map is a hash map, so its iteration order is not determined by the source;
 * the builders take that order as a supplied sequence enumerating the map's keys.
 */
module Cql {
  import opened Wrappers
  import opened Siddhi
  import Text

  const UnsupportedColumnType: string := "Unsupported Column type"

  /** The Cassandra column type stored for a stream attribute type. */
  function CqlType(t: AttrType): (r: Result<string, string>)
    ensures r.Failure? <==> t == OBJECT
    ensures r.Failure? ==> r.error == UnsupportedColumnType
    ensures r.Success? ==> ',' !in r.value && ';' !in r.value
  {
    match t
    case BOOL => Success("BOOLEAN")
    case DOUBLE => Success("DOUBLE")
    case FLOAT => Success("FLOAT")
    case INT => Success("INT")
    case LONG => Success("DOUBLE")
    case STRING => Success("TEXT")
    case OBJECT => Failure(UnsupportedColumnType)
  }

  /**
   * Distinct supported types get distinct column types, except LONG, which is stored
   * as DOUBLE: a table column does not tell a LONG attribute from a DOUBLE one.
   */
  lemma CqlTypeCollisions(a: AttrType, b: AttrType)
    requires CqlType(a).Success? && CqlType(b).Success?
    ensures CqlType(a) == CqlType(b) <==> a == b || (a in {LONG, DOUBLE} && b in {LONG, DOUBLE})
  {
  }

  /** Whether the attribute at `i` is the last one in `attrs` with its name. */
  predicate LastWithName(attrs: seq<Attribute>, i: int)
    requires 0 <= i < |attrs|
  {
    forall j :: i < j < |attrs| ==> attrs[j].name != attrs[i].name
  }

  /**
   * The field map of a definition: attribute name to column type, a later attribute
   * overwriting an earlier one of the same name; any unsupported type is an error.
   */
  function FieldsAndTypes(attrs: seq<Attribute>): (r: Result<map<string, string>, string>)
    ensures r.Success? <==> forall i :: 0 <= i < |attrs| ==> attrs[i].typ != OBJECT
    ensures r.Failure? ==> r.error == UnsupportedColumnType
  {
    if |attrs| == 0 then Success(map[])
    else
      var last := attrs[|attrs| - 1];
      match FieldsAndTypes(attrs[..|attrs| - 1])
      case Failure(e) => Failure(e)
      case Success(m) =>
        match CqlType(last.typ)
        case Failure(e) => Failure(e)
        case Success(t) => Success(m[last.name := t])
  }

  /** The field map of a non-empty definition: the map of all but the last attribute, updated by the last. */
  lemma FieldsAndTypesStep(attrs: seq<Attribute>)
    requires |attrs| > 0 && FieldsAndTypes(attrs).Success?
    ensures var last := attrs[|attrs| - 1];
      && FieldsAndTypes(attrs[..|attrs| - 1]).Success?
      && CqlType(last.typ).Success?
      && FieldsAndTypes(attrs).value
         == FieldsAndTypes(attrs[..|attrs| - 1]).value[last.name := CqlType(last.typ).value]
  {
  }

  /** The keys of the field map are exactly the attribute names. */
  lemma {:induction false} FieldsAndTypesKeys(attrs: seq<Attribute>)
    requires FieldsAndTypes(attrs).Success?
    ensures forall n :: n in FieldsAndTypes(attrs).value <==> n in Names(attrs)
    decreases |attrs|
  {
    if |attrs| > 0 {
      var init := attrs[..|attrs| - 1];
      var last := attrs[|attrs| - 1];
      FieldsAndTypesStep(attrs);
      FieldsAndTypesKeys(init);
      assert attrs == init + [last];
      NamesAppend(init, [last]);
    }
  }

  /** Each attribute name maps to the column type of the last attribute with that name. */
  lemma {:induction false} FieldsAndTypesValues(attrs: seq<Attribute>)
    requires FieldsAndTypes(attrs).Success?
    ensures forall i :: 0 <= i < |attrs| && LastWithName(attrs, i) ==>
      attrs[i].name in FieldsAndTypes(attrs).value &&
      FieldsAndTypes(attrs).value[attrs[i].name] == CqlType(attrs[i].typ).value
    decreases |attrs|
  {
    if |attrs| > 0 {
      var init := attrs[..|attrs| - 1];
      var last := attrs[|attrs| - 1];
      FieldsAndTypesStep(attrs);
      FieldsAndTypesValues(init);
      var m := FieldsAndTypes(attrs).value;
      forall i | 0 <= i < |attrs| && LastWithName(attrs, i)
        ensures attrs[i].name in m && m[attrs[i].name] == CqlType(attrs[i].typ).value
      {
        if i < |attrs| - 1 {
          assert attrs[i] == init[i];
          assert attrs[i].name != last.name;
          assert LastWithName(init, i);
        }
      }
    }
  }

  /** No column type in the field map holds a comma or a semicolon. */
  lemma {:induction false} FieldsAndTypesSeparators(attrs: seq<Attribute>)
    requires FieldsAndTypes(attrs).Success?
    ensures forall n :: n in FieldsAndTypes(attrs).value ==>
      ',' !in FieldsAndTypes(attrs).value[n] && ';' !in FieldsAndTypes(attrs).value[n]
    decreases |attrs|
  {
    if |attrs| > 0 {
      FieldsAndTypesStep(attrs);
      FieldsAndTypesSeparators(attrs[..|attrs| - 1]);
    }
  }

  /** `order` lists every key of `fields` exactly once. */
  predicate Enumerates(order: seq<string>, fields: map<string, string>) {
    && DistinctIds(order)
    && (forall n :: n in order ==> n in fields)
    && (forall n :: n in fields ==> n in order)
  }

  /** A sequence of distinct names is as long as the set of its names. */
  lemma {:induction false} DistinctCardinality(order: seq<string>)
    requires DistinctIds(order)
    ensures |set n | n in order| == |order|
    decreases |order|
  {
    if |order| > 0 {
      var rest := order[1..];
      DistinctCardinality(rest);
      assert (set n | n in order) == (set n | n in rest) + {order[0]};
      assert order[0] !in rest;
    }
  }

  /** An enumeration of a map's keys is as long as the map. */
  lemma EnumerationLength(order: seq<string>, fields: map<string, string>)
    requires Enumerates(order, fields)
    ensures |order| == |fields|
  {
    DistinctCardinality(order);
    assert fields.Keys == set n | n in order;
  }

  /** One `name type` declaration per listed field, in the listed order. */
  function Declarations(order: seq<string>, fields: map<string, string>): (r: seq<string>)
    requires forall n :: n in order ==> n in fields
    ensures |r| == |order|
    ensures forall k :: 0 <= k < |order| ==> r[k] == order[k] + " " + fields[order[k]]
  {
    if |order| == 0 then [] else [order[0] + " " + fields[order[0]]] + Declarations(order[1..], fields)
  }

  /** A column declaration built from comma-free parts holds no comma of its own. */
  lemma DeclarationUnseparated(name: string, typ: string)
    requires ',' !in name && ',' !in typ
    ensures ',' !in name + " " + typ
  {
  }

  function CreateTablePrefix(keyspace: string, streamId: string): string {
    "CREATE TABLE " + keyspace + "." + streamId + "(time_taken timeuuid,"
  }

  const CreateTableSuffix: string := "PRIMARY KEY (time_taken)) WITH compression = {'sstable_compression': ''}"

  /** The CREATE TABLE statement for a stream: a time-uuid key column, then one column per field. */
  function CreateTable(keyspace: string, streamId: string, fields: map<string, string>, order: seq<string>): string
    requires Enumerates(order, fields)
  {
    CreateTablePrefix(keyspace, streamId) + Text.JoinTerminated(Declarations(order, fields), ',') + CreateTableSuffix
  }

  /**
   * The CREATE statement reads back: it starts with the table header and ends with the
   * primary-key clause, and what lies between splits on commas into one `name type`
   * declaration per field of the map, in the enumeration order, each comma-terminated.
   */
  lemma CreateTableReadsBack(keyspace: string, streamId: string, fields: map<string, string>, order: seq<string>)
    requires Enumerates(order, fields)
    requires forall n :: n in fields ==> ',' !in n && ',' !in fields[n]
    ensures var r := CreateTable(keyspace, streamId, fields, order);
      var head := CreateTablePrefix(keyspace, streamId);
      && |head| + |CreateTableSuffix| <= |r|
      && r[..|head|] == head
      && r[|r| - |CreateTableSuffix|..] == CreateTableSuffix
      && var body := r[|head|..|r| - |CreateTableSuffix|];
         && Text.Split(body, ',') == Declarations(order, fields) + [""]
         && |Text.Split(body, ',')| == |fields| + 1
         && Text.CountChar(body, ',') == |fields|
  {
    var decls := Declarations(order, fields);
    var head := CreateTablePrefix(keyspace, streamId);
    var body := Text.JoinTerminated(decls, ',');
    var r := CreateTable(keyspace, streamId, fields, order);
    assert r == head + body + CreateTableSuffix;
    assert r[|head|..|r| - |CreateTableSuffix|] == body;
    forall i | 0 <= i < |decls|
      ensures ',' !in decls[i]
    {
      assert decls[i] == order[i] + " " + fields[order[i]];
      DeclarationUnseparated(order[i], fields[order[i]]);
    }
    Text.SplitJoinTerminated(decls, ',');
    Text.CountJoinTerminated(decls, ',');
    EnumerationLength(order, fields);
  }

  /**
   * The CREATE statement the sink issues for a stream, built from the stream's own field
   * map: its declarations are exactly one per attribute name, and each attribute that is
   * the last with its name is declared with its own column type.
   */
  lemma CreateTableForStreamReadsBack(keyspace: string, streamId: string, attrs: seq<Attribute>, order: seq<string>)
    requires FieldsAndTypes(attrs).Success?
    requires Enumerates(order, FieldsAndTypes(attrs).value)
    requires forall i :: 0 <= i < |attrs| ==> ',' !in attrs[i].name
    ensures var fields := FieldsAndTypes(attrs).value;
      var r := CreateTable(keyspace, streamId, fields, order);
      var head := CreateTablePrefix(keyspace, streamId);
      && |head| + |CreateTableSuffix| <= |r|
      && var decls := Text.Split(r[|head|..|r| - |CreateTableSuffix|], ',');
         && |decls| == |order| + 1 && decls[|order|] == ""
         && (forall n :: n in order <==> n in Names(attrs))
         && (forall i :: 0 <= i < |attrs| && LastWithName(attrs, i) ==>
               exists k :: 0 <= k < |order| && order[k] == attrs[i].name &&
                 decls[k] == attrs[i].name + " " + CqlType(attrs[i].typ).value)
  {
    var fields := FieldsAndTypes(attrs).value;
    FieldsAndTypesKeys(attrs);
    FieldsAndTypesValues(attrs);
    FieldsAndTypesSeparators(attrs);
    forall n | n in fields
      ensures ',' !in n && ',' !in fields[n]
    {
      assert n in Names(attrs);
      var i :| 0 <= i < |attrs| && Names(attrs)[i] == n;
    }
    CreateTableReadsBack(keyspace, streamId, fields, order);
    var decls := Declarations(order, fields);
    forall i | 0 <= i < |attrs| && LastWithName(attrs, i)
      ensures exists k :: 0 <= k < |order| && order[k] == attrs[i].name &&
                decls[k] == attrs[i].name + " " + CqlType(attrs[i].typ).value
    {
      var k :| 0 <= k < |order| && order[k] == attrs[i].name;
      assert decls[k] == order[k] + " " + fields[order[k]];
    }
  }

  /** The listed names that are not among the table's columns, in the listed order. */
  function Missing(order: seq<string>, tableColumns: seq<string>): (r: seq<string>)
    ensures forall n :: n in r <==> n in order && n !in tableColumns
    ensures DistinctIds(order) ==> DistinctIds(r)
  {
    if |order| == 0 then []
    else (if order[0] in tableColumns then [] else [order[0]]) + Missing(order[1..], tableColumns)
  }

  function AlterStatement(keyspace: string, streamId: string, name: string, typ: string): string {
    "ALTER TABLE " + keyspace + "." + streamId + " ADD " + name + " " + typ
  }

  /** An ADD statement built from semicolon-free parts holds no semicolon of its own. */
  lemma AlterStatementUnterminated(keyspace: string, streamId: string, name: string, typ: string)
    requires ';' !in keyspace && ';' !in streamId && ';' !in name && ';' !in typ
    ensures ';' !in AlterStatement(keyspace, streamId, name, typ)
  {
  }

  /** One ADD statement per listed field, in the listed order. */
  function AlterStatements(keyspace: string, streamId: string, fields: map<string, string>, names: seq<string>): (r: seq<string>)
    requires forall n :: n in names ==> n in fields
    ensures |r| == |names|
    ensures forall k :: 0 <= k < |names| ==> r[k] == AlterStatement(keyspace, streamId, names[k], fields[names[k]])
  {
    if |names| == 0 then []
    else [AlterStatement(keyspace, streamId, names[0], fields[names[0]])] + AlterStatements(keyspace, streamId, fields, names[1..])
  }

  /**
   * The ALTER script for a stream: a semicolon-terminated ADD statement for each field
   * the table does not have yet; empty exactly when the table already has every field.
   */
  function AlterTable(keyspace: string, streamId: string, fields: map<string, string>, order: seq<string>,
                      tableColumns: seq<string>): (r: string)
    requires Enumerates(order, fields)
    ensures r == "" <==> forall n :: n in fields ==> n in tableColumns
  {
    var missing := Missing(order, tableColumns);
    assert (forall n :: n in fields ==> n in tableColumns) <==> |missing| == 0 by {
      if |missing| > 0 {
        assert missing[0] in missing;
      }
    }
    Text.JoinTerminated(AlterStatements(keyspace, streamId, fields, missing), ';')
  }

  /**
   * The ALTER script reads back: it splits on semicolons into exactly one ADD statement
   * per missing field, each field missing from the table appearing once, in the
   * enumeration order.
   */
  lemma AlterTableReadsBack(keyspace: string, streamId: string, fields: map<string, string>, order: seq<string>,
                            tableColumns: seq<string>)
    requires Enumerates(order, fields)
    requires ';' !in keyspace && ';' !in streamId
    requires forall n :: n in fields ==> ';' !in n && ';' !in fields[n]
    ensures var r := AlterTable(keyspace, streamId, fields, order, tableColumns);
      var missing := Missing(order, tableColumns);
      && (forall n :: n in missing <==> n in fields && n !in tableColumns)
      && DistinctIds(missing)
      && Text.Split(r, ';') == AlterStatements(keyspace, streamId, fields, missing) + [""]
      && Text.CountChar(r, ';') == |missing|
  {
    var missing := Missing(order, tableColumns);
    var stmts := AlterStatements(keyspace, streamId, fields, missing);
    forall i | 0 <= i < |stmts|
      ensures ';' !in stmts[i]
    {
      assert stmts[i] == AlterStatement(keyspace, streamId, missing[i], fields[missing[i]]);
      AlterStatementUnterminated(keyspace, streamId, missing[i], fields[missing[i]]);
    }
    Text.SplitJoinTerminated(stmts, ';');
    Text.CountJoinTerminated(stmts, ';');
  }
}

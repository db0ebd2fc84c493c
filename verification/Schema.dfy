/** Columns, schemas and the conditions every schema in the engine satisfies. */
module Schemas {
  import opened Bytes
  import opened Core

  datatype LogicalType = BooleanType | ByteType | Int32Type | Int64Type | DoubleType | StringType

  datatype Column = Column(
    name: Bytes, logicalType: LogicalType, nullable: bool, primaryKey: bool, stringCapacity: uint16)

  type Schema = seq<Column>

  const MAX_COLUMNS: nat := 255
  const MAX_NAME: nat := 0xFFFF

  ghost predicate ColumnOk(c: Column) {
    && 0 < |c.name| <= MAX_NAME
    && !(c.primaryKey && c.nullable)
    && (c.logicalType.StringType? <==> c.stringCapacity > 0)
  }

  ghost predicate Valid(s: Schema) {
    && 0 < |s| <= MAX_COLUMNS
    && (forall i | 0 <= i < |s| :: ColumnOk(s[i]))
    && (forall i, j | 0 <= i < j < |s| :: s[i].name != s[j].name)
    && (forall i, j | 0 <= i < j < |s| :: !(s[i].primaryKey && s[j].primaryKey))
  }

  /** The conditions one by one, in plain numbers. */
  lemma ValidMeans(s: Schema)
    ensures Valid(s) <==>
            && 1 <= |s| <= 255
            && (forall i | 0 <= i < |s| :: 1 <= |s[i].name| <= 65535)
            && (forall i, j | 0 <= i < |s| && 0 <= j < |s| && i != j :: s[i].name != s[j].name)
            && (forall i | 0 <= i < |s| :: s[i].primaryKey ==> !s[i].nullable)
            && (forall i, j | 0 <= i < |s| && 0 <= j < |s| && i != j :: s[i].primaryKey ==> !s[j].primaryKey)
            && (forall i | 0 <= i < |s| :: s[i].stringCapacity > 0 <==> s[i].logicalType == StringType)
  {
    assert (forall i | 0 <= i < |s| :: ColumnOk(s[i])) <==>
           && (forall i | 0 <= i < |s| :: 1 <= |s[i].name| <= 65535)
           && (forall i | 0 <= i < |s| :: s[i].primaryKey ==> !s[i].nullable)
           && (forall i | 0 <= i < |s| :: s[i].stringCapacity > 0 <==> s[i].logicalType == StringType);
  }

  /** Schema::create accepts exactly the valid column lists. */
  method Create(columns: seq<Column>) returns (r: Result<Schema>)
    ensures r == if Valid(columns) then Success(columns) else Failure(InvalidArgument)
  {
    if columns == [] {
      return Failure(InvalidArgument);
    }
    if |columns| > MAX_COLUMNS {
      return Failure(InvalidArgument);
    }
    var pk := false;
    var seenNames: set<Bytes> := {};
    for i := 0 to |columns|
      invariant forall k | 0 <= k < i :: ColumnOk(columns[k])
      invariant forall j, k | 0 <= j < k < i :: columns[j].name != columns[k].name
      invariant forall j, k | 0 <= j < k < i :: !(columns[j].primaryKey && columns[k].primaryKey)
      invariant forall n :: n in seenNames <==> exists k :: 0 <= k < i && columns[k].name == n
      invariant pk <==> exists k :: 0 <= k < i && columns[k].primaryKey
    {
      var col := columns[i];
      if col.name == [] {
        return Failure(InvalidArgument);
      }
      if col.name in seenNames {
        return Failure(InvalidArgument);
      } else {
        seenNames := seenNames + {col.name};
      }
      if |col.name| > MAX_NAME {
        return Failure(InvalidArgument);
      }
      if col.primaryKey {
        if pk {
          return Failure(InvalidArgument);
        } else {
          pk := true;
        }
      }
      if col.primaryKey && col.nullable {
        return Failure(InvalidArgument);
      }
      if col.logicalType == StringType && col.stringCapacity == 0 {
        return Failure(InvalidArgument);
      }
      if col.logicalType != StringType && col.stringCapacity != 0 {
        return Failure(InvalidArgument);
      }
    }
    return Success(columns);
  }
}

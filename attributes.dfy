/**
 * Projection of the fetched user row into the attribute map returned on a
 * successful login (modules/laravelmodule/lib/Auth/Source/LaravelAuth.php,
 * the `foreach` at the end of `login`).
 */
module Attributes {
  import opened PhpValues

  /** A fetched row: column name to cell value (`Null` for SQL NULL). */
  type Row = map<string, PhpValue>

  /** Attribute name to its list of string values. */
  type AttributeMap = map<string, seq<string>>

  /** The columns whose values are never handed out. */
  predicate Denied(name: string)
  {
    name == "password" || name == "remember_token" || name == "login_attempts" || name == "updated_at"
  }

  /**
   * What the projection yields for a row: one key per non-null column; a
   * deny-listed column keeps its key with no value, every other column holds
   * the string form of its cell.
   */
  function Projection(row: Row): (attrs: AttributeMap)
    ensures attrs.Keys <= row.Keys
    ensures forall name :: name in row && !row[name].Null? ==> name in attrs
    ensures forall name :: name in attrs && Denied(name) ==> attrs[name] == []
    ensures forall name :: name in attrs ==> |attrs[name]| <= 1 && NoDuplicates(attrs[name])
  {
    map name | name in row && !row[name].Null? ::
      if Denied(name) then [] else [ToPhpString(row[name])]
  }

  /** No value occurs twice in a list. */
  predicate NoDuplicates(values: seq<string>)
  {
    forall i, j :: 0 <= i < j < |values| ==> values[i] != values[j]
  }

  /**
   * The projection loop: for each column, skip nulls, cast to string, create
   * the key, skip a value already listed, and append unless the column is
   * deny-listed. The row's column order is not modelled; the result does not
   * depend on it.
   */
  method ExtractAttributes(row: Row) returns (attrs: AttributeMap)
    ensures attrs == Projection(row)
    ensures forall name :: name in attrs <==> name in row && !row[name].Null?
    ensures forall name :: name in attrs && Denied(name) ==> attrs[name] == []
    ensures forall name :: name in attrs && !Denied(name) ==> attrs[name] == [ToPhpString(row[name])]
    ensures forall name :: name in attrs ==> |attrs[name]| <= 1 && NoDuplicates(attrs[name])
  {
    attrs := map[];
    var todo := row.Keys;
    while todo != {}
      invariant todo <= row.Keys
      invariant forall name :: name in attrs <==> name in row && name !in todo && !row[name].Null?
      invariant forall name :: name in attrs ==>
        attrs[name] == if Denied(name) then [] else [ToPhpString(row[name])]
      decreases todo
    {
      var name :| name in todo;
      var value := row[name];
      if !value.Null? {
        var s := ToPhpString(value);
        if name !in attrs {
          attrs := attrs[name := []];
        }
        if s !in attrs[name] {
          if !Denied(name) {
            attrs := attrs[name := attrs[name] + [s]];
          }
        }
      }
      todo := todo - {name};
    }
  }
}

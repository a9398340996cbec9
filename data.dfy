/** The values the grid and the download list exchange: rows, column
    configuration, selection criteria and the events of the two components. */
module GridData {

  datatype Option<T> = None | Some(value: T)

  /** A scalar field value. `Undefined` is what reading a field a row does
      not have yields, as a property read does in the original. */
  datatype Scalar = Str(s: string) | Num(n: int) | Bool(b: bool) | Undefined

  /** A row is an ordered list of named fields; the order is the
      enumeration order of the record's own keys. */
  datatype Field = Field(name: string, value: Scalar)
  type Row = seq<Field>

  /** `{key, label}` entry of the column configuration (`label` is a Dafny keyword, hence `heading`). */
  datatype Column = Column(key: string, heading: string)

  /** `selectionCriteria`: the field inspected and the values it is tested against. */
  datatype Criteria = Criteria(key: string, values: seq<Scalar>)

  /** Detail of `el-grid#selectionChanged`: the new checked state and the row index. */
  datatype SelectionEvent = SelectionEvent(checked: bool, dataIndex: nat)

  /** Detail of `el-checkbox#changed`. */
  datatype CheckboxDetail = CheckboxDetail(checked: bool, indeterminate: bool)

  /** `row[key]`: the value of the first field named `key`, or Undefined. */
  function Get(row: Row, key: string): Scalar
  {
    if |row| == 0 then Undefined
    else if row[0].name == key then row[0].value
    else Get(row[1..], key)
  }

  /** The value read is that of the first field with the name, or
      Undefined exactly when no field has it. */
  lemma {:induction false} GetSpec(row: Row, key: string)
    ensures (exists i :: 0 <= i < |row| && row[i].name == key && row[i].value == Get(row, key)
                         && forall j :: 0 <= j < i ==> row[j].name != key)
            || (Get(row, key) == Undefined && forall i :: 0 <= i < |row| ==> row[i].name != key)
  {
    if |row| > 0 && row[0].name != key {
      GetSpec(row[1..], key);
      assert forall i :: 1 <= i < |row| ==> row[i] == row[1..][i - 1];
      if exists i :: 0 <= i < |row| - 1 && row[1..][i].name == key && row[1..][i].value == Get(row, key)
                     && forall j :: 0 <= j < i ==> row[1..][j].name != key {
        var i :| 0 <= i < |row| - 1 && row[1..][i].name == key && row[1..][i].value == Get(row, key)
                 && forall j :: 0 <= j < i ==> row[1..][j].name != key;
        assert row[i + 1].name == key;
      }
    }
  }

  /** `Object.keys(row)`: the field names in order. */
  function Names(row: Row): (names: seq<string>)
    ensures |names| == |row|
    ensures forall i :: 0 <= i < |row| ==> names[i] == row[i].name
  {
    seq(|row|, i requires 0 <= i < |row| => row[i].name)
  }
}

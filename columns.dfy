/** Column resolution of the grid (`_processConfig`): the keys, the header
    labels and the label of the selection column. */
module Columns {
  import opened GridData

  datatype Resolved = Resolved(keys: seq<string>, labels: seq<string>, selection: Option<string>)

  /** The reducer: push the key and the label, and take the label as the
      selection label when the key is the criteria key. */
  function Step(criteria: Criteria, acc: Resolved, col: Column): Resolved
  {
    Resolved(acc.keys + [col.key], acc.labels + [col.heading],
             if col.key == criteria.key then Some(col.heading) else acc.selection)
  }

  /** `config.reduce(Step, acc)`, a left fold. */
  function Reduce(criteria: Criteria, acc: Resolved, config: seq<Column>): Resolved
    decreases |config|
  {
    if |config| == 0 then acc else Reduce(criteria, Step(criteria, acc, config[0]), config[1..])
  }

  /** The keys of the configuration, in order. */
  function KeysOf(config: seq<Column>): seq<string>
  {
    seq(|config|, i requires 0 <= i < |config| => config[i].key)
  }

  /** The labels of the configuration, in order. */
  function LabelsOf(config: seq<Column>): seq<string>
  {
    seq(|config|, i requires 0 <= i < |config| => config[i].heading)
  }

  /** The label of the last entry whose key is `key`, if any. */
  function LastMatch(config: seq<Column>, key: string): Option<string>
  {
    if |config| == 0 then None
    else
      var n := |config| - 1;
      if config[n].key == key then Some(config[n].heading) else LastMatch(config[..n], key)
  }

  /** No label exactly when no entry has the key; otherwise the label of a
      matching entry after which no entry matches. */
  lemma {:induction false} LastMatchSpec(config: seq<Column>, key: string)
    ensures LastMatch(config, key).None? <==> forall i :: 0 <= i < |config| ==> config[i].key != key
    ensures LastMatch(config, key).Some? ==>
              exists i :: 0 <= i < |config| && config[i].key == key && config[i].heading == LastMatch(config, key).value
                          && forall j :: i < j < |config| ==> config[j].key != key
  {
    if |config| > 0 {
      var n := |config| - 1;
      if config[n].key == key {
        assert LastMatch(config, key) == Some(config[n].heading);
      } else {
        var prefix := config[..n];
        assert LastMatch(config, key) == LastMatch(prefix, key);
        LastMatchSpec(prefix, key);
        assert forall i :: 0 <= i < n ==> prefix[i] == config[i];
        if LastMatch(prefix, key).Some? {
          var i :| 0 <= i < n && prefix[i].key == key && prefix[i].heading == LastMatch(prefix, key).value
                   && forall j :: i < j < n ==> prefix[j].key != key;
          assert config[i].key == key && config[i].heading == LastMatch(config, key).value;
        }
      }
    }
  }

  /** Prepending an entry matters for the last match only when nothing later matches. */
  lemma {:induction false} LastMatchCons(c: Column, rest: seq<Column>, key: string)
    ensures LastMatch([c] + rest, key)
            == if LastMatch(rest, key).Some? then LastMatch(rest, key)
               else if c.key == key then Some(c.heading) else None
  {
    if |rest| > 0 {
      var n := |rest| - 1;
      assert ([c] + rest)[..n + 1] == [c] + rest[..n];
      LastMatchCons(c, rest[..n], key);
    }
  }

  /** The fold appends the projections of the configuration to the
      accumulator and the last matching label overrides its selection. */
  lemma {:induction false} ReduceProjects(criteria: Criteria, acc: Resolved, config: seq<Column>)
    ensures Reduce(criteria, acc, config)
            == Resolved(acc.keys + KeysOf(config), acc.labels + LabelsOf(config),
                        if LastMatch(config, criteria.key).Some? then LastMatch(config, criteria.key)
                        else acc.selection)
    decreases |config|
  {
    if |config| > 0 {
      var rest := config[1..];
      ReduceProjects(criteria, Step(criteria, acc, config[0]), rest);
      assert config == [config[0]] + rest;
      LastMatchCons(config[0], rest, criteria.key);
      assert KeysOf(config) == [config[0].key] + KeysOf(rest);
      assert LabelsOf(config) == [config[0].heading] + LabelsOf(rest);
    }
  }

  /** `_processConfig`: with no configuration the keys (and, as a copy, the
      labels) are the field names of the first row and there is no
      selection label; otherwise the keys and labels are the in-order
      projections of the configuration and the selection label is that of
      the last entry whose key is the criteria key. */
  function ProcessConfig(config: seq<Column>, criteria: Criteria, data: seq<Row>): (r: Resolved)
    requires |config| > 0 || |data| > 0
    ensures |config| == 0 ==> r.keys == Names(data[0]) && r.labels == r.keys && r.selection == None
    ensures |config| > 0 ==> |r.keys| == |r.labels| == |config|
    ensures |config| > 0 ==> forall i :: 0 <= i < |config| ==> r.keys[i] == config[i].key && r.labels[i] == config[i].heading
    ensures |config| > 0 ==> r.selection == LastMatch(config, criteria.key)
  {
    if |config| == 0 then
      var keys := Names(data[0]);
      Resolved(keys, keys, None)
    else
      var r := Reduce(criteria, Resolved([], [], None), config);
      ReduceProjects(criteria, Resolved([], [], None), config);
      r
  }

  /** Number of data columns the table renders (none without data). */
  function ColumnCount(config: seq<Column>, criteria: Criteria, rows: seq<Row>): (n: nat)
    ensures |rows| > 0 && |config| > 0 ==> n == |config|
  {
    if |rows| == 0 then 0 else |ProcessConfig(config, criteria, rows).keys|
  }
}

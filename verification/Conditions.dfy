/** The status conditions (pkg/controller/util.go): a list read as a map whose later
    entries win. */
module Conditions {
  import opened Types

  function LastWins(conditions: seq<Condition>): map<string, Condition> {
    if conditions == [] then map[]
    else
      var n := |conditions| - 1;
      LastWins(conditions[..n])[conditions[n].name := conditions[n]]
  }

  predicate DistinctNames(conditions: seq<Condition>) {
    forall i, j :: 0 <= i < j < |conditions| ==> conditions[i].name != conditions[j].name
  }

  /** The map view is what it is called: every name maps to its last entry. */
  lemma {:induction false} LastWinsIsLast(conditions: seq<Condition>, name: string)
    ensures name in LastWins(conditions) <==> exists i :: 0 <= i < |conditions| && conditions[i].name == name
    ensures name in LastWins(conditions) ==>
              exists i :: 0 <= i < |conditions| && conditions[i] == LastWins(conditions)[name]
                          && conditions[i].name == name
                          && forall j :: i < j < |conditions| ==> conditions[j].name != name
  {
    if conditions == [] {
    } else {
      var n := |conditions| - 1;
      var front := conditions[..n];
      LastWinsIsLast(front, name);
      if conditions[n].name == name {
        assert conditions[n] == LastWins(conditions)[name];
      } else {
        assert name in LastWins(conditions) <==> name in LastWins(front);
        if name in LastWins(front) {
          var i :| 0 <= i < |front| && front[i] == LastWins(front)[name] && front[i].name == name
                   && forall j :: i < j < |front| ==> front[j].name != name;
          assert conditions[i] == front[i];
          forall j | i < j < |conditions| ensures conditions[j].name != name {
            if j < n { assert conditions[j] == front[j]; }
          }
        }
        if i :| 0 <= i < |conditions| && conditions[i].name == name {
          assert front[i].name == name;
        }
      }
    }
  }

  method ConvertConditionsToMap(conditions: seq<Condition>) returns (conditionMap: map<string, Condition>)
    ensures conditionMap == LastWins(conditions)
  {
    conditionMap := map[];
    for i := 0 to |conditions|
      invariant conditionMap == LastWins(conditions[..i])
    {
      assert conditions[..i + 1][..i] == conditions[..i];
      conditionMap := conditionMap[conditions[i].name := conditions[i]];
    }
    assert conditions[..|conditions|] == conditions;
  }

  /** Only a success counts as having run. */
  predicate HasRun(conditions: seq<Condition>, name: string) {
    var m := LastWins(conditions);
    name in m && m[name].status == SUCCEED
  }

  /** The last entry under the name reports a success. */
  ghost predicate LastSucceeded(conditions: seq<Condition>, name: string) {
    exists i :: && 0 <= i < |conditions| && conditions[i].name == name && conditions[i].status == "Succeed"
                && forall j :: i < j < |conditions| ==> conditions[j].name != name
  }

  /** A name has run exactly when it has an entry and the last one says "Succeed"; a last entry
      with another status, or a success overwritten by it, does not count. */
  lemma HasRunExactly(conditions: seq<Condition>, name: string)
    ensures HasRun(conditions, name) <==> LastSucceeded(conditions, name)
    ensures forall i :: 0 <= i < |conditions| && conditions[i].name == name
                        && (forall j :: i < j < |conditions| ==> conditions[j].name != name)
                        ==> (HasRun(conditions, name) <==> conditions[i].status == "Succeed")
    ensures (forall i :: 0 <= i < |conditions| ==> conditions[i].name != name) ==> !HasRun(conditions, name)
  {
    LastWinsIsLast(conditions, name);
  }

  method HaveRunAlready(cron: Cron, conditions: seq<Condition>) returns (run: bool)
    ensures run <==> HasRun(conditions, cron.name)
  {
    var conditionMap := ConvertConditionsToMap(conditions);
    if cron.name in conditionMap {
      if conditionMap[cron.name].status == SUCCEED {
        return true;
      }
    }
    return false;
  }

  /** `updated` stores `added` over the old conditions and names nothing twice. The order is
      whatever the iteration over the map made it. */
  ghost predicate IsUpdateOf(updated: seq<Condition>, conditions: seq<Condition>, added: Condition) {
    DistinctNames(updated) && LastWins(updated) == LastWins(conditions)[added.name := added]
  }

  /** The entry is in the list, and the last under its name. */
  ghost predicate LastUnderItsName(conditions: seq<Condition>, c: Condition) {
    exists i :: && 0 <= i < |conditions| && conditions[i] == c
                && forall j :: i < j < |conditions| ==> conditions[j].name != c.name
  }

  lemma LastUnderItsNameIsMapped(conditions: seq<Condition>, c: Condition)
    ensures LastUnderItsName(conditions, c) <==> c.name in LastWins(conditions) && LastWins(conditions)[c.name] == c
  {
    LastWinsIsLast(conditions, c.name);
  }

  /** What is in the updated list: the new condition, and the last entry of every other name;
      no name twice. */
  lemma UpdateExactly(updated: seq<Condition>, conditions: seq<Condition>, added: Condition, c: Condition)
    requires IsUpdateOf(updated, conditions, added)
    ensures forall i, j :: 0 <= i < j < |updated| ==> updated[i].name != updated[j].name
    ensures c in updated <==> c == added || (c.name != added.name && LastUnderItsName(conditions, c))
  {
    LastUnderItsNameIsMapped(conditions, c);
    LastUnderItsNameIsMapped(updated, c);
    if c in updated {
      var i :| 0 <= i < |updated| && updated[i] == c;
      assert LastUnderItsName(updated, c);
    }
  }

  lemma {:induction false} LastWinsKeysAreNames(conditions: seq<Condition>)
    ensures forall k :: k in LastWins(conditions) ==> LastWins(conditions)[k].name == k
  {
    if conditions == [] {
    } else {
      LastWinsKeysAreNames(conditions[..|conditions| - 1]);
    }
  }

  /** `result` lists, without repetition, the part of `m` under the visited names. */
  ghost predicate Lists(result: seq<Condition>, m: map<string, Condition>, visited: set<string>) {
    && visited <= m.Keys
    && DistinctNames(result)
    && (forall i :: 0 <= i < |result| ==> result[i].name in visited)
    && LastWins(result).Keys == visited
    && forall k :: k in visited ==> LastWins(result)[k] == m[k]
  }

  lemma ListsOneMore(result: seq<Condition>, m: map<string, Condition>, visited: set<string>, name: string)
    requires Lists(result, m, visited)
    requires name in m && name !in visited && m[name].name == name
    ensures Lists(result + [m[name]], m, visited + {name})
  {
    var longer := result + [m[name]];
    assert longer[..|longer| - 1] == result;
  }

  method UpdateConditions(conditions: seq<Condition>, newCondition: Condition) returns (result: seq<Condition>)
    ensures IsUpdateOf(result, conditions, newCondition)
  {
    result := [];
    var conditionMap := ConvertConditionsToMap(conditions);
    LastWinsKeysAreNames(conditions);
    conditionMap := conditionMap[newCondition.name := newCondition];
    var visited: set<string> := {};
    while conditionMap.Keys - visited != {}
      invariant Lists(result, conditionMap, visited)
      decreases conditionMap.Keys - visited
    {
      // Go leaves the iteration order open, and so does this choice.
      var name :| name in conditionMap.Keys - visited;
      ListsOneMore(result, conditionMap, visited, name);
      result := result + [conditionMap[name]];
      visited := visited + {name};
    }
    assert visited == conditionMap.Keys;
    assert LastWins(result) == conditionMap;
  }

  /** Storing a success makes that name run and changes no other name's answer. */
  lemma UpdateRecordsRun(updated: seq<Condition>, conditions: seq<Condition>, added: Condition, name: string)
    requires IsUpdateOf(updated, conditions, added) && added.status == SUCCEED
    ensures HasRun(updated, name) <==> name == added.name || HasRun(conditions, name)
  {}
}

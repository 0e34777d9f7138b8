/**
 * The SET clause: each `set` call appends `attribute = rule, ` and binds its
 * data; generation cuts the trailing ", ", resolves attribute names and
 * prepends " SET ".
 */
module SetClause {
  import opened PhpStrings
  import opened PhpStrtr
  import opened QueryData
  import opened ObjectParser
  import opened AbstractQuery

  /** One assignment as `set($attribute, $queryData, $rule)` writes it. */
  function Assignment(attribute: string, rule: string): string {
    attribute + " = " + rule
  }

  /** What `generateSet` returns for accumulated text `text` and translation table `fieldNames`. */
  function SetSql(text: string, fieldNames: FieldMap): string {
    if text == "" then "" else " SET " + Strtr(DropLast2(text), fieldNames.vals)
  }

  /**
   * After `set` calls with assignments `items`, the clause lists them joined
   * by ", " and resolved; no call gives no clause.
   */
  lemma SetOfAssignments(items: seq<string>, fieldNames: FieldMap)
    ensures items == [] ==> SetSql(Terminated(items, ", "), fieldNames) == ""
    ensures items != [] ==>
      SetSql(Terminated(items, ", "), fieldNames) == " SET " + Strtr(Join(", ", items), fieldNames.vals)
  {
    if items != [] {
      TerminatedIsJoin(items, ", ");
      TrimmedAccumulation(items);
    }
  }

  class SetClause {
    const query: Query
    var setList: string

    constructor (query: Query)
      ensures this.query == query && setList == ""
    {
      this.query := query;
      setList := "";
    }

    /**
     * `set($attribute, $queryData, $rule = '?')`: the data is always bound,
     * `null` included.
     */
    method Set(attribute: string, queryData: Value, rule: string := "?")
      modifies this, query
      ensures setList == old(setList) + Assignment(attribute, rule) + ", "
      ensures query.args == old(query.args) + Flatten(queryData)
      ensures query.Reg() == old(query.Reg())
    {
      setList := setList + Assignment(attribute, rule) + ", ";
      query.AddArgument(queryData);
    }

    /** `generateSet()`. */
    function GenerateSet(): (r: string)
      reads this, query
      ensures setList == "" ==> r == ""
      ensures forall items :: items != [] && setList == Terminated(items, ", ") ==>
                r == " SET " + Strtr(Join(", ", items), query.fieldNames.vals)
    {
      assert forall items :: items != [] && setList == Terminated(items, ", ") ==>
               SetSql(setList, query.fieldNames) == " SET " + Strtr(Join(", ", items), query.fieldNames.vals) by {
        forall items | items != [] && setList == Terminated(items, ", ")
          ensures SetSql(setList, query.fieldNames) == " SET " + Strtr(Join(", ", items), query.fieldNames.vals)
        {
          SetOfAssignments(items, query.fieldNames);
        }
      }
      if setList == "" then "" else " SET " + query.FieldName(DropLast2(setList))
    }
  }
}

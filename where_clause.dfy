/**
 * The WHERE clause: conditions are concatenated as given, `andWhere` and
 * `orWhere` prefixing " AND " / " OR "; generation cuts one leading combinator,
 * resolves attribute names and prepends " WHERE ".
 */
module WhereClause {
  import opened PhpStrings
  import opened PhpStrtr
  import opened QueryData
  import opened ObjectParser
  import opened AbstractQuery

  /** The condition text with one leading " AND " or " OR " removed. */
  function StripCombinator(w: string): (r: string)
    ensures StartsWith(w, " AND ") ==> w == " AND " + r
    ensures !StartsWith(w, " AND ") && StartsWith(w, " OR ") ==> w == " OR " + r
    ensures !StartsWith(w, " AND ") && !StartsWith(w, " OR ") ==> r == w
  {
    if StartsWith(w, " AND ") then w[5..]
    else if StartsWith(w, " OR ") then w[4..]
    else w
  }

  /** What `generateWhere` returns for condition text `w` and translation table `fieldNames`. */
  function WhereSql(w: string, fieldNames: FieldMap): string {
    if w == "" then "" else " WHERE " + Strtr(StripCombinator(w), fieldNames.vals)
  }

  /** A condition text that starts with neither combinator is kept whole. */
  lemma NoCombinator(w: string)
    requires w != "" && w[0] != ' '
    ensures StripCombinator(w) == w
  {
    if |w| >= 5 {
      assert w[..5][0] == w[0];
    }
    if |w| >= 4 {
      assert w[..4][0] == w[0];
    }
  }

  /**
   * `where(c1)` then `andWhere(c2)`: the first condition opens the clause,
   * the second follows after " AND ", and the whole text is resolved.
   */
  lemma WhereThenAnd(first: string, second: string, fieldNames: FieldMap)
    requires first != "" && first[0] != ' '
    ensures WhereSql(first + " AND " + second, fieldNames) == " WHERE " + Strtr(first + " AND " + second, fieldNames.vals)
  {
    var w := first + " AND " + second;
    assert w[0] == first[0];
    NoCombinator(w);
  }

  /**
   * Conditions added only with `andWhere` come out joined by " AND ", the
   * first combinator dropped; none gives no clause.
   */
  lemma WhereAndChain(conds: seq<string>, fieldNames: FieldMap)
    ensures conds == [] ==> WhereSql(Prefixed(conds, " AND "), fieldNames) == ""
    ensures conds != [] ==>
      WhereSql(Prefixed(conds, " AND "), fieldNames) == " WHERE " + Strtr(Join(" AND ", conds), fieldNames.vals)
  {
    if conds != [] {
      PrefixedIsJoin(conds, " AND ");
      var j := Join(" AND ", conds);
      assert StartsWith(" AND " + j, " AND ");
      assert (" AND " + j)[5..] == j;
    }
  }

  /** The same for `orWhere`: joined by " OR ". */
  lemma WhereOrChain(conds: seq<string>, fieldNames: FieldMap)
    requires conds != []
    ensures WhereSql(Prefixed(conds, " OR "), fieldNames) == " WHERE " + Strtr(Join(" OR ", conds), fieldNames.vals)
  {
    PrefixedIsJoin(conds, " OR ");
    var j := Join(" OR ", conds);
    assert StartsWith(" OR " + j, " OR ");
    assert !StartsWith(" OR " + j, " AND ") by {
      assert (" OR " + j)[1] == 'O';
    }
    assert (" OR " + j)[4..] == j;
  }

  class WhereClause {
    const query: Query
    var where: string

    constructor (query: Query)
      ensures this.query == query && where == ""
    {
      this.query := query;
      where := "";
    }

    /** `where($condition, $queryData = null)`. */
    method Where(condition: string, queryData: Value := Null)
      modifies this, query
      ensures where == old(where) + condition
      ensures query.args == old(query.args) + Bound(queryData)
      ensures query.Reg() == old(query.Reg())
    {
      where := where + condition;
      if !queryData.Null? {
        query.AddArgument(queryData);
      }
    }

    /** `andWhere($condition, $queryData = null)`. */
    method AndWhere(condition: string, queryData: Value := Null)
      modifies this, query
      ensures where == old(where) + " AND " + condition
      ensures query.args == old(query.args) + Bound(queryData)
      ensures query.Reg() == old(query.Reg())
    {
      Where(" AND " + condition, queryData);
    }

    /** `orWhere($condition, $queryData = null)`. */
    method OrWhere(condition: string, queryData: Value := Null)
      modifies this, query
      ensures where == old(where) + " OR " + condition
      ensures query.args == old(query.args) + Bound(queryData)
      ensures query.Reg() == old(query.Reg())
    {
      Where(" OR " + condition, queryData);
    }

    /**
     * `generateWhere()`: the clause for the conditions, and the conditions
     * written back without their leading combinator.
     */
    method GenerateWhere() returns (r: string)
      modifies this
      ensures r == WhereSql(old(where), query.fieldNames)
      ensures where == StripCombinator(old(where))
    {
      if where == "" {
        return "";
      }
      if StartsWith(where, " AND ") {
        where := where[5..];
      } else if StartsWith(where, " OR ") {
        where := where[4..];
      }
      r := " WHERE " + query.FieldName(where);
    }
  }
}

/**
 * The ORDER BY clause: each call appends `attribute ASC, ` or
 * `attribute DESC, `; generation resolves the whole text, trailing ", "
 * included, and only then cuts the last two characters.
 */
module OrderByClause {
  import opened PhpStrings
  import opened PhpStrtr
  import opened ObjectParser
  import opened AbstractQuery

  /** What `generateOrderBy` returns for accumulated text `orderBy`. */
  function OrderBySql(orderBy: string, fieldNames: FieldMap): string {
    if orderBy == "" then "" else " ORDER BY " + DropLast2(Strtr(orderBy, fieldNames.vals))
  }

  /**
   * No key can reach into the trailing ", ": none contains ',' and " " on
   * its own is not a key.
   */
  predicate SeparatorInert(m: map<string, string>) {
    (forall k :: k in m ==> ',' !in k) && " " !in m
  }

  /** Resolving ", " under such a table leaves it alone. */
  lemma SeparatorUntouched(m: map<string, string>)
    requires SeparatorInert(m)
    ensures Strtr(", ", m) == ", "
  {
    forall i, j | 0 <= i < j <= 2 ensures ", "[i..j] !in m {
      if i == 0 {
        assert ", "[i..j][0] == ',';
      } else {
        assert ", "[i..j] == " ";
      }
    }
    StrtrUntouched(", ", m);
  }

  /**
   * Resolving before trimming is the same as trimming before resolving when
   * the separator is inert: the clause lists the resolved orderings joined by
   * ", ".
   */
  lemma OrderByOfItems(items: seq<string>, fieldNames: FieldMap)
    requires SeparatorInert(fieldNames.vals)
    ensures items == [] ==> OrderBySql(Terminated(items, ", "), fieldNames) == ""
    ensures items != [] ==>
      OrderBySql(Terminated(items, ", "), fieldNames) == " ORDER BY " + Strtr(Join(", ", items), fieldNames.vals)
  {
    if items != [] {
      var m := fieldNames.vals;
      var j := Join(", ", items);
      TerminatedIsJoin(items, ", ");
      StrtrAppend(j, ", ", m);
      SeparatorUntouched(m);
      DropLast2Append(Strtr(j, m), ", ");
    }
  }

  class OrderByClause {
    const query: Query
    var orderBy: string

    constructor (query: Query)
      ensures this.query == query && orderBy == ""
    {
      this.query := query;
      orderBy := "";
    }

    /** `orderByAsc($attribute)`. */
    method OrderByAsc(attribute: string)
      modifies this
      ensures orderBy == old(orderBy) + (attribute + " ASC") + ", "
    {
      orderBy := orderBy + (attribute + " ASC") + ", ";
    }

    /** `orderByDesc($attribute)`. */
    method OrderByDesc(attribute: string)
      modifies this
      ensures orderBy == old(orderBy) + (attribute + " DESC") + ", "
    {
      orderBy := orderBy + (attribute + " DESC") + ", ";
    }

    /** `generateOrderBy()`. */
    function GenerateOrderBy(): (r: string)
      reads this, query
      ensures orderBy == "" ==> r == ""
      ensures SeparatorInert(query.fieldNames.vals) ==>
                forall items :: items != [] && orderBy == Terminated(items, ", ") ==>
                  r == " ORDER BY " + Strtr(Join(", ", items), query.fieldNames.vals)
    {
      assert SeparatorInert(query.fieldNames.vals) ==>
               forall items :: items != [] && orderBy == Terminated(items, ", ") ==>
                 OrderBySql(orderBy, query.fieldNames) == " ORDER BY " + Strtr(Join(", ", items), query.fieldNames.vals) by {
        if SeparatorInert(query.fieldNames.vals) {
          forall items | items != [] && orderBy == Terminated(items, ", ")
            ensures OrderBySql(orderBy, query.fieldNames) == " ORDER BY " + Strtr(Join(", ", items), query.fieldNames.vals)
          {
            OrderByOfItems(items, query.fieldNames);
          }
        }
      }
      if orderBy == "" then "" else " ORDER BY " + DropLast2(query.FieldName(orderBy))
    }
  }
}

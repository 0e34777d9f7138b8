/**
 * The JOIN clause: an ordered list of parts, each a type and a value. Join
 * parts name a class; ON/AND/OR parts carry a condition; a USING part carries a
 * parenthesised attribute list. Generation walks the parts in order: a part
 * whose type contains "JOIN" registers its class and emits its table
 * reference; any other part emits its value resolved against the translation
 * table as it stands at that point.
 */
module JoinClause {
  import opened PhpStrings
  import opened PhpStrtr
  import opened QueryData
  import opened ObjectParser
  import opened AbstractQuery

  /** `array('type' => $type, 'value' => $value)`. */
  datatype JoinPart = JoinPart(kind: string, value: string)

  /** `stripos($type, 'JOIN') !== false`. */
  predicate IsJoinKind(kind: string) {
    ContainsCI(kind, "JOIN")
  }

  /**
   * The text `generateJoin` builds from `parts`, starting from translation
   * state `r`, and the translation state it leaves.
   */
  function JoinRender(meta: Metadata, r: Registry, parts: seq<JoinPart>): (string, Registry)
    decreases |parts|
  {
    if parts == [] then ("", r)
    else
      var prev := JoinRender(meta, r, parts[..|parts| - 1]);
      var step := RenderPart(meta, prev.1, parts[|parts| - 1]);
      (prev.0 + step.0, step.1)
  }

  /**
   * One part: a join registers its class and emits " TYPE table"; any other
   * part emits " TYPE value" with the value resolved.
   */
  function RenderPart(meta: Metadata, r: Registry, p: JoinPart): (string, Registry) {
    if IsJoinKind(p.kind) then (" " + p.kind + " " + TableRef(meta, p.value), Register(r, meta, p.value))
    else (" " + p.kind + " " + Strtr(p.value, r.fieldNames.vals), r)
  }

  /** The class names of the join parts, in order. */
  function JoinedClasses(parts: seq<JoinPart>): seq<string>
    decreases |parts|
  {
    if parts == [] then []
    else
      var p := parts[|parts| - 1];
      JoinedClasses(parts[..|parts| - 1]) + (if IsJoinKind(p.kind) then [p.value] else [])
  }

  /** The last part renders after the others. */
  lemma JoinRenderLast(meta: Metadata, r: Registry, parts: seq<JoinPart>)
    requires parts != []
    ensures var prev := JoinRender(meta, r, parts[..|parts| - 1]);
            var step := RenderPart(meta, prev.1, parts[|parts| - 1]);
            JoinRender(meta, r, parts) == (prev.0 + step.0, step.1)
  {
  }

  lemma JoinedClassesLast(parts: seq<JoinPart>)
    requires parts != []
    ensures var p := parts[|parts| - 1];
            JoinedClasses(parts) == JoinedClasses(parts[..|parts| - 1]) + (if IsJoinKind(p.kind) then [p.value] else [])
  {
  }

  lemma AppendLast<T>(a: seq<T>, b: seq<T>)
    requires b != []
    ensures (a + b)[..|a + b| - 1] == a + b[..|b| - 1]
    ensures (a + b)[|a + b| - 1] == b[|b| - 1]
  {
  }

  /** Generating the joins registers exactly the joined classes, in order; conditions register nothing. */
  lemma {:induction false} JoinRegistersJoinedClasses(meta: Metadata, r: Registry, parts: seq<JoinPart>)
    ensures JoinRender(meta, r, parts).1 == RegisterAll(r, meta, JoinedClasses(parts))
    decreases |parts|
  {
    if parts != [] {
      var init := parts[..|parts| - 1];
      var p := parts[|parts| - 1];
      JoinRegistersJoinedClasses(meta, r, init);
      JoinedClassesLast(parts);
      JoinRenderLast(meta, r, parts);
      if IsJoinKind(p.kind) {
        RegisterAllSnoc(r, meta, JoinedClasses(init), p.value);
      } else {
        assert JoinedClasses(parts) == JoinedClasses(init);
      }
    }
  }

  /**
   * Generation is piecewise: the parts added later render after the earlier
   * ones, starting from the translation state the earlier ones left.
   */
  lemma {:induction false} JoinRenderAppend(meta: Metadata, r: Registry, a: seq<JoinPart>, b: seq<JoinPart>)
    ensures JoinRender(meta, r, a + b)
            == (JoinRender(meta, r, a).0 + JoinRender(meta, JoinRender(meta, r, a).1, b).0,
                JoinRender(meta, JoinRender(meta, r, a).1, b).1)
    decreases |b|
  {
    var ra := JoinRender(meta, r, a).1;
    var ta := JoinRender(meta, r, a).0;
    if b == [] {
      assert a + b == a;
      assert JoinRender(meta, ra, b) == ("", ra);
      assert ta + "" == ta;
    } else {
      var b' := b[..|b| - 1];
      var p := b[|b| - 1];
      JoinRenderAppend(meta, r, a, b');
      var ab := a + b;
      AppendLast(a, b);
      JoinRenderLast(meta, r, ab);
      JoinRenderLast(meta, ra, b);
      var tb' := JoinRender(meta, ra, b').0;
      var step := RenderPart(meta, JoinRender(meta, ra, b').1, p);
      assert JoinRender(meta, ra, b) == (tb' + step.0, step.1);
      assert JoinRender(meta, r, ab) == ((ta + tb') + step.0, step.1);
      AppendAssoc(ta, tb', step.0);
    }
  }

  /** A type ending in "JOIN" counts as a join. */
  lemma EndsInJoin(kind: string)
    requires |kind| >= 4 && kind[|kind| - 4..] == "JOIN"
    ensures IsJoinKind(kind)
  {
    ContainsCIAt(kind, "JOIN", |kind| - 4);
  }

  /** The twelve join types all count as joins. */
  lemma JoinKinds()
    ensures IsJoinKind("CROSS JOIN") && IsJoinKind("INNER JOIN") && IsJoinKind("JOIN")
    ensures IsJoinKind("LEFT JOIN") && IsJoinKind("LEFT OUTER JOIN")
    ensures IsJoinKind("NATURAL LEFT JOIN") && IsJoinKind("NATURAL LEFT OUTER JOIN")
    ensures IsJoinKind("NATURAL RIGHT JOIN") && IsJoinKind("NATURAL RIGHT OUTER JOIN")
    ensures IsJoinKind("RIGHT JOIN") && IsJoinKind("RIGHT OUTER JOIN") && IsJoinKind("STRAIGHT_JOIN")
  {
    EndsInJoin("CROSS JOIN");
    EndsInJoin("INNER JOIN");
    EndsInJoin("JOIN");
    EndsInJoin("LEFT JOIN");
    EndsInJoin("LEFT OUTER JOIN");
    EndsInJoin("NATURAL LEFT JOIN");
    EndsInJoin("NATURAL LEFT OUTER JOIN");
    EndsInJoin("NATURAL RIGHT JOIN");
    EndsInJoin("NATURAL RIGHT OUTER JOIN");
    EndsInJoin("RIGHT JOIN");
    EndsInJoin("RIGHT OUTER JOIN");
    EndsInJoin("STRAIGHT_JOIN");
  }

  /** The condition types do not count as joins, so their values are resolved, not registered. */
  lemma ConditionKinds()
    ensures !IsJoinKind("ON") && !IsJoinKind("AND") && !IsJoinKind("OR") && !IsJoinKind("USING")
  {
    var u := Lower("USING");
    assert u[0] == 'u' && u[1] == 's';
    assert Lower("JOIN")[0] == 'j';
    assert !OccursAt(Lower("JOIN"), u, 0) && !OccursAt(Lower("JOIN"), u, 1);
  }

  class JoinClause {
    const query: Query
    var join: seq<JoinPart>

    constructor (query: Query)
      ensures this.query == query && join == []
    {
      this.query := query;
      join := [];
    }

    /** `addJoin($type, $className)`. */
    method AddJoin(kind: string, className: string)
      modifies this
      ensures join == old(join) + [JoinPart(kind, className)]
    {
      join := join + [JoinPart(kind, className)];
    }

    /** `addOn($type, $condition, $queryData = null)`. */
    method AddOn(kind: string, condition: string, queryData: Value := Null)
      modifies this, query
      ensures join == old(join) + [JoinPart(kind, condition)]
      ensures query.args == old(query.args) + Bound(queryData)
      ensures query.Reg() == old(query.Reg())
    {
      join := join + [JoinPart(kind, condition)];
      if !queryData.Null? {
        query.AddArgument(queryData);
      }
    }

    method CrossJoin(className: string)
      modifies this
      ensures join == old(join) + [JoinPart("CROSS JOIN", className)]
    {
      AddJoin("CROSS JOIN", className);
    }

    method InnerJoin(className: string)
      modifies this
      ensures join == old(join) + [JoinPart("INNER JOIN", className)]
    {
      AddJoin("INNER JOIN", className);
    }

    method Join(className: string)
      modifies this
      ensures join == old(join) + [JoinPart("JOIN", className)]
    {
      AddJoin("JOIN", className);
    }

    method LeftJoin(className: string)
      modifies this
      ensures join == old(join) + [JoinPart("LEFT JOIN", className)]
    {
      AddJoin("LEFT JOIN", className);
    }

    method LeftOuterJoin(className: string)
      modifies this
      ensures join == old(join) + [JoinPart("LEFT OUTER JOIN", className)]
    {
      AddJoin("LEFT OUTER JOIN", className);
    }

    method NaturalLeftJoin(className: string)
      modifies this
      ensures join == old(join) + [JoinPart("NATURAL LEFT JOIN", className)]
    {
      AddJoin("NATURAL LEFT JOIN", className);
    }

    method NaturalLeftOuterJoin(className: string)
      modifies this
      ensures join == old(join) + [JoinPart("NATURAL LEFT OUTER JOIN", className)]
    {
      AddJoin("NATURAL LEFT OUTER JOIN", className);
    }

    method NaturalRightJoin(className: string)
      modifies this
      ensures join == old(join) + [JoinPart("NATURAL RIGHT JOIN", className)]
    {
      AddJoin("NATURAL RIGHT JOIN", className);
    }

    method NaturalRightOuterJoin(className: string)
      modifies this
      ensures join == old(join) + [JoinPart("NATURAL RIGHT OUTER JOIN", className)]
    {
      AddJoin("NATURAL RIGHT OUTER JOIN", className);
    }

    method RightJoin(className: string)
      modifies this
      ensures join == old(join) + [JoinPart("RIGHT JOIN", className)]
    {
      AddJoin("RIGHT JOIN", className);
    }

    method RightOuterJoin(className: string)
      modifies this
      ensures join == old(join) + [JoinPart("RIGHT OUTER JOIN", className)]
    {
      AddJoin("RIGHT OUTER JOIN", className);
    }

    method StraightJoin(className: string)
      modifies this
      ensures join == old(join) + [JoinPart("STRAIGHT_JOIN", className)]
    {
      AddJoin("STRAIGHT_JOIN", className);
    }

    /** `on($condition, $queryData = null)`. */
    method On(condition: string, queryData: Value := Null)
      modifies this, query
      ensures join == old(join) + [JoinPart("ON", condition)]
      ensures query.args == old(query.args) + Bound(queryData)
      ensures query.Reg() == old(query.Reg())
    {
      AddOn("ON", condition, queryData);
    }

    /** `orOn($condition, $queryData = null)`. */
    method OrOn(condition: string, queryData: Value := Null)
      modifies this, query
      ensures join == old(join) + [JoinPart("OR", condition)]
      ensures query.args == old(query.args) + Bound(queryData)
      ensures query.Reg() == old(query.Reg())
    {
      AddOn("OR", condition, queryData);
    }

    /** `andOn($condition, $queryData = null)`. */
    method AndOn(condition: string, queryData: Value := Null)
      modifies this, query
      ensures join == old(join) + [JoinPart("AND", condition)]
      ensures query.args == old(query.args) + Bound(queryData)
      ensures query.Reg() == old(query.Reg())
    {
      AddOn("AND", condition, queryData);
    }

    /** `using($attributes)`: one array of attributes, or the attributes as separate arguments. */
    method Using(attributes: Arg<string>, rest: seq<string> := [])
      modifies this
      ensures join == old(join) + [JoinPart("USING", "(" + PhpStrings.Join(", ", Spread(attributes, rest)) + ")")]
    {
      var attrs := Spread(attributes, rest);
      join := join + [JoinPart("USING", "(" + PhpStrings.Join(", ", attrs) + ")")];
    }

    /** `generateJoin()`. */
    method GenerateJoin() returns (r: string)
      modifies query
      ensures (r, query.Reg()) == JoinRender(query.meta, old(query.Reg()), join)
      ensures query.args == old(query.args)
    {
      r := "";
      ghost var r0 := query.Reg();
      ghost var meta := query.meta;
      for i := 0 to |join|
        invariant r == JoinRender(meta, r0, join[..i]).0
        invariant query.Reg() == JoinRender(meta, r0, join[..i]).1
        invariant query.args == old(query.args)
      {
        JoinRenderStep(meta, r0, join, i);
        var part := join[i];
        if ContainsCI(part.kind, "JOIN") {
          var table := query.AddClass(part.value);
          r := r + (" " + part.kind + " " + table);
        } else {
          r := r + (" " + part.kind + " " + query.FieldName(part.value));
        }
      }
      assert join[..|join|] == join;
    }
  }

  lemma JoinRenderStep(meta: Metadata, r: Registry, parts: seq<JoinPart>, i: nat)
    requires i < |parts|
    ensures var prev := JoinRender(meta, r, parts[..i]);
            var step := RenderPart(meta, prev.1, parts[i]);
            JoinRender(meta, r, parts[..i + 1]) == (prev.0 + step.0, step.1)
  {
    assert parts[..i + 1][..i] == parts[..i];
  }
}

/**
 * The VALUES clause: each `values` call appends one parenthesised tuple and
 * its arguments; generation cuts the last ", " and prepends " VALUES ".
 */
module ValuesClause {
  import opened PhpStrings
  import opened QueryData
  import opened AbstractQuery

  /** `$value[1]` on a list: its second element, PHP `null` when there is none. */
  function Second(elems: seq<Value>): Value {
    if |elems| > 1 then elems[1] else Null
  }

  /** The text an element of a row contributes: `?`, or for an array its element [1] verbatim. */
  function Part(v: Value): string {
    if v.Arr? then ToText(Second(v.elems)) else "?"
  }

  function Parts(row: seq<Value>): (r: seq<string>)
    ensures |r| == |row|
  {
    seq(|row|, i requires 0 <= i < |row| => Part(row[i]))
  }

  /** The tuple a call writes for parts `parts`; no parts leave only ")". */
  function Tuple(parts: seq<string>): string {
    if parts == [] then ")" else "( " + Join(", ", parts) + ")"
  }

  /** The arguments a row binds: every element as `addArgument` appends it. */
  function RowArgs(row: seq<Value>): seq<Value>
    decreases |row|
  {
    if row == [] then [] else RowArgs(row[..|row| - 1]) + Flatten(row[|row| - 1])
  }

  /** Number of `?` placeholders in the parts, counted one part at a time. */
  function Placeholders(parts: seq<string>): nat
    decreases |parts|
  {
    if parts == [] then 0 else Placeholders(parts[..|parts| - 1]) + CountChar(parts[|parts| - 1], '?')
  }

  lemma SeqAssoc<T>(x: seq<T>, y: seq<T>, z: seq<T>)
    ensures (x + y) + z == x + (y + z)
  {
  }

  lemma PartsStep(row: seq<Value>, i: nat)
    requires i < |row|
    ensures Parts(row[..i + 1]) == Parts(row[..i]) + [Part(row[i])]
  {
  }

  lemma RowArgsStep(row: seq<Value>, i: nat)
    requires i < |row|
    ensures RowArgs(row[..i + 1]) == RowArgs(row[..i]) + Flatten(row[i])
  {
    assert row[..i + 1][..i] == row[..i];
  }

  /** One element of the loop: its part and ", " are appended. */
  lemma AccumulateStep(pre: string, parts: seq<string>, x: string)
    ensures pre + Terminated(parts + [x], ", ") == (pre + Terminated(parts, ", ")) + (x + ", ")
  {
    TerminatedSnoc(parts, x, ", ");
    AppendAssoc(Terminated(parts, ", "), x, ", ");
    AppendAssoc(pre, Terminated(parts, ", "), x + ", ");
  }

  /** The end of the loop: the last ", " (or the opening "( ") is replaced by "), ". */
  lemma CloseTuple(before: string, parts: seq<string>)
    ensures DropLast2((before + "( ") + Terminated(parts, ", ")) + "), " == before + (Tuple(parts) + ", ")
  {
    if parts == [] {
      assert (before + "( ") + "" == before + "( ";
      DropLast2Append(before, "( ");
    } else {
      var j := Join(", ", parts);
      TerminatedIsJoin(parts, ", ");
      AppendAssoc(before + "( ", j, ", ");
      DropLast2Append((before + "( ") + j, ", ");
      AppendAssoc(before, "( ", j);
      assert ((before + "( ") + j) + "), " == before + (("( " + j + ")") + ", ");
    }
  }

  /** The placeholders of a tuple are those of its parts. */
  lemma {:induction false} JoinPlaceholders(parts: seq<string>)
    ensures CountChar(Join(", ", parts), '?') == Placeholders(parts)
    decreases |parts|
  {
    if |parts| == 1 {
      assert Placeholders(parts) == Placeholders([]) + CountChar(parts[0], '?');
    } else if |parts| > 1 {
      var init := parts[..|parts| - 1];
      var x := parts[|parts| - 1];
      JoinPlaceholders(init);
      SplitLast(parts);
      JoinSnoc(", ", init, x);
      CountCharAppend(Join(", ", init) + ", ", x, '?');
      CountCharAppend(Join(", ", init), ", ", '?');
    }
  }

  lemma TuplePlaceholders(parts: seq<string>)
    ensures CountChar(Tuple(parts) + ", ", '?') == Placeholders(parts)
  {
    CountCharAppend(Tuple(parts), ", ", '?');
    if parts != [] {
      var j := Join(", ", parts);
      JoinPlaceholders(parts);
      CountCharAppend("( " + j, ")", '?');
      CountCharAppend("( ", j, '?');
    }
  }

  /** Parts with one placeholder each have as many placeholders as parts. */
  lemma {:induction false} OnePlaceholderEach(parts: seq<string>)
    requires forall i :: 0 <= i < |parts| ==> CountChar(parts[i], '?') == 1
    ensures Placeholders(parts) == |parts|
    decreases |parts|
  {
    if parts != [] {
      OnePlaceholderEach(parts[..|parts| - 1]);
    }
  }

  /** A row with no array binds one argument per element. */
  lemma {:induction false} ScalarRowArgs(row: seq<Value>)
    requires forall i :: 0 <= i < |row| ==> !row[i].Arr?
    ensures |RowArgs(row)| == |row|
    decreases |row|
  {
    if row != [] {
      ScalarRowArgs(row[..|row| - 1]);
    }
  }

  /**
   * For a row of plain values the tuple has exactly as many `?` as the call
   * binds arguments.
   */
  lemma ScalarRowPlaceholders(row: seq<Value>)
    requires forall i :: 0 <= i < |row| ==> !row[i].Arr?
    ensures CountChar(Tuple(Parts(row)) + ", ", '?') == |RowArgs(row)|
  {
    TuplePlaceholders(Parts(row));
    OnePlaceholderEach(Parts(row));
    ScalarRowArgs(row);
  }

  /**
   * An `[expr, value]` element as written: `value` goes into the SQL text
   * verbatim and both elements are bound, so the placeholders and the
   * arguments no longer line up.
   */
  lemma ExprElementAsWritten(expr: string, value: string)
    requires '?' !in value
    ensures var row := [Arr([Scalar(expr), Scalar(value)])];
            && Tuple(Parts(row)) + ", " == "( " + value + "), "
            && RowArgs(row) == [Scalar(expr), Scalar(value)]
            && CountChar(Tuple(Parts(row)) + ", ", '?') == 0
  {
    var row := [Arr([Scalar(expr), Scalar(value)])];
    assert Parts(row) == [value];
    assert Join(", ", [value]) == value;
    assert row[..0] == [];
    var text := "( " + value + "), ";
    assert '?' !in text by {
      forall k | 0 <= k < |text| ensures text[k] != '?' {
        if 2 <= k < 2 + |value| {
          assert text[k] == value[k - 2];
        }
      }
    }
    CountCharAbsent(text, '?');
  }

  /** The intended part of an element: `?`, or for `[expr, value]` the expression. */
  function IntendedPart(v: Value): string {
    if v.Arr? then ToText(if |v.elems| > 0 then v.elems[0] else Null) else "?"
  }

  function IntendedParts(row: seq<Value>): (r: seq<string>)
    ensures |r| == |row|
  {
    seq(|row|, i requires 0 <= i < |row| => IntendedPart(row[i]))
  }

  /** The intended arguments: a plain value itself, for `[expr, value]` only the value. */
  function IntendedArgs(v: Value): seq<Value> {
    if v.Arr? then (if |v.elems| > 1 then [v.elems[1]] else []) else [v]
  }

  function IntendedRowArgs(row: seq<Value>): seq<Value>
    decreases |row|
  {
    if row == [] then [] else IntendedRowArgs(row[..|row| - 1]) + IntendedArgs(row[|row| - 1])
  }

  /** Every array element is an `[expr, value]` pair whose expression holds one `?`. */
  predicate WellFormedRow(row: seq<Value>) {
    forall i :: 0 <= i < |row| && row[i].Arr? ==>
      |row[i].elems| == 2 && CountChar(ToText(row[i].elems[0]), '?') == 1
  }

  lemma {:induction false} IntendedRowArgsLength(row: seq<Value>)
    requires WellFormedRow(row)
    ensures |IntendedRowArgs(row)| == |row|
    decreases |row|
  {
    if row != [] {
      var init := row[..|row| - 1];
      assert WellFormedRow(init) by {
        forall i | 0 <= i < |init| && init[i].Arr?
          ensures |init[i].elems| == 2 && CountChar(ToText(init[i].elems[0]), '?') == 1
        {
          assert init[i] == row[i];
        }
      }
      IntendedRowArgsLength(init);
    }
  }

  /**
   * With the expression in the text and only the value bound, every
   * well-formed row has as many `?` as arguments.
   */
  lemma IntendedRowPlaceholders(row: seq<Value>)
    requires WellFormedRow(row)
    ensures CountChar(Tuple(IntendedParts(row)) + ", ", '?') == |IntendedRowArgs(row)|
  {
    TuplePlaceholders(IntendedParts(row));
    OnePlaceholderEach(IntendedParts(row));
    IntendedRowArgsLength(row);
  }

  /** On rows of plain values the intended and the written behaviour agree. */
  lemma {:induction false} IntendedAgreesOnScalars(row: seq<Value>)
    requires forall i :: 0 <= i < |row| ==> !row[i].Arr?
    ensures IntendedParts(row) == Parts(row)
    ensures IntendedRowArgs(row) == RowArgs(row)
    decreases |row|
  {
    if row != [] {
      IntendedAgreesOnScalars(row[..|row| - 1]);
    }
  }

  /** What `generateValues` returns: no empty check, so no call gives " VALUES ". */
  function ValuesSql(values: string): string {
    " VALUES " + DropLast2(values)
  }

  /** After calls writing `tuples`, the clause lists them joined by ", ". */
  lemma ValuesOfTuples(tuples: seq<string>)
    ensures tuples == [] ==> ValuesSql(Terminated(tuples, ", ")) == " VALUES "
    ensures tuples != [] ==> ValuesSql(Terminated(tuples, ", ")) == " VALUES " + Join(", ", tuples)
  {
    TrimmedAccumulation(tuples);
  }

  class ValuesClause {
    const query: Query
    var values: string

    constructor (query: Query)
      ensures this.query == query && values == ""
    {
      this.query := query;
      values := "";
    }

    /**
     * `values($values)`: one array is the row, else every argument is; the
     * row's tuple and ", " are appended and every element is bound.
     */
    method Values(first: Value, rest: seq<Value> := [])
      modifies this, query
      ensures values == old(values) + (Tuple(Parts(SpreadValues(first, rest))) + ", ")
      ensures query.args == old(query.args) + RowArgs(SpreadValues(first, rest))
      ensures query.Reg() == old(query.Reg())
    {
      var row := SpreadValues(first, rest);
      ghost var before := values;
      values := values + "( ";
      ghost var pre := values;
      for i := 0 to |row|
        invariant values == pre + Terminated(Parts(row[..i]), ", ")
        invariant query.args == old(query.args) + RowArgs(row[..i])
        invariant query.Reg() == old(query.Reg())
      {
        var value := row[i];
        PartsStep(row, i);
        RowArgsStep(row, i);
        AccumulateStep(pre, Parts(row[..i]), Part(value));
        SeqAssoc(old(query.args), RowArgs(row[..i]), Flatten(value));
        if value.Arr? {
          values := values + (ToText(Second(value.elems)) + ", ");
        } else {
          values := values + ("?" + ", ");
        }
        query.AddArgument(value);
      }
      assert row[..|row|] == row;
      CloseTuple(before, Parts(row));
      values := DropLast2(values) + "), ";
    }

    /** `generateValues()`. */
    function GenerateValues(): (r: string)
      reads this
      ensures values == "" ==> r == " VALUES "
      ensures forall tuples :: tuples != [] && values == Terminated(tuples, ", ") ==> r == " VALUES " + Join(", ", tuples)
    {
      assert forall tuples :: tuples != [] && values == Terminated(tuples, ", ") ==>
               ValuesSql(values) == " VALUES " + Join(", ", tuples) by {
        forall tuples | tuples != [] && values == Terminated(tuples, ", ")
          ensures ValuesSql(values) == " VALUES " + Join(", ", tuples)
        {
          ValuesOfTuples(tuples);
        }
      }
      " VALUES " + DropLast2(values)
    }
  }
}

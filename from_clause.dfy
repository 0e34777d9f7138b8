/**
 * The FROM clause: the class names given, in order; generation registers each
 * with the query (`addClass`) and lists their table references.
 */
module FromClause {
  import opened PhpStrings
  import opened OrderedMap
  import opened QueryData
  import opened ObjectParser
  import opened AbstractQuery

  /** What `generateFrom` returns for class list `from`. */
  function FromSql(meta: Metadata, from: seq<string>): string {
    if from == [] then "" else " FROM " + Join(", ", TableRefs(meta, from))
  }

  lemma TableRefsStep(meta: Metadata, names: seq<string>, i: nat)
    requires i < |names|
    ensures TableRefs(meta, names[..i + 1]) == TableRefs(meta, names[..i]) + [TableRef(meta, names[i])]
  {
  }

  lemma RegisterAllStep(r: Registry, meta: Metadata, names: seq<string>, i: nat)
    requires i < |names|
    ensures RegisterAll(r, meta, names[..i + 1]) == Register(RegisterAll(r, meta, names[..i]), meta, names[i])
  {
    assert names[..i + 1][..i] == names[..i];
  }

  /** The FROM text is the ", "-terminated accumulation of table references, trimmed, or nothing. */
  lemma FromSqlOfAccumulation(meta: Metadata, from: seq<string>)
    ensures var acc := Terminated(TableRefs(meta, from), ", ");
            && (acc == "" <==> from == [])
            && (acc != "" ==> FromSql(meta, from) == " FROM " + DropLast2(acc))
  {
    if from != [] {
      TerminatedIsJoin(TableRefs(meta, from), ", ");
      TrimmedAccumulation(TableRefs(meta, from));
    }
  }

  /** Plain class names (no " AS ") list their tables. */
  lemma FromPlainTables(meta: Metadata, from: seq<string>)
    requires from != []
    requires forall i :: 0 <= i < |from| ==> Find(" AS ", from[i]).None?
    ensures FromSql(meta, from) == " FROM " + Join(", ", seq(|from|, i requires 0 <= i < |from| => meta.table(from[i])))
  {
    forall i | 0 <= i < |from| ensures TableRefs(meta, from)[i] == meta.table(from[i]) {
      TableRefPlain(meta, from[i]);
    }
    assert TableRefs(meta, from) == seq(|from|, i requires 0 <= i < |from| => meta.table(from[i]));
  }

  /**
   * Registering a list of classes registers each of them, appending to the
   * class list and never reordering it.
   */
  lemma {:induction false} RegisterAllClasses(r: Registry, meta: Metadata, classNames: seq<string>)
    ensures forall c :: c in classNames ==> ClassPart(c) in RegisterAll(r, meta, classNames).classes.vals
    ensures forall c :: c in r.classes.vals ==> c in RegisterAll(r, meta, classNames).classes.vals
    ensures |r.classes.keys| <= |RegisterAll(r, meta, classNames).classes.keys|
    ensures RegisterAll(r, meta, classNames).classes.keys[..|r.classes.keys|] == r.classes.keys
    decreases |classNames|
  {
    if classNames != [] {
      var init := classNames[..|classNames| - 1];
      var last := classNames[|classNames| - 1];
      RegisterAllClasses(r, meta, init);
      var mid := RegisterAll(r, meta, init);
      var after := Register(mid, meta, last);
      assert RegisterAll(r, meta, classNames) == after;
      RegisterKeepsOrder(mid, meta, last);
      InInitOrLast(classNames);
      PrefixTrans(r.classes.keys, mid.classes.keys, after.classes.keys);
    }
  }

  class FromClause {
    const query: Query
    var from: seq<string>

    constructor (query: Query)
      ensures this.query == query && from == []
    {
      this.query := query;
      from := [];
    }

    /** `from($classeNames)`: one array of names, or the names as separate arguments. */
    method From(classNames: Arg<string>, rest: seq<string> := [])
      modifies this
      ensures from == old(from) + Spread(classNames, rest)
    {
      var names := Spread(classNames, rest);
      for i := 0 to |names|
        invariant from == old(from) + names[..i]
      {
        from := from + [names[i]];
      }
      assert names[..|names|] == names;
    }

    /** `generateFrom()`: registers every class and lists their table references. */
    method GenerateFrom() returns (r: string)
      modifies query
      ensures r == FromSql(query.meta, from)
      ensures query.Reg() == RegisterAll(old(query.Reg()), query.meta, from)
      ensures query.args == old(query.args)
    {
      var acc := "";
      ghost var r0 := query.Reg();
      ghost var meta := query.meta;
      ghost var reg := r0;
      ghost var refs: seq<string> := [];
      for i := 0 to |from|
        invariant refs == TableRefs(meta, from[..i])
        invariant acc == Terminated(refs, ", ")
        invariant reg == RegisterAll(r0, meta, from[..i])
        invariant query.fieldNames == reg.fieldNames && query.classes == reg.classes
        invariant query.args == old(query.args)
      {
        RegisterAllStep(r0, meta, from, i);
        var table := query.AddClass(from[i]);
        reg := Register(reg, meta, from[i]);
        TableRefsStep(meta, from, i);
        TerminatedSnoc(refs, table, ", ");
        refs := refs + [table];
        acc := acc + table + ", ";
      }
      assert from[..|from|] == from;
      FromSqlOfAccumulation(meta, from);
      if acc == "" {
        return "";
      }
      r := " FROM " + DropLast2(acc);
    }
  }
}

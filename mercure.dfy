/**
 * The facade: statement builders that normalise their arguments, and the
 * four object operations, which read an object's mapping through the parser
 * and drive the clause calls of one statement. Each operation returns the
 * statement it creates, the clause texts and arguments it leaves, and the
 * object as it ends up; running the statement is not part of the model.
 */
module Mercure {
  import opened PhpStrings
  import opened PhpStrtr
  import opened OrderedMap
  import opened QueryData
  import opened ObjectParser
  import opened AbstractQuery
  import opened WhereClause
  import opened FromClause
  import opened SetClause
  import opened ValuesClause

  /** The statement a builder creates, with the arguments it hands on. */
  datatype Statement =
    | SelectStmt(attributes: seq<string>)
    | InsertStmt(className: string, attributes: seq<string>)
    | UpdateStmt(classNames: seq<string>)
    | DeleteStmt(targets: Arg<string>)

  /** `deleteFrom($classeNames)`: the names are passed on untouched. */
  function DeleteFrom(classNames: Arg<string>): (r: Statement)
    ensures r.DeleteStmt? && r.targets == classNames
  {
    DeleteStmt(classNames)
  }

  /**
   * `insertInto($className, $attributes = array())`: an array of attributes
   * is used as it is; otherwise every argument after the class name is one.
   */
  function InsertInto(className: string, attributes: Arg<string> := List([]), rest: seq<string> := []): (r: Statement)
    ensures r.InsertStmt? && r.className == className
    ensures attributes.List? ==> r.attributes == attributes.items
    ensures attributes.One? ==> r.attributes == [attributes.item] + rest
  {
    InsertStmt(className, Spread(attributes, rest))
  }

  /** `select($attributes = array())`. */
  function Select(attributes: Arg<string> := List([]), rest: seq<string> := []): (r: Statement)
    ensures r.SelectStmt?
    ensures attributes.List? ==> r.attributes == attributes.items
    ensures attributes.One? ==> r.attributes == [attributes.item] + rest
  {
    SelectStmt(Spread(attributes, rest))
  }

  /** `update($classesName)`. */
  function Update(classNames: Arg<string>, rest: seq<string> := []): (r: Statement)
    ensures r.UpdateStmt?
    ensures classNames.List? ==> r.classNames == classNames.items
    ensures classNames.One? ==> r.classNames == [classNames.item] + rest
  {
    UpdateStmt(Spread(classNames, rest))
  }

  // ---------------------------------------------------------------------------
  // What the object operations compute

  /** The key condition `attribute = ?` of each attribute. */
  function Conditions(attrs: seq<string>): (r: seq<string>)
    ensures |r| == |attrs|
  {
    seq(|attrs|, i requires 0 <= i < |attrs| => attrs[i] + " = ?")
  }

  function LcFirsts(attrs: seq<string>): (r: seq<string>)
    ensures |r| == |attrs|
  {
    seq(|attrs|, i requires 0 <= i < |attrs| => LcFirst(attrs[i]))
  }

  /** The attribute values of `o`, one per attribute. */
  function AttrValues<O>(p: Parser<O>, o: O, attrs: seq<string>): (r: seq<Value>)
    ensures |r| == |attrs|
  {
    seq(|attrs|, i requires 0 <= i < |attrs| => p.getAttributeValue(o, attrs[i]))
  }

  /** The arguments `where`/`andWhere` bind for the attributes' values: a `null` binds nothing. */
  function KeyArgs<O>(p: Parser<O>, o: O, attrs: seq<string>): seq<Value>
    decreases |attrs|
  {
    if attrs == [] then []
    else KeyArgs(p, o, attrs[..|attrs| - 1]) + Bound(p.getAttributeValue(o, attrs[|attrs| - 1]))
  }

  /** The arguments `set` binds for the attributes' values: always, `null` included. */
  function SetArgs<O>(p: Parser<O>, o: O, attrs: seq<string>): seq<Value>
    decreases |attrs|
  {
    if attrs == [] then []
    else SetArgs(p, o, attrs[..|attrs| - 1]) + Flatten(p.getAttributeValue(o, attrs[|attrs| - 1]))
  }

  /** The assignments `attribute = ?` of `set($attribute, $value)`. */
  function Assignments(attrs: seq<string>): (r: seq<string>)
    ensures |r| == |attrs|
  {
    seq(|attrs|, i requires 0 <= i < |attrs| => Assignment(attrs[i], "?"))
  }

  /** The keys not in `excluded`, in order (`!in_array`). */
  function Without(keys: seq<string>, excluded: set<string>): seq<string>
    decreases |keys|
  {
    if keys == [] then []
    else
      var last := keys[|keys| - 1];
      Without(keys[..|keys| - 1], excluded) + (if last in excluded then [] else [last])
  }

  /** The keys in `included`, in order (`in_array`). */
  function Within(keys: seq<string>, included: set<string>): seq<string>
    decreases |keys|
  {
    if keys == [] then []
    else
      var last := keys[|keys| - 1];
      Within(keys[..|keys| - 1], included) + (if last in included then [last] else [])
  }

  function SetOf(s: seq<string>): set<string> {
    set x | x in s
  }

  /** The attributes `insertOne` lists: every field's attribute that is not auto-incremented. */
  function InsertedAttributes(fields: FieldMap, auto: FieldMap): seq<string> {
    Without(fields.keys, auto.vals.Values)
  }

  /** Writing `vals[i]` into attribute `attrs[i]`, in order. */
  function SetAll<O>(p: Parser<O>, o: O, attrs: seq<string>, vals: seq<Value>): O
    requires |attrs| == |vals|
    decreases |attrs|
  {
    if attrs == [] then o
    else p.setAttributeValue(SetAll(p, o, attrs[..|attrs| - 1], vals[..|vals| - 1]), attrs[|attrs| - 1], vals[|vals| - 1])
  }

  /** The generated identifier for each auto-increment field, in the map's order. */
  function AutoIds(auto: FieldMap, lastInsertId: string -> Value): (r: seq<Value>)
    ensures |r| == |auto.keys|
  {
    seq(|auto.keys|, i requires 0 <= i < |auto.keys| => lastInsertId(auto.keys[i]))
  }

  // ---------------------------------------------------------------------------
  // Loop steps

  lemma KeyArgsStep<O>(p: Parser<O>, o: O, attrs: seq<string>, i: nat)
    requires i < |attrs|
    ensures KeyArgs(p, o, attrs[..i + 1]) == KeyArgs(p, o, attrs[..i]) + Bound(p.getAttributeValue(o, attrs[i]))
  {
    assert attrs[..i + 1][..i] == attrs[..i];
  }

  lemma SetArgsSnoc<O>(p: Parser<O>, o: O, attrs: seq<string>, x: string)
    ensures SetArgs(p, o, attrs + [x]) == SetArgs(p, o, attrs) + Flatten(p.getAttributeValue(o, x))
  {
    assert (attrs + [x])[..|attrs|] == attrs;
  }

  lemma KeyArgsSnoc<O>(p: Parser<O>, o: O, attrs: seq<string>, x: string)
    ensures KeyArgs(p, o, attrs + [x]) == KeyArgs(p, o, attrs) + Bound(p.getAttributeValue(o, x))
  {
    assert (attrs + [x])[..|attrs|] == attrs;
  }

  lemma WithoutStep(keys: seq<string>, excluded: set<string>, i: nat)
    requires i < |keys|
    ensures Without(keys[..i + 1], excluded) ==
              Without(keys[..i], excluded) + (if keys[i] in excluded then [] else [keys[i]])
  {
    assert keys[..i + 1][..i] == keys[..i];
  }

  lemma WithinStep(keys: seq<string>, included: set<string>, i: nat)
    requires i < |keys|
    ensures Within(keys[..i + 1], included) ==
              Within(keys[..i], included) + (if keys[i] in included then [keys[i]] else [])
  {
    assert keys[..i + 1][..i] == keys[..i];
  }

  lemma SetAllStep<O>(p: Parser<O>, o: O, attrs: seq<string>, vals: seq<Value>, i: nat)
    requires |attrs| == |vals| && i < |attrs|
    ensures SetAll(p, o, attrs[..i + 1], vals[..i + 1]) ==
              p.setAttributeValue(SetAll(p, o, attrs[..i], vals[..i]), attrs[i], vals[i])
  {
    assert attrs[..i + 1][..i] == attrs[..i];
    assert vals[..i + 1][..i] == vals[..i];
  }

  // ---------------------------------------------------------------------------
  // Properties

  /** A filter keeps exactly the keys outside (or inside) the set, and splits the keys in two. */
  lemma {:induction false} FilterSplit(keys: seq<string>, s: set<string>)
    ensures forall x :: x in Without(keys, s) <==> x in keys && x !in s
    ensures forall x :: x in Within(keys, s) <==> x in keys && x in s
    ensures |Without(keys, s)| + |Within(keys, s)| == |keys|
    decreases |keys|
  {
    if keys != [] {
      FilterSplit(keys[..|keys| - 1], s);
      InInitOrLast(keys);
      SplitLast(keys);
    }
  }

  /**
   * `insertOne` lists every non-auto-increment attribute and no other, and
   * its VALUES row lines up with that list value for value.
   */
  lemma InsertAligned<O>(p: Parser<O>, o: O, fields: FieldMap, auto: FieldMap)
    ensures forall a :: a in InsertedAttributes(fields, auto) <==> a in fields.keys && a !in auto.vals.Values
    ensures var attrs := InsertedAttributes(fields, auto);
            var row := AttrValues(p, o, attrs);
            |row| == |attrs| && forall i :: 0 <= i < |attrs| ==> row[i] == p.getAttributeValue(o, attrs[i])
  {
    FilterSplit(fields.keys, auto.vals.Values);
  }

  /**
   * `updateOne` assigns every non-key attribute and filters on every key
   * attribute: each attribute of the class is in exactly one of the two.
   */
  lemma UpdatePartition(fields: FieldMap, keys: seq<string>)
    ensures forall a :: a in fields.keys ==>
              (a in Without(fields.keys, SetOf(keys)) <==> a !in Within(fields.keys, SetOf(keys)))
    ensures forall a :: a in Within(fields.keys, SetOf(keys)) ==> a in keys
    ensures |Without(fields.keys, SetOf(keys))| + |Within(fields.keys, SetOf(keys))| == |fields.keys|
  {
    FilterSplit(fields.keys, SetOf(keys));
  }

  /** Key values that are plain (not `null`, not arrays) bind one argument each, in key order. */
  lemma {:induction false} PlainKeyArgs<O>(p: Parser<O>, o: O, attrs: seq<string>)
    requires forall a :: a in attrs ==> p.getAttributeValue(o, a).Scalar?
    ensures KeyArgs(p, o, attrs) == AttrValues(p, o, attrs)
    ensures SetArgs(p, o, attrs) == AttrValues(p, o, attrs)
    decreases |attrs|
  {
    if attrs != [] {
      var init := attrs[..|attrs| - 1];
      InInitOrLast(attrs);
      PlainKeyArgs(p, o, init);
      assert AttrValues(p, o, attrs) == AttrValues(p, o, init) + [p.getAttributeValue(o, attrs[|attrs| - 1])];
    }
  }

  /**
   * Writing values into distinct attributes of a field-like object: each
   * attribute reads back its value, and every other attribute is unchanged.
   */
  lemma {:induction false} SetAllReadsBack<O(!new)>(p: Parser<O>, o: O, attrs: seq<string>, vals: seq<Value>)
    requires FieldLike(p)
    requires |attrs| == |vals|
    requires forall i, j :: 0 <= i < j < |attrs| ==> attrs[i] != attrs[j]
    ensures forall i :: 0 <= i < |attrs| ==> p.getAttributeValue(SetAll(p, o, attrs, vals), attrs[i]) == vals[i]
    ensures forall a :: a !in attrs ==> p.getAttributeValue(SetAll(p, o, attrs, vals), a) == p.getAttributeValue(o, a)
    decreases |attrs|
  {
    if attrs != [] {
      var n := |attrs| - 1;
      var init, initVals := attrs[..n], vals[..n];
      SetAllReadsBack(p, o, init, initVals);
      var before := SetAll(p, o, init, initVals);
      assert SetAll(p, o, attrs, vals) == p.setAttributeValue(before, attrs[n], vals[n]);
      forall i | 0 <= i < |attrs|
        ensures p.getAttributeValue(SetAll(p, o, attrs, vals), attrs[i]) == vals[i]
      {
        if i < n {
          assert attrs[i] == init[i] && vals[i] == initVals[i];
        }
      }
      InInitOrLast(attrs);
    }
  }

  /**
   * After `insertOne` every auto-increment attribute holds the identifier
   * generated for its field (when no two fields share an attribute), and
   * every other attribute is as it was.
   */
  lemma InsertWritesBackIds<O(!new)>(p: Parser<O>, o: O, auto: FieldMap, lastInsertId: string -> Value)
    requires FieldLike(p)
    requires forall i, j :: 0 <= i < j < |auto.keys| ==> auto.vals[auto.keys[i]] != auto.vals[auto.keys[j]]
    ensures var written := SetAll(p, o, ValuesOf(auto), AutoIds(auto, lastInsertId));
            && (forall f :: f in auto.vals ==> p.getAttributeValue(written, auto.vals[f]) == lastInsertId(f))
            && (forall a :: a !in auto.vals.Values ==> p.getAttributeValue(written, a) == p.getAttributeValue(o, a))
  {
    var attrs, ids := ValuesOf(auto), AutoIds(auto, lastInsertId);
    SetAllReadsBack(p, o, attrs, ids);
    forall f | f in auto.vals
      ensures p.getAttributeValue(SetAll(p, o, attrs, ids), auto.vals[f]) == lastInsertId(f)
    {
      var i :| 0 <= i < |auto.keys| && auto.keys[i] == f;
      assert attrs[i] == auto.vals[f];
    }
    forall i | 0 <= i < |attrs| ensures attrs[i] in auto.vals.Values {
      assert auto.keys[i] in auto.vals;
    }
  }

  /** After `selectOne` finds a row, each of its attributes holds the row's value. */
  lemma SelectLoadsRow<O(!new)>(p: Parser<O>, o: O, row: OrdMap<string, Value>)
    requires FieldLike(p)
    ensures var loaded := SetAll(p, o, row.keys, ValuesOf(row));
            && (forall a :: a in row.vals ==> p.getAttributeValue(loaded, a) == row.vals[a])
            && (forall a :: a !in row.vals ==> p.getAttributeValue(loaded, a) == p.getAttributeValue(o, a))
  {
    var vals := ValuesOf(row);
    SetAllReadsBack(p, o, row.keys, vals);
    forall a | a in row.vals
      ensures p.getAttributeValue(SetAll(p, o, row.keys, vals), a) == row.vals[a]
    {
      var i :| 0 <= i < |row.keys| && row.keys[i] == a;
      assert vals[i] == row.vals[a];
    }
  }

  /**
   * `selectOne` and `updateOne` add each key condition with `where`, not
   * `andWhere`: with two keys the conditions run together.
   */
  lemma KeyFilterRunsTogether(first: string, second: string)
    requires first != "" && first[0] != ' '
    ensures WhereSql(Prefixed(Conditions([first, second]), ""), NoFields) ==
              " WHERE " + first + " = ?" + second + " = ?"
  {
    var w := first + " = ?" + second + " = ?";
    TwoKeyConditions(first, second);
    assert w[0] == first[0];
    NoCombinator(w);
    StrtrNoKeys(w);
  }

  lemma TwoKeyConditions(first: string, second: string)
    ensures Prefixed(Conditions([first, second]), "") == first + " = ?" + second + " = ?"
  {
    ConditionsSnoc([first], second);
    ConditionsSnoc([], first);
    assert [first] + [second] == [first, second];
    assert [] + [first] == [first];
    PrefixedSnoc([first + " = ?"], second + " = ?", "");
    PrefixedSnoc([], first + " = ?", "");
    assert [] + [first + " = ?"] == [first + " = ?"];
  }

  lemma ConditionsSnoc(attrs: seq<string>, x: string)
    ensures Conditions(attrs + [x]) == Conditions(attrs) + [x + " = ?"]
  {
  }

  /** One step of a loop that adds key conditions with `where`: one more condition and its bound value. */
  lemma WhereStep<O>(p: Parser<O>, obj: O, names: seq<string>, keys: seq<string>, i: nat)
    requires |names| == |keys| && i < |keys|
    ensures Prefixed(Conditions(names[..i + 1]), "") == Prefixed(Conditions(names[..i]), "") + (names[i] + " = ?")
    ensures KeyArgs(p, obj, keys[..i + 1]) == KeyArgs(p, obj, keys[..i]) + Bound(p.getAttributeValue(obj, keys[i]))
  {
    ConditionsStep(names, i);
    PlainSnoc(Conditions(names[..i]), names[i] + " = ?");
    KeyArgsStep(p, obj, keys, i);
  }

  lemma ConditionsStep(keys: seq<string>, i: nat)
    requires i < |keys|
    ensures Conditions(keys[..i + 1]) == Conditions(keys[..i]) + [keys[i] + " = ?"]
  {
    assert keys[..i + 1] == keys[..i] + [keys[i]];
    ConditionsSnoc(keys[..i], keys[i]);
  }

  lemma AssignmentsSnoc(attrs: seq<string>, x: string)
    ensures Assignments(attrs + [x]) == Assignments(attrs) + [Assignment(x, "?")]
  {
  }

  const NoFields: FieldMap := Empty()

  lemma StrtrNoKeys(s: string)
    ensures Strtr(s, NoFields.vals) == s
  {
    StrtrUntouched(s, NoFields.vals);
  }

  /**
   * The key filter as `deleteOne` builds it with `andWhere`: the conditions
   * joined by " AND ", for any number of keys.
   */
  lemma AndKeyFilter(keys: seq<string>, fieldNames: FieldMap)
    requires keys != []
    ensures WhereSql(Prefixed(Conditions(keys), " AND "), fieldNames) ==
              " WHERE " + Strtr(Join(" AND ", Conditions(keys)), fieldNames.vals)
  {
    WhereAndChain(Conditions(keys), fieldNames);
  }

  /** With a single key the written and the intended filter coincide. */
  lemma KeyFilterSingleKey(key: string, fieldNames: FieldMap)
    requires key != "" && key[0] != ' '
    ensures WhereSql(Prefixed(Conditions([key]), ""), fieldNames) ==
              WhereSql(Prefixed(Conditions([key]), " AND "), fieldNames)
  {
    var c := key + " = ?";
    ConditionsSnoc([], key);
    assert [] + [key] == [key];
    PrefixedSnoc([], c, "");
    PrefixedSnoc([], c, " AND ");
    assert [] + [c] == [c];
    assert c[0] == key[0];
    NoCombinator(c);
    var w := " AND " + c;
    assert w[..5] == " AND ";
    assert StripCombinator(w) == c;
    assert Prefixed(Conditions([key]), "") == c;
    assert Prefixed(Conditions([key]), " AND ") == w;
    assert WhereSql(c, fieldNames) == " WHERE " + Strtr(c, fieldNames.vals);
    assert WhereSql(w, fieldNames) == " WHERE " + Strtr(c, fieldNames.vals);
  }

  // ---------------------------------------------------------------------------
  // The object operations

  /**
   * `deleteOne($object)`: a DELETE of the object's class filtered by
   * `key = ?` for every primary key, joined with `andWhere`.
   */
  method DeleteOne<O>(p: Parser<O>, obj: O) returns (stmt: Statement, where: string, args: seq<Value>)
    ensures var keys := p.meta.primaryKeys(p.relativeClassName(obj));
            && stmt == DeleteStmt(One(p.relativeClassName(obj)))
            && where == Prefixed(Conditions(keys), " AND ")
            && args == KeyArgs(p, obj, keys)
  {
    var className := p.relativeClassName(obj);
    var keys := p.meta.primaryKeys(className);
    stmt := DeleteFrom(One(className));
    var q := new Query(p.meta);
    var w := new WhereClause(q);
    for i := 0 to |keys|
      invariant w.query == q
      invariant w.where == Prefixed(Conditions(keys[..i]), " AND ")
      invariant q.args == KeyArgs(p, obj, keys[..i])
    {
      ConditionsStep(keys, i);
      PrefixedSnoc(Conditions(keys[..i]), keys[i] + " = ?", " AND ");
      KeyArgsStep(p, obj, keys, i);
      w.AndWhere(keys[i] + " = ?", p.getAttributeValue(obj, keys[i]));
    }
    assert keys[..|keys|] == keys;
    where := w.where;
    args := q.args;
  }

  /** Writes `vals[i]` into attribute `attrs[i]` of the object, in order. */
  method WriteAll<O>(p: Parser<O>, obj: O, attrs: seq<string>, vals: seq<Value>) returns (o: O)
    requires |attrs| == |vals|
    ensures o == SetAll(p, obj, attrs, vals)
  {
    o := obj;
    for j := 0 to |attrs|
      invariant o == SetAll(p, obj, attrs[..j], vals[..j])
    {
      SetAllStep(p, obj, attrs, vals, j);
      o := p.setAttributeValue(o, attrs[j], vals[j]);
    }
    assert attrs[..|attrs|] == attrs && vals[..|vals|] == vals;
  }

  /**
   * `insertOne($object)`: an INSERT of every non-auto-increment attribute
   * with one VALUES row of their values; afterwards each auto-increment
   * attribute is written the identifier generated for its field.
   */
  method InsertOne<O>(p: Parser<O>, obj: O, lastInsertId: string -> Value)
    returns (stmt: Statement, values: string, args: seq<Value>, written: O)
    ensures var className := p.relativeClassName(obj);
            var auto := p.meta.autoIncrement(className);
            var attrs := InsertedAttributes(p.meta.allFields(className), auto);
            && stmt == InsertStmt(className, attrs)
            && values == Tuple(Parts(AttrValues(p, obj, attrs))) + ", "
            && args == RowArgs(AttrValues(p, obj, attrs))
            && written == SetAll(p, obj, ValuesOf(auto), AutoIds(auto, lastInsertId))
  {
    var className := p.relativeClassName(obj);
    var fields := p.meta.allFields(className);
    var auto := p.meta.autoIncrement(className);
    var attributes: seq<string> := [];
    var rowValues: seq<Value> := [];
    for i := 0 to |fields.keys|
      invariant attributes == Without(fields.keys[..i], auto.vals.Values)
      invariant rowValues == AttrValues(p, obj, attributes)
    {
      var attribute := fields.keys[i];
      var value := p.getAttributeValue(obj, attribute);
      WithoutStep(fields.keys, auto.vals.Values, i);
      if attribute !in auto.vals.Values {
        attributes := attributes + [attribute];
        rowValues := rowValues + [value];
      }
    }
    assert fields.keys[..|fields.keys|] == fields.keys;
    stmt := InsertInto(className, List(attributes));
    var q := new Query(p.meta);
    var vc := new ValuesClause(q);
    vc.Values(Arr(rowValues));
    values := vc.values;
    args := q.args;
    written := WriteAll(p, obj, ValuesOf(auto), AutoIds(auto, lastInsertId));
  }

  /**
   * `selectOne($object)`: a SELECT from the object's class filtered by
   * `lcfirst(key) = ?` for every primary key, each added with `where`; with
   * no matching row (`None`) it fails, else every column of the row is
   * written into the object.
   */
  method SelectOne<O>(p: Parser<O>, obj: O, result: Option<OrdMap<string, Value>>)
    returns (stmt: Statement, from: seq<string>, where: string, args: seq<Value>, selected: Option<O>)
    ensures var className := p.relativeClassName(obj);
            var keys := p.meta.primaryKeys(className);
            && stmt == SelectStmt([])
            && from == [className]
            && where == Prefixed(Conditions(LcFirsts(keys)), "")
            && args == KeyArgs(p, obj, keys)
            && (result.None? ==> selected.None?)
            && (result.Some? ==> selected == Some(SetAll(p, obj, result.value.keys, ValuesOf(result.value))))
  {
    var className := p.relativeClassName(obj);
    stmt := Select();
    var q := new Query(p.meta);
    var fc := new FromClause(q);
    fc.From(One(className));
    from := fc.from;
    var keys := p.meta.primaryKeys(className);
    var names := LcFirsts(keys);
    var w := new WhereClause(q);
    for i := 0 to |keys|
      invariant w.query == q
      invariant w.where == Prefixed(Conditions(names[..i]), "")
      invariant q.args == KeyArgs(p, obj, keys[..i])
    {
      WhereStep(p, obj, names, keys, i);
      w.Where(names[i] + " = ?", p.getAttributeValue(obj, keys[i]));
    }
    assert keys[..|keys|] == keys && names[..|names|] == names;
    where := w.where;
    args := q.args;
    match result {
      case None =>
        selected := None;
      case Some(row) =>
        var o := WriteAll(p, obj, row.keys, ValuesOf(row));
        selected := Some(o);
    }
  }

  /** The first loop of `updateOne`: `set(attribute, value)` for each non-key attribute. */
  method SetNonKeys<O>(sc: SetClause, p: Parser<O>, obj: O, attributes: seq<string>, primaryKeys: seq<string>)
    requires sc.setList == ""
    modifies sc, sc.query
    ensures sc.setList == Terminated(Assignments(Without(attributes, SetOf(primaryKeys))), ", ")
    ensures sc.query.args == old(sc.query.args) + SetArgs(p, obj, Without(attributes, SetOf(primaryKeys)))
  {
    ghost var keys := SetOf(primaryKeys);
    for i := 0 to |attributes|
      invariant sc.setList == Terminated(Assignments(Without(attributes[..i], keys)), ", ")
      invariant sc.query.args == old(sc.query.args) + SetArgs(p, obj, Without(attributes[..i], keys))
    {
      var attribute := attributes[i];
      WithoutStep(attributes, keys, i);
      assert attribute in keys <==> attribute in primaryKeys;
      if attribute !in primaryKeys {
        var value := p.getAttributeValue(obj, attribute);
        ghost var before := Without(attributes[..i], keys);
        AssignmentsSnoc(before, attribute);
        TerminatedSnoc(Assignments(before), Assignment(attribute, "?"), ", ");
        SetArgsSnoc(p, obj, before, attribute);
        SeqAssoc(old(sc.query.args), SetArgs(p, obj, before), Flatten(value));
        sc.Set(attribute, value);
        assert sc.setList == Terminated(Assignments(before + [attribute]), ", ");
        assert Without(attributes[..i + 1], keys) == before + [attribute];
      } else {
        assert Without(attributes[..i + 1], keys) == Without(attributes[..i], keys);
      }
    }
    assert attributes[..|attributes|] == attributes;
  }

  /** The second loop of `updateOne`: `where(attribute = ?, value)` for each key attribute. */
  method WhereKeys<O>(w: WhereClause, p: Parser<O>, obj: O, attributes: seq<string>, primaryKeys: seq<string>)
    requires w.where == ""
    modifies w, w.query
    ensures w.where == Prefixed(Conditions(Within(attributes, SetOf(primaryKeys))), "")
    ensures w.query.args == old(w.query.args) + KeyArgs(p, obj, Within(attributes, SetOf(primaryKeys)))
  {
    ghost var keys := SetOf(primaryKeys);
    ghost var args0 := w.query.args;
    for i := 0 to |attributes|
      invariant w.where == Prefixed(Conditions(Within(attributes[..i], keys)), "")
      invariant w.query.args == args0 + KeyArgs(p, obj, Within(attributes[..i], keys))
    {
      var attribute := attributes[i];
      WithinStep(attributes, keys, i);
      assert attribute in keys <==> attribute in primaryKeys;
      if attribute in primaryKeys {
        var value := p.getAttributeValue(obj, attribute);
        ghost var before := Within(attributes[..i], keys);
        assert Within(attributes[..i + 1], keys) == before + [attribute];
        ConditionsSnoc(before, attribute);
        PlainSnoc(Conditions(before), attribute + " = ?");
        assert Prefixed(Conditions(before + [attribute]), "") == w.where + (attribute + " = ?");
        KeyArgsSnoc(p, obj, before, attribute);
        SeqAssoc(args0, KeyArgs(p, obj, before), Bound(value));
        assert args0 + KeyArgs(p, obj, before + [attribute]) == w.query.args + Bound(value);
        w.Where(attribute + " = ?", value);
      } else {
        assert Within(attributes[..i + 1], keys) == Within(attributes[..i], keys);
      }
    }
    assert attributes[..|attributes|] == attributes;
  }

  /**
   * `updateOne($object)`: an UPDATE of the object's class that sets every
   * non-key attribute to its value, then filters by `key = ?` for every key
   * attribute, each added with `where`; both in field order.
   */
  method UpdateOne<O>(p: Parser<O>, obj: O)
    returns (stmt: Statement, assignments: string, where: string, args: seq<Value>)
    ensures var className := p.relativeClassName(obj);
            var fields := p.meta.allFields(className);
            var keys := SetOf(p.meta.primaryKeys(className));
            && stmt == UpdateStmt([className])
            && assignments == Terminated(Assignments(Without(fields.keys, keys)), ", ")
            && where == Prefixed(Conditions(Within(fields.keys, keys)), "")
            && args == SetArgs(p, obj, Without(fields.keys, keys)) + KeyArgs(p, obj, Within(fields.keys, keys))
  {
    var className := p.relativeClassName(obj);
    var primaryKeys := p.meta.primaryKeys(className);
    var fields := p.meta.allFields(className);
    ghost var keys := SetOf(primaryKeys);
    stmt := Update(One(className));
    var q := new Query(p.meta);
    var sc := new SetClause(q);
    SetNonKeys(sc, p, obj, fields.keys, primaryKeys);
    assignments := sc.setList;
    ghost var setArgs := SetArgs(p, obj, Without(fields.keys, keys));
    assert q.args == [] + setArgs;
    assert q.args == setArgs;
    var w := new WhereClause(q);
    WhereKeys(w, p, obj, fields.keys, primaryKeys);
    where := w.where;
    args := q.args;
    assert args == setArgs + KeyArgs(p, obj, Within(fields.keys, keys));
  }
}

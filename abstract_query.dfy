/**
 * The state every query shares and the field translator: the positional
 * argument list, the registered classes and the attribute→column table that
 * `addClass` fills and `getFieldName` (PHP `strtr`) reads.
 */
module AbstractQuery {
  import opened PhpStrings
  import opened PhpStrtr
  import opened OrderedMap
  import opened QueryData
  import opened ObjectParser

  /** `$classes`: class name => the whole of `$fieldNames` as it stood when that class was added. */
  type ClassMap = OrdMap<string, FieldMap>

  /** The translation state of a query: `$fieldNames` and `$classes`. */
  datatype Registry = Registry(fieldNames: FieldMap, classes: ClassMap)

  /** The class name in "Class" or "Class AS alias": the text before the first " AS ". */
  function ClassPart(cls: string): string {
    Explode(" AS ", cls)[0]
  }

  /** The alias of "Class AS alias"; only a text with exactly one " AS " has one. */
  function AliasPart(cls: string): Option<string> {
    var parts := Explode(" AS ", cls);
    if |parts| == 2 then Some(parts[1]) else None
  }

  /** The alias `addClass` qualifies attributes with: the given alias, else the class name. */
  function AliasOf(cls: string): string {
    AliasPart(cls).GetOr(ClassPart(cls))
  }

  /** The table reference `addClass` returns: the class's table, followed by " AS alias" when aliased. */
  function TableRef(meta: Metadata, cls: string): string {
    var table := meta.table(ClassPart(cls));
    match AliasPart(cls)
    case Some(alias) => table + " AS " + alias
    case None => table
  }

  /**
   * `$fieldNames` after the registration loop has visited `attrs`: each
   * attribute maps to its bare field, and `aliasDot + attribute` to
   * `tableDot + field`.
   */
  function RegisterFields(fn: FieldMap, attrs: seq<string>, fields: map<string, string>,
                          aliasDot: string, tableDot: string): FieldMap
    requires forall a :: a in attrs ==> a in fields
    decreases |attrs|
  {
    if attrs == [] then fn
    else
      var a := attrs[|attrs| - 1];
      var before := RegisterFields(fn, attrs[..|attrs| - 1], fields, aliasDot, tableDot);
      Put(Put(before, a, fields[a]), aliasDot + a, tableDot + fields[a])
  }

  /** One more attribute of `fields` visited by the registration loop. */
  lemma RegisterFieldsStep(fn: FieldMap, fields: FieldMap, aliasDot: string, tableDot: string, i: nat)
    requires i < |fields.keys|
    ensures var a := fields.keys[i];
            RegisterFields(fn, fields.keys[..i + 1], fields.vals, aliasDot, tableDot)
              == Put(Put(RegisterFields(fn, fields.keys[..i], fields.vals, aliasDot, tableDot), a, fields.vals[a]),
                     aliasDot + a, tableDot + fields.vals[a])
  {
    assert fields.keys[..i + 1][..i] == fields.keys[..i];
  }

  /** The translation state after `addClass(cls)`. */
  function Register(r: Registry, meta: Metadata, cls: string): Registry {
    var c := ClassPart(cls);
    var f := meta.allFields(c);
    var fn := RegisterFields(r.fieldNames, f.keys, f.vals, AliasOf(cls) + ".", meta.table(c) + ".");
    Registry(fn, Put(r.classes, c, fn))
  }

  /** The translation state after `addClass` on each of `classNames` in turn. */
  function RegisterAll(r: Registry, meta: Metadata, classNames: seq<string>): Registry
    decreases |classNames|
  {
    if classNames == [] then r
    else Register(RegisterAll(r, meta, classNames[..|classNames| - 1]), meta, classNames[|classNames| - 1])
  }

  lemma RegisterAllSnoc(r: Registry, meta: Metadata, names: seq<string>, c: string)
    ensures RegisterAll(r, meta, names + [c]) == Register(RegisterAll(r, meta, names), meta, c)
  {
    assert (names + [c])[..|names|] == names;
  }

  /** The table references `addClass` returns for each of `classNames`. */
  function TableRefs(meta: Metadata, classNames: seq<string>): (r: seq<string>)
    ensures |r| == |classNames|
    ensures forall i :: 0 <= i < |r| ==> r[i] == TableRef(meta, classNames[i])
  {
    seq(|classNames|, i requires 0 <= i < |classNames| => TableRef(meta, classNames[i]))
  }

  /** No attribute of `attrs` is itself `aliasDot` followed by an attribute of `attrs`. */
  predicate NoQualifiedClash(attrs: seq<string>, aliasDot: string) {
    forall x, y :: x in attrs && y in attrs ==> x != aliasDot + y
  }

  predicate Distinct(attrs: seq<string>) {
    forall i, j :: 0 <= i < j < |attrs| ==> attrs[i] != attrs[j]
  }

  /** Registration keeps every key and adds each attribute and its qualified form. */
  lemma {:induction false} RegisterFieldsKeys(fn: FieldMap, attrs: seq<string>, fields: map<string, string>,
                                              aliasDot: string, tableDot: string)
    requires forall a :: a in attrs ==> a in fields
    ensures forall k :: k in fn.vals ==> k in RegisterFields(fn, attrs, fields, aliasDot, tableDot).vals
    ensures forall a :: a in attrs ==>
      a in RegisterFields(fn, attrs, fields, aliasDot, tableDot).vals &&
      aliasDot + a in RegisterFields(fn, attrs, fields, aliasDot, tableDot).vals
    decreases |attrs|
  {
    if attrs != [] {
      RegisterFieldsKeys(fn, attrs[..|attrs| - 1], fields, aliasDot, tableDot);
      assert forall a :: a in attrs ==> a in attrs[..|attrs| - 1] || a == attrs[|attrs| - 1];
    }
  }

  lemma PrefixCancel(p: string, a: string, b: string)
    ensures p + a == p + b ==> a == b
  {
    if p + a == p + b {
      assert a == (p + a)[|p|..];
      assert b == (p + b)[|p|..];
    }
  }

  /**
   * After registration every attribute maps to its field and every qualified
   * attribute to the table-qualified field (when no attribute already looks
   * qualified by the alias).
   */
  lemma {:induction false} RegisterFieldsLookup(fn: FieldMap, attrs: seq<string>, fields: map<string, string>,
                                                aliasDot: string, tableDot: string)
    requires forall a :: a in attrs ==> a in fields
    requires Distinct(attrs) && NoQualifiedClash(attrs, aliasDot)
    ensures forall a :: a in attrs ==>
      && a in RegisterFields(fn, attrs, fields, aliasDot, tableDot).vals
      && aliasDot + a in RegisterFields(fn, attrs, fields, aliasDot, tableDot).vals
      && RegisterFields(fn, attrs, fields, aliasDot, tableDot).vals[a] == fields[a]
      && RegisterFields(fn, attrs, fields, aliasDot, tableDot).vals[aliasDot + a] == tableDot + fields[a]
    decreases |attrs|
  {
    if attrs != [] {
      var init := attrs[..|attrs| - 1];
      var last := attrs[|attrs| - 1];
      DistinctLast(attrs);
      assert NoQualifiedClash(init, aliasDot) by {
        forall x, y | x in init && y in init ensures x != aliasDot + y {
          assert x in attrs && y in attrs;
        }
      }
      RegisterFieldsLookup(fn, init, fields, aliasDot, tableDot);
      RegisterFieldsKeys(fn, init, fields, aliasDot, tableDot);
      var b := RegisterFields(fn, init, fields, aliasDot, tableDot);
      var b2 := Put(Put(b, last, fields[last]), aliasDot + last, tableDot + fields[last]);
      assert RegisterFields(fn, attrs, fields, aliasDot, tableDot) == b2;
      assert last in attrs;
      forall a | a in attrs
        ensures b2.vals[a] == fields[a] && b2.vals[aliasDot + a] == tableDot + fields[a]
      {
        if a != last {
          assert a in init;
          assert aliasDot + a != last && a != aliasDot + last;
          PrefixCancel(aliasDot, a, last);
          LookupPastTwoPuts(b, last, fields[last], aliasDot + last, tableDot + fields[last], a);
          LookupPastTwoPuts(b, last, fields[last], aliasDot + last, tableDot + fields[last], aliasDot + a);
        }
      }
    }
  }

  lemma LookupPastTwoPuts(m: FieldMap, k1: string, v1: string, k2: string, v2: string, x: string)
    requires x in m.vals && x != k1 && x != k2
    ensures Put(Put(m, k1, v1), k2, v2).vals[x] == m.vals[x]
  {
  }

  /** The last element of a duplicate-free sequence occurs nowhere before it. */
  lemma DistinctLast(attrs: seq<string>)
    requires attrs != [] && Distinct(attrs)
    ensures attrs == attrs[..|attrs| - 1] + [attrs[|attrs| - 1]]
    ensures forall a :: a in attrs[..|attrs| - 1] ==> a in attrs && a != attrs[|attrs| - 1]
  {
    forall a | a in attrs[..|attrs| - 1] ensures a in attrs && a != attrs[|attrs| - 1] {
      var i :| 0 <= i < |attrs| - 1 && attrs[..|attrs| - 1][i] == a;
      assert attrs[i] == a;
    }
  }

  /** Registration touches only the attributes and their qualified forms. */
  lemma {:induction false} RegisterFieldsFrame(fn: FieldMap, attrs: seq<string>, fields: map<string, string>,
                                               aliasDot: string, tableDot: string, k: string)
    requires forall a :: a in attrs ==> a in fields
    requires k !in attrs && forall a :: a in attrs ==> k != aliasDot + a
    ensures k in RegisterFields(fn, attrs, fields, aliasDot, tableDot).vals <==> k in fn.vals
    ensures k in fn.vals ==> RegisterFields(fn, attrs, fields, aliasDot, tableDot).vals[k] == fn.vals[k]
    decreases |attrs|
  {
    if attrs != [] {
      RegisterFieldsFrame(fn, attrs[..|attrs| - 1], fields, aliasDot, tableDot, k);
    }
  }

  /** Registration never reorders the entries already present; it only appends. */
  lemma {:induction false} RegisterFieldsKeepsOrder(fn: FieldMap, attrs: seq<string>, fields: map<string, string>,
                                                    aliasDot: string, tableDot: string)
    requires forall a :: a in attrs ==> a in fields
    ensures |fn.keys| <= |RegisterFields(fn, attrs, fields, aliasDot, tableDot).keys|
    ensures RegisterFields(fn, attrs, fields, aliasDot, tableDot).keys[..|fn.keys|] == fn.keys
    decreases |attrs|
  {
    if attrs != [] {
      var init := attrs[..|attrs| - 1];
      var last := attrs[|attrs| - 1];
      RegisterFieldsKeepsOrder(fn, init, fields, aliasDot, tableDot);
      var b := RegisterFields(fn, init, fields, aliasDot, tableDot);
      var b1 := Put(b, last, fields[last]);
      var b2 := Put(b1, aliasDot + last, tableDot + fields[last]);
      assert RegisterFields(fn, attrs, fields, aliasDot, tableDot) == b2;
      PutKeepsOrder(b, last, fields[last]);
      PutKeepsOrder(b1, aliasDot + last, tableDot + fields[last]);
      PrefixTrans(fn.keys, b.keys, b1.keys);
      PrefixTrans(fn.keys, b1.keys, b2.keys);
    }
  }

  /**
   * `addClass(cls)` for a class whose attributes do not already look qualified
   * by its alias: each attribute maps to its field and `alias.attribute` to
   * `table.field` (the table, never the alias, qualifies the column), and the
   * class's snapshot is the whole table as it now stands.
   */
  lemma RegisterLookup(r: Registry, meta: Metadata, cls: string)
    requires NoQualifiedClash(meta.allFields(ClassPart(cls)).keys, AliasOf(cls) + ".")
    ensures var f := meta.allFields(ClassPart(cls));
            var r' := Register(r, meta, cls);
            forall a :: a in f.keys ==>
              && a in r'.fieldNames.vals && AliasOf(cls) + "." + a in r'.fieldNames.vals
              && r'.fieldNames.vals[a] == f.vals[a]
              && r'.fieldNames.vals[AliasOf(cls) + "." + a] == meta.table(ClassPart(cls)) + "." + f.vals[a]
    ensures Register(r, meta, cls).classes.vals[ClassPart(cls)] == Register(r, meta, cls).fieldNames
  {
    var f := meta.allFields(ClassPart(cls));
    RegisterFieldsLookup(r.fieldNames, f.keys, f.vals, AliasOf(cls) + ".", meta.table(ClassPart(cls)) + ".");
  }

  /** `addClass(cls)` leaves every key other than the class's attributes and their qualified forms alone. */
  lemma RegisterFrame(r: Registry, meta: Metadata, cls: string, k: string)
    requires k !in meta.allFields(ClassPart(cls)).keys
    requires forall a :: a in meta.allFields(ClassPart(cls)).keys ==> k != AliasOf(cls) + "." + a
    ensures k in Register(r, meta, cls).fieldNames.vals <==> k in r.fieldNames.vals
    ensures k in r.fieldNames.vals ==> Register(r, meta, cls).fieldNames.vals[k] == r.fieldNames.vals[k]
  {
    var f := meta.allFields(ClassPart(cls));
    RegisterFieldsFrame(r.fieldNames, f.keys, f.vals, AliasOf(cls) + ".", meta.table(ClassPart(cls)) + ".", k);
  }

  /** `addClass(cls)` only appends to the translation table and to the class list. */
  lemma RegisterKeepsOrder(r: Registry, meta: Metadata, cls: string)
    ensures |r.fieldNames.keys| <= |Register(r, meta, cls).fieldNames.keys|
    ensures Register(r, meta, cls).fieldNames.keys[..|r.fieldNames.keys|] == r.fieldNames.keys
    ensures |r.classes.keys| <= |Register(r, meta, cls).classes.keys|
    ensures Register(r, meta, cls).classes.keys[..|r.classes.keys|] == r.classes.keys
  {
    var f := meta.allFields(ClassPart(cls));
    RegisterFieldsKeepsOrder(r.fieldNames, f.keys, f.vals, AliasOf(cls) + ".", meta.table(ClassPart(cls)) + ".");
    PutKeepsOrder(r.classes, ClassPart(cls), Register(r, meta, cls).fieldNames);
  }

  /** `addClass("C")` with no " AS " returns the table of C. */
  lemma TableRefPlain(meta: Metadata, c: string)
    requires Find(" AS ", c).None?
    ensures TableRef(meta, c) == meta.table(c)
    ensures ClassPart(c) == c && AliasPart(c) == None
  {
  }

  /** `addClass("C AS a")` with exactly one " AS " returns the table of C followed by " AS a". */
  lemma TableRefAliased(meta: Metadata, c: string, a: string)
    requires forall i: nat :: OccursAt(" AS ", c + " AS " + a, i) ==> i == |c|
    ensures TableRef(meta, c + " AS " + a) == meta.table(c) + " AS " + a
    ensures ClassPart(c + " AS " + a) == c && AliasPart(c + " AS " + a) == Some(a)
  {
    var s := c + " AS " + a;
    assert s[|c|..|c| + 4] == " AS ";
    ExplodeOnce(" AS ", s, |c|);
    assert s[..|c|] == c && s[|c| + 4..] == a;
  }

  /** The entry the wildcard expansion emits for one attribute: `field AS "attr"`. */
  function AsAttr(field: string, attr: string): string {
    field + " AS \"" + attr + "\""
  }

  /**
   * Whether the wildcard expansion keeps key `attr` of class `className`'s
   * snapshot: with one registered class, the keys that do not contain
   * "className." (case-insensitively); with several, the keys that do.
   */
  predicate KeepInWildcard(attr: string, className: string, classesNb: nat) {
    var qualified := ContainsCI(attr, className + ".");
    (!qualified && classesNb == 1) || (qualified && classesNb > 1)
  }

  /** The kept entries among the first `n` keys of one snapshot. */
  function KeptEntries(className: string, fields: FieldMap, classesNb: nat, n: nat): seq<string>
    requires n <= |fields.keys|
  {
    if n == 0 then []
    else
      var attr := fields.keys[n - 1];
      KeptEntries(className, fields, classesNb, n - 1)
        + (if KeepInWildcard(attr, className, classesNb) then [AsAttr(fields.vals[attr], attr)] else [])
  }

  /** The entries of the wildcard expansion over the first `n` registered classes. */
  function WildcardEntries(classes: ClassMap, n: nat): seq<string>
    requires n <= |classes.keys|
  {
    if n == 0 then []
    else
      var c := classes.keys[n - 1];
      var f := classes.vals[c];
      WildcardEntries(classes, n - 1) + KeptEntries(c, f, |classes.keys|, |f.keys|)
  }

  /** The outer step of the wildcard loop: class `i` contributes its kept entries. */
  lemma WildcardNext(classes: ClassMap, i: nat)
    requires i < |classes.keys|
    ensures var c := classes.keys[i];
            var f := classes.vals[c];
            && WildcardEntries(classes, i) + KeptEntries(c, f, |classes.keys|, 0) == WildcardEntries(classes, i)
            && WildcardEntries(classes, i + 1) == WildcardEntries(classes, i) + KeptEntries(c, f, |classes.keys|, |f.keys|)
  {
    assert WildcardEntries(classes, i) + [] == WildcardEntries(classes, i);
  }

  /** One step of the wildcard loop: a kept key adds its entry and ", " to the accumulation. */
  lemma KeptStep(prefix: seq<string>, className: string, fields: FieldMap, classesNb: nat, j: nat)
    requires j < |fields.keys|
    requires KeepInWildcard(fields.keys[j], className, classesNb)
    ensures var attr := fields.keys[j];
            Terminated(prefix + KeptEntries(className, fields, classesNb, j + 1), ", ")
              == Terminated(prefix + KeptEntries(className, fields, classesNb, j), ", ") + (AsAttr(fields.vals[attr], attr) + ", ")
  {
    var attr := fields.keys[j];
    var before := prefix + KeptEntries(className, fields, classesNb, j);
    var x := AsAttr(fields.vals[attr], attr);
    assert prefix + KeptEntries(className, fields, classesNb, j + 1) == before + [x];
    assert (before + [x])[..|before|] == before;
  }

  /** A key left out of the expansion adds nothing. */
  lemma SkippedStep(prefix: seq<string>, className: string, fields: FieldMap, classesNb: nat, j: nat)
    requires j < |fields.keys|
    requires !KeepInWildcard(fields.keys[j], className, classesNb)
    ensures Terminated(prefix + KeptEntries(className, fields, classesNb, j + 1), ", ")
              == Terminated(prefix + KeptEntries(className, fields, classesNb, j), ", ")
  {
    var before := KeptEntries(className, fields, classesNb, j);
    assert KeptEntries(className, fields, classesNb, j + 1) == before + [];
    assert before + [] == before;
  }

  /** What a `*` stands for: the kept entries of every registered class, joined by ", ". */
  function Expansion(classes: ClassMap): string {
    Join(", ", WildcardEntries(classes, |classes.keys|))
  }

  /** The column expression `addAttribute(attribute)` returns in translation state `r`. */
  function AttributeSql(r: Registry, attribute: string): string {
    var parts := Explode(" AS ", attribute);
    var name := parts[0];
    var resolved := Strtr(name, r.fieldNames.vals);
    if |parts| == 2 then resolved + " AS \"" + parts[1] + "\""
    else if name in r.fieldNames.vals then resolved + " AS \"" + name + "\""
    else if '*' in name then ReplaceChar(name, '*', Expansion(r.classes))
    else resolved
  }

  /** `addAttribute("e AS a")` with exactly one " AS ": the resolved expression, aliased as "a". */
  lemma AttributeAliased(r: Registry, e: string, a: string)
    requires forall i: nat :: OccursAt(" AS ", e + " AS " + a, i) ==> i == |e|
    ensures AttributeSql(r, e + " AS " + a) == Strtr(e, r.fieldNames.vals) + " AS \"" + a + "\""
  {
    var s := e + " AS " + a;
    assert s[|e|..|e| + 4] == " AS ";
    ExplodeOnce(" AS ", s, |e|);
    assert s[..|e|] == e && s[|e| + 4..] == a;
  }

  /**
   * `addAttribute(k)` for a known attribute key: exactly its mapped column,
   * labelled with the logical name so that result rows map back to it.
   */
  lemma AttributeKnownKey(r: Registry, k: string)
    requires k != "" && k in r.fieldNames.vals
    requires Find(" AS ", k).None?
    ensures AttributeSql(r, k) == r.fieldNames.vals[k] + " AS \"" + k + "\""
  {
    StrtrKey(k, r.fieldNames.vals);
  }

  /** A bare `*` becomes the whole expansion. */
  lemma AttributeStar(r: Registry)
    requires "*" !in r.fieldNames.vals
    ensures AttributeSql(r, "*") == Expansion(r.classes)
  {
    assert Find(" AS ", "*").None?;
    ReplaceCharSingle("", '*', "", Expansion(r.classes));
  }

  /**
   * The wildcard loop of `addAttribute`: for each registered class, the kept
   * keys of its snapshot as `field AS "attribute"`, accumulated with a
   * trailing ", " that is cut off at the end.
   */
  method ExpandWildcard(classes: ClassMap) returns (expansion: string)
    ensures expansion == Expansion(classes)
  {
    var acc := "";
    var classesNb := |classes.keys|;
    for i := 0 to classesNb
      invariant acc == Terminated(WildcardEntries(classes, i), ", ")
    {
      var className := classes.keys[i];
      var fields := classes.vals[className];
      WildcardNext(classes, i);
      ghost var prefix := WildcardEntries(classes, i);
      for j := 0 to |fields.keys|
        invariant acc == Terminated(prefix + KeptEntries(className, fields, classesNb, j), ", ")
      {
        var attr := fields.keys[j];
        var field := fields.vals[attr];
        if KeepInWildcard(attr, className, classesNb) {
          KeptStep(prefix, className, fields, classesNb, j);
          acc := acc + (AsAttr(field, attr) + ", ");
        } else {
          SkippedStep(prefix, className, fields, classesNb, j);
        }
      }
    }
    TrimmedAccumulation(WildcardEntries(classes, classesNb));
    expansion := DropLast2(acc);
  }

  /** The wildcard entries of a class whose keys are exactly its own attributes: `field AS "attr"` for each, in order. */
  function PlainEntries(attrs: seq<string>, fields: map<string, string>): (r: seq<string>)
    requires forall a :: a in attrs ==> a in fields
    ensures |r| == |attrs|
    decreases |attrs|
  {
    if attrs == [] then []
    else
      var a := attrs[|attrs| - 1];
      PlainEntries(attrs[..|attrs| - 1], fields) + [AsAttr(fields[a], a)]
  }

  /** The kept entries among the first `n` keys depend only on those keys and their values. */
  lemma {:induction false} KeptEntriesExtend(className: string, f: FieldMap, g: FieldMap, classesNb: nat, n: nat)
    requires n <= |f.keys| <= |g.keys|
    requires g.keys[..|f.keys|] == f.keys
    requires forall k :: k in f.vals ==> k in g.vals && g.vals[k] == f.vals[k]
    ensures KeptEntries(className, g, classesNb, n) == KeptEntries(className, f, classesNb, n)
    decreases n
  {
    if n > 0 {
      KeptEntriesExtend(className, f, g, classesNb, n - 1);
      assert g.keys[n - 1] == g.keys[..|f.keys|][n - 1];
    }
  }

  /** A qualified name `c.a` is found by the wildcard's case-insensitive test for "c.". */
  lemma QualifiedIsFound(c: string, a: string)
    ensures ContainsCI(c + "." + a, c + ".")
  {
    ContainsCIAt(c + "." + a, c + ".", 0);
  }

  /** Appending `a` then `c.a` to a table: the one-class wildcard keeps `a` and skips `c.a`. */
  lemma KeptTwoMore(c: string, before: FieldMap, a: string, v: string, w: string)
    requires a !in before.vals && c + "." + a !in before.vals
    requires !ContainsCI(a, c + ".")
    ensures var t := Put(Put(before, a, v), c + "." + a, w);
            && |t.keys| == |before.keys| + 2
            && KeptEntries(c, t, 1, |t.keys|) == KeptEntries(c, before, 1, |before.keys|) + [AsAttr(v, a)]
  {
    var q := c + "." + a;
    QualifiedIsFound(c, a);
    assert q != a;
    var t1 := Put(before, a, v);
    var t := Put(t1, q, w);
    var m := |before.keys|;
    assert t1.keys == before.keys + [a];
    assert t.keys == t1.keys + [q];
    assert t.keys[m + 1] == q && t.keys[m] == a;
    assert !KeepInWildcard(q, c, 1);
    assert KeptEntries(c, t, 1, m + 2) == KeptEntries(c, t, 1, m + 1);
    assert t.vals[a] == v;
    assert KeepInWildcard(a, c, 1);
    assert KeptEntries(c, t, 1, m + 1) == KeptEntries(c, t, 1, m) + [AsAttr(v, a)];
    assert t.keys[..m] == before.keys;
    KeptEntriesExtend(c, before, t, 1, m);
  }

  /** Neither `a` nor `c.a` is in a fresh table that registered only other, unqualified attributes. */
  lemma FreshKeys(init: seq<string>, fields: map<string, string>, c: string, tableDot: string, a: string)
    requires forall x :: x in init ==> x in fields
    requires a !in init
    requires !ContainsCI(a, c + ".")
    requires forall x :: x in init ==> !ContainsCI(x, c + ".")
    ensures a !in RegisterFields(Empty(), init, fields, c + ".", tableDot).vals
    ensures c + "." + a !in RegisterFields(Empty(), init, fields, c + ".", tableDot).vals
  {
    var d := c + ".";
    QualifiedIsFound(c, a);
    forall b | b in init ensures a != d + b && d + a != d + b && d + a != b {
      QualifiedIsFound(c, b);
      PrefixCancel(d, a, b);
    }
    RegisterFieldsFrame(Empty(), init, fields, d, tableDot, a);
    RegisterFieldsFrame(Empty(), init, fields, d, tableDot, d + a);
  }

  /**
   * Registering a class `c` in a fresh table, when none of its attributes
   * looks qualified by "c.": the one-class wildcard keeps exactly the bare
   * attributes, in order.
   */
  lemma {:induction false} FreshRegisterKept(attrs: seq<string>, fields: map<string, string>, c: string, tableDot: string)
    requires forall a :: a in attrs ==> a in fields
    requires Distinct(attrs)
    requires forall a :: a in attrs ==> !ContainsCI(a, c + ".")
    ensures var t := RegisterFields(Empty(), attrs, fields, c + ".", tableDot);
            KeptEntries(c, t, 1, |t.keys|) == PlainEntries(attrs, fields)
    decreases |attrs|
  {
    if attrs != [] {
      var init := attrs[..|attrs| - 1];
      var a := attrs[|attrs| - 1];
      assert forall x :: x in init ==> x in attrs;
      assert a !in init;
      FreshRegisterKept(init, fields, c, tableDot);
      FreshKeys(init, fields, c, tableDot, a);
      var before := RegisterFields(Empty(), init, fields, c + ".", tableDot);
      KeptTwoMore(c, before, a, fields[a], tableDot + fields[a]);
    }
  }

  /**
   * `addAttribute("*")` on a query with one class `C` registered: the
   * expansion lists each attribute of C once, as `field AS "attr"`, in field
   * order; the qualified "C.attr" keys are left out.
   */
  lemma WildcardOneClass(meta: Metadata, cls: string)
    requires Find(" AS ", cls).None?
    requires forall a :: a in meta.allFields(cls).keys ==> !ContainsCI(a, cls + ".")
    ensures var f := meta.allFields(cls);
            Expansion(Register(Registry(Empty(), Empty()), meta, cls).classes) == Join(", ", PlainEntries(f.keys, f.vals))
  {
    TableRefPlain(meta, cls);
    assert AliasOf(cls) == cls;
    var f := meta.allFields(cls);
    var table := meta.table(cls) + ".";
    assert Distinct(f.keys);
    FreshRegisterKept(f.keys, f.vals, cls, table);
    var t := RegisterFields(Empty(), f.keys, f.vals, cls + ".", table);
    var r := Register(Registry(Empty(), Empty()), meta, cls);
    assert r.fieldNames == t;
    assert r.classes == Put(Empty(), cls, t);
    var classes := r.classes;
    assert classes.keys == [cls] && classes.vals[cls] == t;
    var entries := WildcardEntries(classes, 1);
    assert entries == WildcardEntries(classes, 0) + KeptEntries(cls, t, 1, |t.keys|);
    assert entries == PlainEntries(f.keys, f.vals);
  }

  /** `addAttribute("*")` after `addClass(cls)` alone: the attributes of the class, each once, in field order. */
  lemma StarOneClass(meta: Metadata, cls: string)
    requires Find(" AS ", cls).None?
    requires forall a :: a in meta.allFields(cls).keys ==> !ContainsCI(a, cls + ".")
    requires "*" !in meta.allFields(cls).keys
    ensures var f := meta.allFields(cls);
            AttributeSql(Register(Registry(Empty(), Empty()), meta, cls), "*") == Join(", ", PlainEntries(f.keys, f.vals))
  {
    TableRefPlain(meta, cls);
    var f := meta.allFields(cls);
    forall a | a in f.keys ensures "*" != cls + "." + a {
      assert |cls + "." + a| == 1 ==> (cls + "." + a)[|cls|] == '.';
    }
    RegisterFrame(Registry(Empty(), Empty()), meta, cls, "*");
    AttributeStar(Register(Registry(Empty(), Empty()), meta, cls));
    WildcardOneClass(meta, cls);
  }

  /**
   * Each `addArgument` extends the bracketed list of `__toString`: the texts
   * of the new arguments follow the old ones after one ", ".
   */
  lemma ArgListGrows(args: seq<Value>, v: Value)
    requires args != [] && Flatten(v) != []
    ensures Join(", ", ArgTexts(args + Flatten(v))) == Join(", ", ArgTexts(args)) + ", " + Join(", ", ArgTexts(Flatten(v)))
    ensures !v.Arr? ==> Join(", ", ArgTexts(args + Flatten(v))) == Join(", ", ArgTexts(args)) + ", " + ToText(v)
  {
    assert ArgTexts(args + Flatten(v)) == ArgTexts(args) + ArgTexts(Flatten(v));
    JoinConcat(", ", ArgTexts(args), ArgTexts(Flatten(v)));
    if !v.Arr? {
      assert ArgTexts(Flatten(v)) == [ToText(v)];
    }
  }

  /** A query's shared state: arguments, registered classes and the field translation table. */
  class Query {
    const meta: Metadata
    var args: seq<Value>
    var classes: ClassMap
    var fieldNames: FieldMap

    constructor (meta: Metadata)
      ensures this.meta == meta
      ensures args == [] && classes == Empty() && fieldNames == Empty()
    {
      this.meta := meta;
      args := [];
      classes := Empty();
      fieldNames := Empty();
    }

    function Reg(): Registry
      reads this
    {
      Registry(fieldNames, classes)
    }

    /**
     * `getFieldName($attributeName)`: strtr over the whole translation table.
     * A text in which no key occurs is returned as it is.
     */
    function FieldName(attributeName: string): (r: string)
      reads this
      ensures (forall i, j :: 0 <= i < j <= |attributeName| ==> attributeName[i..j] !in fieldNames.vals)
                ==> r == attributeName
      ensures attributeName != "" && attributeName in fieldNames.vals ==> r == fieldNames.vals[attributeName]
    {
      var r := Strtr(attributeName, fieldNames.vals);
      assert (forall i, j :: 0 <= i < j <= |attributeName| ==> attributeName[i..j] !in fieldNames.vals)
               ==> r == attributeName by {
        if forall i, j :: 0 <= i < j <= |attributeName| ==> attributeName[i..j] !in fieldNames.vals {
          StrtrUntouched(attributeName, fieldNames.vals);
        }
      }
      assert attributeName != "" && attributeName in fieldNames.vals ==> r == fieldNames.vals[attributeName] by {
        if attributeName != "" && attributeName in fieldNames.vals {
          StrtrKey(attributeName, fieldNames.vals);
        }
      }
      r
    }

    /**
     * `getFieldName($attributeName, $className)`: with a class name (PHP
     * `!= null`, so not "") the table is that class's snapshot; None stands
     * for PHP's failure when the class was never registered.
     */
    function GetFieldName(attributeName: string, className: Option<string>): (r: Option<string>)
      reads this
      ensures r.None? <==> className.Some? && className.value != "" && className.value !in classes.vals
      ensures className.None? || className.value == "" ==> r == Some(FieldName(attributeName))
      ensures className.Some? && className.value != "" && className.value in classes.vals ==>
                r == Some(Strtr(attributeName, classes.vals[className.value].vals))
      ensures (&& className.Some? && className.value != "" && className.value in classes.vals
               && forall i, j :: 0 <= i < j <= |attributeName| ==> attributeName[i..j] !in classes.vals[className.value].vals)
              ==> r == Some(attributeName)
    {
      assert (&& className.Some? && className.value != "" && className.value in classes.vals
              && forall i, j :: 0 <= i < j <= |attributeName| ==> attributeName[i..j] !in classes.vals[className.value].vals)
             ==> Strtr(attributeName, classes.vals[className.value].vals) == attributeName by {
        if className.Some? && className.value != "" && className.value in classes.vals {
          var table := classes.vals[className.value].vals;
          if forall i, j :: 0 <= i < j <= |attributeName| ==> attributeName[i..j] !in table {
            StrtrUntouched(attributeName, table);
          }
        }
      }
      if className.None? || className.value == "" then Some(FieldName(attributeName))
      else if className.value in classes.vals then Some(Strtr(attributeName, classes.vals[className.value].vals))
      else None
    }

    /** `__toString`: the generated SQL, then the arguments in brackets. */
    function ToString(generated: string): (r: string)
      reads this
      ensures r == generated + " [ " + Join(", ", ArgTexts(args)) + " ]"
      ensures StartsWith(r, generated + " [ ")
      ensures r[|r| - 2..] == " ]"
      ensures args == [] ==> r == generated + " [  ]"
    {
      generated + " [ " + Join(", ", ArgTexts(args)) + " ]"
    }

    /** `addArgument($arg)`: an array's elements are appended in order, anything else as one argument. */
    method AddArgument(arg: Value)
      modifies this
      ensures args == old(args) + Flatten(arg)
      ensures classes == old(classes) && fieldNames == old(fieldNames)
    {
      if arg.Arr? {
        for i := 0 to |arg.elems|
          invariant args == old(args) + arg.elems[..i]
          invariant classes == old(classes) && fieldNames == old(fieldNames)
        {
          args := args + [arg.elems[i]];
        }
        assert arg.elems[..|arg.elems|] == arg.elems;
      } else {
        args := args + [arg];
      }
    }

    /**
     * `addClass($class)`: returns the table reference and registers the
     * class's attributes (see RegisterEffect).
     */
    method AddClass(cls: string) returns (table: string)
      modifies this
      ensures table == TableRef(meta, cls)
      ensures Reg() == Register(old(Reg()), meta, cls)
      ensures args == old(args)
    {
      var explode := Explode(" AS ", cls);
      var className := explode[0];
      var alias: string;
      table := meta.table(className);
      if |explode| == 2 {
        alias := explode[1];
        table := table + " AS " + alias;
      } else {
        alias := className;
      }
      assert className == ClassPart(cls) && alias == AliasOf(cls);
      assert table == TableRef(meta, cls);
      var aliasTable := meta.table(className) + ".";
      var aliasClass := alias + ".";
      var fields := meta.allFields(className);
      ghost var fn0 := fieldNames;
      var fn := fieldNames;
      for i := 0 to |fields.keys|
        invariant fn == RegisterFields(fn0, fields.keys[..i], fields.vals, aliasClass, aliasTable)
        invariant fieldNames == fn0 && classes == old(classes) && args == old(args)
      {
        var attribute := fields.keys[i];
        var field := fields.vals[attribute];
        RegisterFieldsStep(fn0, fields, aliasClass, aliasTable, i);
        fn := Put(fn, attribute, field);
        fn := Put(fn, aliasClass + attribute, aliasTable + field);
      }
      assert fields.keys[..|fields.keys|] == fields.keys;
      assert Register(old(Reg()), meta, cls) == Registry(fn, Put(old(classes), className, fn));
      fieldNames := fn;
      classes := Put(classes, className, fn);
    }

    /**
     * `addAttribute($attribute)`: an explicit alias is kept; a known attribute
     * is labelled with its own name; a text with `*` has every `*` replaced by
     * the wildcard expansion; anything else is only resolved.
     */
    method AddAttribute(attribute: string) returns (fieldName: string)
      ensures fieldName == AttributeSql(Reg(), attribute)
    {
      var explode := Explode(" AS ", attribute);
      var attributeName := explode[0];
      fieldName := FieldName(attributeName);
      if |explode| == 2 {
        fieldName := fieldName + " AS \"" + explode[1] + "\"";
      } else if attributeName in fieldNames.vals {
        fieldName := fieldName + " AS \"" + attributeName + "\"";
      } else if '*' in attributeName {
        var expansion := ExpandWildcard(classes);
        fieldName := ReplaceChar(attributeName, '*', expansion);
      }
    }
  }
}

# Mercure SQL builder, modelled in Dafny

Mercure is a small PHP object–relational mapper. This project models its
SQL-text builder. Each entity maps to Dafny as follows:

- **Query state.** `AbstractQuery` holds the bound arguments, the registered
  classes and the attribute-to-column translation table. In Dafny it is the
  class `AbstractQuery.Query`, with `args`, `classes` and `fieldNames`
  fields that its methods update in place.
- **Field translator.** `getFieldName` is PHP's `strtr` over that table
  (MercureQuery/AbstractQuery.class.php:204-208). It is modelled exactly by
  `PhpStrtr.Strtr`: the longest key matches at each position, replaced text
  is never rescanned, and the empty key never matches. The `PhpStrtr` lemmas
  in the table below state these properties one by one.
- **Clause builders.** These are the `WHERE`, `FROM`, `JOIN`, `SET`,
  `VALUES`, `ORDER BY` and `LIMIT` traits. Each trait becomes a class of its
  own that holds the accumulated clause text (a `string` or `seq` field) and
  shares one `Query` object. Its methods append to the text and to the
  query's arguments. Its `generate…` member renders the clause, and the
  rendering is proved equal to a reference function of the items, clause by
  clause:
  - `WHERE` and `SET`: the items joined with their separator, then resolved
    through the translation table;
  - `FROM`: the table references of the classes joined with ", ", with each
    class registered in order; the text is not resolved;
  - `JOIN`: a fold over the parts that renders each one and registers each
    joined class in turn, so a later part sees the classes joined before it;
  - `VALUES`: the tuples joined with ", ", not resolved;
  - `ORDER BY`: the accumulation is resolved first and its trailing ", " cut
    afterwards; this equals resolving the joined items only when the table
    leaves the ", " separator alone (see Left out);
  - `LIMIT`: the accumulated text as is, not resolved.
- **Facade.** The module `Mercure` holds the statement builders
  (`deleteFrom`, `insertInto`, `select`, `update`) as functions and the
  object-level helpers (`deleteOne`, `insertOne`, `selectOne`, `updateOne`)
  as methods. Each helper's result says exactly which clause text and
  argument list it produces. Separate lemmas prove what these mean for an
  object, such as write-back of auto-increment ids, loading a row, and the
  key/non-key partition of `updateOne`.
- **Object parser.** This is the contract the facade relies on (table,
  fields, primary keys, auto-increment, get/set of attribute values). It is
  a record of functions, `ObjectParser.Parser`.

The PHP built-ins that the code relies on are modelled in `PhpStrings`:
`explode`/`implode`, `strpos`/`stripos`, `substr($s, 0, -2)`,
`str_replace` of one character, `lcfirst` and `intval` rendering. Accumulations
with `.=` are modelled as `Terminated` (each item followed by the separator)
and `Prefixed` (each item preceded by it). PHP ordered arrays are
`OrderedMap.OMap`: a key sequence plus a map. Assigning to an existing key
keeps its position.

Database access (`exec`, `getOneResult`, `getLastInsertId`) is not modelled.
The row a `SELECT` returns and the id function for the last insert are
parameters of the facade methods.

Some behaviours of the code differ from what a reader of its names and
comments would expect. The model follows the code:

- Resolving a column expression twice is not harmless. `strtr` substitutes
  again, as `PhpStrtr.StrtrNotIdempotent` shows: with `id` mapped to
  `user_id`, `user_id` becomes `user_user_id`.
- `selectOne` and `updateOne` are meant to filter on every primary key
  (Mercure.class.php:241-247 bases the association on primary keys). The
  code joins the key conditions with plain `where`, with no `AND` between
  them. `Mercure.KeyFilterRunsTogether` states the text that results for
  two keys, and `Mercure.KeyFilterSingleKey` shows that the two forms agree
  for one key.
- `selectOne` does not translate result column aliases back to attribute
  names. The code writes each row key as an attribute directly, and so does
  `Mercure.SelectOne`.
- The doc comment of `values` (QueryClause/ValuesClause.trait.php:23-29)
  describes an array element `[expr, value]` as a raw expression plus one
  bound value. The code does otherwise (see Findings).

## Model

| member | source | states |
|---|---|---|
| AbstractQuery.Query.constructor | MercureQuery/AbstractQuery.class.php:47-55 | a new query has no arguments, no registered classes and an empty translation table |
| AbstractQuery.Query.ToString | MercureQuery/AbstractQuery.class.php:61-65 | the debug text is the generated SQL, " [ ", the string forms of the bound arguments joined by ", " (implode), then " ]"; with no arguments it is exactly the SQL plus " [  ]" |
| AbstractQuery.ArgListGrows | MercureQuery/AbstractQuery.class.php:61-65 | binding one more value to a non-empty argument list extends the argument text of the debug text by ", " and the value's string form (each element's, for an array) |
| AbstractQuery.Query.AddArgument | MercureQuery/AbstractQuery.class.php:133-146 | an array argument appends each of its elements in order, any other value appends itself; the registries are unchanged |
| AbstractQuery.Query.AddClass | MercureQuery/AbstractQuery.class.php:153-192 | returns the table reference for the class (the table, or "table AS alias"); the registry becomes `Register` of the old one; arguments unchanged |
| AbstractQuery.TableRefs | QueryClause/FromClause.trait.php:52-55 | one table reference per class name, in order |
| AbstractQuery.TableRefPlain | MercureQuery/AbstractQuery.class.php:156-175 | a class name without " AS " is looked up as a whole, has no alias and renders as its bare table name |
| AbstractQuery.TableRefAliased | MercureQuery/AbstractQuery.class.php:156-170 | "C AS a" with a single " AS " splits into class C and alias a and renders as table(C) + " AS " + a |
| AbstractQuery.RegisterFieldsKeys | MercureQuery/AbstractQuery.class.php:181-187 | the registration loop keeps every earlier key and adds each attribute and its alias-qualified form |
| AbstractQuery.RegisterFieldsLookup | MercureQuery/AbstractQuery.class.php:181-187 | after the loop, an attribute maps to its column and "alias.attribute" maps to "table.column" |
| AbstractQuery.RegisterFieldsFrame | MercureQuery/AbstractQuery.class.php:181-187 | a key that is neither an attribute nor an alias-qualified attribute keeps its presence and its value |
| AbstractQuery.RegisterFieldsKeepsOrder | MercureQuery/AbstractQuery.class.php:181-187 | the loop only appends keys; the old keys remain a prefix in their old order |
| AbstractQuery.RegisterLookup | MercureQuery/AbstractQuery.class.php:177-189 | after addClass, every attribute of the class resolves to its column and "alias.attribute" to "table.column", and the class's snapshot is the whole translation table |
| AbstractQuery.RegisterFrame | MercureQuery/AbstractQuery.class.php:177-189 | addClass leaves every unrelated translation entry as it was |
| AbstractQuery.RegisterKeepsOrder | MercureQuery/AbstractQuery.class.php:177-189 | addClass never reorders or drops the translation table or the class list; it only appends |
| AbstractQuery.RegisterAllSnoc | QueryClause/FromClause.trait.php:52-55 | registering a list of classes then one more is registering the extended list |
| AbstractQuery.Query.FieldName | MercureQuery/AbstractQuery.class.php:200-212 | text that contains no key of the translation table comes back unchanged; an exact key comes back as its column |
| AbstractQuery.Query.GetFieldName | MercureQuery/AbstractQuery.class.php:200-212 | a named class that was never registered gives no result (and only such a class does); a registered class gives `strtr` of the name over that class's snapshot, so a name containing none of its keys comes back unchanged; without a class name the current table is used |
| AbstractQuery.Query.AddAttribute | MercureQuery/AbstractQuery.class.php:78-122 | the method returns the reference selection text `AttributeSql` for the current registry |
| AbstractQuery.AttributeAliased | MercureQuery/AbstractQuery.class.php:81-94 | "expr AS a" renders as the resolved expr followed by AS and the quoted alias |
| AbstractQuery.AttributeKnownKey | MercureQuery/AbstractQuery.class.php:96-98 | an attribute that is a key of the table renders as its column AS the quoted attribute |
| AbstractQuery.AttributeStar | MercureQuery/AbstractQuery.class.php:100-118 | a bare "*" renders as the wildcard expansion of every registered class |
| AbstractQuery.ExpandWildcard | MercureQuery/AbstractQuery.class.php:100-118 | the nested loop produces `Expansion`: for each class in registration order, the kept attributes as `column AS "attr"`, joined by ", " |
| AbstractQuery.WildcardNext | MercureQuery/AbstractQuery.class.php:105-116 | finishing one class's inner loop moves the outer accumulation to the next class |
| AbstractQuery.FreshRegisterKept | MercureQuery/AbstractQuery.class.php:105-116 | in a snapshot registered from scratch for one class whose attributes do not contain "class." (ignoring case), the wildcard keeps exactly the attributes, in order, each as `column AS "attr"` |
| AbstractQuery.WildcardOneClass | MercureQuery/AbstractQuery.class.php:100-118 | with one class registered on an empty query and no attribute containing "class.", the expansion is every attribute's `column AS "attr"` joined by ", " |
| AbstractQuery.StarOneClass | MercureQuery/AbstractQuery.class.php:96-118 | in that setting, selecting "*" renders every attribute's `column AS "attr"` joined by ", " |
| AbstractQuery.KeptStep | MercureQuery/AbstractQuery.class.php:109-114 | a kept attribute adds `column AS "attr", ` to the accumulation |
| AbstractQuery.SkippedStep | MercureQuery/AbstractQuery.class.php:109-114 | a skipped attribute adds nothing to the accumulation |
| PhpStrtr.MatchLen | MercureQuery/AbstractQuery.class.php:208 | the match length is that of the longest key that starts at the position, or 0 if there is none |
| PhpStrtr.MatchLenIs | MercureQuery/AbstractQuery.class.php:208 | a key that occurs at the position, with no longer key there, fixes the match length |
| PhpStrtr.StrtrUntouched | MercureQuery/AbstractQuery.class.php:200-212 | a name that contains no key is returned as is |
| PhpStrtr.StrtrLongestMatch | MercureQuery/AbstractQuery.class.php:208 | at each position the longest matching key is replaced and scanning resumes after it |
| PhpStrtr.StrtrKey | MercureQuery/AbstractQuery.class.php:208 | a text that is exactly a key becomes its value, and the value is not rescanned |
| PhpStrtr.StrtrAppend | MercureQuery/AbstractQuery.class.php:208 | resolution distributes over concatenation when no key spans the junction |
| PhpStrtr.StrtrCopyPrefix | MercureQuery/AbstractQuery.class.php:208 | a leading stretch where no key starts is copied unchanged |
| PhpStrtr.StrtrPrefixThenKey | MercureQuery/AbstractQuery.class.php:208 | a key-free prefix followed by a key resolves to the prefix followed by the key's value |
| PhpStrtr.StrtrNotIdempotent | MercureQuery/AbstractQuery.class.php:208 | resolving an already resolved name can substitute again ("user_id" becomes "user_user_id") |
| PhpStrings.Find | MercureQuery/AbstractQuery.class.php:81 | strpos: the result is an occurrence, and no earlier occurrence exists; None exactly when there is no occurrence |
| PhpStrings.ContainsCIAt | MercureQuery/AbstractQuery.class.php:100 | an exact occurrence is also a case-insensitive one |
| PhpStrings.LcFirst | Mercure.class.php:256 | same length, first character lowered, the rest unchanged |
| PhpStrings.Explode | MercureQuery/AbstractQuery.class.php:81 | explode always yields at least one piece |
| PhpStrings.ImplodeExplode | MercureQuery/AbstractQuery.class.php:81 | implode(sep, explode(sep, s)) == s for a non-empty separator |
| PhpStrings.ExplodePiecesFree | MercureQuery/AbstractQuery.class.php:81 | no piece of explode contains the separator |
| PhpStrings.ExplodeOnce | MercureQuery/AbstractQuery.class.php:158-161 | a text with exactly one separator explodes into the two sides |
| PhpStrings.ExplodeNone | MercureQuery/AbstractQuery.class.php:158-161 | a text without the separator explodes into itself alone |
| PhpStrings.DropLast2 | QueryClause/FromClause.trait.php:62 | substr($s, 0, -2): the text without its last two characters, or "" if it is shorter |
| PhpStrings.TerminatedIsJoin | QueryClause/FromClause.trait.php:52-55 | an accumulation with a separator after each item is the implode followed by the separator |
| PhpStrings.PrefixedIsJoin | QueryClause/WhereClause.trait.php:48-51 | an accumulation with a separator before each item is the separator followed by the implode |
| PhpStrings.TrimmedAccumulation | QueryClause/FromClause.trait.php:52-62 | dropping the trailing ", " from a terminated accumulation gives the implode |
| PhpStrings.ReplaceCharAbsent | MercureQuery/AbstractQuery.class.php:118 | str_replace leaves a text without the character unchanged |
| PhpStrings.ReplaceCharSingle | MercureQuery/AbstractQuery.class.php:118 | str_replace on a text with one "*" substitutes exactly there |
| PhpStrings.CountCharAppend | QueryClause/ValuesClause.trait.php:38-53 | placeholder counts add up over concatenation |
| PhpStrings.IntToDecimal | QueryClause/LimitClause.trait.php:28 | intval rendering: non-empty, a leading "-" exactly for negatives, digits otherwise |
| PhpStrings.DecimalRoundTrip | QueryClause/LimitClause.trait.php:28-32 | parsing the rendering of an integer gives back that integer |
| OrderedMap.Empty | MercureQuery/AbstractQuery.class.php:52-54 | the empty array has no keys |
| OrderedMap.Put | MercureQuery/AbstractQuery.class.php:185-186 | PHP array assignment: the key maps to the new value, an existing key keeps its place, a new key is appended, all other entries stay |
| OrderedMap.PutKeepsOrder | MercureQuery/AbstractQuery.class.php:185-189 | assignment never reorders the existing keys |
| QueryData.Flatten | MercureQuery/AbstractQuery.class.php:133-146 | an array binds its elements, any other value binds itself |
| QueryData.Bound | QueryClause/WhereClause.trait.php:31-34 | a null query datum binds nothing, otherwise it binds as addArgument does |
| QueryData.Spread | QueryClause/FromClause.trait.php:31-34 | an array first argument is the whole list; otherwise all call arguments are |
| QueryData.SpreadValues | QueryClause/ValuesClause.trait.php:33-36 | the same normalisation for values |
| QueryData.SpreadFormsAgree | QueryClause/FromClause.trait.php:31-34 | the variadic form and the one-array form give the same list |
| WhereClause.WhereClause.constructor | QueryClause/WhereClause.trait.php:16 | the condition text starts empty |
| WhereClause.WhereClause.Where | QueryClause/WhereClause.trait.php:27-37 | appends the condition as is and binds its query datum; the registry is unchanged |
| WhereClause.WhereClause.AndWhere | QueryClause/WhereClause.trait.php:48-51 | appends " AND " and the condition and binds its datum |
| WhereClause.WhereClause.OrWhere | QueryClause/WhereClause.trait.php:62-65 | appends " OR " and the condition and binds its datum |
| WhereClause.WhereClause.GenerateWhere | QueryClause/WhereClause.trait.php:71-88 | renders `WhereSql` of the accumulated text, and the stored text loses its leading combinator |
| WhereClause.StripCombinator | QueryClause/WhereClause.trait.php:78-85 | exactly one leading " AND " or else " OR " is removed; other text is kept |
| WhereClause.NoCombinator | QueryClause/WhereClause.trait.php:78-85 | a condition not starting with a space is kept whole |
| WhereClause.WhereAndChain | QueryClause/WhereClause.trait.php:48-88 | AND-chained conditions render as " WHERE " + the resolved implode with " AND ", and nothing for no condition |
| WhereClause.WhereOrChain | QueryClause/WhereClause.trait.php:62-88 | OR-chained conditions render as " WHERE " + the resolved implode with " OR " |
| WhereClause.WhereThenAnd | QueryClause/WhereClause.trait.php:27-88 | where(a) then andWhere(b) renders " WHERE " + the resolved "a AND b" |
| FromClause.FromClause.constructor | QueryClause/FromClause.trait.php:16 | the class list starts empty |
| FromClause.FromClause.From | QueryClause/FromClause.trait.php:29-42 | appends the normalised class names |
| FromClause.FromClause.GenerateFrom | QueryClause/FromClause.trait.php:48-63 | renders `FromSql` of the class list, registers every listed class in order, binds nothing |
| FromClause.FromSqlOfAccumulation | QueryClause/FromClause.trait.php:50-62 | the accumulation is empty exactly when there are no classes; otherwise the clause is " FROM " + the accumulation without its trailing ", " |
| FromClause.FromPlainTables | QueryClause/FromClause.trait.php:50-62 | for classes without aliases the clause is " FROM " + their tables joined by ", " |
| FromClause.RegisterAllClasses | QueryClause/FromClause.trait.php:52-55 | after FROM, every listed class is registered, earlier ones are kept, and the order is preserved |
| JoinClause.JoinClause.constructor | QueryClause/JoinClause.trait.php:16 | the join list starts empty |
| JoinClause.JoinClause.AddJoin | QueryClause/JoinClause.trait.php:231-236 | appends one (join kind, class) part |
| JoinClause.JoinClause.AddOn | QueryClause/JoinClause.trait.php:245-253 | appends one (combinator, condition) part and binds its datum |
| JoinClause.JoinClause.CrossJoin | QueryClause/JoinClause.trait.php:23-26 | appends a CROSS JOIN part |
| JoinClause.JoinClause.InnerJoin | QueryClause/JoinClause.trait.php:33-36 | appends an INNER JOIN part |
| JoinClause.JoinClause.Join | QueryClause/JoinClause.trait.php:43-46 | appends a JOIN part |
| JoinClause.JoinClause.LeftJoin | QueryClause/JoinClause.trait.php:53-56 | appends a LEFT JOIN part |
| JoinClause.JoinClause.LeftOuterJoin | QueryClause/JoinClause.trait.php:63-66 | appends a LEFT OUTER JOIN part |
| JoinClause.JoinClause.NaturalLeftJoin | QueryClause/JoinClause.trait.php:73-76 | appends a NATURAL LEFT JOIN part |
| JoinClause.JoinClause.NaturalLeftOuterJoin | QueryClause/JoinClause.trait.php:83-86 | appends a NATURAL LEFT OUTER JOIN part |
| JoinClause.JoinClause.NaturalRightJoin | QueryClause/JoinClause.trait.php:93-96 | appends a NATURAL RIGHT JOIN part |
| JoinClause.JoinClause.NaturalRightOuterJoin | QueryClause/JoinClause.trait.php:103-106 | appends a NATURAL RIGHT OUTER JOIN part |
| JoinClause.JoinClause.RightJoin | QueryClause/JoinClause.trait.php:113-116 | appends a RIGHT JOIN part |
| JoinClause.JoinClause.RightOuterJoin | QueryClause/JoinClause.trait.php:123-126 | appends a RIGHT OUTER JOIN part |
| JoinClause.JoinClause.StraightJoin | QueryClause/JoinClause.trait.php:133-136 | appends a STRAIGHT_JOIN part |
| JoinClause.JoinClause.On | QueryClause/JoinClause.trait.php:147-150 | appends an ON condition and binds its datum |
| JoinClause.JoinClause.OrOn | QueryClause/JoinClause.trait.php:161-164 | appends an OR condition and binds its datum |
| JoinClause.JoinClause.AndOn | QueryClause/JoinClause.trait.php:175-178 | appends an AND condition and binds its datum |
| JoinClause.JoinClause.Using | QueryClause/JoinClause.trait.php:190-200 | appends a USING part holding the normalised attributes, joined by ", ", in parentheses |
| JoinClause.JoinClause.GenerateJoin | QueryClause/JoinClause.trait.php:206-223 | the loop yields `JoinRender` of the parts: the text, and the registry that results from registering each joined class in turn |
| JoinClause.JoinRegistersJoinedClasses | QueryClause/JoinClause.trait.php:210-220 | rendering the joins registers exactly the joined classes, in order, as FROM does |
| JoinClause.JoinRenderAppend | QueryClause/JoinClause.trait.php:210-222 | rendering two join lists in sequence is rendering their concatenation |
| JoinClause.JoinRenderStep | QueryClause/JoinClause.trait.php:210-222 | each loop step appends the rendering of one part |
| JoinClause.EndsInJoin | QueryClause/JoinClause.trait.php:212 | a kind ending in "JOIN" is treated as a join to a class |
| JoinClause.JoinKinds | QueryClause/JoinClause.trait.php:212-215 | all twelve join kinds the builder emits are recognised as joins |
| JoinClause.ConditionKinds | QueryClause/JoinClause.trait.php:216-219 | ON, AND, OR and USING are rendered as conditions, not as joined classes |
| SetClause.SetClause.constructor | QueryClause/SetClause.trait.php:16 | the assignment list starts empty |
| SetClause.SetClause.Set | QueryClause/SetClause.trait.php:33-39 | appends "attribute = rule, " and binds the datum |
| SetClause.SetClause.GenerateSet | QueryClause/SetClause.trait.php:45-53 | nothing for no assignment; otherwise " SET " + the resolved implode of the assignments |
| SetClause.SetOfAssignments | QueryClause/SetClause.trait.php:45-53 | the same, for any list of assignments accumulated by set |
| ValuesClause.ValuesClause.constructor | QueryClause/ValuesClause.trait.php:16 | the tuple text starts empty |
| ValuesClause.ValuesClause.Values | QueryClause/ValuesClause.trait.php:31-56 | appends one tuple of the element parts followed by ", " and binds every element, arrays flattened |
| ValuesClause.ValuesClause.GenerateValues | QueryClause/ValuesClause.trait.php:62-65 | " VALUES " + the tuples joined by ", " |
| ValuesClause.ValuesOfTuples | QueryClause/ValuesClause.trait.php:62-65 | the same, for any list of tuples accumulated by values |
| ValuesClause.CloseTuple | QueryClause/ValuesClause.trait.php:53 | cutting the last ", " and closing with "), " yields the tuple text |
| ValuesClause.JoinPlaceholders | QueryClause/ValuesClause.trait.php:38-53 | the "?" count of a joined tuple is the sum of the parts' counts |
| ValuesClause.TuplePlaceholders | QueryClause/ValuesClause.trait.php:38-53 | the "?" count of a tuple is the sum of the parts' counts |
| ValuesClause.OnePlaceholderEach | QueryClause/ValuesClause.trait.php:46-48 | parts that are each one "?" give one placeholder per part |
| ValuesClause.ScalarRowArgs | QueryClause/ValuesClause.trait.php:46-51 | a row of scalars binds exactly one argument per element |
| ValuesClause.ScalarRowPlaceholders | QueryClause/ValuesClause.trait.php:38-53 | for a scalar row, the placeholders written equal the arguments bound |
| ValuesClause.ExprElementAsWritten | QueryClause/ValuesClause.trait.php:42-51 | an `[expr, value]` element writes `value` into the text and binds both elements, so placeholders and arguments disagree |
| ValuesClause.IntendedRowArgsLength | QueryClause/ValuesClause.trait.php:23-29 | the documented reading binds one argument per element |
| ValuesClause.IntendedRowPlaceholders | QueryClause/ValuesClause.trait.php:23-29 | the documented reading writes as many placeholders as it binds arguments |
| ValuesClause.IntendedAgreesOnScalars | QueryClause/ValuesClause.trait.php:38-53 | on scalar rows the documented reading and the code produce the same text and arguments |
| OrderByClause.OrderByClause.constructor | QueryClause/OrderByClause.trait.php:16 | the order list starts empty |
| OrderByClause.OrderByClause.OrderByAsc | QueryClause/OrderByClause.trait.php:23-27 | appends "attribute ASC, " |
| OrderByClause.OrderByClause.OrderByDesc | QueryClause/OrderByClause.trait.php:34-38 | appends "attribute DESC, " |
| OrderByClause.OrderByClause.GenerateOrderBy | QueryClause/OrderByClause.trait.php:44-52 | nothing for no item; otherwise " ORDER BY " + the resolved implode of the items |
| OrderByClause.OrderByOfItems | QueryClause/OrderByClause.trait.php:44-52 | the same, for any list of items accumulated by orderBy |
| OrderByClause.SeparatorUntouched | QueryClause/OrderByClause.trait.php:44-52 | translation leaves the ", " separator alone when no key overlaps it |
| LimitClause.LimitClause.constructor | QueryClause/LimitClause.trait.php:16 | the limit text starts empty |
| LimitClause.LimitClause.Limit | QueryClause/LimitClause.trait.php:24-36 | appends the rendered count, or "skip, count" when skip is not 0 |
| LimitClause.LimitClause.GenerateLimit | QueryClause/LimitClause.trait.php:42-50 | nothing exactly when no limit was set, otherwise " LIMIT " + the text |
| LimitClause.LimitText | QueryClause/LimitClause.trait.php:26-33 | with no skip the text parses back to the count |
| LimitClause.LimitRoundTrip | QueryClause/LimitClause.trait.php:26-33 | exploding the text on ", " gives back [count] or [skip, count], and they parse back to the arguments |
| LimitClause.CountOnly | QueryClause/LimitClause.trait.php:28 | a rendered count is a single piece |
| LimitClause.OffsetAndCount | QueryClause/LimitClause.trait.php:32 | "skip, count" explodes into its two renderings |
| LimitClause.DecimalHasNoSeparator | QueryClause/LimitClause.trait.php:28-32 | a rendered integer never contains ", " |
| LimitClause.SeparatorOnlyAt | QueryClause/LimitClause.trait.php:32 | joining two separator-free texts with ", " puts the only separator at the junction |
| LimitClause.LimitCallsConcatenate | QueryClause/LimitClause.trait.php:28 | two limit calls run their numbers together (limit(1) then limit(2) reads as 12) |
| Mercure.DeleteFrom | Mercure.class.php:93-96 | a DELETE statement over the given class names |
| Mercure.InsertInto | Mercure.class.php:110-123 | an INSERT statement for the class; an attribute array is used as is, otherwise all trailing arguments are |
| Mercure.Select | Mercure.class.php:137-149 | a SELECT statement over the normalised attributes |
| Mercure.Update | Mercure.class.php:162-174 | an UPDATE statement over the normalised class names |
| Mercure.DeleteOne | Mercure.class.php:185-199 | deletes from the object's class with one "key = ?" per primary key, chained with AND, binding each key's value |
| Mercure.InsertOne | Mercure.class.php:209-239 | inserts every field that is not auto-increment, one value per attribute, and writes each generated id back into its attribute |
| Mercure.SelectOne | Mercure.class.php:248-267 | selects from the object's class filtered on the lcfirst'ed keys; a returned row is written attribute by attribute, no row gives no object |
| Mercure.UpdateOne | Mercure.class.php:274-301 | sets every non-key field, filters on every key field, binds the set values before the key values |
| Mercure.SetNonKeys | Mercure.class.php:282-289 | the set loop assigns exactly the non-key attributes in field order and binds their values |
| Mercure.WhereKeys | Mercure.class.php:291-298 | the where loop filters on exactly the key attributes in field order and binds their values |
| Mercure.WriteAll | Mercure.class.php:233-236 | the write loop yields `SetAll`, the object with each attribute set to its value in turn |
| Mercure.FilterSplit | Mercure.class.php:282-298 | the non-key and key filters each keep exactly the matching fields, and together account for every field |
| Mercure.InsertAligned | Mercure.class.php:215-229 | the inserted attributes are exactly the fields that are not auto-increment, each paired with its own value |
| Mercure.UpdatePartition | Mercure.class.php:282-298 | each field is either set or used as a key, never both, and keys come from the primary keys |
| Mercure.PlainKeyArgs | Mercure.class.php:193-196 | with scalar key values, exactly one argument is bound per key, in key order |
| Mercure.SetAllReadsBack | Mercure.class.php:263-266 | after writing distinct attributes, each reads back its value and all others are unchanged |
| Mercure.InsertWritesBackIds | Mercure.class.php:233-236 | after insert, each auto-increment attribute holds the last insert id of its column and the rest of the object is unchanged |
| Mercure.SelectLoadsRow | Mercure.class.php:263-266 | after select, each column of the row is in the same-named attribute and other attributes are unchanged |
| Mercure.KeyFilterRunsTogether | Mercure.class.php:254-257 | for two keys, the WHERE text is "a = ?b = ?", with no AND between the keys |
| Mercure.TwoKeyConditions | Mercure.class.php:254-257 | the plain-where accumulation for two keys is the two conditions run together |
| Mercure.AndKeyFilter | Mercure.class.php:193-196 | deleteOne's filter is " WHERE " + the resolved key conditions joined by " AND " |
| Mercure.KeyFilterSingleKey | Mercure.class.php:254-257 | for a single key, the plain-where and AND-chained filters render the same |
| Mercure.StrtrNoKeys | Mercure.class.php:254-257 | an empty translation table changes nothing |

## Left out

- Database access is not modelled: PDO, `exec`, `getOneResult` and
  `getLastInsertId`. The row a select returns and the last-insert-id
  function are parameters. `exec`'s return values are not modelled.
- The `Mercure` constructor, `getParser` and `getSql` are not modelled.
  They read configuration and build the PDO connection, which is I/O.
- `ObjectParserFactory` and the concrete parser implementations are not
  part of this model. `ObjectParser.Parser` stands for any implementation
  of the interface. The interface's `getAttribute`, `getClass` and
  `getField` are not used by the core.
- The concrete statement classes and their `generateQuery` are not part of
  this model. `Statement` records the normalised arguments of a
  statement builder. `ToString` takes the generated SQL as a parameter.
- PHP traits become separate clause classes that share one `Query` object.
  A statement that combines clauses is composed by the caller.
- The fluent `return $this` of every clause method is not modelled, because
  the methods return nothing.
- PHP loose typing is not modelled:
  - `in_array` and `==` are exact string comparisons;
  - `intval` is applied to integers only, so non-numeric strings are out;
  - a `$className` of null or "" is `None`/"";
  - scalar values are kept as strings.
- Objects passed by reference (`&$object`) are modelled by returning the
  updated object (`written`, `selected`) rather than updating in place.
- `insertOne`'s and `updateOne`'s return values (results of `exec`) are
  not modelled.
- `AbstractQuery.RegisterLookup` is stated only when no attribute already
  has the form "alias.other". Otherwise PHP's later assignment overwrites
  an earlier one.
- `OrderByClause.OrderByClause.GenerateOrderBy` is stated only for
  translation tables that leave the ", " separator alone. A key such as
  "," would also rewrite the separators.
- `Mercure.SetAllReadsBack`, `Mercure.InsertWritesBackIds` and
  `Mercure.SelectLoadsRow` assume a parser whose get/set behave like fields
  (`FieldLike`). The interface itself promises nothing more.
- `Mercure.PlainKeyArgs` covers scalar key values only. A null key value
  binds nothing, and an array key value binds several arguments, so the
  placeholders and the arguments then disagree, as the code does.
- `AbstractQuery.ExpandWildcard` is a module-level method over the class
  table rather than a member of `Query`. Only `AddAttribute` calls it.

## Findings

| source | as written | input that shows it | evidently intended | confidence | as-written member | corrected member |
|---|---|---|---|---|---|---|
| QueryClause/ValuesClause.trait.php:42-51 | an array element `[expr, value]` writes `$value[1]` into the tuple and then binds the whole array, so both elements become arguments | `values(array(array('PASSWORD(?)', 'secret')))`: the tuple is "( secret)", with no placeholder, and two arguments ('PASSWORD(?)', 'secret') are bound | the documented usage at lines 23-29: write `expr` (which holds the "?") into the tuple and bind only `value`, giving one placeholder per argument | not executed | ValuesClause.ExprElementAsWritten | ValuesClause.IntendedRowPlaceholders |

`ValuesClause.ValuesClause.Values` itself keeps the behaviour as written,
since that is what the code does. `ValuesClause.IntendedAgreesOnScalars`
proves that the corrected definitions `IntendedParts` and `IntendedRowArgs`
coincide with it on every row of scalars. `Mercure.InsertOne` produces such
rows whenever the object's attribute values are scalars.

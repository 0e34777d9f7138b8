/**
 * The object-parser contract: per class, a table, an ordered attribute→field
 * map, the primary-key attributes and the auto-increment map (field →
 * attribute); and reading and writing a named attribute of an object. The
 * contract is an interface, so every part is an uninterpreted function; objects
 * are values of a type parameter `O`.
 */
module ObjectParser {
  import opened OrderedMap
  import opened QueryData

  /** An attribute→field (or field→attribute) map in declaration order. */
  type FieldMap = OrdMap<string, string>

  datatype Metadata = Metadata(
    table: string -> string,            // getTable($className)
    allFields: string -> FieldMap,      // getAllFields($className): attribute => field
    primaryKeys: string -> seq<string>, // getPrimaryKeys($className)
    autoIncrement: string -> FieldMap)  // getAutoIncrement($className): field => attribute

  datatype Parser<!O> = Parser(
    meta: Metadata,
    relativeClassName: O -> string,              // getRelativeClassName($object)
    getAttributeValue: (O, string) -> Value,     // getAttributeValue($object, $attribute)
    setAttributeValue: (O, string, Value) -> O)  // setAttributeValue(&$object, $attribute, $value)

  /**
   * Attribute access that behaves like fields: a value written is read back,
   * and writing one attribute leaves the others alone.
   */
  ghost predicate FieldLike<O(!new)>(p: Parser<O>) {
    && (forall o, a, v :: p.getAttributeValue(p.setAttributeValue(o, a, v), a) == v)
    && (forall o, a, b, v :: a != b ==>
          p.getAttributeValue(p.setAttributeValue(o, a, v), b) == p.getAttributeValue(o, b))
  }
}

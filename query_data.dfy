/**
 * The PHP values the query builder passes around as query data, and the two
 * ways its public methods accept their arguments (one array, or a variadic
 * list read back with `func_get_args()`).
 */
module QueryData {
  import opened PhpStrings

  /**
   * A value bound to the query: PHP `null`, a scalar (kept as its string
   * form), or an array of values.
   */
  datatype Value = Null | Scalar(text: string) | Arr(elems: seq<Value>)

  /** PHP's conversion of a value to a string: null is "", an array "Array". */
  function ToText(v: Value): string {
    match v
    case Null => ""
    case Scalar(t) => t
    case Arr(_) => "Array"
  }

  /** The string form of each bound argument, in order, as `implode` converts them. */
  function ArgTexts(args: seq<Value>): (r: seq<string>)
    ensures |r| == |args|
  {
    seq(|args|, i requires 0 <= i < |args| => ToText(args[i]))
  }

  /** The arguments `addArgument($arg)` appends: an array's elements, else the value itself. */
  function Flatten(v: Value): (r: seq<Value>)
    ensures v.Arr? ==> r == v.elems
    ensures !v.Arr? ==> r == [v]
  {
    if v.Arr? then v.elems else [v]
  }

  /**
   * The arguments bound by a method taking `$queryData = null`: nothing when
   * the data is `null` (`!== null` is false), else what `addArgument` appends.
   */
  function Bound(v: Value): (r: seq<Value>)
    ensures v.Null? ==> r == []
    ensures !v.Null? ==> r == Flatten(v)
  {
    if v.Null? then [] else Flatten(v)
  }

  /** An argument given either as one array or as a single value. */
  datatype Arg<T> = List(items: seq<T>) | One(item: T)

  /**
   * `if(!is_array($x)) $x = func_get_args();`: an array first argument is used
   * as it is (later arguments are ignored); otherwise every argument is used.
   */
  function Spread<T>(first: Arg<T>, rest: seq<T>): (r: seq<T>)
    ensures first.List? ==> r == first.items
    ensures first.One? ==> r == [first.item] + rest
  {
    match first
    case List(items) => items
    case One(x) => [x] + rest
  }

  /** The same normalisation where the argument itself is a PHP value (`values()`). */
  function SpreadValues(first: Value, rest: seq<Value>): (r: seq<Value>)
    ensures first.Arr? ==> r == first.elems
    ensures !first.Arr? ==> r == [first] + rest
  {
    if first.Arr? then first.elems else [first] + rest
  }

  /** Callers may pass the variadic form or the one-array form interchangeably. */
  lemma SpreadFormsAgree<T>(x: T, rest: seq<T>)
    ensures Spread(One(x), rest) == Spread(List([x] + rest), [])
  {
  }
}

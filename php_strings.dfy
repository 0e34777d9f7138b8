/**
 * The PHP string primitives the query builder is written with: `strpos`,
 * `stripos`, `explode`, `implode`, `substr($s, 0, -n)`, `str_replace` of one
 * character, `lcfirst` and the decimal rendering of an integer (`intval` in a
 * string context). Strings are sequences of characters; case folding is ASCII.
 */
module PhpStrings {

  datatype Option<T> = None | Some(value: T) {
    function GetOr(default: T): T {
      match this
      case Some(v) => v
      case None => default
    }
  }

  lemma AppendAssoc(x: string, y: string, z: string)
    ensures (x + y) + z == x + (y + z)
  {
  }

  lemma SplitLast<T>(s: seq<T>)
    requires s != []
    ensures s == s[..|s| - 1] + [s[|s| - 1]]
  {
  }

  lemma InInitOrLast<T>(s: seq<T>)
    requires s != []
    ensures forall x :: x in s ==> x in s[..|s| - 1] || x == s[|s| - 1]
  {
    SplitLast(s);
  }

  lemma PrefixTrans<T>(x: seq<T>, y: seq<T>, z: seq<T>)
    requires |x| <= |y| <= |z| && y[..|x|] == x && z[..|y|] == y
    ensures z[..|x|] == x
  {
    assert z[..|x|] == z[..|y|][..|x|];
  }

  /** `sep` occurs in `s` starting at position `i`. */
  predicate OccursAt(sep: string, s: string, i: nat) {
    i + |sep| <= |s| && s[i..i + |sep|] == sep
  }

  /** `pre` is a prefix of `s`. */
  predicate StartsWith(s: string, pre: string) {
    |pre| <= |s| && s[..|pre|] == pre
  }

  lemma OccursInTail(sep: string, s: string, k: nat, j: nat)
    requires k <= |s|
    ensures OccursAt(sep, s[k..], j) <==> OccursAt(sep, s, k + j)
  {
    if k + j + |sep| <= |s| {
      assert s[k..][j..j + |sep|] == s[k + j..k + j + |sep|];
    }
  }

  lemma OccursInPrefix(sep: string, s: string, k: nat, j: nat)
    requires k <= |s|
    requires OccursAt(sep, s[..k], j)
    ensures OccursAt(sep, s, j)
  {
    assert s[..k][j..j + |sep|] == s[j..j + |sep|];
  }

  /**
   * `strpos($s, $sep)`: the first position at which `sep` occurs in `s`, or
   * None (PHP's `false`).
   */
  function Find(sep: string, s: string): (r: Option<nat>)
    requires sep != ""
    ensures r.Some? ==> OccursAt(sep, s, r.value)
    ensures r.Some? ==> forall i: nat :: i < r.value ==> !OccursAt(sep, s, i)
    ensures r.None? ==> forall i: nat :: !OccursAt(sep, s, i)
    decreases |s|
  {
    if |s| < |sep| then None
    else if s[..|sep|] == sep then Some(0)
    else
      var tail := Find(sep, s[1..]);
      assert forall i: nat | 0 < i :: OccursAt(sep, s, i) <==> OccursAt(sep, s[1..], i - 1) by {
        forall i: nat | 0 < i ensures OccursAt(sep, s, i) <==> OccursAt(sep, s[1..], i - 1) {
          OccursInTail(sep, s, 1, i - 1);
        }
      }
      assert !OccursAt(sep, s, 0);
      match tail
      case None => None
      case Some(j) => Some(j + 1)
  }

  /** `sep` occurs somewhere in `s`. */
  predicate Contains(s: string, sep: string)
    requires sep != ""
  {
    Find(sep, s).Some?
  }

  /** ASCII lower-casing of one character, as PHP's case-insensitive functions do. */
  function LowerChar(c: char): char {
    if 'A' <= c <= 'Z' then (c as int + 32) as char else c
  }

  function Lower(s: string): string {
    seq(|s|, i requires 0 <= i < |s| => LowerChar(s[i]))
  }

  /** `stripos($hay, $needle) !== false`. */
  predicate ContainsCI(hay: string, needle: string)
    requires needle != ""
  {
    Find(Lower(needle), Lower(hay)).Some?
  }

  /** `needle` written out at position `i` of `hay` is found case-insensitively. */
  lemma ContainsCIAt(hay: string, needle: string, i: nat)
    requires needle != ""
    requires i + |needle| <= |hay| && hay[i..i + |needle|] == needle
    ensures ContainsCI(hay, needle)
  {
    assert OccursAt(Lower(needle), Lower(hay), i) by {
      assert forall k :: 0 <= k < |needle| ==> Lower(hay)[i..i + |needle|][k] == Lower(needle)[k];
    }
  }

  /** `lcfirst`: the first character lower-cased. */
  function LcFirst(s: string): (r: string)
    ensures |r| == |s|
    ensures s != "" ==> r[0] == LowerChar(s[0]) && r[1..] == s[1..]
  {
    if s == "" then "" else [LowerChar(s[0])] + s[1..]
  }

  /** `implode($sep, $parts)`. */
  function Join(sep: string, parts: seq<string>): string {
    if parts == [] then ""
    else if |parts| == 1 then parts[0]
    else parts[0] + sep + Join(sep, parts[1..])
  }

  /**
   * `explode($sep, $s)`: the pieces of `s` between the occurrences of `sep`,
   * found left to right without overlap.
   */
  function Explode(sep: string, s: string): (parts: seq<string>)
    requires sep != ""
    ensures |parts| >= 1
    decreases |s|
  {
    match Find(sep, s)
    case None => [s]
    case Some(i) => [s[..i]] + Explode(sep, s[i + |sep|..])
  }

  lemma JoinCons(sep: string, a: string, tail: seq<string>)
    requires tail != []
    ensures Join(sep, [a] + tail) == a + sep + Join(sep, tail)
  {
    assert ([a] + tail)[1..] == tail;
  }

  lemma SplitAround(s: string, i: nat, sep: string)
    requires OccursAt(sep, s, i)
    ensures s == s[..i] + sep + s[i + |sep|..]
  {
    assert s == s[..i] + s[i..i + |sep|] + s[i + |sep|..];
  }

  lemma ExplodeAt(sep: string, s: string, i: nat)
    requires sep != "" && Find(sep, s) == Some(i)
    ensures Explode(sep, s) == [s[..i]] + Explode(sep, s[i + |sep|..])
  {
  }

  /** Imploding the pieces of an explode gives the string back. */
  lemma {:induction false} ImplodeExplode(sep: string, s: string)
    requires sep != ""
    ensures Join(sep, Explode(sep, s)) == s
    decreases |s|
  {
    match Find(sep, s)
    case None =>
    case Some(i) =>
      var rest := s[i + |sep|..];
      ImplodeExplode(sep, rest);
      ExplodeAt(sep, s, i);
      JoinCons(sep, s[..i], Explode(sep, rest));
      SplitAround(s, i, sep);
  }

  /** No piece of an explode contains the separator. */
  lemma {:induction false} ExplodePiecesFree(sep: string, s: string)
    requires sep != ""
    ensures forall p :: p in Explode(sep, s) ==> Find(sep, p).None?
    decreases |s|
  {
    match Find(sep, s)
    case None =>
    case Some(i) =>
      var rest := s[i + |sep|..];
      ExplodePiecesFree(sep, rest);
      ExplodeAt(sep, s, i);
      FirstPieceFree(sep, s, i);
  }

  lemma FirstPieceFree(sep: string, s: string, i: nat)
    requires sep != "" && Find(sep, s) == Some(i)
    ensures Find(sep, s[..i]).None?
  {
    if Find(sep, s[..i]).Some? {
      OccursInPrefix(sep, s, i, Find(sep, s[..i]).value);
      assert false;
    }
  }

  /**
   * When `sep` occurs in `s` exactly once, at `p`, explode yields the text
   * before and the text after it.
   */
  lemma ExplodeOnce(sep: string, s: string, p: nat)
    requires sep != ""
    requires OccursAt(sep, s, p)
    requires forall i: nat :: OccursAt(sep, s, i) ==> i == p
    ensures Explode(sep, s) == [s[..p], s[p + |sep|..]]
  {
    var rest := s[p + |sep|..];
    FindUnique(sep, s, p);
    RestFree(sep, s, p);
    ExplodeAt(sep, s, p);
    ExplodeNone(sep, rest);
  }

  lemma FindUnique(sep: string, s: string, p: nat)
    requires sep != ""
    requires OccursAt(sep, s, p)
    requires forall i: nat :: OccursAt(sep, s, i) ==> i == p
    ensures Find(sep, s) == Some(p)
  {
  }

  lemma RestFree(sep: string, s: string, p: nat)
    requires sep != ""
    requires OccursAt(sep, s, p)
    requires forall i: nat :: OccursAt(sep, s, i) ==> i == p
    ensures Find(sep, s[p + |sep|..]).None?
  {
    if Find(sep, s[p + |sep|..]).Some? {
      OccursInTail(sep, s, p + |sep|, Find(sep, s[p + |sep|..]).value);
      assert false;
    }
  }

  lemma ExplodeNone(sep: string, s: string)
    requires sep != "" && Find(sep, s).None?
    ensures Explode(sep, s) == [s]
  {
  }

  /** `substr($s, 0, -2)`: all but the last two characters ("" when shorter). */
  function DropLast2(s: string): (r: string)
    ensures |s| >= 2 ==> s == r + s[|s| - 2..]
    ensures |s| < 2 ==> r == ""
  {
    if |s| >= 2 then s[..|s| - 2] else ""
  }

  /**
   * The text a loop builds by appending each item followed by `sep`
   * (`$acc .= $item.', '`).
   */
  function Terminated(items: seq<string>, sep: string): string {
    if items == [] then ""
    else Terminated(items[..|items| - 1], sep) + items[|items| - 1] + sep
  }

  /** The text a loop builds by appending `sep` followed by each item (`$acc .= ' AND '.$c`). */
  function Prefixed(items: seq<string>, sep: string): string {
    if items == [] then ""
    else Prefixed(items[..|items| - 1], sep) + sep + items[|items| - 1]
  }

  /** Cutting two characters off the end of `x + y`, `y` two long, gives `x`. */
  lemma DropLast2Append(x: string, y: string)
    requires |y| == 2
    ensures DropLast2(x + y) == x
  {
    assert (x + y)[..|x + y| - 2] == x;
  }

  /** Imploding two non-empty lists in a row puts one separator between them. */
  lemma {:induction false} JoinConcat(sep: string, a: seq<string>, b: seq<string>)
    requires a != [] && b != []
    ensures Join(sep, a + b) == Join(sep, a) + sep + Join(sep, b)
    decreases |a|
  {
    var ab := a + b;
    assert |ab| >= 2 && ab[0] == a[0];
    if |a| == 1 {
      assert ab[1..] == b;
      assert Join(sep, ab) == a[0] + sep + Join(sep, b);
    } else {
      assert ab[1..] == a[1..] + b;
      JoinConcat(sep, a[1..], b);
      assert Join(sep, a) == a[0] + sep + Join(sep, a[1..]);
    }
  }

  lemma {:induction false} JoinSnoc(sep: string, items: seq<string>, x: string)
    requires items != []
    ensures Join(sep, items + [x]) == Join(sep, items) + sep + x
    decreases |items|
  {
    if |items| > 1 {
      JoinSnoc(sep, items[1..], x);
      assert (items + [x])[1..] == items[1..] + [x];
    }
  }

  lemma TerminatedSnoc(items: seq<string>, x: string, sep: string)
    ensures Terminated(items + [x], sep) == Terminated(items, sep) + x + sep
  {
    assert (items + [x])[..|items|] == items;
  }

  /** A separator-terminated accumulation is the implode plus one trailing separator. */
  lemma {:induction false} TerminatedIsJoin(items: seq<string>, sep: string)
    requires items != []
    ensures Terminated(items, sep) == Join(sep, items) + sep
    decreases |items|
  {
    var init := items[..|items| - 1];
    if init == [] {
      assert items == [items[0]];
    } else {
      TerminatedIsJoin(init, sep);
      JoinSnoc(sep, init, items[|items| - 1]);
      assert init + [items[|items| - 1]] == items;
    }
  }

  lemma PrefixedSnoc(items: seq<string>, x: string, sep: string)
    ensures Prefixed(items + [x], sep) == Prefixed(items, sep) + sep + x
  {
    assert (items + [x])[..|items|] == items;
  }

  /** `Prefixed` with no separator just concatenates. */
  lemma PlainSnoc(items: seq<string>, x: string)
    ensures Prefixed(items + [x], "") == Prefixed(items, "") + x
  {
    PrefixedSnoc(items, x, "");
    assert Prefixed(items, "") + "" == Prefixed(items, "");
  }

  /** A separator-prefixed accumulation is the separator followed by the implode. */
  lemma {:induction false} PrefixedIsJoin(items: seq<string>, sep: string)
    requires items != []
    ensures Prefixed(items, sep) == sep + Join(sep, items)
    decreases |items|
  {
    var init := items[..|items| - 1];
    var x := items[|items| - 1];
    SplitLast(items);
    if init == [] {
      PrefixedSingle(x, sep);
    } else {
      PrefixedIsJoin(init, sep);
      PrefixedJoinSnoc(init, x, sep);
    }
  }

  lemma PrefixedSingle(x: string, sep: string)
    ensures Prefixed([x], sep) == sep + Join(sep, [x])
  {
    assert [x][..0] == [];
    assert "" + sep == sep;
  }

  lemma PrefixedJoinSnoc(init: seq<string>, x: string, sep: string)
    requires init != [] && Prefixed(init, sep) == sep + Join(sep, init)
    ensures Prefixed(init + [x], sep) == sep + Join(sep, init + [x])
  {
    PrefixedSnoc(init, x, sep);
    JoinSnoc(sep, init, x);
    AppendAssoc(sep, Join(sep, init), sep);
    AppendAssoc(sep, Join(sep, init) + sep, x);
  }

  /** Cutting the trailing ", " off a ", "-terminated accumulation gives the implode. */
  lemma TrimmedAccumulation(items: seq<string>)
    ensures DropLast2(Terminated(items, ", ")) == Join(", ", items)
  {
    if items != [] {
      TerminatedIsJoin(items, ", ");
      var j := Join(", ", items);
      assert (j + ", ")[..|j + ", "| - 2] == j;
    }
  }

  /** `str_replace($c, $rep, $s)` for a one-character search string. */
  function ReplaceChar(s: string, c: char, rep: string): string
    decreases |s|
  {
    if s == "" then ""
    else (if s[0] == c then rep else [s[0]]) + ReplaceChar(s[1..], c, rep)
  }

  /** A string without the searched character is left as it is. */
  lemma {:induction false} ReplaceCharAbsent(s: string, c: char, rep: string)
    requires c !in s
    ensures ReplaceChar(s, c, rep) == s
    decreases |s|
  {
    if s != "" {
      ReplaceCharAbsent(s[1..], c, rep);
      assert s == [s[0]] + s[1..];
    }
  }

  /** Replacing distributes over concatenation. */
  lemma {:induction false} ReplaceCharAppend(a: string, b: string, c: char, rep: string)
    ensures ReplaceChar(a + b, c, rep) == ReplaceChar(a, c, rep) + ReplaceChar(b, c, rep)
    decreases |a|
  {
    if a != "" {
      ReplaceCharAppend(a[1..], b, c, rep);
      assert (a + b)[1..] == a[1..] + b;
    } else {
      assert a + b == b;
    }
  }

  /** Every occurrence of `c` in `pre + [c] + post` (with none in `pre`, `post`) becomes `rep`. */
  lemma ReplaceCharSingle(pre: string, c: char, post: string, rep: string)
    requires c !in pre && c !in post
    ensures ReplaceChar(pre + [c] + post, c, rep) == pre + rep + post
  {
    ReplaceCharAppend(pre + [c], post, c, rep);
    ReplaceCharAppend(pre, [c], c, rep);
    ReplaceCharAbsent(pre, c, rep);
    ReplaceCharAbsent(post, c, rep);
    assert ReplaceChar([c], c, rep) == rep by {
      assert [c][1..] == [];
      assert ReplaceChar([c], c, rep) == rep + ReplaceChar([], c, rep);
    }
  }

  /** Number of occurrences of character `c` in `s`. */
  function CountChar(s: string, c: char): nat
    decreases |s|
  {
    if s == "" then 0 else (if s[0] == c then 1 else 0) + CountChar(s[1..], c)
  }

  lemma {:induction false} CountCharAppend(a: string, b: string, c: char)
    ensures CountChar(a + b, c) == CountChar(a, c) + CountChar(b, c)
    decreases |a|
  {
    if a == "" {
      assert a + b == b;
    } else {
      CountCharAppend(a[1..], b, c);
      assert (a + b)[1..] == a[1..] + b;
    }
  }

  lemma {:induction false} CountCharAbsent(s: string, c: char)
    requires c !in s
    ensures CountChar(s, c) == 0
    decreases |s|
  {
    if s != "" {
      assert c !in s[1..] by {
        assert forall k :: 0 <= k < |s[1..]| ==> s[1..][k] == s[k + 1];
      }
      CountCharAbsent(s[1..], c);
    }
  }

  /** Decimal digit character. */
  function DigitChar(d: nat): char
    requires d < 10
  {
    ('0' as int + d) as char
  }

  /** Decimal rendering of a natural number, most significant digit first. */
  function NatToDecimal(n: nat): (r: string)
    ensures |r| >= 1
    ensures forall i :: 0 <= i < |r| ==> '0' <= r[i] <= '9'
    decreases n
  {
    if n < 10 then [DigitChar(n)] else NatToDecimal(n / 10) + [DigitChar(n % 10)]
  }

  /** PHP's rendering of an integer in a string context (`.= intval($nb)`). */
  function IntToDecimal(i: int): (r: string)
    ensures |r| >= 1
    ensures r[0] == '-' <==> i < 0
    ensures forall k :: 0 < k < |r| ==> '0' <= r[k] <= '9'
  {
    if i < 0 then "-" + NatToDecimal(-i) else NatToDecimal(i)
  }

  /** Value of a string of decimal digits. */
  function DigitsValue(s: string): int
    decreases |s|
  {
    if s == "" then 0 else DigitsValue(s[..|s| - 1]) * 10 + (s[|s| - 1] as int - '0' as int)
  }

  /** Reads an optionally signed decimal integer, the inverse of the rendering. */
  function ParseDecimal(s: string): int {
    if s != "" && s[0] == '-' then -DigitsValue(s[1..]) else DigitsValue(s)
  }

  lemma {:induction false} NatDecimalRoundTrip(n: nat)
    ensures DigitsValue(NatToDecimal(n)) == n
    decreases n
  {
    if n >= 10 {
      NatDecimalRoundTrip(n / 10);
      var s := NatToDecimal(n);
      assert s[..|s| - 1] == NatToDecimal(n / 10);
    }
  }

  /** The decimal rendering loses nothing: reading it back gives the integer. */
  lemma DecimalRoundTrip(i: int)
    ensures ParseDecimal(IntToDecimal(i)) == i
  {
    if i < 0 {
      NatDecimalRoundTrip(-i);
      assert ("-" + NatToDecimal(-i))[1..] == NatToDecimal(-i);
    } else {
      NatDecimalRoundTrip(i);
    }
  }
}

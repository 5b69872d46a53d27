/**
 * The parts of the PHP runtime that the HTML helpers lean on: PHP values and
 * their truthiness (`empty()`), the string cast, `htmlspecialchars` with
 * ENT_QUOTES, decimal rendering of integers, `explode`/`implode` on a single
 * space, `array_unique` and `sort` on strings.
 */
module Php {

  datatype Option<+T> = None | Some(value: T)

  /** The exceptions the helpers throw, as values. */
  datatype Error =
    | TypeMismatch(typeName: string)      // FallenException('type', ...) of txt2Html
    | StructureError                      // LogicException: "Expected key 'tag', 'text', or 'html'"
    | ClassListTypeError                  // TypeError: cleanClasses() called with a non-array
    | NotConvertible(className: string)   // Error: an object without __toString in a string context
    | InvalidArgument(typeName: string)   // InvalidArgumentException of RenderWalker::getClasses
    | NotFakeAttribute(name: string)      // LogicException of HtmlElement::setFakeAttribute
    | IntegerName                         // TypeError: an integer array key passed as a string name under strict types

  datatype Result<+T> = Ok(value: T) | Err(error: Error) {
    predicate IsFailure() { Err? }
    function PropagateFailure<U>(): Result<U>
      requires Err?
    {
      Err(error)
    }
    function Extract(): T
      requires Ok?
    {
      value
    }
  }

  lemma ConcatAssociative(a: string, b: string, c: string)
    ensures (a + b) + c == a + (b + c)
  {
  }

  /**
   * Appending the outcome of a step to the outcome so far: the first error
   * wins, as the first exception thrown ends a run of appends.
   */
  function Join(a: Result<string>, b: Result<string>): Result<string> {
    if a.Err? then a else if b.Err? then b else Ok(a.value + b.value)
  }

  lemma JoinAssociative(a: Result<string>, b: Result<string>, c: Result<string>)
    ensures Join(Join(a, b), c) == Join(a, Join(b, c))
  {
    if a.Ok? && b.Ok? && c.Ok? {
      assert (a.value + b.value) + c.value == a.value + (b.value + c.value);
    }
  }

  /**
   * A PHP value. Arrays that appear as values are only ever iterated over by
   * value, so their keys are not kept; an object is known by its class name
   * only and is taken to have no __toString method. Floats are not modelled.
   */
  datatype Value =
    | Null
    | Bool(b: bool)
    | Int(i: int)
    | Str(s: string)
    | Arr(items: seq<Value>)
    | Obj(className: string)

  /** PHP's empty(): null, false, 0, '', '0' and the empty array. */
  predicate IsEmpty(v: Value) {
    match v
    case Null => true
    case Bool(b) => !b
    case Int(i) => i == 0
    case Str(s) => s == "" || s == "0"
    case Arr(items) => items == []
    case Obj(_) => false
  }

  /** The name of the type of a value, as gettype() or get_class() reports it. */
  function TypeName(v: Value): string {
    match v
    case Null => "NULL"
    case Bool(_) => "boolean"
    case Int(_) => "integer"
    case Str(_) => "string"
    case Arr(_) => "array"
    case Obj(c) => c
  }

  // ---------------------------------------------------------------------------
  // Decimal rendering of integers, with its inverse.

  function DigitChar(d: nat): (c: char)
    requires d < 10
    ensures '0' <= c <= '9'
  {
    "0123456789"[d]
  }

  function NatToString(n: nat): (r: string)
    ensures |r| >= 1
    ensures forall k :: 0 <= k < |r| ==> '0' <= r[k] <= '9'
    decreases n
  {
    if n < 10 then [DigitChar(n)] else NatToString(n / 10) + [DigitChar(n % 10)]
  }

  /** (string)$i for an integer $i. */
  function IntToString(i: int): string {
    if i < 0 then "-" + NatToString(-i) else NatToString(i)
  }

  function ParseNat(s: string): nat
    decreases |s|
  {
    if s == [] then 0
    else
      var d := s[|s| - 1] as int - '0' as int;
      ParseNat(s[..|s| - 1]) * 10 + (if 0 <= d < 10 then d else 0)
  }

  function ParseInt(s: string): int {
    if s != [] && s[0] == '-' then 0 - ParseNat(s[1..]) else ParseNat(s)
  }

  lemma {:induction false} NatToStringRoundTrip(n: nat)
    ensures ParseNat(NatToString(n)) == n
    decreases n
  {
    var r := NatToString(n);
    if n >= 10 {
      NatToStringRoundTrip(n / 10);
      assert r[..|r| - 1] == NatToString(n / 10);
    }
  }

  /** The decimal form of an integer determines the integer. */
  lemma IntToStringRoundTrip(i: int)
    ensures ParseInt(IntToString(i)) == i
  {
    if i < 0 {
      var d := NatToString(-i);
      NatToStringRoundTrip(-i);
      assert ("-" + d)[0] == '-' && ("-" + d)[1..] == d;
    } else {
      var d := NatToString(i);
      NatToStringRoundTrip(i);
      assert '0' <= d[0] <= '9';
    }
  }

  lemma IntToStringInjective(i: int, j: int)
    requires i != j
    ensures IntToString(i) != IntToString(j)
  {
    IntToStringRoundTrip(i);
    IntToStringRoundTrip(j);
  }

  // ---------------------------------------------------------------------------
  // Array keys: a string key that is the decimal form of an integer in PHP's
  // 64-bit range is stored as that integer.

  const PhpIntMin: int := -0x8000_0000_0000_0000
  const PhpIntMax: int := 0x7FFF_FFFF_FFFF_FFFF

  /** A non-empty run of digits that does not start with a zero. */
  predicate Canonical(d: string) {
    |d| > 0 && '1' <= d[0] <= '9' && forall k :: 0 < k < |d| ==> '0' <= d[k] <= '9'
  }

  /** A key PHP turns into an integer: '0', or a canonical run of digits with or without '-', in range. */
  predicate IntegerKey(s: string) {
    && (s == "0" || Canonical(s) || (|s| > 1 && s[0] == '-' && Canonical(s[1..])))
    && PhpIntMin <= ParseInt(s) <= PhpIntMax
  }

  lemma DigitCharValue(d: nat)
    requires d < 10
    ensures DigitChar(d) as int - '0' as int == d
  {
  }

  lemma {:induction false} NatToStringCanonical(n: nat)
    requires n >= 1
    ensures Canonical(NatToString(n))
    decreases n
  {
    DigitCharValue(n % 10);
    if n >= 10 {
      NatToStringCanonical(n / 10);
    }
  }

  lemma {:induction false} CanonicalRoundTrip(d: string)
    requires Canonical(d)
    ensures ParseNat(d) >= 1 && NatToString(ParseNat(d)) == d
    decreases |d|
  {
    var c := d[|d| - 1] as int - '0' as int;
    DigitCharValue(c);
    if |d| > 1 {
      var p := d[..|d| - 1];
      assert Canonical(p);
      CanonicalRoundTrip(p);
      var n := ParseNat(d);
      assert n / 10 == ParseNat(p) && n % 10 == c;
      assert NatToString(n) == p + [d[|d| - 1]];
    } else {
      assert d[..0] == [];
      assert NatToString(c) == [DigitChar(c)];
    }
  }

  /** A key PHP turns into an integer is the decimal form of that integer. */
  lemma IntegerKeyIsDecimal(s: string)
    requires IntegerKey(s)
    ensures IntToString(ParseInt(s)) == s
  {
    var i := ParseInt(s);
    if s == "0" {
      assert IntToString(0) == [DigitChar(0)] == "0";
    } else if Canonical(s) {
      CanonicalRoundTrip(s);
      assert i == ParseNat(s);
    } else {
      CanonicalRoundTrip(s[1..]);
      assert -i == ParseNat(s[1..]);
      assert s == "-" + s[1..];
    }
  }

  /** The decimal form of every integer in range is a key PHP turns into an integer. */
  lemma DecimalIsIntegerKey(i: int)
    requires PhpIntMin <= i <= PhpIntMax
    ensures IntegerKey(IntToString(i))
  {
    var s := IntToString(i);
    IntToStringRoundTrip(i);
    if i < 0 {
      NatToStringCanonical(-i);
      assert s[1..] == NatToString(-i);
    } else if i > 0 {
      NatToStringCanonical(i);
    } else {
      assert s == [DigitChar(0)] == "0";
    }
  }

  /** The keys PHP turns into integers are exactly the decimal forms of the integers in range. */
  lemma IntegerKeyIff(s: string)
    ensures IntegerKey(s) <==> exists i :: PhpIntMin <= i <= PhpIntMax && IntToString(i) == s
  {
    if IntegerKey(s) {
      IntegerKeyIsDecimal(s);
    }
    if exists i :: PhpIntMin <= i <= PhpIntMax && IntToString(i) == s {
      var i :| PhpIntMin <= i <= PhpIntMax && IntToString(i) == s;
      DecimalIsIntegerKey(i);
    }
  }

  // ---------------------------------------------------------------------------
  // htmlspecialchars($s, ENT_QUOTES): the five characters & < > " ' become
  // entities; every other character is copied.

  function EscapeChar(c: char): string {
    if c == '&' then "&amp;"
    else if c == '<' then "&lt;"
    else if c == '>' then "&gt;"
    else if c == '"' then "&quot;"
    else if c == '\'' then "&#039;"
    else [c]
  }

  function HtmlSpecialChars(s: string): string
    decreases |s|
  {
    if s == [] then [] else EscapeChar(s[0]) + HtmlSpecialChars(s[1..])
  }

  predicate IsMarkupChar(c: char) {
    c == '<' || c == '>' || c == '"' || c == '\''
  }

  predicate IsSpecialChar(c: char) {
    c == '&' || IsMarkupChar(c)
  }

  /** No character of s can open a tag or close an attribute value. */
  predicate MarkupFree(s: string) {
    forall k :: 0 <= k < |s| ==> !IsMarkupChar(s[k])
  }

  /** The decoding of the five entities; the reference that htmlspecialchars inverts. */
  function Unescape(s: string): string
    decreases |s|
  {
    if s == [] then []
    else if "&amp;" <= s then "&" + Unescape(s[5..])
    else if "&lt;" <= s then "<" + Unescape(s[4..])
    else if "&gt;" <= s then ">" + Unescape(s[4..])
    else if "&quot;" <= s then "\"" + Unescape(s[6..])
    else if "&#039;" <= s then "'" + Unescape(s[6..])
    else [s[0]] + Unescape(s[1..])
  }

  /** Decoding an entity followed by more text. */
  lemma UnescapeEntity(entity: string, c: char, rest: string)
    requires entity == EscapeChar(c) && IsSpecialChar(c)
    ensures Unescape(entity + rest) == [c] + Unescape(rest)
  {
    var e := entity + rest;
    assert e[..|entity|] == entity && e[|entity|..] == rest;
    assert e[0] == '&' && e[1] == entity[1];
  }

  lemma UnescapeEscapeChar(c: char, rest: string)
    ensures Unescape(EscapeChar(c) + rest) == [c] + Unescape(rest)
  {
    if IsSpecialChar(c) {
      UnescapeEntity(EscapeChar(c), c, rest);
    } else {
      var e := [c] + rest;
      assert e[0] == c && e[1..] == rest;
    }
  }

  /** Escaping loses nothing: decoding the entities gives the text back. */
  lemma {:induction false} EscapeRoundTrip(s: string)
    ensures Unescape(HtmlSpecialChars(s)) == s
    decreases |s|
  {
    if s != [] {
      UnescapeEscapeChar(s[0], HtmlSpecialChars(s[1..]));
      EscapeRoundTrip(s[1..]);
    }
  }

  /** Escaped text contains none of < > " '. */
  lemma {:induction false} EscapedIsMarkupFree(s: string)
    ensures MarkupFree(HtmlSpecialChars(s))
    decreases |s|
  {
    if s != [] {
      EscapedIsMarkupFree(s[1..]);
      var e, r := EscapeChar(s[0]), HtmlSpecialChars(s[1..]);
      assert MarkupFree(e);
      assert forall k :: |e| <= k < |e + r| ==> (e + r)[k] == r[k - |e|];
    }
  }

  /** Text without any of the five special characters is copied unchanged. */
  lemma {:induction false} EscapePlainText(s: string)
    requires forall k :: 0 <= k < |s| ==> !IsSpecialChar(s[k])
    ensures HtmlSpecialChars(s) == s
    decreases |s|
  {
    if s != [] {
      EscapePlainText(s[1..]);
    }
  }

  lemma {:induction false} EscapeConcat(a: string, b: string)
    ensures HtmlSpecialChars(a + b) == HtmlSpecialChars(a) + HtmlSpecialChars(b)
    decreases |a|
  {
    if a != [] {
      assert (a + b)[0] == a[0] && (a + b)[1..] == a[1..] + b;
      EscapeConcat(a[1..], b);
      assert HtmlSpecialChars(a + b) == EscapeChar(a[0]) + (HtmlSpecialChars(a[1..]) + HtmlSpecialChars(b));
    } else {
      assert a + b == b;
    }
  }

  /** gettype: like TypeName, but every object is "object". */
  function GetType(v: Value): string {
    if v.Obj? then "object" else TypeName(v)
  }

  // ---------------------------------------------------------------------------
  // The string cast that `$html .= $value` applies to a value.

  function StrCast(v: Value): (r: Result<string>)
    ensures r.Err? <==> v.Obj?
  {
    match v
    case Null => Ok("")
    case Bool(b) => Ok(if b then "1" else "")
    case Int(i) => Ok(IntToString(i))
    case Str(s) => Ok(s)
    case Arr(_) => Ok("Array")
    case Obj(c) => Err(NotConvertible(c))
  }

  // ---------------------------------------------------------------------------
  // explode(' ', $s) and implode(' ', $parts).

  function Explode(s: string): (parts: seq<string>)
    ensures |parts| >= 1
    decreases |s|
  {
    if s == [] then [""]
    else
      var rest := Explode(s[1..]);
      if s[0] == ' ' then [""] + rest else [[s[0]] + rest[0]] + rest[1..]
  }

  function Implode(parts: seq<string>): string
    decreases |parts|
  {
    if parts == [] then ""
    else if |parts| == 1 then parts[0]
    else parts[0] + " " + Implode(parts[1..])
  }

  /** Joining non-empty pieces gives the empty string only for no pieces. */
  lemma ImplodeEmpty(parts: seq<string>)
    requires forall k :: 0 <= k < |parts| ==> parts[k] != ""
    ensures Implode(parts) == "" <==> parts == []
  {
    if |parts| > 1 {
      assert |Implode(parts)| >= |parts[0]| > 0;
    }
  }

  /** strpos($name, '_') === 0: the name starts with an underscore. */
  predicate LeadingUnderscore(name: string) {
    |name| > 0 && name[0] == '_'
  }

  predicate SpaceFree(s: string) {
    forall k :: 0 <= k < |s| ==> s[k] != ' '
  }

  /** Joining the pieces of explode(' ', s) with ' ' gives s back. */
  lemma {:induction false} ImplodeExplode(s: string)
    ensures Implode(Explode(s)) == s
    decreases |s|
  {
    if s != [] {
      ImplodeExplode(s[1..]);
      var rest := Explode(s[1..]);
      if |rest| >= 2 {
        assert Implode(rest) == rest[0] + " " + Implode(rest[1..]);
      }
    }
  }

  lemma {:induction false} ExplodeWord(p: string, tail: string)
    requires SpaceFree(p)
    ensures Explode(p + tail) == [p + Explode(tail)[0]] + Explode(tail)[1..]
    decreases |p|
  {
    var e := Explode(tail);
    if p == [] {
      assert p + tail == tail && p + e[0] == e[0];
    } else {
      assert (p + tail)[0] == p[0] && (p + tail)[1..] == p[1..] + tail;
      ExplodeWord(p[1..], tail);
      var rest := Explode(p[1..] + tail);
      assert rest[0] == p[1..] + e[0] && rest[1..] == e[1..];
      assert [p[0]] + rest[0] == p + e[0];
    }
  }

  /** Splitting the join of space-free pieces gives the pieces back. */
  lemma {:induction false} ExplodeImplode(parts: seq<string>)
    requires |parts| >= 1
    requires forall k :: 0 <= k < |parts| ==> SpaceFree(parts[k])
    ensures Explode(Implode(parts)) == parts
    decreases |parts|
  {
    if |parts| == 1 {
      ExplodeWord(parts[0], "");
      assert parts[0] + "" == parts[0] && Explode("") == [""];
      assert parts == [parts[0]];
    } else {
      var tail := Implode(parts[1..]);
      ExplodeImplode(parts[1..]);
      assert Explode(" " + tail) == [""] + parts[1..] by {
        assert (" " + tail)[0] == ' ' && (" " + tail)[1..] == tail;
      }
      assert Implode(parts) == parts[0] + (" " + tail);
      ExplodeWord(parts[0], " " + tail);
      assert parts[0] + "" == parts[0];
      assert parts == [parts[0]] + parts[1..];
    }
  }

  lemma {:induction false} ExplodeSpaceFree(s: string)
    ensures forall k :: 0 <= k < |Explode(s)| ==> SpaceFree(Explode(s)[k])
    decreases |s|
  {
    if s != [] {
      ExplodeSpaceFree(s[1..]);
      var rest := Explode(s[1..]);
      if s[0] != ' ' {
        var w := [s[0]] + rest[0];
        assert forall k :: 1 <= k < |w| ==> w[k] == rest[0][k - 1];
      }
    }
  }

  /** explode(' ', a . ' ' . b) splits at the joining space. */
  lemma {:induction false} ExplodeAppend(a: string, b: string)
    ensures Explode(a + " " + b) == Explode(a) + Explode(b)
    decreases |a|
  {
    if a == [] {
      assert a + " " + b == " " + b && (" " + b)[1..] == b;
    } else {
      var s := a + " " + b;
      assert s[0] == a[0] && s[1..] == a[1..] + " " + b;
      ExplodeAppend(a[1..], b);
    }
  }

  /** array_diff($parts, [$x]): the pieces other than x, in order. */
  function Without(parts: seq<string>, x: string): (r: seq<string>)
    ensures forall p :: p in r <==> p in parts && p != x
    ensures |r| <= |parts|
    decreases |parts|
  {
    if parts == [] then []
    else
      var rest := Without(parts[1..], x);
      assert parts == [parts[0]] + parts[1..];
      if parts[0] == x then rest else [parts[0]] + rest
  }

  lemma {:induction false} WithoutKeepsSpaceFree(parts: seq<string>, x: string)
    requires forall k :: 0 <= k < |parts| ==> SpaceFree(parts[k])
    ensures forall k :: 0 <= k < |Without(parts, x)| ==> SpaceFree(Without(parts, x)[k])
    decreases |parts|
  {
    if parts != [] {
      WithoutKeepsSpaceFree(parts[1..], x);
    }
  }

  // ---------------------------------------------------------------------------
  // array_unique and sort on lists of strings.

  /** array_unique: the first occurrence of every string, in order. */
  function Unique(s: seq<string>): (r: seq<string>)
    ensures forall x :: x in r <==> x in s
    ensures Distinct(r)
    decreases |s|
  {
    if s == [] then []
    else
      var rest := Unique(s[..|s| - 1]);
      assert s == s[..|s| - 1] + [s[|s| - 1]];
      if s[|s| - 1] in s[..|s| - 1] then rest else rest + [s[|s| - 1]]
  }

  predicate Distinct(s: seq<string>) {
    forall i, j :: 0 <= i < j < |s| ==> s[i] != s[j]
  }

  /** Lexicographic order of code points (strcmp on UTF-8 agrees with it). */
  predicate StrLeq(a: string, b: string)
    decreases |a|
  {
    a == [] || (b != [] && (a[0] < b[0] || (a[0] == b[0] && StrLeq(a[1..], b[1..]))))
  }

  lemma {:induction false} StrLeqTotal(a: string, b: string)
    ensures StrLeq(a, b) || StrLeq(b, a)
    decreases |a|
  {
    if a != [] && b != [] && a[0] == b[0] {
      StrLeqTotal(a[1..], b[1..]);
    }
  }

  lemma {:induction false} StrLeqTransitive(a: string, b: string, c: string)
    requires StrLeq(a, b) && StrLeq(b, c)
    ensures StrLeq(a, c)
    decreases |a|
  {
    if a != [] && a[0] == b[0] && b[0] == c[0] {
      StrLeqTransitive(a[1..], b[1..], c[1..]);
    }
  }

  lemma {:induction false} StrLeqAntisymmetric(a: string, b: string)
    requires StrLeq(a, b) && StrLeq(b, a)
    ensures a == b
    decreases |a|
  {
    if a != [] {
      StrLeqAntisymmetric(a[1..], b[1..]);
      assert a == [a[0]] + a[1..] && b == [b[0]] + b[1..];
    }
  }

  predicate Sorted(s: seq<string>) {
    forall i, j :: 0 <= i < j < |s| ==> StrLeq(s[i], s[j])
  }

  function Insert(x: string, s: seq<string>): seq<string>
    decreases |s|
  {
    if s == [] then [x]
    else if StrLeq(x, s[0]) then [x] + s
    else [s[0]] + Insert(x, s[1..])
  }

  /** sort($s): insertion sort, which PHP's sort agrees with on strings. */
  function Sort(s: seq<string>): seq<string>
    decreases |s|
  {
    if s == [] then [] else Insert(s[0], Sort(s[1..]))
  }

  /** Every string of t is at least the head of s, when x goes after that head. */
  lemma InsertTailAbove(x: string, s: seq<string>, t: seq<string>)
    requires Sorted(s) && s != [] && !StrLeq(x, s[0])
    requires multiset(t) == multiset(s[1..]) + multiset{x}
    ensures forall k :: 0 <= k < |t| ==> StrLeq(s[0], t[k])
  {
    StrLeqTotal(x, s[0]);
    forall k | 0 <= k < |t| ensures StrLeq(s[0], t[k]) {
      assert t[k] in multiset(t);
      if t[k] != x {
        assert t[k] in multiset(s[1..]);
        var m :| 0 <= m < |s[1..]| && s[1..][m] == t[k];
        assert s[m + 1] == t[k];
      }
    }
  }

  lemma {:induction false} InsertKeepsOrder(x: string, s: seq<string>)
    requires Sorted(s)
    ensures Sorted(Insert(x, s))
    ensures multiset(Insert(x, s)) == multiset(s) + multiset{x}
    decreases |s|
  {
    if s != [] {
      assert s == [s[0]] + s[1..];
      if StrLeq(x, s[0]) {
        forall j | 0 < j < |s| ensures StrLeq(x, s[j]) {
          StrLeqTransitive(x, s[0], s[j]);
        }
      } else {
        var t := Insert(x, s[1..]);
        InsertKeepsOrder(x, s[1..]);
        InsertTailAbove(x, s, t);
      }
    }
  }

  /** sort() yields an ordered rearrangement of its input. */
  lemma {:induction false} SortIsOrderedPermutation(s: seq<string>)
    ensures Sorted(Sort(s))
    ensures multiset(Sort(s)) == multiset(s)
    decreases |s|
  {
    if s != [] {
      SortIsOrderedPermutation(s[1..]);
      InsertKeepsOrder(s[0], Sort(s[1..]));
      assert s == [s[0]] + s[1..];
    }
  }

  lemma {:induction false} DistinctCountsOnce(s: seq<string>, x: string)
    requires Distinct(s)
    ensures multiset(s)[x] <= 1
    decreases |s|
  {
    if s != [] {
      var p := s[..|s| - 1];
      assert s == p + [s[|s| - 1]];
      assert Distinct(p);
      DistinctCountsOnce(p, x);
      if x == s[|s| - 1] {
        assert x !in p;
      }
    }
  }

  lemma RepeatCountsTwice(s: seq<string>, i: int, j: int)
    requires 0 <= i < j < |s| && s[i] == s[j]
    ensures multiset(s)[s[i]] >= 2
  {
    assert s == s[..j] + [s[j]] + s[j + 1..];
    assert s[..j][i] == s[i];
  }

  /** array_unique followed by sort(): strictly ordered, with exactly the strings of the input. */
  lemma SortUniqueIsStrict(s: seq<string>)
    ensures Sorted(Sort(Unique(s))) && Distinct(Sort(Unique(s)))
    ensures forall x :: x in Sort(Unique(s)) <==> x in s
  {
    var u := Unique(s);
    var r := Sort(u);
    SortIsOrderedPermutation(u);
    forall i, j | 0 <= i < j < |r| ensures r[i] != r[j] {
      if r[i] == r[j] {
        RepeatCountsTwice(r, i, j);
        DistinctCountsOnce(u, r[i]);
        assert false;
      }
    }
    forall x ensures x in r <==> x in s {
      assert x in r <==> x in multiset(r);
      assert x in u <==> x in multiset(u);
    }
  }
}

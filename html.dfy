/**
 * The static HTML helper Plaisio\Helper\Html: attribute rendering with its
 * normalisation rules, start tags and void elements, the renderer of nested
 * element structures, txt2Html, txt2Slug and the id counter.
 *
 * The helpers that append to the by-reference buffer `&$html` are methods
 * that take the buffer as a value and return the new buffer, or the
 * exception that stopped them.
 */
module Html {
  import opened Php
  import Slug

  /** The attributes of a tag, in iteration order (name, value). */
  type Attributes = seq<(string, Value)>

  /**
   * A structure handed to htmlNested: null, a list (an array whose first key
   * is an integer) or a non-empty record with the keys 'tag', 'attr', 'inner',
   * 'text' and 'html'. For 'inner', 'text' and 'html' only the presence of the
   * key decides the shape, so these are optional; 'tag' counts only when it is
   * set and not null; a missing or null 'attr' is the empty list.
   */
  datatype Node =
    | NullNode
    | List(items: seq<Node>)
    | Record(tag: Option<string>, attr: Attributes, inner: Option<Node>, text: Option<Value>, html: Option<Value>)

  /** The transliteration table of txt2Slug: the replacement of each character it rewrites. */
  function Trans(c: char): Option<string> {
    if c < 'ß' then None
    else if c <= 'ÿ' then
      match c
      case 'ß' => Some("sz")
      case 'à' => Some("a")
      case 'á' => Some("a")
      case 'â' => Some("a")
      case 'ã' => Some("a")
      case 'ä' => Some("a")
      case 'å' => Some("a")
      case 'æ' => Some("ae")
      case 'ç' => Some("c")
      case 'è' => Some("e")
      case 'é' => Some("e")
      case 'ê' => Some("e")
      case 'ë' => Some("e")
      case 'ì' => Some("i")
      case 'í' => Some("i")
      case 'î' => Some("i")
      case 'ï' => Some("i")
      case 'ð' => Some("e")
      case 'ñ' => Some("n")
      case 'ò' => Some("o")
      case 'ó' => Some("o")
      case 'ô' => Some("o")
      case 'õ' => Some("o")
      case 'ö' => Some("o")
      case '÷' => Some("x")
      case 'ø' => Some("o")
      case 'ù' => Some("u")
      case 'ú' => Some("u")
      case 'û' => Some("u")
      case 'ü' => Some("u")
      case 'ý' => Some("y")
      case 'þ' => Some("b")
      case 'ÿ' => Some("y")
      case _ => None
    else if c < 'Ѐ' then
      match c
      case 'č' => Some("c")
      case 'ł' => Some("l")
      case 'š' => Some("s")
      case 'ů' => Some("u")
      case 'ž' => Some("z")
      case _ => None
    else
      match c
      case 'а' => Some("a")
      case 'б' => Some("b")
      case 'в' => Some("v")
      case 'г' => Some("g")
      case 'д' => Some("d")
      case 'е' => Some("e")
      case 'ж' => Some("zh")
      case 'з' => Some("z")
      case 'и' => Some("i")
      case 'й' => Some("i")
      case 'к' => Some("k")
      case 'л' => Some("l")
      case 'м' => Some("m")
      case 'н' => Some("n")
      case 'о' => Some("o")
      case 'п' => Some("p")
      case 'р' => Some("r")
      case 'с' => Some("s")
      case 'т' => Some("t")
      case 'у' => Some("u")
      case 'ф' => Some("f")
      case 'х' => Some("kh")
      case 'ц' => Some("ts")
      case 'ч' => Some("ch")
      case 'ш' => Some("sh")
      case 'щ' => Some("shch")
      case 'ъ' => Some("")
      case 'ы' => Some("y")
      case 'ь' => Some("")
      case 'э' => Some("e")
      case 'ю' => Some("iu")
      case 'я' => Some("ia")
      case 'ё' => Some("e")
      case _ => None
  }

  /** The attributes that are set by being present (value equal to the name). */
  const BooleanAttributes: set<string> := {
    "autofocus", "checked", "disabled", "hidden", "ismap", "multiple",
    "novalidate", "readonly", "required", "selected", "spellcheck"
  }

  // ---------------------------------------------------------------------------
  // txt2Html and txt2Slug.

  /** Values that txt2Html accepts: everything but arrays and objects. */
  predicate Scalar(v: Value) {
    !v.Arr? && !v.Obj?
  }

  /** txt2Html: escapes a string, renders a scalar, refuses an array or an object. */
  function Txt2Html(v: Value): (r: Result<string>)
    ensures r.Ok? <==> Scalar(v)
    ensures r.Err? ==> r.error == TypeMismatch(TypeName(v))
    ensures r.Ok? ==> MarkupFree(r.value)
    ensures v.Str? ==> r.Ok? && Unescape(r.value) == v.s
    ensures v.Int? ==> r.Ok? && ParseInt(r.value) == v.i
    ensures v.Null? ==> r == Ok("")
    ensures v.Bool? ==> r == Ok(if v.b then "1" else "0")
  {
    match v
    case Str(s) =>
      EscapedIsMarkupFree(s);
      EscapeRoundTrip(s);
      Ok(HtmlSpecialChars(s))
    case Int(i) =>
      IntToStringRoundTrip(i);
      DecimalIsMarkupFree(i);
      Ok(IntToString(i))
    case Null => Ok("")
    case Bool(b) => Ok(if b then "1" else "0")
    case _ => Err(TypeMismatch(TypeName(v)))
  }

  lemma DecimalIsMarkupFree(i: int)
    ensures MarkupFree(IntToString(i))
  {
    var d := NatToString(if i < 0 then -i else i);
    assert forall k :: 0 <= k < |d| ==> !IsMarkupChar(d[k]);
    if i < 0 {
      var s := "-" + d;
      assert forall k :: 1 <= k < |s| ==> s[k] == d[k - 1];
    }
  }

  /** txt2Slug: null gives the empty slug, a string goes through the slug pipeline. */
  function Txt2Slug(s: Option<string>): (r: string)
    ensures s.None? ==> r == ""
    ensures Slug.IsSlug(r)
  {
    if s.None? then ""
    else
      Slug.SlugifyIsSlug(Trans, s.value);
      Slug.Slugify(Trans, s.value)
  }

  lemma TransKeepsSlugAlphabet()
    ensures Slug.KeepsSlugAlphabet(Trans)
  {
    forall c | Trans(c).Some? ensures !Slug.IsSlugChar(c) && c != '-' {
      assert c as int >= 0xDF;
    }
  }

  /** A slug is its own slug. */
  lemma Txt2SlugIdempotent(s: Option<string>)
    ensures Txt2Slug(Some(Txt2Slug(s))) == Txt2Slug(s)
  {
    TransKeepsSlugAlphabet();
    if s.Some? {
      Slug.SlugifyIdempotent(Trans, s.value);
    } else {
      assert Slug.Slugify(Trans, "") == "";
    }
  }

  // Literal cases of txt2Slug.

  lemma NordicLowered() ensures Slug.LowerCase("Mørdag") == "mørdag" {}
  lemma NordicTransliterated() ensures Slug.Transliterate(Trans, "mørdag") == "mordag" {}

  lemma Txt2SlugNordic()
    ensures Txt2Slug(Some("Mørdag")) == "mordag"
  {
    NordicLowered();
    NordicTransliterated();
    Slug.CleanSlugUnchanged("mordag");
  }

  lemma LigatureLowered() ensures Slug.LowerCase("Æther") == "æther" {}
  lemma LigatureTransliterated() ensures Slug.Transliterate(Trans, "æther") == "aether" {}

  /** A letter of the table can stand for two Latin letters. */
  lemma Txt2SlugLigature()
    ensures Txt2Slug(Some("Æther")) == "aether"
  {
    LigatureLowered();
    LigatureTransliterated();
    Slug.CleanSlugUnchanged("aether");
  }

  lemma UnknownLowered() ensures Slug.LowerCase("əƏ") == "əə" {}
  lemma UnknownTransliterated() ensures Slug.Transliterate(Trans, "əə") == "əə" {}

  /** Letters that are neither in the table nor in [0-9a-z] leave nothing. */
  lemma Txt2SlugUnknownLetters()
    ensures Txt2Slug(Some("əƏ")) == ""
  {
    UnknownLowered();
    UnknownTransliterated();
    assert Slug.SlugChars("əə") == "";
    Slug.SlugEmptyIff(Trans, "əƏ");
  }

  // ---------------------------------------------------------------------------
  // cleanClasses.

  /** The classes after txt2Html, in input order, without the empty ones. */
  function EscapedClasses(classes: seq<Value>): Result<seq<string>>
    decreases |classes|
  {
    if classes == [] then Ok([])
    else
      var clean :- EscapedClasses(classes[..|classes| - 1]);
      var tmp :- Txt2Html(classes[|classes| - 1]);
      Ok(if tmp != "" then clean + [tmp] else clean)
  }

  /** cleanClasses: escaped, without empty strings and duplicates, sorted. */
  function CleanedClasses(classes: seq<Value>): Result<seq<string>> {
    var clean :- EscapedClasses(classes);
    Ok(Sort(Unique(clean)))
  }

  lemma {:induction false} EscapedClassesFailFast(classes: seq<Value>, i: int)
    requires 0 <= i <= |classes| && EscapedClasses(classes[..i]).Err?
    ensures EscapedClasses(classes) == EscapedClasses(classes[..i])
    decreases |classes|
  {
    if i < |classes| {
      var p := classes[..|classes| - 1];
      assert p[..i] == classes[..i];
      EscapedClassesFailFast(p, i);
    } else {
      assert classes[..i] == classes;
    }
  }

  method CleanClasses(classes: seq<Value>) returns (r: Result<seq<string>>)
    ensures r == CleanedClasses(classes)
  {
    var clean: seq<string> := [];
    for i := 0 to |classes|
      invariant EscapedClasses(classes[..i]) == Ok(clean)
    {
      assert classes[..i + 1][..i] == classes[..i];
      var tmp := Txt2Html(classes[i]);
      if tmp.Err? {
        EscapedClassesFailFast(classes, i + 1);
        return Err(tmp.error);
      }
      if tmp.value != "" {
        clean := clean + [tmp.value];
      }
    }
    assert classes[..|classes|] == classes;
    r := Ok(Sort(Unique(clean)));
  }

  lemma {:induction false} EscapedClassesFailure(classes: seq<Value>)
    ensures EscapedClasses(classes).Ok? <==> forall k :: 0 <= k < |classes| ==> Scalar(classes[k])
    ensures EscapedClasses(classes).Err? ==>
      (exists k :: 0 <= k < |classes| && FirstFailure(classes, k) && EscapedClasses(classes).error == TypeMismatch(TypeName(classes[k])))
    decreases |classes|
  {
    if classes != [] {
      var n := |classes| - 1;
      var p := classes[..n];
      EscapedClassesFailure(p);
      assert forall k :: 0 <= k < n ==> classes[k] == p[k];
      if EscapedClasses(p).Err? {
        assert EscapedClasses(classes) == EscapedClasses(p);
        var k :| 0 <= k < |p| && FirstFailure(p, k) && EscapedClasses(p).error == TypeMismatch(TypeName(p[k]));
        assert classes[k] == p[k] && FirstFailure(classes, k);
      } else if Txt2Html(classes[n]).Err? {
        assert EscapedClasses(classes) == Err(TypeMismatch(TypeName(classes[n])));
        assert FirstFailure(classes, n);
      } else {
        assert EscapedClasses(classes).Ok?;
      }
    }
  }

  /** Some value of the list escapes to the non-empty class x. */
  predicate Produces(classes: seq<Value>, x: string) {
    x != "" && exists k :: 0 <= k < |classes| && Txt2Html(classes[k]) == Ok(x)
  }

  lemma ProducesStep(classes: seq<Value>, x: string)
    requires classes != [] && Scalar(classes[|classes| - 1])
    ensures Produces(classes, x) <==>
      Produces(classes[..|classes| - 1], x) || (x != "" && Txt2Html(classes[|classes| - 1]) == Ok(x))
  {
    var n := |classes| - 1;
    var p := classes[..n];
    if Produces(classes, x) {
      var k :| 0 <= k < |classes| && Txt2Html(classes[k]) == Ok(x);
      if k < n {
        assert Txt2Html(p[k]) == Ok(x);
      }
    }
    if Produces(p, x) {
      var k :| 0 <= k < |p| && Txt2Html(p[k]) == Ok(x);
      assert Txt2Html(classes[k]) == Ok(x);
    }
  }

  lemma {:induction false} EscapedClassesContents(classes: seq<Value>)
    requires EscapedClasses(classes).Ok?
    ensures forall x :: x in EscapedClasses(classes).value <==> Produces(classes, x)
    decreases |classes|
  {
    if classes != [] {
      var n := |classes| - 1;
      var p := classes[..n];
      EscapedClassesContents(p);
      var c := EscapedClasses(p).value;
      var t := Txt2Html(classes[n]).value;
      assert EscapedClasses(classes).value == if t != "" then c + [t] else c;
      forall x ensures x in EscapedClasses(classes).value <==> Produces(classes, x) {
        ProducesStep(classes, x);
      }
    }
  }

  /** The first value txt2Html refuses is the one at k. */
  predicate FirstFailure(classes: seq<Value>, k: int)
    requires 0 <= k < |classes|
  {
    !Scalar(classes[k]) && forall j :: 0 <= j < k ==> Scalar(classes[j])
  }

  /**
   * cleanClasses fails exactly on an array or an object in the list, with the
   * type of the first of them; otherwise it yields the non-empty escaped
   * classes, each once, in ascending order.
   */
  lemma CleanedClassesMeaning(classes: seq<Value>)
    ensures CleanedClasses(classes).Ok? <==> forall k :: 0 <= k < |classes| ==> Scalar(classes[k])
    ensures CleanedClasses(classes).Err? ==>
      (exists k :: 0 <= k < |classes| && FirstFailure(classes, k) && CleanedClasses(classes).error == TypeMismatch(TypeName(classes[k])))
    ensures CleanedClasses(classes).Ok? ==>
      var r := CleanedClasses(classes).value;
      && Sorted(r) && Distinct(r)
      && forall x :: x in r <==> Produces(classes, x)
  {
    EscapedClassesFailure(classes);
    if EscapedClasses(classes).Ok? {
      EscapedClassesContents(classes);
      SortUniqueIsStrict(EscapedClasses(classes).value);
    }
  }

  // ---------------------------------------------------------------------------
  // htmlAttributeHelper.

  /** The branch of htmlAttributeHelper's switch that an attribute takes. */
  datatype Rule = Flag | Draggable | Pair(yes: string, no: string) | ClassList | Plain

  /** A string converted to a boolean: only '' and '0' are false. */
  predicate Truthy(s: string) {
    s != "" && s != "0"
  }

  /**
   * The cases of the switch in order. The class case compares the name with
   * the boolean "the value is an array" (loosely, so the name is converted to
   * a boolean): an array value with any name not matched before takes it, and
   * so does a name '' or '0' with a value that is not an array (as a key of
   * an attribute array '0' never gets this far: see EntryText).
   */
  function RuleOf(name: string, value: Value): Rule {
    if name in BooleanAttributes then Flag
    else if name == "draggable" then Draggable
    else if name == "contenteditable" then Pair("true", "false")
    else if name == "autocomplete" then Pair("on", "off")
    else if name == "translate" then Pair("yes", "no")
    else if Truthy(name) == value.Arr? then ClassList
    else Plain
  }

  /** The text htmlAttributeHelper appends for one attribute. */
  function AttributeText(name: string, value: Value): Result<string> {
    match RuleOf(name, value)
    case Flag =>
      Ok(if IsEmpty(value) then "" else " " + name + "=\"" + name + "\"")
    case Draggable =>
      Ok(if value.Null? then ""
         else if value == Str("auto") then " draggable=\"auto\""
         else if IsEmpty(value) || value == Str("false") then " draggable=\"false\""
         else " draggable=\"true\"")
    case Pair(yes, no) =>
      Ok(if value.Null? then "" else " " + name + "=\"" + (if IsEmpty(value) then no else yes) + "\"")
    case ClassList =>
      if !value.Arr? then Err(ClassListTypeError)
      else
        var classes :- CleanedClasses(value.items);
        var joined := Implode(classes);
        Ok(if joined == "" then "" else " class=\"" + HtmlSpecialChars(joined) + "\"")
    case Plain =>
      if value.Null? || value == Str("") then Ok("")
      else
        var text :- Txt2Html(value);
        Ok(" " + HtmlSpecialChars(name) + "=\"" + text + "\"")
  }

  /** htmlAttributeHelper: the switch of AttributeText written as statements that append to the buffer. */
  method AttributeHelper(name: string, value: Value, html: string) returns (r: Result<string>)
    ensures r == Join(Ok(html), AttributeText(name, value))
  {
    var buf := html;
    assert html + "" == html;
    if name in BooleanAttributes {
      assert RuleOf(name, value) == Flag;
      if !IsEmpty(value) {
        buf := buf + (" " + name + "=\"" + name + "\"");
      }
    } else if name == "draggable" {
      assert RuleOf(name, value) == Draggable;
      if !value.Null? {
        if value == Str("auto") {
          buf := buf + " draggable=\"auto\"";
        } else if IsEmpty(value) || value == Str("false") {
          buf := buf + " draggable=\"false\"";
        } else {
          buf := buf + " draggable=\"true\"";
        }
      }
    } else if name == "contenteditable" {
      assert RuleOf(name, value) == Pair("true", "false");
      if !value.Null? {
        buf := buf + (" " + name + "=\"" + (if IsEmpty(value) then "false" else "true") + "\"");
      }
    } else if name == "autocomplete" {
      assert RuleOf(name, value) == Pair("on", "off");
      if !value.Null? {
        buf := buf + (" " + name + "=\"" + (if IsEmpty(value) then "off" else "on") + "\"");
      }
    } else if name == "translate" {
      assert RuleOf(name, value) == Pair("yes", "no");
      if !value.Null? {
        buf := buf + (" " + name + "=\"" + (if IsEmpty(value) then "no" else "yes") + "\"");
      }
    } else if Truthy(name) == value.Arr? {
      assert RuleOf(name, value) == ClassList;
      if !value.Arr? {
        return Err(ClassListTypeError);
      }
      var clean := CleanClasses(value.items);
      if clean.Err? {
        return Err(clean.error);
      }
      var classes := Implode(clean.value);
      if classes != "" {
        buf := buf + (" class=\"" + HtmlSpecialChars(classes) + "\"");
      }
    } else {
      assert RuleOf(name, value) == Plain;
      if !value.Null? && value != Str("") {
        var text := Txt2Html(value);
        if text.Err? {
          return Err(text.error);
        }
        buf := buf + (" " + HtmlSpecialChars(name) + "=\"" + text.value + "\"");
      }
    }
    r := Ok(buf);
  }

  // ---------------------------------------------------------------------------
  // htmlTagHelper and htmlVoidElementHelper.

  /**
   * The call of htmlAttributeHelper for one entry of an attribute array. PHP
   * stores a key such as '42' as an integer, and the strict types of
   * src/Html.php refuse an integer for the string parameter $name.
   */
  function EntryText(name: string, value: Value): Result<string> {
    if IntegerKey(name) then Err(IntegerName) else AttributeText(name, value)
  }

  /** The attributes of a tag, each rendered in turn; the first failure wins. */
  function AttributesText(attributes: Attributes): Result<string>
    decreases |attributes|
  {
    if attributes == [] then Ok("")
    else
      var last := attributes[|attributes| - 1];
      Join(AttributesText(attributes[..|attributes| - 1]), EntryText(last.0, last.1))
  }

  function StartTag(tagName: string, attributes: Attributes): Result<string> {
    Join(Join(Ok("<" + tagName), AttributesText(attributes)), Ok(">"))
  }

  function VoidTag(tagName: string, attributes: Attributes): Result<string> {
    Join(Join(Ok("<" + tagName), AttributesText(attributes)), Ok("/>"))
  }

  function EndTag(tagName: string): string {
    "</" + tagName + ">"
  }

  lemma {:induction false} AttributesFailFast(attributes: Attributes, i: int)
    requires 0 <= i <= |attributes| && AttributesText(attributes[..i]).Err?
    ensures AttributesText(attributes) == AttributesText(attributes[..i])
    decreases |attributes|
  {
    if i < |attributes| {
      var p := attributes[..|attributes| - 1];
      assert p[..i] == attributes[..i];
      AttributesFailFast(p, i);
    } else {
      assert attributes[..i] == attributes;
    }
  }

  lemma AttributesStep(attributes: Attributes, i: int)
    requires 0 <= i < |attributes|
    ensures AttributesText(attributes[..i + 1])
      == Join(AttributesText(attributes[..i]), EntryText(attributes[i].0, attributes[i].1))
  {
    assert attributes[..i + 1][..i] == attributes[..i];
  }

  /** Appending a tag to a buffer is appending its parts one after the other. */
  lemma AppendTag(html: string, open: string, attributes: Result<string>, close: string)
    ensures Join(Ok(html), Join(Join(Ok(open), attributes), Ok(close)))
      == Join(Join(Ok(html + open), attributes), Ok(close))
  {
    if attributes.Ok? {
      var a := attributes.value;
      assert html + (open + a + close) == html + open + a + close;
    }
  }

  method TagHelper(tagName: string, attributes: Attributes, html: string) returns (r: Result<string>)
    ensures r == Join(Ok(html), StartTag(tagName, attributes))
  {
    var buf := html + "<" + tagName;
    ghost var prefix := buf;
    assert prefix == html + ("<" + tagName);
    assert attributes[..0] == [] && buf + "" == buf;
    for i := 0 to |attributes|
      invariant Join(Ok(prefix), AttributesText(attributes[..i])) == Ok(buf)
    {
      AttributesStep(attributes, i);
      JoinAssociative(Ok(prefix), AttributesText(attributes[..i]), EntryText(attributes[i].0, attributes[i].1));
      var step: Result<string>;
      if IntegerKey(attributes[i].0) {
        // PHP passes the key as an integer, and strict types refuse it for $name.
        step := Err(IntegerName);
      } else {
        step := AttributeHelper(attributes[i].0, attributes[i].1, buf);
      }
      if step.Err? {
        AttributesFailFast(attributes, i + 1);
        AppendTag(html, "<" + tagName, AttributesText(attributes), ">");
        return step;
      }
      buf := step.value;
    }
    assert attributes[..|attributes|] == attributes;
    AppendTag(html, "<" + tagName, AttributesText(attributes), ">");
    r := Ok(buf + ">");
  }

  method VoidElementHelper(tagName: string, attributes: Attributes, html: string) returns (r: Result<string>)
    ensures r == Join(Ok(html), VoidTag(tagName, attributes))
  {
    var buf := html + "<" + tagName;
    ghost var prefix := buf;
    assert prefix == html + ("<" + tagName);
    assert attributes[..0] == [] && buf + "" == buf;
    for i := 0 to |attributes|
      invariant Join(Ok(prefix), AttributesText(attributes[..i])) == Ok(buf)
    {
      AttributesStep(attributes, i);
      JoinAssociative(Ok(prefix), AttributesText(attributes[..i]), EntryText(attributes[i].0, attributes[i].1));
      var step: Result<string>;
      if IntegerKey(attributes[i].0) {
        // PHP passes the key as an integer, and strict types refuse it for $name.
        step := Err(IntegerName);
      } else {
        step := AttributeHelper(attributes[i].0, attributes[i].1, buf);
      }
      if step.Err? {
        AttributesFailFast(attributes, i + 1);
        AppendTag(html, "<" + tagName, AttributesText(attributes), "/>");
        return step;
      }
      buf := step.value;
    }
    assert attributes[..|attributes|] == attributes;
    AppendTag(html, "<" + tagName, AttributesText(attributes), "/>");
    r := Ok(buf + "/>");
  }

  // ---------------------------------------------------------------------------
  // htmlNestedHelper and htmlNested.

  /** The HTML code of a structure, or the exception rendering it throws. */
  function Rendered(node: Node): Result<string>
    decreases node
  {
    match node
    case NullNode => Ok("")
    case List(items) => RenderedList(items)
    case Record(tag, attr, inner, text, html) =>
      if tag.Some? then
        if inner.Some? then Join(Join(StartTag(tag.value, attr), Rendered(inner.value)), Ok(EndTag(tag.value)))
        else if text.Some? then Join(Join(StartTag(tag.value, attr), Txt2Html(text.value)), Ok(EndTag(tag.value)))
        else if html.Some? then Join(Join(StartTag(tag.value, attr), StrCast(html.value)), Ok(EndTag(tag.value)))
        else VoidTag(tag.value, attr)
      else if text.Some? then Txt2Html(text.value)
      else if html.Some? then StrCast(html.value)
      else Err(StructureError)
  }

  /** The members of a list, rendered in order; the first failure wins. */
  function RenderedList(items: seq<Node>): Result<string>
    decreases items
  {
    if items == [] then Ok("")
    else Join(RenderedList(items[..|items| - 1]), Rendered(items[|items| - 1]))
  }

  lemma {:induction false} RenderedListFailFast(items: seq<Node>, i: int)
    requires 0 <= i <= |items| && RenderedList(items[..i]).Err?
    ensures RenderedList(items) == RenderedList(items[..i])
    decreases |items|
  {
    if i < |items| {
      var p := items[..|items| - 1];
      assert p[..i] == items[..i];
      RenderedListFailFast(p, i);
    } else {
      assert items[..i] == items;
    }
  }

  method NestedHelper(node: Node, html: string) returns (r: Result<string>)
    ensures r == Join(Ok(html), Rendered(node))
    ensures r.Ok? ==> html <= r.value
    decreases node
  {
    match node
    case NullNode =>
      r := Ok(html);
    case List(items) =>
      var buf := html;
      assert items[..0] == [] && buf + "" == buf;
      for i := 0 to |items|
        invariant Join(Ok(html), RenderedList(items[..i])) == Ok(buf)
      {
        assert items[..i + 1][..i] == items[..i];
        JoinAssociative(Ok(html), RenderedList(items[..i]), Rendered(items[i]));
        var step := NestedHelper(items[i], buf);
        if step.Err? {
          RenderedListFailFast(items, i + 1);
          return step;
        }
        buf := step.value;
      }
      assert items[..|items|] == items;
      r := Ok(buf);
    case Record(tag, attr, inner, text, raw) =>
      if tag.Some? {
        var close := Ok(EndTag(tag.value));
        if inner.Some? {
          var open := TagHelper(tag.value, attr, html);
          if open.Err? {
            return open;
          }
          JoinAssociative(Ok(html), StartTag(tag.value, attr), Rendered(inner.value));
          var body := NestedHelper(inner.value, open.value);
          if body.Err? {
            return body;
          }
          JoinAssociative(Ok(html), Join(StartTag(tag.value, attr), Rendered(inner.value)), close);
          r := Ok(body.value + EndTag(tag.value));
        } else if text.Some? {
          var open := TagHelper(tag.value, attr, html);
          if open.Err? {
            return open;
          }
          JoinAssociative(Ok(html), StartTag(tag.value, attr), Txt2Html(text.value));
          JoinAssociative(Ok(html), Join(StartTag(tag.value, attr), Txt2Html(text.value)), close);
          var escaped := Txt2Html(text.value);
          if escaped.Err? {
            return Err(escaped.error);
          }
          r := Ok(open.value + escaped.value + EndTag(tag.value));
        } else if raw.Some? {
          var open := TagHelper(tag.value, attr, html);
          if open.Err? {
            return open;
          }
          JoinAssociative(Ok(html), StartTag(tag.value, attr), StrCast(raw.value));
          JoinAssociative(Ok(html), Join(StartTag(tag.value, attr), StrCast(raw.value)), close);
          var cast := StrCast(raw.value);
          if cast.Err? {
            return Err(cast.error);
          }
          r := Ok(open.value + cast.value + EndTag(tag.value));
        } else {
          r := VoidElementHelper(tag.value, attr, html);
        }
      } else if text.Some? {
        var escaped := Txt2Html(text.value);
        r := Join(Ok(html), escaped);
      } else if raw.Some? {
        var cast := StrCast(raw.value);
        r := Join(Ok(html), cast);
      } else {
        r := Err(StructureError);
      }
  }

  method HtmlNested(struct: Node) returns (r: Result<string>)
    ensures r == Rendered(struct)
  {
    r := NestedHelper(struct, "");
    assert Rendered(struct).Ok? ==> "" + Rendered(struct).value == Rendered(struct).value;
  }

  // ---------------------------------------------------------------------------
  // What the renderer promises.

  /** A list renders as its parts one after the other. */
  lemma {:induction false} RenderedListConcat(a: seq<Node>, b: seq<Node>)
    ensures RenderedList(a + b) == Join(RenderedList(a), RenderedList(b))
    decreases |b|
  {
    if b == [] {
      assert a + b == a;
      assert RenderedList(a).Ok? ==> RenderedList(a).value + "" == RenderedList(a).value;
    } else {
      var c := a + b;
      var p := b[..|b| - 1];
      assert c[..|c| - 1] == a + p;
      assert c[|c| - 1] == b[|b| - 1];
      RenderedListConcat(a, p);
      JoinAssociative(RenderedList(a), RenderedList(p), Rendered(b[|b| - 1]));
    }
  }

  /** An attribute that htmlAttributeHelper renders without an exception. */
  predicate AttributeRenderable(name: string, value: Value) {
    match RuleOf(name, value)
    case ClassList => value.Arr? && forall k :: 0 <= k < |value.items| ==> Scalar(value.items[k])
    case Plain => Scalar(value)
    case _ => true
  }

  /** An entry of an attribute array that is rendered: its key is a string, and its attribute renders. */
  predicate EntryRenderable(name: string, value: Value) {
    !IntegerKey(name) && AttributeRenderable(name, value)
  }

  predicate AttributesRenderable(attributes: Attributes) {
    forall k :: 0 <= k < |attributes| ==> EntryRenderable(attributes[k].0, attributes[k].1)
  }

  /**
   * A structure that htmlNested renders without an exception: every record
   * has a tag, a text or an html key; the text it escapes is a scalar, the
   * html it inserts is not an object, and the attributes of its tags render.
   */
  predicate Renderable(node: Node)
    decreases node
  {
    match node
    case NullNode => true
    case List(items) => forall k :: 0 <= k < |items| ==> Renderable(items[k])
    case Record(tag, attr, inner, text, html) =>
      if tag.Some? then
        && AttributesRenderable(attr)
        && (if inner.Some? then Renderable(inner.value)
            else if text.Some? then Scalar(text.value)
            else html.None? || !html.value.Obj?)
      else if text.Some? then Scalar(text.value)
      else html.Some? && !html.value.Obj?
  }

  lemma AttributeTextSucceedsIff(name: string, value: Value)
    ensures AttributeText(name, value).Ok? <==> AttributeRenderable(name, value)
  {
    if RuleOf(name, value) == ClassList && value.Arr? {
      CleanedClassesMeaning(value.items);
    }
  }

  lemma AttributesRenderableStep(attributes: Attributes)
    requires attributes != []
    ensures var n := |attributes| - 1;
      AttributesRenderable(attributes)
      == (AttributesRenderable(attributes[..n]) && EntryRenderable(attributes[n].0, attributes[n].1))
  {
    var n := |attributes| - 1;
    assert forall k :: 0 <= k < n ==> attributes[..n][k] == attributes[k];
  }

  lemma {:induction false} AttributesTextSucceedsIff(attributes: Attributes)
    ensures AttributesText(attributes).Ok? <==> AttributesRenderable(attributes)
    decreases |attributes|
  {
    if attributes != [] {
      var n := |attributes| - 1;
      AttributesTextSucceedsIff(attributes[..n]);
      AttributeTextSucceedsIff(attributes[n].0, attributes[n].1);
      AttributesRenderableStep(attributes);
    }
  }

  /** htmlNested throws exactly on the structures that are not renderable. */
  lemma {:induction false} RenderedSucceedsIff(node: Node)
    ensures Rendered(node).Ok? <==> Renderable(node)
    decreases node
  {
    match node
    case NullNode =>
    case List(items) =>
      RenderedListSucceedsIff(items);
    case Record(tag, attr, inner, text, html) =>
      if tag.Some? {
        AttributesTextSucceedsIff(attr);
        if inner.Some? {
          RenderedSucceedsIff(inner.value);
        }
      }
  }

  lemma {:induction false} RenderedListSucceedsIff(items: seq<Node>)
    ensures RenderedList(items).Ok? <==> forall k :: 0 <= k < |items| ==> Renderable(items[k])
    decreases items
  {
    if items != [] {
      var n := |items| - 1;
      var p := items[..n];
      RenderedListSucceedsIff(p);
      RenderedSucceedsIff(items[n]);
      assert forall k :: 0 <= k < n ==> items[k] == p[k];
    }
  }

  // ---------------------------------------------------------------------------
  // What the attribute rules promise.

  /** An attribute in a start tag: nothing, or ` name="value"` where neither part can end the value or the tag. */
  ghost predicate SafeAttribute(s: string) {
    s == "" || exists n, v :: Shaped(s, n, v)
  }

  /** s is ` n="v"` with n and v plain text. */
  predicate Shaped(s: string, n: string, v: string) {
    s == " " + n + "=\"" + v + "\"" && MarkupFree(n) && MarkupFree(v)
  }

  lemma BooleanNamesMarkupFree(name: string)
    requires name in BooleanAttributes
    ensures MarkupFree(name)
  {
  }

  /** The words the fixed cases write are plain text. */
  lemma WordsMarkupFree()
    ensures MarkupFree("draggable") && MarkupFree("contenteditable") && MarkupFree("autocomplete")
    ensures MarkupFree("translate") && MarkupFree("class") && MarkupFree("auto")
    ensures MarkupFree("true") && MarkupFree("false") && MarkupFree("on") && MarkupFree("off")
    ensures MarkupFree("yes") && MarkupFree("no")
  {
  }

  lemma FlagAttributeIsSafe(name: string, value: Value)
    requires RuleOf(name, value) == Flag
    ensures SafeAttribute(AttributeText(name, value).value)
  {
    if !IsEmpty(value) {
      BooleanNamesMarkupFree(name);
      assert Shaped(AttributeText(name, value).value, name, name);
    }
  }

  lemma DraggableIsSafe(value: Value)
    ensures SafeAttribute(AttributeText("draggable", value).value)
  {
    var s := AttributeText("draggable", value).value;
    if !value.Null? {
      var w := if value == Str("auto") then "auto" else if IsEmpty(value) || value == Str("false") then "false" else "true";
      DraggableShaped(w);
      if w == "auto" {
        assert s == " draggable=\"" + "auto" + "\"";
      } else if w == "false" {
        assert s == " draggable=\"" + "false" + "\"";
      } else {
        assert s == " draggable=\"" + "true" + "\"";
      }
      assert Shaped(s, "draggable", w);
    }
  }

  lemma DraggableShaped(w: string)
    requires w == "auto" || w == "false" || w == "true"
    ensures Shaped(" draggable=\"" + w + "\"", "draggable", w)
  {
    assert " draggable=\"" == " " + "draggable" + "=\"";
    assert MarkupFree("draggable");
  }

  lemma PairAttributeIsSafe(name: string, value: Value)
    requires RuleOf(name, value).Pair?
    ensures SafeAttribute(AttributeText(name, value).value)
  {
    var s := AttributeText(name, value).value;
    if s != "" {
      var rule := RuleOf(name, value);
      WordsMarkupFree();
      assert Shaped(s, name, if IsEmpty(value) then rule.no else rule.yes);
    }
  }

  lemma ComputedAttributeIsSafe(name: string, value: Value)
    requires RuleOf(name, value) == ClassList || RuleOf(name, value) == Plain
    requires AttributeText(name, value).Ok?
    ensures SafeAttribute(AttributeText(name, value).value)
  {
    if RuleOf(name, value) == ClassList {
      ClassAttributeIsSafe(name, value);
    } else {
      PlainAttributeIsSafe(name, value);
    }
  }

  lemma ClassAttributeIsSafe(name: string, value: Value)
    requires RuleOf(name, value) == ClassList
    requires AttributeText(name, value).Ok?
    ensures SafeAttribute(AttributeText(name, value).value)
  {
    var s := AttributeText(name, value).value;
    if s != "" {
      var joined := Implode(CleanedClasses(value.items).value);
      EscapedIsMarkupFree(joined);
      ClassShaped(HtmlSpecialChars(joined));
      assert s == " class=\"" + HtmlSpecialChars(joined) + "\"";
    }
  }

  lemma ClassShaped(e: string)
    requires MarkupFree(e)
    ensures Shaped(" class=\"" + e + "\"", "class", e)
  {
    assert " class=\"" == " " + "class" + "=\"";
    assert MarkupFree("class");
  }

  lemma PlainAttributeIsSafe(name: string, value: Value)
    requires RuleOf(name, value) == Plain
    requires AttributeText(name, value).Ok?
    ensures SafeAttribute(AttributeText(name, value).value)
  {
    var s := AttributeText(name, value).value;
    if s != "" {
      EscapedIsMarkupFree(name);
      assert Shaped(s, HtmlSpecialChars(name), Txt2Html(value).value);
    }
  }

  /** Every attribute htmlAttributeHelper appends is well formed, whatever the name and the value. */
  lemma AttributeTextIsSafe(name: string, value: Value)
    requires AttributeText(name, value).Ok?
    ensures SafeAttribute(AttributeText(name, value).value)
  {
    var rule := RuleOf(name, value);
    if rule == ClassList || rule == Plain {
      ComputedAttributeIsSafe(name, value);
    } else if rule == Flag {
      FlagAttributeIsSafe(name, value);
    } else if rule == Draggable {
      DraggableIsSafe(value);
    } else {
      PairAttributeIsSafe(name, value);
    }
  }

  /** A boolean attribute is present exactly when its value is not empty. */
  lemma BooleanAttributeRule(name: string, value: Value)
    requires name in BooleanAttributes
    ensures !IsEmpty(value) <==> AttributeText(name, value) == Ok(" " + name + "=\"" + name + "\"")
    ensures IsEmpty(value) <==> AttributeText(name, value) == Ok("")
  {
  }

  /** draggable: null omits it, 'auto' keeps it, empty or 'false' gives false, anything else true. */
  lemma DraggableRule(value: Value)
    ensures value.Null? <==> AttributeText("draggable", value) == Ok("")
    ensures value == Str("auto") <==> AttributeText("draggable", value) == Ok(" draggable=\"auto\"")
    ensures !value.Null? && (IsEmpty(value) || value == Str("false"))
      <==> AttributeText("draggable", value) == Ok(" draggable=\"false\"")
    ensures !value.Null? && !IsEmpty(value) && value != Str("auto") && value != Str("false")
      ==> AttributeText("draggable", value) == Ok(" draggable=\"true\"")
  {
  }

  /** contenteditable, autocomplete and translate: null omits them, otherwise truthiness picks one of two words. */
  lemma PairAttributeRule(name: string, value: Value)
    requires name in {"contenteditable", "autocomplete", "translate"}
    ensures value.Null? <==> AttributeText(name, value) == Ok("")
    ensures !value.Null? ==> AttributeText(name, value) == Ok(" " + name + "=\"" + (
      if name == "contenteditable" then (if IsEmpty(value) then "false" else "true")
      else if name == "autocomplete" then (if IsEmpty(value) then "off" else "on")
      else (if IsEmpty(value) then "no" else "yes")) + "\"")
  {
  }

  /** Any name not matched before and not an integer key, given an array, is rendered as the class list. */
  lemma ArrayValueIsClassList(name: string, items: seq<Value>)
    requires name !in BooleanAttributes && name !in {"draggable", "contenteditable", "autocomplete", "translate"}
    requires Truthy(name)
    ensures AttributeText(name, Arr(items)) == AttributeText("class", Arr(items))
  {
  }

  /**
   * The keys '' and '0' fail with every value: '0' as an integer key, ''
   * in the class case or in txt2Html of an array.
   */
  lemma FalsyNameFails(name: string, value: Value)
    requires !Truthy(name)
    ensures EntryText(name, value) ==
      if name == "0" then Err(IntegerName)
      else if value.Arr? then Err(TypeMismatch("array"))
      else Err(ClassListTypeError)
  {
    if name == "0" {
      assert IntegerKey("0");
    }
  }

  /** The key of an integer in PHP's range fails whatever its value, before htmlAttributeHelper is entered. */
  lemma IntegerNameFails(i: int, value: Value)
    requires PhpIntMin <= i <= PhpIntMax
    ensures EntryText(IntToString(i), value) == Err(IntegerName)
  {
    DecimalIsIntegerKey(i);
  }

  /** The class list is left out exactly when no class survives cleaning. */
  lemma ClassListOmittedIffEmpty(items: seq<Value>)
    requires CleanedClasses(items).Ok?
    ensures AttributeText("class", Arr(items)) == Ok("") <==> CleanedClasses(items).value == []
  {
    var r := CleanedClasses(items).value;
    CleanedClassesMeaning(items);
    assert forall k :: 0 <= k < |r| ==> r[k] in r;
    ImplodeEmpty(r);
  }

  /** A class given as a single value (not an array) takes the default case like any other attribute. */
  lemma ScalarClassIsPlain(value: Value)
    requires !value.Arr?
    ensures RuleOf("class", value) == Plain
  {
  }

  lemma ClassNameEscaped()
    ensures HtmlSpecialChars("class") == "class"
  {
    EscapePlainText("class");
  }

  /** The default case skips null and '' only: false, 0 and '0' all render as "0". */
  lemma DefaultRule(name: string, value: Value)
    requires RuleOf(name, value) == Plain
    ensures AttributeText(name, value) == Ok("") <==> value.Null? || value == Str("")
    ensures value == Bool(false) || value == Int(0) || value == Str("0")
      ==> AttributeText(name, value) == Ok(" " + HtmlSpecialChars(name) + "=\"0\"")
  {
    if value == Int(0) {
      assert IntToString(0) == "0";
    } else if value == Str("0") {
      EscapePlainText("0");
    }
    if value == Bool(false) || value == Int(0) || value == Str("0") {
      assert Txt2Html(value) == Ok("0");
      var e := HtmlSpecialChars(name);
      assert " " + e + "=\"" + "0" + "\"" == " " + e + "=\"0\"";
    }
  }

  // Literal cases.

  lemma EscapedNameTail()
    ensures HtmlSpecialChars("&?<") == "&amp;?&lt;"
  {
  }

  lemma EscapedNameHead()
    ensures HtmlSpecialChars("qwerty") == "qwerty"
  {
    EscapePlainText("qwerty");
  }

  lemma EscapedNameExample()
    ensures HtmlSpecialChars("qwerty" + "&?<") == "qwerty" + "&amp;?&lt;"
  {
    EscapeConcat("qwerty", "&?<");
    EscapedNameHead();
    EscapedNameTail();
  }

  lemma EscapedValueExample()
    ensures HtmlSpecialChars("<a>&") == "&lt;a&gt;&amp;"
  {
  }

  /** An attribute with markup in its name and its value, as in the test of htmlTag; both are escaped. */
  lemma EscapedAttributeExample()
    ensures AttributeText("qwerty" + "&?<", Str("<a>&")) == Ok(" " + ("qwerty" + "&amp;?&lt;") + "=\"" + "&lt;a&gt;&amp;" + "\"")
  {
    var name, value := "qwerty" + "&?<", Str("<a>&");
    assert IsMarkupChar(name[8]);
    if name in BooleanAttributes {
      BooleanNamesMarkupFree(name);
    }
    assert RuleOf(name, value) == Plain;
    PlainText(name, value);
    EscapedNameExample();
    EscapedValueExample();
  }

  /** A class given as one string is escaped once, like any other attribute, and not split into tokens. */
  lemma ClassStringText(t: string)
    requires t != ""
    ensures AttributeText("class", Str(t)) == Ok(" " + "class" + "=\"" + HtmlSpecialChars(t) + "\"")
  {
    ScalarClassIsPlain(Str(t));
    PlainText("class", Str(t));
    ClassNameEscaped();
  }

  lemma TestClassAttribute()
    ensures AttributesText([("class", Str("test"))]) == Ok(" " + "class" + "=\"" + "test" + "\"")
  {
    ClassStringText("test");
    EscapePlainText("test");
    var a: Attributes := [("class", Str("test"))];
    assert a[..0] == [];
    assert AttributesText(a) == Join(Ok(""), EntryText("class", Str("test")));
    var t := " " + "class" + "=\"" + "test" + "\"";
    assert "" + t == t;
  }

  lemma PlainText(name: string, value: Value)
    requires RuleOf(name, value) == Plain && value.Str? && value.s != ""
    ensures AttributeText(name, value) == Ok(" " + HtmlSpecialChars(name) + "=\"" + HtmlSpecialChars(value.s) + "\"")
  {
  }

  /** The test of a tag whose inner structure is null: the element is written with no content. */
  lemma NullInnerExample()
    ensures Rendered(Record(Some("span"), [("class", Str("test"))], Some(NullNode), None, None))
      == Ok("<" + "span" + (" " + "class" + "=\"" + "test" + "\"") + ">" + ("</" + "span" + ">"))
  {
    var a: Attributes := [("class", Str("test"))];
    TestClassAttribute();
    var open := "<" + "span" + (" " + "class" + "=\"" + "test" + "\"") + ">";
    assert StartTag("span", a) == Ok(open);
    assert open + "" == open;
  }

  /** A list of nulls renders as nothing. */
  lemma NullListExample()
    ensures Rendered(List([NullNode])) == Ok("")
  {
    var items := [NullNode];
    assert items[..0] == [];
    assert RenderedList(items[..0]) == Ok("");
    assert Rendered(items[0]) == Ok("");
    assert "" + "" == "";
  }

  /** The test of a record with only a tag: it is written as a void element. */
  lemma VoidElementExample()
    ensures Rendered(Record(Some("br"), [], None, None, None)) == Ok("<" + "br" + "/>")
  {
    var open := "<" + "br";
    assert AttributesText([]) == Ok("");
    assert open + "" == open;
  }

  // ---------------------------------------------------------------------------
  // getAutoId.

  function AutoId(n: int): string {
    "plaisio-id-" + IntToString(n)
  }

  /** Two ids are equal exactly when their counters are. */
  lemma AutoIdInjective(m: int, n: int)
    ensures AutoId(m) == AutoId(n) <==> m == n
  {
    if m != n {
      IntToStringInjective(m, n);
      assert AutoId(m)[11..] == IntToString(m);
      assert AutoId(n)[11..] == IntToString(n);
    }
  }

  /** The static counter behind getAutoId, as an object of its own. */
  class AutoIdCounter {
    var autoId: int

    constructor()
      ensures autoId == 0
    {
      autoId := 0;
    }

    method GetAutoId() returns (id: string)
      modifies this
      ensures autoId == old(autoId) + 1
      ensures id == AutoId(autoId)
    {
      autoId := autoId + 1;
      id := AutoId(autoId);
    }
  }

  /** Successive calls of getAutoId give different ids. */
  method SuccessiveIdsDiffer(counter: AutoIdCounter) returns (first: string, second: string)
    modifies counter
    ensures first != second
  {
    first := counter.GetAutoId();
    second := counter.GetAutoId();
    AutoIdInjective(counter.autoId - 1, counter.autoId);
  }
}

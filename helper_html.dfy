/**
 * The older flat API (src/Helper/Html.php): attributes, tags and elements
 * are generated as strings, with the weak typing of PHP 7. There
 * htmlspecialchars of an array or an object returns null, with a warning,
 * and null concatenates as '', so no operation of this API fails.
 */
module HelperHtml {
  import opened Php
  import Slug
  import Html

  type Attributes = seq<(string, Value)>

  // ---------------------------------------------------------------------------
  // txt2Html and txt2Slug.

  /** The old transliteration table: the same pairs as the new one, without 'ů'. */
  function Trans(c: char): Option<string> {
    if c == 'ů' then None else Html.Trans(c)
  }

  /** htmlspecialchars of any value, with PHP 7's weak conversion of its argument to a string. */
  function Txt2Html(v: Value): (r: string)
    ensures MarkupFree(r)
    ensures v.Str? ==> Unescape(r) == v.s
    ensures v.Int? ==> ParseInt(r) == v.i
    ensures v.Bool? ==> r == if v.b then "1" else ""
    ensures v.Null? || v.Arr? || v.Obj? ==> r == ""
  {
    match v
    case Str(s) =>
      EscapedIsMarkupFree(s);
      EscapeRoundTrip(s);
      HtmlSpecialChars(s)
    case Int(i) =>
      IntToStringRoundTrip(i);
      Html.DecimalIsMarkupFree(i);
      IntToString(i)
    case Bool(b) => if b then "1" else ""
    case _ => ""
  }

  function Txt2Slug(s: string): (r: string)
    ensures Slug.IsSlug(r)
  {
    Slug.SlugifyIsSlug(Trans, s);
    Slug.Slugify(Trans, s)
  }

  lemma TransKeepsSlugAlphabet()
    ensures Slug.KeepsSlugAlphabet(Trans)
  {
    Html.TransKeepsSlugAlphabet();
  }

  lemma Txt2SlugIdempotent(s: string)
    ensures Txt2Slug(Txt2Slug(s)) == Txt2Slug(s)
  {
    TransKeepsSlugAlphabet();
    Slug.SlugifyIdempotent(Trans, s);
  }

  // ---------------------------------------------------------------------------
  // generateAttribute.

  /** The switch of generateAttribute, case by case. */
  function GenerateAttribute(name: string, value: Value): string {
    if name in Html.BooleanAttributes then
      if IsEmpty(value) then "" else " " + name + "=\"" + name + "\""
    else if name == "draggable" || name == "contenteditable" then
      if value.Null? then "" else " " + name + (if IsEmpty(value) then "=\"false\"" else "=\"true\"")
    else if name == "autocomplete" then
      if value.Null? then "" else " " + name + (if IsEmpty(value) then "=\"off\"" else "=\"on\"")
    else if name == "translate" then
      if value.Null? then "" else " " + name + (if IsEmpty(value) then "=\"no\"" else "=\"yes\"")
    else if value.Null? || value == Bool(false) || value == Str("") then ""
    else " " + HtmlSpecialChars(name) + "=\"" + Txt2Html(value) + "\""
  }

  /** A boolean attribute is present exactly when its value is not empty. */
  lemma BooleanAttributeRule(name: string, value: Value)
    requires name in Html.BooleanAttributes
    ensures !IsEmpty(value) <==> GenerateAttribute(name, value) == " " + name + "=\"" + name + "\""
    ensures IsEmpty(value) <==> GenerateAttribute(name, value) == ""
  {
  }

  /** The word a toggle attribute writes for a truthy or a falsy value. */
  function Word(name: string, truthy: bool): string {
    if name == "autocomplete" then (if truthy then "on" else "off")
    else if name == "translate" then (if truthy then "yes" else "no")
    else (if truthy then "true" else "false")
  }

  /** The words true/false, on/off and yes/no, chosen by truthiness; null omits the attribute. */
  lemma ToggleAttributeRule(name: string, value: Value)
    requires name == "draggable" || name == "contenteditable" || name == "autocomplete" || name == "translate"
    ensures value.Null? <==> GenerateAttribute(name, value) == ""
    ensures !value.Null? ==> GenerateAttribute(name, value) == " " + name + "=\"" + Word(name, !IsEmpty(value)) + "\""
  {
    var w := Word(name, !IsEmpty(value));
    if !value.Null? {
      ToggleText(name, value);
      assert " " + name + ("=\"" + w + "\"") == " " + name + "=\"" + w + "\"";
    }
  }

  lemma ToggleText(name: string, value: Value)
    requires name == "draggable" || name == "contenteditable" || name == "autocomplete" || name == "translate"
    requires !value.Null?
    ensures GenerateAttribute(name, value) == " " + name + ("=\"" + Word(name, !IsEmpty(value)) + "\"")
  {
    if name == "draggable" {
    } else if name == "contenteditable" {
    } else if name == "autocomplete" {
    } else {
    }
  }

  /** draggable has no 'auto' in this API: any non-empty string is true. */
  lemma DraggableAutoIsTrue()
    ensures GenerateAttribute("draggable", Str("auto")) == " draggable" + "=\"true\""
  {
  }

  /** The default case omits null, false and '' and nothing else. */
  lemma DefaultRule(name: string, value: Value)
    requires name !in Html.BooleanAttributes
    requires name !in {"draggable", "contenteditable", "autocomplete", "translate"}
    ensures GenerateAttribute(name, value) == "" <==> value.Null? || value == Bool(false) || value == Str("")
    ensures value == Int(0) || value == Str("0") ==> GenerateAttribute(name, value) == " " + HtmlSpecialChars(name) + "=\"0\""
  {
    DefaultText(name, value);
    if value == Int(0) || value == Str("0") {
      ZeroText(value);
      var e := HtmlSpecialChars(name);
      assert " " + e + "=\"" + "0" + "\"" == " " + e + "=\"0\"";
    }
  }

  lemma DefaultText(name: string, value: Value)
    requires name !in Html.BooleanAttributes
    requires name !in {"draggable", "contenteditable", "autocomplete", "translate"}
    ensures GenerateAttribute(name, value) == if value.Null? || value == Bool(false) || value == Str("") then ""
      else " " + HtmlSpecialChars(name) + "=\"" + Txt2Html(value) + "\""
  {
  }

  lemma ZeroText(value: Value)
    requires value == Int(0) || value == Str("0")
    ensures Txt2Html(value) == "0"
  {
    if value == Int(0) {
      assert IntToString(0) == "0";
    } else {
      EscapePlainText("0");
    }
  }

  /** Every attribute generateAttribute returns is well formed, whatever the name and the value. */
  lemma GenerateAttributeIsSafe(name: string, value: Value)
    ensures Html.SafeAttribute(GenerateAttribute(name, value))
  {
    var s := GenerateAttribute(name, value);
    if s != "" {
      Html.WordsMarkupFree();
      if name in Html.BooleanAttributes {
        Html.BooleanNamesMarkupFree(name);
        assert Html.Shaped(s, name, name);
      } else if name == "draggable" || name == "contenteditable" || name == "autocomplete" || name == "translate" {
        ToggleAttributeRule(name, value);
        assert Html.Shaped(s, name, Word(name, !IsEmpty(value)));
      } else {
        EscapedIsMarkupFree(name);
        assert Html.Shaped(s, HtmlSpecialChars(name), Txt2Html(value));
      }
    }
  }

  // ---------------------------------------------------------------------------
  // generateTag, generateVoidElement and generateElement.

  /** The attributes a tag generator writes, in order. */
  function AttributesText(attributes: Attributes): string
    decreases |attributes|
  {
    if attributes == [] then ""
    else AttributesText(attributes[..|attributes| - 1]) + Emitted(attributes[|attributes| - 1])
  }

  /** What one attribute contributes to a tag. */
  function Emitted(attribute: (string, Value)): string {
    if LeadingUnderscore(attribute.0) then "" else GenerateAttribute(attribute.0, attribute.1)
  }

  /** The attributes that are not ignored, in order. */
  function Visible(attributes: Attributes): (r: Attributes)
    ensures forall k :: 0 <= k < |r| ==> !LeadingUnderscore(r[k].0)
    ensures forall a :: a in r <==> a in attributes && !LeadingUnderscore(a.0)
    decreases |attributes|
  {
    if attributes == [] then []
    else
      var last := attributes[|attributes| - 1];
      var rest := Visible(attributes[..|attributes| - 1]);
      assert attributes == attributes[..|attributes| - 1] + [last];
      if LeadingUnderscore(last.0) then rest else rest + [last]
  }

  /** Ignored attributes contribute nothing: generating from the visible ones is the same. */
  lemma {:induction false} HiddenAttributesSkipped(attributes: Attributes)
    ensures AttributesText(attributes) == AttributesText(Visible(attributes))
    decreases |attributes|
  {
    if attributes != [] {
      var n := |attributes| - 1;
      var rest := Visible(attributes[..n]);
      HiddenAttributesSkipped(attributes[..n]);
      if LeadingUnderscore(attributes[n].0) {
        assert AttributesText(attributes) == AttributesText(attributes[..n]) + "";
      } else {
        var r := rest + [attributes[n]];
        assert r[..|r| - 1] == rest;
      }
    }
  }

  lemma AttributesStep(attributes: Attributes, i: int)
    requires 0 <= i < |attributes|
    ensures AttributesText(attributes[..i + 1]) == AttributesText(attributes[..i]) + Emitted(attributes[i])
  {
    assert attributes[..i + 1][..i] == attributes[..i];
  }

  /** The attributes of a list are those of its parts one after the other. */
  lemma {:induction false} AttributesTextConcat(a: Attributes, b: Attributes)
    ensures AttributesText(a + b) == AttributesText(a) + AttributesText(b)
    decreases |b|
  {
    if b == [] {
      assert a + b == a;
    } else {
      var c, n := a + b, |b| - 1;
      AttributesTextConcat(a, b[..n]);
      AttributesStep(c, |c| - 1);
      AttributesStep(b, n);
      assert c[..|c| - 1] == a + b[..n] && c[..|c|] == c && b[..n + 1] == b;
      ConcatAssociative(AttributesText(a), AttributesText(b[..n]), Emitted(b[n]));
    }
  }

  method AppendAttributes(html: string, attributes: Attributes) returns (r: string)
    ensures r == html + AttributesText(attributes)
  {
    r := html;
    assert attributes[..0] == [];
    for i := 0 to |attributes|
      invariant r == html + AttributesText(attributes[..i])
    {
      var (name, value) := attributes[i];
      AttributesStep(attributes, i);
      ConcatAssociative(html, AttributesText(attributes[..i]), Emitted(attributes[i]));
      if !LeadingUnderscore(name) {
        r := r + GenerateAttribute(name, value);
      } else {
        assert r + "" == r;
      }
    }
    assert attributes[..|attributes|] == attributes;
  }

  /** generateTag: the start tag, with every attribute not ignored. */
  method GenerateTag(tagName: string, attributes: Attributes) returns (html: string)
    ensures html == "<" + tagName + AttributesText(attributes) + ">"
  {
    html := "<" + tagName;
    html := AppendAttributes(html, attributes);
    html := html + ">";
  }

  /** generateVoidElement: the same, closed with "/>". */
  method GenerateVoidElement(tagName: string, attributes: Attributes) returns (html: string)
    ensures html == "<" + tagName + AttributesText(attributes) + "/>"
  {
    html := "<" + tagName;
    html := AppendAttributes(html, attributes);
    html := html + "/>";
  }

  /** The content of an element: verbatim HTML or escaped text; null is empty either way. */
  function Content(innerText: Option<string>, isHtml: bool): string {
    if innerText.None? then ""
    else if isHtml then innerText.value
    else Txt2Html(Str(innerText.value))
  }

  /** generateElement: start tag, content, end tag. */
  method GenerateElement(tagName: string, attributes: Attributes, innerText: Option<string>, isHtml: bool)
    returns (html: string)
    ensures html == "<" + tagName + AttributesText(attributes) + ">" + Content(innerText, isHtml) + "</" + tagName + ">"
  {
    html := GenerateTag(tagName, attributes);
    if isHtml {
      if innerText.Some? {
        html := html + innerText.value;
      }
    } else {
      html := html + Txt2Html(if innerText.None? then Null else Str(innerText.value));
    }
    html := html + "</" + tagName + ">";
  }

  /** An inner text of null or '' gives an element with no content. */
  lemma EmptyContent(innerText: Option<string>, isHtml: bool)
    requires innerText.None? || innerText == Some("")
    ensures Content(innerText, isHtml) == ""
  {
    if innerText == Some("") {
      assert HtmlSpecialChars("") == "";
    }
  }

  /** Escaped content never holds markup, and decodes to the inner text. */
  lemma TextContent(innerText: string)
    ensures MarkupFree(Content(Some(innerText), false))
    ensures Unescape(Content(Some(innerText), false)) == innerText
  {
  }

  // ---------------------------------------------------------------------------
  // getAutoId.

  function AutoId(n: int): string {
    "abc_" + IntToString(n)
  }

  lemma AutoIdInjective(m: int, n: int)
    ensures AutoId(m) == AutoId(n) <==> m == n
  {
    if m != n {
      IntToStringInjective(m, n);
      var a, b := AutoId(m), AutoId(n);
      assert a[4..] == IntToString(m) && b[4..] == IntToString(n);
    }
  }

  /** The static counter of getAutoId, made an explicit object. */
  class AutoIdCounter {
    var autoId: int

    constructor()
      ensures autoId == 0
    {
      autoId := 0;
    }

    method GetAutoId() returns (id: string)
      modifies this
      ensures autoId == old(autoId) + 1
      ensures id == AutoId(autoId)
    {
      autoId := autoId + 1;
      id := "abc_" + IntToString(autoId);
    }
  }

  /** Two calls in a row give different ids. */
  method SuccessiveIdsDiffer(counter: AutoIdCounter) returns (first: string, second: string)
    modifies counter
    ensures first != second
  {
    first := counter.GetAutoId();
    second := counter.GetAutoId();
    AutoIdInjective(counter.autoId - 1, counter.autoId);
  }
}

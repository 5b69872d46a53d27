/**
 * Where the older flat API (src/Helper/Html.php) and the current one
 * (src/Html.php) agree, and the inputs on which they part.
 */
module Compare {
  import opened Php
  import Slug
  import Html
  import HelperHtml

  lemma BooleanAttributesAgree(name: string, value: Value)
    requires name in Html.BooleanAttributes
    ensures Html.AttributeText(name, value) == Ok(HelperHtml.GenerateAttribute(name, value))
  {
  }

  /** contenteditable, autocomplete and translate render alike in both. */
  lemma ToggleAttributesAgree(name: string, value: Value)
    requires name == "contenteditable" || name == "autocomplete" || name == "translate"
    ensures Html.AttributeText(name, value) == Ok(HelperHtml.GenerateAttribute(name, value))
  {
    Html.PairAttributeRule(name, value);
    HelperHtml.ToggleAttributeRule(name, value);
  }

  /** draggable agrees except on 'auto' and 'false', which only the current API treats specially. */
  lemma DraggableAgreesIff(value: Value)
    ensures Html.AttributeText("draggable", value) == Ok(HelperHtml.GenerateAttribute("draggable", value))
      <==> value != Str("auto") && value != Str("false")
  {
    Html.DraggableRule(value);
    HelperHtml.ToggleAttributeRule("draggable", value);
    if value == Str("auto") {
      var current, older := " draggable=\"auto\"", " draggable=\"true\"";
      assert current[12] != older[12];
    } else if value == Str("false") {
      assert Html.AttributeText("draggable", value) == Ok(" draggable=\"false\"");
      var older := HelperHtml.GenerateAttribute("draggable", value);
      assert older == " " + "draggable" + "=\"" + "true" + "\"";
      assert |older| == 17 && |" draggable=\"false\""| == 18;
    } else {
      assert " " + "draggable" + "=\"" + "false" + "\"" == " draggable=\"false\"";
      assert " " + "draggable" + "=\"" + "true" + "\"" == " draggable=\"true\"";
    }
  }

  /** Any other attribute with a scalar value agrees except on false, which is "0" now and left out before. */
  lemma DefaultAttributesAgreeIff(name: string, value: Value)
    requires name !in Html.BooleanAttributes
    requires name !in {"draggable", "contenteditable", "autocomplete", "translate"}
    requires Html.Truthy(name) && Html.Scalar(value)
    ensures Html.AttributeText(name, value) == Ok(HelperHtml.GenerateAttribute(name, value)) <==> value != Bool(false)
  {
    assert Html.RuleOf(name, value) == Html.Plain;
    Html.DefaultRule(name, value);
    HelperHtml.DefaultRule(name, value);
    if value == Bool(false) {
      assert HelperHtml.GenerateAttribute(name, value) == "";
    }
  }

  /**
   * A key PHP stores as an integer is refused by the current API, whose
   * file declares strict types; the older one renders it as a name.
   */
  lemma IntegerNamesDisagree(name: string, value: Value)
    requires IntegerKey(name)
    ensures Html.EntryText(name, value) == Err(IntegerName)
    ensures Html.EntryText(name, value) != Ok(HelperHtml.GenerateAttribute(name, value))
  {
  }

  /** The tables differ only in 'ů', so slugs agree on every string without 'ů' or 'Ů'. */
  lemma SlugsAgree(s: string)
    requires 'ů' !in s && 'Ů' !in s
    ensures Html.Txt2Slug(Some(s)) == HelperHtml.Txt2Slug(s)
  {
    var l := Slug.LowerCase(s);
    assert forall k :: 0 <= k < |l| ==> l[k] != 'ů' by {
      forall k | 0 <= k < |l| ensures l[k] != 'ů' {
        assert s[k] in s;
      }
    }
    Slug.TransliterateAgree(Html.Trans, HelperHtml.Trans, l);
  }

  /** On 'ů' they part: the current API transliterates it, the older one drops it. */
  lemma SlugsDifferOnRingU()
    ensures Html.Txt2Slug(Some("ů")) == "u"
    ensures HelperHtml.Txt2Slug("ů") == ""
  {
    assert Slug.LowerCase("ů") == "ů";
    assert Slug.Transliterate(Html.Trans, "ů") == "u";
    assert Slug.IsSlug("u");
    Slug.CleanSlugUnchanged("u");
    assert Slug.Transliterate(HelperHtml.Trans, "ů") == "ů";
    assert Slug.SlugChars("ů") == "";
    Slug.SlugEmptyIff(HelperHtml.Trans, "ů");
  }
}

/**
 * The attribute bag of an HTML element (src/HtmlElement.php): a map from
 * attribute names to values that each method reads or updates in place.
 */
module Element {
  import opened Php

  /** addClass on a set class: the new class list is the old one with one more token at its end. */
  lemma AddedClassTokens(s: string, c: string)
    requires c != "" && SpaceFree(c)
    ensures Explode(s + " " + c) == Explode(s) + [c]
  {
    ExplodeAppend(s, c);
    ExplodeWord(c, "");
    assert c + "" == c && c + Explode("")[0] == c;
  }

  /** removeClass: no token equal to c is left, and the other tokens keep their order. */
  lemma RemovedClassTokens(s: string, c: string)
    requires c != ""
    ensures c !in Explode(Implode(Without(Explode(s), c)))
    ensures Without(Explode(s), c) != [] ==> Explode(Implode(Without(Explode(s), c))) == Without(Explode(s), c)
  {
    var w := Without(Explode(s), c);
    ExplodeSpaceFree(s);
    WithoutKeepsSpaceFree(Explode(s), c);
    if w != [] {
      ExplodeImplode(w);
    } else {
      assert Explode(Implode(w)) == [""];
    }
  }

  /** Removing a class that is not in the list leaves the list as it was. */
  lemma {:induction false} WithoutAbsent(parts: seq<string>, c: string)
    requires c !in parts
    ensures Without(parts, c) == parts
    decreases |parts|
  {
    if parts != [] {
      assert c !in parts[1..];
      WithoutAbsent(parts[1..], c);
    }
  }

  class HtmlElement {
    /** The attributes; the order PHP keeps for them is not modelled. */
    var attributes: map<string, Value>

    /** Only addClass, removeClass and unsetClass touch the class attribute, so it is always a string. */
    predicate Valid()
      reads this
    {
      "class" in attributes ==> attributes["class"].Str?
    }

    constructor()
      ensures attributes == map[] && Valid()
    {
      attributes := map[];
    }

    /** getAttribute: the stored value; null when the attribute is absent or null. */
    function GetAttribute(attributeName: string): (r: Value)
      reads this
      ensures attributeName in attributes ==> r == attributes[attributeName]
      ensures attributeName !in attributes ==> r == Null
    {
      if attributeName in attributes && !attributes[attributeName].Null? then attributes[attributeName] else Null
    }

    method AddClass(cls: string)
      requires Valid()
      modifies this
      ensures Valid()
      ensures attributes == if cls == "" then old(attributes)
        else if "class" in old(attributes) then old(attributes)["class" := Str(old(attributes)["class"].s + " " + cls)]
        else old(attributes)["class" := Str(cls)]
    {
      if cls == "" {
        return;
      }
      if "class" in attributes && !attributes["class"].Null? {
        attributes := attributes["class" := Str(attributes["class"].s + " ")];
        attributes := attributes["class" := Str(attributes["class"].s + cls)];
      } else {
        attributes := attributes["class" := Str(cls)];
      }
    }

    method RemoveClass(cls: string)
      requires Valid()
      modifies this
      ensures Valid()
      ensures attributes == if cls == "" || "class" !in old(attributes) then old(attributes)
        else old(attributes)["class" := Str(Implode(Without(Explode(old(attributes)["class"].s), cls)))]
    {
      if cls == "" || !("class" in attributes && !attributes["class"].Null?) {
        return;
      }
      attributes := attributes["class" := Str(Implode(Without(Explode(attributes["class"].s), cls)))];
    }

    method SetAttrAccessKey(value: Value)
      modifies this
      ensures attributes == old(attributes)["accesskey" := value]
      ensures Valid() == old(Valid())
    {
      attributes := attributes["accesskey" := value];
    }

    method SetAttrContentEditable(value: Value)
      modifies this
      ensures attributes == old(attributes)["contenteditable" := value]
      ensures Valid() == old(Valid())
    {
      attributes := attributes["contenteditable" := value];
    }

    method SetAttrContextMenu(value: Value)
      modifies this
      ensures attributes == old(attributes)["contextmenu" := value]
      ensures Valid() == old(Valid())
    {
      attributes := attributes["contextmenu" := value];
    }

    /** setAttrData: the attribute 'data-' followed by the name. */
    method SetAttrData(name: string, value: Value)
      modifies this
      ensures attributes == old(attributes)["data-" + name := value]
      ensures Valid() == old(Valid())
    {
      assert ("data-" + name)[0] == 'd';
      attributes := attributes["data-" + name := value];
    }

    method SetAttrDir(value: Value)
      modifies this
      ensures attributes == old(attributes)["dir" := value]
      ensures Valid() == old(Valid())
    {
      attributes := attributes["dir" := value];
    }

    method SetAttrDraggable(value: Value)
      modifies this
      ensures attributes == old(attributes)["draggable" := value]
      ensures Valid() == old(Valid())
    {
      attributes := attributes["draggable" := value];
    }

    method SetAttrDropZone(value: Value)
      modifies this
      ensures attributes == old(attributes)["dropzone" := value]
      ensures Valid() == old(Valid())
    {
      attributes := attributes["dropzone" := value];
    }

    method SetAttrHidden(value: Value)
      modifies this
      ensures attributes == old(attributes)["hidden" := value]
      ensures Valid() == old(Valid())
    {
      attributes := attributes["hidden" := value];
    }

    method SetAttrId(value: Value)
      modifies this
      ensures attributes == old(attributes)["id" := value]
      ensures Valid() == old(Valid())
    {
      attributes := attributes["id" := value];
    }

    method SetAttrLang(value: Value)
      modifies this
      ensures attributes == old(attributes)["lang" := value]
      ensures Valid() == old(Valid())
    {
      attributes := attributes["lang" := value];
    }

    method SetAttrSpellCheck(value: Value)
      modifies this
      ensures attributes == old(attributes)["spellcheck" := value]
      ensures Valid() == old(Valid())
    {
      attributes := attributes["spellcheck" := value];
    }

    method SetAttrStyle(value: Value)
      modifies this
      ensures attributes == old(attributes)["style" := value]
      ensures Valid() == old(Valid())
    {
      attributes := attributes["style" := value];
    }

    method SetAttrTabIndex(value: Value)
      modifies this
      ensures attributes == old(attributes)["tabindex" := value]
      ensures Valid() == old(Valid())
    {
      attributes := attributes["tabindex" := value];
    }

    method SetAttrTitle(value: Value)
      modifies this
      ensures attributes == old(attributes)["title" := value]
      ensures Valid() == old(Valid())
    {
      attributes := attributes["title" := value];
    }

    method SetAttrTranslate(value: Value)
      modifies this
      ensures attributes == old(attributes)["translate" := value]
      ensures Valid() == old(Valid())
    {
      attributes := attributes["translate" := value];
    }

    /** setFakeAttribute: only names with a leading underscore; any other name is refused and nothing changes. */
    method SetFakeAttribute(name: string, value: Value) returns (failure: Option<Error>)
      modifies this
      ensures !LeadingUnderscore(name) ==> failure == Some(NotFakeAttribute(name)) && attributes == old(attributes)
      ensures LeadingUnderscore(name) ==> failure.None? && attributes == old(attributes)[name := value]
      ensures Valid() == old(Valid())
    {
      if !LeadingUnderscore(name) {
        return Some(NotFakeAttribute(name));
      }
      attributes := attributes[name := value];
      failure := None;
    }

    /** unsetClass: the class attribute is gone and nothing else changes. */
    method UnsetClass()
      modifies this
      ensures attributes == old(attributes) - {"class"}
      ensures GetAttribute("class") == Null && Valid()
    {
      attributes := attributes - {"class"};
    }
  }

  /** Setting an attribute twice keeps the second value, and only that attribute changes. */
  method LastWriteWins(element: HtmlElement, first: Value, second: Value)
    modifies element
    ensures element.attributes == old(element.attributes)["id" := second]
    ensures element.GetAttribute("id") == second
  {
    element.SetAttrId(first);
    element.SetAttrId(second);
  }

  /** A fake attribute is stored and can be read back. */
  method FakeAttributeIsKept(element: HtmlElement, value: Value)
    modifies element
    ensures element.GetAttribute("_fake") == value
  {
    var failure := element.SetFakeAttribute("_fake", value);
  }

  /** Adding and then removing a class that was not in the list gives back the old class list. */
  method AddThenRemove(element: HtmlElement, cls: string)
    requires element.Valid() && "class" in element.attributes
    requires cls != "" && SpaceFree(cls) && cls !in Explode(element.attributes["class"].s)
    modifies element
    ensures element.Valid()
    ensures element.attributes == old(element.attributes)
  {
    ghost var s := element.attributes["class"].s;
    element.AddClass(cls);
    AddedClassTokens(s, cls);
    element.RemoveClass(cls);
    WithoutAbsent(Explode(s), cls);
    assert Without(Explode(s) + [cls], cls) == Explode(s) by {
      WithoutAppend(Explode(s), [cls], cls);
    }
    ImplodeExplode(s);
  }

  lemma {:induction false} WithoutAppend(a: seq<string>, b: seq<string>, c: string)
    ensures Without(a + b, c) == Without(a, c) + Without(b, c)
    decreases |a|
  {
    if a != [] {
      assert (a + b)[1..] == a[1..] + b && (a + b)[0] == a[0];
      WithoutAppend(a[1..], b, c);
    } else {
      assert a + b == b;
    }
  }
}

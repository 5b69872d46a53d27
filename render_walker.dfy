/**
 * The CSS class helper of the renderers (src/RenderWalker.php): a module
 * class, an optional sub-module class, and the list of classes built from
 * them for an element.
 */
module Walker {
  import opened Php

  /** The classes of the walker itself: the module class, then the sub-module class when set. */
  function BaseClasses(moduleClass: string, subModuleClass: Option<string>): seq<Value> {
    [Str(moduleClass)] + (if subModuleClass.Some? then [Str(subModuleClass.value)] else [])
  }

  /** Every sub-class prefixed with the module class and '-', in order; the first member that cannot be concatenated fails. */
  function Prefixed(moduleClass: string, items: seq<Value>): Result<seq<Value>>
    decreases |items|
  {
    if items == [] then Ok([])
    else
      var rest :- Prefixed(moduleClass, items[..|items| - 1]);
      var s :- StrCast(items[|items| - 1]);
      Ok(rest + [Str(moduleClass + "-" + s)])
  }

  function SubClasses(moduleClass: string, subClasses: Value): Result<seq<Value>> {
    match subClasses
    case Null => Ok([])
    case Str(s) => Ok([Str(moduleClass + "-" + s)])
    case Arr(items) => Prefixed(moduleClass, items)
    case _ => Err(InvalidArgument(GetType(subClasses)))
  }

  function AdditionClasses(additionClasses: Value): Result<seq<Value>> {
    match additionClasses
    case Null => Ok([])
    case Str(s) => Ok([additionClasses])
    case Arr(items) => Ok(items)
    case _ => Err(InvalidArgument(GetType(additionClasses)))
  }

  /** getClasses: the walker's classes, the sub-classes, then the additional classes. */
  function ClassList(moduleClass: string, subModuleClass: Option<string>, subClasses: Value, additionClasses: Value)
    : Result<seq<Value>>
  {
    var subs :- SubClasses(moduleClass, subClasses);
    var additions :- AdditionClasses(additionClasses);
    Ok(BaseClasses(moduleClass, subModuleClass) + subs + additions)
  }

  /** The first half of getClasses: the sub-classes, prefixed, after the classes so far. */
  method AppendSubClasses(classes: seq<Value>, moduleClass: string, subClasses: Value) returns (r: Result<seq<Value>>)
    ensures SubClasses(moduleClass, subClasses).Ok? ==> r == Ok(classes + SubClasses(moduleClass, subClasses).value)
    ensures SubClasses(moduleClass, subClasses).Err? ==> r == Err(SubClasses(moduleClass, subClasses).error)
  {
    var result := classes;
    assert classes + [] == classes;
    if !subClasses.Null? {
      if subClasses.Str? {
        result := result + [Str(moduleClass + "-" + subClasses.s)];
      } else if subClasses.Arr? {
        var items := subClasses.items;
        assert items[..0] == [];
        for i := 0 to |items|
          invariant Prefixed(moduleClass, items[..i]).Ok?
          invariant result == classes + Prefixed(moduleClass, items[..i]).value
        {
          assert items[..i + 1][..i] == items[..i];
          var s := StrCast(items[i]);
          if s.Err? {
            PrefixedFailFast(moduleClass, items, i + 1);
            return Err(s.error);
          }
          var c := Str(moduleClass + "-" + s.value);
          assert classes + (Prefixed(moduleClass, items[..i]).value + [c]) == result + [c];
          result := result + [c];
        }
        assert items[..|items|] == items;
      } else {
        return Err(InvalidArgument(GetType(subClasses)));
      }
    }
    r := Ok(result);
  }

  /** The second half of getClasses: the additional classes, verbatim, after the classes so far. */
  method AppendAdditionClasses(classes: seq<Value>, additionClasses: Value) returns (r: Result<seq<Value>>)
    ensures AdditionClasses(additionClasses).Ok? ==> r == Ok(classes + AdditionClasses(additionClasses).value)
    ensures AdditionClasses(additionClasses).Err? ==> r == Err(AdditionClasses(additionClasses).error)
  {
    var result := classes;
    assert classes + [] == classes;
    if !additionClasses.Null? {
      if additionClasses.Str? {
        result := result + [additionClasses];
      } else if additionClasses.Arr? {
        var items := additionClasses.items;
        for i := 0 to |items|
          invariant result == classes + items[..i]
        {
          assert items[..i + 1] == items[..i] + [items[i]];
          result := result + [items[i]];
        }
        assert items[..|items|] == items;
      } else {
        return Err(InvalidArgument(GetType(additionClasses)));
      }
    }
    r := Ok(result);
  }

  /** How many classes an argument contributes. */
  function Count(v: Value): nat {
    match v
    case Str(_) => 1
    case Arr(items) => |items|
    case _ => 0
  }

  lemma {:induction false} PrefixedContents(moduleClass: string, items: seq<Value>)
    requires forall k :: 0 <= k < |items| ==> items[k].Str?
    ensures Prefixed(moduleClass, items).Ok?
    ensures |Prefixed(moduleClass, items).value| == |items|
    ensures forall k :: 0 <= k < |items| ==> Prefixed(moduleClass, items).value[k] == Str(moduleClass + "-" + items[k].s)
    decreases |items|
  {
    if items != [] {
      var n := |items| - 1;
      PrefixedContents(moduleClass, items[..n]);
    }
  }

  lemma {:induction false} PrefixedLength(moduleClass: string, items: seq<Value>)
    requires Prefixed(moduleClass, items).Ok?
    ensures |Prefixed(moduleClass, items).value| == |items|
    decreases |items|
  {
    if items != [] {
      PrefixedLength(moduleClass, items[..|items| - 1]);
    }
  }

  /** An object among the sub-classes fails, as the first such member's conversion does. */
  lemma {:induction false} PrefixedFailsOnObject(moduleClass: string, items: seq<Value>)
    ensures Prefixed(moduleClass, items).Err? <==> exists k :: 0 <= k < |items| && items[k].Obj?
    decreases |items|
  {
    if items != [] {
      var n := |items| - 1;
      PrefixedFailsOnObject(moduleClass, items[..n]);
      if items[n].Obj? {
        assert items[n].Obj?;
      } else {
        assert forall k :: 0 <= k < n ==> items[..n][k] == items[k];
      }
    }
  }

  /** The module class comes first, and the list has one entry per class given. */
  lemma ClassListShape(moduleClass: string, subModuleClass: Option<string>, subClasses: Value, additionClasses: Value)
    requires ClassList(moduleClass, subModuleClass, subClasses, additionClasses).Ok?
    ensures var r := ClassList(moduleClass, subModuleClass, subClasses, additionClasses).value;
      && |r| == 1 + (if subModuleClass.Some? then 1 else 0) + Count(subClasses) + Count(additionClasses)
      && r[0] == Str(moduleClass)
  {
    if subClasses.Arr? {
      PrefixedLength(moduleClass, subClasses.items);
    }
  }

  /** With only strings, each sub-class is the module class, '-' and the sub-class, and the additions follow verbatim. */
  lemma ClassListContents(moduleClass: string, subModuleClass: Option<string>, subs: seq<Value>, additions: seq<Value>)
    requires forall k :: 0 <= k < |subs| ==> subs[k].Str?
    ensures ClassList(moduleClass, subModuleClass, Arr(subs), Arr(additions)).Ok?
    ensures var r := ClassList(moduleClass, subModuleClass, Arr(subs), Arr(additions)).value;
      var b := |BaseClasses(moduleClass, subModuleClass)|;
      && |r| == b + |subs| + |additions|
      && r[..b] == BaseClasses(moduleClass, subModuleClass)
      && (forall k :: 0 <= k < |subs| ==> r[b + k] == Str(moduleClass + "-" + subs[k].s))
      && r[b + |subs|..] == additions
  {
    PrefixedContents(moduleClass, subs);
  }

  lemma {:induction false} PrefixedFailFast(moduleClass: string, items: seq<Value>, i: int)
    requires 0 <= i <= |items| && Prefixed(moduleClass, items[..i]).Err?
    ensures Prefixed(moduleClass, items) == Prefixed(moduleClass, items[..i])
    decreases |items|
  {
    if i < |items| {
      var n := |items| - 1;
      assert items[..n][..i] == items[..i];
      PrefixedFailFast(moduleClass, items[..n], i);
    } else {
      assert items[..i] == items;
    }
  }

  /** A single string acts as a list with that one string, for both arguments. */
  lemma SingleStringIsList(moduleClass: string, subModuleClass: Option<string>, subClasses: Value, additionClasses: Value)
    ensures subClasses.Str? ==> (ClassList(moduleClass, subModuleClass, subClasses, additionClasses)
      == ClassList(moduleClass, subModuleClass, Arr([subClasses]), additionClasses))
    ensures additionClasses.Str? ==> (ClassList(moduleClass, subModuleClass, subClasses, additionClasses)
      == ClassList(moduleClass, subModuleClass, subClasses, Arr([additionClasses])))
  {
    if subClasses.Str? {
      var items := [subClasses];
      var c := Str(moduleClass + "-" + subClasses.s);
      assert items[..0] == [] && items[..|items| - 1] == [];
      assert StrCast(items[0]) == Ok(subClasses.s);
      assert [] + [c] == [c];
      assert Prefixed(moduleClass, items) == Ok([c]);
    }
  }

  /** An argument that is neither null, a string nor an array is refused with its type. */
  lemma InvalidArguments(moduleClass: string, subModuleClass: Option<string>, subClasses: Value, additionClasses: Value)
    ensures !(subClasses.Null? || subClasses.Str? || subClasses.Arr?)
      ==> ClassList(moduleClass, subModuleClass, subClasses, additionClasses) == Err(InvalidArgument(GetType(subClasses)))
    ensures SubClasses(moduleClass, subClasses).Ok? && !(additionClasses.Null? || additionClasses.Str? || additionClasses.Arr?)
      ==> ClassList(moduleClass, subModuleClass, subClasses, additionClasses) == Err(InvalidArgument(GetType(additionClasses)))
  {
  }

  class RenderWalker {
    var moduleClass: string
    var subModuleClass: Option<string>

    constructor(moduleClass: string, subModuleClass: Option<string>)
      ensures this.moduleClass == moduleClass && this.subModuleClass == subModuleClass
    {
      this.moduleClass := moduleClass;
      this.subModuleClass := subModuleClass;
    }

    method GetClasses(subClasses: Value, additionClasses: Value) returns (r: Result<seq<Value>>)
      ensures r == ClassList(moduleClass, subModuleClass, subClasses, additionClasses)
    {
      var classes := [Str(moduleClass)];
      if subModuleClass.Some? {
        classes := classes + [Str(subModuleClass.value)];
      }
      assert classes == BaseClasses(moduleClass, subModuleClass);
      r := AppendSubClasses(classes, moduleClass, subClasses);
      if r.Ok? {
        r := AppendAdditionClasses(r.value, additionClasses);
      }
    }

    function GetModuleClass(): string
      reads this
    {
      moduleClass
    }

    function GetSubModuleClass(): Option<string>
      reads this
    {
      subModuleClass
    }

    method SetModuleClass(moduleClass: string) returns (self: RenderWalker)
      modifies this
      ensures this.moduleClass == moduleClass && subModuleClass == old(subModuleClass)
      ensures self == this
    {
      this.moduleClass := moduleClass;
      self := this;
    }

    method SetSubModuleClass(subModuleClass: Option<string>) returns (self: RenderWalker)
      modifies this
      ensures this.subModuleClass == subModuleClass && moduleClass == old(moduleClass)
      ensures self == this
    {
      this.subModuleClass := subModuleClass;
      self := this;
    }
  }

  /** After both setters the getters return the new values, and getClasses starts with them. */
  method SettersThenGetters(walker: RenderWalker, moduleClass: string, subModuleClass: string)
    modifies walker
    ensures walker.GetModuleClass() == moduleClass && walker.GetSubModuleClass() == Some(subModuleClass)
    ensures ClassList(walker.GetModuleClass(), walker.GetSubModuleClass(), Null, Null) == Ok([Str(moduleClass), Str(subModuleClass)])
  {
    var w := walker.SetModuleClass(moduleClass);
    w := w.SetSubModuleClass(Some(subModuleClass));
    assert [Str(moduleClass)] + [Str(subModuleClass)] + [] + [] == [Str(moduleClass), Str(subModuleClass)];
  }
}

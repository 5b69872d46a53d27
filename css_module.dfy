/**
 * The module class and sub-module class that a renderer using the CssModule
 * trait (src/CssModule.php) carries, with their getters and setters.
 */
module Css {
  import opened Php

  class CssModule {
    var moduleClass: string
    var subModuleClass: Option<string>

    /** The class using the trait initialises both fields. */
    constructor(moduleClass: string, subModuleClass: Option<string>)
      ensures this.moduleClass == moduleClass && this.subModuleClass == subModuleClass
    {
      this.moduleClass := moduleClass;
      this.subModuleClass := subModuleClass;
    }

    function GetModuleClass(): string
      reads this
    {
      moduleClass
    }

    function GetSubModuleClass(): Option<string>
      reads this
    {
      subModuleClass
    }

    method SetModuleClass(moduleClass: string) returns (self: CssModule)
      modifies this
      ensures GetModuleClass() == moduleClass && GetSubModuleClass() == old(GetSubModuleClass())
      ensures self == this
    {
      this.moduleClass := moduleClass;
      self := this;
    }

    method SetSubModuleClass(subModuleClass: Option<string>) returns (self: CssModule)
      modifies this
      ensures GetSubModuleClass() == subModuleClass && GetModuleClass() == old(GetModuleClass())
      ensures self == this
    {
      this.subModuleClass := subModuleClass;
      self := this;
    }
  }

  /** Setters chain on the same object; the last value given to each is the one read back, null included. */
  method ChainedSetters(css: CssModule, first: string, second: string)
    modifies css
    ensures css.GetModuleClass() == second && css.GetSubModuleClass() == None
  {
    var self := css.SetModuleClass(first);
    self := self.SetSubModuleClass(Some(first));
    self := self.SetModuleClass(second);
    self := self.SetSubModuleClass(None);
  }
}

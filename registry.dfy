/** `Menu`: the registry of named menu builders. Each name has at most one
    builder, made with the configuration of that name; `make` hands the
    builder to the caller's callback and stores it in the collection that
    `get` reads. */
module Registry {
  import opened Php
  import opened Urls
  import opened Nodes

  // ---------------------------------------------------------------------
  // Configuration

  /** An entry of the `laravel-menu.settings` configuration: an array of
      options, or any other value (which `loadConf` ignores). */
  datatype Setting = ArraySetting(a: PArray) | OtherSetting(v: Value)

  /** The configuration: the `default` options and the entries under every
      other name. */
  datatype Settings = Settings(default: PArray, named: map<string, Setting>)

  /** The published defaults. */
  const Defaults: PArray := [
    (Name("auto_activate"), Bool(true)),
    (Name("activate_parents"), Bool(true)),
    (Name("active_class"), Str("active")),
    (Name("restful"), Bool(false)),
    (Name("cascade_data"), Bool(true)),
    (Name("rest_base"), Str("")),
    (Name("active_element"), Str("item")),
    (Name("data-toggle-attribute"), Str("data-toggle"))
  ]

  /** Whether the entry under the lower-cased name is an array of options. */
  predicate HasOwn(s: Settings, l: string)
  {
    l == "default" || (l in s.named && s.named[l].ArraySetting?)
  }

  /** The options array under the lower-cased name, when there is one. */
  function Own(s: Settings, l: string): PArray
    requires HasOwn(s, l)
  {
    if l == "default" then s.default else s.named[l].a
  }

  /** `loadConf($name)`: the defaults, overridden by the array under the
      lower-cased name when there is one. */
  function LoadConf(s: Settings, name: string): PArray
  {
    var l := Lower(name);
    if HasOwn(s, l) then Merge(s.default, Own(s, l)) else s.default
  }

  /** Every option of a menu is its own entry's value when the entry has it,
      and the default otherwise. */
  lemma LoadConfGet(s: Settings, name: string, k: string)
    ensures Get(LoadConf(s, name), Name(k)) ==
      if HasOwn(s, Lower(name)) && HasKey(Own(s, Lower(name)), Name(k))
      then Get(Own(s, Lower(name)), Name(k))
      else Get(s.default, Name(k))
  {
    var l := Lower(name);
    if HasOwn(s, l) {
      MergeGet(s.default, Own(s, l), k);
    }
  }

  /** The name is looked up without regard to case. */
  lemma LoadConfIgnoresCase(s: Settings, name: string)
    ensures LoadConf(s, Lower(name)) == LoadConf(s, name)
  {
    LowerIdempotent(name);
  }

  /** A menu without an entry of its own runs on the published defaults:
      it activates by URL, activates parents, and puts the class `active`
      on the item. */
  lemma DefaultsApply(named: map<string, Setting>, name: string)
    requires !HasOwn(Settings(Defaults, named), Lower(name))
    ensures var c := LoadConf(Settings(Defaults, named), name);
      Get(c, Name("auto_activate")) == Bool(true)
      && Get(c, Name("activate_parents")) == Bool(true)
      && Get(c, Name("active_class")) == Str("active")
      && Get(c, Name("active_element")) == Str("item")
      && Get(c, Name("cascade_data")) == Bool(true)
  {
    assert LoadConf(Settings(Defaults, named), name) == Defaults;
    GetAt(Defaults, 0);
    GetAt(Defaults, 1);
    GetAt(Defaults, 2);
    GetAt(Defaults, 4);
    GetAt(Defaults, 6);
  }

  // ---------------------------------------------------------------------
  // The registry

  class Menu {
    const settings: Settings
    const env: Env
    /** `$menu`: the builder under each name. */
    var menu: map<string, Builder>
    /** `$collection`: the builders whose callback has run, by name. */
    var collection: map<string, Builder>

    /** Every builder sits under its own name with the configuration of that
        name, and the collection holds only builders of the registry. */
    ghost predicate Valid()
      reads this
    {
      (forall k :: k in menu ==> menu[k].name == k && menu[k].conf == LoadConf(settings, k) && menu[k].env == env)
      && (forall k :: k in collection ==> k in menu && collection[k] == menu[k])
    }

    constructor (settings: Settings, env: Env)
      ensures this.settings == settings && this.env == env
      ensures menu == map[] && collection == map[]
      ensures Valid()
    {
      this.settings := settings;
      this.env := env;
      menu := map[];
      collection := map[];
    }

    /** `exists($name)`: whether a builder was ever made under the name. In a
        valid registry such a builder carries that name and its configuration,
        and every menu of the collection exists. */
    function Exists(name: string): (r: bool)
      reads this
      ensures r <==> name in menu.Keys
      ensures Valid() && r ==> menu[name].name == name && menu[name].conf == LoadConf(settings, name)
      ensures Valid() && name in collection ==> r
    {
      name in menu
    }

    /** `get($key)`: the stored builder, or null. */
    function Get(key: string): (r: Builder?)
      reads this
      requires Valid()
      ensures r != null <==> key in collection
      ensures r != null ==> Exists(key) && r == menu[key] && r.name == key
    {
      if key in collection then collection[key] else null
    }

    /** `getCollection()` and `all()`. */
    function Collection(): (r: map<string, Builder>)
      reads this
      requires Valid()
      ensures r.Keys <= menu.Keys
      ensures forall k :: k in r ==> Get(k) == r[k]
    {
      collection
    }

    /** `make($name, $callback)`. A value that is not callable makes
        nothing. Otherwise the builder under the name is made only when
        there is none, with the name's configuration; it is stored in the
        collection and returned, so that every later `make` and `get` of the
        name reach the same builder. The callback itself is the caller's: it
        is given the returned builder, which is the stored object. */
    method Make(name: string, callable: bool) returns (b: Builder?)
      requires Valid()
      modifies this
      ensures Valid()
      ensures !callable ==> b == null && menu == old(menu) && collection == old(collection)
      ensures callable ==> b != null && menu == old(menu)[name := b] && collection == old(collection)[name := b]
      ensures callable && name in old(menu) ==> b == old(menu)[name]
      ensures callable && name !in old(menu) ==>
        fresh(b) && b.name == name && b.conf == LoadConf(settings, name) && b.env == env
        && b.items == [] && b.groupStack == []
      ensures callable ==> Exists(name) && Get(name) == b
    {
      if !callable {
        return null;
      }
      if name !in menu {
        var nb := new Builder(name, LoadConf(settings, name), env);
        menu := menu[name := nb];
      }
      b := menu[name];
      collection := collection[name := b];
    }

    /** `makeOnce($name, $callback)`: nothing when the name already has a
        builder (and the callback does not run); otherwise `make`. */
    method MakeOnce(name: string, callable: bool) returns (b: Builder?)
      requires Valid()
      modifies this
      ensures Valid()
      ensures old(Exists(name)) || !callable ==> b == null && menu == old(menu) && collection == old(collection)
      ensures !old(Exists(name)) && callable ==>
        b != null && fresh(b) && menu == old(menu)[name := b] && collection == old(collection)[name := b]
        && b.name == name && b.conf == LoadConf(settings, name) && b.env == env && b.items == [] && b.groupStack == []
    {
      if Exists(name) {
        return null;
      }
      b := Make(name, callable);
    }
  }
}

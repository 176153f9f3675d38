/** RootClassLoaderTranslationBundle: the translations of a locale, read from every
    ApplicationResources properties file the root class loader can see. */
module Translations {
  import opened Common

  const BaseName := "ApplicationResources"
  const Extension := ".properties"

  /** A java.util.Locale: the root locale, or another locale by its toString text. */
  datatype Locale = Root | Tagged(text: string)

  /** A resource URL. */
  datatype Url = Url(address: string)

  /** A value of a java.util.Properties table, which holds arbitrary objects. */
  datatype PropertyObject = StringObject(s: string) | OtherObject(id: int)

  /** A java.util.Properties table, its entries split by the kind of key: those whose key is
      a String, and those whose key is some other object (by identity). */
  datatype Properties = Properties(stringKeyed: map<string, PropertyObject>, otherKeyed: map<int, PropertyObject>)

  /** Loading `loaded` into `table`: every loaded entry is put, overwriting. */
  function LoadInto(table: Properties, loaded: Properties): Properties {
    Properties(table.stringKeyed + loaded.stringKeyed, table.otherKeyed + loaded.otherKeyed)
  }

  const EmptyProperties := Properties(map[], map[])

  /** The root class loader, as far as the bundle uses it: listing the resources of a name
      (None: an IOException), and reading one resource into properties (None: the stream
      cannot be opened or read). */
  datatype ClassLoader = ClassLoader(
    getResources: string -> Option<seq<Url>>,
    read: Url -> Option<Properties>)

  /** The resource name of a locale: "ApplicationResources.properties" for the root locale,
      "ApplicationResources_<locale>.properties" for any other. */
  function ResourceName(locale: Locale): (name: string)
    ensures |name| >= |BaseName| + |Extension|
    ensures name[..|BaseName|] == BaseName && name[|name| - |Extension|..] == Extension
    ensures locale.Root? ==> name == BaseName + Extension
    ensures locale.Tagged? ==> |name| == |BaseName| + 1 + |locale.text| + |Extension| && name[|BaseName|] == '_'
    ensures locale.Tagged? ==> name[|BaseName| + 1..|name| - |Extension|] == locale.text
  {
    if locale.Root? then BaseName + Extension else BaseName + "_" + locale.text + Extension
  }

  /** Different locales use different resource names. */
  lemma ResourceNameInjective(a: Locale, b: Locale)
    requires a != b
    ensures ResourceName(a) != ResourceName(b)
  {
    var na, nb := ResourceName(a), ResourceName(b);
    if a.Root? && b.Tagged? {
      assert na[|BaseName|] == '.';
    } else if a.Tagged? && b.Root? {
      assert nb[|BaseName|] == '.';
    } else if na == nb {
      assert a.text == na[|BaseName| + 1..|na| - |Extension|];
    }
  }

  /** The properties after loading the resources from last to first, each load overwriting
      what is there: the first resource that defines a key gives its value. Unreadable
      resources add nothing. */
  function Merged(contents: seq<Option<Properties>>): Properties
    decreases |contents|
  {
    if contents == [] then EmptyProperties
    else LoadInto(Merged(contents[1..]), contents[0].GetOr(EmptyProperties))
  }

  /** A String key is present when some readable resource defines it; its value is the one
      from the earliest resource that defines it. */
  lemma {:induction false} MergedFirstWins(contents: seq<Option<Properties>>, key: string)
    ensures key in Merged(contents).stringKeyed <==>
              exists i :: 0 <= i < |contents| && contents[i].Some? && key in contents[i].value.stringKeyed
    ensures forall i :: 0 <= i < |contents| && contents[i].Some? && key in contents[i].value.stringKeyed
                        && (forall j :: 0 <= j < i ==> contents[j].None? || key !in contents[j].value.stringKeyed)
                        ==> Merged(contents).stringKeyed[key] == contents[i].value.stringKeyed[key]
    decreases |contents|
  {
    if contents != [] {
      var rest := contents[1..];
      MergedFirstWins(rest, key);
      assert forall i :: 1 <= i < |contents| ==> contents[i] == rest[i - 1];
      if key !in Merged(contents).stringKeyed {
        forall i | 0 <= i < |contents| ensures !(contents[i].Some? && key in contents[i].value.stringKeyed) {
          if i > 0 {
            assert contents[i] == rest[i - 1];
          }
        }
      }
      forall i | 0 <= i < |contents| && contents[i].Some? && key in contents[i].value.stringKeyed
                 && (forall j :: 0 <= j < i ==> contents[j].None? || key !in contents[j].value.stringKeyed)
        ensures Merged(contents).stringKeyed[key] == contents[i].value.stringKeyed[key]
      {
        if i > 0 {
          assert rest[i - 1] == contents[i];
          assert forall j :: 0 <= j < i - 1 ==> rest[j] == contents[j + 1];
        }
      }
    }
  }

  /** getResourceProperties: null when listing the resources fails or finds none; otherwise
      the merged properties of all of them. */
  function ResourceProperties(locale: Locale, loader: ClassLoader): (r: Option<Properties>)
    ensures r.None? <==> loader.getResources(ResourceName(locale)).None? || loader.getResources(ResourceName(locale)).value == []
  {
    match loader.getResources(ResourceName(locale))
    case None => None
    case Some(urls) => if urls == [] then None else Some(Merged(Map(loader.read, urls)))
  }

  /** The getResourceProperties loop: the name is built piece by piece, and the URLs are
      loaded from the last to the first. */
  method GetResourceProperties(locale: Locale, loader: ClassLoader) returns (properties: Option<Properties>)
    ensures properties == ResourceProperties(locale, loader)
  {
    var resourceName := BaseName;
    if locale != Root {
      resourceName := resourceName + "_" + locale.text;
    }
    resourceName := resourceName + Extension;
    var listed := loader.getResources(resourceName);
    if listed.None? || listed.value == [] {
      return None;
    }
    var urls := listed.value;
    ghost var contents := Map(loader.read, urls);
    MapAt(loader.read, urls);
    var loaded := EmptyProperties;
    var i := |urls|;
    while i > 0
      invariant 0 <= i <= |urls|
      invariant loaded == Merged(contents[i..])
    {
      i := i - 1;
      assert contents[i..][1..] == contents[i + 1..];
      var read := loader.read(urls[i]);
      if read.Some? {
        loaded := LoadInto(loaded, read.value);
      }
    }
    assert contents[0..] == contents;
    return Some(loaded);
  }

  /** The entries of a Properties table whose key and value are both strings, among the
      String keys `keys`. */
  function StringEntriesAmong(properties: Properties, keys: set<string>): map<string, string> {
    map key | key in keys && key in properties.stringKeyed && properties.stringKeyed[key].StringObject?
      :: properties.stringKeyed[key].s
  }

  /** Looking at one more String key adds its entry when the value is a string. */
  lemma StringEntriesAmongAdd(properties: Properties, done: set<string>, key: string)
    requires key in properties.stringKeyed
    ensures properties.stringKeyed[key].StringObject? ==>
              StringEntriesAmong(properties, done + {key}) == StringEntriesAmong(properties, done)[key := properties.stringKeyed[key].s]
    ensures !properties.stringKeyed[key].StringObject? ==>
              StringEntriesAmong(properties, done + {key}) == StringEntriesAmong(properties, done)
  {
  }

  /** The entries of a Properties table whose key and value are both strings. */
  function StringEntries(properties: Properties): (r: map<string, string>)
    ensures forall key :: key in r <==> key in properties.stringKeyed && properties.stringKeyed[key].StringObject?
    ensures forall key :: key in r ==> properties.stringKeyed[key] == StringObject(r[key])
  {
    StringEntriesAmong(properties, properties.stringKeyed.Keys)
  }

  /** A bundle of translations for one locale; each translation is kept by its key with its
      raw message. */
  class LocalizedTranslationBundle {
    const locale: Locale
    var translations: map<string, string>

    constructor (locale: Locale)
      ensures this.locale == locale && translations == map[]
    {
      this.locale := locale;
      translations := map[];
    }

    method AddTranslation(key: string, message: string)
      modifies this
      ensures translations == old(translations)[key := message]
    {
      translations := translations[key := message];
    }
  }

  /** createBundle: the EMPTY bundle (null here) when there are no properties; otherwise a
      new bundle with one translation per entry whose key and value are strings. */
  method CreateBundle(locale: Locale, loader: ClassLoader) returns (bundle: LocalizedTranslationBundle?)
    ensures bundle == null <==> ResourceProperties(locale, loader).None?
    ensures bundle != null ==>
              fresh(bundle) && bundle.locale == locale
              && bundle.translations == StringEntries(ResourceProperties(locale, loader).value)
  {
    var properties := GetResourceProperties(locale, loader);
    if properties.None? {
      return null;
    }
    var entries := properties.value;
    bundle := new LocalizedTranslationBundle(locale);
    // An entry whose key is not a String fails the instanceof test: only String keys matter.
    var pending := entries.stringKeyed.Keys;
    ghost var done: set<string> := {};
    while pending != {}
      invariant pending <= entries.stringKeyed.Keys && done == entries.stringKeyed.Keys - pending
      invariant bundle.translations == StringEntriesAmong(entries, done)
      decreases |pending|
    {
      var key :| key in pending;
      StringEntriesAmongAdd(entries, done, key);
      if entries.stringKeyed[key].StringObject? {
        bundle.AddTranslation(key, entries.stringKeyed[key].s);
      }
      pending := pending - {key};
      done := done + {key};
    }
    assert done == entries.stringKeyed.Keys;
  }
}

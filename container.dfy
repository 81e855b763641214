// Model of FilterBuilder from test/infrastructure/container/interface.go:
// docker filters of the form key=name=value, built up in place.
module Container {

  type Filters = map<string, map<string, seq<string>>>

  /** The values listed under key and name; none when either is missing. */
  function ValuesOf(f: Filters, key: string, name: string): seq<string>
  {
    if key in f && name in f[key] then f[key][name] else []
  }

  /** The filters after value is added under key and name. */
  function Added(f: Filters, key: string, name: string, value: string): Filters
  {
    var inner := if key in f then f[key] else map[];
    f[key := inner[name := ValuesOf(f, key, name) + [value]]]
  }

  /** A FilterBuilder: a map the methods below change in place. */
  class FilterBuilder {
    var filters: Filters

    constructor()
      ensures filters == map[]
    {
      filters := map[];
    }

    /** AddKeyNameValue: creates the key's inner map if missing, then
        appends value to the key's list for name. */
    method AddKeyNameValue(key: string, name: string, value: string)
      modifies this
      ensures filters == Added(old(filters), key, name, value)
    {
      if key !in filters {
        filters := filters[key := map[]];
      }
      var inner := filters[key];
      var values := if name in inner then inner[name] else [];
      filters := filters[key := inner[name := values + [value]]];
    }

    /** AddKeyValue: value is the name, and "" is appended under it. */
    method AddKeyValue(key: string, value: string)
      modifies this
      ensures filters == Added(old(filters), key, value, "")
    {
      AddKeyNameValue(key, value, "");
    }
  }

  /** Adding appends the value at the end of the key and name's list (an
      empty list when missing), and leaves every other key and name as it
      was. */
  lemma AddedAppends(f: Filters, key: string, name: string, value: string, k: string, n: string)
    ensures ValuesOf(Added(f, key, name, value), key, name) == ValuesOf(f, key, name) + [value]
    ensures (k, n) != (key, name) ==> ValuesOf(Added(f, key, name, value), k, n) == ValuesOf(f, k, n)
    ensures k != key ==> (k in Added(f, key, name, value) <==> k in f)
    ensures k != key && k in f ==> Added(f, key, name, value)[k] == f[k]
  {
  }

  /** A new key gets an inner map holding only the name. */
  lemma AddedNewKey(f: Filters, key: string, name: string, value: string)
    requires key !in f
    ensures Added(f, key, name, value)[key] == map[name := [value]]
  {
    assert ValuesOf(f, key, name) + [value] == [value];
  }

  /** Adding is not idempotent: the same value added twice is listed twice. */
  lemma AddedTwice(f: Filters, key: string, name: string, value: string)
    ensures ValuesOf(Added(Added(f, key, name, value), key, name, value), key, name) ==
      ValuesOf(f, key, name) + [value, value]
    ensures Added(Added(f, key, name, value), key, name, value) != Added(f, key, name, value)
  {
    AddedAppends(f, key, name, value, key, name);
    AddedAppends(Added(f, key, name, value), key, name, value, key, name);
    var once := Added(f, key, name, value);
    var twice := Added(once, key, name, value);
    assert |ValuesOf(twice, key, name)| == |ValuesOf(once, key, name)| + 1;
  }

  /** The filter a new builder holds after AddKeyValue(key, value). */
  lemma SingleKeyValue(key: string, value: string)
    ensures Added(map[], key, value, "") == map[key := map[value := [""]]]
  {
    AddedNewKey(map[], key, value, "");
  }
}

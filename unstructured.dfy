// The parts of apimachinery's unstructured package that
// cmd/clusterctl/client/move.go uses: an object is a JSON tree whose maps are
// indexed by field paths. NestedFieldNoCopy, RemoveNestedField and
// SetNestedField are modelled on values; the Unstructured wrapper whose
// content the mutators change in place is a class.
module Unstructured {

  import opened Wrappers

  /** A decoded JSON value; numbers are integers here. */
  datatype Value =
    | Null
    | Bool(b: bool)
    | Number(n: int)
    | Str(s: string)
    | Array(items: seq<Value>)
    | Object(fields: map<string, Value>)

  type Obj = map<string, Value>

  type Path = seq<string>

  /** The result of NestedFieldNoCopy: the value, not found, or the error for
      a non-map value in the middle of the path (carrying the path up to the
      field that could not be read). */
  datatype Lookup = Found(value: Value) | Missing | NotAMap(at: Path)

  predicate IsPrefix(p: Path, q: Path)
  {
    |p| <= |q| && q[..|p|] == p
  }

  /** Neither path leads into the other. */
  predicate Disjoint(p: Path, q: Path)
  {
    !IsPrefix(p, q) && !IsPrefix(q, p)
  }

  /** NestedFieldNoCopy on a value: a null on the way means not found. */
  function LookupIn(v: Value, path: Path): (r: Lookup)
    ensures r.NotAMap? ==> 1 <= |r.at| && IsPrefix(r.at, path)
  {
    if |path| == 0 then Found(v)
    else match v
      case Null => Missing
      case Object(m) =>
        if path[0] !in m then Missing
        else
          var r := LookupIn(m[path[0]], path[1..]);
          if r.NotAMap? then NotAMap([path[0]] + r.at) else r
      case _ => NotAMap([path[0]])
  }

  function Get(obj: Obj, path: Path): Lookup
  {
    LookupIn(Object(obj), path)
  }

  /** RemoveNestedField: walks the maps along the path and deletes the last
      field; a missing or non-map step leaves the object as it is. */
  function Remove(obj: Obj, path: Path): Obj
    requires |path| >= 1
    decreases |path|
  {
    if |path| == 1 then obj - {path[0]}
    else if path[0] in obj && obj[path[0]].Object? then
      obj[path[0] := Object(Remove(obj[path[0]].fields, path[1..]))]
    else obj
  }

  /** SetNestedField: a missing or null step along the path is replaced by
      a new map; an existing step that is neither a map nor null is an error
      and changes nothing. */
  function Set(obj: Obj, path: Path, v: Value): Option<Obj>
    requires |path| >= 1
    decreases |path|
  {
    if |path| == 1 then Some(obj[path[0] := v])
    else if path[0] !in obj || obj[path[0]].Null? then
      var inner := Set(map[], path[1..], v);
      if inner.None? then None else Some(obj[path[0] := Object(inner.value)])
    else if obj[path[0]].Object? then
      var inner := Set(obj[path[0]].fields, path[1..], v);
      if inner.None? then None else Some(obj[path[0] := Object(inner.value)])
    else None
  }

  // ---------------------------------------------------------------------
  // Properties of the path operations.

  /** One step of a lookup from an object. */
  lemma GetStep(obj: Obj, path: Path)
    requires |path| >= 1
    ensures Get(obj, path) ==
      if path[0] !in obj then Missing
      else
        var r := LookupIn(obj[path[0]], path[1..]);
        if r.NotAMap? then NotAMap([path[0]] + r.at) else r
    ensures path[0] in obj && obj[path[0]].Object? ==>
      Get(obj, path) ==
        var r := Get(obj[path[0]].fields, path[1..]);
        if r.NotAMap? then NotAMap([path[0]] + r.at) else r
  {
  }

  /** Past a value that is not a map nothing is found. */
  lemma LookupPastLeaf(v: Value, path: Path)
    requires |path| >= 1 && !v.Object?
    ensures !LookupIn(v, path).Found?
  {
  }

  lemma PrefixStep(p: Path, q: Path)
    requires |p| >= 1 && |q| >= 1 && p[0] == q[0]
    ensures IsPrefix(p, q) <==> IsPrefix(p[1..], q[1..])
    ensures Disjoint(p, q) <==> Disjoint(p[1..], q[1..])
  {
    if |p| <= |q| {
      assert q[..|p|] == [q[0]] + q[1..][..|p| - 1];
    }
    if |q| <= |p| {
      assert p[..|q|] == [p[0]] + p[1..][..|q| - 1];
    }
  }

  /** After a removal the path is not found. */
  lemma {:induction false} RemoveClears(obj: Obj, path: Path)
    requires |path| >= 1
    ensures !Get(Remove(obj, path), path).Found?
    decreases |path|
  {
    GetStep(Remove(obj, path), path);
    if |path| > 1 && path[0] in obj {
      if obj[path[0]].Object? {
        RemoveClears(obj[path[0]].fields, path[1..]);
      } else {
        LookupPastLeaf(obj[path[0]], path[1..]);
      }
    }
  }

  /** A removal keeps every path that neither leads into the removed one nor
      lies under it. */
  lemma {:induction false} RemoveKeeps(obj: Obj, q: Path, p: Path)
    requires |q| >= 1 && Disjoint(p, q)
    ensures Get(Remove(obj, q), p) == Get(obj, p)
    decreases |q|
  {
    assert |p| >= 1;
    GetStep(obj, p);
    GetStep(Remove(obj, q), p);
    if |q| > 1 && q[0] in obj && obj[q[0]].Object? && p[0] == q[0] {
      PrefixStep(p, q);
      RemoveKeeps(obj[q[0]].fields, q[1..], p[1..]);
    }
  }

  /** A removal finds nothing it did not find before. */
  lemma {:induction false} RemoveAddsNothing(obj: Obj, q: Path, p: Path)
    requires |q| >= 1 && Get(Remove(obj, q), p).Found?
    ensures Get(obj, p).Found?
    decreases |q|
  {
    if |p| > 0 {
      GetStep(obj, p);
      GetStep(Remove(obj, q), p);
      if |q| > 1 && q[0] in obj && obj[q[0]].Object? && p[0] == q[0] {
        RemoveAddsNothing(obj[q[0]].fields, q[1..], p[1..]);
      }
    }
  }

  /** Setting a path that is found succeeds and finds the new value. */
  lemma {:induction false} SetFound(obj: Obj, path: Path, v: Value)
    requires |path| >= 1 && Get(obj, path).Found?
    ensures Set(obj, path, v).Some?
    ensures Get(Set(obj, path, v).value, path) == Found(v)
    decreases |path|
  {
    GetStep(obj, path);
    if |path| > 1 {
      if !obj[path[0]].Object? {
        LookupPastLeaf(obj[path[0]], path[1..]);
      }
      SetFound(obj[path[0]].fields, path[1..], v);
      GetStep(Set(obj, path, v).value, path);
    } else {
      GetStep(Set(obj, path, v).value, path);
    }
  }

  /** Setting a path that is found keeps every path disjoint from it. */
  lemma {:induction false} SetKeeps(obj: Obj, q: Path, v: Value, p: Path)
    requires |q| >= 1 && Get(obj, q).Found? && Disjoint(p, q)
    ensures Set(obj, q, v).Some? && Get(Set(obj, q, v).value, p) == Get(obj, p)
    decreases |q|
  {
    SetFound(obj, q, v);
    assert |p| >= 1;
    GetStep(obj, q);
    GetStep(obj, p);
    GetStep(Set(obj, q, v).value, p);
    if |q| > 1 && p[0] == q[0] {
      PrefixStep(p, q);
      SetKeeps(obj[q[0]].fields, q[1..], v, p[1..]);
    }
  }

  // ---------------------------------------------------------------------
  // The Unstructured wrapper.

  const KindPath: Path := ["kind"]
  const NamespacePath: Path := ["metadata", "namespace"]
  const NamePath: Path := ["metadata", "name"]

  /** getNestedString: the string at the path, "" when it is missing, not a
      string or behind a non-map. */
  function StringAt(obj: Obj, path: Path): string
  {
    var r := Get(obj, path);
    if r.Found? && r.value.Str? then r.value.s else ""
  }

  /** Unstructured.SetNamespace on an object: an empty namespace removes
      metadata.namespace, any other is set, creating metadata when needed (an
      error of SetNestedField is ignored). */
  function WithNamespace(obj: Obj, ns: string): Obj
  {
    if |ns| == 0 then Remove(obj, NamespacePath)
    else
      var r := Set(obj, NamespacePath, Str(ns));
      if r.None? then obj else r.value
  }

  /** Unstructured.SetName on a non-nil object: the same rule for
      metadata.name. */
  function WithName(obj: Obj, name: string): Obj
  {
    if |name| == 0 then Remove(obj, NamePath)
    else
      var r := Set(obj, NamePath, Str(name));
      if r.None? then obj else r.value
  }

  /** Setting a namespace where metadata is missing or null puts a new
      metadata map holding only the namespace in its place, and the
      namespace reads back. */
  lemma SetNamespaceThroughNull(obj: Obj, ns: string)
    requires "metadata" !in obj || obj["metadata"].Null?
    requires ns != ""
    ensures WithNamespace(obj, ns) == obj["metadata" := Object(map["namespace" := Str(ns)])]
    ensures StringAt(WithNamespace(obj, ns), NamespacePath) == ns
  {
    assert NamespacePath[1..] == ["namespace"];
    GetStep(WithNamespace(obj, ns), NamespacePath);
  }

  /** Renaming an object that has a name gives it the new name and keeps
      its kind. */
  lemma SetNameReads(obj: Obj, name: string)
    requires StringAt(obj, NamePath) != "" && name != ""
    ensures StringAt(WithName(obj, name), NamePath) == name
    ensures StringAt(WithName(obj, name), KindPath) == StringAt(obj, KindPath)
  {
    SetFound(obj, NamePath, Str(name));
    SetKeeps(obj, NamePath, Str(name), KindPath);
  }

  class Unstructured {
    /** The JSON content; None is a nil map. */
    var content: Option<Obj>

    constructor(content: Option<Obj>)
      ensures this.content == content
    {
      this.content := content;
    }

    function GetKind(): string
      reads this
    {
      if content.None? then "" else StringAt(content.value, KindPath)
    }

    function GetNamespace(): string
      reads this
    {
      if content.None? then "" else StringAt(content.value, NamespacePath)
    }

    /** SetNamespace: a nil object becomes an empty map first when there is
        something to set. */
    method SetNamespace(ns: string)
      modifies this
      ensures if old(content).None? && |ns| == 0 then content == old(content)
              else content == Some(WithNamespace(if old(content).None? then map[] else old(content).value, ns))
    {
      if |ns| == 0 {
        if content.Some? {
          content := Some(Remove(content.value, NamespacePath));
        }
        return;
      }
      var obj := if content.None? then map[] else content.value;
      var r := Set(obj, NamespacePath, Str(ns));
      if r.Some? {
        content := Some(r.value);
      } else {
        content := Some(obj);
      }
    }
  }

  /** SetNamespace with a non-empty namespace on an object whose namespace
      is set: GetNamespace then gives the new one. */
  lemma SetNamespaceReads(obj: Obj, ns: string)
    requires StringAt(obj, NamespacePath) != "" && ns != ""
    ensures StringAt(WithNamespace(obj, ns), NamespacePath) == ns
  {
    SetFound(obj, NamespacePath, Str(ns));
  }

  /** SetNamespace with "" removes the namespace. */
  lemma ClearNamespace(obj: Obj)
    ensures !Get(WithNamespace(obj, ""), NamespacePath).Found?
  {
    RemoveClears(obj, NamespacePath);
  }
}

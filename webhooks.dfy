// Model of appendWebhookConfiguration in internal/envtest/webhooks.go: the
// webhook configurations of a parsed manifest are picked out by kind and
// name, renamed with a tag, and appended to the mutating and validating
// lists. Objects are modelled as values; the YAML parsing is not modelled.
module Webhooks {

  import opened Unstructured

  const MutatingWebhookKind := "MutatingWebhookConfiguration"
  const ValidatingWebhookKind := "ValidatingWebhookConfiguration"
  const MutatingWebhookName := "mutating-webhook-configuration"
  const ValidatingWebhookName := "validating-webhook-configuration"

  /** The object has the given kind and name. */
  predicate Is(obj: Obj, kind: string, name: string)
  {
    StringAt(obj, KindPath) == kind && StringAt(obj, NamePath) == name
  }

  /** The name a picked object gets: the original name, a dash and the tag. */
  function Tagged(name: string, tag: string): string
  {
    name + "-" + tag
  }

  /** The objects of the kind and name, in order, each renamed with the tag. */
  function Picked(objs: seq<Obj>, kind: string, name: string, tag: string): seq<Obj>
  {
    if |objs| == 0 then []
    else
      var last := objs[|objs| - 1];
      Picked(objs[..|objs| - 1], kind, name, tag) +
      (if Is(last, kind, name) then [WithName(last, Tagged(name, tag))] else [])
  }

  /** appendWebhookConfiguration on the parsed objects. */
  method AppendWebhookConfiguration(mutating: seq<Obj>, validating: seq<Obj>, objs: seq<Obj>, tag: string)
    returns (mutatingOut: seq<Obj>, validatingOut: seq<Obj>)
    ensures mutatingOut == mutating + Picked(objs, MutatingWebhookKind, MutatingWebhookName, tag)
    ensures validatingOut == validating + Picked(objs, ValidatingWebhookKind, ValidatingWebhookName, tag)
  {
    mutatingOut, validatingOut := mutating, validating;
    var i := 0;
    while i < |objs|
      invariant 0 <= i <= |objs|
      invariant mutatingOut == mutating + Picked(objs[..i], MutatingWebhookKind, MutatingWebhookName, tag)
      invariant validatingOut == validating + Picked(objs[..i], ValidatingWebhookKind, ValidatingWebhookName, tag)
    {
      assert objs[..i + 1][..i] == objs[..i];
      var o := objs[i];
      if StringAt(o, KindPath) == MutatingWebhookKind {
        if StringAt(o, NamePath) == MutatingWebhookName {
          SetNameReads(o, Tagged(MutatingWebhookName, tag));
          o := WithName(o, Tagged(MutatingWebhookName, tag));
          mutatingOut := mutatingOut + [o];
        }
      }
      if StringAt(o, KindPath) == ValidatingWebhookKind {
        if StringAt(o, NamePath) == ValidatingWebhookName {
          o := WithName(o, Tagged(ValidatingWebhookName, tag));
          validatingOut := validatingOut + [o];
        }
      }
      i := i + 1;
    }
    assert objs[..i] == objs;
  }

  /** The picked objects are exactly the objects of the kind and name, each
      renamed with the tag; objects of any other kind or name are dropped. */
  lemma {:induction false} PickedMembers(objs: seq<Obj>, kind: string, name: string, tag: string, x: Obj)
    ensures x in Picked(objs, kind, name, tag) <==>
      exists o | o in objs :: Is(o, kind, name) && x == WithName(o, Tagged(name, tag))
    decreases |objs|
  {
    if |objs| > 0 {
      var init := objs[..|objs| - 1];
      PickedMembers(init, kind, name, tag, x);
      assert objs == init + [objs[|objs| - 1]];
      if exists o | o in objs :: Is(o, kind, name) && x == WithName(o, Tagged(name, tag)) {
        var o :| o in objs && Is(o, kind, name) && x == WithName(o, Tagged(name, tag));
        if o != objs[|objs| - 1] {
          assert o in init;
        }
      }
    }
  }

  /** Input order is kept: the objects picked from a concatenation are those
      picked from each part, one after the other. */
  lemma {:induction false} PickedAppend(a: seq<Obj>, b: seq<Obj>, kind: string, name: string, tag: string)
    ensures Picked(a + b, kind, name, tag) == Picked(a, kind, name, tag) + Picked(b, kind, name, tag)
    decreases |b|
  {
    if |b| == 0 {
      assert a + b == a;
    } else {
      var ib := b[..|b| - 1];
      PickedAppend(a, ib, kind, name, tag);
      assert (a + b)[..|a + b| - 1] == a + ib;
      assert (a + b)[|a + b| - 1] == b[|b| - 1];
    }
  }

  /** Every picked object keeps its kind and carries the tagged name. */
  lemma {:induction false} PickedRenamed(objs: seq<Obj>, kind: string, name: string, tag: string, k: nat)
    requires name != "" && k < |Picked(objs, kind, name, tag)|
    ensures Is(Picked(objs, kind, name, tag)[k], kind, Tagged(name, tag))
    decreases |objs|
  {
    var init := objs[..|objs| - 1];
    var last := objs[|objs| - 1];
    if k < |Picked(init, kind, name, tag)| {
      PickedRenamed(init, kind, name, tag, k);
    } else {
      SetNameReads(last, Tagged(name, tag));
    }
  }
}

/** Free-form value trees: rendering every string inside one, and deep-merging two. */
module ValueTree {
  import opened Bytes
  import opened TemplateLanguage

  datatype Value =
    | Null
    | Bool(flag: bool)
    | Number(token: string)
    | Str(text: string)
    | Array(items: seq<Value>)
    | Object(fields: map<string, Value>)

  // ----- rendering

  /** Every string rendered in place; nothing when one of them does not render. */
  function RenderedValue(v: Value, b: Bindings): (r: Option<Value>) {
    match v
    case Str(text) =>
      (match Render(text, b)
       case Ok(s) => Some(Str(s))
       case Err(_) => None)
    case Array(items) =>
      if exists i | 0 <= i < |items| :: RenderedValue(items[i], b).None? then None
      else Some(Array(seq(|items|, i requires 0 <= i < |items| => RenderedValue(items[i], b).value)))
    case Object(fields) =>
      if exists k | k in fields :: RenderedValue(fields[k], b).None? then None
      else Some(Object(map k | k in fields :: RenderedValue(fields[k], b).value))
    case _ => Some(v)
  }

  /** `e` is how some string of the tree refuses to render. */
  ghost predicate HasRenderError(v: Value, b: Bindings, e: TemplateError) {
    match v
    case Str(text) => Render(text, b) == Err(e)
    case Array(items) => exists i | 0 <= i < |items| :: HasRenderError(items[i], b, e)
    case Object(fields) => exists k | k in fields :: HasRenderError(fields[k], b, e)
    case _ => false
  }

  /** The source's walk. Which error of several it reports depends on the order of the keys. */
  method RenderValue(v: Value, b: Bindings) returns (r: Result<Value, TemplateError>)
    ensures r.Ok? ==> RenderedValue(v, b) == Some(r.value)
    ensures r.Err? ==> RenderedValue(v, b).None? && HasRenderError(v, b, r.error)
    decreases v, 1
  {
    match v {
      case Str(text) =>
        match Render(text, b) {
          case Ok(s) => return Ok(Str(s));
          case Err(e) => return Err(e);
        }
      case Array(_) => r := RenderItems(v, b);
      case Object(_) => r := RenderFields(v, b);
      case _ => return Ok(v);
    }
  }

  method RenderItems(v: Value, b: Bindings) returns (r: Result<Value, TemplateError>)
    requires v.Array?
    ensures r.Ok? ==> RenderedValue(v, b) == Some(r.value)
    ensures r.Err? ==> RenderedValue(v, b).None? && HasRenderError(v, b, r.error)
    decreases v, 0
  {
    var items := v.items;
    var rendered: seq<Value> := [];
    for i := 0 to |items|
      invariant |rendered| == i
      invariant forall j | 0 <= j < i :: RenderedValue(items[j], b) == Some(rendered[j])
    {
      var item := RenderValue(items[i], b);
      if item.Err? {
        return item;
      }
      rendered := rendered + [item.value];
    }
    assert RenderedValue(v, b).Some?;
    assert RenderedValue(v, b).value.items == rendered;
    return Ok(Array(rendered));
  }

  method RenderFields(v: Value, b: Bindings) returns (r: Result<Value, TemplateError>)
    requires v.Object?
    ensures r.Ok? ==> RenderedValue(v, b) == Some(r.value)
    ensures r.Err? ==> RenderedValue(v, b).None? && HasRenderError(v, b, r.error)
    decreases v, 0
  {
    var fields := v.fields;
    var rendered: map<string, Value> := map[];
    var left := fields.Keys;
    while left != {}
      invariant left <= fields.Keys
      invariant rendered.Keys == fields.Keys - left
      invariant forall k | k in rendered :: RenderedValue(fields[k], b) == Some(rendered[k])
    {
      var k :| k in left;
      var field := RenderValue(fields[k], b);
      if field.Err? {
        return field;
      }
      rendered := rendered[k := field.value];
      left := left - {k};
    }
    RenderedObject(fields, rendered, b);
    return Ok(Object(rendered));
  }

  // ----- deep merge

  /** Objects merge key by key; anything else is replaced. */
  function Merge(base: Value, overlay: Value): (r: Value) {
    if base.Object? && overlay.Object? then
      Object(map k | k in base.fields.Keys + overlay.fields.Keys ::
               if k !in overlay.fields then base.fields[k]
               else if k !in base.fields then overlay.fields[k]
               else Merge(base.fields[k], overlay.fields[k]))
    else overlay
  }

  method MergeValues(base: Value, overlay: Value) returns (r: Value)
    ensures r == Merge(base, overlay)
    decreases base
  {
    if !(base.Object? && overlay.Object?) {
      return overlay;
    }
    var fields := overlay.fields;
    var merged := base.fields;
    var left := fields.Keys;
    while left != {}
      invariant left <= fields.Keys
      invariant merged.Keys == base.fields.Keys + (fields.Keys - left)
      invariant forall k | k in merged ::
                  merged[k] == if k !in fields || k in left then base.fields[k] else Merge(base, overlay).fields[k]
    {
      var k :| k in left;
      var next := fields[k];
      if k in merged {
        assert k in base.fields;
        next := MergeValues(merged[k], fields[k]);
      }
      merged := merged[k := next];
      left := left - {k};
    }
    assert merged.Keys == Merge(base, overlay).fields.Keys;
    return Object(merged);
  }

  /** What a path of keys leads to. */
  function Get(v: Value, path: seq<string>): (r: Option<Value>) {
    if path == [] then Some(v)
    else if v.Object? && path[0] in v.fields then Get(v.fields[path[0]], path[1..])
    else None
  }

  /** `v` says nothing about `path`: the path leaves `v` at an object that lacks the key. */
  predicate Silent(v: Value, path: seq<string>) {
    path != [] && v.Object? && (path[0] in v.fields ==> Silent(v.fields[path[0]], path[1..]))
  }

  /**
   * The merge, path by path: where both say something the two merge, where one is silent the other
   * stands, and a path that runs into a replaced value leads nowhere.
   */
  lemma {:induction false} MergeAtPath(base: Value, overlay: Value, path: seq<string>)
    ensures Get(Merge(base, overlay), path) ==
            match Get(overlay, path)
            case Some(y) =>
              (match Get(base, path)
               case Some(x) => Some(Merge(x, y))
               case None => Some(y))
            case None => if Silent(overlay, path) then Get(base, path) else None
    decreases path
  {
    if path != [] && base.Object? && overlay.Object? {
      var k := path[0];
      var merged := Merge(base, overlay);
      assert k in merged.fields <==> k in base.fields || k in overlay.fields;
      if k in base.fields && k in overlay.fields {
        MergeAtPath(base.fields[k], overlay.fields[k], path[1..]);
      }
    }
  }

  /**
   * The same without naming the merge of parts: a value that is no object replaces whatever stood there,
   * two objects become one with the keys of both, and a path only one of them speaks of is that one's.
   */
  lemma MergeByPaths(base: Value, overlay: Value, path: seq<string>)
    ensures var x, y, r := Get(base, path), Get(overlay, path), Get(Merge(base, overlay), path);
            && (y.Some? && !y.value.Object? ==> r == y)
            && (y.Some? && !(x.Some? && x.value.Object?) ==> r == y)
            && (x.Some? && y.Some? && x.value.Object? && y.value.Object? ==>
                  r.Some? && r.value.Object? && r.value.fields.Keys == x.value.fields.Keys + y.value.fields.Keys)
            && (y.None? ==> r == if Silent(overlay, path) then x else None)
  {
    MergeAtPath(base, overlay, path);
  }

  // ----- rendering, place by place

  /** A step into a value: to a field of an object, or to an item of an array. */
  datatype Step = Field(key: string) | Item(index: nat)

  /** What a path of steps leads to. */
  function At(v: Value, path: seq<Step>): (r: Option<Value>)
    decreases path
  {
    if path == [] then Some(v)
    else
      match (v, path[0])
      case (Object(fields), Field(k)) => if k in fields then At(fields[k], path[1..]) else None
      case (Array(items), Item(i)) => if i < |items| then At(items[i], path[1..]) else None
      case _ => None
  }

  /** `r` is what one place holding `v` looks like rendered, its own parts aside. */
  ghost predicate RenderedHere(v: Value, r: Value, b: Bindings) {
    match v
    case Str(text) => r.Str? && Render(text, b) == Ok(r.text)
    case Array(items) => r.Array? && |r.items| == |items|
    case Object(fields) => r.Object? && r.fields.Keys == fields.Keys
    case _ => r == v
  }

  lemma RenderedItems(v: Value, r: Value, b: Bindings)
    requires v.Array? && RenderedValue(v, b) == Some(r)
    ensures r.Array? && |r.items| == |v.items|
    ensures forall i | 0 <= i < |v.items| :: RenderedValue(v.items[i], b) == Some(r.items[i])
  {
  }

  /** Rendering reaches every string at every depth, through arrays too, and touches nothing else. */
  lemma {:induction false} RenderedEverywhere(v: Value, r: Value, b: Bindings, path: seq<Step>)
    requires RenderedValue(v, b) == Some(r)
    ensures At(v, path).Some? <==> At(r, path).Some?
    ensures At(v, path).Some? ==> RenderedHere(At(v, path).value, At(r, path).value, b)
    decreases path
  {
    if path == [] {
      RenderedOne(v, r, b);
    } else if v.Object? {
      RenderedFields(v, r, b);
      if path[0].Field? && path[0].key in v.fields {
        RenderedEverywhere(v.fields[path[0].key], r.fields[path[0].key], b, path[1..]);
      }
    } else if v.Array? {
      RenderedItems(v, r, b);
      if path[0].Item? && path[0].index < |v.items| {
        RenderedEverywhere(v.items[path[0].index], r.items[path[0].index], b, path[1..]);
      }
    } else {
      RenderedOne(v, r, b);
    }
  }

  lemma RenderedOne(v: Value, r: Value, b: Bindings)
    requires RenderedValue(v, b) == Some(r)
    ensures RenderedHere(v, r, b)
  {
  }

  /** A tree fails to render exactly when some string in it does. */
  lemma {:induction false} UnrenderedHasPlace(v: Value, b: Bindings) returns (path: seq<Step>)
    requires RenderedValue(v, b).None?
    ensures At(v, path).Some? && At(v, path).value.Str? && Render(At(v, path).value.text, b).Err?
    decreases v
  {
    match v
    case Str(_) =>
      path := [];
    case Array(items) =>
      var i :| 0 <= i < |items| && RenderedValue(items[i], b).None?;
      path := UnrenderedHasPlace(items[i], b);
      assert ([Item(i)] + path)[1..] == path;
      path := [Item(i)] + path;
    case Object(fields) =>
      var k :| k in fields && RenderedValue(fields[k], b).None?;
      path := UnrenderedHasPlace(fields[k], b);
      assert ([Field(k)] + path)[1..] == path;
      path := [Field(k)] + path;
  }

  // ----- the two together

  lemma RenderedObject(fields: map<string, Value>, rendered: map<string, Value>, b: Bindings)
    requires rendered.Keys == fields.Keys
    requires forall k | k in fields :: RenderedValue(fields[k], b) == Some(rendered[k])
    ensures RenderedValue(Object(fields), b) == Some(Object(rendered))
  {
    var r := RenderedValue(Object(fields), b);
    assert r.Some?;
    assert r.value.fields == rendered;
  }

  lemma RenderedFields(v: Value, r: Value, b: Bindings)
    requires v.Object? && RenderedValue(v, b) == Some(r)
    ensures r.Object? && r.fields.Keys == v.fields.Keys
    ensures forall k | k in v.fields :: RenderedValue(v.fields[k], b) == Some(r.fields[k])
  {
  }

  /** Rendering keeps the shape: an object stays one with the same keys, nothing else becomes one. */
  lemma RenderedShape(v: Value, r: Value, b: Bindings)
    requires RenderedValue(v, b) == Some(r)
    ensures v.Object? <==> r.Object?
    ensures v.Object? ==> r.fields.Keys == v.fields.Keys
  {
  }

  /** Rendering happens in place: what a path led to, it leads to rendered. */
  lemma {:induction false} RenderedAtPath(v: Value, r: Value, b: Bindings, path: seq<string>)
    requires RenderedValue(v, b) == Some(r)
    ensures Get(v, path).None? ==> Get(r, path).None?
    ensures Get(v, path).Some? ==> Get(r, path).Some? && RenderedValue(Get(v, path).value, b) == Get(r, path)
    decreases path
  {
    RenderedShape(v, r, b);
    if path != [] && v.Object? && path[0] in v.fields {
      RenderedFields(v, r, b);
      RenderedAtPath(v.fields[path[0]], r.fields[path[0]], b, path[1..]);
    }
  }

  /** Rendering and merging commute, at any depth. */
  lemma {:induction false} RenderCommutesWithMerge(base: Value, overlay: Value, base': Value, overlay': Value,
                                                   b: Bindings)
    requires RenderedValue(base, b) == Some(base')
    requires RenderedValue(overlay, b) == Some(overlay')
    ensures RenderedValue(Merge(base, overlay), b) == Some(Merge(base', overlay'))
    decreases base
  {
    RenderedShape(base, base', b);
    RenderedShape(overlay, overlay', b);
    if base.Object? && overlay.Object? {
      RenderedFields(base, base', b);
      RenderedFields(overlay, overlay', b);
      var merged, merged' := Merge(base, overlay), Merge(base', overlay');
      assert merged.fields.Keys == base.fields.Keys + overlay.fields.Keys == merged'.fields.Keys;
      forall k | k in merged.fields
        ensures RenderedValue(merged.fields[k], b) == Some(merged'.fields[k])
      {
        if k in base.fields && k in overlay.fields {
          RenderCommutesWithMerge(base.fields[k], overlay.fields[k], base'.fields[k], overlay'.fields[k], b);
        }
      }
      RenderedObject(merged.fields, merged'.fields, b);
    }
  }
}

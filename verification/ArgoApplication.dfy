/** The Argo CD application template a team carries: its validation, and rendering it for one person. */
module ArgoApplication {
  import opened Bytes
  import opened Strings
  import opened TemplateLanguage
  import opened ValueTree

  const USERNAME := "USERNAME"
  const OBJECT_NAME := "OBJECT_NAME"
  const TEAM_NAME := "TEAM_NAME"
  const EMAIL := "EMAIL"
  const DISPLAY_NAME := "DISPLAY_NAME"
  const USER_NAMESPACE := "USER_NAMESPACE"

  /** The variables a person resolves directly. */
  const BASE_VARIABLES: seq<string> := [USERNAME, OBJECT_NAME, TEAM_NAME, EMAIL, DISPLAY_NAME]
  const TEMPLATE_VARIABLES: seq<string> := BASE_VARIABLES + [USER_NAMESPACE]
  const DEFAULT_NAME_TEMPLATE := "{OBJECT_NAME}"

  datatype Mode = Off | Ensure

  datatype Source = Source(repoUrl: string, chart: Option<string>, path: Option<string>,
                           targetRevision: string, values: Option<Value>)

  datatype Destination = Destination(server: Option<string>, name: Option<string>, namespace: string)

  /** `syncPolicy` is carried through unread. */
  datatype ApplicationTemplate = ApplicationTemplate(mode: Mode, name: Option<string>, project: string,
                                                     source: Source, destination: Destination,
                                                     syncPolicy: Option<Value>)

  datatype RenderedApplication = RenderedApplication(name: string, namespace: string, project: string,
                                                     source: Source, destination: Destination,
                                                     syncPolicy: Option<Value>)

  datatype Violation =
    | SourceNotExactlyOne
    | DestinationNotExactlyOne
    | EmptyField(field: string)
    | TemplateFault(error: TemplateError)
    | NamespaceNamesItself

  // ----- what is wrong with a template, said once

  predicate IsBlank(s: string) {
    forall i | 0 <= i < |s| :: IsWhitespace(s[i])
  }

  /** Blank is what trimming leaves nothing of. */
  lemma BlankIsTrimmed(s: string)
    ensures IsBlank(s) <==> TrimEnd(TrimStart(s)) == ""
  {
    BlankIsTrimmedAway(s);
  }

  /** `e` is how `template` names something the operator cannot resolve, or does not parse. */
  ghost predicate Complaint(template: string, e: TemplateError) {
    match Variables(template)
    case Err(fault) => e == fault
    case Ok(names) =>
      exists i | 0 <= i < |names| :: names[i] !in TEMPLATE_VARIABLES && e == UnknownVariable(template, names[i])
  }

  ghost predicate ValueComplaint(v: Value, e: TemplateError) {
    match v
    case Str(text) => Complaint(text, e)
    case Array(items) => exists i | 0 <= i < |items| :: ValueComplaint(items[i], e)
    case Object(fields) => exists k | k in fields :: ValueComplaint(fields[k], e)
    case _ => false
  }

  function NameTemplate(t: ApplicationTemplate): string {
    if t.name.Some? then t.name.value else DEFAULT_NAME_TEMPLATE
  }

  /** Every templated string of the object, with the field a violation would name. */
  function Templates(t: ApplicationTemplate): seq<(string, string)> {
    [("name", NameTemplate(t)),
     ("source.repoUrl", t.source.repoUrl),
     ("source.targetRevision", t.source.targetRevision),
     ("destination.namespace", t.destination.namespace)]
    + (if t.source.chart.Some? then [("source.chart", t.source.chart.value)] else [])
    + (if t.source.path.Some? then [("source.path", t.source.path.value)] else [])
  }

  ghost predicate SelfNaming(entry: (string, string)) {
    && entry.0 == "destination.namespace"
    && Variables(entry.1).Ok?
    && USER_NAMESPACE in Variables(entry.1).value
  }

  ghost predicate IsViolation(t: ApplicationTemplate, v: Violation) {
    match v
    case SourceNotExactlyOne => t.source.chart.Some? <==> t.source.path.Some?
    case DestinationNotExactlyOne => t.destination.server.Some? <==> t.destination.name.Some?
    case EmptyField(field) =>
      || (field == "project" && IsBlank(t.project))
      || (field == "source.repoUrl" && IsBlank(t.source.repoUrl))
      || (field == "source.targetRevision" && IsBlank(t.source.targetRevision))
    case TemplateFault(e) =>
      || (exists i | 0 <= i < |Templates(t)| :: Complaint(Templates(t)[i].1, e))
      || (t.source.values.Some? && ValueComplaint(t.source.values.value, e))
    case NamespaceNamesItself => exists i | 0 <= i < |Templates(t)| :: SelfNaming(Templates(t)[i])
  }

  // ----- the validators

  /** The violations of one templated string. */
  method CheckTemplate(entry: (string, string)) returns (violations: seq<Violation>)
    ensures forall v :: v in violations <==>
              (v.TemplateFault? && Complaint(entry.1, v.error)) || (v == NamespaceNamesItself && SelfNaming(entry))
  {
    violations := [];
    var names := CollectVariables(entry.1);
    if names.Err? {
      return [TemplateFault(names.error)];
    }
    for i := 0 to |names.value|
      invariant forall v :: v in violations <==>
                  || (exists j | 0 <= j < i :: names.value[j] !in TEMPLATE_VARIABLES
                                               && v == TemplateFault(UnknownVariable(entry.1, names.value[j])))
                  || (v == NamespaceNamesItself && entry.0 == "destination.namespace"
                      && USER_NAMESPACE in names.value[..i])
    {
      var name := names.value[i];
      assert names.value[..i + 1] == names.value[..i] + [name];
      if name !in TEMPLATE_VARIABLES {
        violations := violations + [TemplateFault(UnknownVariable(entry.1, name))];
      } else if entry.0 == "destination.namespace" && name == USER_NAMESPACE {
        violations := violations + [NamespaceNamesItself];
      }
    }
    assert names.value[..|names.value|] == names.value;
  }

  method CollectValueViolations(value: Value) returns (violations: seq<Violation>)
    ensures forall v :: v in violations <==> v.TemplateFault? && ValueComplaint(value, v.error)
    decreases value
  {
    violations := [];
    match value {
      case Str(text) =>
        violations := CheckTemplate(("source.values", text));
      case Array(items) =>
        for i := 0 to |items|
          invariant forall v :: v in violations <==>
                      v.TemplateFault? && exists j | 0 <= j < i :: ValueComplaint(items[j], v.error)
        {
          var found := CollectValueViolations(items[i]);
          violations := violations + found;
        }
      case Object(fields) =>
        var left := fields.Keys;
        while left != {}
          invariant left <= fields.Keys
          invariant forall v :: v in violations <==>
                      v.TemplateFault? && exists k | k in fields.Keys - left :: ValueComplaint(fields[k], v.error)
        {
          var k :| k in left;
          var found := CollectValueViolations(fields[k]);
          violations := violations + found;
          left := left - {k};
        }
      case _ =>
    }
  }

  method CheckFields(t: ApplicationTemplate) returns (violations: seq<Violation>)
    ensures forall v :: v in violations <==>
              (v.SourceNotExactlyOne? || v.DestinationNotExactlyOne? || v.EmptyField?) && IsViolation(t, v)
  {
    violations := [];
    if t.source.chart.Some? == t.source.path.Some? {
      violations := violations + [SourceNotExactlyOne];
    }
    if t.destination.server.Some? == t.destination.name.Some? {
      violations := violations + [DestinationNotExactlyOne];
    }
    if IsBlank(t.project) {
      violations := violations + [EmptyField("project")];
    }
    if IsBlank(t.source.repoUrl) {
      violations := violations + [EmptyField("source.repoUrl")];
    }
    if IsBlank(t.source.targetRevision) {
      violations := violations + [EmptyField("source.targetRevision")];
    }
  }

  method CheckTemplates(templates: seq<(string, string)>) returns (violations: seq<Violation>)
    ensures forall v :: v in violations <==>
              || (v.TemplateFault? && exists j | 0 <= j < |templates| :: Complaint(templates[j].1, v.error))
              || (v == NamespaceNamesItself && exists j | 0 <= j < |templates| :: SelfNaming(templates[j]))
  {
    violations := [];
    for i := 0 to |templates|
      invariant forall v :: v in violations <==>
                  || (v.TemplateFault? && exists j | 0 <= j < i :: Complaint(templates[j].1, v.error))
                  || (v == NamespaceNamesItself && exists j | 0 <= j < i :: SelfNaming(templates[j]))
    {
      var found := CheckTemplate(templates[i]);
      violations := violations + found;
    }
  }

  /** Reports everything wrong with a template, and nothing else. */
  method ValidateShape(t: ApplicationTemplate) returns (violations: seq<Violation>)
    ensures forall v :: v in violations <==> IsViolation(t, v)
  {
    var fields := CheckFields(t);
    var templates := CheckTemplates(Templates(t));
    var values: seq<Violation> := [];
    if t.source.values.Some? {
      values := CollectValueViolations(t.source.values.value);
    }
    violations := fields + templates + values;
    forall v
      ensures v in violations <==> IsViolation(t, v)
    {
      assert v in violations <==> v in fields || v in templates || v in values;
    }
  }

  // ----- rendering

  function Chosen<T>(first: Option<T>, otherwise: T): T {
    if first.Some? then first.value else otherwise
  }

  /** The team's values under the person's own, both rendered. */
  function RenderedValues(values: Option<Value>, overlay: Option<Value>, b: Bindings): Option<Option<Value>> {
    var base := if values.Some? then RenderedValue(values.value, b) else None;
    var over := if overlay.Some? then RenderedValue(overlay.value, b) else None;
    if (values.Some? && base.None?) || (overlay.Some? && over.None?) then None
    else if base.Some? && over.Some? then Some(Some(Merge(base.value, over.value)))
    else Some(if base.Some? then base else over)
  }

  function RenderedOption(template: Option<string>, b: Bindings): Result<Option<string>, TemplateError> {
    match template
    case None => Ok(None)
    case Some(text) =>
      var rendered :- Render(text, b);
      Ok(Some(rendered))
  }

  /** The strings of the source, rendered; the values are rendered apart. */
  function RenderedSource(s: Source, values: Option<Value>, b: Bindings): Result<Source, TemplateError> {
    var repoUrl :- Render(s.repoUrl, b);
    var chart :- RenderedOption(s.chart, b);
    var path :- RenderedOption(s.path, b);
    var targetRevision :- Render(s.targetRevision, b);
    Ok(Source(repoUrl, chart, path, targetRevision, values))
  }

  /** Namespace first, then everything else with the namespace bound. */
  function Rendering(t: ApplicationTemplate, applicationNamespace: string, base: Bindings,
                     override: Option<string>, overlay: Option<Value>): Option<RenderedApplication>
  {
    match RenderNamespace(Chosen(override, t.destination.namespace), base)
    case Err(_) => None
    case Ok(namespace) =>
      var b := base[USER_NAMESPACE := namespace];
      var values :- RenderedValues(t.source.values, overlay, b);
      match (Render(NameTemplate(t), b), RenderedSource(t.source, values, b))
      case (Ok(name), Ok(source)) =>
        Some(RenderedApplication(name, applicationNamespace, t.project, source,
                                 t.destination.(namespace := namespace), t.syncPolicy))
      case _ => None
  }

  /** An error of the team's values, or of the person's own once the team's have rendered. */
  ghost predicate ValuesError(values: Option<Value>, overlay: Option<Value>, b: Bindings, e: TemplateError) {
    if values.Some? && RenderedValue(values.value, b).None? then HasRenderError(values.value, b, e)
    else overlay.Some? && HasRenderError(overlay.value, b, e)
  }

  method RenderValues(values: Option<Value>, overlay: Option<Value>, b: Bindings)
    returns (r: Result<Option<Value>, TemplateError>)
    ensures r.Ok? ==> RenderedValues(values, overlay, b) == Some(r.value)
    ensures r.Err? ==> RenderedValues(values, overlay, b).None? && ValuesError(values, overlay, b, r.error)
  {
    if values.None? && overlay.None? {
      return Ok(None);
    }
    if values.None? {
      var over :- RenderValue(overlay.value, b);
      return Ok(Some(over));
    }
    var base :- RenderValue(values.value, b);
    if overlay.None? {
      return Ok(Some(base));
    }
    var over :- RenderValue(overlay.value, b);
    var merged := MergeValues(base, over);
    return Ok(Some(merged));
  }

  /** The first thing that fails once the namespace is known: the values, then the name, then the source. */
  ghost predicate RenderError(t: ApplicationTemplate, overlay: Option<Value>, b: Bindings, e: TemplateError) {
    match RenderedValues(t.source.values, overlay, b)
    case None => ValuesError(t.source.values, overlay, b, e)
    case Some(values) =>
      if Render(NameTemplate(t), b).Err? then Render(NameTemplate(t), b).error == e
      else RenderedSource(t.source, values, b).Err? && RenderedSource(t.source, values, b).error == e
  }

  method RenderApplication(t: ApplicationTemplate, applicationNamespace: string, base: Bindings,
                           override: Option<string>, overlay: Option<Value>)
    returns (r: Result<RenderedApplication, TemplateError>)
    ensures r.Ok? ==> Rendering(t, applicationNamespace, base, override, overlay) == Some(r.value)
    ensures r.Err? ==> Rendering(t, applicationNamespace, base, override, overlay).None?
    ensures var ns := RenderNamespace(Chosen(override, t.destination.namespace), base);
            && (ns.Err? ==> r == Err(ns.error))
            && (ns.Ok? && r.Err? ==> RenderError(t, overlay, base[USER_NAMESPACE := ns.value], r.error))
  {
    var namespace :- RenderNamespace(Chosen(override, t.destination.namespace), base);
    var b := base[USER_NAMESPACE := namespace];
    var values :- RenderValues(t.source.values, overlay, b);
    var name :- Render(NameTemplate(t), b);
    var source :- RenderedSource(t.source, values, b);
    return Ok(RenderedApplication(name, applicationNamespace, t.project, source,
                                  t.destination.(namespace := namespace), t.syncPolicy));
  }

  /** `rendered` is the optional template with `b` filled in: absent exactly when the template is. */
  ghost predicate FilledIn(template: Option<string>, rendered: Option<string>, b: Bindings) {
    match template
    case None => rendered == None
    case Some(text) => rendered.Some? && Render(text, b) == Ok(rendered.value)
  }

  /** What a rendered source holds, field by field. */
  ghost predicate SourceFilledIn(s: Source, r: Source, b: Bindings) {
    && Render(s.repoUrl, b) == Ok(r.repoUrl)
    && FilledIn(s.chart, r.chart, b)
    && FilledIn(s.path, r.path, b)
    && Render(s.targetRevision, b) == Ok(r.targetRevision)
  }

  lemma SourceFieldByField(s: Source, values: Option<Value>, b: Bindings, r: Source)
    requires RenderedSource(s, values, b) == Ok(r)
    ensures SourceFilledIn(s, r, b) && r.values == values
  {
  }

  /** The values are the team's under the person's own, rendered before or after the two are merged. */
  ghost predicate ValuesFilledIn(team: Option<Value>, overlay: Option<Value>, r: Option<Value>, b: Bindings) {
    match (team, overlay)
    case (None, None) => r == None
    case (Some(v), None) => r.Some? && RenderedValue(v, b) == r
    case (None, Some(v)) => r.Some? && RenderedValue(v, b) == r
    case (Some(v), Some(o)) =>
      && RenderedValue(v, b).Some? && RenderedValue(o, b).Some?
      && r.Some? && RenderedValue(Merge(v, o), b) == r
  }

  lemma ValuesOfBoth(team: Option<Value>, overlay: Option<Value>, r: Option<Value>, b: Bindings)
    requires RenderedValues(team, overlay, b) == Some(r)
    ensures ValuesFilledIn(team, overlay, r, b)
  {
    if team.Some? && overlay.Some? {
      RenderCommutesWithMerge(team.value, overlay.value, RenderedValue(team.value, b).value,
                              RenderedValue(overlay.value, b).value, b);
    }
  }

  lemma RenderingParts(t: ApplicationTemplate, applicationNamespace: string, base: Bindings,
                       override: Option<string>, overlay: Option<Value>, app: RenderedApplication)
    requires Rendering(t, applicationNamespace, base, override, overlay) == Some(app)
    ensures var b := base[USER_NAMESPACE := app.destination.namespace];
            && RenderNamespace(Chosen(override, t.destination.namespace), base) == Ok(app.destination.namespace)
            && RenderedValues(t.source.values, overlay, b) == Some(app.source.values)
            && RenderedSource(t.source, app.source.values, b) == Ok(app.source)
            && Render(NameTemplate(t), b) == Ok(app.name)
            && app == RenderedApplication(app.name, applicationNamespace, t.project, app.source,
                                          t.destination.(namespace := app.destination.namespace), t.syncPolicy)
  {
    var namespace := RenderNamespace(Chosen(override, t.destination.namespace), base).value;
    var values := RenderedValues(t.source.values, overlay, base[USER_NAMESPACE := namespace]).value;
    SourceFieldByField(t.source, values, base[USER_NAMESPACE := namespace], app.source);
  }

  /** What a rendered application holds, field by field. */
  lemma RenderedFieldByField(t: ApplicationTemplate, applicationNamespace: string, base: Bindings,
                             override: Option<string>, overlay: Option<Value>, app: RenderedApplication)
    requires Rendering(t, applicationNamespace, base, override, overlay) == Some(app)
    ensures var b := base[USER_NAMESPACE := app.destination.namespace];
            && RenderNamespace(if override.Some? then override.value else t.destination.namespace, base)
               == Ok(app.destination.namespace)
            && Render(if t.name.Some? then t.name.value else "{OBJECT_NAME}", b) == Ok(app.name)
            && app.namespace == applicationNamespace && app.project == t.project
            && SourceFilledIn(t.source, app.source, b)
            && ValuesFilledIn(t.source.values, overlay, app.source.values, b)
            && app.destination.server == t.destination.server && app.destination.name == t.destination.name
            && app.syncPolicy == t.syncPolicy
  {
    var b := base[USER_NAMESPACE := app.destination.namespace];
    RenderingParts(t, applicationNamespace, base, override, overlay, app);
    SourceFieldByField(t.source, app.source.values, b, app.source);
    ValuesOfBoth(t.source.values, overlay, app.source.values, b);
  }

  // ----- validation is enough

  predicate Binds(b: Bindings, names: seq<string>) {
    forall i | 0 <= i < |names| :: names[i] in b
  }

  /** No complaint about a string: it renders whenever the known variables are bound. */
  lemma NoComplaintRenders(template: string, b: Bindings)
    requires forall e :: !Complaint(template, e)
    requires Binds(b, TEMPLATE_VARIABLES)
    ensures Render(template, b).Ok?
  {
    RenderIffBound(template, b);
    var names := Variables(template);
    assert names.Ok? by {
      assert names.Err? ==> Complaint(template, names.error);
    }
    forall i | 0 <= i < |names.value|
      ensures names.value[i] in b
    {
      assert !Complaint(template, UnknownVariable(template, names.value[i]));
      assert names.value[i] in TEMPLATE_VARIABLES;
    }
  }

  lemma {:induction false} NoComplaintRendersValue(v: Value, b: Bindings)
    requires forall e :: !ValueComplaint(v, e)
    requires Binds(b, TEMPLATE_VARIABLES)
    ensures RenderedValue(v, b).Some?
    decreases v
  {
    match v
    case Str(text) =>
      forall e
        ensures !Complaint(text, e)
      {
        assert !ValueComplaint(v, e);
      }
      NoComplaintRenders(text, b);
    case Array(items) =>
      forall i | 0 <= i < |items|
        ensures RenderedValue(items[i], b).Some?
      {
        assert forall e :: ValueComplaint(items[i], e) ==> ValueComplaint(v, e);
        NoComplaintRendersValue(items[i], b);
      }
    case Object(fields) =>
      forall k | k in fields
        ensures RenderedValue(fields[k], b).Some?
      {
        assert forall e :: ValueComplaint(fields[k], e) ==> ValueComplaint(v, e);
        NoComplaintRendersValue(fields[k], b);
      }
    case _ =>
  }

  lemma CleanTemplateAt(t: ApplicationTemplate, i: nat, b: Bindings)
    requires forall v :: !IsViolation(t, v)
    requires i < |Templates(t)| && Binds(b, TEMPLATE_VARIABLES)
    ensures Render(Templates(t)[i].1, b).Ok?
  {
    forall e
      ensures !Complaint(Templates(t)[i].1, e)
    {
      assert !IsViolation(t, TemplateFault(e));
    }
    NoComplaintRenders(Templates(t)[i].1, b);
  }

  /** The namespace template of a clean template needs only what a person resolves directly. */
  lemma CleanNamespaceRenders(t: ApplicationTemplate, base: Bindings)
    requires forall v :: !IsViolation(t, v)
    requires Binds(base, BASE_VARIABLES)
    ensures Render(t.destination.namespace, base).Ok?
  {
    var entry := Templates(t)[3];
    assert entry.1 == t.destination.namespace;
    var b := base[USER_NAMESPACE := ""];
    BindsAll(base, "");
    CleanTemplateAt(t, 3, b);
    RenderIffBound(entry.1, b);
    RenderIffBound(entry.1, base);
    assert !IsViolation(t, NamespaceNamesItself);
    assert !SelfNaming(entry);
  }

  lemma BindsAll(base: Bindings, namespace: string)
    requires Binds(base, BASE_VARIABLES)
    ensures Binds(base[USER_NAMESPACE := namespace], TEMPLATE_VARIABLES)
  {
  }

  lemma CleanSourceRenders(t: ApplicationTemplate, values: Option<Value>, b: Bindings)
    requires forall v :: !IsViolation(t, v)
    requires Binds(b, TEMPLATE_VARIABLES)
    ensures Render(NameTemplate(t), b).Ok?
    ensures RenderedSource(t.source, values, b).Ok?
  {
    var templates := Templates(t);
    CleanTemplateAt(t, 0, b);
    CleanTemplateAt(t, 1, b);
    CleanTemplateAt(t, 2, b);
    if t.source.chart.Some? {
      assert templates[4].1 == t.source.chart.value;
      CleanTemplateAt(t, 4, b);
    }
    if t.source.path.Some? {
      assert templates[|templates| - 1].1 == t.source.path.value;
      CleanTemplateAt(t, |templates| - 1, b);
    }
  }

  lemma CleanValuesRender(t: ApplicationTemplate, b: Bindings)
    requires forall v :: !IsViolation(t, v)
    requires Binds(b, TEMPLATE_VARIABLES)
    ensures t.source.values.Some? ==> RenderedValue(t.source.values.value, b).Some?
  {
    if t.source.values.Some? {
      forall e
        ensures !ValueComplaint(t.source.values.value, e)
      {
        assert !IsViolation(t, TemplateFault(e));
      }
      NoComplaintRendersValue(t.source.values.value, b);
    }
  }

  /**
   * A template `validate_shape` has nothing to say about renders for everybody: all that can still go
   * wrong is that a person's namespace is not a label, or a fault in the person's own overlay.
   */
  lemma CleanTemplatesRender(t: ApplicationTemplate, applicationNamespace: string, base: Bindings,
                             override: Option<string>, overlay: Option<Value>)
    requires forall v :: !IsViolation(t, v)
    requires Binds(base, BASE_VARIABLES)
    ensures var ns := RenderNamespace(Chosen(override, t.destination.namespace), base);
            && (override.None? && ns.Err? ==> ns.error.IllegalNamespace?)
            && (ns.Ok? && (overlay.None? || RenderedValue(overlay.value, base[USER_NAMESPACE := ns.value]).Some?) ==>
                  var r := Rendering(t, applicationNamespace, base, override, overlay);
                  r.Some? && r.value.destination.namespace == ns.value && IsDnsLabel(ns.value))
  {
    CleanNamespaceRenders(t, base);
    var ns := RenderNamespace(Chosen(override, t.destination.namespace), base);
    if ns.Ok? && (overlay.None? || RenderedValue(overlay.value, base[USER_NAMESPACE := ns.value]).Some?) {
      var b := base[USER_NAMESPACE := ns.value];
      BindsAll(base, ns.value);
      CleanValuesRender(t, b);
      var values := RenderedValues(t.source.values, overlay, b);
      assert values.Some?;
      CleanSourceRenders(t, values.value, b);
    }
  }

  // ----- and no more than enough

  ghost predicate BindsOnly(b: Bindings, names: seq<string>) {
    forall k | k in b :: k in names
  }

  lemma RendersNoComplaint(template: string, b: Bindings, e: TemplateError)
    requires Render(template, b).Ok? && BindsOnly(b, TEMPLATE_VARIABLES)
    ensures !Complaint(template, e)
  {
    RenderIffBound(template, b);
  }

  lemma {:induction false} RendersNoValueComplaint(v: Value, b: Bindings, e: TemplateError)
    requires RenderedValue(v, b).Some? && BindsOnly(b, TEMPLATE_VARIABLES)
    ensures !ValueComplaint(v, e)
    decreases v
  {
    match v
    case Str(text) =>
      RendersNoComplaint(text, b, e);
    case Array(items) =>
      forall i | 0 <= i < |items|
        ensures !ValueComplaint(items[i], e)
      {
        RendersNoValueComplaint(items[i], b, e);
      }
    case Object(fields) =>
      forall k | k in fields
        ensures !ValueComplaint(fields[k], e)
      {
        RendersNoValueComplaint(fields[k], b, e);
      }
    case _ =>
  }

  lemma RenderedTemplateAt(t: ApplicationTemplate, values: Option<Value>, b: Bindings, i: nat)
    requires Render(NameTemplate(t), b).Ok? && RenderedSource(t.source, values, b).Ok?
    requires i < |Templates(t)| && i != 3
    ensures Render(Templates(t)[i].1, b).Ok?
  {
    var chart, path := t.source.chart, t.source.path;
    assert chart.Some? ==> RenderedOption(chart, b).Ok? && Render(chart.value, b).Ok?;
    assert path.Some? ==> RenderedOption(path, b).Ok? && Render(path.value, b).Ok?;
    if i >= 4 {
      assert Templates(t)[i].1 == (if i == 4 && chart.Some? then chart.value else path.value);
    }
  }

  /** Every string of the template renders: the namespace from `base`, the others from `b`. */
  ghost predicate AllRender(t: ApplicationTemplate, base: Bindings, b: Bindings) {
    && (forall i | 0 <= i < |Templates(t)| :: Render(Templates(t)[i].1, if i == 3 then base else b).Ok?)
    && (t.source.values.Some? ==> RenderedValue(t.source.values.value, b).Some?)
  }

  lemma RenderingMeansAllRender(t: ApplicationTemplate, applicationNamespace: string, base: Bindings)
    returns (namespace: string)
    requires Rendering(t, applicationNamespace, base, None, None).Some?
    ensures AllRender(t, base, base[USER_NAMESPACE := namespace])
  {
    namespace := RenderNamespace(t.destination.namespace, base).value;
    var b := base[USER_NAMESPACE := namespace];
    var values := RenderedValues(t.source.values, None, b).value;
    forall i | 0 <= i < |Templates(t)|
      ensures Render(Templates(t)[i].1, if i == 3 then base else b).Ok?
    {
      if i != 3 {
        RenderedTemplateAt(t, values, b, i);
      }
    }
  }

  lemma OnlyOneNamespaceField(t: ApplicationTemplate, i: nat)
    requires i < |Templates(t)|
    ensures Templates(t)[i].0 == "destination.namespace" ==> i == 3
  {
    assert |"destination.namespace"| == 21;
    if i >= 4 {
      assert |Templates(t)[i].0| < 21;
    }
  }

  lemma RenderedNamesNoNamespace(entry: (string, string), base: Bindings)
    requires Render(entry.1, base).Ok? && BindsOnly(base, BASE_VARIABLES)
    ensures !SelfNaming(entry)
  {
    RenderIffBound(entry.1, base);
    assert USER_NAMESPACE !in BASE_VARIABLES;
  }

  lemma NotSelfNaming(t: ApplicationTemplate, base: Bindings, b: Bindings)
    requires AllRender(t, base, b) && BindsOnly(base, BASE_VARIABLES)
    ensures !IsViolation(t, NamespaceNamesItself)
  {
    forall i | 0 <= i < |Templates(t)|
      ensures !SelfNaming(Templates(t)[i])
    {
      OnlyOneNamespaceField(t, i);
      if i == 3 {
        RenderedNamesNoNamespace(Templates(t)[i], base);
      }
    }
  }

  lemma NoFault(t: ApplicationTemplate, base: Bindings, b: Bindings, e: TemplateError)
    requires AllRender(t, base, b) && BindsOnly(base, TEMPLATE_VARIABLES) && BindsOnly(b, TEMPLATE_VARIABLES)
    ensures !IsViolation(t, TemplateFault(e))
  {
    forall i | 0 <= i < |Templates(t)|
      ensures !Complaint(Templates(t)[i].1, e)
    {
      RendersNoComplaint(Templates(t)[i].1, if i == 3 then base else b, e);
    }
    if t.source.values.Some? {
      RendersNoValueComplaint(t.source.values.value, b, e);
    }
  }

  lemma BindsOnlyAll(base: Bindings, namespace: string)
    requires BindsOnly(base, BASE_VARIABLES)
    ensures BindsOnly(base, TEMPLATE_VARIABLES)
    ensures BindsOnly(base[USER_NAMESPACE := namespace], TEMPLATE_VARIABLES)
  {
  }

  /** What `validate_shape` asks for besides templates that render. */
  ghost predicate WellFilled(t: ApplicationTemplate) {
    && (t.source.chart.Some? <==> t.source.path.None?)
    && (t.destination.server.Some? <==> t.destination.name.None?)
    && !IsBlank(t.project) && !IsBlank(t.source.repoUrl) && !IsBlank(t.source.targetRevision)
  }

  lemma CleanTemplateIsFilledAndRenders(t: ApplicationTemplate, base: Bindings, namespace: string)
    requires Binds(base, BASE_VARIABLES) && forall v :: !IsViolation(t, v)
    ensures WellFilled(t) && AllRender(t, base, base[USER_NAMESPACE := namespace])
  {
    var b := base[USER_NAMESPACE := namespace];
    assert !IsViolation(t, SourceNotExactlyOne) && !IsViolation(t, DestinationNotExactlyOne);
    assert !IsViolation(t, EmptyField("project")) && !IsViolation(t, EmptyField("source.repoUrl"));
    assert !IsViolation(t, EmptyField("source.targetRevision"));
    BindsAll(base, namespace);
    CleanNamespaceRenders(t, base);
    forall i | 0 <= i < |Templates(t)|
      ensures Render(Templates(t)[i].1, if i == 3 then base else b).Ok?
    {
      CleanTemplateAt(t, i, b);
    }
    CleanValuesRender(t, b);
  }

  /**
   * The validator is exact: it is silent precisely when the fields are filled as they must be and every
   * string renders, from the five variables a person resolves and from no others, whatever the namespace.
   */
  lemma ValidationIsExact(t: ApplicationTemplate, base: Bindings, namespace: string)
    requires Binds(base, BASE_VARIABLES) && BindsOnly(base, BASE_VARIABLES)
    ensures (forall v :: !IsViolation(t, v)) <==>
            WellFilled(t) && AllRender(t, base, base[USER_NAMESPACE := namespace])
  {
    var b := base[USER_NAMESPACE := namespace];
    if WellFilled(t) && AllRender(t, base, b) {
      BindsOnlyAll(base, namespace);
      NotSelfNaming(t, base, b);
      forall v
        ensures !IsViolation(t, v)
      {
        if v.TemplateFault? {
          NoFault(t, base, b, v.error);
        }
      }
    }
    if forall v :: !IsViolation(t, v) {
      CleanTemplateIsFilledAndRenders(t, base, namespace);
    }
  }

  /** A template that renders for somebody is refused for its fields at most, never for its strings. */
  lemma RenderingTemplatesAreClean(t: ApplicationTemplate, applicationNamespace: string, base: Bindings,
                                   e: TemplateError)
    requires BindsOnly(base, BASE_VARIABLES)
    requires Rendering(t, applicationNamespace, base, None, None).Some?
    ensures !IsViolation(t, NamespaceNamesItself)
    ensures !IsViolation(t, TemplateFault(e))
  {
    var ns := RenderingMeansAllRender(t, applicationNamespace, base);
    BindsOnlyAll(base, ns);
    NotSelfNaming(t, base, base[USER_NAMESPACE := ns]);
    NoFault(t, base, base[USER_NAMESPACE := ns], e);
  }

  /** Rendering alone is not enough: without chart and path a template renders as before, and is refused. */
  lemma RenderingIsNotEnough(t: ApplicationTemplate, applicationNamespace: string, base: Bindings)
    requires Rendering(t, applicationNamespace, base, None, None).Some?
    ensures var bare := t.(source := t.source.(chart := None, path := None));
            Rendering(bare, applicationNamespace, base, None, None).Some? && IsViolation(bare, SourceNotExactlyOne)
  {
    var bare := t.(source := t.source.(chart := None, path := None));
    var app := Rendering(t, applicationNamespace, base, None, None).value;
    RenderingParts(t, applicationNamespace, base, None, None, app);
    BareSourceRenders(t.source, app.source.values, base[USER_NAMESPACE := app.destination.namespace]);
    assert NameTemplate(bare) == NameTemplate(t);
  }

  lemma BareSourceRenders(s: Source, values: Option<Value>, b: Bindings)
    requires RenderedSource(s, values, b).Ok?
    ensures RenderedSource(s.(chart := None, path := None), values, b).Ok?
  {
  }
}

/** `{VARIABLE}` rendering with `{{ ... }}` passed through: one parser behind `render` and `variables`. */
module TemplateLanguage {
  import opened Bytes
  import opened Strings

  datatype TemplateError =
    | UnknownVariable(template: string, variable: string)
    | UnterminatedVariable(template: string)
    | IllegalNamespace(template: string, rendered: string)

  type Bindings = map<string, string>

  predicate IsUpper(c: char) {
    'A' <= c <= 'Z'
  }

  predicate IsDigit(c: char) {
    '0' <= c <= '9'
  }

  predicate IsLegalVariableName(name: string) {
    && name != []
    && IsUpper(name[0])
    && forall i | 1 <= i < |name| :: IsUpper(name[i]) || IsDigit(name[i]) || name[i] == '_'
  }

  /** What a variable is called: a capital, and then capitals, digits and underscores. */
  lemma NameCharacters(c: char)
    ensures IsUpper(c) <==> c in UPPERCASE
    ensures IsDigit(c) <==> c in DIGITS
    ensures IsLegalVariableName([c]) <==> IsUpper(c)
    ensures IsLegalVariableName(['A', c]) <==> IsUpper(c) || IsDigit(c) || c == '_'
  {
    Alphabets(c);
    assert ['A', c][1] == c;
  }

  // ----- searching

  /** Where `}}` first occurs in `s`, from place `from` on: `|s|` when it does not. */
  function FindCloseFrom(s: string, from: nat): (i: nat)
    requires from <= |s|
    ensures from <= i <= |s|
    ensures i < |s| ==> i + 1 < |s| && s[i] == '}' && s[i + 1] == '}'
    ensures forall j | from <= j < i && j + 1 < |s| :: !(s[j] == '}' && s[j + 1] == '}')
    decreases |s| - from
  {
    if from + 1 >= |s| then |s|
    else if s[from] == '}' && s[from + 1] == '}' then from
    else FindCloseFrom(s, from + 1)
  }

  function FindClose(s: string): (i: nat)
    ensures i <= |s|
    ensures i < |s| ==> i + 1 < |s| && s[i] == '}' && s[i + 1] == '}'
    ensures forall j | 0 <= j < i && j + 1 < |s| :: !(s[j] == '}' && s[j + 1] == '}')
  {
    FindCloseFrom(s, 0)
  }

  // ----- the grammar

  /** `{{body}}`, somebody else's template, or `{name}`, ours. */
  datatype Hole = Pass(body: string) | Var(name: string)

  /** A template: literal text, a hole, and so on; `Broken` where the text stops being a template. */
  datatype Template =
    | Tail(lit: string)
    | Segment(lit: string, hole: Hole, rest: Template)
    | Broken(lit: string, fault: Fault)

  datatype Fault = Unterminated | IllegalName(name: string)

  /** How the text behind an opening brace starts: with a hole and what follows it, or with a fault. */
  datatype Opening = Hold(hole: Hole, after: string) | Reject(fault: Fault)

  function Open(after: string): (r: Opening)
    ensures r.Hold? ==> |r.after| < |after|
  {
    if after != [] && after[0] == '{' then
      var close := FindClose(after);
      if close == |after| then Reject(Unterminated)
      else Hold(Pass(after[1..close]), after[close + 2..])
    else
      var close := Find(after, '}');
      if close == |after| then Reject(Unterminated)
      else if !IsLegalVariableName(after[..close]) then Reject(IllegalName(after[..close]))
      else Hold(Var(after[..close]), after[close + 1..])
  }

  function Parse(s: string): (t: Template)
    decreases |s|
  {
    var open := Find(s, '{');
    if open == |s| then Tail(s)
    else
      match Open(s[open + 1..])
      case Reject(fault) => Broken(s[..open], fault)
      case Hold(hole, after) => Segment(s[..open], hole, Parse(after))
  }

  function PrintHole(h: Hole): string {
    match h
    case Pass(body) => "{{" + body + "}}"
    case Var(name) => "{" + name + "}"
  }

  function Print(t: Template): string {
    match t
    case Tail(lit) => lit
    case Segment(lit, hole, rest) => lit + PrintHole(hole) + Print(rest)
    case Broken(lit, _) => lit
  }

  predicate ProperHole(h: Hole) {
    match h
    case Pass(body) => ProperBody(body)
    case Var(name) => IsLegalVariableName(name)
  }

  /** A pass-through ends at its first `}}`. */
  predicate ProperBody(body: string) {
    && (body != [] ==> body[|body| - 1] != '}')
    && forall j | 0 <= j < |body| - 1 :: !(body[j] == '}' && body[j + 1] == '}')
  }

  /** The shapes the parser produces when it accepts. */
  predicate Proper(t: Template) {
    '{' !in t.lit &&
    match t
    case Tail(_) => true
    case Segment(_, hole, rest) => ProperHole(hole) && Proper(rest)
    case Broken(_, _) => false
  }

  predicate Accepted(t: Template) {
    match t
    case Tail(_) => true
    case Segment(_, _, rest) => Accepted(rest)
    case Broken(_, _) => false
  }

  // ----- parsing and printing are inverse

  lemma OpenPrints(after: string)
    requires Open(after).Hold?
    ensures ProperHole(Open(after).hole)
    ensures "{" + after == PrintHole(Open(after).hole) + Open(after).after
  {
  }

  lemma CutAtBrace(s: string)
    requires Find(s, '{') < |s|
    ensures s == s[..Find(s, '{')] + ("{" + s[Find(s, '{') + 1..])
    ensures '{' !in s[..Find(s, '{')]
  {
  }

  lemma Regroup(a: string, b: string, c: string)
    ensures a + b + c == a + (b + c)
  {
  }

  lemma {:induction false} ParsePrints(s: string)
    requires Accepted(Parse(s))
    ensures Proper(Parse(s)) && Print(Parse(s)) == s
    decreases |s|
  {
    var open := Find(s, '{');
    if open < |s| {
      var lit, after := s[..open], s[open + 1..];
      ParseOpens(s, lit, after);
      var opening := Open(after);
      OpenPrints(after);
      ParsePrints(opening.after);
      CutAtBrace(s);
      Regroup(lit, PrintHole(opening.hole), opening.after);
    }
  }

  lemma OpenOfPass(body: string, rest: string)
    requires ProperBody(body)
    ensures Open("{" + body + "}}" + rest) == Hold(Pass(body), rest)
  {
    var after := "{" + body + "}}" + rest;
    assert after[|body| + 1] == '}' && after[|body| + 2] == '}';
    forall j | 0 <= j < |body| + 1
      ensures !(after[j] == '}' && after[j + 1] == '}')
    {
      if 0 < j {
        assert after[j] == body[j - 1];
      }
      if j < |body| {
        assert after[j + 1] == body[j];
      }
    }
    assert FindClose(after) == |body| + 1;
    assert after[1..|body| + 1] == body;
    assert after[|body| + 3..] == rest;
  }

  lemma OpenOfVar(name: string, rest: string)
    requires IsLegalVariableName(name)
    ensures Open(name + "}" + rest) == Hold(Var(name), rest)
  {
    var after := name + "}" + rest;
    assert forall j | 0 <= j < |name| :: after[j] == name[j];
    assert after[|name|] == '}';
    assert Find(after, '}') == |name|;
    assert after[..|name|] == name;
    assert after[|name| + 1..] == rest;
  }

  lemma PassTail(body: string, rest: string)
    ensures ("{{" + body + "}}" + rest)[1..] == "{" + body + "}}" + rest
  {
  }

  lemma VarTail(name: string, rest: string)
    ensures ("{" + name + "}" + rest)[1..] == name + "}" + rest
  {
  }

  lemma OpenOfPrinted(h: Hole, rest: string)
    requires ProperHole(h)
    ensures var s := PrintHole(h) + rest;
            s[0] == '{' && Open(s[1..]) == Hold(h, rest)
  {
    match h
    case Pass(body) =>
      PassTail(body, rest);
      OpenOfPass(body, rest);
    case Var(name) =>
      VarTail(name, rest);
      OpenOfVar(name, rest);
  }

  lemma ParseAt(lit: string, tail: string)
    requires '{' !in lit && tail != [] && tail[0] == '{' && Open(tail[1..]).Hold?
    ensures Parse(lit + tail) == Segment(lit, Open(tail[1..]).hole, Parse(Open(tail[1..]).after))
  {
    var s := lit + tail;
    assert s[|lit|] == '{';
    assert Find(s, '{') == |lit|;
    assert s[|lit| + 1..] == tail[1..];
    assert s[..|lit|] == lit;
  }

  lemma {:induction false} PrintParses(t: Template)
    requires Proper(t)
    ensures Parse(Print(t)) == t
  {
    match t
    case Tail(lit) =>
    case Segment(lit, hole, rest) =>
      PrintParses(rest);
      OpenOfPrinted(hole, Print(rest));
      ParseAt(lit, PrintHole(hole) + Print(rest));
      Regroup(lit, PrintHole(hole), Print(rest));
  }

  /** Every accepted template has exactly one reading, and that reading prints back to it. */
  lemma UniqueReading(s: string, t: Template)
    requires Proper(t)
    ensures Print(t) == s <==> Parse(s) == t
  {
    PrintParses(t);
    if Parse(s) == t {
      ProperIsAccepted(t);
      ParsePrints(s);
    }
  }

  lemma {:induction false} ProperIsAccepted(t: Template)
    requires Proper(t)
    ensures Accepted(t)
  {
    if t.Segment? {
      ProperIsAccepted(t.rest);
    }
  }

  // ----- what is no template

  lemma {:induction false} BrokenBehind(t: Template, after: string)
    requires Proper(t) && Open(after).Reject?
    ensures var s := Print(t) + ("{" + after);
            !Accepted(Parse(s)) && FirstFault(Parse(s)) == Open(after).fault
  {
    var s := Print(t) + ("{" + after);
    match t
    case Tail(lit) =>
      ParseRejected(lit, after);
    case Segment(lit, hole, rest) =>
      BrokenBehind(rest, after);
      var end := Print(rest) + ("{" + after);
      OpenOfPrinted(hole, end);
      ParseAt(lit, PrintHole(hole) + end);
      Reassociate(lit, PrintHole(hole), Print(rest), "{" + after);
  }

  lemma Reassociate(a: string, b: string, c: string, d: string)
    ensures a + b + c + d == a + (b + (c + d))
  {
  }

  lemma ParseRejected(lit: string, after: string)
    requires '{' !in lit && Open(after).Reject?
    ensures Parse(lit + ("{" + after)) == Broken(lit, Open(after).fault)
  {
    var s := lit + ("{" + after);
    assert s[|lit|] == '{';
    assert Find(s, '{') == |lit|;
    assert s[|lit| + 1..] == after && s[..|lit|] == lit;
  }

  lemma OpenRejects(after: string, name: string, rest: string)
    ensures '}' !in after ==> Open(after) == Reject(Unterminated)
    ensures (forall j | 0 <= j < |after| - 1 :: !(after[j] == '}' && after[j + 1] == '}')) ==>
              Open("{" + after) == Reject(Unterminated)
    ensures '}' !in name && !IsLegalVariableName(name) && (name == [] || name[0] != '{') ==>
              Open(name + ("}" + rest)) == Reject(IllegalName(name))
  {
    var doubled := "{" + after;
    assert forall j | 1 <= j < |doubled| :: doubled[j] == after[j - 1];
    if '}' !in name {
      var s := name + ("}" + rest);
      assert s[|name|] == '}';
      assert forall j | 0 <= j < |name| :: s[j] == name[j];
      assert Find(s, '}') == |name|;
      assert s[..|name|] == name;
    }
  }

  /** What is wrong with a template, by its letters: behind any proper front, a brace nobody closes or a bad name. */
  lemma FaultsByShape(front: Template, after: string, name: string, rest: string)
    requires Proper(front)
    ensures '}' !in after ==>
              var s := Print(front) + ("{" + after);
              Variables(s) == Err(UnterminatedVariable(s))
    ensures (forall j | 0 <= j < |after| - 1 :: !(after[j] == '}' && after[j + 1] == '}')) ==>
              var s := Print(front) + ("{" + ("{" + after));
              Variables(s) == Err(UnterminatedVariable(s))
    ensures '}' !in name && !IsLegalVariableName(name) && (name == [] || name[0] != '{') ==>
              var s := Print(front) + ("{" + (name + ("}" + rest)));
              Variables(s) == Err(UnknownVariable(s, name))
  {
    OpenRejects(after, name, rest);
    if Open(after).Reject? {
      BrokenBehind(front, after);
    }
    if Open("{" + after).Reject? {
      BrokenBehind(front, "{" + after);
    }
    if Open(name + ("}" + rest)).Reject? {
      BrokenBehind(front, name + ("}" + rest));
    }
  }

  // ----- rendering

  type Lookup = string -> Option<string>

  function FaultError(fault: Fault, template: string): TemplateError {
    match fault
    case Unterminated => UnterminatedVariable(template)
    case IllegalName(name) => UnknownVariable(template, name)
  }

  function Prefixed(out: string, r: Result<string, TemplateError>): Result<string, TemplateError> {
    match r
    case Ok(text) => Ok(out + text)
    case Err(e) => Err(e)
  }

  function HoleText(h: Hole, lookup: Lookup): Option<string> {
    match h
    case Pass(body) => Some(PrintHole(h))
    case Var(name) => lookup(name)
  }

  /** The first fault or unbound name, in reading order, is the error; otherwise every hole is filled. */
  function Rendered(t: Template, lookup: Lookup, template: string): (r: Result<string, TemplateError>) {
    match t
    case Tail(lit) => Ok(lit)
    case Broken(_, fault) => Err(FaultError(fault, template))
    case Segment(lit, hole, rest) =>
      match HoleText(hole, lookup)
      case None => Err(UnknownVariable(template, hole.name))
      case Some(text) => Prefixed(lit + text, Rendered(rest, lookup, template))
  }

  /** The names the renderer looks up before it stops. */
  function Asked(t: Template, lookup: Lookup): (names: seq<string>) {
    match t
    case Tail(_) => []
    case Broken(_, _) => []
    case Segment(_, Pass(_), rest) => Asked(rest, lookup)
    case Segment(_, Var(name), rest) => [name] + if lookup(name).None? then [] else Asked(rest, lookup)
  }

  lemma PrefixedTwice(a: string, b: string, r: Result<string, TemplateError>)
    ensures Prefixed(a + b, r) == Prefixed(a, Prefixed(b, r))
  {
    if r.Ok? {
      assert a + b + r.value == a + (b + r.value);
    }
  }

  lemma PrefixedEmpty(r: Result<string, TemplateError>)
    ensures Prefixed("", r) == r
  {
    if r.Ok? {
      assert "" + r.value == r.value;
    }
  }

  /** One turn of the loop, seen from the grammar. */
  lemma Turn(out: string, asked: seq<string>, t: Template, lookup: Lookup, template: string)
    requires t.Segment? && HoleText(t.hole, lookup).Some?
    ensures Prefixed(out, Rendered(t, lookup, template))
         == Prefixed(out + (t.lit + HoleText(t.hole, lookup).value), Rendered(t.rest, lookup, template))
    ensures asked + Asked(t, lookup)
         == asked + (if t.hole.Var? then [t.hole.name] else []) + Asked(t.rest, lookup)
  {
    PrefixedTwice(out, t.lit + HoleText(t.hole, lookup).value, Rendered(t.rest, lookup, template));
  }

  lemma ParseOpens(s: string, lit: string, after: string)
    requires Find(s, '{') < |s|
    requires lit == s[..Find(s, '{')] && after == s[Find(s, '{') + 1..]
    ensures Open(after).Reject? ==> Parse(s) == Broken(lit, Open(after).fault)
    ensures Open(after).Hold? ==> Parse(s) == Segment(lit, Open(after).hole, Parse(Open(after).after))
  {
  }

  /** The pass-through or the name behind an opening brace, and what remains; the searches of one turn. */
  method TakeHole(after: string) returns (r: Opening)
    ensures r == Open(after)
  {
    if after != [] && after[0] == '{' {
      var close := FindClose(after);
      if close == |after| {
        return Reject(Unterminated);
      }
      return Hold(Pass(after[1..close]), after[close + 2..]);
    }
    var close := Find(after, '}');
    if close == |after| {
      return Reject(Unterminated);
    }
    var name := after[..close];
    if !IsLegalVariableName(name) {
      return Reject(IllegalName(name));
    }
    return Hold(Var(name), after[close + 1..]);
  }

  /** The source's one-pass loop; `asked` is what its closure records. */
  method RenderWith(template: string, lookup: Lookup) returns (r: Result<string, TemplateError>, asked: seq<string>)
    ensures r == Rendered(Parse(template), lookup, template)
    ensures asked == Asked(Parse(template), lookup)
  {
    var out := "";
    var rest := template;
    asked := [];
    ghost var whole := Parse(template);
    ghost var t := whole;
    PrefixedEmpty(Rendered(whole, lookup, template));
    while Find(rest, '{') < |rest|
      invariant t == Parse(rest)
      invariant Prefixed(out, Rendered(t, lookup, template)) == Rendered(whole, lookup, template)
      invariant asked + Asked(t, lookup) == Asked(whole, lookup)
      decreases |rest|
    {
      var open := Find(rest, '{');
      ParseOpens(rest, rest[..open], rest[open + 1..]);
      var taken := TakeHole(rest[open + 1..]);
      if taken.Reject? {
        return Err(FaultError(taken.fault, template)), asked;
      }
      var text := HoleText(taken.hole, lookup);
      if text.None? {
        return Err(UnknownVariable(template, taken.hole.name)), asked + [taken.hole.name];
      }
      Turn(out, asked, t, lookup, template);
      if taken.hole.Var? {
        asked := asked + [taken.hole.name];
      }
      out := out + (rest[..open] + text.value);
      rest := taken.after;
      t := t.rest;
    }
    assert t == Tail(rest);
    out := out + rest;
    return Ok(out), asked;
  }

  function BoundIn(b: Bindings): Lookup {
    name => if name in b then Some(b[name]) else None
  }

  function Render(template: string, b: Bindings): (r: Result<string, TemplateError>) {
    Rendered(Parse(template), BoundIn(b), template)
  }

  function Recorder(): Lookup {
    name => Some("")
  }

  function VariableNames(t: Template): (names: seq<string>) {
    match t
    case Tail(_) => []
    case Broken(_, _) => []
    case Segment(_, Pass(_), rest) => VariableNames(rest)
    case Segment(_, Var(name), rest) => [name] + VariableNames(rest)
  }

  function FirstFault(t: Template): Fault
    requires !Accepted(t)
  {
    match t
    case Broken(_, fault) => fault
    case Segment(_, _, rest) => FirstFault(rest)
  }

  /** What `variables` answers: every name in order, or the template's fault. */
  function Variables(template: string): (r: Result<seq<string>, TemplateError>) {
    var t := Parse(template);
    if Accepted(t) then Ok(VariableNames(t)) else Err(FaultError(FirstFault(t), template))
  }

  lemma {:induction false} RecorderSeesAll(t: Template, template: string)
    ensures Rendered(t, Recorder(), template).Ok? <==> Accepted(t)
    ensures !Accepted(t) ==> Rendered(t, Recorder(), template) == Err(FaultError(FirstFault(t), template))
    ensures Accepted(t) ==> Asked(t, Recorder()) == VariableNames(t)
  {
    if t.Segment? {
      RecorderSeesAll(t.rest, template);
    }
  }

  method CollectVariables(template: string) returns (r: Result<seq<string>, TemplateError>)
    ensures r == Variables(template)
  {
    var rendered, found := RenderWith(template, Recorder());
    RecorderSeesAll(Parse(template), template);
    match rendered {
      case Err(e) => return Err(e);
      case Ok(_) => return Ok(found);
    }
  }

  // ----- the laws

  ghost predicate AllFound(names: seq<string>, lookup: Lookup) {
    forall i | 0 <= i < |names| :: lookup(names[i]).Some?
  }

  lemma AllFoundCons(name: string, names: seq<string>, lookup: Lookup)
    ensures AllFound([name] + names, lookup) <==> lookup(name).Some? && AllFound(names, lookup)
  {
    var all := [name] + names;
    assert all[0] == name;
    assert forall i | 0 <= i < |names| :: names[i] == all[i + 1];
  }

  lemma {:induction false} RenderedIff(t: Template, lookup: Lookup, template: string)
    ensures Rendered(t, lookup, template).Ok? <==> Accepted(t) && AllFound(VariableNames(t), lookup)
  {
    if t.Segment? {
      RenderedIff(t.rest, lookup, template);
      if t.hole.Var? {
        AllFoundCons(t.hole.name, VariableNames(t.rest), lookup);
      }
    }
  }

  /** The error is the first thing that went wrong: an unbound name, or else the template's own fault. */
  lemma {:induction false} ErrorIsTheFirst(t: Template, lookup: Lookup, template: string)
    requires Rendered(t, lookup, template).Err?
    ensures var asked, e := Asked(t, lookup), Rendered(t, lookup, template).error;
            && asked <= VariableNames(t)
            && (AllFound(asked, lookup) ==> !Accepted(t) && e == FaultError(FirstFault(t), template))
            && (!AllFound(asked, lookup) ==>
                  && asked != [] && AllFound(asked[..|asked| - 1], lookup)
                  && lookup(asked[|asked| - 1]).None?
                  && e == UnknownVariable(template, asked[|asked| - 1]))
  {
    if t.Segment? && HoleText(t.hole, lookup).Some? {
      ErrorIsTheFirst(t.rest, lookup, template);
      if t.hole.Var? {
        var asked := Asked(t.rest, lookup);
        AllFoundCons(t.hole.name, asked, lookup);
        if asked != [] {
          AllFoundCons(t.hole.name, asked[..|asked| - 1], lookup);
          assert ([t.hole.name] + asked)[..|asked|] == [t.hole.name] + asked[..|asked| - 1];
        }
      }
    } else if t.Segment? {
      assert Asked(t, lookup)[0] == t.hole.name;
    }
  }

  /** Rendering succeeds exactly when `variables` does and everything it lists is bound. */
  lemma RenderIffBound(template: string, b: Bindings)
    ensures Render(template, b).Ok? <==>
            && Variables(template).Ok?
            && forall i | 0 <= i < |Variables(template).value| :: Variables(template).value[i] in b
  {
    var t := Parse(template);
    RenderedIff(t, BoundIn(b), template);
    assert forall name :: BoundIn(b)(name).Some? <==> name in b;
  }

  /** The fixed text of a template: what stands before, between and after its variables. */
  function Skeleton(t: Template): (texts: seq<string>)
    ensures |texts| == |VariableNames(t)| + 1
  {
    match t
    case Tail(lit) => [lit]
    case Broken(lit, _) => [lit]
    case Segment(lit, Var(_), rest) => [lit] + Skeleton(rest)
    case Segment(lit, Pass(body), rest) =>
      [lit + PrintHole(Pass(body)) + Skeleton(rest)[0]] + Skeleton(rest)[1..]
  }

  function Interleave(texts: seq<string>, values: seq<string>): string
    requires |texts| == |values| + 1
  {
    if values == [] then texts[0] else texts[0] + values[0] + Interleave(texts[1..], values[1..])
  }

  function Values(names: seq<string>, b: Bindings): (values: seq<string>)
    requires forall i | 0 <= i < |names| :: names[i] in b
    ensures |values| == |names|
  {
    if names == [] then [] else [b[names[0]]] + Values(names[1..], b)
  }

  lemma InterleaveHead(extra: string, texts: seq<string>, values: seq<string>)
    requires |texts| == |values| + 1
    ensures Interleave([extra + texts[0]] + texts[1..], values) == extra + Interleave(texts, values)
  {
  }

  lemma {:induction false} RenderedInterleaves(t: Template, b: Bindings, template: string)
    requires Accepted(t) && forall i | 0 <= i < |VariableNames(t)| :: VariableNames(t)[i] in b
    ensures Rendered(t, BoundIn(b), template) == Ok(Interleave(Skeleton(t), Values(VariableNames(t), b)))
  {
    if t.Segment? {
      var names, rest := VariableNames(t), VariableNames(t.rest);
      match t.hole
      case Pass(body) =>
        RenderedInterleaves(t.rest, b, template);
        InterleaveHead(t.lit + PrintHole(t.hole), Skeleton(t.rest), Values(rest, b));
      case Var(name) =>
        assert names == [name] + rest;
        assert forall i | 0 <= i < |rest| :: rest[i] == names[i + 1];
        assert names[0] in b && names[1..] == rest;
        RenderedInterleaves(t.rest, b, template);
        assert Skeleton(t)[1..] == Skeleton(t.rest);
        assert Values(names, b)[1..] == Values(rest, b);
    }
  }

  /**
   * Substituted text is never read again: the result is the template's fixed text, which no binding
   * can change, with the bound values set between, whatever braces they contain.
   */
  lemma SubstitutionIsInert(template: string, b: Bindings)
    requires Render(template, b).Ok?
    ensures var t := Parse(template);
            && (forall i | 0 <= i < |VariableNames(t)| :: VariableNames(t)[i] in b)
            && Render(template, b) == Ok(Interleave(Skeleton(t), Values(VariableNames(t), b)))
  {
    RenderIffBound(template, b);
    RenderedInterleaves(Parse(template), b, template);
  }

  lemma {:induction false} RenderedIdentity(t: Template, b: Bindings, template: string)
    requires Accepted(t)
    requires forall i | 0 <= i < |VariableNames(t)| ::
               VariableNames(t)[i] in b && b[VariableNames(t)[i]] == "{" + VariableNames(t)[i] + "}"
    ensures Rendered(t, BoundIn(b), template) == Ok(Print(t))
  {
    if t.Segment? {
      var names, rest := VariableNames(t), VariableNames(t.rest);
      if t.hole.Var? {
        assert names == [t.hole.name] + rest;
        assert forall i | 0 <= i < |rest| :: rest[i] == names[i + 1];
        assert names[0] in b;
      }
      RenderedIdentity(t.rest, b, template);
    }
  }

  /** Binding every name to its own placeholder gives the template back. */
  lemma SelfBindingIsIdentity(template: string, b: Bindings)
    requires Variables(template).Ok?
    requires forall i | 0 <= i < |Variables(template).value| ::
               && Variables(template).value[i] in b
               && b[Variables(template).value[i]] == "{" + Variables(template).value[i] + "}"
    ensures Render(template, b) == Ok(template)
  {
    RenderedIdentity(Parse(template), b, template);
    ParsePrints(template);
  }

  // ----- namespaces

  predicate IsDnsLabel(name: string) {
    && 1 <= |name| <= 63
    && name[0] != '-' && name[|name| - 1] != '-'
    && forall i | 0 <= i < |name| :: 'a' <= name[i] <= 'z' || IsDigit(name[i]) || name[i] == '-'
  }

  /** The characters of a label. */
  lemma LabelCharacters(c: char)
    ensures IsDnsLabel([c]) <==> c in LOWERCASE + DIGITS
    ensures IsDnsLabel(['a', c, 'a']) <==> IsDnsLabel([c]) || c == '-'
    ensures c == '-' ==> !IsDnsLabel([c, 'a']) && !IsDnsLabel(['a', c])
  {
    Alphabets(c);
    assert [c][0] == c && ['a', c, 'a'][1] == c;
  }

  /** A label has 1 to 63 characters, each of which could stand in the middle, and those at the ends alone. */
  lemma LabelMeans(name: string)
    ensures IsDnsLabel(name) <==>
            && 1 <= |name| <= 63
            && IsDnsLabel([name[0]]) && IsDnsLabel([name[|name| - 1]])
            && forall i | 0 <= i < |name| :: IsDnsLabel(['a', name[i], 'a'])
  {
    forall i | 0 <= i < |name|
      ensures IsDnsLabel(['a', name[i], 'a']) <==> 'a' <= name[i] <= 'z' || IsDigit(name[i]) || name[i] == '-'
    {
      assert ['a', name[i], 'a'][1] == name[i];
    }
    if name != [] {
      assert [name[0]][0] == name[0] && [name[|name| - 1]][0] == name[|name| - 1];
    }
  }

  function RenderNamespace(template: string, b: Bindings): (r: Result<string, TemplateError>)
    ensures r.Ok? ==> IsDnsLabel(r.value) && Render(template, b) == r
    ensures r.Err? && Render(template, b).Ok? ==>
              !IsDnsLabel(Render(template, b).value) && r.error == IllegalNamespace(template, Render(template, b).value)
    ensures Render(template, b).Err? ==> r == Render(template, b)
  {
    var rendered :- Render(template, b);
    if IsDnsLabel(rendered) then Ok(rendered) else Err(IllegalNamespace(template, rendered))
  }
}

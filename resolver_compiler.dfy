/** buildResolvers: compiles the `json` struct tags of the handler's input type into
    an ordered resolver plan and the position of the body field, failing fast on the
    first invalid field. */
module ResolverCompiler {
  import opened Wrappers
  import opened Errors
  import opened Types
  import opened Resolvers

  // --- tag normalisation ---

  /** unicode.IsSpace */
  predicate IsSpace(c: char) {
    c == '\t' || c == '\n' || c == '\U{0B}' || c == '\U{0C}' || c == '\r' || c == ' '
    || c == '\U{85}' || c == '\U{A0}' || c == '\U{1680}' || ('\U{2000}' <= c <= '\U{200A}')
    || c == '\U{2028}' || c == '\U{2029}' || c == '\U{202F}' || c == '\U{205F}' || c == '\U{3000}'
  }

  /** Drops the longest all-space prefix. */
  function TrimLeft(s: string): string
    decreases |s|
  {
    if s != [] && IsSpace(s[0]) then TrimLeft(s[1..]) else s
  }

  /** Drops the longest all-space suffix. */
  function TrimRight(s: string): string
    decreases |s|
  {
    if s != [] && IsSpace(s[|s| - 1]) then TrimRight(s[..|s| - 1]) else s
  }

  /** strings.TrimSpace */
  function TrimSpace(s: string): string {
    TrimRight(TrimLeft(s))
  }

  /** strings.Split(s, string(sep))[0]: everything before the first separator. */
  function FirstSegment(s: string, sep: char): string
    decreases |s|
  {
    if s == [] || s[0] == sep then [] else [s[0]] + FirstSegment(s[1..], sep)
  }

  /** normalizedJSONTag: trim, cut at the first comma, trim again. */
  function NormalizedJSONTag(tag: string): string {
    var t := TrimSpace(tag);
    if t == "" then "" else TrimSpace(FirstSegment(t, ','))
  }

  predicate Trimmed(s: string) {
    s != [] ==> !IsSpace(s[0]) && !IsSpace(s[|s| - 1])
  }

  /** TrimLeft removes exactly the leading run of spaces. */
  lemma {:induction false} TrimLeftSpec(s: string)
    ensures |TrimLeft(s)| <= |s| && TrimLeft(s) == s[|s| - |TrimLeft(s)|..]
    ensures forall i :: 0 <= i < |s| - |TrimLeft(s)| ==> IsSpace(s[i])
    ensures TrimLeft(s) != [] ==> !IsSpace(TrimLeft(s)[0])
    decreases |s|
  {
    if s != [] && IsSpace(s[0]) {
      TrimLeftSpec(s[1..]);
    }
  }

  /** TrimRight removes exactly the trailing run of spaces. */
  lemma {:induction false} TrimRightSpec(s: string)
    ensures |TrimRight(s)| <= |s| && TrimRight(s) == s[..|TrimRight(s)|]
    ensures forall i :: |TrimRight(s)| <= i < |s| ==> IsSpace(s[i])
    ensures TrimRight(s) != [] ==> !IsSpace(TrimRight(s)[|TrimRight(s)| - 1])
    decreases |s|
  {
    if s != [] && IsSpace(s[|s| - 1]) {
      TrimRightSpec(s[..|s| - 1]);
    }
  }

  /** TrimSpace leaves no space at either end, and only spaces were removed. */
  lemma TrimSpaceSpec(s: string)
    ensures Trimmed(TrimSpace(s))
    ensures exists i, j :: 0 <= i <= j <= |s| && TrimSpace(s) == s[i..j]
  {
    var l := TrimLeft(s);
    TrimLeftSpec(s);
    TrimRightSpec(l);
    var r := TrimRight(l);
    if r != [] {
      assert r[0] == l[0];
    }
    var i := |s| - |l|;
    assert r == s[i..i + |r|];
  }

  /** FirstSegment is the longest prefix free of the separator. */
  lemma {:induction false} FirstSegmentSpec(s: string, sep: char)
    ensures |FirstSegment(s, sep)| <= |s| && FirstSegment(s, sep) == s[..|FirstSegment(s, sep)|]
    ensures sep !in FirstSegment(s, sep)
    ensures |FirstSegment(s, sep)| < |s| ==> s[|FirstSegment(s, sep)|] == sep
    decreases |s|
  {
    if s != [] && s[0] != sep {
      FirstSegmentSpec(s[1..], sep);
    }
  }

  lemma {:induction false} FirstSegmentOfSplit(a: string, sep: char, b: string)
    requires sep !in a
    ensures FirstSegment(a + [sep] + b, sep) == a
    decreases |a|
  {
    if a != [] {
      FirstSegmentOfSplit(a[1..], sep, b);
      assert (a + [sep] + b)[1..] == a[1..] + [sep] + b;
    }
  }

  /** A normalised tag holds no comma and has no space at either end. */
  lemma NormalizedJSONTagShape(tag: string)
    ensures ',' !in NormalizedJSONTag(tag)
    ensures Trimmed(NormalizedJSONTag(tag))
  {
    var t := TrimSpace(tag);
    if t != "" {
      var f := FirstSegment(t, ',');
      FirstSegmentSpec(t, ',');
      TrimSpaceSpec(f);
      var i, j :| 0 <= i <= j <= |f| && TrimSpace(f) == f[i..j];
      assert forall c :: c in f[i..j] ==> c in f;
    }
  }

  lemma TrimSpaceOfTrimmed(s: string)
    requires Trimmed(s)
    ensures TrimSpace(s) == s
  {
  }

  lemma {:induction false} FirstSegmentWithoutSep(s: string, sep: char)
    requires sep !in s
    ensures FirstSegment(s, sep) == s
    decreases |s|
  {
    if s != [] {
      FirstSegmentWithoutSep(s[1..], sep);
      assert s == [s[0]] + s[1..];
    }
  }

  /** Normalising a normalised tag changes nothing. */
  lemma NormalizedJSONTagIdempotent(tag: string)
    ensures NormalizedJSONTag(NormalizedJSONTag(tag)) == NormalizedJSONTag(tag)
  {
    var r := NormalizedJSONTag(tag);
    NormalizedJSONTagShape(tag);
    TrimSpaceOfTrimmed(r);
    if r != "" {
      FirstSegmentWithoutSep(r, ',');
      TrimSpaceOfTrimmed(r);
    }
  }

  /** Options after the first comma are dropped: "body,omitempty" is "body". */
  lemma NormalizedJSONTagDropsOptions()
    ensures NormalizedJSONTag("body,omitempty") == "body"
  {
    var s := "body,omitempty";
    assert Trimmed(s);
    TrimSpaceOfTrimmed(s);
    assert s == "body" + [','] + "omitempty";
    FirstSegmentOfSplit("body", ',', "omitempty");
    TrimSpaceOfTrimmed("body");
  }

  /** Spaces around the name and before the comma are trimmed. */
  lemma NormalizedJSONTagTrimsName()
    ensures NormalizedJSONTag(" query:q , omitempty") == "query:q"
  {
    var name := "query:q";
    var a := name + " ";
    var t := a + [','] + " omitempty";
    assert " query:q , omitempty" == [' '] + t;
    assert Trimmed(t);
    TrimLeadingSpace(t);
    FirstSegmentOfSplit(a, ',', " omitempty");
    assert Trimmed(name);
    TrimTrailingSpace(name);
  }

  /** One leading space in front of a trimmed string is removed. */
  lemma TrimLeadingSpace(t: string)
    requires Trimmed(t)
    ensures TrimSpace([' '] + t) == t
  {
    assert ([' '] + t)[1..] == t;
    TrimSpaceOfTrimmed(t);
  }

  /** One trailing space after a trimmed string is removed. */
  lemma TrimTrailingSpace(t: string)
    requires Trimmed(t) && t != []
    ensures TrimSpace(t + [' ']) == t
  {
    assert TrimLeft(t + [' ']) == t + [' '];
    assert (t + [' '])[..|t|] == t;
    TrimSpaceOfTrimmed(t);
  }

  // --- classifying one field ---

  /** The six kinds written `<kind>:<name>`. */
  datatype NamedKind = HeaderKind | QueryKind | PathKind | CookieKind | FormKind | FileKind

  function KindWord(k: NamedKind): string {
    match k
    case HeaderKind => "header"
    case QueryKind => "query"
    case PathKind => "path"
    case CookieKind => "cookie"
    case FormKind => "form"
    case FileKind => "file"
  }

  /** What a normalised tag asks for: nothing ("" or "-"), the body, a named
      source, or a tag buildResolvers does not recognise (skipped, but the field
      still counts as tagged). */
  datatype Binding = Untagged | BodyTag | NamedTag(kind: NamedKind, name: string) | Unrecognised

  predicate HasPrefix(s: string, p: string) { |p| <= |s| && s[..|p|] == p }

  /** The dispatch of buildResolvers' switch, in its order. */
  function Classify(tag: string): (b: Binding)
    ensures b.Untagged? <==> tag == "" || tag == "-"
    ensures b.BodyTag? <==> tag == "body"
    ensures b.NamedTag? ==> tag == KindWord(b.kind) + ":" + b.name
    ensures b.Unrecognised? <==>
      tag != "" && tag != "-" && tag != "body" && forall k: NamedKind :: !HasPrefix(tag, KindWord(k) + ":")
  {
    if tag == "" || tag == "-" then Untagged
    else if tag == "body" then BodyTag
    else if HasPrefix(tag, "header:") then NamedTag(HeaderKind, tag[7..])
    else if HasPrefix(tag, "query:") then NamedTag(QueryKind, tag[6..])
    else if HasPrefix(tag, "path:") then NamedTag(PathKind, tag[5..])
    else if HasPrefix(tag, "cookie:") then NamedTag(CookieKind, tag[7..])
    else if HasPrefix(tag, "form:") then NamedTag(FormKind, tag[5..])
    else if HasPrefix(tag, "file:") then NamedTag(FileKind, tag[5..])
    else Unrecognised
  }

  /** A `<kind>:<name>` tag binds that kind and that name. */
  lemma ClassifyNamed(k: NamedKind, name: string)
    ensures Classify(KindWord(k) + ":" + name) == NamedTag(k, name)
  {
    var tag := KindWord(k) + ":" + name;
    var p := KindWord(k) + ":";
    assert tag == p + name && tag[..|p|] == p && tag[|p|..] == name;
    // the kind words differ in their first two letters, so no earlier prefix matches
    assert tag[0] == p[0] && tag[1] == p[1];
  }

  /** Everything buildResolvers looks at in one struct field. */
  datatype FieldView = FieldView(binding: Binding, exported: bool, name: string, typ: FieldType)

  function ViewOf(f: StructField): FieldView {
    FieldView(Classify(NormalizedJSONTag(TagGet(f, "json"))), f.exported, f.name, f.typ)
  }

  /** The views of a struct's fields, in declaration order. */
  function Views(fs: seq<StructField>): (vs: seq<FieldView>)
    ensures |vs| == |fs|
    decreases |fs|
  {
    if fs == [] then [] else Views(fs[..|fs| - 1]) + [ViewOf(fs[|fs| - 1])]
  }

  lemma {:induction false} ViewsIndex(fs: seq<StructField>, i: nat)
    requires i < |fs|
    ensures Views(fs)[i] == ViewOf(fs[i])
    decreases |fs|
  {
    var n := |fs| - 1;
    var pre := fs[..n];
    assert Views(fs) == Views(pre) + [ViewOf(fs[n])];
    if i < n {
      ViewsIndex(pre, i);
      assert pre[i] == fs[i];
    }
  }

  predicate IsTagged(v: FieldView) { !v.binding.Untagged? }

  predicate IsBody(v: FieldView) { v.binding.BodyTag? }

  predicate IsFormOrFile(v: FieldView) {
    v.binding.NamedTag? && (v.binding.kind == FormKind || v.binding.kind == FileKind)
  }

  /** A fault of the field alone: tagged but unexported, an empty name after a
      `<kind>:` prefix, or a `file:` field not typed *multipart.FileHeader. */
  predicate LocalFault(v: FieldView) {
    IsTagged(v) &&
    (!v.exported ||
     (v.binding.NamedTag? &&
      (v.binding.name == "" || (v.binding.kind == FileKind && v.typ != MultipartFileHeaderType))))
  }

  /** The resolver a tagged field asks for, whatever else is wrong with it. */
  function ResolverOf(i: int, v: FieldView, maxMemory: int): (r: Option<FieldResolver>)
    ensures r.Some? ==> r.value.FieldIndex() == i
    ensures r.Some? <==> v.binding.BodyTag? || v.binding.NamedTag?
    ensures r.Some? ==> (r.value.BodyResolver? <==> IsBody(v))
    ensures r.Some? ==> (r.value.FormResolver? || r.value.FileResolver? <==> IsFormOrFile(v))
  {
    match v.binding
    case BodyTag => Some(BodyResolver(i, v.typ))
    case NamedTag(k, name) =>
      Some(match k
        case HeaderKind => HeaderResolver(i, name, v.typ)
        case QueryKind => QueryResolver(i, name, v.typ)
        case PathKind => PathVarResolver(i, name, v.typ)
        case CookieKind => CookieResolver(i, name, v.typ)
        case FormKind => FormResolver(i, name, v.typ)
        case FileKind => NewFileResolver(i, name, maxMemory))
    case _ => None
  }

  // --- the plan, field by field ---

  /** The index of the first body field, or -1. */
  function BodyIndex(vs: seq<FieldView>): (b: int)
    ensures -1 <= b < |vs|
    ensures b == -1 <==> forall j :: 0 <= j < |vs| ==> !IsBody(vs[j])
    ensures b >= 0 ==> IsBody(vs[b]) && forall j :: 0 <= j < b ==> !IsBody(vs[j])
    decreases |vs|
  {
    if vs == [] then -1
    else
      var b := BodyIndex(vs[..|vs| - 1]);
      if b >= 0 then b else if IsBody(vs[|vs| - 1]) then |vs| - 1 else -1
  }

  predicate HasFormOrFile(vs: seq<FieldView>) {
    exists j :: 0 <= j < |vs| && IsFormOrFile(vs[j])
  }

  /** The resolvers of the recognised tags, in field order. */
  function Planned(vs: seq<FieldView>, maxMemory: int): seq<FieldResolver>
    decreases |vs|
  {
    if vs == [] then []
    else
      var n := |vs| - 1;
      var prefix := Planned(vs[..n], maxMemory);
      match ResolverOf(n, vs[n], maxMemory)
      case Some(r) => prefix + [r]
      case None => prefix
  }

  /** The plan holds, in strictly increasing field order, exactly the resolvers the
      recognised tags ask for. */
  lemma PlannedShape(vs: seq<FieldView>, maxMemory: int)
    ensures forall k :: 0 <= k < |Planned(vs, maxMemory)| ==>
      0 <= Planned(vs, maxMemory)[k].FieldIndex() < |vs| &&
      ResolverOf(Planned(vs, maxMemory)[k].FieldIndex(), vs[Planned(vs, maxMemory)[k].FieldIndex()], maxMemory)
        == Some(Planned(vs, maxMemory)[k])
    ensures forall k1, k2 :: 0 <= k1 < k2 < |Planned(vs, maxMemory)| ==>
      Planned(vs, maxMemory)[k1].FieldIndex() < Planned(vs, maxMemory)[k2].FieldIndex()
    ensures forall i :: 0 <= i < |vs| && ResolverOf(i, vs[i], maxMemory).Some? ==>
      exists k :: 0 <= k < |Planned(vs, maxMemory)| && Planned(vs, maxMemory)[k].FieldIndex() == i
  {
    PlannedSound(vs, maxMemory);
    PlannedComplete(vs, maxMemory);
  }

  /** Every planned resolver is the one its field asks for, in increasing field order. */
  lemma {:induction false} PlannedSound(vs: seq<FieldView>, maxMemory: int)
    ensures forall k :: 0 <= k < |Planned(vs, maxMemory)| ==>
      0 <= Planned(vs, maxMemory)[k].FieldIndex() < |vs| &&
      ResolverOf(Planned(vs, maxMemory)[k].FieldIndex(), vs[Planned(vs, maxMemory)[k].FieldIndex()], maxMemory)
        == Some(Planned(vs, maxMemory)[k])
    ensures forall k1, k2 :: 0 <= k1 < k2 < |Planned(vs, maxMemory)| ==>
      Planned(vs, maxMemory)[k1].FieldIndex() < Planned(vs, maxMemory)[k2].FieldIndex()
    decreases |vs|
  {
    if vs != [] {
      var n := |vs| - 1;
      var pre := vs[..n];
      PlannedSound(pre, maxMemory);
      assert forall j :: 0 <= j < n ==> pre[j] == vs[j];
    }
  }

  /** Every field whose tag asks for a resolver has one in the plan. */
  lemma {:induction false} PlannedComplete(vs: seq<FieldView>, maxMemory: int)
    ensures forall i :: 0 <= i < |vs| && ResolverOf(i, vs[i], maxMemory).Some? ==>
      exists k :: 0 <= k < |Planned(vs, maxMemory)| && Planned(vs, maxMemory)[k].FieldIndex() == i
    decreases |vs|
  {
    if vs != [] {
      var n := |vs| - 1;
      var pre := vs[..n];
      PlannedComplete(pre, maxMemory);
      var q := Planned(pre, maxMemory);
      var p := Planned(vs, maxMemory);
      assert forall k :: 0 <= k < |q| ==> p[k] == q[k];
      forall i | 0 <= i < |vs| && ResolverOf(i, vs[i], maxMemory).Some?
        ensures exists k :: 0 <= k < |p| && p[k].FieldIndex() == i
      {
        if i < n {
          assert pre[i] == vs[i];
          assert ResolverOf(i, pre[i], maxMemory).Some?;
          var k :| 0 <= k < |q| && q[k].FieldIndex() == i;
          assert p[k] == q[k];
        } else {
          var r := ResolverOf(n, vs[n], maxMemory).value;
          assert p == q + [r];
          assert p[|q|].FieldIndex() == i;
        }
      }
      assert p == Planned(vs, maxMemory);
    }
  }

  /** What buildResolvers does with field i: skip it, add a resolver, or fail. */
  datatype Step = Skip | Add(r: FieldResolver) | Fail(err: Error)

  /** One iteration of buildResolvers' loop, given the body index found so far. */
  function StepOf(v: FieldView, i: nat, bodyFieldIdx: int, maxMemory: int): (s: Step)
    ensures s.Fail? <==> LocalFault(v) || (IsBody(v) && bodyFieldIdx >= 0)
    ensures s.Add? ==> ResolverOf(i, v, maxMemory) == Some(s.r)
    ensures s.Skip? ==> ResolverOf(i, v, maxMemory).None?
    ensures IsTagged(v) && !v.exported ==> s == Fail(Plain("field " + Quote(v.name) + " is tagged but not exported"))
  {
    if !IsTagged(v) then Skip
    else if !v.exported then Fail(Plain("field " + Quote(v.name) + " is tagged but not exported"))
    else match v.binding
      case BodyTag =>
        if bodyFieldIdx >= 0 then
          Fail(Plain("multiple body fields found: " + IntToString(bodyFieldIdx) + " and " + IntToString(i)))
        else Add(BodyResolver(i, v.typ))
      case NamedTag(k, name) =>
        if name == "" then Fail(Plain(KindWord(k) + " tag name cannot be empty for field " + Quote(v.name)))
        else if k == FileKind && v.typ != MultipartFileHeaderType then
          Fail(Plain("file field " + Quote(v.name) + " must be *multipart.FileHeader, got " + TypeName(v.typ)))
        else Add(ResolverOf(i, v, maxMemory).value)
      case _ => Skip
  }

  /** The step buildResolvers takes at field i of the whole struct. */
  function StepAt(vs: seq<FieldView>, i: nat, maxMemory: int): Step
    requires i < |vs|
  {
    StepOf(vs[i], i, BodyIndex(vs[..i]), maxMemory)
  }

  predicate NoFaultBefore(vs: seq<FieldView>, n: nat, maxMemory: int)
    requires n <= |vs|
  {
    forall j :: 0 <= j < n ==> !StepAt(vs, j, maxMemory).Fail?
  }

  const CombinationError: Error :=
    Plain("cannot combine body resolver with form/file resolvers: body consumes request body as JSON, form/file consume it as multipart or url-encoded data")

  /** The input type compiles: no field fails, and body is not combined with form or file. */
  predicate Compilable(vs: seq<FieldView>, maxMemory: int) {
    NoFaultBefore(vs, |vs|, maxMemory) && !(BodyIndex(vs) >= 0 && HasFormOrFile(vs))
  }

  /** A compiled plan: the resolvers in field order, and the body position or -1. */
  datatype Compiled = Compiled(resolvers: seq<FieldResolver>, bodyFieldIdx: int)

  lemma PrefixStep(vs: seq<FieldView>, i: nat, maxMemory: int)
    requires i < |vs|
    ensures BodyIndex(vs[..i + 1]) ==
      if BodyIndex(vs[..i]) >= 0 then BodyIndex(vs[..i]) else if IsBody(vs[i]) then i else -1
    ensures Planned(vs[..i + 1], maxMemory) ==
      Planned(vs[..i], maxMemory) + (match ResolverOf(i, vs[i], maxMemory) case Some(r) => [r] case None => [])
    ensures HasFormOrFile(vs[..i + 1]) <==> HasFormOrFile(vs[..i]) || IsFormOrFile(vs[i])
  {
    assert vs[..i + 1][..i] == vs[..i];
    assert vs[..i + 1][i] == vs[i];
    if HasFormOrFile(vs[..i + 1]) {
      var j :| 0 <= j < i + 1 && IsFormOrFile(vs[..i + 1][j]);
      if j < i {
        assert vs[..i][j] == vs[..i + 1][j];
      }
    }
    if HasFormOrFile(vs[..i]) {
      var j :| 0 <= j < i && IsFormOrFile(vs[..i][j]);
      assert vs[..i + 1][j] == vs[..i][j];
    }
  }

  /** Once field i fails, no later field is the first to fail and the plan does not compile. */
  lemma FirstFaultDecides(vs: seq<FieldView>, i: nat, maxMemory: int)
    requires i < |vs| && NoFaultBefore(vs, i, maxMemory) && StepAt(vs, i, maxMemory).Fail?
    ensures !Compilable(vs, maxMemory)
    ensures forall j :: 0 <= j < |vs| && NoFaultBefore(vs, j, maxMemory) && StepAt(vs, j, maxMemory).Fail? ==> j == i
  {
  }

  /** A step that does not fail extends the plan, the body index and the
      form/file flag of the prefix by field i alone. */
  lemma StepAdvances(vs: seq<FieldView>, i: nat, maxMemory: int)
    requires i < |vs| && NoFaultBefore(vs, i, maxMemory) && !StepAt(vs, i, maxMemory).Fail?
    ensures NoFaultBefore(vs, i + 1, maxMemory)
    ensures Planned(vs[..i + 1], maxMemory) ==
      Planned(vs[..i], maxMemory) + (if StepAt(vs, i, maxMemory).Add? then [StepAt(vs, i, maxMemory).r] else [])
    ensures BodyIndex(vs[..i + 1]) ==
      if StepAt(vs, i, maxMemory).Add? && StepAt(vs, i, maxMemory).r.BodyResolver? then i else BodyIndex(vs[..i])
    ensures HasFormOrFile(vs[..i + 1]) <==>
      HasFormOrFile(vs[..i]) ||
      (StepAt(vs, i, maxMemory).Add? && (StepAt(vs, i, maxMemory).r.FormResolver? || StepAt(vs, i, maxMemory).r.FileResolver?))
  {
    PrefixStep(vs, i, maxMemory);
  }

  /** Reads field i's `json` tag, normalised and classified. */
  method ViewAt(fields: seq<StructField>, i: nat) returns (v: FieldView)
    requires i < |fields|
    ensures v == Views(fields)[i]
  {
    v := ViewOf(fields[i]);
    ViewsIndex(fields, i);
  }

  /** buildResolvers. The struct's fields are read through their views. */
  method BuildResolvers(inputType: FieldType, maxMemory: int) returns (r: Result<Compiled, Error>)
    requires IsStructKind(inputType)
    ensures var vs := Views(FieldsOf(inputType));
      r.Success? <==> Compilable(vs, maxMemory)
    ensures var vs := Views(FieldsOf(inputType));
      r.Success? ==> r.value == Compiled(Planned(vs, maxMemory), BodyIndex(vs))
    ensures var vs := Views(FieldsOf(inputType));
      forall i :: 0 <= i < |vs| && NoFaultBefore(vs, i, maxMemory) && StepAt(vs, i, maxMemory).Fail? ==>
        r == Failure(StepAt(vs, i, maxMemory).err)
    ensures var vs := Views(FieldsOf(inputType));
      NoFaultBefore(vs, |vs|, maxMemory) && r.Failure? ==> r.error == CombinationError
  {
    var fields := FieldsOf(inputType);
    ghost var vs := Views(fields);
    var resolvers: seq<FieldResolver> := [];
    var bodyFieldIdx := -1;
    var hasFormOrFile := false;
    for i := 0 to |fields|
      invariant NoFaultBefore(vs, i, maxMemory)
      invariant resolvers == Planned(vs[..i], maxMemory)
      invariant bodyFieldIdx == BodyIndex(vs[..i])
      invariant hasFormOrFile == HasFormOrFile(vs[..i])
    {
      var view := ViewAt(fields, i);
      var step := StepOf(view, i, bodyFieldIdx, maxMemory);
      assert step == StepAt(vs, i, maxMemory);
      if step.Fail? {
        r := Failure(step.err);
        FirstFaultDecides(vs, i, maxMemory);
        return;
      }
      StepAdvances(vs, i, maxMemory);
      if step.Add? {
        resolvers := resolvers + [step.r];
        if step.r.BodyResolver? {
          bodyFieldIdx := i;
        }
        if step.r.FormResolver? || step.r.FileResolver? {
          hasFormOrFile := true;
        }
      }
    }
    assert vs[..|fields|] == vs;
    if bodyFieldIdx >= 0 && hasFormOrFile {
      return Failure(CombinationError);
    }
    r := Success(Compiled(resolvers, bodyFieldIdx));
  }

  // --- what a compiled plan guarantees ---

  predicate AtMostOneBody(vs: seq<FieldView>, n: nat)
    requires n <= |vs|
  {
    forall j, k :: 0 <= j < n && 0 <= k < n && IsBody(vs[j]) && IsBody(vs[k]) ==> j == k
  }

  lemma {:induction false} NoFaultBeforeIff(vs: seq<FieldView>, n: nat, maxMemory: int)
    requires n <= |vs|
    ensures NoFaultBefore(vs, n, maxMemory) <==>
      (forall j :: 0 <= j < n ==> !LocalFault(vs[j])) && AtMostOneBody(vs, n)
  {
    if n > 0 {
      NoFaultBeforeIff(vs, n - 1, maxMemory);
      var b := BodyIndex(vs[..n - 1]);
      assert forall j :: 0 <= j < n - 1 ==> vs[..n - 1][j] == vs[j];
      if b >= 0 {
        assert IsBody(vs[b]);
      }
      assert StepAt(vs, n - 1, maxMemory).Fail? <==> LocalFault(vs[n - 1]) || (IsBody(vs[n - 1]) && b >= 0);
    }
  }

  /** Whether a struct compiles does not depend on the order of its fields: it
      compiles exactly when no field has a fault of its own, at most one field is
      the body, and the body is not combined with a form or file field. */
  lemma CompilableIff(vs: seq<FieldView>, maxMemory: int)
    ensures Compilable(vs, maxMemory) <==>
      (forall j :: 0 <= j < |vs| ==> !LocalFault(vs[j])) && AtMostOneBody(vs, |vs|)
      && !((exists j :: 0 <= j < |vs| && IsBody(vs[j])) && HasFormOrFile(vs))
  {
    NoFaultBeforeIff(vs, |vs|, maxMemory);
    if exists j :: 0 <= j < |vs| && IsBody(vs[j]) {
      assert BodyIndex(vs) >= 0;
    }
  }

  /** In a compiled plan the body resolver, if any, is the one at the body index;
      it is there exactly when the struct has a body field, and then no form or file
      resolver is. */
  lemma CompiledBody(vs: seq<FieldView>, maxMemory: int)
    requires Compilable(vs, maxMemory)
    ensures forall k :: 0 <= k < |Planned(vs, maxMemory)| && Planned(vs, maxMemory)[k].BodyResolver? ==>
      Planned(vs, maxMemory)[k].FieldIndex() == BodyIndex(vs)
    ensures BodyIndex(vs) >= 0 ==>
      exists k :: 0 <= k < |Planned(vs, maxMemory)| && Planned(vs, maxMemory)[k].BodyResolver?
    ensures (exists k :: 0 <= k < |Planned(vs, maxMemory)| && Planned(vs, maxMemory)[k].BodyResolver?) ==>
      BodyIndex(vs) >= 0
    ensures BodyIndex(vs) >= 0 ==> forall k :: 0 <= k < |Planned(vs, maxMemory)| ==>
      !Planned(vs, maxMemory)[k].FormResolver? && !Planned(vs, maxMemory)[k].FileResolver?
  {
    var p := Planned(vs, maxMemory);
    PlannedShape(vs, maxMemory);
    assert forall k :: 0 <= k < |p| ==> 0 <= p[k].FieldIndex() < |vs|;
    NoFaultBeforeIff(vs, |vs|, maxMemory);
    var b := BodyIndex(vs);
    forall k | 0 <= k < |p| && p[k].BodyResolver?
      ensures p[k].FieldIndex() == b
    {
      assert IsBody(vs[p[k].FieldIndex()]);
    }
    if b >= 0 {
      assert IsBody(vs[b]) && ResolverOf(b, vs[b], maxMemory).Some?;
      var k :| 0 <= k < |p| && p[k].FieldIndex() == b;
      assert ResolverOf(b, vs[b], maxMemory) == Some(p[k]);
      assert p[k].BodyResolver?;
      assert exists k' :: 0 <= k' < |p| && p[k'].BodyResolver?;
    } else {
      assert forall k :: 0 <= k < |p| ==> !p[k].BodyResolver?;
    }
  }

  /** The first resolver bound to field `fieldIndex`, if any. */
  function FindByIndex(resolvers: seq<FieldResolver>, fieldIndex: int): (r: Option<FieldResolver>)
    ensures r.None? <==> forall k :: 0 <= k < |resolvers| ==> resolvers[k].FieldIndex() != fieldIndex
    ensures r.Some? ==> r.value in resolvers && r.value.FieldIndex() == fieldIndex
  {
    if resolvers == [] then None
    else if resolvers[0].FieldIndex() == fieldIndex then Some(resolvers[0])
    else FindByIndex(resolvers[1..], fieldIndex)
  }

  /** The resolver found is the first one with the index: when position k holds
      the index and no earlier position does, the search returns resolvers[k]. */
  lemma {:induction false} FindByIndexFirst(resolvers: seq<FieldResolver>, fieldIndex: int, k: nat)
    requires k < |resolvers| && resolvers[k].FieldIndex() == fieldIndex
    requires forall j :: 0 <= j < k ==> resolvers[j].FieldIndex() != fieldIndex
    ensures FindByIndex(resolvers, fieldIndex) == Some(resolvers[k])
    decreases k
  {
    if k > 0 {
      var rest := resolvers[1..];
      assert forall j :: 0 <= j < k - 1 ==> rest[j] == resolvers[j + 1];
      FindByIndexFirst(rest, fieldIndex, k - 1);
    }
  }

  /** resolverByFieldIndex: a linear scan for the first match. */
  method ResolverByFieldIndex(resolvers: seq<FieldResolver>, fieldIndex: int) returns (r: Option<FieldResolver>)
    ensures r == FindByIndex(resolvers, fieldIndex)
  {
    for k := 0 to |resolvers|
      invariant FindByIndex(resolvers, fieldIndex) == FindByIndex(resolvers[k..], fieldIndex)
    {
      assert resolvers[k..][1..] == resolvers[k + 1..];
      if resolvers[k].FieldIndex() == fieldIndex {
        return Some(resolvers[k]);
      }
    }
    return None;
  }

  /** The adapter always finds the body resolver of a compiled plan with a body. */
  lemma FindCompiledBody(vs: seq<FieldView>, maxMemory: int)
    requires Compilable(vs, maxMemory) && BodyIndex(vs) >= 0
    ensures FindByIndex(Planned(vs, maxMemory), BodyIndex(vs)) == Some(BodyResolver(BodyIndex(vs), vs[BodyIndex(vs)].typ))
  {
    var p := Planned(vs, maxMemory);
    CompiledBody(vs, maxMemory);
    PlannedShape(vs, maxMemory);
    var r := FindByIndex(p, BodyIndex(vs));
    var k :| 0 <= k < |p| && p[k] == r.value;
  }
}
